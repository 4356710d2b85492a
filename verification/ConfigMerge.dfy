/** Merging nested container configurations. */
module ConfigMerge {
  import opened Options

  datatype Key = Key(name: string)

  // Python's mappings, lists, strings (which are sequences, too) and the rest.
  datatype Tree = Dict(entries: map<Key, Tree>) | List(items: seq<Tree>) | Text(text: string) | Scalar(value: int)

  function Letters(text: string): seq<Tree> {
    seq(|text|, i requires 0 <= i < |text| => Text([text[i]]))
  }

  // What becomes of an entry of the destination when it meets an addition.
  function Meet(dest: Tree, addition: Tree): Option<Tree>
    decreases addition
  {
    match dest
    case Dict(d) =>
      if addition.Dict? then
        var a := addition.entries;
        if forall k :: k in a && k in d ==> Meet(d[k], a[k]).Some?
        then Some(Dict(map k | k in d.Keys + a.Keys ::
          if k !in a then d[k] else if k !in d then a[k] else Meet(d[k], a[k]).value))
        else None
      else None
    case List(items) =>
      if addition.List? then Some(List(items + addition.items))
      else if addition.Text? then Some(List(items + Letters(addition.text)))
      else None
    case Text(_) => None
    case Scalar(_) => Some(addition)
  }

  // The same key by key: an entry of a dictionary may be absent, and two
  // entries may be impossible to merge.
  datatype Slot = Absent | Here(tree: Tree) | Clash

  function At(d: map<Key, Tree>, k: Key): Slot {
    if k in d then Here(d[k]) else Absent
  }

  function Join(dest: Slot, addition: Slot): Slot {
    if dest.Clash? || addition.Clash? then Clash
    else if dest.Absent? then addition
    else if addition.Absent? then dest
    else match Meet(dest.tree, addition.tree) case Some(t) => Here(t) case None => Clash
  }

  lemma DictMeet(d: map<Key, Tree>, a: map<Key, Tree>)
    ensures Meet(Dict(d), Dict(a)).Some? <==> forall k :: Join(At(d, k), At(a, k)) != Clash
    ensures Meet(Dict(d), Dict(a)).Some? ==>
      && Meet(Dict(d), Dict(a)).value.Dict?
      && forall k :: At(Meet(Dict(d), Dict(a)).value.entries, k) == Join(At(d, k), At(a, k))
  {
    if !Meet(Dict(d), Dict(a)).Some? {
      var k :| k in a && k in d && Meet(d[k], a[k]).None?;
      assert Join(At(d, k), At(a, k)) == Clash;
    } else {
      forall k ensures Join(At(d, k), At(a, k)) != Clash {
      }
    }
  }

  lemma SameEntries(a: map<Key, Tree>, b: map<Key, Tree>)
    requires forall k :: At(a, k) == At(b, k)
    ensures a == b
  {
    forall k ensures k in a <==> k in b {
      assert At(a, k) == At(b, k);
    }
    forall k | k in a ensures a[k] == b[k] {
      assert At(a, k) == At(b, k);
    }
  }

  // ------------------------------------------------------------ along every path

  // What is found by following keys down nested mappings.
  function Look(tree: Option<Tree>, path: seq<Key>): Option<Tree>
    decreases |path|
  {
    if path == [] || tree == None then tree
    else if tree.value.Dict? && path[0] in tree.value.entries then Look(Some(tree.value.entries[path[0]]), path[1..])
    else None
  }

  // A mapping meets a mapping, a list a list or string, a plain value anything.
  predicate Fits(dest: Option<Tree>, addition: Option<Tree>) {
    dest.Some? && addition.Some? ==>
      || (dest.value.Dict? && addition.value.Dict?)
      || (dest.value.List? && (addition.value.List? || addition.value.Text?))
      || dest.value.Scalar?
  }

  // What is on one side only is kept; a list is followed by the items of the
  // other, or by its letters; a plain value is replaced.
  predicate IsMerged(dest: Option<Tree>, addition: Option<Tree>, merged: Option<Tree>) {
    && (dest == None ==> merged == addition)
    && (addition == None ==> merged == dest)
    && (dest.Some? && addition.Some? ==>
        && merged.Some?
        && (dest.value.Dict? ==> merged.value.Dict?)
        && (dest.value.Scalar? ==> merged == addition)
        && (dest.value.List? && addition.value.List? ==>
            merged.value == List(dest.value.items + addition.value.items))
        && (dest.value.List? && addition.value.Text? ==>
            var text := addition.value.text;
            && merged.value.List? && |merged.value.items| == |dest.value.items| + |text|
            && merged.value.items[..|dest.value.items|] == dest.value.items
            && forall i :: 0 <= i < |text| ==> merged.value.items[|dest.value.items| + i] == Text([text[i]])))
  }

  ghost predicate FitsAlong(dest: Tree, addition: Tree) {
    forall path :: Fits(Look(Some(dest), path), Look(Some(addition), path))
  }

  ghost predicate MergedAlong(dest: Tree, addition: Tree, merged: Tree) {
    forall path :: IsMerged(Look(Some(dest), path), Look(Some(addition), path), Look(Some(merged), path))
  }

  lemma NothingBelow(path: seq<Key>)
    ensures Look(None, path) == None
  {}

  // One step down.
  lemma LookDown(tree: Tree, path: seq<Key>)
    requires path != []
    ensures !tree.Dict? ==> Look(Some(tree), path) == None
    ensures tree.Dict? ==>
      Look(Some(tree), path) == Look(if path[0] in tree.entries then Some(tree.entries[path[0]]) else None, path[1..])
  {
    NothingBelow(path[1..]);
  }

  lemma {:induction false} MeetAlong(dest: Tree, addition: Tree, path: seq<Key>)
    requires Meet(dest, addition).Some?
    ensures Fits(Look(Some(dest), path), Look(Some(addition), path))
    ensures IsMerged(Look(Some(dest), path), Look(Some(addition), path), Look(Meet(dest, addition), path))
    decreases |path|
  {
    if path != [] {
      var merged := Meet(dest, addition).value;
      LookDown(dest, path);
      LookDown(addition, path);
      LookDown(merged, path);
      NothingBelow(path[1..]);
      if dest.Dict? && path[0] in dest.entries && path[0] in addition.entries {
        MeetAlong(dest.entries[path[0]], addition.entries[path[0]], path[1..]);
      }
    }
  }

  lemma {:induction false} ClashAlong(dest: Tree, addition: Tree) returns (path: seq<Key>)
    requires Meet(dest, addition).None?
    ensures !Fits(Look(Some(dest), path), Look(Some(addition), path))
    decreases addition
  {
    if dest.Dict? && addition.Dict? {
      var d, a := dest.entries, addition.entries;
      var k :| k in a && k in d && Meet(d[k], a[k]).None?;
      var rest := ClashAlong(d[k], a[k]);
      path := [k] + rest;
      assert path[1..] == rest;
    } else {
      path := [];
    }
  }

  // Meet, told without it: it is defined exactly when the two fit along every
  // path, and then is what they make along every path.
  lemma MeetExactly(dest: Tree, addition: Tree)
    ensures Meet(dest, addition).Some? <==> FitsAlong(dest, addition)
    ensures Meet(dest, addition).Some? ==> MergedAlong(dest, addition, Meet(dest, addition).value)
  {
    hide Meet, Look, Fits, IsMerged;
    if Meet(dest, addition).Some? {
      forall path
        ensures Fits(Look(Some(dest), path), Look(Some(addition), path))
        ensures IsMerged(Look(Some(dest), path), Look(Some(addition), path), Look(Meet(dest, addition), path))
      {
        MeetAlong(dest, addition, path);
      }
    } else {
      var path := ClashAlong(dest, addition);
    }
  }

  // ---------------------------------------------------------- update_nested_dict

  // What a merge that fails may leave of the destination: every entry is as it
  // was, merged, or itself left half merged.
  predicate HalfMerged(dest: Tree, addition: Tree, left: Tree)
    decreases addition
  {
    && dest.Dict? && addition.Dict? && left.Dict?
    && dest.entries.Keys <= left.entries.Keys <= dest.entries.Keys + addition.entries.Keys
    && forall k :: k in left.entries ==> EntryLeft(dest.entries, addition.entries, k, left.entries[k])
  }

  predicate EntryLeft(dest: map<Key, Tree>, additions: map<Key, Tree>, k: Key, left: Tree)
    requires k in dest || k in additions
    decreases Dict(additions), 0
  {
    || Here(left) == At(dest, k)
    || Here(left) == Join(At(dest, k), At(additions, k))
    || (k in dest && k in additions && HalfMerged(dest[k], additions[k], left))
  }

  // One key of the destination: a list is extended, a mapping merged in place.
  method MergeEntry(dest: Tree, v: Tree) returns (ok: bool, r: Tree)
    ensures ok ==> Meet(dest, v) == Some(r)
    ensures !ok ==> Meet(dest, v) == None && (r == dest || HalfMerged(dest, v, r))
    decreases v, 1
  {
    match dest
    case Dict(entries) =>
      if !v.Dict? {
        return false, dest;
      }
      var nested;
      ok, nested := UpdateNestedDict(entries, v.entries);
      assert v == Dict(v.entries);
      return ok, Dict(nested);
    case List(items) =>
      if v.List? {
        return true, List(items + v.items);
      } else if v.Text? {
        return true, List(items + Letters(v.text));
      }
      return false, dest;
    case Text(_) => return false, dest;
    case Scalar(_) => return true, v;
  }

  // Additions are merged key by key, in any order, until one does not fit.
  method UpdateNestedDict(dest: map<Key, Tree>, additions: map<Key, Tree>)
    returns (ok: bool, result: map<Key, Tree>)
    ensures ok <==> FitsAlong(Dict(dest), Dict(additions))
    ensures ok ==> MergedAlong(Dict(dest), Dict(additions), Dict(result))
    ensures ok ==> Meet(Dict(dest), Dict(additions)) == Some(Dict(result))
    ensures !ok ==> Meet(Dict(dest), Dict(additions)) == None && HalfMerged(Dict(dest), Dict(additions), Dict(result))
    decreases Dict(additions), 0
  {
    hide Meet, HalfMerged, FitsAlong, MergedAlong;
    DictMeet(dest, additions);
    MeetExactly(Dict(dest), Dict(additions));
    var todo := additions.Keys;
    result := dest;
    while todo != {}
      invariant todo <= additions.Keys
      invariant forall k :: k in todo ==> At(result, k) == At(dest, k)
      invariant forall k :: k !in todo ==> At(result, k) == Join(At(dest, k), At(additions, k))
      decreases |todo|
    {
      var k :| k in todo;
      assert At(result, k) == At(dest, k);
      var v := additions[k];
      if k !in result {
        result := result[k := v];
      } else {
        var fits, entry := MergeEntry(result[k], v);
        if !fits {
          assert Join(At(dest, k), At(additions, k)) == Clash;
          LeftBehind(dest, additions, result, todo, k, entry);
          return false, result[k := entry];
        }
        result := result[k := entry];
      }
      todo := todo - {k};
    }
    forall k ensures Join(At(dest, k), At(additions, k)) != Clash {
      assert At(result, k) == Join(At(dest, k), At(additions, k));
    }
    SameEntries(result, Meet(Dict(dest), Dict(additions)).value.entries);
    return true, result;
  }

  lemma LeftBehind(dest: map<Key, Tree>, additions: map<Key, Tree>, result: map<Key, Tree>, todo: set<Key>,
    bad: Key, entry: Tree)
    requires bad in dest && bad in additions && bad in todo && todo <= additions.Keys
    requires forall k :: k in todo ==> At(result, k) == At(dest, k)
    requires forall k :: k !in todo ==> At(result, k) == Join(At(dest, k), At(additions, k))
    requires entry == dest[bad] || HalfMerged(dest[bad], additions[bad], entry)
    ensures HalfMerged(Dict(dest), Dict(additions), Dict(result[bad := entry]))
  {
    hide Meet;
    var left := result[bad := entry];
    forall k | k in dest ensures k in left {
      assert k in todo ==> At(result, k) == At(dest, k);
      assert k !in todo ==> At(result, k) == Join(At(dest, k), At(additions, k));
    }
    forall k | k in left ensures (k in dest || k in additions) && EntryLeft(dest, additions, k, left[k]) {
      if k != bad {
        assert At(result, k) == Here(left[k]);
        assert At(result, k) == At(dest, k) || At(result, k) == Join(At(dest, k), At(additions, k));
      }
    }
  }

  // Merging is associative: when the two neighbouring pairs of three fragments
  // can be merged, both groupings are defined together and give the same tree.
  lemma {:induction false} MergeIsAssociative(x: Tree, y: Tree, z: Tree)
    requires Meet(x, y).Some? && Meet(y, z).Some?
    ensures Meet(Meet(x, y).value, z) == Meet(x, Meet(y, z).value)
    decreases z
  {
    if x.Dict? && y.Dict? && z.Dict? {
      var a, b, c := x.entries, y.entries, z.entries;
      forall k | k in a && k in b && k in c && Meet(a[k], b[k]).Some? && Meet(b[k], c[k]).Some?
        ensures Meet(Meet(a[k], b[k]).value, c[k]) == Meet(a[k], Meet(b[k], c[k]).value)
      {
        MergeIsAssociative(a[k], b[k], c[k]);
      }
      DictsAssociative(a, b, c);
    } else if x.List? && y.List? && z.List? {
      assert x.items + y.items + z.items == x.items + (y.items + z.items);
    } else if x.List? && y.List? && z.Text? {
      assert x.items + y.items + Letters(z.text) == x.items + (y.items + Letters(z.text));
    }
  }

  lemma DictsAssociative(a: map<Key, Tree>, b: map<Key, Tree>, c: map<Key, Tree>)
    requires Meet(Dict(a), Dict(b)).Some? && Meet(Dict(b), Dict(c)).Some?
    requires forall k :: k in a && k in b && k in c && Meet(a[k], b[k]).Some? && Meet(b[k], c[k]).Some? ==>
      Meet(Meet(a[k], b[k]).value, c[k]) == Meet(a[k], Meet(b[k], c[k]).value)
    ensures Meet(Meet(Dict(a), Dict(b)).value, Dict(c)) == Meet(Dict(a), Meet(Dict(b), Dict(c)).value)
  {
    hide Meet;
    DictMeet(a, b);
    DictMeet(b, c);
    var ab, bc := Meet(Dict(a), Dict(b)).value.entries, Meet(Dict(b), Dict(c)).value.entries;
    DictMeet(ab, c);
    DictMeet(a, bc);
    forall k ensures Join(At(ab, k), At(c, k)) == Join(At(a, k), At(bc, k)) {
      assert Join(At(a, k), At(b, k)) != Clash && Join(At(b, k), At(c, k)) != Clash;
      assert At(ab, k) == Join(At(a, k), At(b, k)) && At(bc, k) == Join(At(b, k), At(c, k));
    }
    if Meet(Dict(ab), Dict(c)).Some? {
      SameEntries(Meet(Dict(ab), Dict(c)).value.entries, Meet(Dict(a), Dict(bc)).value.entries);
    }
  }

  // Somewhere a container or string of x is met by a plain value of y, which
  // it cannot absorb but which a third fragment could still replace.
  predicate Overwritten(x: Tree, y: Tree)
    decreases y
  {
    if x.Dict? && y.Dict? then exists k :: k in x.entries && k in y.entries && Overwritten(x.entries[k], y.entries[k])
    else y.Scalar? && !x.Scalar?
  }

  // Somewhere a string of y is met again, which it does not allow, although the
  // letters of it can be added to a list.
  predicate MetAgain(y: Tree, z: Tree)
    decreases z
  {
    if y.Dict? && z.Dict? then exists k :: k in y.entries && k in z.entries && MetAgain(y.entries[k], z.entries[k])
    else y.Text?
  }

  lemma {:induction false} FitsIsNeither(x: Tree, y: Tree)
    requires Meet(x, y).Some?
    ensures !Overwritten(x, y) && !MetAgain(x, y)
    decreases y
  {
    if x.Dict? && y.Dict? {
      var a, b := x.entries, y.entries;
      forall k | k in a && k in b ensures !Overwritten(a[k], b[k]) && !MetAgain(a[k], b[k]) {
        FitsIsNeither(a[k], b[k]);
      }
    }
  }

  lemma {:induction false} LeftNeedsRight(x: Tree, y: Tree, z: Tree)
    requires Meet(x, y).Some? && Meet(Meet(x, y).value, z).Some? && !MetAgain(y, z)
    ensures Meet(y, z).Some?
    decreases z
  {
    if x.Dict? && y.Dict? && z.Dict? {
      var a, b, c := x.entries, y.entries, z.entries;
      var ab := Meet(x, y).value.entries;
      forall k | k in b && k in c ensures Meet(b[k], c[k]).Some? {
        assert k in ab && Meet(ab[k], c[k]).Some?;
        if k in a {
          LeftNeedsRight(a[k], b[k], c[k]);
        }
      }
    }
  }

  lemma {:induction false} RightNeedsLeft(x: Tree, y: Tree, z: Tree)
    requires Meet(y, z).Some? && Meet(x, Meet(y, z).value).Some? && !Overwritten(x, y)
    ensures Meet(x, y).Some?
    decreases z
  {
    if x.Dict? && y.Dict? && z.Dict? {
      var a, b, c := x.entries, y.entries, z.entries;
      var bc := Meet(y, z).value.entries;
      forall k | k in a && k in b ensures Meet(a[k], b[k]).Some? {
        assert k in bc && Meet(a[k], bc[k]).Some?;
        if k in c {
          RightNeedsLeft(a[k], b[k], c[k]);
        }
      }
    }
  }

  predicate FromLeft(x: Tree, y: Tree, z: Tree) {
    Meet(x, y).Some? && Meet(Meet(x, y).value, z).Some?
  }

  predicate FromRight(x: Tree, y: Tree, z: Tree) {
    Meet(y, z).Some? && Meet(x, Meet(y, z).value).Some?
  }

  // Where one grouping is defined, what decides about the other can be read off
  // two of the fragments; where both are, they give the same tree.
  lemma GroupingsAgree(x: Tree, y: Tree, z: Tree)
    ensures FromRight(x, y, z) ==> (FromLeft(x, y, z) <==> !Overwritten(x, y))
    ensures FromLeft(x, y, z) ==> (FromRight(x, y, z) <==> !MetAgain(y, z))
    ensures FromLeft(x, y, z) && FromRight(x, y, z) ==> Meet(Meet(x, y).value, z) == Meet(x, Meet(y, z).value)
  {
    hide Meet, Overwritten, MetAgain;
    if Meet(x, y).Some? {
      FitsIsNeither(x, y);
    }
    if Meet(y, z).Some? {
      FitsIsNeither(y, z);
    }
    if FromLeft(x, y, z) && !MetAgain(y, z) {
      LeftNeedsRight(x, y, z);
    }
    if FromRight(x, y, z) && !Overwritten(x, y) {
      RightNeedsLeft(x, y, z);
    }
    if Meet(x, y).Some? && Meet(y, z).Some? {
      MergeIsAssociative(x, y, z);
    }
  }

  // Both happen: a list, a number and a list under one key can be merged from
  // the right only; a list, a string and a list from the left only.
  lemma GroupingMatters(k: Key)
    ensures var list, number, text := Dict(map[k := List([])]), Dict(map[k := Scalar(0)]), Dict(map[k := Text("")]);
      && FromRight(list, number, list) && !FromLeft(list, number, list)
      && FromLeft(list, text, list) && !FromRight(list, text, list)
  {
    var l, n, s := map[k := List([])], map[k := Scalar(0)], map[k := Text("")];
    assert Meet(l[k], n[k]) == None && Meet(n[k], l[k]) == Some(l[k]) && Meet(s[k], l[k]) == None;
    OneKey(k, l[k], n[k]);
    OneKey(k, n[k], l[k]);
    OneKey(k, l[k], l[k]);
    OneKey(k, l[k], s[k]);
    OneKey(k, s[k], l[k]);
    OneKey(k, Meet(l[k], s[k]).value, l[k]);
  }

  lemma OneKey(k: Key, a: Tree, b: Tree)
    ensures Meet(Dict(map[k := a]), Dict(map[k := b]))
      == match Meet(a, b) case Some(t) => Some(Dict(map[k := t])) case None => None
  {
    hide Meet;
    var d, e := map[k := a], map[k := b];
    DictMeet(d, e);
    assert At(d, k) == Here(a) && At(e, k) == Here(b);
    assert forall j :: j != k ==> At(d, j) == Absent && At(e, j) == Absent;
    match Meet(a, b)
    case None =>
      assert Join(At(d, k), At(e, k)) == Clash;
    case Some(t) =>
      forall j ensures Join(At(d, j), At(e, j)) == At(map[k := t], j) {
        if j != k {
          assert At(d, j) == Absent && At(e, j) == Absent;
        }
      }
      SameEntries(Meet(Dict(d), Dict(e)).value.entries, map[k := t]);
  }
}

/** A kernel's resource spec, written to resource.txt and read back when the agent
    restarts.  Its values are of any types with printed forms. */
module ResourceSpec {
  import opened Options
  import opened Strings
  import opened ResourceText

  // How the values of a spec are printed and read; None is an exception.
  datatype Format<!S, !M, !L, !A> = Format(
    showSize: S -> string, readSize: string -> Option<S>,
    showMount: M -> string, readMount: string -> Option<M>,
    showSlots: L -> string, readSlots: string -> Option<L>,
    showAmount: Show<A>, readAmount: Read<A>)

  datatype KernelSpec<S, M, L, A> = KernelSpec(
    containerId: string, scratchSize: S, mounts: seq<M>, slots: L, allocations: Nested<A>)

  function Printed<M>(mounts: seq<M>, show: M -> string): (parts: seq<string>)
    ensures |parts| == |mounts|
  {
    seq(|mounts|, i requires 0 <= i < |mounts| => show(mounts[i]))
  }

  function HeaderFor<S, M, L, A>(spec: KernelSpec<S, M, L, A>, f: Format<S, M, L, A>): Header {
    Header(spec.containerId, f.showSize(spec.scratchSize), Join(Printed(spec.mounts, f.showMount), ','),
           f.showSlots(spec.slots))
  }

  // Empty entries are passed over.
  function ReadMounts<M>(parts: seq<string>, read: string -> Option<M>): Option<seq<M>> {
    if parts == [] then Some([])
    else match ReadMounts(parts[..|parts| - 1], read)
      case None => None
      case Some(mounts) =>
        var part := parts[|parts| - 1];
        if part == "" then Some(mounts)
        else match read(part)
          case None => None
          case Some(mount) => Some(mounts + [mount])
  }

  function Interpret<S, M, L, A>(spec: Spec<A>, f: Format<S, M, L, A>): Option<KernelSpec<S, M, L, A>> {
    var mounts := ReadMounts(Split(spec.header.mounts, ','), f.readMount);
    var size, slots := f.readSize(spec.header.scratchSize), f.readSlots(spec.header.slots);
    if mounts.None? || size.None? || slots.None? then None
    else Some(KernelSpec(spec.header.cid, size.value, mounts.value, slots.value, spec.allocations))
  }

  // rows: the entries of spec.allocations, in the order of their iteration.
  method WriteToString<S, M, L, A>(spec: KernelSpec<S, M, L, A>, rows: seq<Row<A>>, f: Format<S, M, L, A>)
    returns (text: Option<string>)
    ensures text == if forall row :: row in rows ==> Prefixed(row)
      then Some(Terminated(HeaderLines(HeaderFor(spec, f)) + ShareLines(rows, f.showAmount))) else None
  {
    text := WriteLines(HeaderFor(spec, f), rows, f.showAmount);
  }

  method ReadFromString<S, M, L, A>(text: string, f: Format<S, M, L, A>) returns (spec: Option<KernelSpec<S, M, L, A>>)
    ensures spec == match Parse(text, f.readAmount) case None => None case Some(s) => Interpret(s, f)
  {
    hide Parse, ReadMounts, Split;
    var parsed := ReadText(text, f.readAmount);
    if parsed.None? {
      return None;
    }
    var header := parsed.value.header;
    var mounts := ReadMountList(Split(header.mounts, ','), f.readMount);
    var size, slots := f.readSize(header.scratchSize), f.readSlots(header.slots);
    if mounts.None? || size.None? || slots.None? {
      return None;
    }
    return Some(KernelSpec(header.cid, size.value, mounts.value, slots.value, parsed.value.allocations));
  }

  method ReadMountList<M>(parts: seq<string>, read: string -> Option<M>) returns (mounts: Option<seq<M>>)
    ensures mounts == ReadMounts(parts, read)
  {
    var found: seq<M> := [];
    for i := 0 to |parts|
      invariant ReadMounts(parts[..i], read) == Some(found)
    {
      assert parts[..i + 1][..i] == parts[..i];
      if parts[i] != "" {
        var mount := read(parts[i]);
        if mount.None? {
          MountsStayNone(parts, i + 1, read);
          return None;
        }
        found := found + [mount.value];
      }
    }
    assert parts[..|parts|] == parts;
    return Some(found);
  }

  lemma {:induction false} MountsStayNone<M>(parts: seq<string>, i: nat, read: string -> Option<M>)
    requires i <= |parts| && ReadMounts(parts[..i], read) == None
    ensures ReadMounts(parts, read) == None
  {
    if i == |parts| {
      assert parts[..i] == parts;
    } else {
      assert parts[..|parts| - 1][..i] == parts[..i];
      MountsStayNone(parts[..|parts| - 1], i, read);
    }
  }

  // A mount with a comma-free text form that can be read back.
  predicate CleanMount<M(==)>(mount: M, show: M -> string, read: string -> Option<M>) {
    show(mount) != "" && CleanValue(show(mount)) && ',' !in show(mount) && read(show(mount)) == Some(mount)
  }

  ghost predicate CleanSpec<S, M, L, A>(spec: KernelSpec<S, M, L, A>, rows: seq<Row<A>>, f: Format<S, M, L, A>) {
    && CleanValue(spec.containerId)
    && CleanValue(f.showSize(spec.scratchSize)) && f.readSize(f.showSize(spec.scratchSize)) == Some(spec.scratchSize)
    && CleanValue(f.showSlots(spec.slots)) && f.readSlots(f.showSlots(spec.slots)) == Some(spec.slots)
    && (forall mount :: mount in spec.mounts ==> CleanMount(mount, f.showMount, f.readMount))
    && (forall row :: row in rows ==> CleanRow(row, f.showAmount, f.readAmount))
    && spec.allocations == Nest(rows)
  }

  lemma {:induction false} MountsParse<M>(mounts: seq<M>, show: M -> string, read: string -> Option<M>)
    requires forall mount :: mount in mounts ==> CleanMount(mount, show, read)
    ensures ReadMounts(Printed(mounts, show), read) == Some(mounts)
  {
    if mounts != [] {
      var n := |mounts| - 1;
      MountsParse(mounts[..n], show, read);
      assert Printed(mounts, show)[..n] == Printed(mounts[..n], show);
      assert CleanMount(mounts[n], show, read);
      assert mounts == mounts[..n] + [mounts[n]];
    }
  }

  lemma {:induction false} JoinIsClean(parts: seq<string>)
    requires forall p :: p in parts ==> p != "" && CleanValue(p)
    ensures CleanValue(Join(parts, ',')) && (parts != [] ==> Join(parts, ',') != "")
  {
    hide IsSpace;
    assert parts != [] ==> parts[0] in parts;
    if |parts| > 1 {
      assert forall p :: p in parts[1..] ==> p in parts;
      JoinIsClean(parts[1..]);
      var rest := Join(parts[1..], ',');
      var all := Join(parts, ',');
      assert all == parts[0] + [','] + rest;
      assert all[|all| - 1] == rest[|rest| - 1];
    }
  }

  lemma MountsRoundTrip<M>(mounts: seq<M>, show: M -> string, read: string -> Option<M>)
    requires forall mount :: mount in mounts ==> CleanMount(mount, show, read)
    ensures CleanValue(Join(Printed(mounts, show), ','))
    ensures ReadMounts(Split(Join(Printed(mounts, show), ','), ','), read) == Some(mounts)
  {
    hide CleanValue;
    var parts := Printed(mounts, show);
    forall p | p in parts ensures p != "" && CleanValue(p) && ',' !in p {
      var i :| 0 <= i < |mounts| && p == show(mounts[i]);
      assert CleanMount(mounts[i], show, read);
    }
    JoinIsClean(parts);
    MountsParse(mounts, show, read);
    if parts == [] {
      assert Split("", ',') == [""] && [""][..0] == [];
      assert ReadMounts([""][..0], read) == Some([]);
    } else {
      SplitJoin(parts, ',');
    }
  }

  // Printing and then parsing a spec gives it back, value by value, also when the
  // text went through a file.
  lemma RoundTrip<S, M, L, A>(spec: KernelSpec<S, M, L, A>, rows: seq<Row<A>>, f: Format<S, M, L, A>)
    requires DistinctSlots(rows) && CleanSpec(spec, rows, f)
    ensures var text := Terminated(HeaderLines(HeaderFor(spec, f)) + ShareLines(rows, f.showAmount));
      var expected := Spec(HeaderFor(spec, f), spec.allocations);
      && Parse(text, f.readAmount) == Parse(Reread(text), f.readAmount) == Some(expected)
      && Interpret(expected, f) == Some(spec)
  {
    hide Parse, Reread, Terminated, HeaderLines, ShareLines, Split, Join, ReadMounts, CleanRow, CleanMount, CleanValue;
    MountsRoundTrip(spec.mounts, f.showMount, f.readMount);
    TextRoundTrip(HeaderFor(spec, f), rows, f.showAmount, f.readAmount);
  }
}

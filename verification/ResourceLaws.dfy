/** What is written for a resource spec and what is read from any text at all,
    told line by line. */
module ResourceLaws {
  import opened Options
  import opened Strings
  import opened ResourceText
  import opened ResourceSpec

  // ------------------------------------------------------------------- writing

  function Written<A>(h: Header, rows: seq<Row<A>>, show: Show<A>): string {
    Terminated(HeaderLines(h) + ShareLines(rows, show))
  }

  // Every slot adds one line: its name in capitals and its shares.
  lemma WrittenRow<A>(h: Header, rows: seq<Row<A>>, row: Row<A>, show: Show<A>) returns (key: string)
    ensures Written(h, rows + [row], show)
      == Written(h, rows, show) + key + "_SHARES=" + WrittenShares(row.slot, row.shares, show) + "\n"
    ensures |key| == |row.slot| && forall i :: 0 <= i < |key| ==>
      if 'a' <= row.slot[i] <= 'z' then key[i] as int == row.slot[i] as int - 'a' as int + 'A' as int
      else key[i] == row.slot[i]
  {
    key := Upper(row.slot);
    var all := rows + [row];
    NextLine(h, all, |rows|, show);
    assert all[..|rows| + 1] == all && all[..|rows|] == rows;
    forall i | 0 <= i < |key|
      ensures if 'a' <= row.slot[i] <= 'z' then key[i] as int == row.slot[i] as int - 'a' as int + 'A' as int
        else key[i] == row.slot[i]
    {
      CaseExactly(row.slot, i);
    }
  }

  function WrittenShares<A>(slot: string, shares: seq<(string, A)>, show: Show<A>): string {
    Join(Pieces(slot, shares, show), ',')
  }

  // The shares are listed in order, as ID and amount, with commas between them.
  lemma WrittenShare<A>(slot: string, shares: seq<(string, A)>, share: (string, A), show: Show<A>)
    ensures WrittenShares(slot, [], show) == ""
    ensures WrittenShares(slot, shares + [share], show)
      == (if shares == [] then "" else WrittenShares(slot, shares, show) + ",") + share.0 + ":" + show(slot, share.1)
  {
    var pieces, piece := Pieces(slot, shares, show), share.0 + ":" + show(slot, share.1);
    assert Pieces(slot, shares + [share], show) == pieces + [piece];
    if shares != [] {
      JoinSnoc(pieces, piece, ',');
    }
  }

  lemma {:induction false} JoinSnoc(parts: seq<string>, part: string, sep: char)
    requires parts != []
    ensures Join(parts + [part], sep) == Join(parts, sep) + [sep] + part
  {
    assert (parts + [part])[1..] == parts[1..] + [part];
    if |parts| == 1 {
      assert parts[1..] + [part] == [part];
    } else {
      JoinSnoc(parts[1..], part, sep);
    }
  }

  // Nothing is written exactly when some slot is neither named like its device nor
  // has that name and a dot in front.
  lemma PrefixExactly<A>(row: Row<A>)
    ensures var n := |row.device|;
      Prefixed(row) <==>
        row.slot == row.device || (n < |row.slot| && row.slot[n] == '.' && row.slot[..n] == row.device)
  {
    var prefix := row.device + ".";
    if |prefix| <= |row.slot| {
      var n := |row.device|;
      assert row.slot[..n + 1] == row.slot[..n] + [row.slot[n]];
      assert row.slot[..n + 1] == prefix ==> row.slot[..n + 1][..n] == row.device && row.slot[..n + 1][n] == '.';
    }
  }

  // ------------------------------------------------------------------- reading

  // The line assigns to the key; of several such lines the last one counts.
  predicate Assigns(line: string, key: string) { '=' in line && Before(Strip(line), '=') == key }

  predicate Counts(lines: seq<string>, key: string, i: int) {
    0 <= i < |lines| && Assigns(lines[i], key) && forall j :: i < j < |lines| ==> !Assigns(lines[j], key)
  }

  function ValueIn(line: string): string { Behind(Strip(line), '=') }

  predicate DistinctKeys(pairs: seq<(string, string)>) {
    forall i, j :: 0 <= i < j < |pairs| ==> pairs[i].0 != pairs[j].0
  }

  lemma {:induction false} SetExactly(pairs: seq<(string, string)>, key: string, val: string)
    requires DistinctKeys(pairs)
    ensures DistinctKeys(Set(pairs, key, val))
    ensures forall p :: p in Set(pairs, key, val) <==> if p.0 == key then p.1 == val else p in pairs
  {
    if pairs != [] {
      var rest := pairs[1..];
      assert pairs == [pairs[0]] + rest;
      if pairs[0].0 == key {
        assert forall p :: p in rest ==> p.0 != key;
      } else {
        SetExactly(rest, key, val);
        var set' := Set(rest, key, val);
        forall j | 0 <= j < |set'| ensures set'[j].0 != pairs[0].0 {
          assert set'[j] in set';
        }
      }
    }
  }

  lemma {:induction false} KeyValuesExactly(lines: seq<string>)
    ensures DistinctKeys(KeyValues(Relevant(lines)))
    ensures forall p :: p in KeyValues(Relevant(lines)) <==>
      exists i :: Counts(lines, p.0, i) && ValueIn(lines[i]) == p.1
  {
    hide Strip, Before, Behind;
    if lines != [] {
      var n := |lines| - 1;
      KeyValuesExactly(lines[..n]);
      assert lines[..n + 1] == lines;
      if '=' in lines[n] {
        RelevantNext(lines, n);
        SetExactly(KeyValues(Relevant(lines[..n])), Pair(lines[n]).0, Pair(lines[n]).1);
      }
      forall p ensures p in KeyValues(Relevant(lines)) <==>
        exists i :: Counts(lines, p.0, i) && ValueIn(lines[i]) == p.1
      {
        CountsNext(lines, p.0);
      }
    }
  }

  lemma CountsNext(lines: seq<string>, key: string)
    requires lines != []
    ensures var n := |lines| - 1;
      forall i :: Counts(lines, key, i) <==> if Assigns(lines[n], key) then i == n else Counts(lines[..n], key, i)
  {
    hide Assigns;
    var n := |lines| - 1;
    assert forall i :: 0 <= i < n ==> lines[..n][i] == lines[i];
  }

  // An entry of a list of shares that gives an amount for the ID, and one that
  // makes the reading fail; any other is passed over.
  predicate Gives<A>(entry: string, slot: string, id: string, read: Read<A>) {
    && id != "" && Before(entry, ':') == id && Behind(entry, ':') != ""
    && read(slot, Behind(entry, ':')).Amount?
  }

  predicate Breaks<A>(entry: string, slot: string, read: Read<A>) {
    Before(entry, ':') != "" && Behind(entry, ':') != "" && read(slot, Behind(entry, ':')).Malformed?
  }

  predicate GivesLast<A>(entries: seq<string>, slot: string, id: string, read: Read<A>, i: int) {
    && 0 <= i < |entries| && Gives(entries[i], slot, id, read)
    && forall j :: i < j < |entries| ==> !Gives(entries[j], slot, id, read)
  }

  // Every ID has the amount of the last entry that gives one.
  ghost predicate IsReading<A>(shares: map<string, A>, slot: string, entries: seq<string>, read: Read<A>) {
    && (forall id :: id in shares <==> exists i :: 0 <= i < |entries| && Gives(entries[i], slot, id, read))
    && forall id, i :: GivesLast(entries, slot, id, read, i) ==>
        id in shares && read(slot, Behind(entries[i], ':')) == Amount(shares[id])
  }

  lemma {:induction false} SharesExactly<A>(slot: string, entries: seq<string>, read: Read<A>)
    ensures ParseShares(slot, entries, read) == None <==> exists e :: e in entries && Breaks(e, slot, read)
    ensures ParseShares(slot, entries, read).Some? ==>
      IsReading(ParseShares(slot, entries, read).value, slot, entries, read)
  {
    hide Before, Behind, IsReading;
    if entries == [] {
      NoReading(slot, read);
    } else {
      var n := |entries| - 1;
      var init, e := entries[..n], entries[n];
      assert entries == init + [e];
      SharesExactly(slot, init, read);
      assert e in entries && forall d :: d in init ==> d in entries;
      if ParseShares(slot, init, read).Some? && AddShare(slot, ParseShares(slot, init, read).value, e, read).Some? {
        NextReading(ParseShares(slot, init, read).value, slot, init, e, read);
      }
    }
  }

  lemma NoReading<A>(slot: string, read: Read<A>)
    ensures IsReading(map[], slot, [], read)
  {}

  lemma NextReading<A>(shares: map<string, A>, slot: string, entries: seq<string>, e: string, read: Read<A>)
    requires IsReading(shares, slot, entries, read) && AddShare(slot, shares, e, read).Some?
    ensures IsReading(AddShare(slot, shares, e, read).value, slot, entries + [e], read)
  {
    hide Before, Behind;
    var all, now := entries + [e], AddShare(slot, shares, e, read).value;
    var n := |entries|;
    assert all[n] == e && forall i :: 0 <= i < n ==> all[i] == entries[i];
    forall id ensures id in now <==> exists i :: 0 <= i <= n && Gives(all[i], slot, id, read) {
      if i :| 0 <= i < n && Gives(entries[i], slot, id, read) {
        assert Gives(all[i], slot, id, read);
      }
      assert id in now <==> id in shares || Gives(all[n], slot, id, read);
    }
    forall id, i | GivesLast(all, slot, id, read, i)
      ensures id in now && read(slot, Behind(all[i], ':')) == Amount(now[id])
    {
      if i < n {
        assert !Gives(all[n], slot, id, read);
        assert forall j :: i < j < n ==> entries[j] == all[j];
        assert GivesLast(entries, slot, id, read, i);
      }
    }
  }

  // The key is that of the shares of the slot.
  predicate NamesShares(key: string, slot: string) {
    |key| >= 7 && key[|key| - 7..] == "_SHARES" && slot == Lower(key[..|key| - 7])
  }

  ghost predicate ReadFor<A(!new)>(pairs: seq<(string, string)>, slot: string, shares: map<string, A>, read: Read<A>) {
    exists p :: p in pairs && NamesShares(p.0, slot) && ParseShares(slot, Split(p.1, ','), read) == Some(shares)
  }

  ghost predicate HasEntered<A(!new)>(nested: Nested<A>, pairs: seq<(string, string)>, read: Read<A>) {
    && (forall device, slot :: device in nested && slot in nested[device] ==>
        device == Before(slot, '.') && ReadFor(pairs, slot, nested[device][slot], read))
    && (forall p, slot :: p in pairs && NamesShares(p.0, slot) ==>
        Before(slot, '.') in nested && slot in nested[Before(slot, '.')])
  }

  lemma {:induction false} EnteredExactly<A(!new)>(pairs: seq<(string, string)>, read: Read<A>)
    ensures Entered(pairs, read) == None <==>
      exists p, slot :: p in pairs && NamesShares(p.0, slot) && ParseShares(slot, Split(p.1, ','), read) == None
    ensures Entered(pairs, read).Some? ==> HasEntered(Entered(pairs, read).value, pairs, read)
  {
    hide Before, ParseShares, Split, HasEntered, Put;
    if pairs == [] {
      NoneEntered(read);
    } else {
      var n := |pairs| - 1;
      var init, pair := pairs[..n], pairs[n];
      assert pairs == init + [pair];
      EnteredExactly(init, read);
      if EndsWith(pair.0, SUFFIX) {
        var slot := Lower(pair.0[..|pair.0| - 7]);
        assert NamesShares(pair.0, slot) && forall s :: NamesShares(pair.0, s) ==> s == slot;
        if Entered(init, read).Some? && ParseShares(slot, Split(pair.1, ','), read).Some? {
          EnteredNext(Entered(init, read).value, init, pair, slot, read);
        }
      } else {
        assert forall s :: !NamesShares(pair.0, s);
        if Entered(init, read).Some? {
          EnteredSame(Entered(init, read).value, init, pair, read);
        }
      }
    }
  }

  lemma NoneEntered<A(!new)>(read: Read<A>)
    ensures HasEntered(map[], [], read)
  {}

  lemma EnteredSame<A(!new)>(nested: Nested<A>, pairs: seq<(string, string)>, pair: (string, string), read: Read<A>)
    requires HasEntered(nested, pairs, read) && forall slot :: !NamesShares(pair.0, slot)
    ensures HasEntered(nested, pairs + [pair], read)
  {
    hide Before, ParseShares, Split, NamesShares;
    var all := pairs + [pair];
    forall slot, shares | ReadFor(pairs, slot, shares, read) ensures ReadFor(all, slot, shares, read) {
      var p :| p in pairs && NamesShares(p.0, slot) && ParseShares(slot, Split(p.1, ','), read) == Some(shares);
      assert p in all;
    }
  }

  lemma EnteredNext<A(!new)>(nested: Nested<A>, pairs: seq<(string, string)>, pair: (string, string), slot: string,
    read: Read<A>)
    requires HasEntered(nested, pairs, read) && NamesShares(pair.0, slot)
    requires forall s :: NamesShares(pair.0, s) ==> s == slot
    requires ParseShares(slot, Split(pair.1, ','), read).Some?
    ensures var shares := ParseShares(slot, Split(pair.1, ','), read).value;
      HasEntered(Put(nested, Before(slot, '.'), slot, shares), pairs + [pair], read)
  {
    hide Before, ParseShares, Split, NamesShares;
    var shares := ParseShares(slot, Split(pair.1, ','), read).value;
    var now, all := Put(nested, Before(slot, '.'), slot, shares), pairs + [pair];
    assert pair in all && forall p :: p in pairs ==> p in all;
    forall s, old' | ReadFor(pairs, s, old', read) ensures ReadFor(all, s, old', read) {
      var p :| p in pairs && NamesShares(p.0, s) && ParseShares(s, Split(p.1, ','), read) == Some(old');
      assert p in all;
    }
    forall device, s | device in now && s in now[device]
      ensures device == Before(s, '.') && ReadFor(all, s, now[device][s], read)
    {
      if s != slot || device != Before(slot, '.') {
        assert device in nested && s in nested[device] && now[device][s] == nested[device][s];
      }
    }
  }

  lemma {:induction false} GetExactly(pairs: seq<(string, string)>, key: string)
    requires DistinctKeys(pairs)
    ensures forall val :: Get(pairs, key) == Some(val) <==> (key, val) in pairs
  {
    if pairs != [] {
      assert pairs == [pairs[0]] + pairs[1..];
      GetExactly(pairs[1..], key);
    }
  }

  predicate Missing(lines: seq<string>, key: string) {
    forall i :: 0 <= i < |lines| ==> !Assigns(lines[i], key)
  }

  lemma {:induction false} CountsOrMissing(lines: seq<string>, key: string)
    ensures Missing(lines, key) <==> !exists i :: Counts(lines, key, i)
  {
    hide Assigns;
    if lines != [] {
      var n := |lines| - 1;
      CountsOrMissing(lines[..n], key);
      CountsNext(lines, key);
      if Missing(lines, key) {
        assert Missing(lines[..n], key) && !Assigns(lines[n], key);
      } else if i :| 0 <= i < n && Assigns(lines[i], key) {
        assert Assigns(lines[..n][i], key) && !Missing(lines[..n], key);
        assert Assigns(lines[n], key) ==> Counts(lines, key, n);
        var k :| Counts(lines[..n], key, k);
        assert !Assigns(lines[n], key) ==> Counts(lines, key, k);
      } else {
        assert Counts(lines, key, n);
      }
    }
  }

  // The header has the values that count; the container ID may be missing.
  ghost predicate HeaderFrom(lines: seq<string>, h: Header) {
    && (forall i :: Counts(lines, "SCRATCH_SIZE", i) ==> h.scratchSize == ValueIn(lines[i]))
    && (forall i :: Counts(lines, "MOUNTS", i) ==> h.mounts == ValueIn(lines[i]))
    && (forall i :: Counts(lines, "SLOTS", i) ==> h.slots == ValueIn(lines[i]))
    && (forall i :: Counts(lines, "CID", i) ==> h.cid == ValueIn(lines[i]))
    && (Missing(lines, "CID") ==> h.cid == "unknown")
  }

  // Line i, which counts, lists the shares of the slot.
  predicate Lists(lines: seq<string>, key: string, i: int, slot: string) {
    Counts(lines, key, i) && NamesShares(key, slot)
  }

  function EntriesIn(line: string): seq<string> { Split(ValueIn(line), ',') }

  ghost predicate SomeBreaks<A>(lines: seq<string>, read: Read<A>) {
    exists key, i, slot :: Lists(lines, key, i, slot) && exists e :: e in EntriesIn(lines[i]) && Breaks(e, slot, read)
  }

  // The allocations are those of the lines that list shares, under the name of the
  // device, which is the name of the slot up to its first dot.
  ghost predicate SharesFrom<A(!new)>(lines: seq<string>, nested: Nested<A>, read: Read<A>) {
    && (forall device, slot :: device in nested && slot in nested[device] ==>
        && device == Before(slot, '.')
        && exists key, i :: Lists(lines, key, i, slot)
                            && IsReading(nested[device][slot], slot, EntriesIn(lines[i]), read))
    && (forall key, i, slot :: Lists(lines, key, i, slot) ==>
        Before(slot, '.') in nested && slot in nested[Before(slot, '.')])
  }

  // The pairs that the first loop collects, by the lines they come from.
  ghost predicate Collected(lines: seq<string>, pairs: seq<(string, string)>) {
    && DistinctKeys(pairs)
    && forall p :: p in pairs <==> exists i :: Counts(lines, p.0, i) && ValueIn(lines[i]) == p.1
  }

  lemma CountedPair(lines: seq<string>, pairs: seq<(string, string)>, key: string, i: int)
    requires Collected(lines, pairs) && Counts(lines, key, i)
    ensures (key, ValueIn(lines[i])) in pairs && Get(pairs, key) == Some(ValueIn(lines[i]))
  {
    hide Assigns, ValueIn;
    var p := (key, ValueIn(lines[i]));
    assert Counts(lines, p.0, i) && ValueIn(lines[i]) == p.1;
    GetExactly(pairs, key);
  }

  lemma GotExactly(lines: seq<string>, pairs: seq<(string, string)>, key: string)
    requires Collected(lines, pairs)
    ensures Get(pairs, key) == None <==> Missing(lines, key)
    ensures forall i :: Counts(lines, key, i) ==> Get(pairs, key) == Some(ValueIn(lines[i]))
  {
    hide Assigns, ValueIn, Collected, Missing;
    CountsOrMissing(lines, key);
    forall i | Counts(lines, key, i) ensures Get(pairs, key) == Some(ValueIn(lines[i])) {
      CountedPair(lines, pairs, key, i);
    }
    if Get(pairs, key).Some? {
      PairCounts(lines, pairs, key, Get(pairs, key).value);
    }
  }

  lemma PairCounts(lines: seq<string>, pairs: seq<(string, string)>, key: string, val: string)
    requires Collected(lines, pairs) && Get(pairs, key) == Some(val)
    ensures exists i :: Counts(lines, key, i)
  {
    hide Counts;
    GetExactly(pairs, key);
    assert (key, val) in pairs;
  }

  lemma HeaderExactly(lines: seq<string>, pairs: seq<(string, string)>)
    requires Collected(lines, pairs)
    ensures HeaderOf(pairs) == None <==>
      Missing(lines, "SCRATCH_SIZE") || Missing(lines, "MOUNTS") || Missing(lines, "SLOTS")
    ensures HeaderOf(pairs).Some? ==> HeaderFrom(lines, HeaderOf(pairs).value)
  {
    hide Collected, Missing, Counts, ValueIn;
    GotExactly(lines, pairs, "CID");
    GotExactly(lines, pairs, "SCRATCH_SIZE");
    GotExactly(lines, pairs, "MOUNTS");
    GotExactly(lines, pairs, "SLOTS");
  }

  lemma BreaksExactly<A(!new)>(lines: seq<string>, pairs: seq<(string, string)>, read: Read<A>)
    requires Collected(lines, pairs)
    ensures Entered(pairs, read) == None <==> SomeBreaks(lines, read)
  {
    hide Collected, ValueIn, Assigns, NamesShares, Breaks, Entered, ParseShares;
    EnteredExactly(pairs, read);
    if p, slot :| p in pairs && NamesShares(p.0, slot) && ParseShares(slot, Split(p.1, ','), read) == None {
      SharesExactly(slot, Split(p.1, ','), read);
      var i := LineOf(lines, pairs, p);
      assert Lists(lines, p.0, i, slot);
    }
    if key, i, slot :| Lists(lines, key, i, slot) && exists e :: e in EntriesIn(lines[i]) && Breaks(e, slot, read) {
      CountedPair(lines, pairs, key, i);
      SharesExactly(slot, EntriesIn(lines[i]), read);
      var p := (key, ValueIn(lines[i]));
      assert p in pairs && NamesShares(p.0, slot) && ParseShares(slot, Split(p.1, ','), read) == None;
    }
  }

  lemma LineOf(lines: seq<string>, pairs: seq<(string, string)>, p: (string, string)) returns (i: int)
    requires Collected(lines, pairs) && p in pairs
    ensures Counts(lines, p.0, i) && ValueIn(lines[i]) == p.1
  {
    i :| Counts(lines, p.0, i) && ValueIn(lines[i]) == p.1;
  }

  lemma PairFor<A(!new)>(nested: Nested<A>, pairs: seq<(string, string)>, device: string, slot: string, read: Read<A>)
    returns (p: (string, string))
    requires HasEntered(nested, pairs, read) && device in nested && slot in nested[device]
    ensures p in pairs && NamesShares(p.0, slot)
    ensures ParseShares(slot, Split(p.1, ','), read) == Some(nested[device][slot])
  {
    assert device == Before(slot, '.');
    p :| p in pairs && NamesShares(p.0, slot)
      && ParseShares(slot, Split(p.1, ','), read) == Some(nested[device][slot]);
  }

  lemma AllocationsExactly<A(!new)>(lines: seq<string>, pairs: seq<(string, string)>, nested: Nested<A>, read: Read<A>)
    requires Collected(lines, pairs) && HasEntered(nested, pairs, read)
    ensures SharesFrom(lines, nested, read)
  {
    hide Collected, ValueIn, Assigns, NamesShares, IsReading, ParseShares;
    forall device, slot | device in nested && slot in nested[device]
      ensures exists key, i :: Lists(lines, key, i, slot)
                               && IsReading(nested[device][slot], slot, EntriesIn(lines[i]), read)
    {
      var p := PairFor(nested, pairs, device, slot, read);
      SharesExactly(slot, Split(p.1, ','), read);
      var i := LineOf(lines, pairs, p);
      assert Lists(lines, p.0, i, slot);
    }
    forall key, i, slot | Lists(lines, key, i, slot)
      ensures Before(slot, '.') in nested && slot in nested[Before(slot, '.')]
    {
      CountedPair(lines, pairs, key, i);
      var p := (key, ValueIn(lines[i]));
      assert p in pairs && NamesShares(p.0, slot);
    }
  }

  // Reading any text fails exactly when a header value is missing or an amount of a
  // line that counts is malformed; otherwise the header and the allocations are
  // those of the lines that count.
  lemma ReadsExactly<A(!new)>(text: string, read: Read<A>)
    ensures var lines, spec := Split(text, '\n'), Parse(text, read);
      && (spec == None <==> Missing(lines, "SCRATCH_SIZE") || Missing(lines, "MOUNTS") || Missing(lines, "SLOTS")
                            || SomeBreaks(lines, read))
      && (spec.Some? ==> HeaderFrom(lines, spec.value.header) && SharesFrom(lines, spec.value.allocations, read))
  {
    hide Collected, Missing, SomeBreaks, HeaderFrom, SharesFrom, Split, Entered, HeaderOf, KeyValues, HasEntered;
    var lines := Split(text, '\n');
    var pairs := KeyValues(Relevant(lines));
    Collects(lines);
    HeaderExactly(lines, pairs);
    BreaksExactly(lines, pairs, read);
    EnteredExactly(pairs, read);
    if Entered(pairs, read).Some? {
      AllocationsExactly(lines, pairs, Entered(pairs, read).value, read);
    }
  }

  lemma Collects(lines: seq<string>)
    ensures Collected(lines, KeyValues(Relevant(lines)))
  {
    hide KeyValues, Relevant, Counts, ValueIn;
    KeyValuesExactly(lines);
  }

  // -------------------------------------------------------------------- mounts

  function NotEmpty(parts: seq<string>): seq<string> {
    if parts == [] then []
    else NotEmpty(parts[..|parts| - 1]) + if parts[|parts| - 1] != "" then [parts[|parts| - 1]] else []
  }

  // Every mount that is not empty is read, in order, or none is.
  lemma {:induction false} MountsExactly<M>(parts: seq<string>, read: string -> Option<M>)
    ensures ReadMounts(parts, read) == None <==> exists p :: p in parts && p != "" && read(p) == None
    ensures ReadMounts(parts, read).Some? ==>
      var mounts := ReadMounts(parts, read).value;
      |mounts| == |NotEmpty(parts)| && forall i :: 0 <= i < |mounts| ==> read(NotEmpty(parts)[i]) == Some(mounts[i])
  {
    if parts != [] {
      var n := |parts| - 1;
      assert parts == parts[..n] + [parts[n]];
      MountsExactly(parts[..n], read);
    }
  }

  // The values of the header are all read, or reading fails.
  lemma ValuesExactly<S, M, L, A>(spec: Spec<A>, f: Format<S, M, L, A>)
    ensures var h, parts := spec.header, Split(spec.header.mounts, ',');
      && (Interpret(spec, f) == None <==>
          f.readSize(h.scratchSize) == None || f.readSlots(h.slots) == None
          || exists p :: p in parts && p != "" && f.readMount(p) == None)
      && (Interpret(spec, f).Some? ==>
          var k := Interpret(spec, f).value;
          && k.containerId == h.cid && k.allocations == spec.allocations
          && f.readSize(h.scratchSize) == Some(k.scratchSize) && f.readSlots(h.slots) == Some(k.slots)
          && |k.mounts| == |NotEmpty(parts)|
          && forall i :: 0 <= i < |k.mounts| ==> f.readMount(NotEmpty(parts)[i]) == Some(k.mounts[i]))
  {
    hide ReadMounts, Split, NotEmpty;
    MountsExactly(Split(spec.header.mounts, ','), f.readMount);
  }
}

/** Result streaming: coalescing the records of a run into console items, and
    cutting a run's stream into the results of successive calls. */
module Console {
  import opened Options

  // Message types; the first six are visible to the API client.
  datatype Kind = Stdout | Stderr | Media | Html | Log | Completion
                | CleanFinished | BuildFinished | Finished | WaitingInput | ExecTimeout | Unknown(name: string)

  datatype Record = Record(kind: Kind, data: Option<string>)

  datatype Item = Text(kind: Kind, text: string)
                | MediaItem(mime: string, body: string)
                | Other(kind: Kind, data: Option<string>)

  predicate IsText(k: Kind) { k == Stdout || k == Stderr }

  predicate Outgoing(k: Kind) { IsText(k) || k == Media || k == Html || k == Log || k == Completion }

  function Payload(r: Record): string { if r.data.Some? then r.data.value else "" }

  // The decoding of a media record's JSON into its type and its data.
  type MediaDecoder = string -> (string, string)

  // The items a record other than stdout or stderr gives.
  function Single(r: Record, decode: MediaDecoder): seq<Item> {
    if IsText(r.kind) || !Outgoing(r.kind) then []
    else if r.kind == Media && r.data.Some? then
      var (mime, body) := decode(r.data.value);
      [MediaItem(mime, body)]
    else [Other(r.kind, r.data)]
  }

  // ---------------------------------------------------------------- the meaning

  // What a client sees: characters tagged with their stream, and single items.
  datatype Atom = Char(kind: Kind, c: char) | One(item: Item)

  function Chars(kind: Kind, text: string): (atoms: seq<Atom>)
    ensures |atoms| == |text|
  {
    seq(|text|, i requires 0 <= i < |text| => Char(kind, text[i]))
  }

  function ExpandItem(item: Item): seq<Atom> {
    if item.Text? then Chars(item.kind, item.text) else [One(item)]
  }

  function Expand(console: seq<Item>): seq<Atom> {
    if console == [] then [] else Expand(console[..|console| - 1]) + ExpandItem(console[|console| - 1])
  }

  function RecordAtoms(r: Record, decode: MediaDecoder): seq<Atom> {
    if IsText(r.kind) then Chars(r.kind, Payload(r)) else Expand(Single(r, decode))
  }

  function StreamAtoms(records: seq<Record>, decode: MediaDecoder): seq<Atom> {
    if records == [] then []
    else StreamAtoms(records[..|records| - 1], decode) + RecordAtoms(records[|records| - 1], decode)
  }

  lemma ExpandSnoc(console: seq<Item>, item: Item)
    ensures Expand(console + [item]) == Expand(console) + ExpandItem(item)
  {
    hide ExpandItem;
    assert (console + [item])[..|console|] == console;
  }

  lemma {:induction false} ExpandAppend(a: seq<Item>, b: seq<Item>)
    ensures Expand(a + b) == Expand(a) + Expand(b)
  {
    if b == [] {
      assert a + b == a;
    } else {
      hide ExpandItem, Expand;
      var init, last := b[..|b| - 1], b[|b| - 1];
      assert b == init + [last] && a + b == a + init + [last];
      ExpandAppend(a, init);
      ExpandSnoc(a + init, last);
      ExpandSnoc(init, last);
    }
  }

  lemma {:induction false} StreamAppend(a: seq<Record>, b: seq<Record>, decode: MediaDecoder)
    ensures StreamAtoms(a + b, decode) == StreamAtoms(a, decode) + StreamAtoms(b, decode)
  {
    hide RecordAtoms;
    if b == [] {
      assert a + b == a;
    } else {
      assert (a + b)[..|a + b| - 1] == a + b[..|b| - 1];
      StreamAppend(a, b[..|b| - 1], decode);
    }
  }

  // ------------------------------------------------------------ aggregate_console

  // Neighbouring outputs to the same stream become one record ...
  function Merge(records: seq<Record>): seq<Record> {
    if records == [] then []
    else
      Next(Merge(records[..|records| - 1]), records[|records| - 1])
  }

  function Next(merged: seq<Record>, rec: Record): seq<Record> {
    if Continues(merged, rec) then Joined(merged, rec) else merged + [rec]
  }

  predicate Continues(merged: seq<Record>, rec: Record) {
    merged != [] && merged[|merged| - 1].kind == rec.kind && IsText(rec.kind)
  }

  function Joined(merged: seq<Record>, rec: Record): seq<Record>
    requires Continues(merged, rec)
  {
    merged[..|merged| - 1] + [Record(rec.kind, Some(Payload(merged[|merged| - 1]) + Payload(rec)))]
  }

  // ... and every record gives at most one item.
  function RecordItems(r: Record, decode: MediaDecoder): seq<Item> {
    if !IsText(r.kind) then Single(r, decode)
    else if Payload(r) == "" then []
    else [Text(r.kind, Payload(r))]
  }

  function Items(records: seq<Record>, decode: MediaDecoder): seq<Item> {
    if records == [] then []
    else Items(records[..|records| - 1], decode) + RecordItems(records[|records| - 1], decode)
  }

  // What each buffer holds: the last merged record, if it goes to that stream.
  function Buffered(merged: seq<Record>, kind: Kind): string {
    if merged != [] && merged[|merged| - 1].kind == kind then Payload(merged[|merged| - 1]) else ""
  }

  function Settled(merged: seq<Record>): seq<Record> {
    if merged != [] && IsText(merged[|merged| - 1].kind) then merged[..|merged| - 1] else merged
  }

  function Flush(kind: Kind, buffer: string): seq<Item> {
    if buffer == "" then [] else [Text(kind, buffer)]
  }

  lemma BuffersEnd(merged: seq<Record>, decode: MediaDecoder)
    ensures Buffered(merged, Stdout) == "" || Buffered(merged, Stderr) == ""
    ensures Items(merged, decode) == Items(Settled(merged), decode)
      + Flush(Stdout, Buffered(merged, Stdout)) + Flush(Stderr, Buffered(merged, Stderr))
  {}

  // What one more record does to the buffers and to the items given out.
  lemma BuffersStep(records: seq<Record>, i: nat, decode: MediaDecoder)
    requires i < |records|
    ensures var before, after, rec := Merge(records[..i]), Merge(records[..i + 1]), records[i];
      && Buffered(after, Stdout) == (if rec.kind == Stdout then Buffered(before, Stdout) + Payload(rec) else "")
      && Buffered(after, Stderr) == (if rec.kind == Stderr then Buffered(before, Stderr) + Payload(rec) else "")
      && Items(Settled(after), decode) == Items(Settled(before), decode)
         + (if rec.kind == Stdout then [] else Flush(Stdout, Buffered(before, Stdout)))
         + (if rec.kind == Stderr then [] else Flush(Stderr, Buffered(before, Stderr)))
         + Single(rec, decode)
  {
    hide Single, Merge, Settled, Buffered, Items;
    var before, rec := Merge(records[..i]), records[i];
    MergeNext(records, i);
    BuffersEnd(before, decode);
    TextGivesNoSingle(rec, decode);
    if Continues(before, rec) {
      SameStreamStep(before, rec);
    } else {
      NewRecordStep(before, rec, decode);
    }
  }

  lemma MergeNext(records: seq<Record>, i: nat)
    requires i < |records|
    ensures var before, rec := Merge(records[..i]), records[i];
      Merge(records[..i + 1]) == Next(before, rec)
  {
    assert records[..i + 1][..i] == records[..i];
  }

  lemma SameStreamStep(merged: seq<Record>, rec: Record)
    requires Continues(merged, rec)
    ensures var after := Joined(merged, rec);
      && Settled(after) == Settled(merged)
      && Buffered(after, rec.kind) == Buffered(merged, rec.kind) + Payload(rec)
      && forall k :: k != rec.kind ==> Buffered(after, k) == Buffered(merged, k) == ""
  {}

  lemma NewRecordStep(merged: seq<Record>, rec: Record, decode: MediaDecoder)
    requires !Continues(merged, rec)
    ensures var after := merged + [rec];
      && (forall k :: Buffered(after, k) == if k == rec.kind then Payload(rec) else "")
      && (IsText(rec.kind) ==> Buffered(merged, rec.kind) == "")
      && Items(Settled(after), decode) == Items(merged, decode) + Single(rec, decode)
  {
    hide Single;
    TextGivesNoSingle(rec, decode);
    var after := merged + [rec];
    assert after[..|merged|] == merged;
  }

  lemma TextGivesNoSingle(r: Record, decode: MediaDecoder)
    ensures IsText(r.kind) ==> Single(r, decode) == []
  {}

  // The version 2 console: at most one of the two buffers is in use at a time.
  method AggregateConsole(records: seq<Record>, decode: MediaDecoder) returns (console: seq<Item>)
    ensures console == Items(Merge(records), decode)
  {
    hide Merge, Items, Settled, Buffered;
    console := [];
    var lastStdout, lastStderr := "", "";
    NothingBuffered(records[..0], decode);
    for i := 0 to |records|
      invariant lastStdout == "" || lastStderr == ""
      invariant lastStdout == Buffered(Merge(records[..i]), Stdout)
      invariant lastStderr == Buffered(Merge(records[..i]), Stderr)
      invariant console == Items(Settled(Merge(records[..i])), decode)
    {
      var rec := records[i];
      BuffersEnd(Merge(records[..i]), decode);
      BuffersStep(records, i, decode);
      if lastStdout != "" && rec.kind != Stdout {
        console := console + [Text(Stdout, lastStdout)];
        lastStdout := "";
      }
      if lastStderr != "" && rec.kind != Stderr {
        console := console + [Text(Stderr, lastStderr)];
        lastStderr := "";
      }
      if rec.kind == Stdout {
        lastStdout := lastStdout + Payload(rec);
      } else if rec.kind == Stderr {
        lastStderr := lastStderr + Payload(rec);
      } else if rec.kind == Media && rec.data.Some? {
        var (mime, body) := decode(rec.data.value);
        console := console + [MediaItem(mime, body)];
      } else if Outgoing(rec.kind) {
        console := console + [Other(rec.kind, rec.data)];
      }
    }
    assert records[..|records|] == records;
    BuffersEnd(Merge(records), decode);
    if lastStdout != "" {
      console := console + [Text(Stdout, lastStdout)];
    }
    if lastStderr != "" {
      console := console + [Text(Stderr, lastStderr)];
    }
  }

  lemma NothingBuffered(records: seq<Record>, decode: MediaDecoder)
    requires records == []
    ensures Buffered(Merge(records), Stdout) == Buffered(Merge(records), Stderr) == ""
    ensures Items(Settled(Merge(records)), decode) == []
  {}

  // ------------------------------------------------------- the meaning is preserved

  lemma RecordMeaning(r: Record, decode: MediaDecoder)
    ensures Expand(RecordItems(r, decode)) == RecordAtoms(r, decode)
  {
    var items := RecordItems(r, decode);
    if items != [] {
      assert items[..0] == [] && Expand(items[..0]) == [];
      assert Expand(items) == ExpandItem(items[0]);
    }
  }

  lemma {:induction false} ItemsMeaning(records: seq<Record>, decode: MediaDecoder)
    ensures Expand(Items(records, decode)) == StreamAtoms(records, decode)
  {
    hide RecordItems, RecordAtoms;
    if records != [] {
      var n := |records| - 1;
      ItemsMeaning(records[..n], decode);
      RecordMeaning(records[n], decode);
      ExpandAppend(Items(records[..n], decode), RecordItems(records[n], decode));
    }
  }

  lemma StreamSnoc(records: seq<Record>, r: Record, decode: MediaDecoder)
    ensures StreamAtoms(records + [r], decode) == StreamAtoms(records, decode) + RecordAtoms(r, decode)
  {
    hide RecordAtoms;
    assert (records + [r])[..|records|] == records;
  }

  lemma JoinedStream(merged: seq<Record>, rec: Record, decode: MediaDecoder)
    requires Continues(merged, rec)
    ensures StreamAtoms(Joined(merged, rec), decode) == StreamAtoms(merged, decode) + RecordAtoms(rec, decode)
  {
    hide RecordAtoms, StreamAtoms;
    var last, init := merged[|merged| - 1], merged[..|merged| - 1];
    assert merged == init + [last];
    StreamSnoc(init, last, decode);
    StreamSnoc(init, Record(rec.kind, Some(Payload(last) + Payload(rec))), decode);
    JoinedAtoms(last, rec, decode);
    Associative(StreamAtoms(init, decode), RecordAtoms(last, decode), RecordAtoms(rec, decode));
  }

  lemma Associative(a: seq<Atom>, b: seq<Atom>, c: seq<Atom>)
    ensures a + b + c == a + (b + c)
  {}

  lemma {:induction false} MergeMeaning(records: seq<Record>, decode: MediaDecoder)
    ensures StreamAtoms(Merge(records), decode) == StreamAtoms(records, decode)
  {
    hide RecordAtoms, StreamAtoms, Joined, Continues;
    if records == [] {
      assert Merge(records) == records;
    } else {
      var n := |records| - 1;
      var merged, rec := Merge(records[..n]), records[n];
      MergeMeaning(records[..n], decode);
      assert records == records[..n] + [rec];
      StreamSnoc(records[..n], rec, decode);
      if Continues(merged, rec) {
        JoinedStream(merged, rec, decode);
      } else {
        StreamSnoc(merged, rec, decode);
      }
    }
  }

  lemma JoinedAtoms(a: Record, b: Record, decode: MediaDecoder)
    requires a.kind == b.kind && IsText(a.kind)
    ensures RecordAtoms(Record(a.kind, Some(Payload(a) + Payload(b))), decode)
      == RecordAtoms(a, decode) + RecordAtoms(b, decode)
  {}

  // Coalescing changes nothing a client can see: the console expands to exactly
  // the characters and items of the records, in order.
  lemma ConsoleMeansStream(records: seq<Record>, decode: MediaDecoder)
    ensures Expand(Items(Merge(records), decode)) == StreamAtoms(records, decode)
  {
    ItemsMeaning(Merge(records), decode);
    MergeMeaning(records, decode);
  }

  // ---------------------------------------------------- what the console consists of

  lemma {:induction false} ItemsAppend(a: seq<Record>, b: seq<Record>, decode: MediaDecoder)
    ensures Items(a + b, decode) == Items(a, decode) + Items(b, decode)
  {
    hide RecordItems;
    if b == [] {
      assert a + b == a;
    } else {
      assert (a + b)[..|a + b| - 1] == a + b[..|b| - 1];
      ItemsAppend(a, b[..|b| - 1], decode);
    }
  }

  lemma MergeSnoc(records: seq<Record>, r: Record)
    ensures Merge(records + [r]) == Next(Merge(records), r)
  {
    assert (records + [r])[..|records|] == records;
  }

  lemma MergeLast(records: seq<Record>)
    ensures Merge(records) == [] <==> records == []
    ensures records != [] ==> Merge(records)[|Merge(records)| - 1].kind == records[|records| - 1].kind
  {}

  // Where one stream does not go on, the records can be aggregated apart.
  lemma {:induction false} MergeCut(a: seq<Record>, b: seq<Record>)
    requires a != [] && b != [] ==> !(IsText(b[0].kind) && a[|a| - 1].kind == b[0].kind)
    ensures Merge(a + b) == Merge(a) + Merge(b)
  {
    if b == [] {
      assert a + b == a;
    } else {
      hide Merge, Next, IsText;
      var init, r := b[..|b| - 1], b[|b| - 1];
      assert a + b == a + init + [r] && b == init + [r];
      MergeCut(a, init);
      MergeSnoc(a + init, r);
      MergeSnoc(init, r);
      MergeLast(a);
      MergeLast(init);
      NextBehind(Merge(a), Merge(init), r);
    }
  }

  lemma NextBehind(a: seq<Record>, b: seq<Record>, r: Record)
    requires b == [] && a != [] ==> !(IsText(r.kind) && a[|a| - 1].kind == r.kind)
    ensures Next(a + b, r) == a + Next(b, r)
  {
    if b == [] {
      assert a + b == a;
    } else {
      assert (a + b)[|a + b| - 1] == b[|b| - 1];
      assert (a + b)[..|a + b| - 1] == a + b[..|b| - 1];
    }
  }

  // A record other than stdout and stderr stands alone: what comes before it, its
  // own item and what comes after it are the console.
  lemma OthersStandAlone(a: seq<Record>, r: Record, b: seq<Record>, decode: MediaDecoder)
    requires r.kind != Stdout && r.kind != Stderr
    ensures Items(Merge(a + [r] + b), decode) == Items(Merge(a), decode) + (
      if r.kind == Media && r.data.Some? then [MediaItem(decode(r.data.value).0, decode(r.data.value).1)]
      else if r.kind in {Media, Html, Log, Completion} then [Other(r.kind, r.data)]
      else []) + Items(Merge(b), decode)
  {
    hide Merge, Items;
    MergeCut(a + [r], b);
    MergeSnoc(a, r);
    ItemsAppend(Merge(a) + [r], Merge(b), decode);
    ItemsAppend(Merge(a), [r], decode);
    ItemsOfOne(r, decode);
  }

  lemma ItemsOfOne(r: Record, decode: MediaDecoder)
    ensures Items([r], decode) == RecordItems(r, decode)
  {
    hide RecordItems;
    assert [r][..0] == [];
  }

  function Outputs(records: seq<Record>): string {
    if records == [] then ""
    else Outputs(records[..|records| - 1])
         + match records[|records| - 1].data case Some(text) => text case None => ""
  }

  lemma {:induction false} MergeOneStream(records: seq<Record>, kind: Kind)
    requires IsText(kind) && records != [] && forall r :: r in records ==> r.kind == kind
    ensures |Merge(records)| == 1 && Merge(records)[0].kind == kind && Payload(Merge(records)[0]) == Outputs(records)
  {
    hide Merge, Next, IsText;
    var n := |records| - 1;
    var init, r := records[..n], records[n];
    assert records == init + [r] && r in records && forall q :: q in init ==> q in records;
    MergeSnoc(init, r);
    if n == 0 {
      MergeLast(init);
      assert Outputs(init) == "";
    } else {
      MergeOneStream(init, kind);
    }
    NextOfOne(Merge(init), r);
  }

  lemma NextOfOne(merged: seq<Record>, r: Record)
    requires IsText(r.kind) && |merged| <= 1 && (merged != [] ==> merged[0].kind == r.kind)
    ensures |Next(merged, r)| == 1 && Next(merged, r)[0].kind == r.kind
    ensures Payload(Next(merged, r)[0]) == (if merged == [] then "" else Payload(merged[0])) + Payload(r)
  {}

  // Outputs to one stream, with nothing else before, between and after them, are
  // one item with all their text, or none without any.
  lemma OneStreamIsOneItem(a: seq<Record>, run: seq<Record>, b: seq<Record>, kind: Kind, decode: MediaDecoder)
    requires kind == Stdout || kind == Stderr
    requires run != [] && forall r :: r in run ==> r.kind == kind
    requires (a != [] ==> a[|a| - 1].kind != kind) && (b != [] ==> b[0].kind != kind)
    ensures Items(Merge(a + run + b), decode) == Items(Merge(a), decode)
      + (if Outputs(run) == "" then [] else [Text(kind, Outputs(run))]) + Items(Merge(b), decode)
  {
    hide Merge, Items;
    assert run[0] in run && run[|run| - 1] in run;
    assert (a + run)[|a + run| - 1] == run[|run| - 1];
    MergeCut(a + run, b);
    MergeCut(a, run);
    ItemsAppend(Merge(a) + Merge(run), Merge(b), decode);
    ItemsAppend(Merge(a), Merge(run), decode);
    MergeOneStream(run, kind);
    assert Merge(run) == [Merge(run)[0]];
    ItemsOfOne(Merge(run)[0], decode);
  }

  // ------------------------------------------------------ how far items are merged

  // A record that gives no item: empty text, or nothing for the client.
  predicate Silent(r: Record) {
    if IsText(r.kind) then Payload(r) == "" else !Outgoing(r.kind)
  }

  predicate GivesText(r: Record, kind: Kind) { IsText(kind) && r.kind == kind && !Silent(r) }

  lemma ItemsOfRecord(r: Record, decode: MediaDecoder)
    ensures RecordItems(r, decode) == [] <==> Silent(r)
    ensures !Silent(r) ==> |RecordItems(r, decode)| == 1
    ensures forall k :: GivesText(r, k) <==> IsText(k) && RecordItems(r, decode) == [Text(k, Payload(r))]
  {}

  // Two neighbouring items go to the same stream.
  ghost predicate Split(console: seq<Item>) {
    exists i :: 0 < i < |console| && console[i - 1].Text? && console[i].Text? && console[i - 1].kind == console[i].kind
  }

  // The last record that gives an item is an output to the given stream.
  ghost predicate EndsIn(records: seq<Record>, kind: Kind) {
    exists i :: 0 <= i < |records| && GivesText(records[i], kind)
      && forall m :: i < m < |records| ==> Silent(records[m])
  }

  // Two outputs to one stream are separated by nothing but silent records.
  ghost predicate Interrupted(records: seq<Record>) {
    exists j :: 0 <= j < |records| && GivesText(records[j], records[j].kind) && EndsIn(records[..j], records[j].kind)
  }

  lemma EndsInNext(records: seq<Record>, r: Record, kind: Kind)
    ensures EndsIn(records + [r], kind) <==> GivesText(r, kind) || (Silent(r) && EndsIn(records, kind))
  {
    hide Silent, GivesText;
    var all := records + [r];
    assert all[|records|] == r && forall m :: 0 <= m < |records| ==> all[m] == records[m];
    TextIsNotSilent(r, kind);
    if i :| 0 <= i < |all| && GivesText(all[i], kind) && forall m :: i < m < |all| ==> Silent(all[m]) {
      if i < |records| {
        assert Silent(all[|records|]);
        assert GivesText(records[i], kind);
      }
    }
    if i :| 0 <= i < |records| && GivesText(records[i], kind) && forall m :: i < m < |records| ==> Silent(records[m]) {
      assert GivesText(all[i], kind);
    }
  }

  lemma TextIsNotSilent(r: Record, kind: Kind)
    ensures GivesText(r, kind) ==> !Silent(r)
  {}

  lemma InterruptedNext(records: seq<Record>, r: Record)
    ensures Interrupted(records + [r]) <==>
      Interrupted(records) || (GivesText(r, r.kind) && EndsIn(records, r.kind))
  {
    hide GivesText, EndsIn;
    var all := records + [r];
    assert all[..|records|] == records;
    forall j | 0 <= j < |records| ensures all[..j] == records[..j] && all[j] == records[j] {
    }
  }

  lemma {:induction false} LastItem(records: seq<Record>, decode: MediaDecoder, kind: Kind)
    requires IsText(kind)
    ensures var items := Items(records, decode);
      EndsIn(records, kind) <==> items != [] && items[|items| - 1].Text? && items[|items| - 1].kind == kind
  {
    if records != [] {
      hide EndsIn, RecordItems, GivesText, Silent;
      var n := |records| - 1;
      assert records == records[..n] + [records[n]];
      LastItem(records[..n], decode, kind);
      EndsInNext(records[..n], records[n], kind);
      ItemsOfRecord(records[n], decode);
      TextItemIs(records[n], decode);
    }
  }

  lemma TextItemIs(r: Record, decode: MediaDecoder)
    ensures RecordItems(r, decode) != [] && RecordItems(r, decode)[0].Text? ==>
      GivesText(r, r.kind) && RecordItems(r, decode)[0].kind == r.kind
  {}

  // Neighbouring items go to the same stream exactly when the groups of records
  // they come from are separated by silent ones only.
  lemma {:induction false} SplitExactly(records: seq<Record>, decode: MediaDecoder)
    ensures Split(Items(records, decode)) <==> Interrupted(records)
  {
    if records != [] {
      hide EndsIn, RecordItems, GivesText, Silent, Interrupted, Split;
      var n := |records| - 1;
      var init, r := records[..n], records[n];
      assert records == init + [r];
      SplitExactly(init, decode);
      InterruptedNext(init, r);
      ItemsOfRecord(r, decode);
      TextItemIs(r, decode);
      if IsText(r.kind) {
        LastItem(init, decode, r.kind);
      }
      SplitNext(Items(init, decode), RecordItems(r, decode));
      OnlyTextGivesText(r);
    }
  }

  lemma OnlyTextGivesText(r: Record)
    ensures GivesText(r, r.kind) <==> IsText(r.kind) && !Silent(r)
  {}

  lemma SplitNext(console: seq<Item>, more: seq<Item>)
    requires |more| <= 1
    ensures more == [] ==> console + more == console
    ensures more != [] ==>
      (Split(console + more) <==>
       || Split(console)
       || (console != [] && console[|console| - 1].Text? && more[0].Text?
           && console[|console| - 1].kind == more[0].kind))
  {
    var all := console + more;
    assert forall i :: 0 <= i < |console| ==> all[i] == console[i];
    if more != [] && console != [] {
      assert all[|console|] == more[0] && all[|console| - 1] == console[|console| - 1];
    }
  }

  // Neighbouring merged records never go to the same stream.
  lemma {:induction false} MergeSeparates(records: seq<Record>, i: nat)
    requires 0 < i < |Merge(records)| && IsText(Merge(records)[i].kind)
    ensures Merge(records)[i - 1].kind != Merge(records)[i].kind
  {
    var n := |records| - 1;
    var merged, rec := Merge(records[..n]), records[n];
    if i < |merged| {
      assert Merge(records)[i].kind == merged[i].kind && Merge(records)[i - 1].kind == merged[i - 1].kind;
      MergeSeparates(records[..n], i);
    }
  }

  // So when every record gives an item, the items are merged as far as possible.
  lemma NoSilenceNoSplit(records: seq<Record>, decode: MediaDecoder)
    requires forall r :: r in Merge(records) ==> !Silent(r)
    ensures !Split(Items(Merge(records), decode))
  {
    hide Split, Items, Merge, Silent;
    var merged := Merge(records);
    SplitExactly(merged, decode);
    if Interrupted(merged) {
      var j :| 0 <= j < |merged| && GivesText(merged[j], merged[j].kind) && EndsIn(merged[..j], merged[j].kind);
      var i :| 0 <= i < j && GivesText(merged[..j][i], merged[j].kind)
        && forall m :: i < m < j ==> Silent(merged[..j][m]);
      assert merged[j - 1] in merged && merged[..j][j - 1] == merged[j - 1];
      MergeSeparates(records, j);
    }
  }

  // Otherwise they need not be: an empty output to stderr splits stdout.
  lemma EmptyOutputSplits(a: string, b: string, decode: MediaDecoder)
    requires a != "" && b != ""
    ensures Items(Merge([Record(Stdout, Some(a)), Record(Stderr, Some("")), Record(Stdout, Some(b))]), decode)
      == [Text(Stdout, a), Text(Stdout, b)]
  {
    var r := [Record(Stdout, Some(a)), Record(Stderr, Some("")), Record(Stdout, Some(b))];
    assert r[..1][..0] == [] && r[..2][..1] == r[..1] && r[..3] == r;
    assert Merge(r[..1]) == r[..1];
    assert Merge(r[..2]) == r[..2];
    assert Merge(r) == r;
    assert Items(r[..1], decode) == [Text(Stdout, a)];
    assert Items(r[..2], decode) == [Text(Stdout, a)];
  }

  // ------------------------------------------------------------- API version 1

  function TextOf(atoms: seq<Atom>, kind: Kind): string {
    if atoms == [] then ""
    else
      var a := atoms[|atoms| - 1];
      TextOf(atoms[..|atoms| - 1], kind) + if a.Char? && a.kind == kind then [a.c] else []
  }

  function MediaOf(atoms: seq<Atom>): seq<(string, string)> {
    if atoms == [] then []
    else
      var a := atoms[|atoms| - 1];
      MediaOf(atoms[..|atoms| - 1])
      + if a.One? && a.item.MediaItem? then [(a.item.mime, a.item.body)] else []
  }

  function HtmlOf(atoms: seq<Atom>): seq<Option<string>> {
    if atoms == [] then []
    else
      var a := atoms[|atoms| - 1];
      HtmlOf(atoms[..|atoms| - 1])
      + if a.One? && a.item.Other? && a.item.kind == Html then [a.item.data] else []
  }

  lemma {:induction false} ProjectionsAppend(a: seq<Atom>, b: seq<Atom>, kind: Kind)
    ensures TextOf(a + b, kind) == TextOf(a, kind) + TextOf(b, kind)
    ensures MediaOf(a + b) == MediaOf(a) + MediaOf(b)
    ensures HtmlOf(a + b) == HtmlOf(a) + HtmlOf(b)
  {
    if b == [] {
      assert a + b == a;
    } else {
      assert (a + b)[..|a + b| - 1] == a + b[..|b| - 1];
      ProjectionsAppend(a, b[..|b| - 1], kind);
    }
  }

  lemma CharsNext(text: string, from: Kind, n: nat)
    requires n < |text|
    ensures Chars(from, text)[..n + 1][..n] == Chars(from, text)[..n]
    ensures Chars(from, text)[..n + 1][n] == Char(from, text[n])
  {}

  lemma {:induction false} CharsText(text: string, from: Kind, kind: Kind, n: nat)
    requires n <= |text|
    ensures TextOf(Chars(from, text)[..n], kind) == if from == kind then text[..n] else ""
  {
    hide Chars;
    if n > 0 {
      CharsNext(text, from, n - 1);
      CharsText(text, from, kind, n - 1);
      assert text[..n] == text[..n - 1] + [text[n - 1]];
    }
  }

  lemma {:induction false} CharsNothingElse(text: string, from: Kind, n: nat)
    requires n <= |text|
    ensures MediaOf(Chars(from, text)[..n]) == [] && HtmlOf(Chars(from, text)[..n]) == []
  {
    hide Chars;
    if n > 0 {
      CharsNext(text, from, n - 1);
      CharsNothingElse(text, from, n - 1);
    }
  }

  lemma CharsProjections(text: string, from: Kind, kind: Kind)
    ensures TextOf(Chars(from, text), kind) == if from == kind then text else ""
    ensures MediaOf(Chars(from, text)) == [] && HtmlOf(Chars(from, text)) == []
  {
    CharsText(text, from, kind, |text|);
    CharsNothingElse(text, from, |text|);
    assert Chars(from, text)[..|text|] == Chars(from, text) && text[..|text|] == text;
  }

  lemma OneProjections(item: Item, kind: Kind)
    ensures TextOf([One(item)], kind) == ""
    ensures MediaOf([One(item)]) == if item.MediaItem? then [(item.mime, item.body)] else []
    ensures HtmlOf([One(item)]) == if item.Other? && item.kind == Html then [item.data] else []
  {
    assert [One(item)][..0] == [];
  }

  lemma RecordProjections(r: Record, decode: MediaDecoder, kind: Kind)
    requires IsText(kind)
    ensures var atoms := RecordAtoms(r, decode);
      && TextOf(atoms, kind) == (if r.kind == kind then Payload(r) else "")
      && MediaOf(atoms) == (if r.kind == Media && r.data.Some? then [decode(r.data.value)] else [])
      && HtmlOf(atoms) == (if r.kind == Html then [r.data] else [])
  {
    hide TextOf, MediaOf, HtmlOf, Chars;
    RecordlessProjections();
    if IsText(r.kind) {
      CharsProjections(Payload(r), r.kind, kind);
    } else {
      var items := Single(r, decode);
      if items != [] {
        RecordMeaning(r, decode);
        assert items[..0] == [] && Expand(items[..0]) == [];
        assert RecordAtoms(r, decode) == [One(items[0])];
        OneProjections(items[0], kind);
        if r.kind == Media && r.data.Some? {
          var decoded := decode(r.data.value);
          assert items[0] == MediaItem(decoded.0, decoded.1);
        }
      }
    }
  }

  // The version 1 result consists of the projections of what version 2 shows.
  method AggregateV1(records: seq<Record>, decode: MediaDecoder)
    returns (stdout: string, stderr: string, media: seq<(string, string)>, html: seq<Option<string>>)
    ensures stdout == TextOf(StreamAtoms(records, decode), Stdout)
    ensures stderr == TextOf(StreamAtoms(records, decode), Stderr)
    ensures media == MediaOf(StreamAtoms(records, decode))
    ensures html == HtmlOf(StreamAtoms(records, decode))
  {
    hide RecordAtoms, TextOf, MediaOf, HtmlOf;
    stdout, stderr, media, html := "", "", [], [];
    RecordlessProjections();
    for i := 0 to |records|
      invariant stdout == TextOf(StreamAtoms(records[..i], decode), Stdout)
      invariant stderr == TextOf(StreamAtoms(records[..i], decode), Stderr)
      invariant media == MediaOf(StreamAtoms(records[..i], decode))
      invariant html == HtmlOf(StreamAtoms(records[..i], decode))
    {
      var rec := records[i];
      assert records[..i + 1][..i] == records[..i];
      RecordProjections(rec, decode, Stdout);
      RecordProjections(rec, decode, Stderr);
      ProjectionsAppend(StreamAtoms(records[..i], decode), RecordAtoms(rec, decode), Stdout);
      ProjectionsAppend(StreamAtoms(records[..i], decode), RecordAtoms(rec, decode), Stderr);
      if rec.kind == Stdout {
        stdout := stdout + Payload(rec);
      } else if rec.kind == Stderr {
        stderr := stderr + Payload(rec);
      } else if rec.kind == Media && rec.data.Some? {
        media := media + [decode(rec.data.value)];
      } else if rec.kind == Html {
        html := html + [rec.data];
      }
    }
    assert records[..|records|] == records;
  }

  lemma RecordlessProjections()
    ensures TextOf([], Stdout) == TextOf([], Stderr) == "" && MediaOf([]) == [] && HtmlOf([]) == []
  {}
}

/** Successive calls that read one run's output queue.  Each call ends at the
    first control record, when its timer fires or when it is cancelled, after any
    number of records. */
module Streaming {
  import opened Options
  import opened Console

  predicate Terminal(k: Kind) {
    k == Finished || k == CleanFinished || k == BuildFinished || k == WaitingInput || k == ExecTimeout
  }

  // How many of the arriving records a call takes.
  function Taken(arriving: seq<Record>): (n: nat)
    ensures n <= |arriving|
  {
    if arriving == [] then 0
    else if Terminal(arriving[0].kind) then 1
    else 1 + Taken(arriving[1..])
  }

  function Visible(records: seq<Record>): seq<Record> {
    if records == [] then []
    else Visible(records[..|records| - 1])
         + if Outgoing(records[|records| - 1].kind) then [records[|records| - 1]] else []
  }

  // The control record that ended a call, if any.
  function EndOf(taken: seq<Record>): Option<Record> {
    if taken != [] && Terminal(taken[|taken| - 1].kind) then Some(taken[|taken| - 1]) else None
  }

  // Decoded JSON: what its key exitCode holds, and all of it.
  datatype Json = Json(exitCode: Option<int>, text: string)

  // The decoding of media records and of the data of control records.
  datatype Decoders = Decoders(media: MediaDecoder, json: string -> Json)

  // What a reply says about the end of a stage.
  datatype Ending = Ending(kind: Kind, exitCode: Option<int>, options: Option<Json>)

  // Stages that finish report their exit code, a request for input its options.
  function EndingOf(rec: Record, decoders: Decoders): Ending {
    var data := if Payload(rec) == "" then Json(None, "{}") else decoders.json(Payload(rec));
    match rec.kind
    case WaitingInput => Ending(rec.kind, None, Some(data))
    case ExecTimeout => Ending(rec.kind, None, None)
    case _ => Ending(rec.kind, data.exitCode, None)
  }

  // Version 1 of the API has separate fields, later versions have a console.
  datatype Output = Fields(stdout: string, stderr: string, media: seq<(string, string)>, html: seq<Option<string>>)
                  | Console(items: seq<Item>)

  // ending: None stands for the status "continued".
  datatype Reply = Reply(ending: Option<Ending>, output: Output) | Cancelled | BadVersion

  function Projected(atoms: seq<Atom>): Output {
    Fields(TextOf(atoms, Stdout), TextOf(atoms, Stderr), MediaOf(atoms), HtmlOf(atoms))
  }

  function OutputOf(taken: seq<Record>, version: int, decode: MediaDecoder): Output {
    var records := Visible(taken);
    if version == 1 then Projected(StreamAtoms(records, decode))
    else Console(Items(Merge(records), decode))
  }

  // A call that is cancelled gives no reply, unless a control record came first.
  function ReplyOf(taken: seq<Record>, cancelled: bool, version: int, decoders: Decoders): Reply {
    var end := EndOf(taken);
    if cancelled && end == None then Cancelled
    else if version < 1 then BadVersion
    else
      Reply(if end == None then None else Some(EndingOf(end.value, decoders)), OutputOf(taken, version, decoders.media))
  }

  // One round of the reading loop, and its end.
  lemma ReadRound(all: seq<Record>, arrived: nat, n: nat)
    requires n <= arrived <= |all|
    ensures n == arrived ==> Taken(all[n..arrived]) == 0
    ensures n < arrived ==>
      var rec := all[n];
      && Taken(all[n..arrived]) == (if Terminal(rec.kind) then 1 else 1 + Taken(all[n + 1..arrived]))
      && Visible(all[..n + 1]) == (if Outgoing(rec.kind) then Visible(all[..n]) + [rec] else Visible(all[..n]))
      && EndOf(all[..n + 1]) == if Terminal(rec.kind) then Some(rec) else None
  {
    if n < arrived {
      assert all[..n + 1][..n] == all[..n];
      assert all[n..arrived][0] == all[n] && all[n..arrived][1..] == all[n + 1..arrived];
    }
  }

  lemma ReadStart(all: seq<Record>, arrived: nat)
    requires arrived <= |all|
    ensures all[..arrived] == all[0..arrived] && Visible(all[..0]) == [] && EndOf(all[..0]) == None
  {}

  class OutputReader {
    var queue: seq<Record>

    constructor ()
      ensures queue == []
    {
      queue := [];
    }

    // arrived: how many records there are before the timer fires or the request
    // is cancelled.
    method GetNextResult(arrived: nat, cancelled: bool, version: int, decoders: Decoders) returns (reply: Reply)
      requires arrived <= |queue|
      modifies this
      ensures var n := Taken(old(queue)[..arrived]);
        queue == old(queue)[n..] && reply == ReplyOf(old(queue)[..n], cancelled, version, decoders)
    {
      hide Taken, Visible, EndOf, Items, Merge, Terminal, Outgoing, EndingOf, StreamAtoms, TextOf, MediaOf, HtmlOf;
      ghost var all := queue;
      var records, n := [], 0;
      ReadStart(all, arrived);
      while n < arrived
        invariant 0 <= n <= arrived && queue == all[n..] && records == Visible(all[..n])
        invariant Taken(all[..arrived]) == n + Taken(all[n..arrived])
        invariant EndOf(all[..n]) == None
      {
        ReadRound(all, arrived, n);
        var rec := queue[0];
        queue := queue[1..];
        if Outgoing(rec.kind) {
          records := records + [rec];
        }
        n := n + 1;
        if Terminal(rec.kind) {
          if version < 1 {
            return BadVersion;
          }
          var output := Aggregate(records, version, decoders.media);
          return Reply(Some(EndingOf(rec, decoders)), output);
        }
      }
      ReadRound(all, arrived, n);
      if cancelled {
        return Cancelled;
      }
      if version < 1 {
        return BadVersion;
      }
      var output := Aggregate(records, version, decoders.media);
      return Reply(None, output);
    }
  }

  method Aggregate(records: seq<Record>, version: int, decode: MediaDecoder) returns (output: Output)
    requires version >= 1
    ensures version == 1 ==> output == Projected(StreamAtoms(records, decode))
    ensures version > 1 ==> output == Console(Items(Merge(records), decode))
  {
    if version == 1 {
      var stdout, stderr, media, html := AggregateV1(records, decode);
      return Fields(stdout, stderr, media, html);
    }
    var console := AggregateConsole(records, decode);
    return Console(console);
  }

  // ------------------------------------------------------------------ whole runs

  // How many records arrive during a call, and whether it is then cancelled.
  datatype Call = Call(arrived: nat, cancelled: bool)

  function Least(a: nat, b: nat): nat { if a < b then a else b }

  function TakenBy(queue: seq<Record>, call: Call): (n: nat)
    ensures n <= |queue|
  {
    Taken(queue[..Least(call.arrived, |queue|)])
  }

  // What the calls reply, what they leave in the queue, and what those that were
  // cancelled have taken out of it.
  function Replies(queue: seq<Record>, plan: seq<Call>, version: int, decoders: Decoders): seq<Reply> {
    if plan == [] then []
    else
      var n := TakenBy(queue, plan[0]);
      [ReplyOf(queue[..n], plan[0].cancelled, version, decoders)] + Replies(queue[n..], plan[1..], version, decoders)
  }

  function Left(queue: seq<Record>, plan: seq<Call>): seq<Record> {
    if plan == [] then queue else Left(queue[TakenBy(queue, plan[0])..], plan[1..])
  }

  function Lost(queue: seq<Record>, plan: seq<Call>): seq<Record> {
    if plan == [] then []
    else
      var n := TakenBy(queue, plan[0]);
      (if plan[0].cancelled && EndOf(queue[..n]) == None then queue[..n] else []) + Lost(queue[n..], plan[1..])
  }

  function Seen(reply: Reply): seq<Atom> {
    if reply.Reply? && reply.output.Console? then Expand(reply.output.items) else []
  }

  function Shown(replies: seq<Reply>): seq<Atom> {
    if replies == [] then [] else Seen(replies[0]) + Shown(replies[1..])
  }

  function Reported(reply: Reply): seq<Ending> {
    if reply.Reply? && reply.ending.Some? then [reply.ending.value] else []
  }

  function Endings(replies: seq<Reply>): seq<Ending> {
    if replies == [] then [] else Reported(replies[0]) + Endings(replies[1..])
  }

  function EndingsIn(taken: seq<Record>, decoders: Decoders): seq<Ending> {
    if EndOf(taken).Some? then [EndingOf(EndOf(taken).value, decoders)] else []
  }

  // The control records of a stream, as they are to be reported.
  function Controls(records: seq<Record>, decoders: Decoders): seq<Ending> {
    if records == [] then []
    else (if Terminal(records[0].kind) then [EndingOf(records[0], decoders)] else []) + Controls(records[1..], decoders)
  }

  lemma HiddenAtoms(r: Record, decode: MediaDecoder)
    requires !Outgoing(r.kind)
    ensures RecordAtoms(r, decode) == []
  {}

  lemma {:induction false} VisibleMeaning(records: seq<Record>, decode: MediaDecoder)
    ensures StreamAtoms(Visible(records), decode) == StreamAtoms(records, decode)
  {
    hide RecordAtoms, Outgoing;
    if records != [] {
      var n := |records| - 1;
      var shown := Visible(records[..n]);
      VisibleMeaning(records[..n], decode);
      if Outgoing(records[n].kind) {
        assert (shown + [records[n]])[..|shown|] == shown;
      } else {
        HiddenAtoms(records[n], decode);
        assert Visible(records) == shown;
      }
    }
  }

  // A call takes no record beyond the first control record.
  lemma {:induction false} TakenControls(arriving: seq<Record>, rest: seq<Record>, decoders: Decoders)
    ensures var n := Taken(arriving);
      Controls(arriving + rest, decoders)
      == EndingsIn(arriving[..n], decoders) + Controls((arriving + rest)[n..], decoders)
  {
    hide EndingOf;
    var all := arriving + rest;
    if arriving == [] {
      assert all[0..] == all;
    } else {
      assert all[1..] == arriving[1..] + rest && all[0] == arriving[0];
      if !Terminal(arriving[0].kind) {
        var n := Taken(arriving[1..]);
        TakenControls(arriving[1..], rest, decoders);
        assert all[1..][n..] == all[n + 1..];
        assert arriving[1..][..n] == arriving[..n + 1][1..];
        assert EndOf(arriving[..n + 1]) == EndOf(arriving[1..][..n]);
      }
    }
  }

  // A single call: what it shows and what it leaves make up the stream ...
  lemma CallPreservesStream(queue: seq<Record>, n: nat, decode: MediaDecoder)
    requires n <= |queue|
    ensures Expand(Items(Merge(Visible(queue[..n])), decode)) + StreamAtoms(queue[n..], decode)
      == StreamAtoms(queue, decode)
  {
    hide StreamAtoms, Items, Merge, Expand, Visible;
    assert queue[..n] + queue[n..] == queue;
    ConsoleMeansStream(Visible(queue[..n]), decode);
    VisibleMeaning(queue[..n], decode);
    StreamAppend(queue[..n], queue[n..], decode);
  }

  // ... and it reports the one control record it takes, if any.
  lemma CallReportsControls(queue: seq<Record>, k: nat, decoders: Decoders)
    requires k <= |queue|
    ensures var n := Taken(queue[..k]);
      Controls(queue, decoders) == EndingsIn(queue[..n], decoders) + Controls(queue[n..], decoders)
  {
    hide Controls, EndingsIn, Taken;
    var n := Taken(queue[..k]);
    assert queue[..k] + queue[k..] == queue;
    assert queue[..k][..n] == queue[..n];
    TakenControls(queue[..k], queue[k..], decoders);
  }

  lemma FirstReply(first: Reply, rest: seq<Reply>)
    ensures Shown([first] + rest) == Seen(first) + Shown(rest)
    ensures Endings([first] + rest) == Reported(first) + Endings(rest)
  {
    hide Seen, Reported;
    assert ([first] + rest)[1..] == rest;
  }

  lemma NoReplies()
    ensures Shown([]) == [] && Endings([]) == []
  {}

  // The control records are reported one by one, in order, in any version.
  lemma {:induction false} CallsReportControls(queue: seq<Record>, plan: seq<Call>, version: int, decoders: Decoders)
    requires version >= 1
    ensures Endings(Replies(queue, plan, version, decoders)) + Controls(Left(queue, plan), decoders)
      == Controls(queue, decoders)
  {
    hide Controls, EndOf, Taken, Endings, OutputOf, EndingOf;
    NoReplies();
    if plan != [] {
      var n := TakenBy(queue, plan[0]);
      CallsReportControls(queue[n..], plan[1..], version, decoders);
      CallReportsControls(queue, Least(plan[0].arrived, |queue|), decoders);
      var first := ReplyOf(queue[..n], plan[0].cancelled, version, decoders);
      var rest := Replies(queue[n..], plan[1..], version, decoders);
      FirstReply(first, rest);
      assert Reported(first) == EndingsIn(queue[..n], decoders);
      Regroup(Reported(first), Endings(rest), Controls(Left(queue, plan), decoders));
    }
  }

  // The message types that end a call.
  const CONTROLS: set<Kind> := {Finished, CleanFinished, BuildFinished, WaitingInput, ExecTimeout}

  function ControlRecords(records: seq<Record>): seq<Record> {
    if records == [] then []
    else (if records[0].kind in CONTROLS then [records[0]] else []) + ControlRecords(records[1..])
  }

  // What is to be told of a control record: its type, the exit code of a stage
  // that has finished, the options of a request for input.
  predicate Tells(e: Ending, rec: Record, json: string -> Json) {
    var empty := rec.data == None || rec.data == Some("");
    && e.kind == rec.kind
    && (rec.kind in {Finished, CleanFinished, BuildFinished} ==>
        e.options == None && e.exitCode == if empty then None else json(rec.data.value).exitCode)
    && (rec.kind == WaitingInput ==>
        e.exitCode == None && e.options == Some(if empty then Json(None, "{}") else json(rec.data.value)))
    && (rec.kind == ExecTimeout ==> e.exitCode == None && e.options == None)
  }

  lemma {:induction false} ControlsTell(records: seq<Record>, decoders: Decoders)
    ensures |Controls(records, decoders)| == |ControlRecords(records)|
    ensures forall i :: 0 <= i < |ControlRecords(records)| ==>
      Tells(Controls(records, decoders)[i], ControlRecords(records)[i], decoders.json)
  {
    if records != [] {
      ControlsTell(records[1..], decoders);
    }
  }

  // In any run of calls the i-th ending reported is that of the i-th control
  // record, and the others are still to come.
  lemma EndingsExactly(queue: seq<Record>, plan: seq<Call>, version: int, decoders: Decoders)
    requires version >= 1
    ensures var endings, controls := Endings(Replies(queue, plan, version, decoders)), ControlRecords(queue);
      && |endings| + |ControlRecords(Left(queue, plan))| == |controls|
      && forall i :: 0 <= i < |endings| ==> Tells(endings[i], controls[i], decoders.json)
  {
    hide Endings, Replies, Left, Controls, ControlRecords, Tells;
    CallsReportControls(queue, plan, version, decoders);
    ControlsTell(queue, decoders);
    ControlsTell(Left(queue, plan), decoders);
    var endings := Endings(Replies(queue, plan, version, decoders));
    assert forall i :: 0 <= i < |endings| ==> endings[i] == Controls(queue, decoders)[i];
  }

  // A call goes on until a control record or until nothing more arrives.
  lemma {:induction false} TakenExactly(arriving: seq<Record>)
    ensures var n := Taken(arriving);
      && (forall i :: 0 <= i < n - 1 ==> arriving[i].kind !in CONTROLS)
      && (n < |arriving| ==> 0 < n && arriving[n - 1].kind in CONTROLS)
      && (n == 0 <==> arriving == [])
  {
    if arriving != [] && !Terminal(arriving[0].kind) {
      TakenExactly(arriving[1..]);
    }
  }

  lemma Regroup<T>(a: seq<T>, b: seq<T>, c: seq<T>)
    ensures a + b + c == a + (b + c)
  {}

  lemma SeenIs(taken: seq<Record>, cancelled: bool, version: int, decoders: Decoders)
    requires version > 1
    ensures var reply := ReplyOf(taken, cancelled, version, decoders);
      Seen(reply) == if reply.Cancelled? then [] else Expand(Items(Merge(Visible(taken)), decoders.media))
  {
    hide EndOf, EndingOf, Expand, Items, Merge, Visible;
  }

  // However timers and control records cut a run's stream into calls: if the
  // cancelled calls took nothing that can be seen, then what the calls show, one
  // after the other, followed by what is still queued, is the whole stream.
  lemma {:induction false} CallsPreserveStream(queue: seq<Record>, plan: seq<Call>, version: int, decoders: Decoders)
    requires version > 1 && StreamAtoms(Lost(queue, plan), decoders.media) == []
    ensures Shown(Replies(queue, plan, version, decoders)) + StreamAtoms(Left(queue, plan), decoders.media)
      == StreamAtoms(queue, decoders.media)
  {
    hide StreamAtoms, Items, Merge, Expand, EndOf, Visible, Taken, Shown, Seen, EndingOf, OutputOf;
    NoReplies();
    if plan != [] {
      var decode := decoders.media;
      var n := TakenBy(queue, plan[0]);
      var first := ReplyOf(queue[..n], plan[0].cancelled, version, decoders);
      var lost, replies := Lost(queue[n..], plan[1..]), Replies(queue[n..], plan[1..], version, decoders);
      FirstReply(first, replies);
      SeenIs(queue[..n], plan[0].cancelled, version, decoders);
      if first.Cancelled? {
        StreamAppend(queue[..n], lost, decode);
        StreamAppend(queue[..n], queue[n..], decode);
        assert queue[..n] + queue[n..] == queue;
      } else {
        assert [] + lost == lost;
        CallPreservesStream(queue, n, decode);
      }
      CallsPreserveStream(queue[n..], plan[1..], version, decoders);
      Regroup(Seen(first), Shown(replies), StreamAtoms(Left(queue, plan), decode));
    }
  }

  // Every character and item of the stream is shown, still queued or lost.
  lemma {:induction false} CallsAccount(queue: seq<Record>, plan: seq<Call>, version: int, decoders: Decoders)
    requires version > 1
    ensures |Shown(Replies(queue, plan, version, decoders))| + |StreamAtoms(Left(queue, plan), decoders.media)|
      + |StreamAtoms(Lost(queue, plan), decoders.media)| == |StreamAtoms(queue, decoders.media)|
  {
    hide StreamAtoms, Items, Merge, Expand, EndOf, Visible, Taken, Shown, Seen, EndingOf, OutputOf;
    NoReplies();
    var decode := decoders.media;
    if plan == [] {
      NothingStreamed(decode);
    } else {
      var n := TakenBy(queue, plan[0]);
      var first := ReplyOf(queue[..n], plan[0].cancelled, version, decoders);
      var lost := Lost(queue[n..], plan[1..]);
      FirstReply(first, Replies(queue[n..], plan[1..], version, decoders));
      SeenIs(queue[..n], plan[0].cancelled, version, decoders);
      CallsAccount(queue[n..], plan[1..], version, decoders);
      if first.Cancelled? {
        StreamAppend(queue[..n], lost, decode);
        StreamAppend(queue[..n], queue[n..], decode);
        assert queue[..n] + queue[n..] == queue;
      } else {
        assert [] + lost == lost;
        CallPreservesStream(queue, n, decode);
      }
    }
  }

  lemma NothingStreamed(decode: MediaDecoder)
    ensures StreamAtoms([], decode) == []
  {}

  // So the stream arrives whole if and only if no cancelled call has taken
  // anything that can be seen.
  lemma StreamIsWholeExactly(queue: seq<Record>, plan: seq<Call>, version: int, decoders: Decoders)
    requires version > 1
    ensures var shown := Shown(Replies(queue, plan, version, decoders));
      var left := StreamAtoms(Left(queue, plan), decoders.media);
      shown + left == StreamAtoms(queue, decoders.media) <==> StreamAtoms(Lost(queue, plan), decoders.media) == []
  {
    hide StreamAtoms, Replies, Left, Lost, Shown;
    CallsAccount(queue, plan, version, decoders);
    if StreamAtoms(Lost(queue, plan), decoders.media) == [] {
      CallsPreserveStream(queue, plan, version, decoders);
    }
  }

  // A call that has taken one character and is cancelled loses it.
  lemma CancelledCallLoses(c: char, version: int, decoders: Decoders)
    requires version > 1
    ensures var queue, plan := [Record(Stdout, Some([c]))], [Call(1, true)];
      Shown(Replies(queue, plan, version, decoders)) + StreamAtoms(Left(queue, plan), decoders.media)
      != StreamAtoms(queue, decoders.media)
  {
    var queue, plan := [Record(Stdout, Some([c]))], [Call(1, true)];
    assert queue[..1] == queue && queue[1..] == [] && queue[..0] == [];
    assert TakenBy(queue, plan[0]) == 1 && EndOf(queue[..1]) == None;
    assert Lost([], plan[1..]) == [];
    assert Lost(queue, plan) == queue;
    assert StreamAtoms(queue, decoders.media) == [] + RecordAtoms(queue[0], decoders.media);
    assert |RecordAtoms(queue[0], decoders.media)| == 1;
    StreamIsWholeExactly(queue, plan, version, decoders);
  }

  lemma {:induction false} NothingIsLost(queue: seq<Record>, plan: seq<Call>)
    requires forall call :: call in plan ==> !call.cancelled
    ensures Lost(queue, plan) == []
  {
    if plan != [] {
      NothingIsLost(queue[TakenBy(queue, plan[0])..], plan[1..]);
    }
  }

  // Calls that are not cancelled preserve the stream, however it is cut.
  lemma UncancelledCallsPreserveStream(queue: seq<Record>, plan: seq<Call>, version: int, decoders: Decoders)
    requires version > 1 && forall call :: call in plan ==> !call.cancelled
    ensures Shown(Replies(queue, plan, version, decoders)) + StreamAtoms(Left(queue, plan), decoders.media)
      == StreamAtoms(queue, decoders.media)
  {
    hide Shown, Replies;
    NothingIsLost(queue, plan);
    NothingStreamed(decoders.media);
    CallsPreserveStream(queue, plan, version, decoders);
  }

  lemma {:induction false} ControlsAppend(a: seq<Record>, b: seq<Record>)
    ensures ControlRecords(a + b) == ControlRecords(a) + ControlRecords(b)
  {
    if a == [] {
      assert a + b == b;
    } else {
      assert (a + b)[1..] == a[1..] + b && (a + b)[0] == a[0];
      ControlsAppend(a[1..], b);
    }
  }

  lemma PatientCall(queue: seq<Record>)
    ensures var n := Taken(queue);
      n < |queue| ==> |ControlRecords(queue[n..])| < |ControlRecords(queue)|
  {
    var n := Taken(queue);
    TakenExactly(queue);
    if n < |queue| {
      var before := queue[..n - 1];
      assert queue == before + [queue[n - 1]] + queue[n..];
      ControlsAppend(before + [queue[n - 1]], queue[n..]);
      ControlsAppend(before, [queue[n - 1]]);
    }
  }

  lemma {:induction false} PatientCallsEmpty(queue: seq<Record>, plan: seq<Call>)
    requires forall call :: call in plan ==> call.arrived >= |queue|
    requires |plan| > |ControlRecords(queue)|
    ensures Left(queue, plan) == []
    decreases |plan|
  {
    hide Taken, ControlRecords;
    var n := TakenBy(queue, plan[0]);
    assert plan[0] in plan && queue[..|queue|] == queue;
    PatientCall(queue);
    if n < |queue| {
      PatientCallsEmpty(queue[n..], plan[1..]);
    } else {
      NothingLeft(plan[1..]);
      assert queue[n..] == [];
    }
  }

  lemma {:induction false} NothingLeft(plan: seq<Call>)
    ensures Left([], plan) == []
  {
    if plan != [] {
      NothingLeft(plan[1..]);
    }
  }

  // Calls that wait for everything, one more of them than there are control
  // records, show the whole stream and report all control records.
  lemma PatientCallsFinish(queue: seq<Record>, plan: seq<Call>, version: int, decoders: Decoders)
    requires version > 1 && forall call :: call in plan ==> !call.cancelled && call.arrived >= |queue|
    requires |plan| > |ControlRecords(queue)|
    ensures Left(queue, plan) == []
    ensures Shown(Replies(queue, plan, version, decoders)) == StreamAtoms(queue, decoders.media)
    ensures |Endings(Replies(queue, plan, version, decoders))| == |ControlRecords(queue)|
  {
    hide Shown, Replies, Endings, Left;
    PatientCallsEmpty(queue, plan);
    UncancelledCallsPreserveStream(queue, plan, version, decoders);
    EndingsExactly(queue, plan, version, decoders);
    NothingStreamed(decoders.media);
  }

  // ---------------------------------------------------------------- version 1

  // What the version 1 fields of successive replies add up to.
  function AllFields(replies: seq<Reply>): (all: Output)
    ensures all.Fields?
  {
    if replies == [] then Fields("", "", [], [])
    else PlusFields(replies[0], AllFields(replies[1..]))
  }

  function PlusFields(reply: Reply, rest: Output): (all: Output)
    requires rest.Fields?
    ensures all.Fields?
  {
    if reply.Reply? && reply.output.Fields? then
      var f := reply.output;
      Fields(f.stdout + rest.stdout, f.stderr + rest.stderr, f.media + rest.media, f.html + rest.html)
    else rest
  }

  lemma OneCallsFields(taken: seq<Record>, cancelled: bool, decoders: Decoders, rest: seq<Atom>)
    ensures var one, two := ReplyOf(taken, cancelled, 1, decoders), ReplyOf(taken, cancelled, 2, decoders);
      PlusFields(one, Projected(rest)) == Projected(Seen(two) + rest)
  {
    hide EndOf, EndingOf, Expand, Items, Merge, Visible, StreamAtoms, TextOf, MediaOf, HtmlOf;
    var two := ReplyOf(taken, cancelled, 2, decoders);
    ConsoleMeansStream(Visible(taken), decoders.media);
    ProjectionsAppend(Seen(two), rest, Stdout);
    ProjectionsAppend(Seen(two), rest, Stderr);
    RecordlessProjections();
  }

  // Whatever the calls, the version 1 fields are the characters, media and HTML
  // that version 2 would have shown of the same stream.
  lemma {:induction false} VersionsAgree(queue: seq<Record>, plan: seq<Call>, decoders: Decoders)
    ensures var shown := Shown(Replies(queue, plan, 2, decoders));
      AllFields(Replies(queue, plan, 1, decoders))
      == Fields(TextOf(shown, Stdout), TextOf(shown, Stderr), MediaOf(shown), HtmlOf(shown))
  {
    hide Taken, Seen, ReplyOf, PlusFields, TextOf, MediaOf, HtmlOf;
    if plan == [] {
      NothingProjected();
    } else {
      var n := TakenBy(queue, plan[0]);
      var one := ReplyOf(queue[..n], plan[0].cancelled, 1, decoders);
      var two := ReplyOf(queue[..n], plan[0].cancelled, 2, decoders);
      var ones, twos := Replies(queue[n..], plan[1..], 1, decoders), Replies(queue[n..], plan[1..], 2, decoders);
      VersionsAgree(queue[n..], plan[1..], decoders);
      OneCallsFields(queue[..n], plan[0].cancelled, decoders, Shown(twos));
      assert ([one] + ones)[1..] == ones;
      FirstReply(two, twos);
    }
  }

  lemma NothingProjected()
    ensures Projected(Shown([])) == Fields("", "", [], [])
  {}

  // A call that is cancelled before a control record comes has no result, a call of
  // an unknown version fails, and any other reports whether it has ended a stage.
  lemma WhichReply(arriving: seq<Record>, cancelled: bool, version: int, decoders: Decoders)
    ensures var n := Taken(arriving);
      var reply := ReplyOf(arriving[..n], cancelled, version, decoders);
      var ended := 0 < n && arriving[n - 1].kind in CONTROLS;
      && (reply.Cancelled? <==> cancelled && !ended)
      && (reply.BadVersion? <==> version < 1 && !(cancelled && !ended))
      && (reply.Reply? ==> (reply.ending.Some? <==> ended))
  {
    hide Taken, EndingOf, OutputOf;
    var n := Taken(arriving);
    assert n > 0 ==> arriving[..n][n - 1] == arriving[n - 1];
  }
}

/** The handover of a code runner between runs: which run's output queue is the
    current one, and which runs wait for their turn.  Steps are the code's
    uninterrupted stretches; requests interleave between them in any order. */
module Handover {
  import opened Options

  datatype RunId = RunId(name: string)

  // A pending entry; a queue and the event that comes with it share an identity.
  datatype Entry = Entry(run: RunId, queue: nat)

  // An API request: blocked on its event, or past it and reading results.
  datatype Task = Waiting(queue: nat) | Reading(queue: nat)

  // How the run in possession of the runner came by it: history, not code.
  datatype Holder = Nobody | Claimed(run: RunId) | Promoted(run: RunId)

  // arrivals and started are history: the runs in order of their first request,
  // and in order of getting hold of the runner.
  datatype State = State(
    output: Option<nat>, current: Option<RunId>, pending: seq<Entry>, activated: set<nat>,
    tasks: map<RunId, Task>, created: nat, holder: Holder, arrivals: seq<RunId>, started: seq<RunId>)

  const INITIAL := State(None, None, [], {}, map[], 0, Nobody, [], [])

  datatype Step = Attach(run: RunId) | Wake(run: RunId) | Resume(run: RunId) | Finish(run: RunId)

  predicate IsPending(pending: seq<Entry>, run: RunId) {
    exists i :: 0 <= i < |pending| && pending[i].run == run
  }

  function Position(pending: seq<Entry>, run: RunId): (i: nat)
    requires IsPending(pending, run)
    ensures i < |pending| && pending[i].run == run
  {
    if pending[0].run == run then 0 else 1 + Position(pending[1..], run)
  }

  // One task per run ID; tasks proceed as their events allow.
  predicate Enabled(s: State, step: Step) {
    match step
    case Attach(run) => run !in s.tasks
    case Wake(run) => run in s.tasks && s.tasks[run].Waiting? && s.tasks[run].queue in s.activated
    case Resume(run) => run in s.tasks && s.tasks[run].Reading?
    case Finish(run) => run in s.tasks && s.tasks[run].Reading?
  }

  // The checks the code itself makes: a request that need not wait or has just
  // been woken finds its own queue in place, a continued run is still listed,
  // and a run that ends is the current one.
  predicate Succeeds(s: State, step: Step)
    requires Enabled(s, step)
  {
    match step
    case Attach(run) =>
      s.output == None || s.current != Some(run)
      || (IsPending(s.pending, run) && s.output == Some(s.pending[Position(s.pending, run)].queue))
    case Wake(run) => s.output == Some(s.tasks[run].queue)
    case Resume(run) => s.current == Some(run) && IsPending(s.pending, run)
    case Finish(run) => s.current == Some(run)
  }

  function AfterAttach(s: State, run: RunId): State {
    var listed := IsPending(s.pending, run);
    var q := if listed then s.pending[Position(s.pending, run)].queue else s.created;
    var t := if listed then s else
      s.(pending := s.pending + [Entry(run, q)], created := s.created + 1, arrivals := s.arrivals + [run]);
    if s.output == None then
      t.(output := Some(q), current := Some(run), tasks := t.tasks[run := Reading(q)],
         holder := Claimed(run), started := t.started + [run])
    else if s.current == Some(run) then t.(tasks := t.tasks[run := Reading(q)])
    else t.(tasks := t.tasks[run := Waiting(q)])
  }

  function AfterWake(s: State, run: RunId): State
    requires run in s.tasks
  {
    var q := s.tasks[run].queue;
    s.(activated := s.activated - {q}, current := Some(run), tasks := s.tasks[run := Reading(q)])
  }

  // The current run's entry moves to the front.
  function AfterResume(s: State, run: RunId): State
    requires IsPending(s.pending, run)
  {
    var i := Position(s.pending, run);
    s.(pending := [s.pending[i]] + s.pending[..i] + s.pending[i + 1..], tasks := s.tasks - {run})
  }

  function Without(pending: seq<Entry>, run: RunId): seq<Entry> {
    if IsPending(pending, run)
    then var i := Position(pending, run); pending[..i] + pending[i + 1..]
    else pending
  }

  function Promote(s: State, run: RunId, rest: seq<Entry>): State {
    var t := s.(current := None, tasks := s.tasks - {run});
    if rest == [] then t.(pending := [], output := None, holder := Nobody)
    else
      t.(pending := rest[1..], output := Some(rest[0].queue), activated := s.activated + {rest[0].queue},
         holder := Promoted(rest[0].run), started := s.started + [rest[0].run])
  }

  // The current run's entry, if any, goes; the first of the others is promoted.
  function AfterFinish(s: State, run: RunId): State {
    Promote(s, run, Without(s.pending, run))
  }

  function After(s: State, step: Step): State
    requires Enabled(s, step) && Succeeds(s, step)
  {
    match step
    case Attach(run) => AfterAttach(s, run)
    case Wake(run) => AfterWake(s, run)
    case Resume(run) => AfterResume(s, run)
    case Finish(run) => AfterFinish(s, run)
  }

  // ------------------------------------------------------------------ the invariant

  predicate DistinctEntries(s: State) {
    && (forall i, j :: 0 <= i < j < |s.pending| ==>
          s.pending[i].run != s.pending[j].run && s.pending[i].queue != s.pending[j].queue)
    && forall i :: 0 <= i < |s.pending| ==> s.pending[i].queue < s.created
  }

  // The entries from index from on belong to tasks that wait.
  predicate Queued(s: State, from: nat) {
    forall i :: from <= i < |s.pending| ==>
      s.pending[i].run in s.tasks && s.tasks[s.pending[i].run] == Waiting(s.pending[i].queue)
  }

  function Runs(entries: seq<Entry>): seq<RunId> {
    seq(|entries|, i requires 0 <= i < |entries| => entries[i].run)
  }

  predicate Inv(s: State) {
    && DistinctEntries(s)
    && (forall r :: r in s.tasks ==> IsPending(s.pending, r) || s.holder == Promoted(r))
    && match s.holder
       case Nobody =>
         s.output == None && s.current == None && s.pending == [] && s.activated == {} && s.arrivals == s.started
       case Claimed(run) =>
         && s.pending != [] && s.pending[0].run == run && s.current == Some(run)
         && s.output == Some(s.pending[0].queue) && s.activated == {}
         && (run in s.tasks ==> s.tasks[run] == Reading(s.pending[0].queue))
         && Queued(s, 1)
         && s.arrivals == s.started + Runs(s.pending[1..])
       case Promoted(run) =>
         && !IsPending(s.pending, run) && run in s.tasks && s.output == Some(s.tasks[run].queue)
         && s.tasks[run].queue < s.created
         && (forall i :: 0 <= i < |s.pending| ==> s.pending[i].queue != s.tasks[run].queue)
         && (if s.tasks[run].Waiting? then s.current == None && s.activated == {s.tasks[run].queue}
             else s.current == Some(run) && s.activated == {})
         && Queued(s, 0)
         && s.arrivals == s.started + Runs(s.pending)
  }

  lemma PositionFirst(pending: seq<Entry>, run: RunId)
    requires pending != [] && pending[0].run == run
    ensures IsPending(pending, run) && Position(pending, run) == 0
  {
    assert IsPending(pending, run);
  }

  // In every state the invariant allows, the only check that can fail is that
  // of continuing a run that was promoted, and that one always fails.
  lemma WhatSucceeds(s: State, step: Step)
    requires Inv(s) && Enabled(s, step)
    ensures Succeeds(s, step) <==> !(step.Resume? && s.holder == Promoted(step.run))
  {
    if s.holder.Claimed? {
      PositionFirst(s.pending, s.holder.run);
    }
  }

  lemma ListedAfter(s: State, run: RunId, r: RunId)
    requires !IsPending(s.pending, run)
    ensures IsPending(AfterAttach(s, run).pending, r) <==> IsPending(s.pending, r) || r == run
  {
    var t := AfterAttach(s, run);
    assert t.pending[|s.pending|].run == run;
    if IsPending(s.pending, r) {
      assert t.pending[Position(s.pending, r)].run == r;
    }
  }

  lemma ContinueKeepsInv(s: State, run: RunId)
    requires Inv(s) && run !in s.tasks && IsPending(s.pending, run)
    ensures Inv(AfterAttach(s, run))
  {
    var i := Position(s.pending, run);
    assert s.holder == Claimed(run) && i == 0;
  }

  lemma ArriveKeepsInv(s: State, run: RunId)
    requires Inv(s) && run !in s.tasks && !IsPending(s.pending, run) && !s.holder.Nobody?
    ensures Inv(AfterAttach(s, run))
  {
    hide IsPending, Position, Runs;
    var t := AfterAttach(s, run);
    var entry := Entry(run, s.created);
    assert t.pending == s.pending + [entry] && t.holder == s.holder && t.output == s.output;
    forall r | r in t.tasks ensures IsPending(t.pending, r) || t.holder == Promoted(r) {
      ListedAfter(s, run, r);
    }
    NotListed(s.pending, run);
    if s.holder.Claimed? {
      RunsSnoc(s.pending[1..], entry);
      assert t.pending[1..] == s.pending[1..] + [entry];
    } else {
      ListedAfter(s, run, s.holder.run);
      RunsSnoc(s.pending, entry);
    }
  }

  lemma NotListed(pending: seq<Entry>, run: RunId)
    requires !IsPending(pending, run)
    ensures forall i :: 0 <= i < |pending| ==> pending[i].run != run
  {}

  lemma RunsSnoc(entries: seq<Entry>, e: Entry)
    ensures Runs(entries + [e]) == Runs(entries) + [e.run]
  {}

  lemma ClaimKeepsInv(s: State, run: RunId)
    requires Inv(s) && run !in s.tasks && s.holder.Nobody?
    ensures Inv(AfterAttach(s, run))
  {
    var t := AfterAttach(s, run);
    assert t.pending == [Entry(run, s.created)];
    assert t.pending[0].run == run && Runs(t.pending[1..]) == [];
  }

  lemma AttachKeepsInv(s: State, run: RunId)
    requires Inv(s) && Enabled(s, Attach(run))
    ensures Inv(AfterAttach(s, run))
  {
    hide Inv, AfterAttach;
    if IsPending(s.pending, run) {
      ContinueKeepsInv(s, run);
    } else if s.holder.Nobody? {
      ClaimKeepsInv(s, run);
    } else {
      ArriveKeepsInv(s, run);
    }
  }

  lemma WakeKeepsInv(s: State, run: RunId)
    requires Inv(s) && Enabled(s, Wake(run))
    ensures Inv(AfterWake(s, run))
  {
  }

  // The current run's entry is at the front already.
  lemma ResumeOnlyEndsTask(s: State, run: RunId)
    requires Inv(s) && s.holder == Claimed(run)
    ensures IsPending(s.pending, run) && AfterResume(s, run) == s.(tasks := s.tasks - {run})
  {
    hide Runs, Queued;
    PositionFirst(s.pending, run);
    assert [s.pending[0]] + s.pending[..0] + s.pending[1..] == s.pending;
  }

  lemma ResumeKeepsInv(s: State, run: RunId)
    requires Inv(s) && Enabled(s, Resume(run)) && Succeeds(s, Resume(run))
    ensures Inv(AfterResume(s, run))
  {
    hide Runs, Position, AfterResume;
    WhatSucceeds(s, Resume(run));
    ResumeOnlyEndsTask(s, run);
  }

  // entries are the runs that wait behind run, each with its waiting task.
  predicate Line(s: State, run: RunId, entries: seq<Entry>) {
    && (forall i, j :: 0 <= i < j < |entries| ==>
          entries[i].run != entries[j].run && entries[i].queue != entries[j].queue)
    && (forall i :: 0 <= i < |entries| ==>
          && entries[i].run != run && entries[i].queue < s.created
          && entries[i].run in s.tasks && s.tasks[entries[i].run] == Waiting(entries[i].queue))
    && (forall r :: r in s.tasks ==> r == run || IsPending(entries, r))
    && s.arrivals == s.started + Runs(entries)
  }

  lemma WithoutFirst(pending: seq<Entry>, run: RunId)
    requires pending != [] && pending[0].run == run
    ensures Without(pending, run) == pending[1..]
  {
    assert IsPending(pending, run) && Position(pending, run) == 0;
  }

  lemma ClaimedLine(s: State, run: RunId)
    requires Inv(s) && s.holder == Claimed(run)
    ensures Line(s, run, s.pending[1..])
  {
    hide Runs, Position, IsPending;
    var entries := s.pending[1..];
    assert forall i :: 0 <= i < |entries| ==> entries[i] == s.pending[i + 1];
    forall r | r in s.tasks ensures r == run || IsPending(entries, r) {
      ListedRest(s.pending, r);
    }
  }

  lemma PromotedLine(s: State, run: RunId)
    requires Inv(s) && s.holder == Promoted(run)
    ensures Without(s.pending, run) == s.pending && Line(s, run, s.pending)
  {
    hide Runs;
    NotListed(s.pending, run);
  }

  lemma PromoteNobody(s: State, run: RunId)
    requires Line(s, run, []) && s.activated == {}
    ensures Inv(Promote(s, run, []))
  {
    hide Runs, Position;
    NoRuns();
    forall r | r in s.tasks ensures r == run {
      assert !IsPending([], r);
    }
  }

  lemma PromoteFirst(s: State, run: RunId, rest: seq<Entry>)
    requires Line(s, run, rest) && s.activated == {} && rest != []
    ensures Inv(Promote(s, run, rest))
  {
    hide Runs, Position, IsPending;
    var t, tail := Promote(s, run, rest), rest[1..];
    RunsCons(rest);
    HeadNotInTail(rest);
    assert t.pending == tail && t.holder == Promoted(rest[0].run) && t.tasks[rest[0].run] == Waiting(rest[0].queue);
    assert forall i :: 0 <= i < |tail| ==> tail[i] == rest[i + 1];
    forall r | r in t.tasks ensures IsPending(tail, r) || t.holder == Promoted(r) {
      ListedRest(rest, r);
    }
  }

  lemma HeadNotInTail(entries: seq<Entry>)
    requires entries != [] && forall i, j :: 0 <= i < j < |entries| ==> entries[i].run != entries[j].run
    ensures !IsPending(entries[1..], entries[0].run)
  {}

  lemma FinishKeepsInv(s: State, run: RunId)
    requires Inv(s) && Enabled(s, Finish(run))
    ensures Inv(AfterFinish(s, run))
  {
    hide Promote, Without, Line, Runs;
    WhatSucceeds(s, Finish(run));
    assert s.activated == {} && !s.holder.Nobody? && s.holder.run == run;
    if s.holder.Claimed? {
      WithoutFirst(s.pending, run);
      ClaimedLine(s, run);
    } else {
      PromotedLine(s, run);
    }
    if Without(s.pending, run) == [] {
      PromoteNobody(s, run);
    } else {
      PromoteFirst(s, run, Without(s.pending, run));
    }
  }

  lemma NoRuns()
    ensures Runs([]) == []
  {}

  lemma RunsCons(entries: seq<Entry>)
    requires entries != []
    ensures Runs(entries) == [entries[0].run] + Runs(entries[1..])
  {}

  lemma ListedRest(entries: seq<Entry>, r: RunId)
    requires entries != [] && IsPending(entries, r)
    ensures entries[0].run == r || IsPending(entries[1..], r)
  {
    var i := Position(entries, r);
    assert i > 0 ==> entries[1..][i - 1].run == r;
  }

  // ------------------------------------------------------------------- all runs

  lemma StepKeepsInv(s: State, step: Step)
    requires Inv(s) && Enabled(s, step) && Succeeds(s, step)
    ensures Inv(After(s, step))
  {
    hide Inv, AfterAttach, AfterWake, AfterResume, AfterFinish;
    match step
    case Attach(run) => AttachKeepsInv(s, run);
    case Wake(run) => WakeKeepsInv(s, run);
    case Resume(run) => ResumeKeepsInv(s, run);
    case Finish(run) => FinishKeepsInv(s, run);
  }

  // Any interleaving in which only runs that claimed an idle runner are continued.
  ghost predicate IsRun(states: seq<State>, steps: seq<Step>) {
    && |states| == |steps| + 1 && states[0] == INITIAL
    && forall i :: 0 <= i < |steps| ==>
      && Enabled(states[i], steps[i])
      && !(steps[i].Resume? && states[i].holder == Promoted(steps[i].run))
      && (Succeeds(states[i], steps[i]) ==> states[i + 1] == After(states[i], steps[i]))
  }

  // In every such interleaving each of the code's own checks holds: a woken
  // task finds its own queue, a continued run its entry.
  lemma {:induction false} EveryRunIsSafe(states: seq<State>, steps: seq<Step>, i: nat)
    requires IsRun(states, steps) && i < |states|
    ensures Inv(states[i])
    ensures i < |steps| ==> Succeeds(states[i], steps[i])
  {
    hide Inv, After, Enabled, Succeeds;
    if i == 0 {
      InitialInv();
    } else {
      EveryRunIsSafe(states, steps, i - 1);
      StepKeepsInv(states[i - 1], steps[i - 1]);
    }
    if i < |steps| {
      WhatSucceeds(states[i], steps[i]);
    }
  }

  lemma InitialInv()
    ensures Inv(INITIAL)
  {}

  // What the invariant means.
  lemma Meaning(s: State)
    requires Inv(s)
    // Runs get hold of the runner in the order in which they arrived.
    ensures s.started <= s.arrivals
    // Output is dropped only when nothing is current, pending or under way.
    ensures s.output == None ==> s.current == None && s.pending == [] && s.tasks == map[]
    // At most one task reads, and it is that of the current run, from its queue.
    ensures forall r :: r in s.tasks && s.tasks[r].Reading? ==>
      s.current == Some(r) && s.output == Some(s.tasks[r].queue)
    // A promoted run is sure to be woken.
    ensures s.output != None && s.current == None ==> exists r :: Enabled(s, Wake(r))
    // Nobody waits for an idle runner.
    ensures (exists r :: r in s.tasks && s.tasks[r].Waiting?) ==> s.output != None
  {
    hide Position, Runs;
    forall r | r in s.tasks && s.tasks[r].Reading?
      ensures s.current == Some(r) && s.output == Some(s.tasks[r].queue)
    {
      if s.holder != Promoted(r) {
        var i :| 0 <= i < |s.pending| && s.pending[i].run == r;
      }
    }
    if s.output != None && s.current == None {
      assert Enabled(s, Wake(s.holder.run));
    }
    if s.holder.Nobody? {
      assert forall r :: r in s.tasks ==> IsPending(s.pending, r);
    }
  }

  // The exception is real: when run b waits for run a, takes over after it and
  // is then to be continued, its entry is gone.
  function Busy(a: RunId): State {
    State(Some(0), Some(a), [Entry(a, 0)], {}, map[a := Reading(0)], 1, Claimed(a), [a], [a])
  }

  function Contended(a: RunId, b: RunId): State {
    State(Some(0), Some(a), [Entry(a, 0), Entry(b, 1)], {}, map[a := Reading(0), b := Waiting(1)], 2,
          Claimed(a), [a, b], [a])
  }

  function HandedOver(a: RunId, b: RunId): State {
    State(Some(1), None, [], {1}, map[b := Waiting(1)], 2, Promoted(b), [a, b], [a, b])
  }

  lemma BusyContended(a: RunId, b: RunId)
    requires a != b
    ensures After(INITIAL, Attach(a)) == Busy(a) && After(Busy(a), Attach(b)) == Contended(a, b)
  {
    assert !IsPending([Entry(a, 0)], b);
    assert map[a := Reading(0)][b := Waiting(1)] == map[a := Reading(0), b := Waiting(1)];
  }

  lemma ContendedHandedOver(a: RunId, b: RunId)
    requires a != b
    ensures AfterFinish(Contended(a, b), a) == HandedOver(a, b)
  {
    var pending := [Entry(a, 0), Entry(b, 1)];
    PositionFirst(pending, a);
    assert Without(pending, a) == [Entry(b, 1)];
    assert map[a := Reading(0), b := Waiting(1)] - {a} == map[b := Waiting(1)];
  }

  lemma PromotedRunCannotBeContinued(a: RunId, b: RunId)
    requires a != b
    ensures var s := After(After(After(After(INITIAL, Attach(a)), Attach(b)), Finish(a)), Wake(b));
      Enabled(s, Resume(b)) && !Succeeds(s, Resume(b))
  {
    BusyContended(a, b);
    ContendedHandedOver(a, b);
    assert !IsPending([], b);
  }

  // ------------------------------------------------------- after such a failure

  // The request that fails to resume is gone; what it held stays as it is.
  function AfterFailedResume(s: State, run: RunId): State {
    s.(tasks := s.tasks - {run})
  }

  // A request whose own queue is not in place is gone, too, but has been listed.
  function AfterFailedAttach(s: State, run: RunId): State {
    if IsPending(s.pending, run) then s
    else s.(pending := s.pending + [Entry(run, s.created)], created := s.created + 1, arrivals := s.arrivals + [run])
  }

  // Any attempt of any run, whether it succeeds or fails.
  function AfterAny(s: State, step: Step): State
    requires Enabled(s, step)
  {
    if Succeeds(s, step) then After(s, step)
    else match step
      case Attach(run) => AfterFailedAttach(s, run)
      case Resume(run) => AfterFailedResume(s, run)
      case _ => s
  }

  // Run is the current one, but none of its requests is there to finish it.
  predicate Stuck(s: State, run: RunId) {
    && s.current == Some(run) && s.output != None && s.activated == {} && run !in s.tasks
    && (forall r :: r in s.tasks ==> s.tasks[r].Waiting?)
    && s.output.value < s.created
    && (IsPending(s.pending, run) ==> s.output != Some(s.pending[Position(s.pending, run)].queue))
  }

  lemma FailedResumeIsStuck(s: State, run: RunId)
    requires Inv(s) && Enabled(s, Resume(run)) && s.holder == Promoted(run)
    ensures Stuck(AfterFailedResume(s, run), run)
  {
    hide Runs, Position;
    Meaning(s);
  }

  // Then no request of any run gets through any more: those of other runs wait,
  // and those of the run itself fail.
  lemma StuckStep(s: State, run: RunId, step: Step)
    requires Stuck(s, run) && Enabled(s, step)
    ensures step.Attach? && Stuck(AfterAny(s, step), run) && AfterAny(s, step).started == s.started
    ensures if step.run == run then !Succeeds(s, step)
      else step.run in AfterAny(s, step).tasks && AfterAny(s, step).tasks[step.run].Waiting?
  {
    hide Position;
    var t := AfterAny(s, step);
    if step.run != run {
      if IsPending(s.pending, step.run) {
        assert t.pending == s.pending;
      } else {
        ListedBefore(s.pending, Entry(step.run, s.created), run);
      }
    } else if !IsPending(s.pending, run) {
      ListedLast(s.pending, Entry(run, s.created));
    }
  }

  lemma {:induction false} ListedBefore(pending: seq<Entry>, e: Entry, run: RunId)
    requires e.run != run
    ensures IsPending(pending + [e], run) <==> IsPending(pending, run)
    ensures IsPending(pending, run) ==> Position(pending + [e], run) == Position(pending, run)
  {
    var all := pending + [e];
    if IsPending(pending, run) {
      assert all[Position(pending, run)].run == run;
      if pending[0].run != run {
        assert all[1..] == pending[1..] + [e];
        ListedRest(pending, run);
        ListedBefore(pending[1..], e, run);
      }
    }
  }

  lemma {:induction false} ListedLast(pending: seq<Entry>, e: Entry)
    requires !IsPending(pending, e.run)
    ensures IsPending(pending + [e], e.run) && Position(pending + [e], e.run) == |pending|
  {
    var all := pending + [e];
    assert all[|pending|].run == e.run;
    if pending != [] {
      assert all[1..] == pending[1..] + [e];
      assert pending[0].run != e.run;
      assert !IsPending(pending[1..], e.run) by {
        assert forall i :: 0 <= i < |pending[1..]| ==> pending[1..][i] == pending[i + 1];
      }
      ListedLast(pending[1..], e);
    }
  }

  ghost predicate IsAttempt(states: seq<State>, steps: seq<Step>) {
    && |states| == |steps| + 1
    && forall i :: 0 <= i < |steps| ==> Enabled(states[i], steps[i]) && states[i + 1] == AfterAny(states[i], steps[i])
  }

  // From there on, whatever is attempted: nothing is ever promoted or claimed,
  // and whoever waits, waits for ever.
  lemma {:induction false} StuckForever(states: seq<State>, steps: seq<Step>, run: RunId, n: nat)
    requires IsAttempt(states, steps) && n < |states| && Stuck(states[0], run)
    ensures Stuck(states[n], run) && states[n].started == states[0].started
  {
    hide Stuck, Enabled, AfterAny;
    if n > 0 {
      StuckForever(states, steps, run, n - 1);
      StuckStep(states[n - 1], run, steps[n - 1]);
    }
  }

  // ------------------------------------------------------------------ the object

  class CodeRunner {
    var outputQueue: Option<nat>
    var currentRunId: Option<RunId>
    var pendingQueues: seq<Entry>
    var activated: set<nat>
    var created: nat
    ghost var tasks: map<RunId, Task>
    ghost var holder: Holder
    ghost var arrivals: seq<RunId>
    ghost var started: seq<RunId>

    ghost function View(): State
      reads this
    {
      State(outputQueue, currentRunId, pendingQueues, activated, tasks, created, holder, arrivals, started)
    }

    constructor ()
      ensures View() == INITIAL
    {
      outputQueue, currentRunId, pendingQueues, activated, created := None, None, [], {}, 0;
      tasks, holder, arrivals, started := map[], Nobody, [], [];
    }

    // Up to the point where the request proceeds or waits for its event.
    method AttachOutputQueue(run: RunId) returns (q: nat, waits: bool)
      requires Inv(View()) && Enabled(View(), Attach(run))
      modifies this
      ensures Inv(View()) && View() == AfterAttach(old(View()), run)
      ensures waits <==> tasks[run] == Waiting(q)
      ensures !waits ==> outputQueue == Some(q) && currentRunId == Some(run)
    {
      hide Inv, Position;
      WhatSucceeds(View(), Attach(run));
      AttachKeepsInv(View(), run);
      if !IsPending(pendingQueues, run) {
        q := created;
        created := created + 1;
        pendingQueues := pendingQueues + [Entry(run, q)];
        arrivals := arrivals + [run];
      } else {
        q := pendingQueues[Position(pendingQueues, run)].queue;
      }
      if outputQueue == None {
        outputQueue := Some(q);
        holder, started := Claimed(run), started + [run];
      } else if currentRunId != Some(run) {
        tasks := tasks[run := Waiting(q)];
        return q, true;
      }
      currentRunId := Some(run);
      tasks := tasks[run := Reading(q)];
      return q, false;
    }

    // The rest of a request that waited, once its event is set.
    method WakeUp(run: RunId, q: nat)
      requires Inv(View()) && Enabled(View(), Wake(run)) && tasks[run] == Waiting(q)
      modifies this
      ensures Inv(View()) && View() == AfterWake(old(View()), run)
      ensures outputQueue == Some(q) && currentRunId == Some(run)
    {
      WhatSucceeds(View(), Wake(run));
      WakeKeepsInv(View(), run);
      activated := activated - {q};
      currentRunId := Some(run);
      tasks := tasks[run := Reading(q)];
    }

    // Fails exactly when the run was promoted; then the runner is stuck.
    method ResumeOutputQueue(run: RunId) returns (ok: bool)
      requires Inv(View()) && Enabled(View(), Resume(run))
      modifies this
      ensures ok <==> old(holder) != Promoted(run)
      ensures ok ==> Inv(View()) && Succeeds(old(View()), Resume(run)) && View() == AfterResume(old(View()), run)
      ensures !ok ==> View() == AfterFailedResume(old(View()), run) && Stuck(View(), run)
    {
      hide Inv, Position, Stuck;
      WhatSucceeds(View(), Resume(run));
      Meaning(View());
      if !IsPending(pendingQueues, run) {
        FailedResumeIsStuck(View(), run);
        tasks := tasks - {run};
        return false;
      }
      ResumeKeepsInv(View(), run);
      var i := Position(pendingQueues, run);
      pendingQueues := [pendingQueues[i]] + pendingQueues[..i] + pendingQueues[i + 1..];
      tasks := tasks - {run};
      return true;
    }

    method NextOutputQueue(run: RunId)
      requires Inv(View()) && Enabled(View(), Finish(run))
      modifies this
      ensures Inv(View()) && View() == AfterFinish(old(View()), run)
    {
      hide Inv, Without;
      FinishKeepsInv(View(), run);
      pendingQueues := Without(pendingQueues, run);
      currentRunId := None;
      tasks := tasks - {run};
      if |pendingQueues| > 0 {
        var next := pendingQueues[0];
        pendingQueues := pendingQueues[1..];
        outputQueue := Some(next.queue);
        activated := activated + {next.queue};
        holder, started := Promoted(next.run), started + [next.run];
      } else {
        outputQueue := None;
        holder := Nobody;
      }
    }
  }
}

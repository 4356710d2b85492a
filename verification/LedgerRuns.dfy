/** Whole runs of an allocation map: any sequence of requests, whether they
    succeed or fail, of releases, of kernels that end, and of rescans that rebuild
    the book from the containers found running. */
module LedgerRuns {
  import opened Options
  import opened Devices
  import opened Ledgers
  import opened Requests
  import opened AllocMap
  import opened Commitments

  // outstanding: tokens of kernels that run or are about to be started.
  // stale: what is in the book without a kernel that needs it, because a request
  // has failed halfway or the kernel has ended.
  datatype State = State(ledger: Ledger, outstanding: seq<Token>, stale: seq<Token>)

  // A rescan re-applies the tokens whose containers are running: some of the
  // outstanding ones, given by their positions.
  datatype Event = Ask(requests: seq<Request>, minMemory: nat) | Release(index: nat) | End(index: nat)
                 | Rescan(running: set<nat>)

  function AddAll(ledger: Ledger, tokens: seq<Token>): Ledger {
    if tokens == [] then ledger else Add(AddAll(ledger, tokens[..|tokens| - 1]), tokens[|tokens| - 1])
  }

  function SubtractAll(ledger: Ledger, tokens: seq<Token>): Ledger {
    if tokens == [] then ledger else Subtract(SubtractAll(ledger, tokens[..|tokens| - 1]), tokens[|tokens| - 1])
  }

  // The tokens at the given positions.
  function Selected(tokens: seq<Token>, positions: set<nat>): seq<Token> {
    if tokens == [] then []
    else
      var n := |tokens| - 1;
      if n in positions then Selected(tokens[..n], positions) + [tokens[n]] else Selected(tokens[..n], positions)
  }

  function Start(config: Config): State {
    State(Cleared(config.devices), [], [])
  }

  // Requests name a slot once; only outstanding tokens are released or end.
  ghost predicate Legal(s: State, e: Event) {
    && (e.Ask? ==> DistinctSlots(e.requests))
    && (e.Release? || e.End? ==> e.index < |s.outstanding|)
  }

  function Without(tokens: seq<Token>, i: nat): seq<Token>
    requires i < |tokens|
  {
    tokens[..i] + tokens[i + 1..]
  }

  // Illegal events have no effect.
  ghost function Step(config: Config, s: State, e: Event): State
    requires ValidConfig(config)
  {
    if !Covered(config, s.ledger) || !Legal(s, e) then s
    else match e
      case Ask(requests, minMemory) =>
        var outcome := RequestOutcome(config, s.ledger, requests, minMemory);
        var ledger := Add(s.ledger, outcome.committed);
        if outcome.error == None then State(ledger, s.outstanding + [outcome.committed], s.stale)
        else State(ledger, s.outstanding, s.stale + [outcome.committed])
      case Release(i) => State(Subtract(s.ledger, s.outstanding[i]), Without(s.outstanding, i), s.stale)
      case End(i) => State(s.ledger, Without(s.outstanding, i), s.stale + [s.outstanding[i]])
      case Rescan(running) =>
        State(AddAll(Cleared(config.devices), Selected(s.outstanding, running)), s.outstanding, [])
  }

  ghost function Run(config: Config, events: seq<Event>): State
    requires ValidConfig(config)
  {
    if events == [] then Start(config)
    else Step(config, Run(config, events[..|events| - 1]), events[|events| - 1])
  }

  lemma RunNext(config: Config, events: seq<Event>, k: nat)
    requires ValidConfig(config) && k < |events|
    ensures Run(config, events[..k + 1]) == Step(config, Run(config, events[..k]), events[k])
  {
    hide Step;
    assert events[..k + 1][..k] == events[..k] && events[..k + 1][k] == events[k];
  }

  lemma RunStart(config: Config, events: seq<Event>)
    requires ValidConfig(config)
    ensures Run(config, events[..0]) == Start(config)
  {
    hide Step;
    assert events[..0] == [];
  }

  // ------------------------------------------------------------------- balances

  function Total(tokens: seq<Token>, c: Cell): int {
    if tokens == [] then 0 else Total(tokens[..|tokens| - 1], c) + At(tokens[|tokens| - 1], c)
  }

  lemma {:induction false} TotalAppend(a: seq<Token>, b: seq<Token>, c: Cell)
    ensures Total(a + b, c) == Total(a, c) + Total(b, c)
  {
    if b == [] {
      assert a + b == a;
    } else {
      assert (a + b)[..|a + b| - 1] == a + b[..|b| - 1];
      TotalAppend(a, b[..|b| - 1], c);
    }
  }

  lemma TotalRemove(tokens: seq<Token>, i: nat, c: Cell)
    requires i < |tokens|
    ensures Total(Without(tokens, i), c) == Total(tokens, c) - At(tokens[i], c)
  {
    var a, b := tokens[..i], tokens[i + 1..];
    assert tokens == a + [tokens[i]] + b;
    TotalAppend(a + [tokens[i]], b, c);
    TotalAppend(a, [tokens[i]], c);
    TotalAppend(a, b, c);
    assert [tokens[i]][..0] == [];
  }

  lemma RemovedMultiset(tokens: seq<Token>, i: nat)
    requires i < |tokens|
    ensures multiset(tokens) == multiset(Without(tokens, i)) + multiset{tokens[i]}
  {
    assert tokens == tokens[..i] + [tokens[i]] + tokens[i + 1..];
  }

  lemma {:induction false} TotalPermuted(a: seq<Token>, b: seq<Token>, c: Cell)
    requires multiset(a) == multiset(b)
    ensures Total(a, c) == Total(b, c)
  {
    hide At;
    if a == [] {
      assert |b| == |multiset(b)| == 0;
    } else {
      var n := |a| - 1;
      assert a == a[..n] + [a[n]];
      assert a[n] in multiset(b);
      var i :| 0 <= i < |b| && b[i] == a[n];
      RemovedMultiset(b, i);
      assert multiset(a[..n]) == multiset(a) - multiset{a[n]};
      TotalPermuted(a[..n], Without(b, i), c);
      TotalRemove(b, i, c);
    }
  }

  lemma {:induction false} TotalNonNegative(tokens: seq<Token>, c: Cell)
    requires forall t :: t in tokens ==> At(t, c) >= 0
    ensures Total(tokens, c) >= 0
  {
    if tokens != [] {
      TotalNonNegative(tokens[..|tokens| - 1], c);
    }
  }

  lemma {:induction false} AddAllTotals(ledger: Ledger, tokens: seq<Token>)
    ensures AddAll(ledger, tokens).Keys == SubtractAll(ledger, tokens).Keys == ledger.Keys
    ensures forall c :: c in ledger ==> AddAll(ledger, tokens)[c] == ledger[c] + Total(tokens, c)
    ensures forall c :: c in ledger ==> SubtractAll(ledger, tokens)[c] == ledger[c] - Total(tokens, c)
  {
    if tokens != [] {
      AddAllTotals(ledger, tokens[..|tokens| - 1]);
    }
  }

  lemma TotalSnoc(tokens: seq<Token>, t: Token, c: Cell)
    ensures Total(tokens + [t], c) == Total(tokens, c) + At(t, c)
  {
    assert (tokens + [t])[..|tokens|] == tokens;
  }

  lemma {:induction false} SelectedTotals(tokens: seq<Token>, positions: set<nat>, c: Cell)
    requires forall t :: t in tokens ==> At(t, c) >= 0
    ensures 0 <= Total(Selected(tokens, positions), c) <= Total(tokens, c)
    ensures forall t :: t in Selected(tokens, positions) ==> t in tokens
  {
    hide At;
    if tokens != [] {
      var n := |tokens| - 1;
      assert tokens[n] in tokens;
      SelectedTotals(tokens[..n], positions, c);
      TotalSnoc(Selected(tokens[..n], positions), tokens[n], c);
    }
  }

  // A part of the tokens adds up to no more than all of them.
  lemma {:induction false} TotalOfPart(part: seq<Token>, all: seq<Token>, c: Cell)
    requires multiset(part) <= multiset(all) && forall t :: t in all ==> At(t, c) >= 0
    ensures Total(part, c) <= Total(all, c)
  {
    hide At;
    if part == [] {
      TotalNonNegative(all, c);
    } else {
      var n := |part| - 1;
      assert part == part[..n] + [part[n]];
      assert part[n] in multiset(part);
      assert part[n] in multiset(all);
      var i :| 0 <= i < |all| && all[i] == part[n];
      RemovedMultiset(all, i);
      assert multiset(part[..n]) == multiset(part) - multiset{part[n]};
      assert multiset(Without(all, i)) == multiset(all) - multiset{part[n]};
      assert forall t :: t in Without(all, i) ==> t in all;
      TotalOfPart(part[..n], Without(all, i), c);
      TotalRemove(all, i, c);
    }
  }

  // ------------------------------------------------------------------ whole runs

  ghost predicate Capacitated(config: Config) {
    ValidConfig(config) && forall d :: d in config.devices ==> d.amount >= 0
  }

  // Every cell is the sum of the tokens entered in it, and within capacity.
  ghost predicate Balanced(config: Config, s: State) {
    && Covered(config, s.ledger)
    && Bounded(config.devices, s.ledger)
    && (forall t :: t in s.outstanding ==> NonNegative(t))
    && (forall t :: t in s.stale ==> NonNegative(t))
    && forall c :: c in s.ledger ==> s.ledger[c] == Total(s.outstanding, c) + Total(s.stale, c)
  }

  // Entering one more token, as outstanding or as stale.
  lemma CommitKeepsBalance(config: Config, s: State, token: Token)
    requires Balanced(config, s) && NonNegative(token) && Bounded(config.devices, Add(s.ledger, token))
    ensures Balanced(config, State(Add(s.ledger, token), s.outstanding + [token], s.stale))
    ensures Balanced(config, State(Add(s.ledger, token), s.outstanding, s.stale + [token]))
  {
    hide Bounded, Cells, At, NonNegative;
    assert (s.outstanding + [token])[..|s.outstanding|] == s.outstanding;
    assert (s.stale + [token])[..|s.stale|] == s.stale;
  }

  lemma AskKeepsBalance(config: Config, s: State, requests: seq<Request>, minMemory: nat)
    requires Balanced(config, s) && DistinctSlots(requests)
    ensures Balanced(config, Step(config, s, Ask(requests, minMemory)))
  {
    hide SlotsOutcome, Bounded, Cells, Add, DistinctSlots, Prune;
    PruneKeepsDistinct(requests);
    SlotsKeepBounds(config, s.ledger, Prune(requests), minMemory);
    ShiftNothing(s.ledger, SlotName(""), false);
    CommitKeepsBalance(config, s, RequestOutcome(config, s.ledger, requests, minMemory).committed);
  }

  lemma ReleaseKeepsBalance(config: Config, s: State, i: nat)
    requires Balanced(config, s) && i < |s.outstanding|
    ensures Balanced(config, Step(config, s, Release(i)))
  {
    hide Cells, At, Total;
    var rest := Without(s.outstanding, i);
    assert s.outstanding[i] in s.outstanding;
    forall t | t in rest ensures t in s.outstanding {
    }
    forall c | c in s.ledger
      ensures Total(rest, c) == Total(s.outstanding, c) - At(s.outstanding[i], c)
      ensures Total(rest, c) >= 0 && Total(s.stale, c) >= 0 && At(s.outstanding[i], c) >= 0
    {
      TotalRemove(s.outstanding, i, c);
      TotalNonNegative(rest, c);
      TotalNonNegative(s.stale, c);
    }
  }

  lemma EndKeepsBalance(config: Config, s: State, i: nat)
    requires Balanced(config, s) && i < |s.outstanding|
    ensures Balanced(config, Step(config, s, End(i)))
  {
    hide Cells, At, Total, Bounded;
    var ended := s.outstanding[i];
    forall t | t in Without(s.outstanding, i) ensures t in s.outstanding {
    }
    forall c | c in s.ledger
      ensures Total(Without(s.outstanding, i), c) == Total(s.outstanding, c) - At(ended, c)
      ensures Total(s.stale + [ended], c) == Total(s.stale, c) + At(ended, c)
    {
      TotalRemove(s.outstanding, i, c);
      TotalSnoc(s.stale, ended, c);
    }
  }

  // A rescan that finds everything running that has been granted something.
  ghost predicate Complete(s: State, e: Event) {
    e.Rescan? ==> forall c :: c in s.ledger ==> Total(Selected(s.outstanding, e.running), c) == Total(s.outstanding, c)
  }

  // A rescan never exceeds a capacity by itself; it keeps the balance exactly
  // when it is complete.
  lemma RescanBalance(config: Config, s: State, running: set<nat>)
    requires Balanced(config, s)
    ensures var t := Step(config, s, Rescan(running));
      && Covered(config, t.ledger) && Bounded(config.devices, t.ledger)
      && (forall c :: c in s.ledger ==> t.ledger[c] == Total(Selected(s.outstanding, running), c))
      && (Balanced(config, t) <==> Complete(s, Rescan(running)))
  {
    hide Cells, At;
    var kept := Selected(s.outstanding, running);
    AddAllTotals(Cleared(config.devices), kept);
    forall c | c in s.ledger ensures Total(s.stale, c) >= 0 && 0 <= Total(kept, c) <= Total(s.outstanding, c) {
      TotalNonNegative(s.stale, c);
      SelectedTotals(s.outstanding, running, c);
    }
  }

  lemma StepKeepsExactly(config: Config, s: State, e: Event)
    requires ValidConfig(config) && Balanced(config, s)
    ensures Balanced(config, Step(config, s, e)) <==> Complete(s, e)
  {
    hide Balanced, RequestOutcome, Cells, Complete;
    if Covered(config, s.ledger) && Legal(s, e) {
      match e
      case Ask(requests, minMemory) => AskKeepsBalance(config, s, requests, minMemory);
      case Release(i) => ReleaseKeepsBalance(config, s, i);
      case End(i) => EndKeepsBalance(config, s, i);
      case Rescan(running) => RescanBalance(config, s, running);
    }
    OnlyRescansMatter(s, e);
    BalancedIsCovered(config, s);
  }

  lemma OnlyRescansMatter(s: State, e: Event)
    ensures !e.Rescan? ==> Complete(s, e)
  {}

  lemma BalancedIsCovered(config: Config, s: State)
    requires Balanced(config, s)
    ensures Covered(config, s.ledger)
  {}

  ghost predicate AllComplete(config: Config, events: seq<Event>, n: nat)
    requires ValidConfig(config) && n <= |events|
  {
    forall i :: 0 <= i < n ==> Complete(Run(config, events[..i]), events[i])
  }

  ghost predicate AllBalanced(config: Config, events: seq<Event>, n: nat)
    requires ValidConfig(config) && n <= |events|
  {
    forall i :: 0 <= i <= n ==> Balanced(config, Run(config, events[..i]))
  }

  lemma AllNext(config: Config, events: seq<Event>, k: nat)
    requires ValidConfig(config) && k < |events|
    ensures AllBalanced(config, events, k + 1) <==>
      AllBalanced(config, events, k) && Balanced(config, Run(config, events[..k + 1]))
    ensures AllComplete(config, events, k + 1) <==>
      AllComplete(config, events, k) && Complete(Run(config, events[..k]), events[k])
  {
    hide Balanced, Complete, Run;
  }

  // Over the first n events, each cell is at all times the sum of the tokens
  // entered in it, non-negative and within the capacity of its device, if and
  // only if every rescan among them is complete.
  lemma {:induction false} RunIsBalancedExactly(config: Config, events: seq<Event>, n: nat)
    requires Capacitated(config) && n <= |events|
    ensures AllBalanced(config, events, n) <==> AllComplete(config, events, n)
  {
    hide Balanced, Complete, Step, Run;
    if n == 0 {
      RunStart(config, events);
      StartIsBalanced(config);
    } else {
      hide AllBalanced, AllComplete;
      var k := n - 1;
      RunIsBalancedExactly(config, events, k);
      RunNext(config, events, k);
      AllNext(config, events, k);
      if AllBalanced(config, events, k) {
        AllBalancedAt(config, events, k);
        StepKeepsExactly(config, Run(config, events[..k]), events[k]);
      }
    }
  }

  lemma AllBalancedAt(config: Config, events: seq<Event>, n: nat)
    requires ValidConfig(config) && n <= |events| && AllBalanced(config, events, n)
    ensures Balanced(config, Run(config, events[..n]))
  {
    hide Balanced, Run;
  }

  lemma StartIsBalanced(config: Config)
    requires Capacitated(config)
    ensures Balanced(config, Start(config))
  {
    assert Total([], Cell(SlotName(""), DeviceId(""))) == 0;
  }

  // ------------------------------------------------------- after an incomplete rescan

  // All outstanding tokens may be released, in any selection and order, without
  // driving a cell below zero.
  ghost predicate Releasable(s: State) {
    forall released: seq<Token>, c :: multiset(released) <= multiset(s.outstanding) && c in s.ledger ==>
      c in SubtractAll(s.ledger, released) && SubtractAll(s.ledger, released)[c] >= 0
  }

  lemma ReleasableExactly(s: State)
    requires forall t :: t in s.outstanding ==> NonNegative(t)
    ensures Releasable(s) <==> forall c :: c in s.ledger ==> Total(s.outstanding, c) <= s.ledger[c]
  {
    hide At;
    if Releasable(s) {
      forall c | c in s.ledger ensures Total(s.outstanding, c) <= s.ledger[c] {
        assert multiset(s.outstanding) <= multiset(s.outstanding);
        assert SubtractAll(s.ledger, s.outstanding)[c] >= 0;
        AddAllTotals(s.ledger, s.outstanding);
      }
    }
    if forall c :: c in s.ledger ==> Total(s.outstanding, c) <= s.ledger[c] {
      forall released: seq<Token>, c | multiset(released) <= multiset(s.outstanding) && c in s.ledger
        ensures c in SubtractAll(s.ledger, released) && SubtractAll(s.ledger, released)[c] >= 0
      {
        AddAllTotals(s.ledger, released);
        TotalOfPart(released, s.outstanding, c);
      }
    }
  }

  // A rescan is safe exactly when it is complete: otherwise the tokens it has
  // left out can be released without ever having been re-applied.
  lemma RescanIsSafeExactly(config: Config, s: State, running: set<nat>)
    requires Balanced(config, s)
    ensures Releasable(Step(config, s, Rescan(running))) <==> Complete(s, Rescan(running))
  {
    hide Cells, Bounded, At, Releasable, SubtractAll, AddAll, NonNegative;
    var t := Step(config, s, Rescan(running));
    RescanBalance(config, s, running);
    ReleasableExactly(t);
    forall c | c in s.ledger ensures Total(Selected(s.outstanding, running), c) <= Total(s.outstanding, c) {
      NonNegativeAt(s.outstanding, c);
      SelectedTotals(s.outstanding, running, c);
    }
  }

  lemma NonNegativeAt(tokens: seq<Token>, c: Cell)
    requires forall t :: t in tokens ==> NonNegative(t)
    ensures forall t :: t in tokens ==> At(t, c) >= 0
  {}

  predicate LeftOutIsZero(tokens: seq<Token>, positions: set<nat>, c: Cell) {
    forall i :: 0 <= i < |tokens| && i !in positions ==> At(tokens[i], c) == 0
  }

  lemma LeftOutNext(tokens: seq<Token>, positions: set<nat>, c: Cell)
    requires tokens != []
    ensures var n := |tokens| - 1;
      LeftOutIsZero(tokens, positions, c) <==>
        LeftOutIsZero(tokens[..n], positions, c) && (n in positions || At(tokens[n], c) == 0)
  {
    hide At;
    var n := |tokens| - 1;
    assert forall i :: 0 <= i < n ==> tokens[..n][i] == tokens[i];
  }

  lemma SelectedNext(tokens: seq<Token>, positions: set<nat>, c: Cell)
    requires tokens != []
    ensures var n := |tokens| - 1;
      && Total(tokens, c) == Total(tokens[..n], c) + At(tokens[n], c)
      && Total(Selected(tokens, positions), c)
         == Total(Selected(tokens[..n], positions), c) + if n in positions then At(tokens[n], c) else 0
  {
    hide At;
    var n := |tokens| - 1;
    TotalSnoc(Selected(tokens[..n], positions), tokens[n], c);
  }

  lemma {:induction false} SelectedGap(tokens: seq<Token>, positions: set<nat>, c: Cell)
    requires forall t :: t in tokens ==> At(t, c) >= 0
    ensures Total(Selected(tokens, positions), c) == Total(tokens, c) <==> LeftOutIsZero(tokens, positions, c)
  {
    if tokens != [] {
      hide At, Total, Selected, LeftOutIsZero;
      var n := |tokens| - 1;
      assert tokens[n] in tokens && forall t :: t in tokens[..n] ==> t in tokens;
      SelectedGap(tokens[..n], positions, c);
      SelectedTotals(tokens[..n], positions, c);
      SelectedNext(tokens, positions, c);
      LeftOutNext(tokens, positions, c);
    }
  }

  // Token by token: complete is a rescan that leaves out only tokens that hold
  // nothing.
  lemma CompleteExactly(s: State, running: set<nat>)
    requires forall t :: t in s.outstanding ==> NonNegative(t)
    ensures Complete(s, Rescan(running)) <==>
      forall i :: 0 <= i < |s.outstanding| && i !in running ==> IsZero(s.ledger, s.outstanding[i])
  {
    hide At, NonNegative, Total, Selected;
    forall c | c in s.ledger
      ensures Total(Selected(s.outstanding, running), c) == Total(s.outstanding, c)
        <==> forall i :: 0 <= i < |s.outstanding| && i !in running ==> At(s.outstanding[i], c) == 0
    {
      NonNegativeAt(s.outstanding, c);
      SelectedGap(s.outstanding, running, c);
    }
  }

  // The tokens together exceed no device.
  ghost predicate Fitting(config: Config, tokens: seq<Token>) {
    forall d :: d in config.devices ==> Total(tokens, Cell(d.slot, d.id)) <= d.amount
  }

  // What the book as it stands allows to be granted.
  ghost predicate Grantable(config: Config, s: State, token: Token) {
    NonNegative(token) && Bounded(config.devices, Add(s.ledger, token))
  }

  // The rest of one device.
  function RestOf(ledger: Ledger, d: DeviceSlot): Token
    requires Cell(d.slot, d.id) in ledger
  {
    map[d.slot := map[d.id := d.amount - ledger[Cell(d.slot, d.id)]]]
  }

  lemma RestIsGrantable(config: Config, s: State, d: DeviceSlot)
    requires Covered(config, s.ledger) && Bounded(config.devices, s.ledger) && d in config.devices
    ensures Cell(d.slot, d.id) in s.ledger && Grantable(config, s, RestOf(s.ledger, d))
  {
    var token := RestOf(s.ledger, d);
    forall e | e in config.devices
      ensures 0 <= s.ledger[Cell(e.slot, e.id)] + At(token, Cell(e.slot, e.id)) <= e.amount
    {
      if e.id == d.id {
        var i :| 0 <= i < |config.devices| && config.devices[i] == d;
        var j :| 0 <= j < |config.devices| && config.devices[j] == e;
        assert i == j;
      }
    }
  }

  // No further grant can promise a device twice, exactly when the book covers
  // the outstanding tokens, that is when these can be released safely.
  lemma OvercommitExactly(config: Config, s: State)
    requires Covered(config, s.ledger) && Bounded(config.devices, s.ledger)
    requires forall t :: t in s.outstanding ==> NonNegative(t)
    ensures Releasable(s) <==>
      forall token :: Grantable(config, s, token) ==> Fitting(config, s.outstanding + [token])
  {
    hide At, NonNegative, Releasable, Total;
    ReleasableExactly(s);
    if forall token :: Grantable(config, s, token) ==> Fitting(config, s.outstanding + [token]) {
      forall c | c in s.ledger ensures Total(s.outstanding, c) <= s.ledger[c] {
        var d :| d in config.devices && c == Cell(d.slot, d.id);
        var token := RestOf(s.ledger, d);
        RestIsGrantable(config, s, d);
        assert Fitting(config, s.outstanding + [token]);
        TotalSnoc(s.outstanding, token, c);
        RestAt(s.ledger, d);
      }
    }
    if forall c :: c in s.ledger ==> Total(s.outstanding, c) <= s.ledger[c] {
      forall token, d | Grantable(config, s, token) && d in config.devices
        ensures Total(s.outstanding + [token], Cell(d.slot, d.id)) <= d.amount
      {
        var c := Cell(d.slot, d.id);
        TotalSnoc(s.outstanding, token, c);
        assert Add(s.ledger, token)[c] == s.ledger[c] + At(token, c);
      }
    }
  }

  lemma RestAt(ledger: Ledger, d: DeviceSlot)
    requires Cell(d.slot, d.id) in ledger
    ensures At(RestOf(ledger, d), Cell(d.slot, d.id)) == d.amount - ledger[Cell(d.slot, d.id)]
  {}

  // In a balanced state the outstanding tokens fit, and so does any further grant.
  lemma BalancedFits(config: Config, s: State)
    requires Balanced(config, s)
    ensures Fitting(config, s.outstanding) && Releasable(s)
  {
    hide At, Releasable, Total;
    ReleasableExactly(s);
    forall c | c in s.ledger ensures Total(s.stale, c) >= 0 {
      NonNegativeAt(s.stale, c);
      TotalNonNegative(s.stale, c);
    }
  }

  // After an incomplete rescan a device may be granted twice: both kernels of
  // this run have been promised the only one.
  lemma DeviceGrantedTwice(id: DeviceId, slot: SlotName, fnmatch: (string, string) -> bool, minMemory: nat)
    ensures var config, ask := OneDevice(id, slot, fnmatch), Ask([Request(slot, WHOLE)], minMemory);
      ValidConfig(config) && Total(Run(config, [ask, Rescan({}), ask]).outstanding, Cell(slot, id)) == 2 * WHOLE
  {
    var config, token := OneDevice(id, slot, fnmatch), map[slot := map[id := WHOLE]];
    var requests := [Request(slot, WHOLE)];
    OneDeviceCovered(id, slot, fnmatch);
    WholeDeviceGranted(id, slot, fnmatch, minMemory);
    hide Run, Cells, Cleared, Total, RequestOutcome;
    ThreeSteps(config, Ask(requests, minMemory), Rescan({}), Ask(requests, minMemory));
    GrantRescanGrant(config, requests, minMemory, token);
    TotalSnoc([token], token, Cell(slot, id));
    TotalSnoc([], token, Cell(slot, id));
    NoTotal(Cell(slot, id));
    assert [] + [token] == [token] && [token] + [token] == [token, token];
  }

  lemma NoTotal(c: Cell)
    ensures Total([], c) == 0
  {}

  lemma ThreeSteps(config: Config, a: Event, b: Event, c: Event)
    requires ValidConfig(config)
    ensures Run(config, [a, b, c]) == Step(config, Step(config, Step(config, Start(config), a), b), c)
  {
    hide Step;
    var events := [a, b, c];
    RunStart(config, events);
    RunNext(config, events, 0);
    RunNext(config, events, 1);
    RunNext(config, events, 2);
    assert events[..3] == events;
  }

  lemma GrantRescanGrant(config: Config, requests: seq<Request>, minMemory: nat, token: Token)
    requires Covered(config, Cleared(config.devices)) && DistinctSlots(requests)
    requires RequestOutcome(config, Cleared(config.devices), requests, minMemory) == Outcome(token, None)
    ensures var ask := Ask(requests, minMemory);
      Step(config, Step(config, Step(config, Start(config), ask), Rescan({})), ask).outstanding == [token, token]
  {
    hide RequestOutcome, Cells, Add;
    var start, ask := Cleared(config.devices), Ask(requests, minMemory);
    var asked := State(Add(start, token), [token], []);
    assert Step(config, Start(config), ask) == asked;
    assert [token][..0] == [] && Selected([token], {}) == [];
    assert Step(config, asked, Rescan({})) == State(start, [token], []);
    assert [token] + [token] == [token, token];
  }

  // This happens: a kernel is granted a device, a rescan takes place before its
  // container runs, and the kernel then fails to start.
  lemma LostTokenGoesNegative(id: DeviceId, slot: SlotName, fnmatch: (string, string) -> bool, minMemory: nat)
    ensures var config := OneDevice(id, slot, fnmatch);
      var events := [Ask([Request(slot, WHOLE)], minMemory), Rescan({}), Release(0)];
      ValidConfig(config) && Run(config, events).ledger == map[Cell(slot, id) := -WHOLE]
  {
    var config, token := OneDevice(id, slot, fnmatch), map[slot := map[id := WHOLE]];
    OneDeviceCovered(id, slot, fnmatch);
    WholeDeviceGranted(id, slot, fnmatch, minMemory);
    hide Run, Step, Cells, Cleared;
    ThreeSteps(config, Ask([Request(slot, WHOLE)], minMemory), Rescan({}), Release(0));
    GrantRescanRelease(config, [Request(slot, WHOLE)], minMemory, token);
    LessWhole(id, slot, fnmatch);
  }

  lemma LessWhole(id: DeviceId, slot: SlotName, fnmatch: (string, string) -> bool)
    ensures Subtract(Cleared(OneDevice(id, slot, fnmatch).devices), map[slot := map[id := WHOLE]])
      == map[Cell(slot, id) := -WHOLE]
  {
    OneDeviceCovered(id, slot, fnmatch);
  }

  lemma GrantRescanRelease(config: Config, requests: seq<Request>, minMemory: nat, token: Token)
    requires Covered(config, Cleared(config.devices)) && DistinctSlots(requests)
    requires RequestOutcome(config, Cleared(config.devices), requests, minMemory) == Outcome(token, None)
    ensures var asked := Step(config, Start(config), Ask(requests, minMemory));
      Step(config, Step(config, asked, Rescan({})), Release(0)).ledger == Subtract(Cleared(config.devices), token)
  {
    hide RequestOutcome, Cells, Add, Subtract;
    var start := Cleared(config.devices);
    var asked := State(Add(start, token), [token], []);
    assert Step(config, Start(config), Ask(requests, minMemory)) == asked;
    assert [token][..0] == [] && Selected([token], {}) == [];
    assert Step(config, asked, Rescan({})) == State(start, [token], []);
  }

  lemma WholeDeviceGranted(id: DeviceId, slot: SlotName, fnmatch: (string, string) -> bool, minMemory: nat)
    ensures var config := OneDevice(id, slot, fnmatch);
      Covered(config, Cleared(config.devices))
      && RequestOutcome(config, Cleared(config.devices), [Request(slot, WHOLE)], minMemory)
         == Outcome(map[slot := map[id := WHOLE]], None)
  {
    var config, slots := OneDevice(id, slot, fnmatch), [Request(slot, WHOLE)];
    var ledger := Cleared(config.devices);
    OneDeviceCovered(id, slot, fnmatch);
    OneDeviceGrants(id, slot, fnmatch, minMemory);
    assert slots[..0] == [] && Prune(slots) == slots;
    hide OutcomeIn, Add, Cells;
    ShiftNothing(ledger, SlotName(""), false);
    NoSlots(config, ledger, slots[..0], minMemory);
    SlotRound(config, ledger, slots, 0, map[], minMemory);
    assert slots[..1] == slots;
  }

  // ------------------------------------------------------------- what makes it exact

  ghost predicate IsZero(ledger: Ledger, token: Token) {
    forall c :: c in ledger ==> At(token, c) == 0
  }

  // Events after which the book holds more than the outstanding tokens.
  ghost predicate Spoils(config: Config, s: State, e: Event)
    requires Covered(config, s.ledger)
  {
    && Legal(s, e)
    && ((e.Ask? && RequestOutcome(config, s.ledger, e.requests, e.minMemory).error != None
         && !LeavesNothing(config, s.ledger, e.requests, e.minMemory))
        || (e.End? && !IsZero(s.ledger, s.outstanding[e.index])))
  }

  // No such event since the last rescan, or since the start.
  ghost predicate Fresh(config: Config, events: seq<Event>)
    requires ValidConfig(config)
  {
    events == []
    || (var n := |events| - 1;
        events[n].Rescan?
        || (Fresh(config, events[..n]) && Covered(config, Run(config, events[..n]).ledger)
            && !Spoils(config, Run(config, events[..n]), events[n])))
  }

  ghost predicate NothingStale(s: State) {
    forall c :: c in s.ledger ==> Total(s.stale, c) == 0
  }

  lemma StaleGrows(s: State, token: Token)
    requires (forall t :: t in s.stale ==> NonNegative(t)) && NonNegative(token)
    ensures NothingStale(s) && IsZero(s.ledger, token) <==>
      forall c :: c in s.ledger ==> Total(s.stale + [token], c) == 0
  {
    hide At;
    forall c ensures Total(s.stale + [token], c) == Total(s.stale, c) + At(token, c)
      ensures Total(s.stale, c) >= 0 && At(token, c) >= 0
    {
      TotalSnoc(s.stale, token, c);
      NonNegativeAt(s.stale, c);
      NonNegativeAt([token], c);
      assert token in [token];
      TotalNonNegative(s.stale, c);
    }
  }

  lemma ZeroIsUnchanged(ledger: Ledger, token: Token)
    ensures IsZero(ledger, token) <==> Add(ledger, token) == ledger
  {
    hide At;
    if Add(ledger, token) == ledger {
      forall c | c in ledger ensures At(token, c) == 0 {
        assert Add(ledger, token)[c] == ledger[c];
      }
    }
  }

  lemma AskStale(config: Config, s: State, requests: seq<Request>, minMemory: nat)
    requires Balanced(config, s) && DistinctSlots(requests)
    ensures NothingStale(Step(config, s, Ask(requests, minMemory)))
      <==> NothingStale(s) && !Spoils(config, s, Ask(requests, minMemory))
  {
    hide SlotsOutcome, Bounded, Cells, DistinctSlots, Prune, LeavesNothing, At, Total;
    var outcome := RequestOutcome(config, s.ledger, requests, minMemory);
    if outcome.error != None {
      UnchangedExactly(config, s.ledger, requests, minMemory);
      ZeroIsUnchanged(s.ledger, outcome.committed);
      PruneKeepsDistinct(requests);
      SlotsKeepBounds(config, s.ledger, Prune(requests), minMemory);
      NoTokenIsNonNegative();
      StaleGrows(s, outcome.committed);
    }
  }

  lemma NoTokenIsNonNegative()
    ensures NonNegative(map[])
  {}

  lemma EndStale(config: Config, s: State, i: nat)
    requires Balanced(config, s) && i < |s.outstanding|
    ensures NothingStale(Step(config, s, End(i))) <==> NothingStale(s) && !Spoils(config, s, End(i))
  {
    hide Bounded, Cells, At, Total;
    StaleGrows(s, s.outstanding[i]);
  }

  lemma StepStale(config: Config, s: State, e: Event)
    requires ValidConfig(config) && Balanced(config, s)
    ensures e.Rescan? ==> NothingStale(Step(config, s, e))
    ensures !e.Rescan? ==> (NothingStale(Step(config, s, e)) <==> NothingStale(s) && !Spoils(config, s, e))
  {
    hide RequestOutcome, Cells, Bounded, At, LeavesNothing, IsZero, AddAll;
    if Legal(s, e) {
      match e
      case Ask(requests, minMemory) => AskStale(config, s, requests, minMemory);
      case Release(_) =>
      case End(i) => EndStale(config, s, i);
      case Rescan(_) =>
    }
  }

  lemma {:induction false} FreshIsExact(config: Config, events: seq<Event>)
    requires Capacitated(config) && AllComplete(config, events, |events|)
    ensures NothingStale(Run(config, events)) <==> Fresh(config, events)
  {
    hide Step, Spoils, Balanced, Complete, Total;
    if events == [] {
      NoStale();
    } else {
      var n := |events| - 1;
      var init := events[..n];
      assert forall i :: 0 <= i < n ==> init[..i] == events[..i] && init[i] == events[i];
      FreshIsExact(config, init);
      RunIsBalancedExactly(config, events, n);
      AllBalancedAt(config, events, n);
      BalancedIsCovered(config, Run(config, events[..n]));
      StepStale(config, Run(config, init), events[n]);
    }
  }

  lemma NoStale()
    ensures forall c :: Total([], c) == 0
  {}

  // With complete rescans the book is exactly the sum of the outstanding tokens
  // if and only if, since the last rescan, no request has failed halfway and no
  // kernel that held something has ended.
  lemma RunIsExactExactly(config: Config, events: seq<Event>)
    requires Capacitated(config) && AllComplete(config, events, |events|)
    ensures var s := Run(config, events);
      (forall c :: c in s.ledger ==> s.ledger[c] == Total(s.outstanding, c)) <==> Fresh(config, events)
  {
    hide Run, Bounded, Fresh, AllComplete, Total;
    RunIsBalancedExactly(config, events, |events|);
    AllBalancedAt(config, events, |events|);
    assert events[..|events|] == events;
    FreshIsExact(config, events);
  }

  // Rebuilding from the outstanding tokens in any order agrees with the history,
  // and releasing them all, in any order, gives the cleared book: both exactly
  // when nothing is stale.
  lemma RebuildAgrees(config: Config, s: State, order: seq<Token>)
    requires Balanced(config, s) && multiset(order) == multiset(s.outstanding)
    ensures AddAll(Cleared(config.devices), order) == s.ledger <==> NothingStale(s)
    ensures SubtractAll(s.ledger, order) == Cleared(config.devices) <==> NothingStale(s)
  {
    hide Bounded, Cells, At, Total, AddAll, SubtractAll;
    var empty := Cleared(config.devices);
    AddAllTotals(empty, order);
    AddAllTotals(s.ledger, order);
    forall c | c in s.ledger ensures Total(order, c) == Total(s.outstanding, c) {
      TotalPermuted(order, s.outstanding, c);
    }
    var rebuilt, freed := AddAll(empty, order), SubtractAll(s.ledger, order);
    assert rebuilt == s.ledger <==> forall c :: c in s.ledger ==> rebuilt[c] == s.ledger[c];
    assert freed == empty <==> forall c :: c in s.ledger ==> freed[c] == 0;
  }
}

/** The host ports of an agent: taken from a pool when a kernel is spawned, given
    back when the spawn fails or the kernel is cleaned.  Steps are the code's
    uninterrupted stretches; a CLEAN handler gives the ports back, waits, and
    only then forgets the kernel. */
module HostPorts {
  import opened Options

  datatype KernelId = KernelId(name: string)

  // One run of create_kernel__spawn, or of the CLEAN handler.
  datatype TaskId = TaskId(id: nat)

  datatype Port = Port(number: int)

  // spawning: ports taken by spawns under way (or cancelled, which keep theirs);
  // cleaning: kernels whose handlers have given the ports back and wait.
  datatype State = State(pool: set<Port>, spawning: map<TaskId, set<Port>>,
                         registry: map<KernelId, set<Port>>, cleaning: map<TaskId, KernelId>)

  datatype Step = Spawn(task: TaskId, ports: set<Port>) | SpawnFailed(task: TaskId)
                | Register(task: TaskId, kernel: KernelId)
                | CleanRestore(task: TaskId, kernel: KernelId) | CleanForget(task: TaskId)

  // range: all ports of the configured port range.
  function Initial(range: set<Port>): State { State(range, map[], map[], map[]) }

  // Tasks are distinct, kernel IDs are not used again, and a spawn takes any of
  // the ports in the pool; with too few there it fails without effect.
  predicate Enabled(s: State, step: Step) {
    match step
    case Spawn(t, ports) => t !in s.spawning && ports <= s.pool
    case SpawnFailed(t) => t in s.spawning
    case Register(t, k) => t in s.spawning && k !in s.registry && !BeingCleaned(s, k)
    case CleanRestore(c, k) => c !in s.cleaning && k in s.registry
    case CleanForget(c) => c in s.cleaning
  }

  function After(range: set<Port>, s: State, step: Step): State
    requires Enabled(s, step)
  {
    match step
    case Spawn(t, ports) => s.(pool := s.pool - ports, spawning := s.spawning[t := ports])
    case SpawnFailed(t) => s.(pool := s.pool + s.spawning[t], spawning := s.spawning - {t})
    case Register(t, k) => s.(spawning := s.spawning - {t}, registry := s.registry[k := s.spawning[t]])
    case CleanRestore(c, k) =>
      s.(pool := s.pool + s.registry[k] * range, cleaning := s.cleaning[c := k])
    case CleanForget(c) =>
      s.(registry := s.registry - {s.cleaning[c]}, cleaning := s.cleaning - {c})
  }

  // ----------------------------------------------------------- who holds a port

  datatype Holder = Pool | BySpawn(task: TaskId) | ByKernel(kernel: KernelId)

  predicate BeingCleaned(s: State, k: KernelId) { exists c :: c in s.cleaning && s.cleaning[c] == k }

  // A kernel holds its ports until they are given back.
  predicate Holds(s: State, h: Holder, p: Port) {
    match h
    case Pool => p in s.pool
    case BySpawn(t) => t in s.spawning && p in s.spawning[t]
    case ByKernel(k) => k in s.registry && !BeingCleaned(s, k) && p in s.registry[k]
  }

  // Every port of the range has exactly one holder, and no other port has any.
  ghost predicate Partitioned(range: set<Port>, s: State) {
    && (forall h, g, p :: Holds(s, h, p) && Holds(s, g, p) ==> h == g)
    && (forall p :: p in range ==> exists h :: Holds(s, h, p))
    && (forall h, p :: Holds(s, h, p) ==> p in range)
  }

  // Kernels in the course of being cleaned have ports of the range only.
  ghost predicate Sound(range: set<Port>, s: State) {
    && Partitioned(range, s)
    && (forall k, p :: k in s.registry && p in s.registry[k] ==> p in range)
  }

  // ports change hands, and nothing else happens.
  lemma Moved(range: set<Port>, s: State, t: State, ports: set<Port>, from: Holder, to: Holder)
    requires Partitioned(range, s) && from != to
    requires forall p :: p in ports ==> Holds(s, from, p)
    requires forall h, p :: Holds(t, h, p) <==>
      if p in ports && (h == from || h == to) then h == to else Holds(s, h, p)
    ensures Partitioned(range, t)
  {
    forall p | p in range ensures exists h :: Holds(t, h, p) {
      if p in ports {
        assert Holds(t, to, p);
      } else {
        var h :| Holds(s, h, p);
        assert Holds(t, h, p);
      }
    }
    forall h, p | Holds(t, h, p) ensures p in range && (if p in ports then h == to else Holds(s, h, p)) {
      if p in ports {
        assert Holds(s, from, p);
      } else {
        assert Holds(s, h, p);
      }
    }
  }

  // A step keeps the partition unless it is the second CLEAN of a kernel that
  // waits to be forgotten and some of that kernel's ports have been taken since.
  ghost predicate Harmless(s: State, step: Step)
    requires Enabled(s, step)
  {
    step.CleanRestore? && BeingCleaned(s, step.kernel) ==> s.registry[step.kernel] <= s.pool
  }

  lemma SpawnKeeps(range: set<Port>, s: State, task: TaskId, ports: set<Port>)
    requires Sound(range, s) && Enabled(s, Spawn(task, ports))
    ensures Sound(range, After(range, s, Spawn(task, ports)))
  {
    var t := After(range, s, Spawn(task, ports));
    assert forall k :: BeingCleaned(t, k) <==> BeingCleaned(s, k);
    forall p | p in ports ensures Holds(s, Pool, p) {
    }
    forall h, p ensures Holds(t, h, p) <==>
      if p in ports && (h == Pool || h == BySpawn(task)) then h == BySpawn(task) else Holds(s, h, p)
    {
      match h case Pool => case BySpawn(_) => case ByKernel(_) =>
    }
    Moved(range, s, t, ports, Pool, BySpawn(task));
  }

  lemma SpawnFailedKeeps(range: set<Port>, s: State, task: TaskId)
    requires Sound(range, s) && Enabled(s, SpawnFailed(task))
    ensures Sound(range, After(range, s, SpawnFailed(task)))
  {
    var t := After(range, s, SpawnFailed(task));
    assert forall k :: BeingCleaned(t, k) <==> BeingCleaned(s, k);
    forall p | p in s.spawning[task] ensures Holds(s, BySpawn(task), p) {
    }
    forall h, p ensures Holds(t, h, p) <==>
      if p in s.spawning[task] && (h == BySpawn(task) || h == Pool) then h == Pool else Holds(s, h, p)
    {
      match h case Pool => case BySpawn(_) => case ByKernel(_) =>
    }
    Moved(range, s, t, s.spawning[task], BySpawn(task), Pool);
  }

  lemma RegisterKeeps(range: set<Port>, s: State, task: TaskId, k: KernelId)
    requires Sound(range, s) && Enabled(s, Register(task, k))
    ensures Sound(range, After(range, s, Register(task, k)))
  {
    var t := After(range, s, Register(task, k));
    assert forall j :: BeingCleaned(t, j) <==> BeingCleaned(s, j);
    forall p | p in s.spawning[task] ensures Holds(s, BySpawn(task), p) {
    }
    forall h, p ensures Holds(t, h, p) <==>
      if p in s.spawning[task] && (h == BySpawn(task) || h == ByKernel(k)) then h == ByKernel(k) else Holds(s, h, p)
    {
      match h case Pool => case BySpawn(_) => case ByKernel(_) =>
    }
    Moved(range, s, t, s.spawning[task], BySpawn(task), ByKernel(k));
  }

  lemma RestoreKeeps(range: set<Port>, s: State, c: TaskId, k: KernelId)
    requires Sound(range, s) && Enabled(s, CleanRestore(c, k))
    ensures Sound(range, After(range, s, CleanRestore(c, k))) <==> Harmless(s, CleanRestore(c, k))
  {
    var t := After(range, s, CleanRestore(c, k));
    assert t.cleaning[c] == k;
    forall j ensures BeingCleaned(t, j) <==> BeingCleaned(s, j) || j == k {
      if i :| i in s.cleaning && s.cleaning[i] == j {
        assert t.cleaning[i] == j;
      }
    }
    assert s.registry[k] * range == s.registry[k];
    if !BeingCleaned(s, k) {
      forall p | p in s.registry[k] ensures Holds(s, ByKernel(k), p) {
      }
      forall h, p ensures Holds(t, h, p) <==>
        if p in s.registry[k] && (h == ByKernel(k) || h == Pool) then h == Pool else Holds(s, h, p)
      {
        match h case Pool => case BySpawn(_) => case ByKernel(_) =>
      }
      Moved(range, s, t, s.registry[k], ByKernel(k), Pool);
    } else if s.registry[k] <= s.pool {
      assert forall h, p :: Holds(t, h, p) <==> Holds(s, h, p);
      SameHolders(range, s, t);
    } else {
      var p :| p in s.registry[k] && p !in s.pool;
      var h :| Holds(s, h, p);
      assert Holds(t, h, p) && Holds(t, Pool, p) && h != Pool;
    }
  }

  lemma ForgetKeeps(range: set<Port>, s: State, c: TaskId)
    requires Sound(range, s) && Enabled(s, CleanForget(c))
    ensures Sound(range, After(range, s, CleanForget(c)))
  {
    var t, k := After(range, s, CleanForget(c)), s.cleaning[c];
    assert BeingCleaned(s, k);
    forall j | j != k ensures BeingCleaned(t, j) <==> BeingCleaned(s, j) {
      if i :| i in s.cleaning && s.cleaning[i] == j {
        assert i in t.cleaning && t.cleaning[i] == j;
      }
    }
    forall h, p ensures Holds(t, h, p) <==> Holds(s, h, p) {
      match h case Pool => case BySpawn(_) => case ByKernel(_) =>
    }
    SameHolders(range, s, t);
  }

  lemma SameHolders(range: set<Port>, s: State, t: State)
    requires Partitioned(range, s) && forall h, p :: Holds(t, h, p) <==> Holds(s, h, p)
    ensures Partitioned(range, t)
  {
    forall p | p in range ensures exists h :: Holds(t, h, p) {
      var h :| Holds(s, h, p);
      assert Holds(t, h, p);
    }
  }

  // Exactly the harmless steps leave every port with one holder.
  lemma StepKeepsExactly(range: set<Port>, s: State, step: Step)
    requires Sound(range, s) && Enabled(s, step)
    ensures Sound(range, After(range, s, step)) <==> Harmless(s, step)
  {
    hide Sound;
    match step
    case Spawn(t, ports) => SpawnKeeps(range, s, t, ports);
    case SpawnFailed(t) => SpawnFailedKeeps(range, s, t);
    case Register(t, k) => RegisterKeeps(range, s, t, k);
    case CleanRestore(c, k) => RestoreKeeps(range, s, c, k);
    case CleanForget(c) => ForgetKeeps(range, s, c);
  }

  ghost predicate IsRun(range: set<Port>, states: seq<State>, steps: seq<Step>) {
    && |states| == |steps| + 1 && states[0] == Initial(range)
    && forall i :: 0 <= i < |steps| ==>
      Enabled(states[i], steps[i]) && states[i + 1] == After(range, states[i], steps[i])
  }

  // Over the first n steps of a run no port is ever held twice or lost, if and
  // only if each of these steps is harmless.
  lemma {:induction false} RunIsSoundExactly(range: set<Port>, states: seq<State>, steps: seq<Step>, n: nat)
    requires IsRun(range, states, steps) && n <= |steps|
    ensures (forall i :: 0 <= i <= n ==> Sound(range, states[i])) <==>
      (forall i :: 0 <= i < n ==> Harmless(states[i], steps[i]))
  {
    hide Sound, Harmless, After, Enabled;
    InitialSound(range);
    if n > 0 {
      RunIsSoundExactly(range, states, steps, n - 1);
      var k := n - 1;
      assert states[k + 1] == After(range, states[k], steps[k]);
      if Sound(range, states[k]) {
        StepKeepsExactly(range, states[k], steps[k]);
      }
      assert (forall i :: 0 <= i <= n ==> Sound(range, states[i])) <==>
        (forall i :: 0 <= i <= k ==> Sound(range, states[i])) && Sound(range, states[n]);
      assert (forall i :: 0 <= i < n ==> Harmless(states[i], steps[i])) <==>
        (forall i :: 0 <= i < k ==> Harmless(states[i], steps[i])) && Harmless(states[k], steps[k]);
    }
  }

  lemma InitialSound(range: set<Port>)
    ensures Sound(range, Initial(range))
  {
    forall p | p in range ensures exists h :: Holds(Initial(range), h, p) {
      assert Holds(Initial(range), Pool, p);
    }
  }

  // Handlers of one kernel that do not overlap are enough: then no port is ever
  // held twice or lost.
  lemma {:induction false} NoOverlapIsSound(range: set<Port>, states: seq<State>, steps: seq<Step>, n: nat)
    requires IsRun(range, states, steps) && n < |states|
    requires forall i :: 0 <= i < |steps| && steps[i].CleanRestore? ==> !BeingCleaned(states[i], steps[i].kernel)
    ensures Sound(range, states[n])
  {
    hide Sound, BeingCleaned, After;
    RunIsSoundExactly(range, states, steps, n);
    assert forall i :: 0 <= i < n ==> Harmless(states[i], steps[i]);
  }

  // A failed spawn leaves no trace.
  lemma SpawnUndone(range: set<Port>, s: State, task: TaskId, ports: set<Port>)
    requires Enabled(s, Spawn(task, ports))
    ensures After(range, After(range, s, Spawn(task, ports)), SpawnFailed(task)) == s
  {
    assert s.spawning[task := ports] - {task} == s.spawning;
  }

  function Running(range: set<Port>, s: State, task: TaskId, ports: set<Port>, k: KernelId): State
    requires Enabled(s, Spawn(task, ports)) && k !in s.registry && !BeingCleaned(s, k)
  {
    After(range, After(range, s, Spawn(task, ports)), Register(task, k))
  }

  // While a kernel runs it alone holds the ports it was spawned with; its CLEAN
  // handler gives them back at once and then leaves no trace of it.
  lemma LifeOfKernel(range: set<Port>, s: State, task: TaskId, ports: set<Port>, k: KernelId, cleaner: TaskId)
    requires Sound(range, s) && Enabled(s, Spawn(task, ports)) && cleaner !in s.cleaning
    requires k !in s.registry && !BeingCleaned(s, k)
    ensures var running := Running(range, s, task, ports, k);
      && (forall h, p :: Holds(running, h, p) <==> if p in ports then h == ByKernel(k) else Holds(s, h, p))
      && Enabled(running, CleanRestore(cleaner, k))
      && var restored := After(range, running, CleanRestore(cleaner, k));
      && (forall h, p :: Holds(restored, h, p) <==> Holds(s, h, p))
      && Enabled(restored, CleanForget(cleaner)) && After(range, restored, CleanForget(cleaner)) == s
  {
    var running := Running(range, s, task, ports, k);
    forall p | p in ports ensures p in range && forall h :: Holds(s, h, p) ==> h == Pool {
      assert Holds(s, Pool, p);
    }
    assert s.spawning[task := ports] - {task} == s.spawning;
    assert running == State(s.pool - ports, s.spawning, s.registry[k := ports], s.cleaning);
    assert forall j :: BeingCleaned(running, j) <==> BeingCleaned(s, j);
    forall h, p ensures Holds(running, h, p) <==> if p in ports then h == ByKernel(k) else Holds(s, h, p) {
      assert p in ports ==> (Holds(s, h, p) ==> h == Pool);
      match h case Pool => case BySpawn(_) => case ByKernel(_) =>
    }
    var restored := After(range, running, CleanRestore(cleaner, k));
    assert ports * range == ports && s.pool - ports + ports == s.pool;
    assert restored == State(s.pool, s.spawning, s.registry[k := ports], s.cleaning[cleaner := k]);
    CleanedAfter(s, restored, cleaner, k);
    forall h, p ensures Holds(restored, h, p) <==> Holds(s, h, p) {
      match h case Pool => case BySpawn(_) => case ByKernel(_) =>
    }
    assert s.registry[k := ports] - {k} == s.registry && s.cleaning[cleaner := k] - {cleaner} == s.cleaning;
  }

  lemma CleanedAfter(s: State, t: State, cleaner: TaskId, k: KernelId)
    requires cleaner !in s.cleaning && t.cleaning == s.cleaning[cleaner := k]
    ensures forall j :: BeingCleaned(t, j) <==> BeingCleaned(s, j) || j == k
  {
    assert t.cleaning[cleaner] == k;
    forall j | BeingCleaned(s, j) ensures BeingCleaned(t, j) {
      var c :| c in s.cleaning && s.cleaning[c] == j;
      assert t.cleaning[c] == j;
    }
  }

  // Two CLEAN events for kernel a: the first gives the port back and waits,
  // kernel b takes it, and the second gives it back again: now b has it, and a
  // third kernel may take it, too.
  lemma DoubleCleanSharesPort(p: Port, a: KernelId, b: KernelId)
    requires a != b
    ensures var one, two, three := TaskId(1), TaskId(2), TaskId(3);
      var s := After({p}, After({p}, Initial({p}), Spawn(one, {p})), Register(one, a));
      var t := After({p}, After({p}, After({p}, s, CleanRestore(one, a)), Spawn(two, {p})), Register(two, b));
      var u := After({p}, t, CleanRestore(two, a));
      var v := After({p}, u, Spawn(three, {p}));
      && Holds(u, Pool, p) && Holds(u, ByKernel(b), p)
      && Holds(v, BySpawn(three), p) && Holds(v, ByKernel(b), p)
      && !Harmless(t, CleanRestore(two, a))
  {
    var one, two := TaskId(1), TaskId(2);
    var s := State({}, map[], map[a := {p}], map[]);
    assert After({p}, After({p}, Initial({p}), Spawn(one, {p})), Register(one, a)) == s;
    var taken := State({}, map[two := {p}], map[a := {p}], map[one := a]);
    assert After({p}, After({p}, s, CleanRestore(one, a)), Spawn(two, {p})) == taken;
    assert taken.cleaning[one] == a && !BeingCleaned(taken, b);
    var t := State({}, map[], map[a := {p}, b := {p}], map[one := a]);
    assert After({p}, taken, Register(two, b)) == t;
    assert t.cleaning[one] == a && !BeingCleaned(t, b);
    var u := State({p}, map[], map[a := {p}, b := {p}], map[one := a, two := a]);
    assert After({p}, t, CleanRestore(two, a)) == u;
    assert !BeingCleaned(u, b);
    assert !BeingCleaned(After({p}, u, Spawn(TaskId(3), {p})), b);
  }

  // ------------------------------------------------------------------- the object

  function Set(ports: seq<Port>): set<Port> { set p | p in ports }

  lemma SetNext(ports: seq<Port>, i: nat)
    requires i < |ports|
    ensures Set(ports[..i + 1]) == Set(ports[..i]) + {ports[i]}
  {
    assert ports[..i + 1] == ports[..i] + [ports[i]];
  }

  method InRange(hostPorts: seq<Port>, range: set<Port>) returns (restored: seq<Port>)
    ensures Set(restored) == Set(hostPorts) * range
  {
    restored := [];
    for i := 0 to |hostPorts|
      invariant Set(restored) == Set(hostPorts[..i]) * range
    {
      SetNext(hostPorts, i);
      if hostPorts[i] in range {
        assert Set(restored + [hostPorts[i]]) == Set(restored) + {hostPorts[i]};
        restored := restored + [hostPorts[i]];
      }
    }
    assert hostPorts[..|hostPorts|] == hostPorts;
  }

  method Pop(pool: set<Port>, exposed: nat) returns (taken: seq<Port>, rest: set<Port>)
    requires exposed <= |pool|
    ensures |taken| == |Set(taken)| == exposed && Set(taken) <= pool && rest == pool - Set(taken)
  {
    taken, rest := [], pool;
    ghost var gone: set<Port> := {};
    for i := 0 to exposed
      invariant gone == Set(taken) && |taken| == |gone| == i
      invariant gone <= pool && rest == pool - gone && |rest| == |pool| - i
    {
      var p :| p in rest;
      rest := rest - {p};
      taken := taken + [p];
      gone := gone + {p};
    }
  }

  lemma SpawnedAlone(range: set<Port>, s: State, task: TaskId)
    requires Sound(range, s) && task in s.spawning
    ensures forall p, h :: p in s.spawning[task] && h != BySpawn(task) ==> !Holds(s, h, p)
  {
    forall p, h | p in s.spawning[task] && h != BySpawn(task) ensures !Holds(s, h, p) {
      assert Holds(s, BySpawn(task), p);
    }
  }

  class PortKeeper {
    const range: set<Port>
    var portPool: set<Port>
    var registry: map<KernelId, seq<Port>>
    ghost var spawning: map<TaskId, set<Port>>
    ghost var cleaning: map<TaskId, KernelId>

    ghost function View(): State
      reads this
    {
      State(portPool, spawning, map k | k in registry :: Set(registry[k]), cleaning)
    }

    constructor (range: set<Port>)
      ensures this.range == range && View() == Initial(range) && Sound(range, View())
    {
      InitialSound(range);
      this.range, portPool, registry, spawning, cleaning := range, range, map[], map[], map[];
      new;
      assert View() == Initial(range);
    }

    // One host port per exposed port, or none at all.  Nobody else has them.
    method Acquire(task: TaskId, exposed: nat) returns (hostPorts: Option<seq<Port>>)
      requires Sound(range, View()) && task !in spawning
      modifies this
      ensures hostPorts.Some? <==> exposed <= |old(portPool)|
      ensures hostPorts == None ==> View() == old(View())
      ensures hostPorts.Some? ==>
        var taken := Set(hostPorts.value);
        && |hostPorts.value| == |taken| == exposed
        && Enabled(old(View()), Spawn(task, taken)) && View() == After(range, old(View()), Spawn(task, taken))
        && forall p, h :: p in taken && h != BySpawn(task) ==> !Holds(View(), h, p)
      ensures Sound(range, View())
    {
      hide Sound, Holds;
      if exposed > |portPool| {
        return None;
      }
      var taken, rest := Pop(portPool, exposed);
      ghost var gone := Set(taken);
      portPool := rest;
      SpawnKeeps(range, old(View()), task, gone);
      spawning := spawning[task := gone];
      assert View() == After(range, old(View()), Spawn(task, gone));
      SpawnedAlone(range, View(), task);
      return Some(taken);
    }

    // The rollback of a spawn that failed.
    method GiveBack(task: TaskId, hostPorts: seq<Port>)
      requires Sound(range, View()) && task in spawning && spawning[task] == Set(hostPorts)
      modifies this
      ensures View() == After(range, old(View()), SpawnFailed(task)) && Sound(range, View())
    {
      SpawnFailedKeeps(range, View(), task);
      portPool := portPool + Set(hostPorts);
      spawning := spawning - {task};
    }

    method Register(task: TaskId, kernel: KernelId, hostPorts: seq<Port>)
      requires Sound(range, View()) && Enabled(View(), Step.Register(task, kernel)) && spawning[task] == Set(hostPorts)
      modifies this
      ensures View() == After(range, old(View()), Step.Register(task, kernel)) && Sound(range, View())
    {
      RegisterKeeps(range, View(), task, kernel);
      registry := registry[kernel := hostPorts];
      spawning := spawning - {task};
      assert View() == After(range, old(View()), Step.Register(task, kernel));
    }

    // The first half of the CLEAN handler, up to its await.  Unless another one
    // is under way and ports have been taken since, no port is shared after it.
    method RestorePorts(task: TaskId, kernel: KernelId)
      requires Sound(range, View()) && task !in cleaning
      modifies this
      ensures kernel !in old(registry) ==> View() == old(View())
      ensures kernel in old(registry) ==>
        && View() == After(range, old(View()), CleanRestore(task, kernel))
        && (Sound(range, View()) <==> Harmless(old(View()), CleanRestore(task, kernel)))
    {
      if kernel in registry {
        RestoreKeeps(range, View(), task, kernel);
        var hostPorts := registry[kernel];
        var restored := InRange(hostPorts, range);
        portPool := portPool + Set(restored);
        cleaning := cleaning[task := kernel];
        assert View() == After(range, old(View()), CleanRestore(task, kernel));
      }
    }

    // The second half, after the await.
    method Forget(task: TaskId, kernel: KernelId)
      requires Sound(range, View()) && task in cleaning && cleaning[task] == kernel
      modifies this
      ensures View() == After(range, old(View()), CleanForget(task)) && Sound(range, View())
    {
      ForgetKeeps(range, View(), task);
      registry := registry - {kernel};
      cleaning := cleaning - {task};
      assert View() == After(range, old(View()), CleanForget(task));
    }
  }
}

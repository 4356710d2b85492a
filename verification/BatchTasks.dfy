/** The task loop inside a container: the steps of batch requests (clean, build,
    execute) and queries, run one after the other, with the flag that makes a
    failed build skip the execution. */
module BatchTasks {
  import opened Options

  datatype Kind = Clean | Build | Execute | Query

  // outcome: what running the command returns; None if it raises an exception.
  datatype Task = Task(kind: Kind, command: string, outcome: Option<int>)

  datatype MessageKind = CleanFinished | BuildFinished | Finished

  datatype Message = Message(kind: MessageKind, exitCode: int)

  const COMMAND_NOT_FOUND: int := 127

  // An empty step of a batch counts as done.
  function ExitCode(t: Task): int {
    if t.kind != Query && t.command == "" then 0
    else if t.outcome == None then -1
    else t.outcome.value
  }

  function Report(t: Task): Message {
    var kind := match t.kind case Clean => CleanFinished case Build => BuildFinished case _ => Finished;
    Message(kind, ExitCode(t))
  }

  // A build that is not empty and raises an exception or returns something but 0.
  predicate Failed(t: Task) { t.kind == Build && t.command != "" && t.outcome != Some(0) }

  // The answer to a task that is run: 0 for an empty step, -1 for an exception and
  // otherwise what its command returned, under the name of its kind.
  predicate Answers(m: Message, t: Task) {
    && (t.kind == Clean <==> m.kind == CleanFinished)
    && (t.kind == Build <==> m.kind == BuildFinished)
    && (t.command == "" && t.kind != Query ==> m.exitCode == 0)
    && (t.command != "" || t.kind == Query ==>
        (t.outcome == None ==> m.exitCode == -1) && (t.outcome.Some? ==> m.exitCode == t.outcome.value))
  }

  // ------------------------------------------------------------ what is skipped

  // A build has failed, and nothing has been built or executed since.
  ghost predicate Spoilt(tasks: seq<Task>) {
    exists j :: 0 <= j < |tasks| && Failed(tasks[j])
      && forall i :: j < i < |tasks| ==> tasks[i].kind != Build && tasks[i].kind != Execute
  }

  ghost predicate Skipped(tasks: seq<Task>, i: nat)
    requires i < |tasks|
  {
    tasks[i].kind == Execute && Spoilt(tasks[..i])
  }

  ghost function Answer(tasks: seq<Task>, i: nat): Message
    requires i < |tasks|
  {
    if Skipped(tasks, i) then Message(Finished, COMMAND_NOT_FOUND) else Report(tasks[i])
  }

  lemma SpoiltNext(tasks: seq<Task>, i: nat)
    requires i < |tasks|
    ensures Spoilt(tasks[..i + 1]) <==>
      Failed(tasks[i]) || (Spoilt(tasks[..i]) && tasks[i].kind != Build && tasks[i].kind != Execute)
  {
    var before, after := tasks[..i], tasks[..i + 1];
    assert after == before + [tasks[i]];
    if Failed(tasks[i]) {
      assert Failed(after[i]);
    } else if Spoilt(before) && tasks[i].kind != Build && tasks[i].kind != Execute {
      var j :| 0 <= j < i && Failed(before[j])
        && forall k :: j < k < i ==> before[k].kind != Build && before[k].kind != Execute;
      assert Failed(after[j]);
    } else {
      assert forall k :: 0 <= k < i ==> before[k] == after[k];
    }
  }

  class Runner {
    var buildSuccess: Option<bool>

    constructor ()
      ensures buildSuccess == None
    {
      buildSuccess := None;
    }

    // Every task is answered in turn, and an execution is skipped exactly after
    // a failed build that nothing has been built or executed since.
    method RunTasks(queue: seq<Task>) returns (sent: seq<Message>, ran: seq<bool>)
      requires buildSuccess == None
      modifies this
      ensures |sent| == |ran| == |queue|
      ensures forall i :: 0 <= i < |queue| ==> sent[i] == Answer(queue, i) && (ran[i] <==> !Skipped(queue, i))
      ensures forall i :: 0 <= i < |queue| ==>
        if ran[i] then Answers(sent[i], queue[i]) else sent[i] == Message(Finished, 127)
    {
      sent, ran := [], [];
      for i := 0 to |queue|
        invariant |sent| == |ran| == i
        invariant forall k :: 0 <= k < i ==> sent[k] == Answer(queue, k) && (ran[k] <==> !Skipped(queue, k))
        invariant forall k :: 0 <= k < i ==>
          if ran[k] then Answers(sent[k], queue[k]) else sent[k] == Message(Finished, 127)
        invariant buildSuccess == Some(false) <==> Spoilt(queue[..i])
      {
        var task := queue[i];
        SpoiltNext(queue, i);
        if buildSuccess != None && task.kind == Execute && !buildSuccess.value {
          buildSuccess := None;
          sent, ran := sent + [Message(Finished, COMMAND_NOT_FOUND)], ran + [false];
          continue;
        }
        if task.kind == Build {
          buildSuccess := Some(ExitCode(task) == 0);
        }
        sent, ran := sent + [Report(task)], ran + [true];
      }
    }
  }

  // ------------------------------------------------------------- batch requests

  datatype Batch = Batch(clean: Task, build: Task, execute: Task)

  predicate WellFormed(b: Batch) {
    b.clean.kind == Clean && b.build.kind == Build && b.execute.kind == Execute
  }

  function Feed(batches: seq<Batch>): (tasks: seq<Task>)
    ensures |tasks| == 3 * |batches|
  {
    if batches == [] then []
    else
      var b := batches[|batches| - 1];
      Feed(batches[..|batches| - 1]) + [b.clean, b.build, b.execute]
  }

  // The three tasks of a batch start at position m.
  predicate FedAt(tasks: seq<Task>, m: nat, b: Batch) {
    m + 2 < |tasks| && tasks[m] == b.clean && tasks[m + 1] == b.build && tasks[m + 2] == b.execute
  }

  lemma {:induction false} FeedAt(batches: seq<Batch>, n: nat)
    requires n < |batches|
    ensures FedAt(Feed(batches), 3 * n, batches[n])
  {
    if n < |batches| - 1 {
      FeedAt(batches[..|batches| - 1], n);
    }
  }

  lemma ThreeAnswers(tasks: seq<Task>, m: nat, b: Batch)
    requires FedAt(tasks, m, b) && WellFormed(b)
    ensures Answers(Answer(tasks, m), b.clean) && Answers(Answer(tasks, m + 1), b.build)
    ensures Skipped(tasks, m + 2) <==> !(b.build.command == "" || b.build.outcome == Some(0))
    ensures if Skipped(tasks, m + 2) then Answer(tasks, m + 2) == Message(Finished, 127)
      else Answers(Answer(tasks, m + 2), b.execute)
  {
    hide Spoilt;
    SpoiltNext(tasks, m + 1);
  }

  // Whatever went before, each request of a sequence is answered by exactly its
  // own three messages, and it is executed if and only if its own build is empty or
  // returns 0; otherwise the exit code is 127.
  lemma BatchAnswers(batches: seq<Batch>, n: nat)
    requires n < |batches| && forall b :: b in batches ==> WellFormed(b)
    ensures var tasks, b := Feed(batches), batches[n];
      && Answers(Answer(tasks, 3 * n), b.clean) && Answers(Answer(tasks, 3 * n + 1), b.build)
      && (Skipped(tasks, 3 * n + 2) <==> !(b.build.command == "" || b.build.outcome == Some(0)))
      && if Skipped(tasks, 3 * n + 2) then Answer(tasks, 3 * n + 2) == Message(Finished, 127)
         else Answers(Answer(tasks, 3 * n + 2), b.execute)
  {
    hide Feed, Answer, Skipped, FedAt, Answers;
    FeedAt(batches, n);
    assert WellFormed(batches[n]);
    ThreeAnswers(Feed(batches), 3 * n, batches[n]);
  }
}

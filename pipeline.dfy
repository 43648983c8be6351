/**
  The parent side of `execute_pipeline`: which pipe ends the parent holds
  while it spawns one child per stage, and the order of its pipe, fork,
  close and wait calls. Process creation, the child's redirections and
  program replacement are abstract: a fork is recorded with the pipe ends
  the child is wired to.
*/
module Pipeline {
  import opened Wrappers

  /** One system call made by the parent, as seen from its descriptor table. */
  datatype Event =
    | PipeCreated(read: nat, write: nat)
    | Forked(stage: nat, stdin: Option<nat>, stdout: Option<nat>)
    | Closed(fd: nat)
    | Waited

  /**
    Effect of one call on the set of pipe ends the parent holds; None marks
    a misuse: a pipe whose ends are already held, a child wired to an end
    the parent does not hold, or a close of an end it does not hold.
  */
  function Step(held: set<nat>, e: Event): Option<set<nat>>
  {
    match e
    case PipeCreated(r, w) =>
      if r != w && r !in held && w !in held then Some(held + {r, w}) else None
    case Forked(_, inp, out) =>
      if (inp.Some? ==> inp.value in held) && (out.Some? ==> out.value in held) then Some(held) else None
    case Closed(fd) =>
      if fd in held then Some(held - {fd}) else None
    case Waited => Some(held)
  }

  /** Run the calls of `log` from the held set `held`. */
  function Replay(held: set<nat>, log: seq<Event>): Option<set<nat>>
    decreases |log|
  {
    if log == [] then Some(held)
    else match Step(held, log[0])
      case None => None
      case Some(h) => Replay(h, log[1..])
  }

  /** Descriptors 0 to 2 are the standard streams; pipe k gets the next two fresh numbers. */
  const FirstPipeFd: nat := 3

  function ReadEnd(k: nat): nat { FirstPipeFd + 2 * k }
  function WriteEnd(k: nat): nat { FirstPipeFd + 2 * k + 1 }

  /**
    The calls made for stage `i` of `count`: a new pipe unless `i` is the
    last stage, the fork (reading the previous pipe, writing the new one),
    then closing the previous read end and the new write end.
  */
  function StageLog(i: nat, count: nat): seq<Event>
    requires i < count
  {
    var last := i == count - 1;
    (if last then [] else [PipeCreated(ReadEnd(i), WriteEnd(i))])
    + [Forked(i, if i > 0 then Some(ReadEnd(i - 1)) else None, if last then None else Some(WriteEnd(i)))]
    + (if i > 0 then [Closed(ReadEnd(i - 1))] else [])
    + (if last then [] else [Closed(WriteEnd(i))])
  }

  /** The calls made for stages 0 to i - 1. */
  function SpawnLog(i: nat, count: nat): seq<Event>
    requires i <= count
  {
    if i == 0 then [] else SpawnLog(i - 1, count) + StageLog(i - 1, count)
  }

  function Waits(n: nat): seq<Event>
  {
    seq(n, _ => Waited)
  }

  /** The pipe ends the parent holds once stages 0 to i - 1 are spawned: the read end for stage i. */
  function HeldAfter(i: nat, count: nat): set<nat>
  {
    if 0 < i < count then {ReadEnd(i - 1)} else {}
  }

  /** Number of calls in `log` that `isKind` picks out. */
  function Count(log: seq<Event>, isKind: Event -> bool): nat
  {
    if log == [] then 0 else (if isKind(log[0]) then 1 else 0) + Count(log[1..], isKind)
  }

  // ---------------------------------------------------------------------------
  // Lemmas about the call log

  lemma {:induction false} ReplayAppend(held: set<nat>, a: seq<Event>, b: seq<Event>, mid: set<nat>)
    requires Replay(held, a) == Some(mid)
    ensures Replay(held, a + b) == Replay(mid, b)
    decreases |a|
  {
    if a == [] {
      assert a + b == b;
    } else {
      assert (a + b)[1..] == a[1..] + b;
      ReplayAppend(Step(held, a[0]).value, a[1..], b, mid);
    }
  }

  /** Spawning stage `i` takes the parent from the ends it held before to the ends it holds after. */
  lemma ReplayStage(i: nat, count: nat)
    requires i < count
    ensures Replay(HeldAfter(i, count), StageLog(i, count)) == Some(HeldAfter(i + 1, count))
  {
    var last := i == count - 1;
    var h := HeldAfter(i, count);
    var fork := Forked(i, if i > 0 then Some(ReadEnd(i - 1)) else None, if last then None else Some(WriteEnd(i)));
    var pipe := if last then [] else [PipeCreated(ReadEnd(i), WriteEnd(i))];
    var closeRead := if i > 0 then [Closed(ReadEnd(i - 1))] else [];
    var closeWrite := if last then [] else [Closed(WriteEnd(i))];
    var h1 := if last then h else h + {ReadEnd(i), WriteEnd(i)};
    var h2 := if i > 0 then h1 - {ReadEnd(i - 1)} else h1;
    var h3 := if last then h2 else h2 - {WriteEnd(i)};
    assert Replay(h, pipe) == Some(h1);
    assert Replay(h1, [fork]) == Some(h1);
    assert Replay(h1, closeRead) == Some(h2);
    assert Replay(h2, closeWrite) == Some(h3);
    ReplayAppend(h, pipe, [fork], h1);
    ReplayAppend(h, pipe + [fork], closeRead, h1);
    ReplayAppend(h, pipe + [fork] + closeRead, closeWrite, h2);
    assert h3 == HeldAfter(i + 1, count);
  }

  /** After spawning stages 0 to i - 1 the parent holds only the read end stage i will use. */
  lemma {:induction false} ReplaySpawn(i: nat, count: nat)
    requires i <= count
    ensures Replay({}, SpawnLog(i, count)) == Some(HeldAfter(i, count))
  {
    if i > 0 {
      ReplaySpawn(i - 1, count);
      ReplayStage(i - 1, count);
      ReplayAppend({}, SpawnLog(i - 1, count), StageLog(i - 1, count), HeldAfter(i - 1, count));
    }
  }

  lemma {:induction false} ReplayWaits(held: set<nat>, n: nat)
    ensures Replay(held, Waits(n)) == Some(held)
  {
    if n > 0 {
      assert Waits(n)[1..] == Waits(n - 1);
      ReplayWaits(held, n - 1);
    }
  }

  /**
    Descriptor discipline: every call in the log is legal for the parent (it
    only closes ends it holds and wires children to ends it holds) and once
    the whole pipeline has run it holds no pipe end at all.
  */
  lemma AllEndsClosed(count: nat)
    ensures Replay({}, SpawnLog(count, count) + Waits(count)) == Some({})
  {
    ReplaySpawn(count, count);
    ReplayWaits({}, count);
    ReplayAppend({}, SpawnLog(count, count), Waits(count), {});
  }

  lemma {:induction false} CountAppend(a: seq<Event>, b: seq<Event>, isKind: Event -> bool)
    ensures Count(a + b, isKind) == Count(a, isKind) + Count(b, isKind)
    decreases |a|
  {
    if a == [] {
      assert a + b == b;
    } else {
      assert (a + b)[1..] == a[1..] + b;
      CountAppend(a[1..], b, isKind);
    }
  }

  predicate IsPipe(e: Event) { e.PipeCreated? }
  predicate IsFork(e: Event) { e.Forked? }
  predicate IsWait(e: Event) { e.Waited? }

  lemma CountOne(e: Event, isKind: Event -> bool)
    ensures Count([e], isKind) == if isKind(e) then 1 else 0
  {
    assert [e][1..] == [];
  }

  lemma StageCounts(i: nat, count: nat)
    requires i < count
    ensures Count(StageLog(i, count), IsPipe) == (if i < count - 1 then 1 else 0)
    ensures Count(StageLog(i, count), IsFork) == 1
    ensures Count(StageLog(i, count), IsWait) == 0
  {
    var last := i == count - 1;
    var fork := Forked(i, if i > 0 then Some(ReadEnd(i - 1)) else None, if last then None else Some(WriteEnd(i)));
    var pipe := if last then [] else [PipeCreated(ReadEnd(i), WriteEnd(i))];
    var closeRead := if i > 0 then [Closed(ReadEnd(i - 1))] else [];
    var closeWrite := if last then [] else [Closed(WriteEnd(i))];
    assert StageLog(i, count) == pipe + [fork] + closeRead + closeWrite;
    var kinds := [IsPipe, IsFork, IsWait];
    forall k | 0 <= k < 3
      ensures Count(StageLog(i, count), kinds[k])
           == Count(pipe, kinds[k]) + Count([fork], kinds[k]) + Count(closeRead, kinds[k]) + Count(closeWrite, kinds[k])
    {
      CountAppend(pipe, [fork], kinds[k]);
      CountAppend(pipe + [fork], closeRead, kinds[k]);
      CountAppend(pipe + [fork] + closeRead, closeWrite, kinds[k]);
    }
    forall k | 0 <= k < 3
      ensures Count([fork], kinds[k]) == if kinds[k](fork) then 1 else 0
      ensures !last ==> Count(pipe, kinds[k]) == if kinds[k](pipe[0]) then 1 else 0
      ensures i > 0 ==> Count(closeRead, kinds[k]) == 0
      ensures !last ==> Count(closeWrite, kinds[k]) == 0
    {
      CountOne(fork, kinds[k]);
      if !last {
        CountOne(pipe[0], kinds[k]);
        CountOne(closeWrite[0], kinds[k]);
      }
      if i > 0 {
        CountOne(closeRead[0], kinds[k]);
      }
    }
    assert kinds[0] == IsPipe && kinds[1] == IsFork && kinds[2] == IsWait;
  }

  /** Stages 0 to i - 1 create one pipe per stage that has a successor and fork once per stage. */
  lemma {:induction false} SpawnCounts(i: nat, count: nat)
    requires i <= count
    ensures Count(SpawnLog(i, count), IsPipe) == (if 0 < i == count then i - 1 else i)
    ensures Count(SpawnLog(i, count), IsFork) == i
    ensures Count(SpawnLog(i, count), IsWait) == 0
  {
    if i > 0 {
      SpawnCounts(i - 1, count);
      StageCounts(i - 1, count);
      CountAppend(SpawnLog(i - 1, count), StageLog(i - 1, count), IsPipe);
      CountAppend(SpawnLog(i - 1, count), StageLog(i - 1, count), IsFork);
      CountAppend(SpawnLog(i - 1, count), StageLog(i - 1, count), IsWait);
    }
  }

  lemma {:induction false} WaitsCounts(n: nat)
    ensures Count(Waits(n), IsWait) == n
    ensures Count(Waits(n), IsPipe) == 0 && Count(Waits(n), IsFork) == 0
  {
    if n > 0 {
      assert Waits(n)[1..] == Waits(n - 1);
      WaitsCounts(n - 1);
    }
  }

  /**
    A pipeline of `count` stages creates a pipe only between stages
    (count - 1 pipes, none for a single stage), forks once per stage and
    waits once per stage.
  */
  lemma PipelineCounts(count: nat)
    ensures var log := SpawnLog(count, count) + Waits(count);
      && Count(log, IsPipe) == (if count > 0 then count - 1 else 0)
      && Count(log, IsFork) == count
      && Count(log, IsWait) == count
  {
    SpawnCounts(count, count);
    WaitsCounts(count);
    CountAppend(SpawnLog(count, count), Waits(count), IsPipe);
    CountAppend(SpawnLog(count, count), Waits(count), IsFork);
    CountAppend(SpawnLog(count, count), Waits(count), IsWait);
  }

  /**
    `execute_pipeline`, parent side. Returns the calls made, in order, and
    the pipe ends still held at the end. Pipe and fork failures (which end
    the process) are not modelled.
  */
  method ExecutePipeline(count: nat) returns (log: seq<Event>, held: set<nat>)
    ensures log == SpawnLog(count, count) + Waits(count)
    ensures Replay({}, log) == Some(held)
    ensures held == {}
  {
    var i := 0;
    var prevPipeRead: int := -1;
    var pipeRead, pipeWrite: nat := 0, 0;
    var nextFd := FirstPipeFd;
    log, held := [], {};
    while i < count
      invariant i <= count
      invariant log == SpawnLog(i, count)
      invariant held == HeldAfter(i, count)
      invariant i == 0 ==> prevPipeRead == -1
      invariant 0 < i < count ==> prevPipeRead == ReadEnd(i - 1)
      invariant i < count ==> nextFd == ReadEnd(i)
    {
      if i < count - 1 {
        // pipe(pipefd)
        pipeRead, pipeWrite := nextFd, nextFd + 1;
        nextFd := nextFd + 2;
        held := held + {pipeRead, pipeWrite};
        log := log + [PipeCreated(pipeRead, pipeWrite)];
      }
      // fork(): the child takes prev_pipe_read as stdin and pipefd[1] as stdout
      var stdin := if prevPipeRead != -1 then Some(prevPipeRead as nat) else None;
      var stdout := if i < count - 1 then Some(pipeWrite) else None;
      log := log + [Forked(i, stdin, stdout)];
      if prevPipeRead != -1 {
        held := held - {prevPipeRead as nat};
        log := log + [Closed(prevPipeRead as nat)];
      }
      if i < count - 1 {
        prevPipeRead := pipeRead;
        held := held - {pipeWrite};
        log := log + [Closed(pipeWrite)];
      }
      assert log == SpawnLog(i + 1, count);
      i := i + 1;
    }
    i := 0;
    while i < count
      invariant i <= count
      invariant log == SpawnLog(count, count) + Waits(i)
      invariant held == {}
    {
      assert Waits(i + 1) == Waits(i) + [Waited];
      log := log + [Waited];
      i := i + 1;
    }
    AllEndsClosed(count);
  }
}

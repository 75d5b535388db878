/** The simulator's worker threads: every interleaving of their atomic flag accesses and node actions. */
module Vthread {
  import opened Lists
  import opened ThreadBlocks

  /** Where a thread is in its function: not running it, about to read a flag while it waits for any of them, about to
      test one, or at action `done` of a phase. */
  datatype Pc = Out | Spin(read: Phase) | Test(phase: Phase) | Work(phase: Phase, done: nat)

  /** A worker and its three atomic flags. */
  datatype Thread = Thread(flags: set<Phase>, pc: Pc)

  /** The main thread in phase call `epoch`: raising the flag of thread `next`, running thread 0's function, or
      waiting for the flag of thread `next` to fall. */
  datatype Main = Raise(epoch: nat, next: nat) | Running(epoch: nat) | Await(epoch: nat, next: nat) | Finished

  /** `log` records each action with the phase call it was done in. */
  datatype World = World(main: Main, threads: seq<Thread>, log: seq<(nat, Task)>)

  /** The main thread calls the phases of `script`, one after another. */
  function Call(script: seq<Phase>, epoch: nat): Main {
    if epoch < |script| then Raise(epoch, 0) else Finished
  }

  function Start(c: Config, script: seq<Phase>): World {
    World(Call(script, 0), seq(c.threads, i => Thread({}, if i == 0 then Out else Spin(Eval))), [])
  }

  // ---------- steps ----------

  /** After the test or the loop of a phase; thread 0 leaves the function after the last one. */
  function After(i: nat, q: Phase): Pc {
    match q
    case Eval => Test(Copy)
    case Copy => Test(Update)
    case Update => if i == 0 then Out else Spin(Eval)
  }

  /** The flag the waiting loop reads after this one. */
  function NextRead(q: Phase): Phase {
    match q
    case Eval => Copy
    case Copy => Update
    case Update => Eval
  }

  /** Thread `i` is about to do an action. */
  predicate Acts(c: Config, t: Thread, i: nat)
    requires c.threads > 0
  {
    t.pc.Work? && t.pc.done < |Items(c, t.pc.phase, i)|
  }

  /** The thread itself after one atomic step. */
  function Moved(c: Config, t: Thread, i: nat): Thread
    requires c.threads > 0
  {
    match t.pc
    case Out => t
    case Spin(q) => t.(pc := if q in t.flags then Test(Eval) else Spin(NextRead(q)))
    case Test(q) => t.(pc := if q in t.flags then Work(q, 0) else After(i, q))
    case Work(q, k) => if Acts(c, t, i) then t.(pc := Work(q, k + 1)) else Thread(t.flags - {q}, After(i, q))
  }

  /** One atomic step of thread `i`; `epoch` only labels the log. */
  function ThreadStep(c: Config, w: World, i: nat, epoch: nat): World
    requires c.threads > 0 && i < |w.threads|
  {
    var t := w.threads[i];
    w.(threads := w.threads[i := Moved(c, t, i)],
       log := if Acts(c, t, i) then w.log + [(epoch, Items(c, t.pc.phase, i)[t.pc.done])] else w.log)
  }

  /** One atomic step of the main thread. */
  function MainStep(c: Config, script: seq<Phase>, w: World): World
    requires c.threads > 0 && |w.threads| == c.threads
    requires match w.main
             case Raise(e, n) => e < |script| && n < c.threads
             case Running(e) => true
             case Await(e, n) => e < |script| && n < c.threads
             case Finished => true
  {
    match w.main
    case Raise(e, n) =>
      var w1 := w.(threads := w.threads[n := w.threads[n].(flags := w.threads[n].flags + {script[e]})]);
      if n + 1 < c.threads then w1.(main := Raise(e, n + 1))
      else w1.(main := Running(e), threads := w1.threads[0 := w1.threads[0].(pc := Spin(Eval))])
    case Running(e) =>
      var w1 := ThreadStep(c, w, 0, e);
      if w1.threads[0].pc == Out then w1.(main := Await(e, 0)) else w1
    case Await(e, n) =>
      if script[e] in w.threads[n].flags then w
      else w.(main := if n + 1 < c.threads then Await(e, n + 1) else Call(script, e + 1))
    case Finished => w
  }

  /** Whose turn it is is arbitrary: 0 is the main thread, others are workers. */
  function Act(c: Config, script: seq<Phase>, w: World, actor: nat): World
    requires c.threads > 0 && |w.threads| == c.threads && MainIn(c, script, w.main)
  {
    if actor == 0 || actor >= c.threads then MainStep(c, script, w) else ThreadStep(c, w, actor, EpochOf(script, w.main))
  }

  predicate MainIn(c: Config, script: seq<Phase>, m: Main) {
    match m
    case Raise(e, n) => e < |script| && n < c.threads
    case Running(e) => e < |script|
    case Await(e, n) => e < |script| && n < c.threads
    case Finished => true
  }

  function EpochOf(script: seq<Phase>, m: Main): nat {
    match m
    case Raise(e, n) => e
    case Running(e) => e
    case Await(e, n) => e
    case Finished => |script|
  }

  // ---------- the invariant ----------

  /** The flag of thread `i` has been raised in this call. */
  predicate Raised(m: Main, i: nat) {
    m.Raise? ==> i < m.next
  }

  function Order(q: Phase): nat {
    match q case Eval => 0 case Copy => 1 case Update => 2
  }

  /** A thread during a call of phase `p`: no other flag is up, and it works on nothing else. */
  ghost predicate ThreadOk(c: Config, p: Phase, m: Main, t: Thread, i: nat)
    requires c.threads > 0
  {
    && t.flags <= {p} && (t.flags != {} ==> Raised(m, i))
    && (t.pc.Work? ==> t.pc.phase == p && p in t.flags && t.pc.done <= |Items(c, p, i)|)
    && (if i == 0 then
          && (m.Running? <==> t.pc != Out)
          && (m.Running? && p in t.flags && t.pc.Test? ==> Order(t.pc.phase) <= Order(p))
          && (m.Running? && t.pc.Spin? ==> p in t.flags)
          && (m.Raise? && m.next > 0 ==> p in t.flags)
          && (m.Await? ==> t.flags == {})
        else t.pc != Out)
    && (m.Await? && i < m.next ==> t.flags == {})
  }

  ghost predicate Idle(t: Thread, i: nat) {
    t.flags == {} && !t.pc.Work? && (i == 0 <==> t.pc == Out)
  }

  /** How many of its actions of this call thread `i` has done. */
  function DoneCount(c: Config, p: Phase, m: Main, t: Thread, i: nat): nat
    requires c.threads > 0
  {
    if t.pc.Work? then t.pc.done
    else if t.flags != {} || !Raised(m, i) then 0
    else |Items(c, p, i)|
  }

  ghost predicate DoneBy(c: Config, p: Phase, m: Main, t: Thread, i: nat, task: Task)
    requires c.threads > 0
  {
    exists j :: 0 <= j < DoneCount(c, p, m, t, i) && j < |Items(c, p, i)| && Items(c, p, i)[j] == task
  }

  ghost predicate ThreadsOk(c: Config, script: seq<Phase>, w: World)
    requires c.threads > 0 && MainIn(c, script, w.main)
  {
    forall i :: 0 <= i < |w.threads| ==>
      if w.main.Finished? then Idle(w.threads[i], i) else ThreadOk(c, script[w.main.epoch], w.main, w.threads[i], i)
  }

  /** The log: calls in order, each action of a call at most once and due in its phase, finished calls complete, and
      the present one as far as the threads have come. */
  ghost predicate LogOk(c: Config, script: seq<Phase>, w: World)
    requires c.threads > 0 && MainIn(c, script, w.main)
  {
    var now := EpochOf(script, w.main);
    && Distinct(w.log) && ResetFirst(w.log)
    && (forall i, j :: 0 <= i < j < |w.log| ==> w.log[i].0 <= w.log[j].0)
    && (forall e, t :: (e, t) in w.log ==> e <= now && e < |script| && Due(c, script[e], t))
    && (forall e: nat, t {:trigger (e, t) in w.log} :: e < now && e < |script| && Due(c, script[e], t) ==> (e, t) in w.log)
    && (!w.main.Finished? ==>
          forall t :: (now, t) in w.log <==> DoneInCall(c, script[now], w.main, w.threads, t))
  }

  /** Whenever a router or endpoint is evaluated, it has been reset before in the same call. */
  ghost predicate ResetFirst(log: seq<(nat, Task)>) {
    forall j :: 0 <= j < |log| && log[j].1.op in {EvalRouter, EvalEndpoint} ==>
      (log[j].0, Task(ResetOf(log[j].1.op), log[j].1.node)) in log[..j]
  }

  ghost predicate DoneInCall(c: Config, p: Phase, m: Main, threads: seq<Thread>, task: Task)
    requires c.threads > 0
  {
    exists i :: 0 <= i < |threads| && DoneBy(c, p, m, threads[i], i, task)
  }

  ghost predicate Inv(c: Config, script: seq<Phase>, w: World) {
    c.Valid() && |w.threads| == c.threads && MainIn(c, script, w.main) && ThreadsOk(c, script, w) && LogOk(c, script, w)
  }

  /** The phases never overlap: all threads at work are in the phase the main thread has called. */
  lemma NoOverlap(c: Config, script: seq<Phase>, w: World, i: nat)
    requires Inv(c, script, w) && i < c.threads && w.threads[i].pc.Work?
    ensures !w.main.Finished? && w.threads[i].pc.phase == script[w.main.epoch]
  {
  }

  // ---------- every step keeps the invariant ----------

  lemma StartInv(c: Config, script: seq<Phase>)
    requires c.Valid()
    ensures Inv(c, script, Start(c, script))
  {
    hide Items, Due;
  }

  /** One step of a thread inside the function. */
  lemma MovedOk(c: Config, p: Phase, m: Main, t: Thread, i: nat)
    requires c.threads > 0 && ThreadOk(c, p, m, t, i) && (i == 0 ==> m.Running?)
    ensures var t' := Moved(c, t, i);
      && DoneCount(c, p, m, t', i) == DoneCount(c, p, m, t, i) + (if Acts(c, t, i) then 1 else 0)
      && (Acts(c, t, i) ==> t.pc.phase == p)
      && if i == 0 && t'.pc == Out then t'.flags == {} else ThreadOk(c, p, m, t', i)
  {
    hide Items;
    if t.pc.Work? && !Acts(c, t, i) { assert t.flags - {p} == {}; }
  }

  lemma SamePlace(c: Config, p: Phase, i: nat, j: nat, k: nat)
    requires c.Valid() && j < |Items(c, p, i)| && k < |Items(c, p, i)| && Items(c, p, i)[j] == Items(c, p, i)[k]
    ensures j == k
  {
    ItemsPartition(c, p, i, Items(c, p, i)[j]);
    hide Items;
  }

  /** An action of thread `i` is new. */
  lemma ActionNew(c: Config, script: seq<Phase>, w: World, i: nat)
    requires Inv(c, script, w) && !w.main.Finished? && i < c.threads && Acts(c, w.threads[i], i)
    ensures var p, e := script[w.main.epoch], w.main.epoch;
      && w.threads[i].pc.phase == p
      && var x := Items(c, p, i)[w.threads[i].pc.done];
         (e, x) !in w.log && Due(c, p, x)
  {
    hide Items, Due, Distinct, Owner;
    var p, e, k := script[w.main.epoch], w.main.epoch, w.threads[i].pc.done;
    var x := Items(c, p, i)[k];
    assert x in Items(c, p, i);
    ItemsPartition(c, p, i, x);
    if (e, x) in w.log {
      var n :| 0 <= n < |w.threads| && DoneBy(c, p, w.main, w.threads[n], n, x);
      var j :| 0 <= j < DoneCount(c, p, w.main, w.threads[n], n) && j < |Items(c, p, n)| && Items(c, p, n)[j] == x;
      assert Items(c, p, n)[j] in Items(c, p, n);
      ItemsPartition(c, p, n, x);
      SamePlace(c, p, i, j, k);
      assert false;
    }
  }

  /** When a thread evaluates a node, its reset is in the log. */
  lemma ResetDone(c: Config, script: seq<Phase>, w: World, i: nat)
    requires Inv(c, script, w) && !w.main.Finished? && i < c.threads && Acts(c, w.threads[i], i)
    requires w.threads[i].pc.phase == script[w.main.epoch]
    requires Items(c, script[w.main.epoch], i)[w.threads[i].pc.done].op in {EvalRouter, EvalEndpoint}
    ensures var x := Items(c, script[w.main.epoch], i)[w.threads[i].pc.done];
      (w.main.epoch, Task(ResetOf(x.op), x.node)) in w.log
  {
    var p, e, k := script[w.main.epoch], w.main.epoch, w.threads[i].pc.done;
    var x := Items(c, p, i)[k];
    assert x in Items(c, p, i);
    ItemsPartition(c, p, i, x);
    assert p == Eval;
    hide Items, Due, Distinct, Owner;
    ResetEarlier(c, i, k);
    var j :| 0 <= j < k && Items(c, Eval, i)[j] == Task(ResetOf(x.op), x.node);
    assert DoneBy(c, p, w.main, w.threads[i], i, Task(ResetOf(x.op), x.node));
    assert DoneInCall(c, p, w.main, w.threads, Task(ResetOf(x.op), x.node));
  }

  lemma ResetAppend(log: seq<(nat, Task)>, e: nat, x: Task)
    requires ResetFirst(log)
    requires x.op in {EvalRouter, EvalEndpoint} ==> (e, Task(ResetOf(x.op), x.node)) in log
    ensures ResetFirst(log + [(e, x)])
  {
    var log' := log + [(e, x)];
    forall j | 0 <= j < |log'| ensures log'[..j] == log[..j] && (j < |log| ==> log'[j] == log[j]) {
    }
    assert log[..|log|] == log;
  }

  lemma LogAppendOk(log: seq<(nat, Task)>, e: nat, x: Task)
    requires Distinct(log) && (e, x) !in log
    requires forall i, j :: 0 <= i < j < |log| ==> log[i].0 <= log[j].0
    requires forall f, t :: (f, t) in log ==> f <= e
    ensures var log' := log + [(e, x)];
      && Distinct(log') && (forall i, j :: 0 <= i < j < |log'| ==> log'[i].0 <= log'[j].0)
      && forall y :: y in log' <==> y in log || y == (e, x)
  {
    forall i | 0 <= i < |log| ensures log[i] in log && log[i].0 <= e {
      assert (log[i].0, log[i].1) == log[i];
    }
  }

  /** What a thread has done after its step: what it had done, and the action it does. */
  lemma DoneByMoved(c: Config, p: Phase, m: Main, t: Thread, i: nat, x: Task)
    requires c.threads > 0 && ThreadOk(c, p, m, t, i) && (i == 0 ==> m.Running?)
    ensures DoneBy(c, p, m, Moved(c, t, i), i, x) <==>
      DoneBy(c, p, m, t, i, x) || (Acts(c, t, i) && x == Items(c, p, i)[t.pc.done])
  {
    hide Items, ThreadOk, Moved;
    MovedOk(c, p, m, t, i);
    if Acts(c, t, i) {
      assert 0 <= t.pc.done < |Items(c, p, i)|;
      assert Items(c, p, i)[t.pc.done] == Items(c, p, i)[t.pc.done];
    }
  }

  /** Thread `i` is about to do this task. */
  ghost predicate Does(c: Config, p: Phase, t: Thread, i: nat, x: Task)
    requires c.threads > 0
  {
    Acts(c, t, i) && t.pc.phase == p && x == Items(c, p, i)[t.pc.done]
  }

  /** A step of thread `i`, seen in the log: it grows by the action done. */
  lemma LogMoved(c: Config, script: seq<Phase>, w: World, i: nat, x: Task)
    requires Inv(c, script, w) && !w.main.Finished? && i < c.threads && (i == 0 ==> w.main.Running?)
    ensures var p, e := script[w.main.epoch], w.main.epoch;
      (e, x) in ThreadStep(c, w, i, e).log <==>
        DoneInCall(c, p, w.main, w.threads, x) || Does(c, p, w.threads[i], i, x)
  {
    hide Items, Due, Distinct, DoneInCall, ThreadOk, Moved;
    assert EpochOf(script, w.main) == w.main.epoch;
    if Acts(c, w.threads[i], i) { ActionNew(c, script, w, i); }
  }

  /** The same step, seen in what the threads have done. */
  lemma DoneMoved(c: Config, p: Phase, m: Main, threads: seq<Thread>, i: nat, x: Task)
    requires c.threads > 0 && i < |threads| && ThreadOk(c, p, m, threads[i], i) && (i == 0 ==> m.Running?)
    ensures var threads' := threads[i := Moved(c, threads[i], i)];
      DoneInCall(c, p, m, threads', x) <==> DoneInCall(c, p, m, threads, x) || Does(c, p, threads[i], i, x)
  {
    var t, threads' := threads[i], threads[i := Moved(c, threads[i], i)];
    assert Acts(c, t, i) ==> t.pc.phase == p && t.pc.done < |Items(c, p, i)|;
    DoneByMoved(c, p, m, t, i, x);
    hide Items, DoneBy, ThreadOk, Moved;
    if DoneInCall(c, p, m, threads, x) {
      var n :| 0 <= n < |threads| && DoneBy(c, p, m, threads[n], n, x);
      assert DoneBy(c, p, m, threads'[n], n, x);
    }
    if Does(c, p, t, i, x) { assert DoneBy(c, p, m, threads'[i], i, x); }
    if DoneInCall(c, p, m, threads', x) {
      var n :| 0 <= n < |threads| && DoneBy(c, p, m, threads'[n], n, x);
      assert n != i ==> DoneBy(c, p, m, threads[n], n, x);
    }
  }

  /** The log with the action of thread `i`. */
  lemma StepAppend(c: Config, script: seq<Phase>, w: World, i: nat)
    requires Inv(c, script, w) && !w.main.Finished? && i < c.threads && Acts(c, w.threads[i], i)
    ensures var p, e, k := script[w.main.epoch], w.main.epoch, w.threads[i].pc.done;
      && w.threads[i].pc.phase == p
      && var x := Items(c, p, i)[k];
         var log' := w.log + [(e, x)];
         && Due(c, p, x) && Distinct(log') && ResetFirst(log')
         && (forall j, n :: 0 <= j < n < |log'| ==> log'[j].0 <= log'[n].0)
         && forall y :: y in log' <==> y in w.log || y == (e, x)
  {
    hide Items, Due, Distinct, ResetFirst, ThreadsOk, DoneInCall;
    ActionNew(c, script, w, i);
    var x := Items(c, script[w.main.epoch], i)[w.threads[i].pc.done];
    LogAppendOk(w.log, w.main.epoch, x);
    if x.op in {EvalRouter, EvalEndpoint} { ResetDone(c, script, w, i); }
    ResetAppend(w.log, w.main.epoch, x);
  }

  /** So the log keeps step with the threads. */
  lemma ThreadStepLog(c: Config, script: seq<Phase>, w: World, i: nat)
    requires Inv(c, script, w) && !w.main.Finished? && i < c.threads && (i == 0 ==> w.main.Running?)
    ensures LogOk(c, script, ThreadStep(c, w, i, w.main.epoch))
  {
    hide Items, Due, Distinct, DoneInCall, ThreadOk, Moved, Does, ResetFirst;
    var p, e, t := script[w.main.epoch], w.main.epoch, w.threads[i];
    var w' := ThreadStep(c, w, i, e);
    assert ThreadOk(c, p, w.main, t, i);
    if Acts(c, t, i) {
      StepAppend(c, script, w, i);
    }
    forall x ensures (e, x) in w'.log <==> DoneInCall(c, p, w.main, w'.threads, x) {
      LogMoved(c, script, w, i, x);
      DoneMoved(c, p, w.main, w.threads, i, x);
    }
  }

  lemma WorkerInv(c: Config, script: seq<Phase>, w: World, i: nat)
    requires Inv(c, script, w) && 0 < i < c.threads
    ensures Inv(c, script, ThreadStep(c, w, i, EpochOf(script, w.main)))
  {
    var w' := ThreadStep(c, w, i, EpochOf(script, w.main));
    if w.main.Finished? {
      assert Idle(w.threads[i], i);
      assert w'.log == w.log;
    } else {
      var p := script[w.main.epoch];
      assert ThreadOk(c, p, w.main, w.threads[i], i);
      MovedOk(c, p, w.main, w.threads[i], i);
      ThreadStepLog(c, script, w, i);
      hide LogOk, ThreadOk, Moved;
    }
  }

  lemma RunningInv(c: Config, script: seq<Phase>, w: World)
    requires Inv(c, script, w) && w.main.Running?
    ensures Inv(c, script, MainStep(c, script, w))
  {
    var e := w.main.epoch;
    var p, w1, w' := script[e], ThreadStep(c, w, 0, e), MainStep(c, script, w);
    assert ThreadOk(c, p, w.main, w.threads[0], 0);
    MovedOk(c, p, w.main, w.threads[0], 0);
    ThreadStepLog(c, script, w, 0);
    assert w1.threads == w.threads[0 := Moved(c, w.threads[0], 0)] && w1.main == w.main;
    hide Items, Due, Distinct, Moved, ThreadStep, Acts;
    if w1.threads[0].pc == Out {
      forall n | 0 <= n < c.threads ensures ThreadOk(c, p, w'.main, w'.threads[n], n) {
        assert ThreadOk(c, p, w.main, w.threads[n], n);
      }
      SameDone(c, p, w.main, w'.main, w1.threads);
    }
  }

  /** Once all flags have been raised, what counts as done does not depend on the main thread. */
  lemma SameDone(c: Config, p: Phase, m: Main, m': Main, threads: seq<Thread>)
    requires c.threads > 0
    requires forall i :: 0 <= i < |threads| ==>
      DoneCount(c, p, m, threads[i], i) == DoneCount(c, p, m', threads[i], i)
    ensures forall x :: DoneInCall(c, p, m, threads, x) <==> DoneInCall(c, p, m', threads, x)
  {
    hide DoneCount;
    forall x ensures DoneInCall(c, p, m, threads, x) <==> DoneInCall(c, p, m', threads, x) {
      forall i | 0 <= i < |threads| ensures DoneBy(c, p, m, threads[i], i, x) <==> DoneBy(c, p, m', threads[i], i, x) {
      }
    }
  }

  lemma RaiseInv(c: Config, script: seq<Phase>, w: World)
    requires Inv(c, script, w) && w.main.Raise?
    ensures Inv(c, script, MainStep(c, script, w))
  {
    hide Items, Due, Distinct;
    var e, n := w.main.epoch, w.main.next;
    var p, w' := script[e], MainStep(c, script, w);
    forall i | 0 <= i < c.threads
      ensures ThreadOk(c, p, w'.main, w'.threads[i], i)
      ensures DoneCount(c, p, w'.main, w'.threads[i], i) == DoneCount(c, p, w.main, w.threads[i], i)
    {
      assert ThreadOk(c, p, w.main, w.threads[i], i);
    }
    hide DoneCount, ThreadOk;
    forall x ensures DoneInCall(c, p, w'.main, w'.threads, x) <==> DoneInCall(c, p, w.main, w.threads, x) {
      forall i | 0 <= i < c.threads
        ensures DoneBy(c, p, w'.main, w'.threads[i], i, x) <==> DoneBy(c, p, w.main, w.threads[i], i, x)
      {
      }
    }
  }

  lemma AwaitInv(c: Config, script: seq<Phase>, w: World)
    requires Inv(c, script, w) && w.main.Await?
    ensures Inv(c, script, MainStep(c, script, w))
  {
    hide Items, Due, Distinct, DoneInCall;
    var e, n := w.main.epoch, w.main.next;
    var p, w' := script[e], MainStep(c, script, w);
    if p !in w.threads[n].flags {
      assert ThreadOk(c, p, w.main, w.threads[n], n);
      if n + 1 < c.threads {
        forall i | 0 <= i < c.threads ensures ThreadOk(c, p, w'.main, w'.threads[i], i) {
          assert ThreadOk(c, p, w.main, w.threads[i], i);
        }
        SameDone(c, p, w.main, w'.main, w.threads);
      } else {
        forall i | 0 <= i < c.threads ensures Idle(w.threads[i], i) {
          assert ThreadOk(c, p, w.main, w.threads[i], i);
        }
        CallDone(c, script, w);
        hide ThreadOk, Idle;
        NextCallInv(c, script, w, e);
      }
    }
  }

  lemma DueLimit(c: Config, q: Phase, t: Task)
    requires Due(c, q, t)
    ensures t.node < Limit(c, t.op)
  {
  }

  /** When all flags have fallen, every task of the call has been done. */
  lemma CallDone(c: Config, script: seq<Phase>, w: World)
    requires Inv(c, script, w) && w.main.Await? && forall i :: 0 <= i < c.threads ==> Idle(w.threads[i], i)
    ensures var e := w.main.epoch; forall t :: Due(c, script[e], t) ==> (e, t) in w.log
  {
    hide Items, Due, Distinct, Owner;
    var e := w.main.epoch;
    var p := script[e];
    forall t | Due(c, p, t) ensures (e, t) in w.log {
      ItemsPartition(c, p, 0, t);
      DueLimit(c, p, t);
      var i := Owner(c, t);
      ItemsPartition(c, p, i, t);
      var j :| 0 <= j < |Items(c, p, i)| && Items(c, p, i)[j] == t;
      assert DoneCount(c, p, w.main, w.threads[i], i) == |Items(c, p, i)| by { assert Idle(w.threads[i], i); }
      assert DoneBy(c, p, w.main, w.threads[i], i, t);
    }
  }

  lemma NextCallInv(c: Config, script: seq<Phase>, w: World, e: nat)
    requires c.Valid() && |w.threads| == c.threads && MainIn(c, script, w.main) && LogOk(c, script, w)
    requires w.main.Await? && e == w.main.epoch && forall i :: 0 <= i < c.threads ==> Idle(w.threads[i], i)
    requires forall t :: Due(c, script[e], t) ==> (e, t) in w.log
    ensures Inv(c, script, w.(main := Call(script, e + 1)))
  {
    hide Items, Due, Distinct;
    var w' := w.(main := Call(script, e + 1));
    if e + 1 < |script| {
      var next := e + 1;
      forall x ensures (next, x) in w'.log <==> DoneInCall(c, script[next], w'.main, w'.threads, x) {
        assert (next, x) !in w.log;
        forall i | 0 <= i < c.threads ensures !DoneBy(c, script[next], w'.main, w'.threads[i], i, x) {
          assert Idle(w.threads[i], i);
        }
      }
    }
  }

  /** Any actor's step. */
  lemma ActInv(c: Config, script: seq<Phase>, w: World, actor: nat)
    requires Inv(c, script, w)
    ensures Inv(c, script, Act(c, script, w, actor))
  {
    hide LogOk, ThreadsOk;
    if 0 < actor < c.threads {
      WorkerInv(c, script, w, actor);
    } else {
      match w.main
      case Raise(e, n) => RaiseInv(c, script, w);
      case Running(e) => RunningInv(c, script, w);
      case Await(e, n) => AwaitInv(c, script, w);
      case Finished =>
    }
  }

  // ---------- every interleaving ----------

  /** The world after any sequence of turns. */
  ghost function Run(c: Config, script: seq<Phase>, turns: seq<nat>): (w: World)
    requires c.Valid()
    ensures Inv(c, script, w)
    decreases |turns|
  {
    if turns == [] then
      StartInv(c, script);
      Start(c, script)
    else
      var w0 := Run(c, script, turns[..|turns| - 1]);
      ActInv(c, script, w0, turns[|turns| - 1]);
      Act(c, script, w0, turns[|turns| - 1])
  }

  /** Once the main thread is through, each call has done each task of its phase exactly once and nothing else, and
      calls have followed one another without overlap. */
  lemma AllDone(c: Config, script: seq<Phase>, turns: seq<nat>)
    requires c.Valid() && Run(c, script, turns).main.Finished?
    ensures var log := Run(c, script, turns).log;
      && Distinct(log) && (forall i, j :: 0 <= i < j < |log| ==> log[i].0 <= log[j].0) && ResetFirst(log)
      && forall e: nat, t {:trigger (e, t) in log} :: (e, t) in log <==> e < |script| && Due(c, script[e], t)
  {
    hide Run, Distinct, Due;
    var w := Run(c, script, turns);
    assert LogOk(c, script, w);
  }

  // ---------- no deadlock ----------

  /** How many of its own steps thread `i` can still take before it spins. */
  ghost function ThreadRank(c: Config, p: Phase, t: Thread, i: nat): nat
    requires c.threads > 0
  {
    var all := |Items(c, p, i)|;
    match t.pc
    case Out => 0
    case Spin(q) => if p in t.flags then all + 9 + (Order(p) - Order(q) + 3) % 3 else 0
    case Test(q) =>
      if p !in t.flags then 3 - Order(q)
      else if Order(q) <= Order(p) then all + 6 + Order(p) - Order(q)
      else all + 15 - Order(q)
    case Work(q, k) => if k <= all then all - k + 5 else 0
  }

  ghost function RankSum(c: Config, p: Phase, threads: seq<Thread>): nat
    requires c.threads > 0
  {
    if threads == [] then 0
    else RankSum(c, p, threads[..|threads| - 1]) + ThreadRank(c, p, threads[|threads| - 1], |threads| - 1)
  }

  lemma {:induction false} RankSumStep(c: Config, p: Phase, threads: seq<Thread>, i: nat, t: Thread)
    requires c.threads > 0 && i < |threads|
    ensures RankSum(c, p, threads[i := t])
         == RankSum(c, p, threads) - ThreadRank(c, p, threads[i], i) + ThreadRank(c, p, t, i)
  {
    hide ThreadRank;
    var m := |threads| - 1;
    if i < m {
      RankSumStep(c, p, threads[..m], i, t);
      assert threads[i := t][..m] == threads[..m][i := t];
    } else {
      assert threads[i := t][..m] == threads[..m];
    }
  }

  /** What the main thread still has to do in its call. */
  ghost function MainRank(c: Config, m: Main): int {
    match m
    case Raise(e, n) => 2 * c.threads + 2 - n
    case Running(e) => c.threads + 1
    case Await(e, n) => c.threads - n
    case Finished => 0
  }

  /** Less is left: fewer calls, or less for the main thread in this call, or less for the threads. */
  ghost predicate Nearer(c: Config, script: seq<Phase>, w: World, w': World)
    requires c.threads > 0 && MainIn(c, script, w.main) && MainIn(c, script, w'.main)
  {
    || EpochOf(script, w'.main) > EpochOf(script, w.main)
    || (EpochOf(script, w'.main) == EpochOf(script, w.main) < |script|
        && (MainRank(c, w'.main) < MainRank(c, w.main)
            || (w'.main == w.main
                && var p := script[EpochOf(script, w.main)]; RankSum(c, p, w'.threads) < RankSum(c, p, w.threads))))
  }

  /** The thread waits, and there is nothing to wait for yet. */
  predicate IdleSpin(t: Thread) { t.pc.Spin? && t.flags == {} }

  /** The next step of this worker only reads a flag that is down, while all its flags are. */
  predicate Spins(c: Config, w: World, actor: nat) {
    0 < actor < c.threads && actor < |w.threads| && IdleSpin(w.threads[actor])
  }

  lemma MovedRank(c: Config, p: Phase, m: Main, t: Thread, i: nat)
    requires c.threads > 0 && ThreadOk(c, p, m, t, i) && Moved(c, t, i) != t && !IdleSpin(t)
    ensures ThreadRank(c, p, Moved(c, t, i), i) < ThreadRank(c, p, t, i)
  {
    hide Items;
  }

  /** Every step that changes anything brings the calls nearer to their end, unless it is a worker's turn to read a flag
      in vain; so no schedule can go on forever but by spinning. */
  lemma StepNearer(c: Config, script: seq<Phase>, w: World, actor: nat)
    requires Inv(c, script, w) && !w.main.Finished? && Act(c, script, w, actor) != w && !Spins(c, w, actor)
    ensures MainIn(c, script, Act(c, script, w, actor).main) && Nearer(c, script, w, Act(c, script, w, actor))
  {
    hide LogOk, Items, ThreadRank, RankSum;
    var p, w' := script[w.main.epoch], Act(c, script, w, actor);
    if 0 < actor < c.threads {
      assert ThreadOk(c, p, w.main, w.threads[actor], actor);
      MoveNearer(c, p, w, actor);
    } else if w.main.Running? {
      assert ThreadOk(c, p, w.main, w.threads[0], 0);
      MoveNearer(c, p, w, 0);
    }
  }

  lemma MoveNearer(c: Config, p: Phase, w: World, i: nat)
    requires c.threads > 0 && i < |w.threads| && ThreadOk(c, p, w.main, w.threads[i], i) && !IdleSpin(w.threads[i])
    ensures var t := Moved(c, w.threads[i], i);
      && (t == w.threads[i] ==> w.threads[i := t] == w.threads && !Acts(c, w.threads[i], i))
      && (t != w.threads[i] ==> RankSum(c, p, w.threads[i := t]) < RankSum(c, p, w.threads))
  {
    hide Items, ThreadRank, RankSum;
    var t := Moved(c, w.threads[i], i);
    RankSumStep(c, p, w.threads, i, t);
    if t != w.threads[i] { MovedRank(c, p, w.main, w.threads[i], i); }
  }

  /** Reading a flag in vain takes nothing back: all but the reader's place in its loop stays as it was. */
  lemma SpinHarmless(c: Config, script: seq<Phase>, w: World, actor: nat)
    requires Inv(c, script, w) && !w.main.Finished? && Spins(c, w, actor)
    ensures var w', p := Act(c, script, w, actor), script[w.main.epoch];
      && w'.main == w.main && w'.log == w.log && Spins(c, w', actor)
      && RankSum(c, p, w'.threads) == RankSum(c, p, w.threads)
  {
    hide LogOk, Items, RankSum;
    var p, t := script[w.main.epoch], w.threads[actor];
    RankSumStep(c, p, w.threads, actor, Moved(c, t, actor));
  }

  /** Until the main thread is through, some thread can do more than spin. */
  lemma NeverStuck(c: Config, script: seq<Phase>, w: World)
    requires Inv(c, script, w) && !w.main.Finished?
    ensures exists actor :: 0 <= actor < c.threads && Act(c, script, w, actor) != w && !Spins(c, w, actor)
  {
    hide LogOk, Items;
    var p := script[w.main.epoch];
    match w.main
    case Raise(e, n) =>
      assert Act(c, script, w, 0).main != w.main;
    case Running(e) =>
      assert ThreadOk(c, p, w.main, w.threads[0], 0);
      assert Moved(c, w.threads[0], 0) != w.threads[0];
      assert Act(c, script, w, 0) != w;
    case Await(e, n) =>
      assert ThreadOk(c, p, w.main, w.threads[n], n);
      if p in w.threads[n].flags {
        assert Moved(c, w.threads[n], n) != w.threads[n];
        assert Act(c, script, w, n).threads[n] != w.threads[n];
      } else {
        assert Act(c, script, w, 0).main != w.main;
      }
  }
}

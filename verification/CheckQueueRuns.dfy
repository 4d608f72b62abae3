/**
 All interleavings of one master and any number of workers over a check queue.
 Thread 0 is the master; the others are workers, which start at any time and
 never leave.  A step is one critical section (`CheckQueue`), one unlocked
 evaluation of a check, or a step of the controller object that the master uses.
 */
module CheckQueueRuns {
  import opened CheckQueue

  datatype Thread =
    | Outside                                           // not in Loop
    | Waiting(notified: bool)                           // blocked in cond.wait
    | Working(rest: seq<Check>, nNow: nat, fOk: bool)   // executing a batch without the lock

  /** The CCheckQueueControl of the master. */
  datatype Control = Gone | Live(fDone: bool)

  datatype State = State(shared: Shared, threads: seq<Thread>, control: Control)

  datatype Label =
    | Construct(assertion: bool)        // new controller; `assertion` is the value it asserts
    | Add(checks: seq<Check>)
    | Enter(t: nat, out: Outcome)       // first iteration, or the end of a batch
    | Exec(t: nat)                      // one check of the thread's batch
    | Wake(t: nat, out: Outcome)        // a wait ends, possibly spuriously
    | Destroy

  // ---------------------------------------------------------------- the steps

  function After(out: Outcome): Thread {
    match out
    case Return(_) => Outside
    case Sleep => Waiting(false)
    case Batch(checks, fOk) => Working(checks, |checks|, fOk)
  }

  function ControlAfter(c: Control, out: Outcome): Control {
    if out.Return? && c.Live? then Live(true) else c
  }

  function NotifyThread(t: Thread): Thread {
    if t.Waiting? then Waiting(true) else t
  }

  predicate Unnotified(t: Thread) {
    t.Waiting? && !t.notified
  }

  /** The effect of condWorker.notify_one and notify_all: a chosen waiting worker,
      if there is one, or every waiting worker. */
  ghost predicate Notified(notify: Notify, ts: seq<Thread>, ts': seq<Thread>)
    requires 0 < |ts|
  {
    match notify
    case Nobody => ts' == ts
    case One =>
      if exists k :: 1 <= k < |ts| && Unnotified(ts[k])
      then exists k :: 1 <= k < |ts| && Unnotified(ts[k]) && ts' == ts[k := Waiting(true)]
      else ts' == ts
    case All =>
      && |ts'| == |ts| && ts'[0] == ts[0]
      && forall k :: 1 <= k < |ts| ==> ts'[k] == NotifyThread(ts[k])
  }

  /** Whether thread t stands before the critical section at the top of Loop. */
  predicate AtEnter(s: State, t: nat) {
    && t < |s.threads|
    && match s.threads[t]
       case Outside => t == 0 ==> s.control.Live?
       case Working(rest, _, _) => rest == []
       case Waiting(_) => false
  }

  function EnterShared(s: State, t: nat): Shared
    requires AtEnter(s, t)
  {
    match s.threads[t]
    case Working(_, nNow, fOk) => CleanUp(s.shared, nNow, fOk)
    case _ => CleanUp(s.shared, 0, true)
  }

  /** Whether the clean-up of thread t notifies the master. */
  predicate NotifiesMaster(s: State, t: nat)
    requires AtEnter(s, t)
  {
    s.threads[t].Working? && t != 0 && s.threads[t].nNow != 0 && EnterShared(s, t).nTodo == 0
  }

  function EnterThreads(s: State, t: nat, out: Outcome): seq<Thread>
    requires AtEnter(s, t) && 0 < |s.threads|
  {
    var ts := s.threads[t := After(out)];
    if NotifiesMaster(s, t) then ts[0 := NotifyThread(ts[0])] else ts
  }

  function ExecThread(t: Thread): Thread
    requires t.Working? && t.rest != []
  {
    Working(t.rest[1..], t.nNow, t.fOk && t.rest[0].verdict)
  }

  ghost predicate Next(nBatchSize: nat, s: State, l: Label, s': State)
    requires 0 < |s.threads|
  {
    match l
    case Construct(assertion) =>
      s.threads[0].Outside? && s.control.Gone? && assertion == Idle(s.shared) && s' == s.(control := Live(false))
    case Add(checks) =>
      && s.threads[0].Outside? && s.control.Live?
      && s'.shared == AddTo(s.shared, checks) && s'.control == s.control
      && Notified(WhomToNotify(checks), s.threads, s'.threads)
    case Enter(t, out) =>
      && AtEnter(s, t)
      && (s'.shared, out) == LoopHead(EnterShared(s, t), t == 0, nBatchSize)
      && s'.threads == EnterThreads(s, t, out) && s'.control == ControlAfter(s.control, out)
    case Exec(t) =>
      && t < |s.threads| && s.threads[t].Working? && s.threads[t].rest != []
      && s' == s.(threads := s.threads[t := ExecThread(s.threads[t])])
    case Wake(t, out) =>
      && t < |s.threads| && s.threads[t].Waiting?
      && (s'.shared, out) == LoopHead(s.shared.(nIdle := s.shared.nIdle - 1), t == 0, nBatchSize)
      && s'.threads == s.threads[t := After(out)] && s'.control == ControlAfter(s.control, out)
    case Destroy =>
      s.threads[0].Outside? && s.control == Live(true) && s' == s.(control := Gone)
  }

  ghost predicate Init(s: State) {
    && s.shared == FRESH && s.control == Gone && 0 < |s.threads|
    && forall i :: 0 <= i < |s.threads| ==> s.threads[i] == Outside
  }

  /** A run: states[i] --labels[i]--> states[i+1], from a fresh queue. */
  ghost predicate IsRun(nBatchSize: nat, states: seq<State>, labels: seq<Label>) {
    && |states| == |labels| + 1
    && Init(states[0])
    && (forall i :: 0 <= i < |states| ==> 0 < |states[i].threads|)
    && forall i :: 0 <= i < |labels| ==> Next(nBatchSize, states[i], labels[i], states[i + 1])
  }

  // ------------------------------------------------ what the labels alone say

  predicate Returns(l: Label) {
    (l.Enter? || l.Wake?) && l.out.Return?
  }

  /** The checks added since the last time Wait returned. */
  function Pending(labels: seq<Label>): seq<Check> {
    if labels == [] then []
    else
      var l, before := labels[|labels| - 1], Pending(labels[..|labels| - 1]);
      if Returns(l) then [] else if l.Add? then before + l.checks else before
  }

  // ------------------------------------------------------------- the counters

  function Total(ts: seq<Thread>, f: Thread -> int): int {
    if ts == [] then 0 else f(ts[0]) + Total(ts[1..], f)
  }

  lemma {:induction false} TotalUpdate(ts: seq<Thread>, f: Thread -> int, i: nat, t: Thread)
    requires i < |ts|
    ensures Total(ts[i := t], f) == Total(ts, f) - f(ts[i]) + f(t)
  {
    if i == 0 {
      assert ts[0 := t][1..] == ts[1..];
    } else {
      assert ts[i := t][1..] == ts[1..][i - 1 := t];
      TotalUpdate(ts[1..], f, i - 1, t);
    }
  }

  lemma {:induction false} TotalPointwise(ts: seq<Thread>, ts': seq<Thread>, f: Thread -> int)
    requires |ts| == |ts'| && forall i :: 0 <= i < |ts| ==> f(ts[i]) == f(ts'[i])
    ensures Total(ts, f) == Total(ts', f)
  {
    if ts != [] {
      assert forall i :: 0 <= i < |ts[1..]| ==> ts[1..][i] == ts[i + 1] && ts'[1..][i] == ts'[i + 1];
      TotalPointwise(ts[1..], ts'[1..], f);
    }
  }

  lemma {:induction false} TotalNonNegative(ts: seq<Thread>, f: Thread -> int)
    requires forall i :: 0 <= i < |ts| ==> 0 <= f(ts[i])
    ensures 0 <= Total(ts, f)
    ensures forall i :: 0 <= i < |ts| ==> f(ts[i]) <= Total(ts, f)
  {
    if ts != [] {
      assert forall i :: 0 <= i < |ts[1..]| ==> ts[1..][i] == ts[i + 1];
      TotalNonNegative(ts[1..], f);
      forall i | 0 <= i < |ts| ensures f(ts[i]) <= Total(ts, f) {
        if i != 0 {
          assert ts[i] == ts[1..][i - 1];
        }
      }
    }
  }

  lemma {:induction false} TotalPositive(ts: seq<Thread>, f: Thread -> int) returns (i: nat)
    requires 0 < Total(ts, f)
    ensures i < |ts| && 0 < f(ts[i])
  {
    if 0 < f(ts[0]) {
      i := 0;
    } else {
      i := TotalPositive(ts[1..], f);
      i := i + 1;
    }
  }

  function Load(t: Thread): int { if t.Working? then t.nNow else 0 }
  function Sleeps(t: Thread): int { if t.Waiting? then 1 else 0 }
  function Inside(t: Thread): int { if t.Outside? then 0 else 1 }
  function Busy(t: Thread): int { if t.Working? then 1 else 0 }

  // ------------------------------------------------------------ the invariant

  predicate ThreadOk(t: Thread) {
    t.Working? ==> t.fOk && AllOk(t.rest)
  }

  ghost predicate AllThreadsOk(ts: seq<Thread>) {
    forall i :: 0 <= i < |ts| ==> ThreadOk(ts[i])
  }

  /** No failure is recorded, and none is still to be found. */
  ghost predicate Clean(sh: Shared, ts: seq<Thread>) {
    sh.fAllOk && AllOk(sh.queue) && AllThreadsOk(ts)
  }

  predicate ThreadValid(t: Thread) {
    t.Working? ==> |t.rest| <= t.nNow && 1 <= t.nNow
  }

  ghost predicate Inv(s: State, added: seq<Check>) {
    && 0 < |s.threads|
    && (forall i :: 0 <= i < |s.threads| ==> ThreadValid(s.threads[i]))
    && s.shared.nTotal == Total(s.threads, Inside)
    && s.shared.nIdle == Total(s.threads, Sleeps)
    && s.shared.nTodo == |s.shared.queue| + Total(s.threads, Load)
    && s.shared.nTodo <= |added|
    && (Clean(s.shared, s.threads) <==> AllOk(added))
    && (s.threads[0].Waiting? ==> s.shared.queue == [])
    && (Unnotified(s.threads[0]) ==> s.shared.nTodo != 0)
    && (!s.threads[0].Outside? ==> s.control.Live?)
  }

  lemma InitEstablishesInv(s: State)
    requires Init(s)
    ensures Inv(s, [])
  {
    AllOutside(s.threads, Inside);
    AllOutside(s.threads, Sleeps);
    AllOutside(s.threads, Load);
  }

  lemma {:induction false} AllOutside(ts: seq<Thread>, f: Thread -> int)
    requires f(Outside) == 0 && forall i :: 0 <= i < |ts| ==> ts[i] == Outside
    ensures Total(ts, f) == 0
  {
    if ts != [] {
      AllOutside(ts[1..], f);
    }
  }

  lemma CountersAfter(ts: seq<Thread>, i: nat, t: Thread)
    requires i < |ts|
    ensures Total(ts[i := t], Inside) == Total(ts, Inside) - Inside(ts[i]) + Inside(t)
    ensures Total(ts[i := t], Sleeps) == Total(ts, Sleeps) - Sleeps(ts[i]) + Sleeps(t)
    ensures Total(ts[i := t], Load) == Total(ts, Load) - Load(ts[i]) + Load(t)
  {
    TotalUpdate(ts, Inside, i, t);
    TotalUpdate(ts, Sleeps, i, t);
    TotalUpdate(ts, Load, i, t);
  }

  lemma CountersNonNegative(ts: seq<Thread>)
    ensures 0 <= Total(ts, Sleeps) <= Total(ts, Inside)
    ensures Total(ts, Inside) == Total(ts, Sleeps) + Total(ts, Busy)
    ensures 0 <= Total(ts, Load)
    ensures forall i :: 0 <= i < |ts| ==> Load(ts[i]) <= Total(ts, Load)
  {
    TotalNonNegative(ts, Sleeps);
    TotalNonNegative(ts, Load);
    TotalNonNegative(ts, Busy);
    InsideSplits(ts);
  }

  lemma {:induction false} InsideSplits(ts: seq<Thread>)
    ensures Total(ts, Inside) == Total(ts, Sleeps) + Total(ts, Busy)
  {
    if ts != [] {
      InsideSplits(ts[1..]);
    }
  }

  /** Replacing one good thread changes AllThreadsOk only by the new one. */
  lemma ThreadsOkAfter(ts: seq<Thread>, i: nat, t: Thread)
    requires i < |ts|
    ensures AllThreadsOk(ts[i := t]) && ThreadOk(ts[i]) <==> AllThreadsOk(ts) && ThreadOk(t)
    ensures AllThreadsOk(ts[i := t]) ==> ThreadOk(t)
  {
    var ts' := ts[i := t];
    assert ts'[i] == t;
    if AllThreadsOk(ts') && ThreadOk(ts[i]) {
      assert ThreadOk(ts'[i]);
      forall k | 0 <= k < |ts| ensures ThreadOk(ts[k]) {
        assert ThreadOk(ts'[k]);
      }
    }
  }

  // ------------------------------------------- every step keeps the invariant

  /** Stands for a thread that holds the lock between its clean-up and its next move. */
  const HELD := Working([], 0, true)

  /** The invariant while thread t holds the lock and nothing else. */
  ghost predicate MidInv(sh: Shared, ts: seq<Thread>, control: Control, t: nat, added: seq<Check>) {
    && t < |ts| && ts[t] == HELD
    && (forall i :: 0 <= i < |ts| && i != t ==> ThreadValid(ts[i]))
    && sh.nTotal == Total(ts, Inside)
    && sh.nIdle == Total(ts, Sleeps)
    && sh.nTodo == |sh.queue| + Total(ts, Load) <= |added|
    && (Clean(sh, ts) <==> AllOk(added))
    && (ts[0].Waiting? ==> sh.queue == [])
    && (Unnotified(ts[0]) ==> sh.nTodo != 0)
    && (!ts[0].Outside? ==> control.Live?)
  }

  lemma LoopHeadKeepsInv(nBatchSize: nat, sh: Shared, ts: seq<Thread>, control: Control, t: nat, added: seq<Check>)
    requires MidInv(sh, ts, control, t, added)
    ensures var (sh', out) := LoopHead(sh, t == 0, nBatchSize);
            && Inv(State(sh', ts[t := After(out)], ControlAfter(control, out)), if out.Return? then [] else added)
            && (out.Return? ==> t == 0 && (out.verdict <==> AllOk(added)))
            && (out.Batch? ==> 1 <= |out.checks| <= |sh.queue|)
  {
    var (sh', out) := LoopHead(sh, t == 0, nBatchSize);
    CountersAfter(ts, t, After(out));
    CountersNonNegative(ts);
    ThreadsOkAfter(ts, t, After(out));
    if out.Batch? {
      FromBackAllOk(sh.queue, |out.checks|);
    } else if out.Return? {
      forall i | 0 <= i < |ts| ensures ThreadOk(ts[i]) {
        assert Load(ts[i]) <= 0;
      }
    }
  }

  /** The state in which thread t, having passed its clean-up, holds the lock. */
  function HeldThreads(s: State, t: nat): seq<Thread>
    requires AtEnter(s, t)
  {
    (if NotifiesMaster(s, t) then s.threads[0 := NotifyThread(s.threads[0])] else s.threads)[t := HELD]
  }

  lemma EnterReachesMid(s: State, t: nat, added: seq<Check>)
    requires Inv(s, added) && AtEnter(s, t)
    ensures MidInv(EnterShared(s, t), HeldThreads(s, t), s.control, t, added)
    ensures 0 <= EnterShared(s, t).nTodo
  {
    var ts := s.threads;
    var notified := if NotifiesMaster(s, t) then ts[0 := NotifyThread(ts[0])] else ts;
    CountersAfter(ts, 0, NotifyThread(ts[0]));
    ThreadsOkAfter(ts, 0, NotifyThread(ts[0]));
    assert ts[0 := ts[0]] == ts;
    assert notified[t] == ts[t];
    CountersAfter(notified, t, HELD);
    ThreadsOkAfter(notified, t, HELD);
    CountersNonNegative(ts);
  }

  lemma WakeReachesMid(s: State, t: nat, added: seq<Check>)
    requires Inv(s, added) && t < |s.threads| && s.threads[t].Waiting?
    ensures MidInv(s.shared.(nIdle := s.shared.nIdle - 1), s.threads[t := HELD], s.control, t, added)
  {
    CountersAfter(s.threads, t, HELD);
    ThreadsOkAfter(s.threads, t, HELD);
  }

  lemma ExecKeepsInv(s: State, t: nat, added: seq<Check>)
    requires Inv(s, added)
    requires t < |s.threads| && s.threads[t].Working? && s.threads[t].rest != []
    ensures Inv(s.(threads := s.threads[t := ExecThread(s.threads[t])]), added)
  {
    var th := s.threads[t];
    CountersAfter(s.threads, t, ExecThread(th));
    ThreadsOkAfter(s.threads, t, ExecThread(th));
    assert th.rest == [th.rest[0]] + th.rest[1..];
    AllOkConcat([th.rest[0]], th.rest[1..]);
  }

  lemma AddKeepsInv(s: State, checks: seq<Check>, s': State, added: seq<Check>)
    requires Inv(s, added) && s.threads[0].Outside?
    requires s'.shared == AddTo(s.shared, checks) && s'.control == s.control
    requires Notified(WhomToNotify(checks), s.threads, s'.threads)
    ensures Inv(s', added + checks)
  {
    var ts, ts' := s.threads, s'.threads;
    assert |ts| == |ts'| && forall i :: 0 <= i < |ts| ==> ts'[i] == ts[i] || (ts[i].Waiting? && ts'[i].Waiting?);
    TotalPointwise(ts, ts', Inside);
    TotalPointwise(ts, ts', Sleeps);
    TotalPointwise(ts, ts', Load);
    assert AllThreadsOk(ts) <==> AllThreadsOk(ts') by {
      assert forall i :: 0 <= i < |ts| ==> (ThreadOk(ts[i]) <==> ThreadOk(ts'[i]));
    }
    AllOkConcat(s.shared.queue, checks);
    AllOkConcat(added, checks);
  }

  /** The main step: every step of every thread keeps the invariant, with `added`
      following the labels, and a returning Wait reports exactly whether all
      checks added since the last return are good. */
  lemma StepKeepsInv(nBatchSize: nat, s: State, l: Label, s': State, added: seq<Check>)
    requires Inv(s, added) && Next(nBatchSize, s, l, s')
    ensures Inv(s', if Returns(l) then [] else if l.Add? then added + l.checks else added)
    ensures Returns(l) ==> (l.out.verdict <==> AllOk(added))
  {
    match l
    case Construct(_) =>
    case Destroy =>
    case Add(checks) => AddKeepsInv(s, checks, s', added);
    case Exec(t) => ExecKeepsInv(s, t, added);
    case Enter(t, out) =>
      EnterReachesMid(s, t, added);
      LoopHeadKeepsInv(nBatchSize, EnterShared(s, t), HeldThreads(s, t), s.control, t, added);
      assert HeldThreads(s, t)[t := After(out)] == EnterThreads(s, t, out);
    case Wake(t, out) =>
      WakeReachesMid(s, t, added);
      LoopHeadKeepsInv(nBatchSize, s.shared.(nIdle := s.shared.nIdle - 1), s.threads[t := HELD], s.control, t, added);
      assert s.threads[t := HELD][t := After(out)] == s.threads[t := After(out)];
  }
}

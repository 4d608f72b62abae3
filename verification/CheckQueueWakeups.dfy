/**
 Whom Add wakes up, and that this is enough: the workers get through the queue by
 themselves, before the master begins to wait.
 */
module CheckQueueWakeups {
  import opened CheckQueue
  import opened CheckQueueRuns
  import opened CheckQueueTheorems

  /** A worker that sleeps and has not been notified. */
  predicate Asleep(ts: seq<Thread>, k: nat) {
    1 <= k < |ts| && Unnotified(ts[k])
  }

  ghost predicate AnyAsleep(ts: seq<Thread>) {
    exists k: nat :: Asleep(ts, k)
  }

  /** Threads that will look at the queue without any further notification. */
  predicate Active(t: Thread) {
    t.Working? || t == Waiting(true)
  }

  ghost predicate AnyActive(ts: seq<Thread>) {
    exists k :: 0 <= k < |ts| && Active(ts[k])
  }

  // ------------------------------------------------------------------- one addition

  /** Two or more checks wake every worker, one check wakes one sleeping worker if
      there is any, and no other thread changes. */
  lemma AddWakes(nBatchSize: nat, s: State, checks: seq<Check>, s': State)
    requires 0 < |s.threads| && Next(nBatchSize, s, Add(checks), s')
    ensures |s'.threads| == |s.threads| && s'.threads[0] == s.threads[0]
    ensures forall k :: 0 <= k < |s.threads| && !Asleep(s.threads, k) ==> s'.threads[k] == s.threads[k]
    ensures |checks| >= 2 ==> forall k: nat :: Asleep(s.threads, k) ==> s'.threads[k] == Waiting(true)
    ensures |checks| == 1 && AnyAsleep(s.threads) ==>
              exists k: nat :: Asleep(s.threads, k) && s'.threads == s.threads[k := Waiting(true)]
    ensures checks == [] ==> s'.threads == s.threads
  {
    if |checks| == 1 && AnyAsleep(s.threads) {
      var ts := s.threads;
      var j: nat :| Asleep(ts, j);
      assert 1 <= j < |ts| && Unnotified(ts[j]);
      var k :| 1 <= k < |ts| && Unnotified(ts[k]) && s'.threads == ts[k := Waiting(true)];
      assert Asleep(ts, k);
    }
  }

  // -------------------------------------------------------------------- every run

  /** If something is queued, not everybody who could take it is asleep. */
  ghost predicate Awake(s: State) {
    s.shared.queue != [] && AnyAsleep(s.threads) ==> AnyActive(s.threads)
  }

  lemma AddKeepsAwake(nBatchSize: nat, s: State, checks: seq<Check>, s': State)
    requires 0 < |s.threads| && Next(nBatchSize, s, Add(checks), s') && Awake(s)
    ensures Awake(s')
  {
    AddWakes(nBatchSize, s, checks, s');
    var ts, ts' := s.threads, s'.threads;
    if AnyAsleep(ts') {
      var j: nat :| Asleep(ts', j);
      assert Asleep(ts, j);
      if |checks| == 1 {
        var k: nat :| Asleep(ts, k) && ts' == ts[k := Waiting(true)];
        assert Active(ts'[k]);
      } else if checks == [] && s'.shared.queue != [] {
        assert s'.shared.queue == s.shared.queue;
      }
    }
  }

  /** A thread that leaves the lock has a batch, or has left the queue empty. */
  lemma LeftQueue(nBatchSize: nat, sh: Shared, fMaster: bool)
    ensures var (sh', out) := LoopHead(sh, fMaster, nBatchSize); sh'.queue == [] || After(out).Working?
  {
  }

  lemma StepKeepsAwake(nBatchSize: nat, s: State, l: Label, s': State)
    requires 0 < |s.threads| && Next(nBatchSize, s, l, s') && Awake(s)
    ensures Awake(s')
  {
    hide LoopHead;
    match l
    case Construct(_) =>
    case Destroy =>
    case Add(checks) => AddKeepsAwake(nBatchSize, s, checks, s');
    case Exec(t) => assert Active(s'.threads[t]);
    case Enter(t, out) =>
      LeftQueue(nBatchSize, EnterShared(s, t), t == 0);
      assert s'.threads[t] == After(out);
    case Wake(t, out) =>
      LeftQueue(nBatchSize, s.shared.(nIdle := s.shared.nIdle - 1), t == 0);
      assert s'.threads[t] == After(out);
  }

  /** At every point of every run. */
  lemma {:induction false} RunKeepsAwake(nBatchSize: nat, states: seq<State>, labels: seq<Label>, k: nat)
    requires IsRun(nBatchSize, states, labels) && k <= |labels|
    ensures Awake(states[k])
  {
    if k > 0 {
      RunKeepsAwake(nBatchSize, states, labels, k - 1);
      StepKeepsAwake(nBatchSize, states[k - 1], labels[k - 1], states[k]);
    }
  }

  // ---------------------------------------------------- the workers need no master

  /** Some worker is in its loop. */
  ghost predicate HasWorker(s: State) {
    exists k :: 1 <= k < |s.threads| && !s.threads[k].Outside?
  }

  /** As long as there is something to do, a step that depends on no luck is possible. */
  lemma SomebodyGoesOn(nBatchSize: nat, s: State, added: seq<Check>) returns (l: Label, s': State)
    requires Inv(s, added) && Awake(s) && HasWorker(s) && s.shared.nTodo != 0
    ensures Next(nBatchSize, s, l, s') && Driven(s, l)
  {
    var t := FindActive(s, added);
    match s.threads[t]
    case Working(rest, _, _) =>
      if rest != [] {
        l, s' := Exec(t), s.(threads := s.threads[t := ExecThread(s.threads[t])]);
      } else {
        var (sh, out) := LoopHead(EnterShared(s, t), t == 0, nBatchSize);
        l, s' := Enter(t, out), State(sh, EnterThreads(s, t, out), ControlAfter(s.control, out));
      }
    case Waiting(_) =>
      var (sh, out) := LoopHead(s.shared.(nIdle := s.shared.nIdle - 1), t == 0, nBatchSize);
      l, s' := Wake(t, out), State(sh, s.threads[t := After(out)], ControlAfter(s.control, out));
  }

  lemma FindActive(s: State, added: seq<Check>) returns (t: nat)
    requires Inv(s, added) && Awake(s) && HasWorker(s) && s.shared.nTodo != 0
    ensures t < |s.threads| && Active(s.threads[t])
  {
    var ts := s.threads;
    if s.shared.queue == [] {
      CountersNonNegative(ts);
      t := TotalPositive(ts, Load);
    } else {
      var k :| 1 <= k < |ts| && !ts[k].Outside?;
      if Active(ts[k]) {
        t := k;
      } else {
        assert Asleep(ts, k);
        t :| 0 <= t < |ts| && Active(ts[t]);
      }
    }
  }

  lemma WorkerStays(nBatchSize: nat, s: State, l: Label, s': State)
    requires 0 < |s.threads| && Next(nBatchSize, s, l, s') && Driven(s, l) && HasWorker(s)
    ensures 0 < |s'.threads| && HasWorker(s')
  {
    var k :| 1 <= k < |s.threads| && !s.threads[k].Outside?;
    assert !s'.threads[k].Outside?;
  }

  /** With at least one worker in its loop, everything that is to do gets done
      within Rank driven steps, whether or not the master waits. */
  lemma WorkersFinish(nBatchSize: nat, s: State, added: seq<Check>) returns (states: seq<State>, labels: seq<Label>)
    requires Inv(s, added) && Awake(s) && HasWorker(s)
    ensures DrivenRun(nBatchSize, s, states, labels) && |labels| <= Rank(s)
    ensures states[|labels|].shared.nTodo == 0
    decreases Rank(s)
  {
    RankIsNonNegative(s);
    states, labels := [s], [];
    if s.shared.nTodo != 0 {
      var l, s1 := SomebodyGoesOn(nBatchSize, s, added);
      DrivenStepsLowerRank(nBatchSize, s, l, s1, added);
      StepKeepsInv(nBatchSize, s, l, s1, added);
      StepKeepsAwake(nBatchSize, s, l, s1);
      WorkerStays(nBatchSize, s, l, s1);
      RankIsNonNegative(s1);
      var more, ls := WorkersFinish(nBatchSize, s1, if Returns(l) then [] else added);
      states, labels := [s] + more, [l] + ls;
      forall i | 0 <= i < |labels|
        ensures 0 < |states[i].threads| && Next(nBatchSize, states[i], labels[i], states[i + 1]) && Driven(states[i], labels[i])
      {
        if 0 < i {
          assert states[i] == more[i - 1] && labels[i] == ls[i - 1] && states[i + 1] == more[i];
        }
      }
      assert states[|labels|] == more[|ls|];
    }
  }
}

/**
 What holds of every run of the check queue: the verdict of Wait, the counters,
 the controller's assertion, and that a waiting master is never left alone.
 */
module CheckQueueTheorems {
  import opened CheckQueue
  import opened CheckQueueRuns

  // ------------------------------------------------------------------- safety

  lemma {:induction false} RunKeepsInv(nBatchSize: nat, states: seq<State>, labels: seq<Label>, k: nat)
    requires IsRun(nBatchSize, states, labels) && k <= |labels|
    ensures Inv(states[k], Pending(labels[..k]))
  {
    if k == 0 {
      InitEstablishesInv(states[0]);
    } else {
      RunKeepsInv(nBatchSize, states, labels, k - 1);
      StepKeepsInv(nBatchSize, states[k - 1], labels[k - 1], states[k], Pending(labels[..k - 1]));
      assert labels[..k][..k - 1] == labels[..k - 1];
    }
  }

  /** In every interleaving, over any number of rounds, a returning Wait says true
      exactly when every check added since the previous return evaluates to true. */
  lemma WaitIsExact(nBatchSize: nat, states: seq<State>, labels: seq<Label>, k: nat)
    requires IsRun(nBatchSize, states, labels) && k < |labels| && Returns(labels[k])
    ensures labels[k].out.verdict <==> AllOk(Pending(labels[..k]))
  {
    RunKeepsInv(nBatchSize, states, labels, k);
    StepKeepsInv(nBatchSize, states[k], labels[k], states[k + 1], Pending(labels[..k]));
  }

  /** At every release of the lock: nTodo counts the queued and the in-flight
      checks, nTotal - nIdle the threads with a batch, and nothing is negative. */
  lemma CountersAreExact(nBatchSize: nat, states: seq<State>, labels: seq<Label>, k: nat)
    requires IsRun(nBatchSize, states, labels) && k <= |labels|
    ensures var sh, ts := states[k].shared, states[k].threads;
            && sh.nTodo == |sh.queue| + Total(ts, Load)
            && sh.nTotal - sh.nIdle == Total(ts, Busy)
            && 0 <= sh.nIdle <= sh.nTotal && 0 <= sh.nTodo
  {
    RunKeepsInv(nBatchSize, states, labels, k);
    CountersNonNegative(states[k].threads);
  }

  /** Right after Wait has returned the queue is idle. */
  lemma IdleAfterWait(nBatchSize: nat, states: seq<State>, labels: seq<Label>, k: nat)
    requires IsRun(nBatchSize, states, labels) && k < |labels| && Returns(labels[k])
    ensures Idle(states[k + 1].shared)
  {
    RunKeepsInv(nBatchSize, states, labels, k + 1);
    assert labels[..k + 1][k] == labels[k];
    var s := states[k + 1];
    assert s.shared.nTodo == 0;
    QuietIsIdle(s);
  }

  /** With the master outside, the queue is idle exactly when no check is left and
      no failure is recorded: threads with a batch always hold unfinished checks. */
  lemma QuietIsIdle(s: State)
    requires exists added :: Inv(s, added)
    ensures Idle(s.shared) <==> s.shared.nTodo == 0 && s.shared.fAllOk
  {
    CountersNonNegative(s.threads);
    if 0 < Total(s.threads, Busy) {
      var i := TotalPositive(s.threads, Busy);
      assert 1 <= Load(s.threads[i]) <= s.shared.nTodo;
    }
  }

  // ----------------------------------------------------------------- progress

  /** Steps that do not depend on luck: a thread with a batch goes on, or a
      notified thread wakes up. */
  predicate Driven(s: State, l: Label) {
    match l
    case Exec(_) => true
    case Enter(t, _) => t < |s.threads| && s.threads[t].Working?
    case Wake(t, _) => t < |s.threads| && s.threads[t] == Waiting(true)
    case _ => false
  }

  function ThreadRank(t: Thread): int {
    match t
    case Outside => 0
    case Waiting(notified) => if notified then 1 else 0
    case Working(rest, _, _) => 2 * |rest| + 2
  }

  function Rank(s: State): int {
    5 * |s.shared.queue| + Total(s.threads, ThreadRank)
  }

  lemma RankIsNonNegative(s: State)
    ensures 0 <= Rank(s)
  {
    TotalNonNegative(s.threads, ThreadRank);
  }

  lemma EnterRank(nBatchSize: nat, s: State, t: nat, out: Outcome, s': State, added: seq<Check>)
    requires Inv(s, added) && Next(nBatchSize, s, Enter(t, out), s') && s.threads[t].Working?
    ensures Rank(s') < Rank(s)
  {
    var ts := s.threads;
    TotalUpdate(ts, ThreadRank, t, After(out));
    var ts1 := ts[t := After(out)];
    TotalUpdate(ts1, ThreadRank, 0, NotifyThread(ts1[0]));
    if NotifiesMaster(s, t) {
      CountersNonNegative(ts);
      assert Load(ts[t]) <= Total(ts, Load);
      assert s.shared.queue == [];
    }
  }

  lemma DrivenStepsLowerRank(nBatchSize: nat, s: State, l: Label, s': State, added: seq<Check>)
    requires Inv(s, added) && Next(nBatchSize, s, l, s') && Driven(s, l)
    ensures Rank(s') < Rank(s)
  {
    match l
    case Exec(t) => TotalUpdate(s.threads, ThreadRank, t, ExecThread(s.threads[t]));
    case Enter(t, out) => EnterRank(nBatchSize, s, t, out, s', added);
    case Wake(t, out) => TotalUpdate(s.threads, ThreadRank, t, After(out));
  }

  /** While the master is inside Wait, some driven step is always possible; if the
      master sleeps un-notified, a worker holds an unfinished batch. */
  lemma NeverStuck(nBatchSize: nat, s: State, added: seq<Check>) returns (l: Label, s': State)
    requires Inv(s, added) && !s.threads[0].Outside?
    ensures Next(nBatchSize, s, l, s') && Driven(s, l)
    ensures Unnotified(s.threads[0]) ==> (l.Exec? || l.Enter?) && l.t != 0
  {
    var t := 0;
    if Unnotified(s.threads[0]) {
      CountersNonNegative(s.threads);
      t := TotalPositive(s.threads, Load);
    }
    match s.threads[t]
    case Working(rest, _, _) =>
      if rest != [] {
        l, s' := Exec(t), s.(threads := s.threads[t := ExecThread(s.threads[t])]);
      } else {
        var (sh, out) := LoopHead(EnterShared(s, t), t == 0, nBatchSize);
        l, s' := Enter(t, out), State(sh, EnterThreads(s, t, out), ControlAfter(s.control, out));
      }
    case Waiting(_) =>
      var (sh, out) := LoopHead(s.shared.(nIdle := s.shared.nIdle - 1), t == 0, nBatchSize);
      l, s' := Wake(t, out), State(sh, s.threads[t := After(out)], ControlAfter(s.control, out));
  }

  /** A sequence of driven steps from s. */
  ghost predicate DrivenRun(nBatchSize: nat, s: State, states: seq<State>, labels: seq<Label>) {
    && |states| == |labels| + 1 && states[0] == s
    && forall i :: 0 <= i < |labels| ==>
         0 < |states[i].threads| && Next(nBatchSize, states[i], labels[i], states[i + 1]) && Driven(states[i], labels[i])
  }

  /** No schedule of driven steps is longer than the rank. */
  lemma {:induction false} DrivenRunsAreShort(nBatchSize: nat, s: State, added: seq<Check>, states: seq<State>, labels: seq<Label>)
    requires Inv(s, added) && DrivenRun(nBatchSize, s, states, labels)
    ensures |labels| <= Rank(s)
    decreases |labels|
  {
    RankIsNonNegative(s);
    if labels != [] {
      DrivenStepsLowerRank(nBatchSize, s, labels[0], states[1], added);
      StepKeepsInv(nBatchSize, s, labels[0], states[1], added);
      var added' := if Returns(labels[0]) then [] else added;
      assert DrivenRun(nBatchSize, states[1], states[1..], labels[1..]);
      DrivenRunsAreShort(nBatchSize, states[1], added', states[1..], labels[1..]);
    }
  }

  /** Wait comes back: whatever driven steps are taken, after at most Rank of them
      the master has returned.  A schedule that cannot be extended has the master outside. */
  lemma WaitReturns(nBatchSize: nat, s: State, added: seq<Check>) returns (states: seq<State>, labels: seq<Label>)
    requires Inv(s, added) && !s.threads[0].Outside?
    ensures DrivenRun(nBatchSize, s, states, labels) && 0 < |labels| <= Rank(s)
    ensures labels[|labels| - 1].t == 0 && Returns(labels[|labels| - 1])
    ensures labels[|labels| - 1].out.verdict <==> AllOk(added)
    ensures forall i :: 0 <= i < |labels| - 1 ==> !Returns(labels[i])
    decreases Rank(s)
  {
    var l, s1 := NeverStuck(nBatchSize, s, added);
    DrivenStepsLowerRank(nBatchSize, s, l, s1, added);
    StepKeepsInv(nBatchSize, s, l, s1, added);
    RankIsNonNegative(s);
    RankIsNonNegative(s1);
    if Returns(l) {
      OnlyMasterReturns(nBatchSize, s, l, s1);
      states, labels := [s, s1], [l];
    } else {
      StaysInside(nBatchSize, s, l, s1);
      var more, ls := WaitReturns(nBatchSize, s1, added);
      states, labels := [s] + more, [l] + ls;
      forall i | 0 <= i < |labels|
        ensures 0 < |states[i].threads| && Next(nBatchSize, states[i], labels[i], states[i + 1]) && Driven(states[i], labels[i])
      {
        if 0 < i {
          assert states[i] == more[i - 1] && labels[i] == ls[i - 1] && states[i + 1] == more[i];
        }
      }
    }
  }

  lemma OnlyMasterReturns(nBatchSize: nat, s: State, l: Label, s': State)
    requires 0 < |s.threads| && Next(nBatchSize, s, l, s') && Returns(l)
    ensures l.t == 0
  {
  }

  lemma StaysInside(nBatchSize: nat, s: State, l: Label, s': State)
    requires 0 < |s.threads| && Next(nBatchSize, s, l, s') && Driven(s, l) && !Returns(l)
    requires !s.threads[0].Outside?
    ensures 0 < |s'.threads| && !s'.threads[0].Outside?
  {
  }
}

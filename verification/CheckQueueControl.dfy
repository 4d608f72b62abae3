/**
 The assertion that a new controller makes: that the queue is idle.  It holds in
 every schedule of the threads exactly when everything added has been waited for.
 */
module CheckQueueControl {
  import opened CheckQueue
  import opened CheckQueueRuns
  import opened CheckQueueTheorems

  // ----------------------------------------------------------------- in every run

  /** With nothing left to do, a failure is recorded exactly if there was one. */
  lemma AllFound(s: State, added: seq<Check>)
    requires Inv(s, added) && s.shared.nTodo == 0
    ensures s.shared.fAllOk <==> AllOk(added)
  {
    CountersNonNegative(s.threads);
    forall i | 0 <= i < |s.threads| ensures ThreadOk(s.threads[i]) {
      assert Load(s.threads[i]) <= 0;
      assert ThreadValid(s.threads[i]);
    }
  }

  /** The asserted value: nothing is left to do, and every check added since the
      last return of Wait is true. */
  lemma AssertionIsExact(nBatchSize: nat, states: seq<State>, labels: seq<Label>, k: nat)
    requires IsRun(nBatchSize, states, labels) && k < |labels| && labels[k].Construct?
    ensures labels[k].assertion <==> states[k].shared.nTodo == 0 && AllOk(Pending(labels[..k]))
  {
    assert Next(nBatchSize, states[k], labels[k], states[k + 1]);
    RunKeepsInv(nBatchSize, states, labels, k);
    QuietIsIdle(states[k]);
    if states[k].shared.nTodo == 0 {
      AllFound(states[k], Pending(labels[..k]));
    }
  }

  /** If everything added has been waited for, the assertion holds. */
  lemma ControllerAssertionHolds(nBatchSize: nat, states: seq<State>, labels: seq<Label>, k: nat)
    requires IsRun(nBatchSize, states, labels) && k < |labels| && labels[k].Construct? && Pending(labels[..k]) == []
    ensures labels[k].assertion
  {
    RunKeepsInv(nBatchSize, states, labels, k);
    CountersNonNegative(states[k].threads);
    AssertionIsExact(nBatchSize, states, labels, k);
  }

  // --------------------------------------------------------- the usual discipline

  /** Nothing is added between the return of a controller's Wait and its end. */
  ghost predicate NoLateAdd(states: seq<State>, labels: seq<Label>)
    requires |states| == |labels| + 1
  {
    forall i :: 0 <= i < |labels| && labels[i].Add? ==> states[i].control != Live(true)
  }

  lemma {:induction false} NothingPendingWhenDone(nBatchSize: nat, states: seq<State>, labels: seq<Label>, k: nat)
    requires IsRun(nBatchSize, states, labels) && NoLateAdd(states, labels) && k <= |labels|
    ensures states[k].control != Live(false) ==> Pending(labels[..k]) == []
  {
    hide Next;
    hide Inv;
    if 0 < k {
      NothingPendingWhenDone(nBatchSize, states, labels, k - 1);
      RunKeepsInv(nBatchSize, states, labels, k - 1);
      assert labels[..k][..k - 1] == labels[..k - 1];
      assert labels[..k][k - 1] == labels[k - 1];
      DoneAfter(nBatchSize, states[k - 1], labels[k - 1], states[k], Pending(labels[..k - 1]));
    }
  }

  /** Only a return of Wait makes a controller done. */
  lemma DoneAfter(nBatchSize: nat, s: State, l: Label, t: State, added: seq<Check>)
    requires Inv(s, added) && Next(nBatchSize, s, l, t)
    ensures t.control != Live(false) && !Returns(l) ==> s.control != Live(false)
    ensures l.Add? ==> t.control == s.control && s.control.Live?
  {
    hide LoopHead;
  }

  /** It is enough to keep to that, whatever the number of controllers. */
  lemma DisciplineSuffices(nBatchSize: nat, states: seq<State>, labels: seq<Label>, k: nat)
    requires IsRun(nBatchSize, states, labels) && NoLateAdd(states, labels)
    requires k < |labels| && labels[k].Construct?
    ensures labels[k].assertion
  {
    assert Next(nBatchSize, states[k], labels[k], states[k + 1]);
    NothingPendingWhenDone(nBatchSize, states, labels, k);
    ControllerAssertionHolds(nBatchSize, states, labels, k);
  }

  // ------------------------------------------------------------- a schedule against it

  /** Only the master moves. */
  predicate MasterOnly(l: Label) {
    (l.Enter? || l.Exec? || l.Wake?) ==> l.t == 0
  }

  ghost predicate MasterAlone(labels: seq<Label>) {
    forall i :: 0 <= i < |labels| ==> MasterOnly(labels[i])
  }

  /** Then outside of Wait everything pending is still to do. */
  lemma {:induction false} AloneLeavesAll(nBatchSize: nat, states: seq<State>, labels: seq<Label>, k: nat)
    requires IsRun(nBatchSize, states, labels) && MasterAlone(labels) && k <= |labels|
    ensures forall i :: 1 <= i < |states[k].threads| ==> states[k].threads[i].Outside?
    ensures states[k].threads[0].Outside? ==> states[k].shared.nTodo == |Pending(labels[..k])|
  {
    if 0 < k {
      AloneLeavesAll(nBatchSize, states, labels, k - 1);
      RunKeepsInv(nBatchSize, states, labels, k - 1);
      assert labels[..k][..k - 1] == labels[..k - 1];
      assert labels[..k][k - 1] == labels[k - 1];
      assert MasterOnly(labels[k - 1]);
      assert Next(nBatchSize, states[k - 1], labels[k - 1], states[k]);
    }
  }

  /** With the master alone, the assertion holds exactly if nothing is pending. */
  lemma AloneIsExact(nBatchSize: nat, states: seq<State>, labels: seq<Label>, k: nat)
    requires IsRun(nBatchSize, states, labels) && MasterAlone(labels) && k < |labels| && labels[k].Construct?
    ensures labels[k].assertion <==> Pending(labels[..k]) == []
  {
    assert Next(nBatchSize, states[k], labels[k], states[k + 1]);
    AloneLeavesAll(nBatchSize, states, labels, k);
    AssertionIsExact(nBatchSize, states, labels, k);
  }

  /** For instance, a check added after Wait is still there when the next
      controller looks. */
  lemma LateAddBreaksAssertion(nBatchSize: nat, c: Check) returns (states: seq<State>, labels: seq<Label>)
    ensures IsRun(nBatchSize, states, labels) && 0 < |labels|
    ensures labels[|labels| - 1] == Construct(false)
  {
    var s0 := State(FRESH, [Outside], Gone);
    var s1 := s0.(control := Live(false));
    var s2 := s0.(control := Live(true));
    var s3 := State(Shared([c], 0, 0, true, 1), [Outside], Live(true));
    var s4 := s3.(control := Gone);
    var s5 := s3.(control := Live(false));
    states := [s0, s1, s2, s3, s4, s5];
    labels := [Construct(true), Enter(0, Return(true)), Add([c]), Destroy, Construct(false)];
    assert Next(nBatchSize, s0, labels[0], s1);
    assert Next(nBatchSize, s1, labels[1], s2);
    assert Next(nBatchSize, s2, labels[2], s3);
    assert Next(nBatchSize, s3, labels[3], s4);
    assert Next(nBatchSize, s4, labels[4], s5);
  }

  // -------------------------------------------------------------- what the caller sees

  /** What the master's own calls show. */
  datatype Event = Made | Added(checks: seq<Check>) | Waited(verdict: bool) | Ended

  function EventOf(l: Label): seq<Event> {
    match l
    case Construct(_) => [Made]
    case Add(checks) => [Added(checks)]
    case Destroy => [Ended]
    case _ => if Returns(l) then [Waited(l.out.verdict)] else []
  }

  function History(labels: seq<Label>): seq<Event> {
    if labels == [] then [] else History(labels[..|labels| - 1]) + EventOf(labels[|labels| - 1])
  }

  /** The checks added since the last wait. */
  function Unwaited(events: seq<Event>): seq<Check> {
    if events == [] then []
    else
      var e, before := events[|events| - 1], Unwaited(events[..|events| - 1]);
      if e.Waited? then [] else if e.Added? then before + e.checks else before
  }

  lemma {:induction false} PendingIsUnwaited(labels: seq<Label>)
    ensures Pending(labels) == Unwaited(History(labels))
  {
    if labels != [] {
      var before, l := labels[..|labels| - 1], labels[|labels| - 1];
      PendingIsUnwaited(before);
      if EventOf(l) == [] {
        assert History(before) + [] == History(before);
      } else {
        assert History(labels)[..|History(before)|] == History(before);
      }
    }
  }

  lemma HistoryAppend(labels: seq<Label>, l: Label)
    ensures History(labels + [l]) == History(labels) + EventOf(l)
    ensures MasterAlone(labels + [l]) <==> MasterAlone(labels) && MasterOnly(l)
  {
    assert (labels + [l])[..|labels|] == labels;
    if MasterAlone(labels + [l]) {
      assert forall i :: 0 <= i < |labels| ==> (labels + [l])[i] == labels[i];
      assert (labels + [l])[|labels|] == l;
    }
  }

  lemma RunAppend(nBatchSize: nat, states: seq<State>, labels: seq<Label>, l: Label, s: State)
    requires IsRun(nBatchSize, states, labels) && 0 < |s.threads| && Next(nBatchSize, states[|labels|], l, s)
    ensures IsRun(nBatchSize, states + [s], labels + [l])
  {
    var ss, ls := states + [s], labels + [l];
    forall i | 0 <= i < |ls| ensures Next(nBatchSize, ss[i], ls[i], ss[i + 1]) {
      if i < |labels| {
        assert ss[i] == states[i] && ls[i] == labels[i] && ss[i + 1] == states[i + 1];
        assert Next(nBatchSize, states[i], labels[i], states[i + 1]);
      }
    }
  }

  /** A run of the master alone, up to a moment when it is outside of Wait. */
  ghost predicate AloneRun(nBatchSize: nat, states: seq<State>, labels: seq<Label>, control: Control) {
    && IsRun(nBatchSize, states, labels) && MasterAlone(labels)
    && states[|labels|].threads == [Outside] && states[|labels|].control == control
  }

  /** Following a schedule of driven steps that ends with the return of Wait. */
  lemma {:induction false} Follow(nBatchSize: nat, states: seq<State>, labels: seq<Label>, more: seq<State>, ls: seq<Label>)
    returns (states': seq<State>, labels': seq<Label>)
    requires IsRun(nBatchSize, states, labels) && MasterAlone(labels) && |states[|labels|].threads| == 1 && states[|labels|].control.Live?
    requires DrivenRun(nBatchSize, states[|labels|], more, ls) && 0 < |ls| && Returns(ls[|ls| - 1])
    requires forall i :: 0 <= i < |ls| - 1 ==> !Returns(ls[i])
    ensures AloneRun(nBatchSize, states', labels', Live(true)) && History(labels') == History(labels) + [Waited(ls[|ls| - 1].out.verdict)]
    decreases |ls|
  {
    var s, l, s1 := states[|labels|], ls[0], more[1];
    assert Next(nBatchSize, s, l, s1) && Driven(s, l);
    assert |s1.threads| == 1;
    RunAppend(nBatchSize, states, labels, l, s1);
    HistoryAppend(labels, l);
    states', labels' := states + [s1], labels + [l];
    if |ls| > 1 {
      assert !Returns(l) && History(labels) + [] == History(labels);
      assert DrivenRun(nBatchSize, s1, more[1..], ls[1..]);
      states', labels' := Follow(nBatchSize, states', labels', more[1..], ls[1..]);
    }
  }

  /** The master alone gets through a Wait. */
  lemma WaitAlone(nBatchSize: nat, states: seq<State>, labels: seq<Label>, control: Control) returns (states': seq<State>, labels': seq<Label>)
    requires AloneRun(nBatchSize, states, labels, control) && control.Live?
    ensures AloneRun(nBatchSize, states', labels', Live(true)) && History(labels') == History(labels) + [Waited(AllOk(Pending(labels)))]
  {
    var n, s := |labels|, states[|labels|];
    var (sh, out) := LoopHead(EnterShared(s, 0), true, nBatchSize);
    var l, s1 := Enter(0, out), State(sh, EnterThreads(s, 0, out), ControlAfter(s.control, out));
    RunAppend(nBatchSize, states, labels, l, s1);
    HistoryAppend(labels, l);
    states', labels' := states + [s1], labels + [l];
    assert labels'[..n] == labels && labels'[..n + 1] == labels';
    RunKeepsInv(nBatchSize, states', labels', n + 1);
    if Returns(l) {
      WaitIsExact(nBatchSize, states', labels', n);
    } else {
      assert History(labels) + [] == History(labels);
      var more, ls := WaitReturns(nBatchSize, s1, Pending(labels));
      states', labels' := Follow(nBatchSize, states', labels', more, ls);
    }
  }

  /** Whatever the threads did, the master alone could have had the same history. */
  lemma {:induction false} SameHistoryAlone(nBatchSize: nat, states: seq<State>, labels: seq<Label>)
    returns (states': seq<State>, labels': seq<Label>)
    requires IsRun(nBatchSize, states, labels)
    ensures AloneRun(nBatchSize, states', labels', states[|labels|].control) && History(labels') == History(labels)
    decreases |labels|
  {
    if labels == [] {
      states', labels' := [State(FRESH, [Outside], Gone)], [];
      assert AloneRun(nBatchSize, states', labels', Gone);
    } else {
      hide IsRun;
      hide Next;
      hide AloneRun;
      hide Pending;
      var n := |labels| - 1;
      var l := labels[n];
      RunPrefix(nBatchSize, states, labels);
      states', labels' := SameHistoryAlone(nBatchSize, states[..n + 1], labels[..n]);
      if Returns(l) {
        ReturnIsLive(nBatchSize, states, labels);
        WaitIsExact(nBatchSize, states, labels, n);
        SameHistorySamePending(labels[..n], labels');
        states', labels' := WaitAlone(nBatchSize, states', labels', states[n].control);
      } else if EventOf(l) == [] {
        assert History(labels[..n]) + [] == History(labels[..n]);
      } else {
        states', labels' := CallAlone(nBatchSize, states[n], states', labels', l, states[n + 1]);
      }
    }
  }

  lemma RunPrefix(nBatchSize: nat, states: seq<State>, labels: seq<Label>)
    requires IsRun(nBatchSize, states, labels) && labels != []
    ensures var n := |labels| - 1;
            && |states| == n + 2 && IsRun(nBatchSize, states[..n + 1], labels[..n])
            && 0 < |states[n].threads| && Next(nBatchSize, states[n], labels[n], states[n + 1])
            && (EventOf(labels[n]) == [] ==> states[n + 1].control == states[n].control)
  {
    var n := |labels| - 1;
    var ss, ls := states[..n + 1], labels[..n];
    forall i | 0 <= i < |ls| ensures Next(nBatchSize, ss[i], ls[i], ss[i + 1]) {
      assert Next(nBatchSize, states[i], labels[i], states[i + 1]);
    }
    assert Next(nBatchSize, states[n], labels[n], states[n + 1]);
  }

  /** Wait returns to a live controller, which is done then. */
  lemma ReturnIsLive(nBatchSize: nat, states: seq<State>, labels: seq<Label>)
    requires IsRun(nBatchSize, states, labels) && labels != [] && Returns(labels[|labels| - 1])
    ensures states[|labels| - 1].control.Live? && states[|labels|].control == Live(true)
  {
    var n := |labels| - 1;
    assert Next(nBatchSize, states[n], labels[n], states[n + 1]);
    OnlyMasterReturns(nBatchSize, states[n], labels[n], states[n + 1]);
    RunKeepsInv(nBatchSize, states, labels, n);
  }

  lemma SameHistorySamePending(a: seq<Label>, b: seq<Label>)
    requires History(a) == History(b)
    ensures Pending(a) == Pending(b)
  {
    PendingIsUnwaited(a);
    PendingIsUnwaited(b);
  }

  /** A call other than Wait. */
  lemma CallAlone(nBatchSize: nat, s: State, states: seq<State>, labels: seq<Label>, l: Label, t: State)
    returns (states': seq<State>, labels': seq<Label>)
    requires AloneRun(nBatchSize, states, labels, s.control) && 0 < |s.threads| && Next(nBatchSize, s, l, t) && !Returns(l) && EventOf(l) != []
    ensures AloneRun(nBatchSize, states', labels', t.control) && History(labels') == History(labels) + EventOf(l)
  {
    var now := states[|labels|];
    var call, next := l, now;
    if l.Construct? {
      call, next := Construct(Idle(now.shared)), now.(control := Live(false));
    } else if l.Add? {
      next := now.(shared := AddTo(now.shared, l.checks));
    } else {
      next := now.(control := Gone);
    }
    assert Next(nBatchSize, now, call, next);
    RunAppend(nBatchSize, states, labels, call, next);
    HistoryAppend(labels, call);
    states', labels' := states + [next], labels + [call];
  }

  /** The assertion of a controller made after this history holds in every run. */
  ghost predicate IsSafe(nBatchSize: nat, history: seq<Event>) {
    forall states: seq<State>, labels: seq<Label> :: IsRun(nBatchSize, states, labels) && MakesAfter(labels, history) ==> labels[|labels| - 1].assertion
  }

  predicate MakesAfter(labels: seq<Label>, history: seq<Event>) {
    labels != [] && labels[|labels| - 1].Construct? && History(labels[..|labels| - 1]) == history
  }

  /** A controller can be made safely exactly if everything added before has been
      waited for. */
  lemma AssertionIsSafeIff(nBatchSize: nat, states: seq<State>, labels: seq<Label>)
    requires IsRun(nBatchSize, states, labels) && states[|labels|].control == Gone
    ensures IsSafe(nBatchSize, History(labels)) <==> Unwaited(History(labels)) == []
  {
    var history := History(labels);
    if Unwaited(history) == [] {
      forall ss: seq<State>, ls: seq<Label> | IsRun(nBatchSize, ss, ls) && MakesAfter(ls, history) ensures ls[|ls| - 1].assertion {
        PendingIsUnwaited(ls[..|ls| - 1]);
        ControllerAssertionHolds(nBatchSize, ss, ls, |ls| - 1);
      }
    } else {
      var ss, ls := SameHistoryAlone(nBatchSize, states, labels);
      var now := ss[|ls|];
      var call := Construct(Idle(now.shared));
      RunAppend(nBatchSize, ss, ls, call, now.(control := Live(false)));
      HistoryAppend(ls, call);
      var ss', ls' := ss + [now.(control := Live(false))], ls + [call];
      assert ls'[..|ls|] == ls;
      PendingIsUnwaited(ls);
      AloneIsExact(nBatchSize, ss', ls', |ls|);
      assert MakesAfter(ls', history) && !ls'[|ls'| - 1].assertion;
    }
  }
}

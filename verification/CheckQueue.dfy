/**
 The script-check queue: the fields that the mutex protects, and the code that
 runs while the mutex is held.  Every method of `CCheckQueue` below is one
 critical section, from taking the lock to releasing it (by leaving the scope,
 by returning, or by waiting on a condition variable).  `CheckQueueRuns` puts
 these critical sections together into all interleavings of master and workers.
 */
module CheckQueue {

  /** A queued verification; `verdict` is what its call operator returns. */
  datatype Check = Check(id: nat, verdict: bool)

  /** The mutex-protected state.  Counters are integers, so that "never
      negative" is something to prove. */
  datatype Shared = Shared(queue: seq<Check>, nIdle: int, nTotal: int, fAllOk: bool, nTodo: int)

  const FRESH := Shared([], 0, 0, true, 0)

  /** How a thread leaves a critical section of Loop. */
  datatype Outcome =
    | Return(verdict: bool)
    | Sleep
    | Batch(checks: seq<Check>, fOk: bool)

  /** Whom Add wakes. */
  datatype Notify = Nobody | One | All

  predicate AllOk(checks: seq<Check>) {
    forall i :: 0 <= i < |checks| ==> checks[i].verdict
  }

  predicate Idle(sh: Shared) {
    sh.nTotal == sh.nIdle && sh.nTodo == 0 && sh.fAllOk
  }

  /** The quotient of the queue's length by the thread count. */
  function Share(queued: nat, divisor: int): (share: nat)
    ensures share <= queued
  {
    if divisor <= 0 || queued < divisor then 0
    else 1 + Share(queued - divisor, divisor)
  }

  lemma {:induction false} ShareIsTheQuotient(queued: nat, divisor: int)
    requires 0 < divisor
    ensures Share(queued, divisor) * divisor <= queued < Share(queued, divisor) * divisor + divisor
  {
    if divisor <= queued {
      ShareIsTheQuotient(queued - divisor, divisor);
      var rest := Share(queued - divisor, divisor);
      assert (1 + rest) * divisor == divisor + rest * divisor;
    }
  }

  /** The size of the next batch: a share of the queue, between 1 and nBatchSize. */
  function BatchCount(nBatchSize: nat, queued: nat, divisor: int): (n: nat)
    ensures 1 <= n
    ensures 0 < queued ==> n <= queued
    ensures 0 < nBatchSize ==> n <= nBatchSize
  {
    var share := Share(queued, divisor);
    var capped := if nBatchSize < share then nBatchSize else share;
    if capped < 1 then 1 else capped
  }

  /** It is no more than the thread's share, unless that is nothing, and no less,
      unless the batch is full. */
  lemma BatchIsTheShare(nBatchSize: nat, queued: nat, divisor: int)
    requires 0 < divisor
    ensures var n := BatchCount(nBatchSize, queued, divisor);
            (n == 1 || n * divisor <= queued) && (nBatchSize <= n || queued < (n + 1) * divisor)
  {
    var n, share := BatchCount(nBatchSize, queued, divisor), Share(queued, divisor);
    ShareIsTheQuotient(queued, divisor);
    assert n > 1 ==> n <= share;
    assert n < nBatchSize ==> share <= n;
    TimesAtMost(n, share, divisor);
    TimesAtMost(share, n, divisor);
    assert (n + 1) * divisor == n * divisor + divisor;
  }

  lemma TimesAtMost(a: nat, b: nat, divisor: nat)
    ensures a <= b ==> a * divisor <= b * divisor
  {
  }

  /** The last n elements of the queue, last one first. */
  function FromBack(queue: seq<Check>, n: nat): (batch: seq<Check>)
    requires n <= |queue|
    ensures |batch| == n
  {
    if n == 0 then [] else [queue[|queue| - 1]] + FromBack(queue[..|queue| - 1], n - 1)
  }

  /** Taking a batch loses no check and invents none. */
  lemma {:induction false} FromBackConserves(queue: seq<Check>, n: nat)
    requires n <= |queue|
    ensures multiset(FromBack(queue, n)) + multiset(queue[..|queue| - n]) == multiset(queue)
  {
    if n == 0 {
      assert queue[..|queue|] == queue;
    } else {
      var shorter := queue[..|queue| - 1];
      assert queue == shorter + [queue[|queue| - 1]];
      assert shorter[..|shorter| - (n - 1)] == queue[..|queue| - n];
      FromBackConserves(shorter, n - 1);
    }
  }

  lemma {:induction false} FromBackAllOk(queue: seq<Check>, n: nat)
    requires n <= |queue|
    ensures AllOk(queue) <==> AllOk(FromBack(queue, n)) && AllOk(queue[..|queue| - n])
  {
    if n == 0 {
      assert queue[..|queue|] == queue;
    } else {
      var shorter, last := queue[..|queue| - 1], [queue[|queue| - 1]];
      assert shorter[..|shorter| - (n - 1)] == queue[..|queue| - n];
      FromBackAllOk(shorter, n - 1);
      assert queue == shorter + last;
      AllOkConcat(shorter, last);
      AllOkConcat(last, FromBack(shorter, n - 1));
    }
  }

  lemma AllOkConcat(a: seq<Check>, b: seq<Check>)
    ensures AllOk(a + b) <==> AllOk(a) && AllOk(b)
  {
    if AllOk(a + b) {
      assert forall i :: 0 <= i < |a| ==> a[i] == (a + b)[i];
      assert forall i :: 0 <= i < |b| ==> b[i] == (a + b)[|a| + i];
    }
  }

  /** Book-keeping for the batch a thread has just finished. */
  function CleanUp(sh: Shared, nNow: nat, fOk: bool): Shared {
    if nNow != 0 then sh.(fAllOk := sh.fAllOk && fOk, nTodo := sh.nTodo - nNow)
    else sh.(nTotal := sh.nTotal + 1)
  }

  /** One pass over the inner loop: return, sleep, or leave with a batch. */
  function LoopHead(sh: Shared, fMaster: bool, nBatchSize: nat): (Shared, Outcome) {
    if sh.queue == [] then
      if fMaster && sh.nTodo == 0 then
        (sh.(nTotal := sh.nTotal - 1, fAllOk := true), Return(sh.fAllOk))
      else
        (sh.(nIdle := sh.nIdle + 1), Sleep)
    else
      var n := BatchCount(nBatchSize, |sh.queue|, sh.nTotal + sh.nIdle + 1);
      (sh.(queue := sh.queue[..|sh.queue| - n]), Batch(FromBack(sh.queue, n), sh.fAllOk))
  }

  function AddTo(sh: Shared, checks: seq<Check>): Shared {
    sh.(queue := sh.queue + checks, nTodo := sh.nTodo + |checks|)
  }

  function WhomToNotify(checks: seq<Check>): Notify {
    if |checks| == 1 then One else if |checks| > 1 then All else Nobody
  }

  class CCheckQueue {
    var queue: seq<Check>
    var nIdle: int
    var nTotal: int
    var fAllOk: bool
    var nTodo: int
    const nBatchSize: nat

    ghost function State(): Shared
      reads this
    {
      Shared(queue, nIdle, nTotal, fAllOk, nTodo)
    }

    constructor (nBatchSizeIn: nat)
      ensures State() == FRESH && nBatchSize == nBatchSizeIn
    {
      queue, nIdle, nTotal, fAllOk, nTodo := [], 0, 0, true, 0;
      nBatchSize := nBatchSizeIn;
    }

    /** The critical section at the top of Loop: clean up after the previous
        batch (nNow of them, 0 on the first iteration), then go round the inner loop. */
    method Enter(fMaster: bool, nNow: nat, fOk: bool) returns (notifyMaster: bool, out: Outcome)
      modifies this
      ensures notifyMaster <==> nNow != 0 && !fMaster && old(nTodo) == nNow
      ensures (State(), out) == LoopHead(CleanUp(old(State()), nNow, fOk), fMaster, nBatchSize)
    {
      notifyMaster := false;
      if nNow != 0 {
        fAllOk := fAllOk && fOk;
        nTodo := nTodo - nNow;
        if nTodo == 0 && !fMaster {
          notifyMaster := true;
        }
      } else {
        nTotal := nTotal + 1;
      }
      assert State() == CleanUp(old(State()), nNow, fOk);
      out := GoRound(fMaster);
    }

    /** The critical section that begins when a wait on the condition variable ends. */
    method Wake(fMaster: bool) returns (out: Outcome)
      modifies this
      ensures (State(), out) == LoopHead(old(State()).(nIdle := old(nIdle) - 1), fMaster, nBatchSize)
    {
      nIdle := nIdle - 1;
      out := GoRound(fMaster);
    }

    method GoRound(fMaster: bool) returns (out: Outcome)
      modifies this
      ensures (State(), out) == LoopHead(old(State()), fMaster, nBatchSize)
    {
      if queue == [] {
        if fMaster && nTodo == 0 {
          nTotal := nTotal - 1;
          var fRet := fAllOk;
          fAllOk := true;
          return Return(fRet);
        }
        nIdle := nIdle + 1;
        return Sleep;
      }
      var nNow := BatchCount(nBatchSize, |queue|, nTotal + nIdle + 1);
      var vChecks := PopBatch(nNow);
      out := Batch(vChecks, fAllOk);
    }

    method PopBatch(nNow: nat) returns (vChecks: seq<Check>)
      requires nNow <= |queue|
      modifies `queue
      ensures queue == old(queue[..|queue| - nNow])
      ensures vChecks == FromBack(old(queue), nNow)
    {
      vChecks := [];
      ghost var all := queue;
      assert all[..|all|] == all;
      for i := 0 to nNow
        invariant queue == all[..|all| - i]
        invariant vChecks + FromBack(queue, nNow - i) == FromBack(all, nNow)
      {
        var last := |queue| - 1;
        assert vChecks + ([queue[last]] + FromBack(queue[..last], nNow - i - 1))
            == (vChecks + [queue[last]]) + FromBack(queue[..last], nNow - i - 1);
        vChecks := vChecks + [queue[last]];
        queue := queue[..last];
      }
    }

    method Add(vChecks: seq<Check>) returns (notify: Notify)
      modifies this
      ensures State() == AddTo(old(State()), vChecks)
      ensures notify == WhomToNotify(vChecks)
    {
      ghost var before := queue;
      for i := 0 to |vChecks|
        invariant queue == before + vChecks[..i]
        invariant nIdle == old(nIdle) && nTotal == old(nTotal) && fAllOk == old(fAllOk) && nTodo == old(nTodo)
      {
        queue := queue + [vChecks[i]];
      }
      assert vChecks[..|vChecks|] == vChecks;
      nTodo := nTodo + |vChecks|;
      notify := if |vChecks| == 1 then One else if |vChecks| > 1 then All else Nobody;
    }

    method IsIdle() returns (idle: bool)
      ensures idle <==> Idle(State())
    {
      idle := nTotal == nIdle && nTodo == 0 && fAllOk == true;
    }
  }

  /** The unlocked part of Loop: once one check has failed the others are skipped,
      and the result is still the conjunction of all verdicts. */
  method ExecuteBatch(vChecks: seq<Check>, fOkIn: bool) returns (fOk: bool)
    ensures fOk <==> fOkIn && AllOk(vChecks)
  {
    fOk := fOkIn;
    for i := 0 to |vChecks|
      invariant fOk <==> fOkIn && AllOk(vChecks[..i])
    {
      if fOk {
        fOk := vChecks[i].verdict;
      }
      assert vChecks[..i + 1] == vChecks[..i] + [vChecks[i]];
    }
    assert vChecks[..|vChecks|] == vChecks;
  }
}

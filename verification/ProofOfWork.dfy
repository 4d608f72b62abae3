/**
 Targets and work: the proof a block stands for, the next target, and the test of
 a hash against a target.
 */
module ProofOfWork {
  import opened Radix
  import opened Limbs
  import opened LimbShifts
  import opened CompactTarget
  import opened ArithUint256

  // ------------------------------------------------------------------------- block proof

  /** No compact form stands for 2^256 - 1. */
  lemma TargetBelowMax(n: Limb)
    requires Decoded(n) < Modulus()
    ensures Decoded(n) + 1 < Modulus()
  {
    var size, word := n / 0x1000000, n % 0x800000;
    Modulus256();
    if size <= 3 {
      SmallDecodedBound(n);
    } else {
      MultipleOf256(word, size - 3);
      MultipleOf256(1, 32);
    }
  }

  lemma SmallDecodedBound(n: Limb)
    requires n / 0x1000000 <= 3
    ensures Decoded(n) < 0x800000 < Pow(256, 32)
  {
    var size, word := n / 0x1000000, n % 0x800000;
    DecodedFields(n);
    SmallDecoded(word, size);
    Pow256();
    hide Pow;
    PowGrows(256, 3, 32);
  }

  lemma MultipleOf256(word: nat, k: nat)
    requires k > 0
    ensures word * Pow(256, k) % 256 == 0
  {
    var p := Pow(256, k - 1);
    assert word * (256 * p) == 256 * (word * p);
  }

  /** floor(2^256 / (t + 1)), although 2^256 itself cannot be represented. */
  lemma ProofFormula(t: nat, m: nat)
    requires 0 < t && t + 1 < m
    ensures (m - 1 - t) / (t + 1) + 1 == m / (t + 1) < m
  {
    var d := t + 1;
    var q, r := (m - d) / d, (m - d) % d;
    DivMod(m - d, d);
    assert (q + 1) * d == q * d + d;
    DivIs(m, q + 1, d, r);
    Product(q + 1, q + 1, 2, d);
  }

  method GetBlockProof(nBits: Limb) returns (proof: BaseUint)
    ensures var t := Decoded(nBits);
            Val(proof.pn) == if t == 0 || SignBit(nBits) || t >= Modulus() then 0 else Modulus() / (t + 1)
  {
    hide Decoded;
    hide Modulus;
    hide Val;
    var bnTarget := new BaseUint.Of(0);
    var fNegative, fOverflow := bnTarget.SetCompact(nBits);
    var isZero := bnTarget.EqualTo(0);
    ghost var t, m := Decoded(nBits), Modulus();
    if fNegative || fOverflow || isZero {
      proof := new BaseUint.Of(0);
      if !fOverflow {
        ModIs(t, 0, m, t);
      }
      return;
    }
    ModIs(t, 0, m, t);
    TargetBelowMax(nBits);
    ProofFormula(t, m);
    var one := new BaseUint.Of(1);
    var bnTargetPlusOne := new BaseUint.Copy(bnTarget);
    bnTargetPlusOne.Add(one);
    ModIs(t + 1, 0, m, t + 1);
    proof := bnTarget.Complement();
    var ok := proof.Divide(bnTargetPlusOne);
    assert ok;
    ModIs(m / (t + 1), 0, m, m / (t + 1));
    proof.Add(one);
  }

  // --------------------------------------------------------------------------- the next target

  /** Consensus::Params, as far as targets go.  All times are in seconds. */
  datatype Params = Params(powLimit: Words, fPowAllowMinDifficultyBlocks: bool, fPowNoRetargeting: bool,
                           nPowTargetSpacing: int, nPowTargetTimespan: int)

  /** Times are positive and fit 64 bits with the factor four that is applied to them. */
  predicate ValidParams(params: Params) {
    0 < params.nPowTargetSpacing <= params.nPowTargetTimespan < 0x2000_0000_0000_0000
  }

  /** DifficultyAdjustmentInterval: the blocks that fit into the goal. */
  function Interval(params: Params): (n: nat)
    requires ValidParams(params)
    ensures n > 0 && n * params.nPowTargetSpacing <= params.nPowTargetTimespan < (n + 1) * params.nPowTargetSpacing
  {
    AtLeastOne(params.nPowTargetTimespan, params.nPowTargetSpacing);
    DivMod(params.nPowTargetTimespan, params.nPowTargetSpacing);
    params.nPowTargetTimespan / params.nPowTargetSpacing
  }

  lemma AtLeastOne(x: nat, y: nat)
    requires 0 < y <= x
    ensures x / y > 0
  {
    DivMod(x, y);
    DivAbove(x, y, x / y, x % y, 1);
  }

  function Quotient(x: nat, n: nat): nat
    requires n > 0
  {
    DivMod(x, n);
    x / n
  }

  function Wrapped(x: nat): nat {
    PowPositive(BASE, 8);
    DivMod(x, Modulus());
    x % Modulus()
  }

  /** The time a period took, at least a quarter and at most four times the goal. */
  function Clamped(actual: int, timespan: nat): (t: nat)
    ensures timespan / 4 <= t <= 4 * timespan
  {
    if actual < timespan / 4 then timespan / 4 else if actual > timespan * 4 then timespan * 4 else actual
  }

  function Min(a: nat, b: nat): nat {
    if a < b then a else b
  }

  /** The new target as the limbs compute it, with every wrap-around. */
  function Retargeted(target: nat, actual: int, params: Params): nat
    requires ValidParams(params)
  {
    var n := params.nPowTargetTimespan;
    Min(Val(params.powLimit), Quotient(Wrapped(Wrapped(target) * Low32(Clamped(actual, n))), n))
  }

  /** The target for t instead of n seconds. */
  function Scaled(target: nat, t: nat, n: nat): nat
    requires n > 0
  {
    Quotient(target * t, n)
  }

  /** A limit with room for the product of any target with four times the goal. */
  predicate HasRoom(params: Params) {
    && ValidParams(params) && 4 * params.nPowTargetTimespan < 0x1_0000_0000
    && Val(params.powLimit) * (4 * params.nPowTargetTimespan) < Modulus()
  }

  /** Then nothing wraps around. */
  lemma NothingWraps(target: nat, actual: int, params: Params)
    requires HasRoom(params) && target <= Val(params.powLimit)
    ensures var n := params.nPowTargetTimespan;
            Retargeted(target, actual, params) == Min(Val(params.powLimit), Scaled(target, Clamped(actual, n), n))
  {
    hide Val;
    hide Modulus;
    var n := params.nPowTargetTimespan;
    var t := Clamped(actual, n);
    hide Clamped;
    var m := Modulus();
    ModIs(target, 0, m, target);
    assert Low32(t) == t;
    Product(target, Val(params.powLimit), t, 4 * n);
    ModIs(target * t, 0, m, target * t);
  }

  /** The target changes with the time the period took, by a factor of at most four
      either way, and stays within the limit. */
  lemma RetargetIsExact(target: nat, actual: int, params: Params)
    requires HasRoom(params) && target <= Val(params.powLimit)
    ensures var n, limit := params.nPowTargetTimespan, Val(params.powLimit);
            && (n / 4 <= actual <= 4 * n ==> Retargeted(target, actual, params) == Min(limit, Scaled(target, actual, n)))
            && (actual < n / 4 ==> Retargeted(target, actual, params) == Min(limit, Scaled(target, n / 4, n)))
            && (actual > 4 * n ==> Retargeted(target, actual, params) == Min(limit, 4 * target))
  {
    NothingWraps(target, actual, params);
    hide Val;
    hide Modulus;
    hide Retargeted;
    hide Scaled;
    FourTimes(target, params.nPowTargetTimespan);
  }

  lemma FourTimes(target: nat, n: nat)
    requires n > 0
    ensures Scaled(target, 4 * n, n) == 4 * target
  {
    assert target * (4 * n) == 4 * target * n;
    DivIs(target * (4 * n), 4 * target, n, 0);
  }

  /** A longer period never makes the next target smaller. */
  lemma RetargetIsMonotone(target: nat, actual: int, longer: int, params: Params)
    requires HasRoom(params) && target <= Val(params.powLimit) && actual <= longer
    ensures Retargeted(target, actual, params) <= Retargeted(target, longer, params)
  {
    hide Val;
    hide Modulus;
    hide Retargeted;
    hide Scaled;
    hide Clamped;
    NothingWraps(target, actual, params);
    NothingWraps(target, longer, params);
    var n := params.nPowTargetTimespan;
    ClampedGrows(actual, longer, n);
    ScaledGrows(target, Clamped(actual, n), Clamped(longer, n), n);
  }

  lemma ClampedGrows(actual: int, longer: int, n: nat)
    requires actual <= longer
    ensures Clamped(actual, n) <= Clamped(longer, n)
  {
  }

  lemma ScaledGrows(target: nat, t: nat, u: nat, n: nat)
    requires n > 0 && t <= u
    ensures Scaled(target, t, n) <= Scaled(target, u, n)
  {
    Product(target, target, t, u);
    QuotientGrows(target * t, target * u, n);
  }

  lemma QuotientGrows(x: nat, y: nat, n: nat)
    requires n > 0 && x <= y
    ensures x / n <= y / n
  {
    DivMod(x, n);
    DivMod(y, n);
    if y / n < x / n {
      StrictlyMore(n, y / n, y % n, x / n, x % n);
    }
  }

  /** So a target is never eased more than four times, nor beyond the limit, and
      the compact form only makes it harder. */
  lemma RetargetIsBounded(target: nat, actual: int, params: Params)
    requires HasRoom(params) && target <= Val(params.powLimit)
    ensures var next := Decoded(Compact(Retargeted(target, actual, params))); next <= 4 * target && next <= Val(params.powLimit)
  {
    hide Modulus;
    hide Decoded;
    hide Compact;
    NothingWraps(target, actual, params);
    CompactFits(Retargeted(target, actual, params));
    hide Val;
    var n := params.nPowTargetTimespan;
    AtMostFourfold(target, Clamped(actual, n), n);
  }

  lemma AtMostFourfold(target: nat, t: nat, n: nat)
    requires n > 0 && t <= 4 * n
    ensures target * t / n <= 4 * target
  {
    var q, r := target * t / n, target * t % n;
    DivMod(target * t, n);
    Product(target, target, t, 4 * n);
    assert target * (4 * n) == 4 * target * n;
    if q > 4 * target {
      StrictlyMore(n, 4 * target, 0, q, r);
    }
  }

  method CalculateNextWorkRequired(nBits: Limb, nLastBlockTime: int, nFirstBlockTime: int, params: Params) returns (nCompact: nat)
    requires ValidParams(params)
    ensures nCompact == if params.fPowNoRetargeting then nBits
                        else Compact(Retargeted(Decoded(nBits), nLastBlockTime - nFirstBlockTime, params))
  {
    hide Decoded;
    hide Modulus;
    hide Val;
    hide Compact;
    if params.fPowNoRetargeting {
      return nBits;
    }
    var nActualTimespan := nLastBlockTime - nFirstBlockTime;
    if nActualTimespan < params.nPowTargetTimespan / 4 {
      nActualTimespan := params.nPowTargetTimespan / 4;
    }
    if nActualTimespan > params.nPowTargetTimespan * 4 {
      nActualTimespan := params.nPowTargetTimespan * 4;
    }
    var bnPowLimit := new BaseUint.Of(0);
    bnPowLimit.pn := params.powLimit;
    var bnNew := new BaseUint.Of(0);
    var _, _ := bnNew.SetCompact(nBits);
    bnNew.MultiplyWord(Low32(nActualTimespan));
    var timespan := new BaseUint.Of(params.nPowTargetTimespan);
    var ok := bnNew.Divide(timespan);
    assert ok;
    var c := bnNew.CompareTo(bnPowLimit);
    if c > 0 {
      bnNew := bnPowLimit;
    }
    nCompact := bnNew.GetCompact(false);
  }

  /** What the rule needs of a block: its target and its time. */
  datatype Header = Header(nBits: Limb, nTime: int)

  /** Block k ends the walk back over blocks with the special minimum difficulty. */
  predicate EndsWalk(chain: seq<Header>, k: nat, params: Params)
    requires ValidParams(params) && k < |chain|
  {
    k == 0 || k % Interval(params) == 0 || chain[k].nBits != Compact(Val(params.powLimit))
  }

  /** The last block that ends the walk. */
  function LastRegular(chain: seq<Header>, k: nat, params: Params): (j: nat)
    requires ValidParams(params) && k < |chain|
    ensures j <= k && EndsWalk(chain, j, params) && forall i :: j < i <= k ==> !EndsWalk(chain, i, params)
  {
    if EndsWalk(chain, k, params) then k else LastRegular(chain, k - 1, params)
  }

  /** `chain` holds the blocks from genesis to pindexLast; it is empty when the
      block to come is the genesis block. */
  method GetNextWorkRequired(chain: seq<Header>, nBlockTime: int, params: Params) returns (nCompact: nat)
    requires ValidParams(params)
    ensures chain == [] ==> nCompact == Compact(Val(params.powLimit))
    ensures chain != [] && |chain| % Interval(params) != 0 ==>
              nCompact == if !params.fPowAllowMinDifficultyBlocks then chain[|chain| - 1].nBits
                          else if nBlockTime > chain[|chain| - 1].nTime + params.nPowTargetSpacing * 2 then Compact(Val(params.powLimit))
                          else chain[LastRegular(chain, |chain| - 1, params)].nBits
    ensures chain != [] && |chain| % Interval(params) == 0 ==>
              |chain| >= Interval(params) && var last, first := chain[|chain| - 1], chain[|chain| - Interval(params)];
              nCompact == if params.fPowNoRetargeting then last.nBits
                          else Compact(Retargeted(Decoded(last.nBits), last.nTime - first.nTime, params))
  {
    hide Decoded;
    hide Modulus;
    hide Val;
    hide Compact;
    hide Retargeted;
    var limit := new BaseUint.Of(0);
    limit.pn := params.powLimit;
    var nProofOfWorkLimit := limit.GetCompact(false);
    if chain == [] {
      return nProofOfWorkLimit;
    }
    var nHeight, nInterval := |chain| - 1, Interval(params);
    hide Interval;
    if (nHeight + 1) % nInterval != 0 {
      if params.fPowAllowMinDifficultyBlocks {
        if nBlockTime > chain[nHeight].nTime + params.nPowTargetSpacing * 2 {
          return nProofOfWorkLimit;
        }
        var pindex := nHeight;
        while pindex > 0 && pindex % nInterval != 0 && chain[pindex].nBits == nProofOfWorkLimit
          invariant 0 <= pindex <= nHeight && LastRegular(chain, pindex, params) == LastRegular(chain, nHeight, params)
        {
          pindex := pindex - 1;
        }
        return chain[pindex].nBits;
      }
      return chain[nHeight].nBits;
    }
    WholeIntervals(|chain|, nInterval);
    var nHeightFirst := nHeight - (nInterval - 1);
    assert nHeightFirst >= 0;
    nCompact := CalculateNextWorkRequired(chain[nHeight].nBits, chain[nHeight].nTime, chain[nHeightFirst].nTime, params);
  }

  lemma WholeIntervals(n: nat, k: nat)
    requires n > 0 && k > 0 && n % k == 0
    ensures n >= k
  {
    if n < k {
      ModIs(n, 0, k, n);
    }
  }

  // --------------------------------------------------------------------- proof of work

  method CheckProofOfWork(hash: Words, nBits: Limb, params: Params) returns (ok: bool)
    ensures ok <==> 0 < Decoded(nBits) <= Val(params.powLimit) && !SignBit(nBits) && Val(hash) <= Decoded(nBits)
  {
    hide Decoded;
    hide Modulus;
    hide Val;
    var bnTarget := new BaseUint.Of(0);
    var limit := new BaseUint.Of(0);
    limit.pn := params.powLimit;
    var bnHash := new BaseUint.Of(0);
    bnHash.pn := hash;
    var fNegative, fOverflow := bnTarget.SetCompact(nBits);
    if !fOverflow {
      ModIs(Decoded(nBits), 0, Modulus(), Decoded(nBits));
    }
    var isZero := bnTarget.EqualTo(0);
    var c := bnTarget.CompareTo(limit);
    if fNegative || isZero || fOverflow || c > 0 {
      return false;
    }
    c := bnHash.CompareTo(bnTarget);
    if c > 0 {
      return false;
    }
    return true;
  }
}

// The bookkeeping steps of `qmeasure`. After the forward permutation the
// k measured qubits are the k most significant bits of every index, so an
// outcome is a value of those top bits (a "bucket"):
//  * `QbitMask` builds the mask of bit positions n-k .. n-1;
//  * `BucketTotals` adds up the weight |a|^2 of every amplitude per bucket;
//  * `TotalProb` adds up the bucket totals;
//  * `SelectOutcome` picks the bucket whose cumulative interval holds the toss;
//  * `DecodeBits` turns the bucket into the list of measured bits;
//  * `Collapse` keeps the selected bucket, rescaled, and zeroes the rest;
//  * `CheckOrthonormal` is the test a measurement basis must pass.
module Measure {
  import opened Bits
  import opened QcErrors
  import opened Algebra
  import opened Reorder

  /** `maxerr` and `maxproberr`. */
  const MaxErr: real := 0.000001
  const MaxProbErr: real := 0.000001

  function AbsReal(x: real): (r: real)
    ensures r >= 0.0 && (r == x || r == -x)
  {
    if x < 0.0 then -x else x
  }

  // ---------------------------------------------------------------------
  // Mask and shift

  /** The mask has exactly the bits n-k .. n-1 set. */
  ghost predicate IsTopMask(mask: nat, n: nat, k: nat)
  {
    forall q: nat :: Bit(mask, q) == if n <= q + k && q < n then 1 else 0
  }

  method QbitMask(n: nat, k: nat) returns (mask: nat)
    requires k <= n
    ensures IsTopMask(mask, n, k)
  {
    mask := 0;
    forall q: nat ensures Bit(mask, q) == 0 { BitOfZero(q); }
    for b := 0 to k
      invariant forall q: nat :: Bit(mask, q) == if n <= q + b && q < n then 1 else 0
    {
      var pos := n - b - 1;
      var single := Shl(1, pos);
      var next := Or(mask, single);
      forall q: nat ensures Bit(next, q) == if n <= q + b + 1 && q < n then 1 else 0 {
        OrBit(mask, single, q);
        ShlBit(1, pos, q);
        if q >= pos { BitOfOne(q - pos); }
      }
      mask := next;
    }
  }

  /** The outcome an index belongs to: its top k bits, i >> (n-k). */
  function Bucket(i: nat, n: nat, k: nat): (r: nat)
    requires k <= n
  {
    Shr(i, n - k)
  }

  /** The bucket of an index below 2^n is below 2^k. */
  lemma BucketBelow(i: nat, n: nat, k: nat)
    requires k <= n && i < Pow2(n)
    ensures Bucket(i, n, k) < Pow2(k)
  {
    forall q: nat | k <= q ensures Bit(Bucket(i, n, k), q) == 0 {
      ShrBit(i, n - k, q);
      BitAbove(i, n, q + (n - k));
    }
    BelowFromBits(Bucket(i, n, k), k);
  }

  /** `(i & qbitmask) >> shift_bits` is the bucket of i. */
  lemma MaskedBucket(i: nat, mask: nat, n: nat, k: nat)
    requires k <= n && IsTopMask(mask, n, k) && i < Pow2(n)
    ensures Shr(And(i, mask), n - k) == Bucket(i, n, k)
  {
    forall q: nat ensures Bit(Shr(And(i, mask), n - k), q) == Bit(Bucket(i, n, k), q) {
      ShrBit(And(i, mask), n - k, q);
      ShrBit(i, n - k, q);
      AndBit(i, mask, q + (n - k));
      if q >= k { BitAbove(i, n, q + (n - k)); }
    }
    BitsDetermine(Shr(And(i, mask), n - k), Bucket(i, n, k));
  }

  /** `(i & qbitmask) == sel << shift_bits` holds exactly for the indices of bucket sel. */
  lemma MatchTest(i: nat, mask: nat, n: nat, k: nat, sel: nat)
    requires k <= n && IsTopMask(mask, n, k) && i < Pow2(n) && sel < Pow2(k)
    ensures (And(i, mask) == Shl(sel, n - k)) <==> Bucket(i, n, k) == sel
  {
    var a, t := And(i, mask), Shl(sel, n - k);
    BucketBelow(i, n, k);
    if a == t {
      forall q: nat ensures Bit(Bucket(i, n, k), q) == Bit(sel, q) {
        ShrBit(i, n - k, q);
        if q < k {
          AndBit(i, mask, q + (n - k));
          ShlBit(sel, n - k, q + (n - k));
        } else {
          BitAbove(Bucket(i, n, k), k, q);
          BitAbove(sel, k, q);
        }
      }
      BitsDetermine(Bucket(i, n, k), sel);
    }
    if Bucket(i, n, k) == sel {
      forall q: nat ensures Bit(a, q) == Bit(t, q) {
        AndBit(i, mask, q);
        ShlBit(sel, n - k, q);
        if n - k <= q {
          ShrBit(i, n - k, q - (n - k));
          if q >= n {
            BitAbove(i, n, q);
            BitAbove(sel, k, q - (n - k));
          }
        }
      }
      BitsDetermine(a, t);
    }
  }

  // ---------------------------------------------------------------------
  // Bucket totals

  function Sum(s: seq<real>): (r: real)
  {
    if s == [] then 0.0 else Sum(s[..|s| - 1]) + s[|s| - 1]
  }

  /** The total weight of the indices below m that fall in bucket b. */
  function BucketWeight(v: seq<Complex>, n: nat, k: nat, b: nat, m: nat): (w: real)
    requires k <= n && m <= |v|
    ensures w >= 0.0
  {
    if m == 0 then 0.0
    else BucketWeight(v, n, k, b, m - 1) + (if Bucket(m - 1, n, k) == b then Weight(v[m - 1]) else 0.0)
  }

  lemma {:induction false} SumOfZeros(m: nat)
    ensures Sum(seq(m, _ => 0.0)) == 0.0
    decreases m
  {
    if m > 0 {
      assert seq(m, _ => 0.0)[..m - 1] == seq(m - 1, _ => 0.0);
      SumOfZeros(m - 1);
    }
  }

  /** Adding w to one entry adds w to the sum. */
  lemma {:induction false} SumUpdate(s: seq<real>, j: nat, w: real)
    requires j < |s|
    ensures Sum(s[j := s[j] + w]) == Sum(s) + w
    decreases |s|
  {
    var t := s[j := s[j] + w];
    if j < |s| - 1 {
      assert t[..|t| - 1] == s[..|s| - 1][j := s[j] + w];
      SumUpdate(s[..|s| - 1], j, w);
    } else {
      assert t[..|t| - 1] == s[..|s| - 1];
    }
  }

  /**
   * prob[b] is the weight of bucket b, and the bucket totals add up to
   * the weight of the whole state.
   */
  method BucketTotals(v: seq<Complex>, n: nat, k: nat, mask: nat) returns (prob: seq<real>)
    requires k <= n && IsTopMask(mask, n, k) && |v| == Pow2(n)
    ensures |prob| == Pow2(k)
    ensures forall b :: 0 <= b < Pow2(k) ==> prob[b] == BucketWeight(v, n, k, b, |v|)
    ensures Sum(prob) == TotalWeight(v)
  {
    var shiftBits := n - k;
    prob := seq(Pow2(k), _ => 0.0);
    SumOfZeros(Pow2(k));
    for i := 0 to |v|
      invariant |prob| == Pow2(k)
      invariant forall b :: 0 <= b < Pow2(k) ==> prob[b] == BucketWeight(v, n, k, b, i)
      invariant Sum(prob) == TotalWeight(v[..i])
    {
      var probIdx := Shr(And(i, mask), shiftBits);
      MaskedBucket(i, mask, n, k);
      BucketBelow(i, n, k);
      SumUpdate(prob, probIdx, Weight(v[i]));
      assert v[..i + 1][..i] == v[..i];
      prob := prob[probIdx := prob[probIdx] + Weight(v[i])];
    }
    assert v[..|v|] == v;
  }

  method TotalProb(prob: seq<real>) returns (totprob: real)
    ensures totprob == Sum(prob)
  {
    totprob := 0.0;
    for i := 0 to |prob|
      invariant totprob == Sum(prob[..i])
    {
      assert prob[..i + 1][..i] == prob[..i];
      totprob := totprob + prob[i];
    }
    assert prob[..|prob|] == prob;
  }

  // ---------------------------------------------------------------------
  // Selecting the outcome

  /** The weight of the buckets before bucket i. */
  function Cum(p: seq<real>, i: nat): (r: real)
    requires i <= |p|
  {
    Sum(p[..i])
  }

  /** The toss falls in bucket i's interval (Cum(i), Cum(i) + p[i]]. */
  predicate InSlot(p: seq<real>, toss: real, i: nat)
    requires i < |p|
  {
    Cum(p, i) < toss <= Cum(p, i) + p[i]
  }

  /**
   * The bucket chosen after looking at the first m buckets: the last of
   * them whose interval holds the toss, or the last bucket by default.
   */
  function SelectUpTo(p: seq<real>, toss: real, m: nat): (sel: nat)
    requires 0 < |p| && m <= |p|
    ensures sel < |p|
  {
    if m == 0 then |p| - 1
    else if InSlot(p, toss, m - 1) then m - 1
    else SelectUpTo(p, toss, m - 1)
  }

  function Selection(p: seq<real>, toss: real): (sel: nat)
    requires 0 < |p|
    ensures sel < |p|
  {
    SelectUpTo(p, toss, |p|)
  }

  method SelectOutcome(prob: seq<real>, toss: real) returns (sel: nat)
    requires 0 < |prob|
    ensures sel == Selection(prob, toss)
  {
    sel := |prob| - 1;
    var cumprob := 0.0;
    for i := 0 to |prob|
      invariant cumprob == Cum(prob, i)
      invariant sel == SelectUpTo(prob, toss, i)
    {
      if toss > cumprob && toss <= cumprob + prob[i] {
        sel := i;
      }
      assert prob[..i + 1][..i] == prob[..i];
      cumprob := cumprob + prob[i];
    }
  }

  predicate NonNegative(p: seq<real>)
  {
    forall i :: 0 <= i < |p| ==> p[i] >= 0.0
  }

  lemma {:induction false} CumMonotone(p: seq<real>, i: nat, j: nat)
    requires NonNegative(p) && i <= j <= |p|
    ensures Cum(p, i) <= Cum(p, j)
    decreases j - i
  {
    if i < j {
      CumMonotone(p, i, j - 1);
      assert p[..j][..j - 1] == p[..j - 1];
    }
  }

  lemma CumStep(p: seq<real>, i: nat)
    requires i < |p|
    ensures Cum(p, i + 1) == Cum(p, i) + p[i]
  {
    assert p[..i + 1][..i] == p[..i];
  }

  /** With non-negative weights no two intervals overlap. */
  lemma SlotsDisjoint(p: seq<real>, toss: real, i: nat, j: nat)
    requires NonNegative(p) && i < j < |p| && InSlot(p, toss, i)
    ensures !InSlot(p, toss, j)
  {
    CumStep(p, i);
    CumMonotone(p, i + 1, j);
  }

  lemma {:induction false} SelectUpToSlot(p: seq<real>, toss: real, m: nat, i: nat)
    requires NonNegative(p) && i < m <= |p| && InSlot(p, toss, i)
    ensures SelectUpTo(p, toss, m) == i
    decreases m
  {
    if m - 1 > i {
      SlotsDisjoint(p, toss, i, m - 1);
      SelectUpToSlot(p, toss, m - 1, i);
    }
  }

  /** If the toss lies in bucket i's interval, bucket i is selected. */
  lemma SelectionInSlot(p: seq<real>, toss: real, i: nat)
    requires NonNegative(p) && i < |p| && InSlot(p, toss, i)
    ensures Selection(p, toss) == i
  {
    SelectUpToSlot(p, toss, |p|, i);
  }

  lemma {:induction false} SelectUpToDefault(p: seq<real>, toss: real, m: nat)
    requires 0 < |p| && m <= |p|
    requires forall i :: 0 <= i < m ==> !InSlot(p, toss, i)
    ensures SelectUpTo(p, toss, m) == |p| - 1
    decreases m
  {
    if m > 0 {
      SelectUpToDefault(p, toss, m - 1);
    }
  }

  /** If no interval holds the toss, the last bucket is selected. */
  lemma SelectionDefault(p: seq<real>, toss: real)
    requires 0 < |p|
    requires forall i :: 0 <= i < |p| ==> !InSlot(p, toss, i)
    ensures Selection(p, toss) == |p| - 1
  {
    SelectUpToDefault(p, toss, |p|);
  }

  /**
   * A toss of exactly 0, which `random()` can return, lies in no interval
   * (each starts at a running total that is at least 0 and is open there),
   * so the last bucket is chosen whatever its weight.
   */
  lemma ZeroTossSelectsLast(p: seq<real>)
    requires 0 < |p| && NonNegative(p)
    ensures Selection(p, 0.0) == |p| - 1
  {
    forall i | 0 <= i < |p| ensures !InSlot(p, 0.0, i) {
      CumMonotone(p, 0, i);
      assert p[..0] == [];
    }
    SelectionDefault(p, 0.0);
  }

  /** So with weights [1, 0] a zero toss selects the outcome of weight 0. */
  lemma ZeroTossSelectsEmptyOutcome()
    ensures Selection([1.0, 0.0], 0.0) == 1 && [1.0, 0.0][1] == 0.0
  {
    ZeroTossSelectsLast([1.0, 0.0]);
  }

  lemma {:induction false} SomeSlot(p: seq<real>, toss: real, m: nat) returns (i: nat)
    requires NonNegative(p) && m <= |p| && 0.0 < toss <= Cum(p, m)
    ensures i < m && InSlot(p, toss, i)
    decreases m
  {
    if m == 0 {
      assert false;
    }
    CumStep(p, m - 1);
    if toss > Cum(p, m - 1) {
      i := m - 1;
    } else {
      i := SomeSlot(p, toss, m - 1);
    }
  }

  /**
   * A toss in (0, total] always lands in the interval of the selected
   * bucket, which therefore has a positive weight.
   */
  lemma SelectionCovers(p: seq<real>, toss: real)
    requires 0 < |p| && NonNegative(p) && 0.0 < toss <= Sum(p)
    ensures InSlot(p, toss, Selection(p, toss)) && p[Selection(p, toss)] > 0.0
  {
    assert p[..|p|] == p;
    var i := SomeSlot(p, toss, |p|);
    SelectionInSlot(p, toss, i);
  }

  // ---------------------------------------------------------------------
  // Decoding the outcome

  /** The measured bits, most significant first: entry t is bit k-1-t of sel. */
  method DecodeBits(sel: nat, k: nat) returns (measVal: seq<nat>)
    ensures measVal == MsbBits(sel, k)
    ensures |measVal| == k && IsBitList(measVal)
    ensures forall t :: 0 <= t < k ==> measVal[t] == Bit(sel, k - 1 - t)
    ensures sel < Pow2(k) ==> FromMsb(measVal) == sel
  {
    measVal := [];
    var i: nat := k;
    while i > 0
      invariant i <= k && |measVal| == k - i
      invariant forall t :: 0 <= t < |measVal| ==> measVal[t] == Bit(sel, k - 1 - t)
    {
      i := i - 1;
      SingleBitTest(sel, i);
      if And(sel, Shl(1, i)) == 0 {
        measVal := measVal + [0];
      } else {
        measVal := measVal + [1];
      }
    }
    MsbBitsLength(sel, k);
    forall t | 0 <= t < k ensures measVal[t] == MsbBits(sel, k)[t] {
      MsbBitsAt(sel, k, t);
    }
    if sel < Pow2(k) {
      FromMsbBits(sel, k);
    }
  }

  // ---------------------------------------------------------------------
  // Collapse

  /** The state after the collapse: bucket sel scaled by f, every other entry 0. */
  function Collapsed(v: seq<Complex>, n: nat, k: nat, sel: nat, f: real): (r: seq<Complex>)
    requires k <= n
    ensures |r| == |v|
  {
    seq(|v|, i requires 0 <= i < |v| => if Bucket(i, n, k) == sel then Scale(v[i], f) else Zero)
  }

  /** Overwrites every entry of the state in turn, as the original does in place. */
  method Collapse(state: seq<Complex>, n: nat, k: nat, mask: nat, sel: nat, factor: real) returns (s: seq<Complex>)
    requires k <= n && IsTopMask(mask, n, k) && |state| == Pow2(n) && sel < Pow2(k)
    ensures s == Collapsed(state, n, k, sel, factor)
  {
    var shiftBits := n - k;
    var toMatch := Shl(sel, shiftBits);
    s := state;
    for i := 0 to |s|
      invariant |s| == |state|
      invariant forall j :: 0 <= j < i ==> s[j] == Collapsed(state, n, k, sel, factor)[j]
      invariant forall j :: i <= j < |s| ==> s[j] == state[j]
    {
      MatchTest(i, mask, n, k, sel);
      if And(i, mask) == toMatch {
        s := s[i := Scale(s[i], factor)];
      } else {
        s := s[i := Zero];
      }
    }
  }

  // ---------------------------------------------------------------------
  // The basis test

  /** Entry (i, j) of p differs from the identity's by more than e. */
  predicate OffIdentity(p: Matrix, i: nat, j: nat, e: real)
    requires WellFormed(p) && i < p.rows && j < p.cols && e >= 0.0
  {
    if i != j then AbsExceeds(p.at[i][j], e) else AbsExceeds(Sub(p.at[i][j], One), e)
  }

  predicate NearIdentity(p: Matrix, e: real)
    requires WellFormed(p) && e >= 0.0
  {
    forall i, j :: 0 <= i < p.rows && 0 <= j < p.cols ==> !OffIdentity(p, i, j, e)
  }

  /**
   * The orthonormality test on a square basis matrix b: b times its plain
   * (not conjugated) transpose must be the identity within maxerr.
   */
  method CheckOrthonormal(bmat: Matrix) returns (isok: bool)
    requires WellFormed(bmat) && bmat.rows == bmat.cols
    ensures isok == NearIdentity(MatMul(bmat, Transpose(bmat)), MaxErr)
  {
    isok := true;
    var r := bmat.rows;
    var trpbasis := Transpose(bmat);
    var pmat := MatMul(bmat, trpbasis);
    for i := 0 to r
      invariant isok <==> forall i', j' :: 0 <= i' < i && 0 <= j' < r ==> !OffIdentity(pmat, i', j', MaxErr)
    {
      for j := 0 to r
        invariant isok <==> (forall i', j' :: 0 <= i' < i && 0 <= j' < r ==> !OffIdentity(pmat, i', j', MaxErr))
                            && (forall j' :: 0 <= j' < j ==> !OffIdentity(pmat, i, j', MaxErr))
      {
        ghost var before := isok;
        if i != j {
          if AbsExceeds(pmat.at[i][j], MaxErr) {
            isok := false;
          }
        } else {
          if AbsExceeds(Sub(pmat.at[i][j], One), MaxErr) {
            isok := false;
          }
        }
        assert isok == (before && !OffIdentity(pmat, i, j, MaxErr));
      }
    }
  }

  // ---------------------------------------------------------------------
  // The whole measurement

  /** `np.kron(b, np.eye(2^(n-k))) * v`: b applied to the k most significant qubits. */
  function BasisChange(n: nat, k: nat, b: Matrix, v: seq<Complex>): (r: seq<Complex>)
    requires k <= n && WellFormed(b) && b.rows == Pow2(k) && b.cols == Pow2(k) && |v| == Pow2(n)
    ensures |r| == Pow2(n)
  {
    Pow2Add(k, n - k);
    MatVec(Kron(b, Identity(Pow2(n - k))), v)
  }

  /** The new state, and the measured bits or the error. */
  datatype Measured = Measured(state: seq<Complex>, outcome: Result<seq<nat>>)

  /** The bucket totals of a state whose top k bits are the measured qubits. */
  function Totals(x: seq<Complex>, n: nat, k: nat): (prob: seq<real>)
    requires k <= n && |x| == Pow2(n)
    ensures |prob| == Pow2(k) && NonNegative(prob)
  {
    seq(Pow2(k), b requires 0 <= b => BucketWeight(x, n, k, b, |x|))
  }

  /** The basis, if one is given, passes the three checks `qmeasure` makes of it. */
  predicate BasisUsable(basis: Option<Matrix>, k: nat)
    requires basis.Some? ==> WellFormed(basis.value)
  {
    basis.Some? ==>
      basis.value.rows == basis.value.cols
      && NearIdentity(MatMul(basis.value, Transpose(basis.value)), MaxErr)
      && basis.value.rows == Pow2(k)
  }

  /** The state the probabilities are read from: permuted, then changed to the basis. */
  function Prepared(n: nat, v: seq<Complex>, qbits: seq<nat>, basis: Option<Matrix>): (x: seq<Complex>)
    requires ValidQubitList(qbits, n) && |v| == Pow2(n)
    requires basis.Some? ==> WellFormed(basis.value)
    requires BasisUsable(basis, |qbits|)
    ensures |x| == Pow2(n)
  {
    QubitListBound(qbits, n);
    RealignIsOrdering(qbits, n);
    MapsInRange(Realign(qbits, n), n);
    var w := Permute(ForwardMap(Realign(qbits, n), n), v);
    if basis.Some? then BasisChange(n, |qbits|, basis.value, w) else w
  }

  /**
   * Lines 117-159 of `qmeasure` on a state x whose top k bits are the
   * measured qubits: a total weight off 1 by more than maxproberr is
   * rejected and x is left as it is; otherwise the bucket the toss selects is
   * kept, scaled by 1/sqrt(its weight), the rest is zeroed, and the bucket
   * number is returned as k bits.
   */
  function Outcome(x: seq<Complex>, n: nat, k: nat, toss: real, invSqrt: real -> real): (m: Measured)
    requires k <= n && |x| == Pow2(n)
    ensures |m.state| == Pow2(n)
    ensures m.outcome.Err? <==> AbsReal(TotalWeight(x) - 1.0) > MaxProbErr
    ensures m.outcome.Err? ==> m.outcome.error == TotalProbability && m.state == x
    ensures m.outcome.Ok? ==> |m.outcome.value| == k && IsBitList(m.outcome.value)
                              && FromMsb(m.outcome.value) < Pow2(k)
  {
    if AbsReal(TotalWeight(x) - 1.0) > MaxProbErr then Measured(x, Err(TotalProbability))
    else
      var prob := Totals(x, n, k);
      var sel := Selection(prob, toss);
      MsbBitsAreBits(sel, k);
      FromMsbBits(sel, k);
      Measured(Collapsed(x, n, k, sel, invSqrt(prob[sel])), Ok(MsbBits(sel, k)))
  }

  /** The loops of lines 117-159, one after the other. */
  method SelectAndCollapse(x: seq<Complex>, n: nat, k: nat, toss: real, invSqrt: real -> real)
    returns (m: Measured)
    requires k <= n && |x| == Pow2(n)
    ensures m == Outcome(x, n, k, toss, invSqrt)
  {
    var qbitmask := QbitMask(n, k);
    var prob := BucketTotals(x, n, k, qbitmask);
    var totprob := TotalProb(prob);
    if AbsReal(totprob - 1.0) > MaxProbErr {
      return Measured(x, Err(TotalProbability));
    }
    assert prob == Totals(x, n, k);
    var sel := SelectOutcome(prob, toss);
    var probVal := prob[sel];
    var measVal := DecodeBits(sel, k);
    var collapsed := Collapse(x, n, k, qbitmask, sel, invSqrt(probVal));
    return Measured(collapsed, Ok(measVal));
  }

  /**
   * `qmeasure` on state v, with the toss `rnd.random()` and the function
   * 1/sqrt given as parameters:
   *  - a basis that is not square, or fails the orthonormality test, is
   *    rejected before the state is touched;
   *  - the state is permuted so that the targets are the top qubits; a
   *    basis whose size is not 2^k cannot be applied to it;
   *  - on the prepared state, `Outcome` either rejects the total weight or
   *    collapses it; after a collapse the basis change and the permutation
   *    are undone.
   */
  function MeasureSpec(n: nat, v: seq<Complex>, qbits: seq<nat>, basis: Option<Matrix>,
                       toss: real, invSqrt: real -> real): (m: Measured)
    requires ValidQubitList(qbits, n) && |v| == Pow2(n)
    requires basis.Some? ==> WellFormed(basis.value)
    ensures |m.state| == Pow2(n)
    ensures m.outcome == Err(NotSquare) <==> basis.Some? && basis.value.rows != basis.value.cols
    ensures m.outcome == Err(NotOrthonormal)
        <==> basis.Some? && basis.value.rows == basis.value.cols
             && !NearIdentity(MatMul(basis.value, Transpose(basis.value)), MaxErr)
    ensures m.outcome == Err(BasisSize)
        <==> basis.Some? && basis.value.rows == basis.value.cols
             && NearIdentity(MatMul(basis.value, Transpose(basis.value)), MaxErr)
             && basis.value.rows != Pow2(|qbits|)
    ensures m.outcome == Err(TotalProbability)
        <==> BasisUsable(basis, |qbits|)
             && AbsReal(TotalWeight(Prepared(n, v, qbits, basis)) - 1.0) > MaxProbErr
    ensures m.outcome.Ok?
        <==> BasisUsable(basis, |qbits|)
             && AbsReal(TotalWeight(Prepared(n, v, qbits, basis)) - 1.0) <= MaxProbErr
    ensures m.outcome == Err(NotSquare) || m.outcome == Err(NotOrthonormal) ==> m.state == v
    ensures m.outcome == Err(BasisSize) ==> m.state == Prepared(n, v, qbits, None)
    ensures m.outcome == Err(TotalProbability) ==> m.state == Prepared(n, v, qbits, basis)
    ensures m.outcome.Ok? ==> |m.outcome.value| == |qbits| && IsBitList(m.outcome.value)
  {
    var k := |qbits|;
    QubitListBound(qbits, n);
    RealignIsOrdering(qbits, n);
    MapsInRange(Realign(qbits, n), n);
    if basis.Some? && basis.value.rows != basis.value.cols then Measured(v, Err(NotSquare))
    else if basis.Some? && !NearIdentity(MatMul(basis.value, Transpose(basis.value)), MaxErr) then
      Measured(v, Err(NotOrthonormal))
    else if basis.Some? && basis.value.rows != Pow2(k) then
      Measured(Permute(ForwardMap(Realign(qbits, n), n), v), Err(BasisSize))
    else
      var o := Outcome(Prepared(n, v, qbits, basis), n, k, toss, invSqrt);
      if o.outcome.Err? then o
      else
        var y := if basis.Some? then BasisChange(n, k, ConjTranspose(basis.value), o.state) else o.state;
        Measured(Permute(InverseMap(Realign(qbits, n), n), y), o.outcome)
  }

  // ---------------------------------------------------------------------
  // Permutations keep the total weight

  /** The weights |a|^2 of the entries of v. */
  function Weights(v: seq<Complex>): (w: seq<real>)
    ensures |w| == |v| && forall i :: 0 <= i < |v| ==> w[i] == Weight(v[i])
  {
    seq(|v|, i requires 0 <= i < |v| => Weight(v[i]))
  }

  lemma {:induction false} TotalWeightIsSum(v: seq<Complex>)
    ensures TotalWeight(v) == Sum(Weights(v))
    decreases |v|
  {
    if v != [] {
      TotalWeightIsSum(v[..|v| - 1]);
      assert Weights(v)[..|v| - 1] == Weights(v[..|v| - 1]);
    }
  }

  /** p lists every index below |p| exactly once. */
  predicate IsPermutation(p: seq<nat>)
  {
    (forall i :: 0 <= i < |p| ==> p[i] < |p|)
    && (forall i, j :: 0 <= i < j < |p| ==> p[i] != p[j])
    && (forall s :: 0 <= s < |p| ==> s in p)
  }

  /** The entries of w, read in the order p gives. */
  function Reindexed(w: seq<real>, p: seq<nat>): (r: seq<real>)
    requires InRange(p, |w|)
    ensures |r| == |p| && forall i :: 0 <= i < |p| ==> r[i] == w[p[i]]
  {
    seq(|p|, i requires 0 <= i < |p| => w[p[i]])
  }

  /**
   * p without its last index |p| - 1, found at position j: the entry at the
   * last position takes j's place.
   */
  function Dropped(p: seq<nat>, j: nat): (q: seq<nat>)
    requires 0 <= j < |p|
    ensures |q| == |p| - 1
    ensures forall i :: 0 <= i < |q| ==> q[i] == if i == j then p[|p| - 1] else p[i]
  {
    if j == |p| - 1 then p[..j] else p[..|p| - 1][j := p[|p| - 1]]
  }

  lemma DroppedIsPermutation(p: seq<nat>, j: nat)
    requires IsPermutation(p) && 0 <= j < |p| && p[j] == |p| - 1
    ensures IsPermutation(Dropped(p, j))
  {
    var m := |p| - 1;
    var q := Dropped(p, j);
    forall i | 0 <= i < m ensures q[i] < m {
      if i == j {
        assert p[m] != p[j];
      } else {
        assert p[i] != p[j];
      }
    }
    forall x | 0 <= x < m ensures x in q {
      assert x in p;
      var i :| 0 <= i < |p| && p[i] == x;
      if i == m {
        assert q[j] == x;
      } else {
        assert i != j && q[i] == x;
      }
    }
  }

  /** Dropping the last index from p takes its weight out of the reindexed sum. */
  lemma DroppedSum(w: seq<real>, p: seq<nat>, j: nat)
    requires |p| == |w| && IsPermutation(p) && 0 <= j < |p| && p[j] == |p| - 1
    ensures IsPermutation(Dropped(p, j))
    ensures Sum(Reindexed(w, p)) == Sum(Reindexed(w[..|p| - 1], Dropped(p, j))) + w[|p| - 1]
  {
    var m := |p| - 1;
    DroppedIsPermutation(p, j);
    var s := Reindexed(w, p);
    var t := s[..m];
    var s' := Reindexed(w[..m], Dropped(p, j));
    assert Sum(s) == Sum(t) + w[p[m]];
    if j == m {
      assert s' == t;
    } else {
      var d := w[p[m]] - w[m];
      assert s' == t[j := t[j] + d];
      SumUpdate(t, j, d);
    }
  }

  /**
   * Reading a sequence in the order of a permutation leaves its sum
   * unchanged. The last index's position j in p takes the entry at the last
   * position, which reduces the claim to the first |p| - 1 entries.
   */
  lemma {:induction false} SumReindex(w: seq<real>, p: seq<nat>)
    requires |p| == |w| && IsPermutation(p)
    ensures Sum(Reindexed(w, p)) == Sum(w)
    decreases |p|
  {
    if |p| > 0 {
      var m := |p| - 1;
      assert m in p;
      var j :| 0 <= j < |p| && p[j] == m;
      DroppedSum(w, p, j);
      SumReindex(w[..m], Dropped(p, j));
      assert w[..m] == w[..|w| - 1];
    }
  }

  /** The permutation that brings the targets to the top keeps the total weight of a state. */
  lemma PermuteKeepsWeight(order: seq<nat>, n: nat, v: seq<Complex>)
    requires IsOrdering(order, n) && |v| == Pow2(n)
    ensures InRange(ForwardMap(order, n), |v|)
    ensures TotalWeight(Permute(ForwardMap(order, n), v)) == TotalWeight(v)
  {
    var p := ForwardMap(order, n);
    ShuffleBijective(order, n);
    MapsInRange(order, n);
    forall x | 0 <= x < |p| ensures x in p {
      assert p[InverseMap(order, n)[x]] == x;
    }
    var u := Permute(p, v);
    TotalWeightIsSum(u);
    TotalWeightIsSum(v);
    assert Weights(u) == Reindexed(Weights(v), p);
    SumReindex(Weights(v), p);
  }

  /**
   * A standard-basis measurement succeeds exactly when the state's total
   * weight is within maxproberr of 1, and otherwise fails with
   * TotalProbability.
   */
  lemma StandardMeasurementSucceeds(n: nat, v: seq<Complex>, qbits: seq<nat>, toss: real, invSqrt: real -> real)
    requires ValidQubitList(qbits, n) && |v| == Pow2(n)
    ensures MeasureSpec(n, v, qbits, None, toss, invSqrt).outcome.Ok?
        <==> AbsReal(TotalWeight(v) - 1.0) <= MaxProbErr
    ensures MeasureSpec(n, v, qbits, None, toss, invSqrt).outcome.Err?
        ==> MeasureSpec(n, v, qbits, None, toss, invSqrt).outcome == Err(TotalProbability)
  {
    RealignIsOrdering(qbits, n);
    PermuteKeepsWeight(Realign(qbits, n), n, v);
    assert Prepared(n, v, qbits, None) == Permute(ForwardMap(Realign(qbits, n), n), v);
  }

  /** Index s lies in bucket sel after the permutation exactly when its target bits spell sel. */
  lemma GatherMatches(s: nat, qbits: seq<nat>, sel: nat)
    requires sel < Pow2(|qbits|)
    ensures |MsbBits(sel, |qbits|)| == |qbits|
    ensures Gather(s, qbits) == sel <==> forall t :: 0 <= t < |qbits| ==> Bit(s, qbits[t]) == MsbBits(sel, |qbits|)[t]
  {
    var k := |qbits|;
    var g := Gather(s, qbits);
    MsbBitsLength(sel, k);
    forall t | 0 <= t < k ensures Bit(s, qbits[t]) == Bit(g, k - 1 - t) && MsbBits(sel, k)[t] == Bit(sel, k - 1 - t) {
      GatherBit(s, qbits, t);
      MsbBitsAt(sel, k, t);
    }
    if forall t :: 0 <= t < k ==> Bit(s, qbits[t]) == MsbBits(sel, k)[t] {
      forall q: nat ensures Bit(g, q) == Bit(sel, q) {
        if q < k {
          assert Bit(s, qbits[k - 1 - q]) == MsbBits(sel, k)[k - 1 - q];
        } else {
          BitAbove(g, k, q);
          BitAbove(sel, k, q);
        }
      }
      BitsDetermine(g, sel);
    }
  }

  /** The target bits of s agree with the measured bits. */
  predicate Matches(s: nat, qbits: seq<nat>, measVal: seq<nat>)
    requires |measVal| == |qbits|
  {
    forall t :: 0 <= t < |qbits| ==> Bit(s, qbits[t]) == measVal[t]
  }

  /**
   * Permuting the targets to the top, collapsing onto bucket sel and
   * permuting back keeps, scaled by f, exactly the entries whose target bits
   * spell sel, and zeroes the others.
   */
  lemma CollapseThroughPermutation(n: nat, v: seq<Complex>, qbits: seq<nat>, sel: nat, f: real, s: nat)
    requires ValidQubitList(qbits, n) && |v| == Pow2(n) && s < Pow2(n)
    ensures |qbits| <= n && IsOrdering(Realign(qbits, n), n)
    ensures InRange(ForwardMap(Realign(qbits, n), n), Pow2(n)) && InRange(InverseMap(Realign(qbits, n), n), Pow2(n))
    ensures
      Permute(InverseMap(Realign(qbits, n), n),
              Collapsed(Permute(ForwardMap(Realign(qbits, n), n), v), n, |qbits|, sel, f))[s]
      == if Gather(s, qbits) == sel then Scale(v[s], f) else Zero
  {
    var k := |qbits|;
    var order := Realign(qbits, n);
    TopBitsOfUnshuffle(qbits, n, s);
    MapsInRange(order, n);
    var w := Permute(ForwardMap(order, n), v);
    var u := Unshuffle(s, order, n);
    ShuffleBelow(s, order, n);
    ShuffleUnshuffle(s, order, n);
    assert w[u] == v[s];
  }

  /** In the standard basis a successful measurement is the collapse onto the selected bucket. */
  lemma StandardMeasurementUnfold(n: nat, v: seq<Complex>, qbits: seq<nat>, toss: real, invSqrt: real -> real)
    requires ValidQubitList(qbits, n) && |v| == Pow2(n)
    requires MeasureSpec(n, v, qbits, None, toss, invSqrt).outcome.Ok?
    ensures |qbits| <= n && IsOrdering(Realign(qbits, n), n)
    ensures InRange(ForwardMap(Realign(qbits, n), n), Pow2(n)) && InRange(InverseMap(Realign(qbits, n), n), Pow2(n))
    ensures
      var w := Permute(ForwardMap(Realign(qbits, n), n), v);
      var prob := Totals(w, n, |qbits|);
      var sel := Selection(prob, toss);
      var m := MeasureSpec(n, v, qbits, None, toss, invSqrt);
      m.outcome.value == MsbBits(sel, |qbits|)
      && m.state == Permute(InverseMap(Realign(qbits, n), n), Collapsed(w, n, |qbits|, sel, invSqrt(prob[sel])))
  {
    QubitListBound(qbits, n);
    RealignIsOrdering(qbits, n);
    MapsInRange(Realign(qbits, n), n);
    assert Prepared(n, v, qbits, None) == Permute(ForwardMap(Realign(qbits, n), n), v);
  }

  /**
   * Measuring in the standard basis, when it succeeds, returns k bits, one
   * per target in the order listed, and leaves every basis state whose
   * target bits differ from them at 0 and every other one scaled by the
   * same factor: 1/sqrt of the outcome's weight.
   */
  lemma StandardMeasurement(n: nat, v: seq<Complex>, qbits: seq<nat>, toss: real, invSqrt: real -> real, s: nat)
    requires ValidQubitList(qbits, n) && |v| == Pow2(n) && s < Pow2(n)
    requires MeasureSpec(n, v, qbits, None, toss, invSqrt).outcome.Ok?
    ensures var m := MeasureSpec(n, v, qbits, None, toss, invSqrt);
      var measVal := m.outcome.value;
      |qbits| <= n && |measVal| == |qbits| && IsBitList(measVal) && FromMsb(measVal) < Pow2(|qbits|)
      && m.state[s] == if Matches(s, qbits, measVal)
                       then Scale(v[s], invSqrt(OutcomeWeight(n, v, qbits, FromMsb(measVal))))
                       else Zero
  {
    var k := |qbits|;
    StandardMeasurementUnfold(n, v, qbits, toss, invSqrt);
    var order := Realign(qbits, n);
    var w := Permute(ForwardMap(order, n), v);
    var prob := Totals(w, n, k);
    var sel := Selection(prob, toss);
    var f := invSqrt(prob[sel]);
    var measVal := MsbBits(sel, k);
    FromMsbBits(sel, k);
    MsbBitsLength(sel, k);
    forall t | 0 <= t < k ensures measVal[t] <= 1 {
      MsbBitsAt(sel, k, t);
    }
    assert IsBitList(measVal);
    MsbBitsFrom(measVal);
    assert FromMsb(measVal) == sel;
    assert prob[sel] == OutcomeWeight(n, v, qbits, sel);
    CollapseThroughPermutation(n, v, qbits, sel, f, s);
    GatherMatches(s, qbits, sel);
  }

  /** The weight of outcome sel: the weight of bucket sel of the permuted state. */
  function OutcomeWeight(n: nat, v: seq<Complex>, qbits: seq<nat>, sel: nat): (w: real)
    requires ValidQubitList(qbits, n) && |v| == Pow2(n)
    ensures w >= 0.0
  {
    QubitListBound(qbits, n);
    RealignIsOrdering(qbits, n);
    MapsInRange(Realign(qbits, n), n);
    BucketWeight(Permute(ForwardMap(Realign(qbits, n), n), v), n, |qbits|, sel, |v|)
  }
}

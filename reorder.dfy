// Qubit reordering. To act on (or measure) a list of target qubits the
// simulator permutes the basis so that the targets become the most
// significant qubits, in the order they were listed:
//  * `RealignList` extends the target list to an ordering of all n qubits;
//  * `ShuffledCount` turns an ordering into a map on basis-state indices:
//    bit b of i moves to bit order[n-1-b];
//  * `RmatRrmat` builds the forward and inverse permutation matrices. A
//    permutation matrix is kept as the index map of its rows: row i of the
//    forward matrix rmat is the unit row e_{rmat[i]}, so (rmat * v)[i] is
//    v[rmat[i]], and likewise for rrmat.
module Reorder {
  import opened Bits

  predicate Distinct(s: seq<nat>)
  {
    forall i, j :: 0 <= i < j < |s| ==> s[i] != s[j]
  }

  predicate InRange(s: seq<nat>, n: nat)
  {
    forall j :: 0 <= j < |s| ==> s[j] < n
  }

  /**
   * A list of target qubits the simulator can act on: distinct qubit
   * numbers below n. The original does not check this (it is marked as
   * still to be done), so the model demands it of callers.
   */
  predicate ValidQubitList(qbits: seq<nat>, n: nat)
  {
    Distinct(qbits) && InRange(qbits, n)
  }

  /** `order` lists every qubit 0 .. n-1 exactly once. */
  predicate IsOrdering(order: seq<nat>, n: nat)
  {
    |order| == n && Distinct(order) && InRange(order, n)
    && forall x: nat :: x < n ==> x in order
  }

  // ---------------------------------------------------------------------
  // Counting

  function Elements(s: seq<nat>): (r: set<nat>)
  {
    set x | x in s
  }

  lemma {:induction false} DistinctCard(s: seq<nat>)
    requires Distinct(s)
    ensures |Elements(s)| == |s|
    decreases |s|
  {
    if s != [] {
      var init, last := s[..|s| - 1], s[|s| - 1];
      assert s == init + [last];
      assert Elements(s) == Elements(init) + {last};
      assert last !in Elements(init);
      assert Distinct(init);
      DistinctCard(init);
    }
  }

  /** The set {0, ..., n-1}. */
  function Below(n: nat): (r: set<nat>)
  {
    if n == 0 then {} else Below(n - 1) + {n - 1}
  }

  lemma {:induction false} BelowMembers(n: nat, x: nat)
    ensures x in Below(n) <==> x < n
    decreases n
  {
    if n > 0 {
      BelowMembers(n - 1, x);
    }
  }

  lemma {:induction false} BelowCard(n: nat)
    ensures |Below(n)| == n
    decreases n
  {
    if n > 0 {
      BelowMembers(n - 1, n - 1);
      BelowCard(n - 1);
    }
  }

  /** A valid target list names at most n qubits. */
  lemma QubitListBound(qbits: seq<nat>, n: nat)
    requires ValidQubitList(qbits, n)
    ensures |qbits| <= n
  {
    var s := Elements(qbits);
    forall x | x in s ensures x in Below(n) {
      BelowMembers(n, x);
    }
    assert Below(n) == s + (Below(n) - s);
    DistinctCard(qbits);
    BelowCard(n);
  }

  // ---------------------------------------------------------------------
  // __qbit_realign_list

  /** The qubits in [lo, n) missing from l, in descending order. */
  function Absent(l: seq<nat>, lo: nat, n: nat): (r: seq<nat>)
    decreases n - lo
  {
    if lo >= n then [] else Absent(l, lo + 1, n) + (if lo in l then [] else [lo])
  }

  /** The full ordering the simulator builds for a target list. */
  function Realign(qbits: seq<nat>, n: nat): (r: seq<nat>)
  {
    qbits + Absent(qbits, 0, n)
  }

  /**
   * Copies the target list and appends, from n-1 down to 0, every qubit
   * number not yet in it: the targets come first, unchanged and in the
   * order given, followed by the missing qubits.
   */
  method RealignList(n: nat, qbits: seq<nat>) returns (order: seq<nat>)
    ensures order == Realign(qbits, n)
    ensures |qbits| <= |order| && order[..|qbits|] == qbits
    ensures order[|qbits|..] == Absent(qbits, 0, n)
  {
    order := qbits;
    var i: nat := n;
    while i > 0
      invariant i <= n
      invariant order == qbits + Absent(qbits, i, n)
    {
      i := i - 1;
      AbsentMembers(qbits, i + 1, n, i);
      if i !in order {
        order := order + [i];
      }
    }
  }

  /** Absent(l, lo, n) holds exactly the numbers in [lo, n) that l misses. */
  lemma {:induction false} AbsentMembers(l: seq<nat>, lo: nat, n: nat, x: nat)
    ensures x in Absent(l, lo, n) <==> lo <= x < n && x !in l
    decreases n - lo
  {
    if lo < n {
      AbsentMembers(l, lo + 1, n, x);
    }
  }

  /** The missing qubits are appended in strictly descending order. */
  lemma {:induction false} AbsentDescending(l: seq<nat>, lo: nat, n: nat)
    ensures forall i, j :: 0 <= i < j < |Absent(l, lo, n)| ==> Absent(l, lo, n)[i] > Absent(l, lo, n)[j]
    decreases n - lo
  {
    if lo < n {
      var a := Absent(l, lo + 1, n);
      var r := Absent(l, lo, n);
      AbsentDescending(l, lo + 1, n);
      forall i, j | 0 <= i < j < |r| ensures r[i] > r[j] {
        assert r[i] == a[i];
        if j >= |a| {
          AbsentMembers(l, lo + 1, n, a[i]);
        } else {
          assert r[j] == a[j];
        }
      }
    }
  }

  /** For a valid target list the realigned list is an ordering of all qubits. */
  lemma RealignIsOrdering(qbits: seq<nat>, n: nat)
    requires ValidQubitList(qbits, n)
    ensures IsOrdering(Realign(qbits, n), n)
  {
    var a := Absent(qbits, 0, n);
    var order := Realign(qbits, n);
    forall x: nat ensures x in a <==> x < n && x !in qbits {
      AbsentMembers(qbits, 0, n, x);
    }
    AbsentDescending(qbits, 0, n);
    forall i, j | 0 <= i < j < |order| ensures order[i] != order[j] {
      if j < |qbits| {
      } else if i < |qbits| {
        assert order[j] in a;
      } else {
        assert order[i] == a[i - |qbits|] && order[j] == a[j - |qbits|];
      }
    }
    forall j | 0 <= j < |order| ensures order[j] < n {
      if j >= |qbits| { assert order[j] in a; }
    }
    forall x: nat ensures x in order <==> x in Below(n) {
      BelowMembers(n, x);
    }
    assert Elements(order) == Below(n);
    DistinctCard(order);
    BelowCard(n);
  }

  /** The targets come first; the other qubits all follow them. */
  lemma OrderingOfTargets(qbits: seq<nat>, n: nat, j: nat)
    requires ValidQubitList(qbits, n) && |qbits| <= j < n
    ensures |Realign(qbits, n)| == n && Realign(qbits, n)[j] !in qbits
  {
    RealignIsOrdering(qbits, n);
    var a := Absent(qbits, 0, n);
    assert Realign(qbits, n)[j] == a[j - |qbits|];
    AbsentMembers(qbits, 0, n, a[j - |qbits|]);
  }

  // ---------------------------------------------------------------------
  // Moving bits around: Place(x, from, to, m) gathers bit from[j] of x
  // into bit to[j], for every j < m.

  function Place(x: nat, from: seq<nat>, to: seq<nat>, m: nat): (r: nat)
    requires m <= |from| && m <= |to|
  {
    if m == 0 then 0 else Place(x, from, to, m - 1) + Shl(Bit(x, from[m - 1]), to[m - 1])
  }

  lemma {:induction false} PlaceBitOutside(x: nat, from: seq<nat>, to: seq<nat>, m: nat, q: nat)
    requires m <= |from| && m <= |to|
    requires forall i, i' :: 0 <= i < i' < m ==> to[i] != to[i']
    requires forall j :: 0 <= j < m ==> to[j] != q
    ensures Bit(Place(x, from, to, m), q) == 0
    decreases m
  {
    if m == 0 {
      BitOfZero(q);
    } else {
      var p := Place(x, from, to, m - 1);
      PlaceBitOutside(x, from, to, m - 1, q);
      if Bit(x, from[m - 1]) == 0 {
        ShlOfZero(to[m - 1]);
      } else {
        ShlOfOne(to[m - 1]);
        PlaceBitOutside(x, from, to, m - 1, to[m - 1]);
        AddPowBit(p, to[m - 1], q);
      }
    }
  }

  lemma {:induction false} PlaceBitAt(x: nat, from: seq<nat>, to: seq<nat>, m: nat, j: nat)
    requires m <= |from| && m <= |to| && j < m
    requires forall i, i' :: 0 <= i < i' < m ==> to[i] != to[i']
    ensures Bit(Place(x, from, to, m), to[j]) == Bit(x, from[j])
    decreases m
  {
    var p := Place(x, from, to, m - 1);
    var d := to[m - 1];
    PlaceBitOutside(x, from, to, m - 1, d);
    if j < m - 1 {
      PlaceBitAt(x, from, to, m - 1, j);
    }
    if Bit(x, from[m - 1]) == 0 {
      ShlOfZero(d);
    } else {
      ShlOfOne(d);
      AddPowBit(p, d, to[j]);
    }
  }

  // ---------------------------------------------------------------------
  // __shuffled_count

  function Iota(n: nat): (r: seq<nat>)
    ensures |r| == n && forall b :: 0 <= b < n ==> r[b] == b
  {
    seq(n, b requires 0 <= b => b as nat)
  }

  /** Destination of bit b under the ordering: order[n-1-b]. */
  function Dest(order: seq<nat>, n: nat): (r: seq<nat>)
    requires n <= |order|
    ensures |r| == n && forall b :: 0 <= b < n ==> r[b] == order[n - 1 - b]
  {
    seq(n, b requires 0 <= b < n => order[n - 1 - b])
  }

  /** The index basis state i is sent to: bit b of i becomes bit order[n-1-b]. */
  function Shuffle(i: nat, order: seq<nat>, n: nat): (r: nat)
    requires n <= |order|
  {
    Place(i, Iota(n), Dest(order, n), n)
  }

  /** The reverse move: bit order[n-1-b] of s becomes bit b. */
  function Unshuffle(s: nat, order: seq<nat>, n: nat): (r: nat)
    requires n <= |order|
  {
    Place(s, Dest(order, n), Iota(n), n)
  }

  function ForwardMap(order: seq<nat>, n: nat): (m: seq<nat>)
    requires n <= |order|
    ensures |m| == Pow2(n)
  {
    seq(Pow2(n), i requires 0 <= i => Shuffle(i, order, n))
  }

  function InverseMap(order: seq<nat>, n: nat): (m: seq<nat>)
    requires n <= |order|
    ensures |m| == Pow2(n)
  {
    seq(Pow2(n), s requires 0 <= s => Unshuffle(s, order, n))
  }

  /** Lists, for every index i below 2^n, the index the ordering sends it to. */
  method ShuffledCount(n: nat, bitorder: seq<nat>) returns (shuffled: seq<nat>)
    requires n <= |bitorder|
    ensures shuffled == ForwardMap(bitorder, n)
  {
    shuffled := [];
    var i := 0;
    while i < Pow2(n)
      invariant i <= Pow2(n) && |shuffled| == i
      invariant forall j :: 0 <= j < i ==> shuffled[j] == Shuffle(j, bitorder, n)
    {
      var shfval := 0;
      var b := 0;
      while b < n
        invariant b <= n
        invariant shfval == Place(i, Iota(n), Dest(bitorder, n), b)
      {
        var dstbit := bitorder[n - b - 1];
        ShrAndOne(i, b);
        shfval := shfval + Shl(And(Shr(i, b), 1), dstbit);
        b := b + 1;
      }
      shuffled := shuffled + [shfval];
      i := i + 1;
    }
  }

  lemma DestDistinct(order: seq<nat>, n: nat)
    requires IsOrdering(order, n)
    ensures forall i, i' :: 0 <= i < i' < n ==> Dest(order, n)[i] != Dest(order, n)[i']
  {
  }

  /** Bit b of i is bit order[n-1-b] of its image. */
  lemma ShuffleBit(i: nat, order: seq<nat>, n: nat, b: nat)
    requires IsOrdering(order, n) && b < n
    ensures Bit(Shuffle(i, order, n), order[n - 1 - b]) == Bit(i, b)
  {
    DestDistinct(order, n);
    PlaceBitAt(i, Iota(n), Dest(order, n), n, b);
  }

  /** Bit order[n-1-b] of s is bit b of its preimage. */
  lemma UnshuffleBit(s: nat, order: seq<nat>, n: nat, b: nat)
    requires IsOrdering(order, n) && b < n
    ensures Bit(Unshuffle(s, order, n), b) == Bit(s, order[n - 1 - b])
  {
    PlaceBitAt(s, Dest(order, n), Iota(n), n, b);
  }

  /** Both maps keep every index below 2^n. */
  lemma ShuffleBelow(i: nat, order: seq<nat>, n: nat)
    requires IsOrdering(order, n)
    ensures Shuffle(i, order, n) < Pow2(n) && Unshuffle(i, order, n) < Pow2(n)
  {
    forall q: nat | n <= q ensures Bit(Shuffle(i, order, n), q) == 0 {
      PlaceBitOutside(i, Iota(n), Dest(order, n), n, q);
    }
    BelowFromBits(Shuffle(i, order, n), n);
    forall q: nat | n <= q ensures Bit(Unshuffle(i, order, n), q) == 0 {
      PlaceBitOutside(i, Dest(order, n), Iota(n), n, q);
    }
    BelowFromBits(Unshuffle(i, order, n), n);
  }

  /** Unshuffle undoes Shuffle on [0, 2^n). */
  lemma UnshuffleShuffle(i: nat, order: seq<nat>, n: nat)
    requires IsOrdering(order, n) && i < Pow2(n)
    ensures Unshuffle(Shuffle(i, order, n), order, n) == i
  {
    var s := Shuffle(i, order, n);
    var u := Unshuffle(s, order, n);
    ShuffleBelow(s, order, n);
    forall b: nat ensures Bit(u, b) == Bit(i, b) {
      if b < n {
        UnshuffleBit(s, order, n, b);
        ShuffleBit(i, order, n, b);
      } else {
        BitAbove(u, n, b);
        BitAbove(i, n, b);
      }
    }
    BitsDetermine(u, i);
  }

  /** Shuffle undoes Unshuffle on [0, 2^n). */
  lemma ShuffleUnshuffle(s: nat, order: seq<nat>, n: nat)
    requires IsOrdering(order, n) && s < Pow2(n)
    ensures Shuffle(Unshuffle(s, order, n), order, n) == s
  {
    var u := Unshuffle(s, order, n);
    var t := Shuffle(u, order, n);
    ShuffleBelow(u, order, n);
    forall q: nat ensures Bit(t, q) == Bit(s, q) {
      if q < n {
        assert q in order;
        var j :| 0 <= j < n && order[j] == q;
        ShuffleBit(u, order, n, n - 1 - j);
        UnshuffleBit(s, order, n, n - 1 - j);
      } else {
        BitAbove(t, n, q);
        BitAbove(s, n, q);
      }
    }
    BitsDetermine(t, s);
  }

  /** For an ordering, the shuffle is a bijection of [0, 2^n) onto itself. */
  lemma ShuffleBijective(order: seq<nat>, n: nat)
    requires IsOrdering(order, n)
    ensures forall i :: 0 <= i < Pow2(n) ==> ForwardMap(order, n)[i] < Pow2(n)
    ensures forall i, j :: 0 <= i < j < Pow2(n) ==> ForwardMap(order, n)[i] != ForwardMap(order, n)[j]
    ensures forall s :: 0 <= s < Pow2(n) ==> InverseMap(order, n)[s] < Pow2(n) && ForwardMap(order, n)[InverseMap(order, n)[s]] == s
  {
    var f := ForwardMap(order, n);
    forall i | 0 <= i < Pow2(n) ensures f[i] < Pow2(n) {
      ShuffleBelow(i, order, n);
    }
    forall i, j | 0 <= i < j < Pow2(n) ensures f[i] != f[j] {
      UnshuffleShuffle(i, order, n);
      UnshuffleShuffle(j, order, n);
    }
    forall s | 0 <= s < Pow2(n) ensures InverseMap(order, n)[s] < Pow2(n) && f[InverseMap(order, n)[s]] == s {
      ShuffleBelow(s, order, n);
      ShuffleUnshuffle(s, order, n);
    }
  }

  // ---------------------------------------------------------------------
  // __rmat_rrmat

  /**
   * Builds rmat and rrmat from the identity: row i of rmat becomes the unit
   * row e_{rr[i]}, and row rr[i] of rrmat becomes e_i. The rows are kept as
   * the index maps described above.
   */
  method RmatRrmat(n: nat, qbitReorder: seq<nat>) returns (rmat: seq<nat>, rrmat: seq<nat>)
    requires IsOrdering(qbitReorder, n)
    ensures rmat == ForwardMap(qbitReorder, n)
    ensures rrmat == InverseMap(qbitReorder, n)
  {
    var rr := ShuffledCount(n, qbitReorder);
    var size := Pow2(n);
    rmat := Iota(size);
    rrmat := Iota(size);
    for i := 0 to size
      invariant |rmat| == size && |rrmat| == size
      invariant forall j :: 0 <= j < size ==> rmat[j] == if j < i then rr[j] else j
      invariant forall s :: 0 <= s < size ==>
        rrmat[s] == if Unshuffle(s, qbitReorder, n) < i then Unshuffle(s, qbitReorder, n) else s
    {
      var s := rr[i];
      ShuffleBelow(i, qbitReorder, n);
      UnshuffleShuffle(i, qbitReorder, n);
      forall s' | 0 <= s' < size && s' != s ensures Unshuffle(s', qbitReorder, n) != i {
        ShuffleUnshuffle(s', qbitReorder, n);
      }
      rmat := rmat[i := s];
      rrmat := rrmat[s := i];
    }
    forall s | 0 <= s < size ensures Unshuffle(s, qbitReorder, n) < size {
      ShuffleBelow(s, qbitReorder, n);
    }
  }

  /** (p * v)[i] = v[p[i]] for the permutation matrix with row map p. */
  function Permute<T>(p: seq<nat>, v: seq<T>): (r: seq<T>)
    requires InRange(p, |v|)
    ensures |r| == |p|
  {
    seq(|p|, i requires 0 <= i < |p| => v[p[i]])
  }

  lemma MapsInRange(order: seq<nat>, n: nat)
    requires IsOrdering(order, n)
    ensures InRange(ForwardMap(order, n), Pow2(n)) && InRange(InverseMap(order, n), Pow2(n))
  {
    forall i | 0 <= i < Pow2(n) ensures ForwardMap(order, n)[i] < Pow2(n) && InverseMap(order, n)[i] < Pow2(n) {
      ShuffleBelow(i, order, n);
    }
  }

  /**
   * rmat and rrmat undo each other: applying rmat and then rrmat to a state
   * vector (or the other way round) gives the vector back.
   */
  lemma PermuteRoundTrip<T>(order: seq<nat>, n: nat, v: seq<T>)
    requires IsOrdering(order, n) && |v| == Pow2(n)
    ensures InRange(ForwardMap(order, n), |v|) && InRange(InverseMap(order, n), |v|)
    ensures Permute(InverseMap(order, n), Permute(ForwardMap(order, n), v)) == v
    ensures Permute(ForwardMap(order, n), Permute(InverseMap(order, n), v)) == v
  {
    MapsInRange(order, n);
    var f, g := ForwardMap(order, n), InverseMap(order, n);
    forall s | 0 <= s < |v| ensures Permute(g, Permute(f, v))[s] == v[s] {
      ShuffleBelow(s, order, n);
      ShuffleUnshuffle(s, order, n);
    }
    forall i | 0 <= i < |v| ensures Permute(f, Permute(g, v))[i] == v[i] {
      ShuffleBelow(i, order, n);
      UnshuffleShuffle(i, order, n);
    }
  }

  /** (rrmat * v)[rr[i]] = v[i]: the inverse map puts entry i back at rr[i]. */
  lemma InverseRestores<T>(order: seq<nat>, n: nat, v: seq<T>, i: nat)
    requires IsOrdering(order, n) && |v| == Pow2(n) && i < Pow2(n)
    ensures InRange(InverseMap(order, n), |v|) && ForwardMap(order, n)[i] < Pow2(n)
    ensures Permute(InverseMap(order, n), v)[ForwardMap(order, n)[i]] == v[i]
  {
    MapsInRange(order, n);
    ShuffleBelow(i, order, n);
    UnshuffleShuffle(i, order, n);
  }

  // ---------------------------------------------------------------------
  // Where the targets end up

  /** MsbIndex(k)[t] = k-1-t: slot t of a k-element list is read as bit k-1-t. */
  function MsbIndex(k: nat): (r: seq<nat>)
    ensures |r| == k && forall t :: 0 <= t < k ==> r[t] == k - 1 - t
  {
    seq(k, t requires 0 <= t < k => k - 1 - t)
  }

  /** The k-bit number whose bit k-1-t is bit qbits[t] of x. */
  function Gather(x: nat, qbits: seq<nat>): (g: nat)
    ensures g < Pow2(|qbits|)
  {
    var k := |qbits|;
    forall q: nat | k <= q ensures Bit(Place(x, qbits, MsbIndex(k), k), q) == 0 {
      PlaceBitOutside(x, qbits, MsbIndex(k), k, q);
    }
    BelowFromBits(Place(x, qbits, MsbIndex(k), k), k);
    Place(x, qbits, MsbIndex(k), k)
  }

  lemma GatherBit(x: nat, qbits: seq<nat>, t: nat)
    requires t < |qbits|
    ensures Bit(Gather(x, qbits), |qbits| - 1 - t) == Bit(x, qbits[t])
  {
    PlaceBitAt(x, qbits, MsbIndex(|qbits|), |qbits|, t);
  }

  /**
   * After the forward permutation the target qubit qbits[t] sits at bit
   * position n-1-t: the state at index i holds the old amplitude of
   * Shuffle(i), whose bit qbits[t] is bit n-1-t of i.
   */
  lemma TargetToMsb(qbits: seq<nat>, n: nat, i: nat, t: nat)
    requires ValidQubitList(qbits, n) && t < |qbits|
    ensures IsOrdering(Realign(qbits, n), n)
    ensures Bit(Shuffle(i, Realign(qbits, n), n), qbits[t]) == Bit(i, n - 1 - t)
  {
    RealignIsOrdering(qbits, n);
    QubitListBound(qbits, n);
    ShuffleBit(i, Realign(qbits, n), n, n - 1 - t);
  }

  /**
   * The other qubits fill the lower n-k bit positions, highest-numbered
   * qubit first: the j-th of the missing qubits (in descending order) sits
   * at bit n-1-(k+j).
   */
  lemma OthersBelow(qbits: seq<nat>, n: nat, i: nat, j: nat)
    requires ValidQubitList(qbits, n) && j < |Absent(qbits, 0, n)|
    ensures IsOrdering(Realign(qbits, n), n) && |qbits| + j < n
    ensures Bit(Shuffle(i, Realign(qbits, n), n), Absent(qbits, 0, n)[j]) == Bit(i, n - 1 - (|qbits| + j))
  {
    var order := Realign(qbits, n);
    RealignIsOrdering(qbits, n);
    assert order[|qbits| + j] == Absent(qbits, 0, n)[j];
    ShuffleBit(i, order, n, n - 1 - (|qbits| + j));
  }

  /**
   * The top k bits of the permuted index are the targets: for the preimage
   * u of s, u >> (n-k) is Gather(s, qbits).
   */
  lemma TopBitsOfUnshuffle(qbits: seq<nat>, n: nat, s: nat)
    requires ValidQubitList(qbits, n)
    ensures |qbits| <= n && IsOrdering(Realign(qbits, n), n)
    ensures Shr(Unshuffle(s, Realign(qbits, n), n), n - |qbits|) == Gather(s, qbits)
  {
    var k := |qbits|;
    var order := Realign(qbits, n);
    QubitListBound(qbits, n);
    RealignIsOrdering(qbits, n);
    var u := Unshuffle(s, order, n);
    var top := Shr(u, n - k);
    var g := Gather(s, qbits);
    ShuffleBelow(s, order, n);
    forall q: nat ensures Bit(top, q) == Bit(g, q) {
      ShrBit(u, n - k, q);
      if q < k {
        UnshuffleBit(s, order, n, q + (n - k));
        assert order[n - 1 - (q + (n - k))] == qbits[k - 1 - q];
        GatherBit(s, qbits, k - 1 - q);
      } else {
        BitAbove(u, n, q + (n - k));
        BitAbove(g, k, q);
      }
    }
    BitsDetermine(top, g);
  }

  /** s and c agree on every qubit outside the target list. */
  predicate OutsideAgree(r: nat, c: nat, qbits: seq<nat>, n: nat)
  {
    forall p: nat :: p < n && p !in qbits ==> Bit(r, p) == Bit(c, p)
  }

  /**
   * The low n-k bits of the permuted indices agree exactly when the
   * original indices agree outside the targets.
   */
  lemma LowBitsOfUnshuffle(qbits: seq<nat>, n: nat, r: nat, c: nat)
    requires ValidQubitList(qbits, n)
    ensures |qbits| <= n && IsOrdering(Realign(qbits, n), n)
    ensures (Unshuffle(r, Realign(qbits, n), n) % Pow2(n - |qbits|) == Unshuffle(c, Realign(qbits, n), n) % Pow2(n - |qbits|))
        <==> OutsideAgree(r, c, qbits, n)
  {
    var k := |qbits|;
    var order := Realign(qbits, n);
    QubitListBound(qbits, n);
    RealignIsOrdering(qbits, n);
    var ur, uc := Unshuffle(r, order, n), Unshuffle(c, order, n);
    ModPow2Agree(ur, uc, n - k);
    if OutsideAgree(r, c, qbits, n) {
      forall q: nat | q < n - k ensures Bit(ur, q) == Bit(uc, q) {
        UnshuffleBit(r, order, n, q);
        UnshuffleBit(c, order, n, q);
        OrderingOfTargets(qbits, n, n - 1 - q);
      }
    } else {
      var p: nat :| p < n && p !in qbits && Bit(r, p) != Bit(c, p);
      assert p in order;
      var j :| 0 <= j < n && order[j] == p;
      if j < k {
        assert false;
      }
      UnshuffleBit(r, order, n, n - 1 - j);
      UnshuffleBit(c, order, n, n - 1 - j);
    }
  }
}

// The simulator object: an n-qubit register whose state vector gates and
// measurements update in place, and a counter of the steps applied to it.
module Simulator {
  import opened Bits
  import opened QcErrors
  import opened Algebra
  import opened Reorder
  import opened Embed
  import opened Measure

  class QcSim {
    const nqbits: nat
    /** The 2^nqbits amplitudes; qubit q is bit q of the basis-state index. */
    var sysState: seq<Complex>
    /** The number of gates and measurements applied so far, failed ones included. */
    var stepcount: nat

    ghost predicate Valid()
      reads this
    {
      |sysState| == Pow2(nqbits)
    }

    /**
     * A register of nq qubits, each in |0>, combined by Kronecker products
     * starting from the last: the state |0...0>. The original indexes the
     * last qubit before combining, so it needs at least one qubit.
     */
    constructor (nq: nat)
      requires nq >= 1
      ensures Valid() && nqbits == nq && stepcount == 0
      ensures sysState == ZeroKet(Pow2(nq))
    {
      stepcount := 0;
      nqbits := nq;
      var qbit := seq(nq, _ => [One, Zero]);
      var state := qbit[nq - 1];
      assert state == ZeroKet(Pow2(1));
      var i := nq - 1;
      while i > 0
        invariant 0 <= i <= nq - 1
        invariant state == ZeroKet(Pow2(nq - i))
      {
        i := i - 1;
        KronZeroKet(Pow2(nq - i - 1));
        state := KronVec(state, qbit[i]);
      }
      sysState := state;
    }

    /**
     * `qgate`: counts the step, then applies the operator embedded on the
     * target qubits; when the embedding fails the state is left as it was.
     */
    method QGate(oper: Operator, qbits: seq<nat>) returns (st: Status)
      requires Valid() && ValidQubitList(qbits, nqbits) && WellFormed(oper.mat)
      modifies this
      ensures Valid() && stepcount == old(stepcount) + 1
      ensures var a := Stretched(nqbits, oper.mat, qbits);
        if a.Err? then st == Failed(a.error) && sysState == old(sysState)
        else st == Done && sysState == MatVec(a.value, old(sysState))
    {
      stepcount := stepcount + 1;
      var aOp := StretchedMat(nqbits, oper, qbits);
      if aOp.Err? {
        return Failed(aOp.error);
      }
      sysState := MatVec(aOp.value, sysState);
      return Done;
    }

    /**
     * `qmeasure`: counts the step and measures the listed qubits in the
     * standard basis or in the given one, with `toss` standing for the
     * uniform draw in [0, 1) and `invSqrt` for 1/sqrt. The new state and the
     * answer are those of `MeasureSpec`.
     */
    method QMeasure(qbits: seq<nat>, basis: Option<Operator>, toss: real, invSqrt: real -> real)
      returns (r: Result<seq<nat>>)
      requires Valid() && ValidQubitList(qbits, nqbits)
      requires basis.Some? ==> WellFormed(basis.value.mat)
      modifies this
      ensures Valid() && stepcount == old(stepcount) + 1
      ensures Measured(sysState, r)
           == MeasureSpec(nqbits, old(sysState), qbits,
                          if basis.Some? then Some(basis.value.mat) else None, toss, invSqrt)
    {
      stepcount := stepcount + 1;
      var n := nqbits;
      var k := |qbits|;
      QubitListBound(qbits, n);
      if basis.Some? {
        var bmat := basis.value.mat;
        if bmat.rows != bmat.cols {
          return Err(NotSquare);
        }
        var isok := CheckOrthonormal(bmat);
        if !isok {
          return Err(NotOrthonormal);
        }
      }

      // Move the measured qubits to the most significant positions.
      var qbitReorder := RealignList(n, qbits);
      RealignIsOrdering(qbits, n);
      var rmat, rrmat := RmatRrmat(n, qbitReorder);
      MapsInRange(qbitReorder, n);
      sysState := Permute(rmat, sysState);

      if basis.Some? {
        var bmat := basis.value.mat;
        if bmat.rows != Pow2(k) {
          return Err(BasisSize);
        }
        sysState := BasisChange(n, k, bmat, sysState);
      }

      assert sysState == Prepared(n, old(sysState), qbits,
                                  if basis.Some? then Some(basis.value.mat) else None);
      var o := SelectAndCollapse(sysState, n, k, toss, invSqrt);
      sysState := o.state;
      if o.outcome.Err? {
        return o.outcome;
      }

      if basis.Some? {
        sysState := BasisChange(n, k, ConjTranspose(basis.value.mat), sysState);
      }

      // Put the qubits back in their places.
      sysState := Permute(rrmat, sysState);
      return o.outcome;
    }
  }
}

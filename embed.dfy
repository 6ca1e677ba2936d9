// Operators on the n-qubit register: embedding a k-qubit operator
// (`__stretched_mat`, `__aligned_op`, `qstretch`) and building operators
// from others (`qcombine_seq`, `qcombine_par`, `qinverse`).
module Embed {
  import opened Bits
  import opened QcErrors
  import opened Algebra
  import opened Reorder

  // ---------------------------------------------------------------------
  // __aligned_op

  /**
   * rrmat * x * rmat, for the permutation matrices whose row maps are rmat
   * and its inverse inv = rrmat. Row i of rmat is e_{rmat[i]}, so column c of
   * rmat has its 1 in row inv[c] and (x * rmat)[r][c] = x[r][inv[c]];
   * multiplying by rrmat on the left then picks row inv[r].
   */
  function Conjugated(inv: seq<nat>, x: Matrix): (m: Matrix)
    requires WellFormed(x) && InRange(inv, x.rows) && InRange(inv, x.cols)
    ensures WellFormed(m) && m.rows == |inv| && m.cols == |inv|
  {
    Matrix(|inv|, |inv|,
      seq(|inv|, r requires 0 <= r < |inv| =>
        seq(|inv|, c requires 0 <= c < |inv| => x.at[inv[r]][inv[c]])))
  }

  /** A 2^n x 2^n operator, conjugated by the permutation for the target list. */
  function Aligned(n: nat, x: Matrix, qbits: seq<nat>): (m: Matrix)
    requires ValidQubitList(qbits, n)
    requires WellFormed(x) && x.rows == Pow2(n) && x.cols == Pow2(n)
    ensures WellFormed(m) && m.rows == Pow2(n) && m.cols == Pow2(n)
  {
    RealignIsOrdering(qbits, n);
    MapsInRange(Realign(qbits, n), n);
    Conjugated(InverseMap(Realign(qbits, n), n), x)
  }

  method AlignedOp(n: nat, op: Matrix, qbits: seq<nat>) returns (a: Matrix)
    requires ValidQubitList(qbits, n)
    requires WellFormed(op) && op.rows == Pow2(n) && op.cols == Pow2(n)
    ensures a == Aligned(n, op, qbits)
  {
    var qbitReorder := RealignList(n, qbits);
    RealignIsOrdering(qbits, n);
    var rmat, rrmat := RmatRrmat(n, qbitReorder);
    MapsInRange(qbitReorder, n);
    a := Conjugated(rrmat, op);
  }

  // ---------------------------------------------------------------------
  // __stretched_mat

  /**
   * The k-qubit operator op acting on the targets of an n-qubit register:
   * op (x) I of size 2^(n-k), conjugated so that the targets are the most
   * significant qubits. A non-square operator, and one whose dimension is
   * not 2^k, are rejected, in that order.
   */
  function Stretched(n: nat, op: Matrix, qbits: seq<nat>): (r: Result<Matrix>)
    requires ValidQubitList(qbits, n) && WellFormed(op)
    ensures r.Ok? ==> WellFormed(r.value) && r.value.rows == Pow2(n) && r.value.cols == Pow2(n)
  {
    if op.cols != op.rows then Err(NotSquare)
    else if Pow2(|qbits|) != op.rows then Err(QubitCountMismatch)
    else
      QubitListBound(qbits, n);
      Pow2Add(|qbits|, n - |qbits|);
      Ok(Aligned(n, Kron(op, Identity(Pow2(n - |qbits|))), qbits))
  }

  method StretchedMat(n: nat, oper: Operator, qbits: seq<nat>) returns (r: Result<Matrix>)
    requires ValidQubitList(qbits, n) && WellFormed(oper.mat)
    ensures r == Stretched(n, oper.mat, qbits)
    ensures r == Err(NotSquare) <==> oper.mat.cols != oper.mat.rows
    ensures r == Err(QubitCountMismatch) <==> oper.mat.cols == oper.mat.rows && Pow2(|qbits|) != oper.mat.rows
    ensures r.Ok? <==> oper.mat.cols == oper.mat.rows == Pow2(|qbits|)
  {
    var op := oper.mat;
    if op.cols != op.rows {
      return Err(NotSquare);
    }
    if Pow2(|qbits|) != op.rows {
      return Err(QubitCountMismatch);
    }
    QubitListBound(qbits, n);
    Pow2Add(|qbits|, n - |qbits|);
    var cOp := Kron(op, Identity(Pow2(n - |qbits|)));
    var aOp := AlignedOp(n, cOp, qbits);
    return Ok(aOp);
  }

  /** The targets of a k-qubit operator are the k indices it is applied to. */
  predicate AppliesTo(n: nat, a: Matrix, op: Matrix, qbits: seq<nat>)
    requires WellFormed(a) && WellFormed(op) && a.rows == Pow2(n) && a.cols == Pow2(n)
    requires op.rows == Pow2(|qbits|) && op.cols == Pow2(|qbits|)
  {
    forall r, c :: 0 <= r < Pow2(n) && 0 <= c < Pow2(n) ==>
      a.at[r][c] == if OutsideAgree(r, c, qbits, n) then op.at[Gather(r, qbits)][Gather(c, qbits)] else Zero
  }

  /**
   * What the embedded operator does: entry (r, c) is op's entry for the
   * target bits of r and c (qbits[0] being op's most significant qubit)
   * when r and c agree on every other qubit, and 0 otherwise. So the
   * operator acts as op on the targets, in the order listed, and as the
   * identity on the rest.
   */
  lemma StretchedEntry(n: nat, op: Matrix, qbits: seq<nat>, r: nat, c: nat)
    requires ValidQubitList(qbits, n) && WellFormed(op)
    requires op.rows == op.cols == Pow2(|qbits|)
    requires r < Pow2(n) && c < Pow2(n)
    ensures Stretched(n, op, qbits).Ok?
    ensures Stretched(n, op, qbits).value.at[r][c]
         == if OutsideAgree(r, c, qbits, n) then op.at[Gather(r, qbits)][Gather(c, qbits)] else Zero
  {
    var k := |qbits|;
    QubitListBound(qbits, n);
    Pow2Add(k, n - k);
    var m := Pow2(n - k);
    var order := Realign(qbits, n);
    RealignIsOrdering(qbits, n);
    MapsInRange(order, n);
    var u, v := Unshuffle(r, order, n), Unshuffle(c, order, n);
    ShuffleBelow(r, order, n);
    ShuffleBelow(c, order, n);
    assert Stretched(n, op, qbits).value.at[r][c] == Kron(op, Identity(m)).at[u][v];
    KronIdentityAt(op, m, u, v);
    DivPow2(u, n - k);
    DivPow2(v, n - k);
    TopBitsOfUnshuffle(qbits, n, r);
    TopBitsOfUnshuffle(qbits, n, c);
    LowBitsOfUnshuffle(qbits, n, r, c);
  }

  lemma StretchedAppliesTo(n: nat, op: Matrix, qbits: seq<nat>)
    requires ValidQubitList(qbits, n) && WellFormed(op)
    requires op.rows == op.cols == Pow2(|qbits|)
    ensures Stretched(n, op, qbits).Ok?
    ensures AppliesTo(n, Stretched(n, op, qbits).value, op, qbits)
  {
    forall r, c | 0 <= r < Pow2(n) && 0 <= c < Pow2(n)
      ensures Stretched(n, op, qbits).value.at[r][c]
           == if OutsideAgree(r, c, qbits, n) then op.at[Gather(r, qbits)][Gather(c, qbits)] else Zero
    {
      StretchedEntry(n, op, qbits, r, c);
    }
  }

  // ---------------------------------------------------------------------
  // qstretch: the embedded operator under the name "<n>Q-<name><qbits>"

  function DigitChar(d: nat): (ch: char)
    requires d < 10
    ensures '0' <= ch <= '9' && ch as int - '0' as int == d
  {
    ('0' as int + d) as char
  }

  /** Decimal notation, as `"{:d}".format(n)` writes it. */
  function NatToString(n: nat): (s: string)
    ensures |s| > 0
  {
    if n < 10 then [DigitChar(n)] else NatToString(n / 10) + [DigitChar(n % 10)]
  }

  /** The number a string of decimal digits denotes. */
  function DecimalValue(s: string): (r: nat)
  {
    if s == [] then 0
    else 10 * DecimalValue(s[..|s| - 1]) + (if '0' <= s[|s| - 1] <= '9' then s[|s| - 1] as int - '0' as int else 0)
  }

  predicate AllDigits(s: string)
  {
    forall i :: 0 <= i < |s| ==> '0' <= s[i] <= '9'
  }

  /** Decimal notation is made of digits and can be read back. */
  lemma {:induction false} NatToStringRoundTrip(n: nat)
    ensures AllDigits(NatToString(n)) && DecimalValue(NatToString(n)) == n
    decreases n
  {
    if n >= 10 {
      NatToStringRoundTrip(n / 10);
      var s := NatToString(n);
      assert s[..|s| - 1] == NatToString(n / 10);
    }
  }

  /** Python's `str` of a list of integers: "[0, 2, 5]". */
  function ListToString(l: seq<nat>): (s: string)
    ensures |s| >= 2 && s[0] == '[' && s[|s| - 1] == ']'
  {
    "[" + JoinNumbers(l) + "]"
  }

  function JoinNumbers(l: seq<nat>): (r: string)
  {
    if l == [] then ""
    else if |l| == 1 then NatToString(l[0])
    else NatToString(l[0]) + ", " + JoinNumbers(l[1..])
  }

  /** The name qstretch gives the embedded operator. */
  function StretchedName(n: nat, name: string, qbits: seq<nat>): (s: string)
    ensures |s| == |NatToString(n)| + 2 + |name| + |ListToString(qbits)|
    ensures s[..|NatToString(n)| + 2] == NatToString(n) + "Q-"
    ensures s[|NatToString(n)| + 2..|NatToString(n)| + 2 + |name|] == name
    ensures s[|NatToString(n)| + 2 + |name|..] == ListToString(qbits)
  {
    NatToString(n) + "Q-" + name + ListToString(qbits)
  }

  method QStretch(n: nat, oper: Operator, qbits: seq<nat>) returns (r: Result<Operator>)
    requires ValidQubitList(qbits, n) && WellFormed(oper.mat)
    ensures r.Err? <==> Stretched(n, oper.mat, qbits).Err?
    ensures r.Err? ==> r.error == Stretched(n, oper.mat, qbits).error
    ensures r.Ok? ==> r.value == Operator(StretchedName(n, oper.name, qbits), Stretched(n, oper.mat, qbits).value)
  {
    var name := StretchedName(n, oper.name, qbits);
    var m := StretchedMat(n, oper, qbits);
    if m.Err? {
      return Err(m.error);
    }
    return Ok(Operator(name, m.value));
  }

  // ---------------------------------------------------------------------
  // qcombine_seq

  predicate AllWellFormed(ops: seq<Operator>)
  {
    forall j :: 0 <= j < |ops| ==> WellFormed(ops[j].mat)
  }

  /** Every one of the first m operators is square of size d. */
  predicate AllSquareOfSize(ops: seq<Operator>, d: nat, m: nat)
    requires m <= |ops|
  {
    forall j :: 0 <= j < m ==> ops[j].mat.rows == ops[j].mat.cols == d
  }

  /**
   * The product of the first m operators, the later ones to the left of the
   * earlier ones, starting from the d x d identity; the first operator that
   * is not square, or not of size d, stops the fold with an error.
   */
  function SeqProduct(ops: seq<Operator>, d: nat, m: nat): (r: Result<Matrix>)
    requires AllWellFormed(ops) && m <= |ops|
    ensures r.Ok? ==> WellFormed(r.value) && r.value.rows == d && r.value.cols == d
  {
    if m == 0 then Ok(Identity(d))
    else
      var prev := SeqProduct(ops, d, m - 1);
      var op := ops[m - 1].mat;
      if prev.Err? then prev
      else if op.rows != op.cols then Err(NotSquare)
      else if op.rows != d then Err(SizeMismatch)
      else Ok(MatMul(op, prev.value))
  }

  /** The operator qcombine_seq builds; the size is taken from the first operator. */
  function CombinedSeq(name: string, ops: seq<Operator>): (r: Result<Operator>)
    requires AllWellFormed(ops)
  {
    if ops == [] then Err(EmptyOperatorList)
    else
      var p := SeqProduct(ops, ops[0].mat.rows, |ops|);
      if p.Err? then Err(p.error) else Ok(Operator(name, p.value))
  }

  /** The fold succeeds exactly when every operator is square of size d. */
  lemma {:induction false} SeqProductOk(ops: seq<Operator>, d: nat, m: nat)
    requires AllWellFormed(ops) && m <= |ops|
    ensures SeqProduct(ops, d, m).Ok? <==> AllSquareOfSize(ops, d, m)
    decreases m
  {
    if m > 0 {
      SeqProductOk(ops, d, m - 1);
    }
  }

  /**
   * When the fold fails, the error is the one of the first offending
   * operator: NotSquare if it is not square, SizeMismatch otherwise.
   */
  lemma {:induction false} SeqProductError(ops: seq<Operator>, d: nat, m: nat, j: nat)
    requires AllWellFormed(ops) && j < m <= |ops|
    requires AllSquareOfSize(ops, d, j) && !(ops[j].mat.rows == ops[j].mat.cols == d)
    ensures SeqProduct(ops, d, m) == Err(if ops[j].mat.rows != ops[j].mat.cols then NotSquare else SizeMismatch)
    decreases m
  {
    if m - 1 == j {
      SeqProductOk(ops, d, j);
    } else {
      SeqProductError(ops, d, m - 1, j);
    }
  }

  method QCombineSeq(name: string, opList: seq<Operator>) returns (r: Result<Operator>)
    requires AllWellFormed(opList)
    ensures r == CombinedSeq(name, opList)
    ensures r.Ok? <==> opList != [] && AllSquareOfSize(opList, opList[0].mat.rows, |opList|)
    ensures opList == [] ==> r == Err(EmptyOperatorList)
    ensures r.Ok? ==> r.value.name == name && r.value.mat.rows == r.value.mat.cols == opList[0].mat.rows
  {
    if opList == [] {
      return Err(EmptyOperatorList);
    }
    var d := opList[0].mat.rows;
    var res := Identity(d);
    var i := 0;
    while i < |opList|
      invariant i <= |opList|
      invariant SeqProduct(opList, d, i) == Ok(res)
      invariant AllSquareOfSize(opList, d, i)
    {
      var op := opList[i].mat;
      var rows, cols := op.rows, op.cols;
      if rows != cols {
        SeqProductError(opList, d, |opList|, i);
        return Err(NotSquare);
      }
      if rows != d {
        SeqProductError(opList, d, |opList|, i);
        return Err(SizeMismatch);
      }
      res := MatMul(op, res);
      i := i + 1;
    }
    SeqProductOk(opList, d, |opList|);
    return Ok(Operator(name, res));
  }

  // ---------------------------------------------------------------------
  // qcombine_par

  function RowProduct(ops: seq<Operator>, m: nat): (r: nat)
    requires m <= |ops|
  {
    if m == 0 then 1 else RowProduct(ops, m - 1) * ops[m - 1].mat.rows
  }

  function ColProduct(ops: seq<Operator>, m: nat): (r: nat)
    requires m <= |ops|
  {
    if m == 0 then 1 else ColProduct(ops, m - 1) * ops[m - 1].mat.cols
  }

  /**
   * The Kronecker product of the first m operators, the first one the most
   * significant, or `None` when there are none.
   */
  function KronFold(ops: seq<Operator>, m: nat): (r: Option<Matrix>)
    requires AllWellFormed(ops) && m <= |ops|
    ensures r.Some? <==> m > 0
    ensures r.Some? ==> WellFormed(r.value) && r.value.rows == RowProduct(ops, m) && r.value.cols == ColProduct(ops, m)
  {
    if m == 0 then None
    else if m == 1 then Some(ops[0].mat)
    else Some(Kron(KronFold(ops, m - 1).value, ops[m - 1].mat))
  }

  /** Product of the sizes 2^(k_j) of operators on k_j qubits each. */
  function QubitTotal(ks: seq<nat>, m: nat): (r: nat)
    requires m <= |ks|
  {
    if m == 0 then 0 else QubitTotal(ks, m - 1) + ks[m - 1]
  }

  /**
   * Combining operators on k_0, k_1, ... qubits in parallel gives a square
   * operator on k_0 + k_1 + ... qubits.
   */
  lemma {:induction false} KronFoldQubits(ops: seq<Operator>, ks: seq<nat>, m: nat)
    requires AllWellFormed(ops) && |ks| == |ops| && 0 < m <= |ops|
    requires forall j :: 0 <= j < |ops| ==> ops[j].mat.rows == ops[j].mat.cols == Pow2(ks[j])
    ensures KronFold(ops, m).value.rows == KronFold(ops, m).value.cols == Pow2(QubitTotal(ks, m))
    decreases m
  {
    if m == 1 {
      assert QubitTotal(ks, 1) == ks[0];
    } else {
      KronFoldQubits(ops, ks, m - 1);
      Pow2Add(QubitTotal(ks, m - 1), ks[m - 1]);
    }
  }

  method QCombinePar(name: string, opList: seq<Operator>) returns (rname: string, res: Option<Matrix>)
    requires AllWellFormed(opList)
    ensures rname == name && res == KronFold(opList, |opList|)
    ensures res.None? <==> opList == []
  {
    res := None;
    var first := true;
    var i := 0;
    while i < |opList|
      invariant i <= |opList|
      invariant first <==> i == 0
      invariant res == KronFold(opList, i)
    {
      var mat := opList[i].mat;
      if first {
        res := Some(mat);
        first := false;
      } else {
        res := Some(Kron(res.value, mat));
      }
      i := i + 1;
    }
    rname := name;
  }

  // ---------------------------------------------------------------------
  // qinverse

  /** The conjugate transpose, named "INV-<name>" unless a name is given. */
  function QInverse(op: Operator, name: Option<string>): (r: Operator)
    requires WellFormed(op.mat)
    ensures r.name == if name.Some? then name.value else "INV-" + op.name
    ensures WellFormed(r.mat) && r.mat.rows == op.mat.cols && r.mat.cols == op.mat.rows
    ensures forall i, j :: 0 <= i < r.mat.rows && 0 <= j < r.mat.cols ==> r.mat.at[i][j] == Conj(op.mat.at[j][i])
  {
    Operator(if name.None? then "INV-" + op.name else name.value, ConjTranspose(op.mat))
  }

  /** Inverting twice gives back the original matrix. */
  lemma QInverseTwice(op: Operator, n1: Option<string>, n2: Option<string>)
    requires WellFormed(op.mat)
    ensures QInverse(QInverse(op, n1), n2).mat == op.mat
  {
    ConjTransposeInvolution(op.mat);
  }
}

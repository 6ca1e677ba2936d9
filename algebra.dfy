// Complex amplitudes and dense complex matrices, computed exactly over
// `real`. The original uses double-precision numpy arithmetic; here every
// sum and product is exact, so rounding is not modelled. The square root
// the simulator takes when it renormalises is not available on `real` and
// is left to the caller as a function parameter wherever it is needed.
module Algebra {
  import opened Bits

  datatype Complex = Complex(re: real, im: real)

  const Zero: Complex := Complex(0.0, 0.0)
  const One: Complex := Complex(1.0, 0.0)

  function Add(a: Complex, b: Complex): (z: Complex)
  {
    Complex(a.re + b.re, a.im + b.im)
  }

  function Sub(a: Complex, b: Complex): (z: Complex)
  {
    Complex(a.re - b.re, a.im - b.im)
  }

  function Mul(a: Complex, b: Complex): (z: Complex)
  {
    Complex(a.re * b.re - a.im * b.im, a.re * b.im + a.im * b.re)
  }

  function Conj(a: Complex): (z: Complex)
  {
    Complex(a.re, -a.im)
  }

  /** Multiplication of an amplitude by a real factor. */
  function Scale(a: Complex, f: real): (z: Complex)
  {
    Complex(a.re * f, a.im * f)
  }

  /** |a|^2, the probability weight of an amplitude. */
  function Weight(a: Complex): (w: real)
    ensures w >= 0.0
  {
    a.re * a.re + a.im * a.im
  }

  /**
   * `np.absolute(z) > e`. For a non-negative e, |z| > e holds exactly when
   * |z|^2 > e^2, which needs no square root.
   */
  predicate AbsExceeds(z: Complex, e: real)
    requires e >= 0.0
  {
    Weight(z) > e * e
  }

  lemma MulIdentities(x: Complex)
    ensures Mul(x, One) == x && Mul(One, x) == x
    ensures Mul(x, Zero) == Zero && Mul(Zero, x) == Zero
    ensures Add(x, Zero) == x && Add(Zero, x) == x
  {
  }

  /** The product of two amplitudes each of which is 0 or 1. */
  lemma MulUnits(a: Complex, b: Complex)
    requires a == One || a == Zero
    requires b == One || b == Zero
    ensures Mul(a, b) == if a == One && b == One then One else Zero
  {
  }

  // ---------------------------------------------------------------------
  // Matrices. A numpy matrix has a shape (rows, cols) of its own, which a
  // sequence of rows cannot carry when it is empty, so the shape is kept
  // beside the entries.

  datatype Matrix = Matrix(rows: nat, cols: nat, at: seq<seq<Complex>>)

  predicate WellFormed(m: Matrix)
  {
    |m.at| == m.rows && forall r :: 0 <= r < |m.at| ==> |m.at[r]| == m.cols
  }

  /** The two-element list `[name, matrix]` the simulator uses for gates and bases. */
  datatype Operator = Operator(name: string, mat: Matrix)

  /** `np.eye(d)` */
  function Identity(d: nat): (m: Matrix)
    ensures WellFormed(m) && m.rows == d && m.cols == d
  {
    Matrix(d, d, seq(d, r => seq(d, c => if r == c then One else Zero)))
  }

  /** The inner product without conjugation: sum over j of a[j] * b[j]. */
  function Dot(a: seq<Complex>, b: seq<Complex>): (z: Complex)
    requires |a| == |b|
  {
    if a == [] then Zero
    else Add(Dot(a[..|a| - 1], b[..|b| - 1]), Mul(a[|a| - 1], b[|b| - 1]))
  }

  function Column(m: Matrix, c: nat): (col: seq<Complex>)
    requires WellFormed(m) && c < m.cols
    ensures |col| == m.rows
  {
    seq(m.rows, j requires 0 <= j < m.rows => m.at[j][c])
  }

  /** Matrix times column vector. */
  function MatVec(m: Matrix, v: seq<Complex>): (r: seq<Complex>)
    requires WellFormed(m) && m.cols == |v|
    ensures |r| == m.rows
  {
    seq(m.rows, i requires 0 <= i < m.rows => Dot(m.at[i], v))
  }

  /** Matrix product a * b. */
  function MatMul(a: Matrix, b: Matrix): (m: Matrix)
    requires WellFormed(a) && WellFormed(b) && a.cols == b.rows
    ensures WellFormed(m) && m.rows == a.rows && m.cols == b.cols
  {
    Matrix(a.rows, b.cols,
      seq(a.rows, i requires 0 <= i < a.rows =>
        seq(b.cols, j requires 0 <= j < b.cols => Dot(a.at[i], Column(b, j)))))
  }

  /** `np.transpose(m)` */
  function Transpose(m: Matrix): (t: Matrix)
    requires WellFormed(m)
    ensures WellFormed(t) && t.rows == m.cols && t.cols == m.rows
  {
    Matrix(m.cols, m.rows,
      seq(m.cols, i requires 0 <= i < m.cols =>
        seq(m.rows, j requires 0 <= j < m.rows => m.at[j][i])))
  }

  /** `np.conjugate(np.transpose(m))` */
  function ConjTranspose(m: Matrix): (t: Matrix)
    requires WellFormed(m)
    ensures WellFormed(t) && t.rows == m.cols && t.cols == m.rows
    ensures forall i, j :: 0 <= i < t.rows && 0 <= j < t.cols ==> t.at[i][j] == Conj(m.at[j][i])
  {
    Matrix(m.cols, m.rows,
      seq(m.cols, i requires 0 <= i < m.cols =>
        seq(m.rows, j requires 0 <= j < m.rows => Conj(m.at[j][i]))))
  }

  /** Conjugate transposition undoes itself. */
  lemma ConjTransposeInvolution(m: Matrix)
    requires WellFormed(m)
    ensures ConjTranspose(ConjTranspose(m)) == m
  {
    var t := ConjTranspose(ConjTranspose(m));
    forall i | 0 <= i < m.rows ensures t.at[i] == m.at[i] {
      assert forall j :: 0 <= j < m.cols ==> t.at[i][j] == Conj(Conj(m.at[i][j]));
    }
  }

  // ---------------------------------------------------------------------
  // Kronecker products

  lemma DivBelow(r: int, a: int, b: int)
    requires a >= 0 && b >= 0 && 0 <= r < a * b
    ensures b > 0 && 0 <= r / b < a && 0 <= r % b < b
  {
    if r / b >= a {
      MulGap(b, a - 1, r / b);
      assert false;
    }
  }

  /**
   * Entry (r, c) of the Kronecker product a (x) b: entry (r % b.rows, c % b.cols)
   * of a[r / b.rows][c / b.cols] * b (0 outside the product's shape).
   */
  function KronAt(a: Matrix, b: Matrix, r: int, c: int): (z: Complex)
    requires WellFormed(a) && WellFormed(b)
  {
    if 0 <= r && 0 <= c && b.rows > 0 && b.cols > 0 && r / b.rows < a.rows && c / b.cols < a.cols
    then Mul(a.at[r / b.rows][c / b.cols], b.at[r % b.rows][c % b.cols])
    else Zero
  }

  /** `np.kron(a, b)`: block (i, j) of the result is a[i][j] times b. */
  function Kron(a: Matrix, b: Matrix): (m: Matrix)
    requires WellFormed(a) && WellFormed(b)
    ensures WellFormed(m) && m.rows == a.rows * b.rows && m.cols == a.cols * b.cols
  {
    Matrix(a.rows * b.rows, a.cols * b.cols,
      seq(a.rows * b.rows, r => seq(a.cols * b.cols, c => KronAt(a, b, r, c))))
  }

  lemma KronEntry(a: Matrix, b: Matrix, r: nat, c: nat)
    requires WellFormed(a) && WellFormed(b)
    requires r < a.rows * b.rows && c < a.cols * b.cols
    ensures b.rows > 0 && b.cols > 0 && r / b.rows < a.rows && c / b.cols < a.cols
    ensures Kron(a, b).at[r][c] == KronAt(a, b, r, c)
  {
    DivBelow(r, a.rows, b.rows);
    DivBelow(c, a.cols, b.cols);
  }

  lemma IdentityAt(d: nat, i: nat, j: nat)
    requires i < d && j < d
    ensures Identity(d).at[i][j] == if i == j then One else Zero
  {
  }

  lemma MulByUnit(z: Complex, b: bool)
    ensures Mul(z, if b then One else Zero) == if b then z else Zero
  {
    MulIdentities(z);
  }

  lemma KronAtIdentity(x: Matrix, m: nat, r: nat, c: nat)
    requires WellFormed(x) && m > 0 && r / m < x.rows && c / m < x.cols
    ensures KronAt(x, Identity(m), r, c) == if r % m == c % m then x.at[r / m][c / m] else Zero
  {
    IdentityAt(m, r % m, c % m);
    MulByUnit(x.at[r / m][c / m], r % m == c % m);
  }

  /**
   * `np.kron(x, np.eye(m))` is block diagonal with x's entries: entry (r, c)
   * is x[r / m][c / m] when r and c lie at the same offset in their blocks
   * and 0 otherwise.
   */
  lemma KronIdentityAt(x: Matrix, m: nat, r: nat, c: nat)
    requires WellFormed(x) && r < x.rows * m && c < x.cols * m
    ensures m > 0 && r / m < x.rows && c / m < x.cols
    ensures Kron(x, Identity(m)).at[r][c]
         == if r % m == c % m then x.at[r / m][c / m] else Zero
  {
    KronEntry(x, Identity(m), r, c);
    KronAtIdentity(x, m, r, c);
  }

  /** Kronecker product of two column vectors. */
  function KronVec(a: seq<Complex>, b: seq<Complex>): (v: seq<Complex>)
    ensures |v| == |a| * |b|
  {
    seq(|a| * |b|, i requires 0 <= i < |a| * |b| =>
      DivBelow(i, |a|, |b|); Mul(a[i / |b|], b[i % |b|]))
  }

  /** The computational basis vector |0...0> of dimension d: 1 at index 0, 0 elsewhere. */
  function ZeroKet(d: nat): (v: seq<Complex>)
    ensures |v| == d
  {
    seq(d, i => if i == 0 then One else Zero)
  }

  /** Appending a qubit in state |0> (as the new least significant qubit) keeps the register in |0...0>. */
  lemma KronZeroKet(d: nat)
    ensures KronVec(ZeroKet(d), [One, Zero]) == ZeroKet(2 * d)
  {
    var a, b := ZeroKet(d), [One, Zero];
    var v := KronVec(a, b);
    assert |v| == 2 * d;
    forall i | 0 <= i < 2 * d ensures v[i] == ZeroKet(2 * d)[i] {
      KronVecAt(a, b, i);
      ZeroKetFactor(d, i);
    }
  }

  lemma ZeroKetFactor(d: nat, i: nat)
    requires i < 2 * d
    ensures Mul(ZeroKet(d)[i / 2], [One, Zero][i % 2]) == if i == 0 then One else Zero
  {
    MulUnits(ZeroKet(d)[i / 2], [One, Zero][i % 2]);
  }

  lemma KronVecAt(a: seq<Complex>, b: seq<Complex>, i: nat)
    requires i < |a| * |b|
    ensures |b| > 0 && i / |b| < |a|
    ensures KronVec(a, b)[i] == Mul(a[i / |b|], b[i % |b|])
  {
    DivBelow(i, |a|, |b|);
  }

  /** The total probability weight of a vector: the sum of |a|^2 over its entries. */
  function TotalWeight(v: seq<Complex>): (w: real)
    ensures w >= 0.0
  {
    if v == [] then 0.0 else TotalWeight(v[..|v| - 1]) + Weight(v[|v| - 1])
  }
}

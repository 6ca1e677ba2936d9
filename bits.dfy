// Bit arithmetic on unbounded natural numbers. The simulator addresses
// basis states by integers in [0, 2^n) and manipulates them with shifts,
// masks and single-bit tests; each of those operators is defined here by
// recursion on the binary representation, and every fact about them is
// reduced to facts about individual bits (`Bit`) plus extensionality
// (`BitsDetermine`: two numbers with the same bits are equal).
module Bits {

  function Pow2(k: nat): (r: nat)
    ensures r >= 1
  {
    if k == 0 then 1 else 2 * Pow2(k - 1)
  }

  /** `(x >> b) & 1`: bit b of x, bit 0 being the least significant. */
  function Bit(x: nat, b: nat): (r: nat)
    ensures r <= 1
  {
    if b == 0 then x % 2 else Bit(x / 2, b - 1)
  }

  /** `x << s` */
  function Shl(x: nat, s: nat): (r: nat)
  {
    if s == 0 then x else 2 * Shl(x, s - 1)
  }

  /** `x >> s` */
  function Shr(x: nat, s: nat): (r: nat)
  {
    if s == 0 then x else Shr(x / 2, s - 1)
  }

  /** `x & y` */
  function And(x: nat, y: nat): (r: nat)
    decreases x
  {
    if x == 0 || y == 0 then 0
    else 2 * And(x / 2, y / 2) + (if x % 2 == 1 && y % 2 == 1 then 1 else 0)
  }

  /** `x | y` */
  function Or(x: nat, y: nat): (r: nat)
    decreases x + y
  {
    if x == 0 then y
    else if y == 0 then x
    else 2 * Or(x / 2, y / 2) + (if x % 2 == 1 || y % 2 == 1 then 1 else 0)
  }

  // ---------------------------------------------------------------------
  // Basic facts about single bits

  lemma BitOfZero(b: nat)
    ensures Bit(0, b) == 0
  {
    if b > 0 { BitOfZero(b - 1); }
  }

  lemma BitOfOne(b: nat)
    ensures Bit(1, b) == if b == 0 then 1 else 0
  {
    if b > 0 { BitOfZero(b - 1); }
  }

  /** Bits of `2 * z + c` for a single bit c: bit 0 is c, the rest are z's. */
  lemma BitOfDouble(z: nat, c: nat, b: nat)
    requires c <= 1
    ensures Bit(2 * z + c, b) == if b == 0 then c else Bit(z, b - 1)
  {
    assert (2 * z + c) / 2 == z;
  }

  /** Two numbers with the same bits are equal. */
  lemma {:induction false} BitsDetermine(x: nat, y: nat)
    requires forall b: nat :: Bit(x, b) == Bit(y, b)
    ensures x == y
    decreases x + y
  {
    if x != 0 || y != 0 {
      assert Bit(x, 0) == Bit(y, 0);
      forall b: nat ensures Bit(x / 2, b) == Bit(y / 2, b) {
        assert Bit(x, b + 1) == Bit(y, b + 1);
      }
      BitsDetermine(x / 2, y / 2);
    }
  }

  /** A number below 2^n has no bit set at position n or above. */
  lemma {:induction false} BitAbove(x: nat, n: nat, b: nat)
    requires x < Pow2(n) && n <= b
    ensures Bit(x, b) == 0
    decreases n
  {
    if n == 0 {
      BitOfZero(b);
    } else {
      BitAbove(x / 2, n - 1, b - 1);
    }
  }

  /** Conversely, a number with no bit set at position n or above is below 2^n. */
  lemma {:induction false} BelowFromBits(x: nat, n: nat)
    requires forall b: nat :: n <= b ==> Bit(x, b) == 0
    ensures x < Pow2(n)
    decreases n
  {
    if n == 0 {
      forall b: nat ensures Bit(x, b) == Bit(0, b) { BitOfZero(b); }
      BitsDetermine(x, 0);
    } else {
      forall b: nat | n - 1 <= b ensures Bit(x / 2, b) == 0 {
        assert Bit(x, b + 1) == Bit(x / 2, b);
      }
      BelowFromBits(x / 2, n - 1);
    }
  }

  // ---------------------------------------------------------------------
  // Shifts, masks and sums of distinct powers of two

  lemma {:induction false} ShlBit(x: nat, s: nat, q: nat)
    ensures Bit(Shl(x, s), q) == if q < s then 0 else Bit(x, q - s)
    decreases s
  {
    if s > 0 {
      BitOfDouble(Shl(x, s - 1), 0, q);
      if q > 0 { ShlBit(x, s - 1, q - 1); }
    }
  }

  /** `(x >> b) & 1` is bit b of x. */
  lemma ShrAndOne(x: nat, b: nat)
    ensures And(Shr(x, b), 1) == Bit(x, b)
  {
    var y := Shr(x, b);
    ShrBit(x, b, 0);
    if y != 0 {
      assert And(y, 1) == 2 * And(y / 2, 0) + (if y % 2 == 1 then 1 else 0);
    }
  }

  lemma {:induction false} Pow2Add(a: nat, b: nat)
    ensures Pow2(a) * Pow2(b) == Pow2(a + b)
    decreases a
  {
    if a > 0 {
      Pow2Add(a - 1, b);
      assert Pow2(a) * Pow2(b) == 2 * (Pow2(a - 1) * Pow2(b));
    }
  }

  lemma {:induction false} Pow2Monotone(a: nat, b: nat)
    requires a <= b
    ensures Pow2(a) <= Pow2(b)
    decreases b
  {
    if a < b { Pow2Monotone(a, b - 1); }
  }

  lemma ShlOfZero(s: nat)
    ensures Shl(0, s) == 0
  {
    if s > 0 { ShlOfZero(s - 1); }
  }

  lemma ShlOfOne(s: nat)
    ensures Shl(1, s) == Pow2(s)
  {
    if s > 0 { ShlOfOne(s - 1); }
  }

  lemma {:induction false} ShrBit(x: nat, s: nat, q: nat)
    ensures Bit(Shr(x, s), q) == Bit(x, q + s)
    decreases s
  {
    if s > 0 {
      ShrBit(x / 2, s - 1, q);
    }
  }

  lemma {:induction false} AndBit(x: nat, y: nat, b: nat)
    ensures Bit(And(x, y), b) == if Bit(x, b) == 1 && Bit(y, b) == 1 then 1 else 0
    decreases x
  {
    if x == 0 || y == 0 {
      BitOfZero(b);
    } else {
      var c := if x % 2 == 1 && y % 2 == 1 then 1 else 0;
      BitOfDouble(And(x / 2, y / 2), c, b);
      if b > 0 { AndBit(x / 2, y / 2, b - 1); }
    }
  }

  lemma {:induction false} OrBit(x: nat, y: nat, b: nat)
    ensures Bit(Or(x, y), b) == if Bit(x, b) == 1 || Bit(y, b) == 1 then 1 else 0
    decreases x + y
  {
    if x == 0 {
      BitOfZero(b);
    } else if y == 0 {
      BitOfZero(b);
    } else {
      var c := if x % 2 == 1 || y % 2 == 1 then 1 else 0;
      BitOfDouble(Or(x / 2, y / 2), c, b);
      if b > 0 { OrBit(x / 2, y / 2, b - 1); }
    }
  }

  /** Adding 2^p to a number whose bit p is clear sets exactly that bit. */
  lemma {:induction false} AddPowBit(x: nat, p: nat, q: nat)
    requires Bit(x, p) == 0
    ensures Bit(x + Pow2(p), q) == if q == p then 1 else Bit(x, q)
    decreases p
  {
    if p == 0 {
      assert x % 2 == 0;
      BitOfDouble(x / 2, 1, q);
      assert x + 1 == 2 * (x / 2) + 1;
    } else {
      assert Pow2(p) == 2 * Pow2(p - 1);
      assert x + Pow2(p) == 2 * (x / 2 + Pow2(p - 1)) + x % 2;
      BitOfDouble(x / 2 + Pow2(p - 1), x % 2, q);
      if q > 0 {
        AddPowBit(x / 2, p - 1, q - 1);
      }
    }
  }

  /** A single-bit test: `(x & (1 << i)) == 0` exactly when bit i of x is 0. */
  lemma SingleBitTest(x: nat, i: nat)
    ensures (And(x, Shl(1, i)) == 0) <==> (Bit(x, i) == 0)
  {
    forall q: nat ensures Bit(And(x, Shl(1, i)), q) == if q == i then Bit(x, i) else 0 {
      AndBit(x, Shl(1, i), q);
      ShlBit(1, i, q);
      if q >= i { BitOfOne(q - i); }
    }
    if Bit(x, i) == 0 {
      forall q: nat ensures Bit(And(x, Shl(1, i)), q) == Bit(0, q) { BitOfZero(q); }
      BitsDetermine(And(x, Shl(1, i)), 0);
    } else {
      BitOfZero(i);
    }
  }

  // ---------------------------------------------------------------------
  // Division and remainder by powers of two, as used by the Kronecker
  // product's block layout

  lemma DivUnique(x: int, d: int, q: int, r: int)
    requires d > 0 && 0 <= r < d && x == d * q + r
    ensures x / d == q && x % d == r
  {
    var q', r' := x / d, x % d;
    assert x == d * q' + r';
    if q' > q {
      MulGap(d, q, q');
      assert false;
    } else if q' < q {
      MulGap(d, q', q);
      assert false;
    }
  }

  lemma MulGap(d: int, a: int, b: int)
    requires d > 0 && a < b
    ensures d * b >= d * a + d
  {
    assert d * b == d * a + d + d * (b - a - 1);
  }

  lemma DivModDouble(x: nat, p: nat)
    requires p > 0
    ensures x / (2 * p) == (x / 2) / p
    ensures x % (2 * p) == 2 * ((x / 2) % p) + x % 2
  {
    var h := x / 2;
    var q := h / p;
    var r := 2 * (h % p) + x % 2;
    assert h == p * q + h % p;
    assert x == 2 * h + x % 2;
    assert x == (2 * p) * q + r;
    DivUnique(x, 2 * p, q, r);
  }

  lemma {:induction false} DivPow2(x: nat, s: nat)
    ensures x / Pow2(s) == Shr(x, s)
    decreases s
  {
    if s > 0 {
      DivModDouble(x, Pow2(s - 1));
      DivPow2(x / 2, s - 1);
    }
  }

  lemma {:induction false} ModPow2Bit(x: nat, s: nat, q: nat)
    ensures Bit(x % Pow2(s), q) == if q < s then Bit(x, q) else 0
    decreases s
  {
    if s == 0 {
      BitOfZero(q);
    } else {
      DivModDouble(x, Pow2(s - 1));
      BitOfDouble((x / 2) % Pow2(s - 1), x % 2, q);
      if q > 0 {
        ModPow2Bit(x / 2, s - 1, q - 1);
      }
    }
  }

  /** Two numbers agree modulo 2^s exactly when their low s bits agree. */
  lemma ModPow2Agree(x: nat, y: nat, s: nat)
    ensures (x % Pow2(s) == y % Pow2(s)) <==> (forall q: nat :: q < s ==> Bit(x, q) == Bit(y, q))
  {
    if forall q: nat :: q < s ==> Bit(x, q) == Bit(y, q) {
      forall q: nat ensures Bit(x % Pow2(s), q) == Bit(y % Pow2(s), q) {
        ModPow2Bit(x, s, q);
        ModPow2Bit(y, s, q);
      }
      BitsDetermine(x % Pow2(s), y % Pow2(s));
    } else {
      var q: nat :| q < s && Bit(x, q) != Bit(y, q);
      ModPow2Bit(x, s, q);
      ModPow2Bit(y, s, q);
    }
  }

  // ---------------------------------------------------------------------
  // Most-significant-first bit lists

  /** The k low bits of x, most significant first. */
  function MsbBits(x: nat, k: nat): (r: seq<nat>)
  {
    if k == 0 then [] else MsbBits(x / 2, k - 1) + [x % 2]
  }

  /** The number a most-significant-first list of bits denotes. */
  function FromMsb(bs: seq<nat>): (r: nat)
  {
    if bs == [] then 0 else 2 * FromMsb(bs[..|bs| - 1]) + bs[|bs| - 1]
  }

  predicate IsBitList(bs: seq<nat>)
  {
    forall t :: 0 <= t < |bs| ==> bs[t] <= 1
  }

  /** Entry t of the list is bit k-1-t: the list reads most significant first. */
  lemma {:induction false} MsbBitsAt(x: nat, k: nat, t: nat)
    requires t < k
    ensures |MsbBits(x, k)| == k
    ensures MsbBits(x, k)[t] == Bit(x, k - 1 - t)
    decreases k
  {
    MsbBitsLength(x, k);
    if t < k - 1 {
      MsbBitsAt(x / 2, k - 1, t);
    }
  }

  lemma MsbBitsLength(x: nat, k: nat)
    ensures |MsbBits(x, k)| == k
  {
    if k > 0 { MsbBitsLength(x / 2, k - 1); }
  }

  /** The list holds k entries, each 0 or 1. */
  lemma MsbBitsAreBits(x: nat, k: nat)
    ensures |MsbBits(x, k)| == k && IsBitList(MsbBits(x, k))
  {
    MsbBitsLength(x, k);
    forall t | 0 <= t < k ensures MsbBits(x, k)[t] <= 1 {
      MsbBitsAt(x, k, t);
    }
  }

  /** Reading the k-bit list back gives x, for every x below 2^k. */
  lemma {:induction false} FromMsbBits(x: nat, k: nat)
    requires x < Pow2(k)
    ensures FromMsb(MsbBits(x, k)) == x
    decreases k
  {
    if k > 0 {
      var bs := MsbBits(x, k);
      MsbBitsLength(x / 2, k - 1);
      assert bs[..|bs| - 1] == MsbBits(x / 2, k - 1);
      FromMsbBits(x / 2, k - 1);
    }
  }

  /** And the other way round: a list of bits is the bit list of its value. */
  lemma {:induction false} MsbBitsFrom(bs: seq<nat>)
    requires IsBitList(bs)
    ensures FromMsb(bs) < Pow2(|bs|)
    ensures MsbBits(FromMsb(bs), |bs|) == bs
    decreases |bs|
  {
    if bs != [] {
      var init := bs[..|bs| - 1];
      var c := bs[|bs| - 1];
      MsbBitsFrom(init);
      assert (2 * FromMsb(init) + c) / 2 == FromMsb(init);
      assert (2 * FromMsb(init) + c) % 2 == c;
      assert init + [c] == bs;
    }
  }
}

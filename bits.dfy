/** Python's shifts and bitwise operators on non-negative integers.

    Dafny has no bitwise operators on unbounded integers, so they are defined
    here bit by bit: `Shl(x, k)` is `x << k`, `Shr(x, k)` is `x >> k`,
    `Low(x, k)` is `x & mask(k)` (the remainder modulo `2^k`), and
    `Bitwise(op, x, y)` is `x & y`, `x | y` or `x ^ y`. All of them recurse on
    halving and doubling only; their link to multiplication and division by
    `2^k` is stated once, in `ShlIsMul` and `ShrLowIsDivMod`. The lemma that
    every lane argument rests on is `Split`: a bitwise operator acts on the
    low `k` bits and on the bits above them independently. */
module Bits {

  type Pos = n: nat | n >= 1 witness 1

  function Pow2(n: nat): (r: nat)
    ensures r >= 1
  {
    if n == 0 then 1 else 2 * Pow2(n - 1)
  }

  /** `x << k` */
  function Shl(x: nat, k: nat): nat
  {
    if k == 0 then x else 2 * Shl(x, k - 1)
  }

  /** `x >> k` */
  function Shr(x: nat, k: nat): nat
  {
    if k == 0 then x else Shr(x / 2, k - 1)
  }

  /** The `k` low bits of `x`: `x & mask(k)`, that is `x mod 2^k`. */
  function Low(x: nat, k: nat): nat
  {
    if k == 0 then 0 else 2 * Low(x / 2, k - 1) + x % 2
  }

  /** `n` lanes of `w` bits span `n * w` bits; counted by repeated addition. */
  function Width(n: nat, w: nat): nat
  {
    if n == 0 then 0 else w + Width(n - 1, w)
  }

  // ---------------------------------------------------------------------
  // Shifts, low bits and powers of two

  lemma {:induction false} ShlZero(k: nat)
    ensures Shl(0, k) == 0
  {
    if k > 0 { ShlZero(k - 1); }
  }

  lemma {:induction false} ShlOne(k: nat)
    ensures Shl(1, k) == Pow2(k)
  {
    if k > 0 { ShlOne(k - 1); }
  }

  lemma {:induction false} ShlAdd(a: nat, b: nat, k: nat)
    ensures Shl(a + b, k) == Shl(a, k) + Shl(b, k)
  {
    if k > 0 { ShlAdd(a, b, k - 1); }
  }

  lemma {:induction false} ShlShl(x: nat, a: nat, b: nat)
    ensures Shl(Shl(x, a), b) == Shl(x, a + b)
  {
    if b > 0 { ShlShl(x, a, b - 1); }
  }

  lemma {:induction false} ShlMono(x: nat, y: nat, k: nat)
    requires x <= y
    ensures Shl(x, k) <= Shl(y, k)
  {
    if k > 0 { ShlMono(x, y, k - 1); }
  }

  lemma {:induction false} Pow2Add(a: nat, b: nat)
    ensures Pow2(a + b) == Shl(Pow2(a), b)
  {
    ShlOne(a);
    ShlOne(a + b);
    ShlShl(1, a, b);
  }

  lemma {:induction false} Pow2Mono(a: nat, b: nat)
    requires a <= b
    ensures Pow2(a) <= Pow2(b)
  {
    if a < b { Pow2Mono(a, b - 1); }
  }

  /** `x` is its low `k` bits plus its high part shifted back. */
  lemma {:induction false} ShrLow(x: nat, k: nat)
    ensures x == Low(x, k) + Shl(Shr(x, k), k)
    ensures Low(x, k) < Pow2(k)
  {
    if k > 0 {
      ShrLow(x / 2, k - 1);
    }
  }

  /** The split `x = low + (high << k)` with `low < 2^k` is unique. */
  lemma {:induction false} ShrLowOf(a: nat, y: nat, k: nat)
    requires a < Pow2(k)
    ensures Shr(a + Shl(y, k), k) == y
    ensures Low(a + Shl(y, k), k) == a
  {
    if k > 0 {
      ShrLowOf(a / 2, y, k - 1);
    }
  }

  lemma {:induction false} ShrShr(x: nat, a: nat, b: nat)
    ensures Shr(Shr(x, a), b) == Shr(x, a + b)
  {
    if a > 0 { ShrShr(x / 2, a - 1, b); }
  }

  /** Shifting right by `s <= k` moves the part above bit `k` down intact. */
  lemma ShrAdd(a: nat, y: nat, s: nat, k: nat)
    requires s <= k
    ensures Shr(a + Shl(y, k), s) == Shr(a, s) + Shl(y, k - s)
  {
    ShrLow(a, s);
    var lo, hi := Low(a, s), Shr(a, s);
    ShlShl(y, k - s, s);
    ShlAdd(hi, Shl(y, k - s), s);
    assert a + Shl(y, k) == lo + Shl(hi + Shl(y, k - s), s);
    ShrLowOf(lo, hi + Shl(y, k - s), s);
  }

  /** The low `s <= k` bits ignore the part above bit `k`. */
  lemma LowAdd(a: nat, y: nat, s: nat, k: nat)
    requires s <= k
    ensures Low(a + Shl(y, k), s) == Low(a, s)
  {
    ShrLow(a, s);
    var lo, hi := Low(a, s), Shr(a, s);
    ShlShl(y, k - s, s);
    ShlAdd(hi, Shl(y, k - s), s);
    assert a + Shl(y, k) == lo + Shl(hi + Shl(y, k - s), s);
    ShrLowOf(lo, hi + Shl(y, k - s), s);
  }

  lemma LowLow(x: nat, a: nat, b: nat)
    requires a <= b
    ensures Low(Low(x, b), a) == Low(x, a)
  {
    ShrLow(x, b);
    LowAdd(Low(x, b), Shr(x, b), a, b);
  }

  /** The low `a + b` bits: the low `a` bits, then the next `b` bits. */
  lemma {:induction false} LowSplit(x: nat, a: nat, b: nat)
    ensures Low(x, a + b) == Low(x, a) + Shl(Low(Shr(x, a), b), a)
  {
    if a > 0 {
      LowSplit(x / 2, a - 1, b);
    }
  }

  lemma SmallShr(x: nat, k: nat, j: nat)
    requires x < Pow2(k) && k <= j
    ensures Shr(x, j) == 0 && Low(x, j) == x
  {
    Pow2Mono(k, j);
    ShlZero(j);
    ShrLowOf(x, 0, j);
  }

  /** A number below `2^k` shifted left by `m` is below `2^(k + m)`. */
  lemma ShlBound(x: nat, k: nat, m: nat)
    requires x < Pow2(k)
    ensures Shl(x, m) < Pow2(k + m)
  {
    ShlMono(x + 1, Pow2(k), m);
    ShlAdd(x, 1, m);
    ShlOne(m);
    Pow2Add(k, m);
  }

  /** A number below `2^(k + m)` shifted right by `k` is below `2^m`. */
  lemma ShrBound(x: nat, k: nat, m: nat)
    requires x < Pow2(k + m)
    ensures Shr(x, k) < Pow2(m)
  {
    ShrLow(x, k);
    if Shr(x, k) >= Pow2(m) {
      ShlMono(Pow2(m), Shr(x, k), k);
      Pow2Add(m, k);
    }
  }

  lemma {:induction false} ShlGe(x: nat, k: nat)
    ensures Shl(x, k) >= x
  {
    if k > 0 { ShlGe(x, k - 1); }
  }

  // ---------------------------------------------------------------------
  // The link to multiplication and division

  lemma {:induction false} ShlIsMul(x: nat, k: nat)
    ensures Shl(x, k) == x * Pow2(k)
  {
    if k > 0 {
      ShlIsMul(x, k - 1);
      assert 2 * (x * Pow2(k - 1)) == x * (2 * Pow2(k - 1));
    }
  }

  lemma {:induction false} WidthIsMul(n: nat, w: nat)
    ensures Width(n, w) == n * w
  {
    if n > 0 {
      WidthIsMul(n - 1, w);
      assert (n - 1) * w + w == n * w;
    }
  }

  lemma MulLe(a: nat, b: nat, c: nat)
    requires a <= b
    ensures a * c <= b * c
  {
  }

  lemma ProductBelow(x: nat, y: nat, p: nat, q: nat)
    requires x < p && y < q
    ensures x * y < p * q
  {
    MulLe(y, q - 1, x);
    MulLe(x, p - 1, q - 1);
    assert (p - 1) * (q - 1) == p * q - p - q + 1;
  }

  /** A product of a `p`-bit and a `q`-bit number has at most `p + q` bits. */
  lemma MulBound(x: nat, y: nat, p: nat, q: nat)
    requires x < Pow2(p) && y < Pow2(q)
    ensures x * y < Pow2(p + q)
  {
    Pow2Add(p, q);
    ShlIsMul(Pow2(p), q);
    ProductBelow(x, y, Pow2(p), Pow2(q));
  }

  lemma MulShift(x: nat, a: nat, c: nat, p: nat)
    ensures x * (a + c * p) == x * a + (x * c) * p
  {
  }

  /** Multiplying by one more low bit of `y` adds that bit's term `x << j`. */
  lemma MulLowStep(x: nat, y: nat, j: nat)
    ensures x * Low(y, j + 1) == x * Low(y, j) + Shl(x * Low(Shr(y, j), 1), j)
  {
    LowSplit(y, j, 1);
    var c := Low(Shr(y, j), 1);
    ShlIsMul(c, j);
    ShlIsMul(x * c, j);
    MulShift(x, Low(y, j), c, Pow2(j));
  }

  /** A multiple of `d` strictly between `-d` and `d` is zero. */
  lemma NoGap(k: int, d: int, e: int)
    requires d >= 1 && k * d == e && -d < e < d
    ensures k == 0
  {
  }

  lemma DivModUnique(x: int, d: int, q: int, r: int)
    requires d >= 1 && 0 <= r < d && x == q * d + r
    ensures x / d == q && x % d == r
  {
    var q0, r0 := x / d, x % d;
    assert (q0 - q) * d == r - r0;
    NoGap(q0 - q, d, r - r0);
  }

  lemma ShrLowIsDivMod(x: nat, k: nat)
    ensures Shr(x, k) == x / Pow2(k) && Low(x, k) == x % Pow2(k)
  {
    ShrLow(x, k);
    ShlIsMul(Shr(x, k), k);
    DivModUnique(x, Pow2(k), Shr(x, k), Low(x, k));
  }

  // ---------------------------------------------------------------------
  // Bitwise operators

  datatype Op = AndOp | OrOp | XorOp

  /** The operator on single bits. */
  function BitOp(op: Op, a: nat, b: nat): (r: nat)
    requires a < 2 && b < 2
    ensures r < 2
    ensures a == 0 && b == 0 ==> r == 0
  {
    match op
    case AndOp => if a + b == 2 then 1 else 0
    case OrOp => if a + b > 0 then 1 else 0
    case XorOp => if a + b == 1 then 1 else 0
  }

  /** Python's `x & y`, `x | y`, `x ^ y` on non-negative integers, bit by bit
      from the least significant bit up. */
  function Bitwise(op: Op, x: nat, y: nat): nat
    decreases x + y
  {
    if x == 0 && y == 0 then 0 else 2 * Bitwise(op, x / 2, y / 2) + BitOp(op, x % 2, y % 2)
  }

  function And(x: nat, y: nat): nat { Bitwise(AndOp, x, y) }
  function Or(x: nat, y: nat): nat { Bitwise(OrOp, x, y) }
  function Xor(x: nat, y: nat): nat { Bitwise(XorOp, x, y) }

  /** The defining step holds also when both operands are zero. */
  lemma Unfold(op: Op, x: nat, y: nat)
    ensures Bitwise(op, x, y) == 2 * Bitwise(op, x / 2, y / 2) + BitOp(op, x % 2, y % 2)
  {
  }

  lemma {:induction false} Commute(op: Op, x: nat, y: nat)
    ensures Bitwise(op, x, y) == Bitwise(op, y, x)
    decreases x + y
  {
    if x != 0 || y != 0 {
      Commute(op, x / 2, y / 2);
    }
  }

  /** Both operands below `2^k`: so is the result. */
  lemma {:induction false} Bound(op: Op, x: nat, y: nat, k: nat)
    requires x < Pow2(k) && y < Pow2(k)
    ensures Bitwise(op, x, y) < Pow2(k)
  {
    if k > 0 && (x != 0 || y != 0) {
      Bound(op, x / 2, y / 2, k - 1);
    }
  }

  /** The lane lemma: with `a, b < 2^k`, the operator acts on the low `k`
      bits and on the bits above them separately. */
  lemma {:induction false} Split(op: Op, a: nat, b: nat, x: nat, y: nat, k: nat, A: nat, B: nat)
    requires a < Pow2(k) && b < Pow2(k)
    requires A == a + Shl(x, k) && B == b + Shl(y, k)
    ensures Bitwise(op, A, B) == Bitwise(op, a, b) + Shl(Bitwise(op, x, y), k)
  {
    if k > 0 {
      assert A / 2 == a / 2 + Shl(x, k - 1) && A % 2 == a % 2;
      assert B / 2 == b / 2 + Shl(y, k - 1) && B % 2 == b % 2;
      Split(op, a / 2, b / 2, x, y, k - 1, A / 2, B / 2);
      Unfold(op, A, B);
      Unfold(op, a, b);
    }
  }

  lemma {:induction false} AndZero(x: nat)
    ensures And(x, 0) == 0 && And(0, x) == 0
    decreases x
  {
    if x != 0 {
      AndZero(x / 2);
    }
  }

  lemma {:induction false} OrZero(x: nat)
    ensures Or(x, 0) == x && Or(0, x) == x
    decreases x
  {
    if x != 0 {
      OrZero(x / 2);
    }
  }

  /** Against a mask below `2^k`, only the low `k` bits of `x` matter. */
  lemma AndLow(x: nat, m: nat, k: nat)
    requires m < Pow2(k)
    ensures And(x, m) == And(Low(x, k), m)
  {
    ShrLow(x, k);
    ShlZero(k);
    Split(AndOp, Low(x, k), m, Shr(x, k), 0, k, x, m);
    AndZero(Shr(x, k));
  }

  /** Python's `x & mask(n)` keeps exactly the low `n` bits. */
  lemma {:induction false} AndLowMask(x: nat, n: nat)
    ensures And(x, Pow2(n) - 1) == Low(x, n)
  {
    if n == 0 {
      AndZero(x);
    } else {
      AndLowMask(x / 2, n - 1);
      Unfold(AndOp, x, Pow2(n) - 1);
    }
  }

  /** `x ^ (x ^ m) == m`: XOR with the same operand twice cancels. */
  lemma {:induction false} XorCancel(x: nat, m: nat)
    ensures Xor(x, Xor(x, m)) == m
    decreases x + m
  {
    var y := Xor(x, m);
    Unfold(XorOp, x, m);
    Unfold(XorOp, x, y);
    if x != 0 || m != 0 {
      XorCancel(x / 2, m / 2);
    }
    assert y / 2 == Xor(x / 2, m / 2) && y % 2 == BitOp(XorOp, x % 2, m % 2);
  }

  /** `x | y` has every bit of `y`, so it is at least `y`. */
  lemma {:induction false} OrGe(x: nat, y: nat)
    ensures Or(x, y) >= y
    decreases x + y
  {
    if x != 0 || y != 0 {
      OrGe(x / 2, y / 2);
    }
  }

  /** `x ^ y` is zero exactly when the operands are equal. */
  lemma {:induction false} XorZeroIff(x: nat, y: nat)
    ensures Xor(x, y) == 0 <==> x == y
    decreases x + y
  {
    if x != 0 || y != 0 {
      XorZeroIff(x / 2, y / 2);
    }
  }

  /** Flipping all of the low `n` bits of `x < 2^n` gives `2^n - 1 - x`. */
  lemma {:induction false} XorLowMask(x: nat, n: nat)
    requires x < Pow2(n)
    ensures Xor(x, Pow2(n) - 1) == Pow2(n) - 1 - x
  {
    if n > 0 {
      XorLowMask(x / 2, n - 1);
      Unfold(XorOp, x, Pow2(n) - 1);
    }
  }

  /** Setting bit `k` of a number below `2^k` adds `2^k`. */
  lemma OrHighBit(x: nat, k: nat)
    requires x < Pow2(k)
    ensures Or(x, Pow2(k)) == x + Pow2(k)
  {
    ShlZero(k);
    ShlOne(k);
    Split(OrOp, x, 0, 0, 1, k, x, Pow2(k));
    OrZero(x);
    assert Or(0, 1) == 1 by { Unfold(OrOp, 0, 1); }
  }

  /** The operators on the single bits 0 and 1. */
  lemma OnBits(op: Op, a: nat, b: nat)
    requires a < 2 && b < 2
    ensures Bitwise(op, a, b) == BitOp(op, a, b)
  {
    Unfold(op, a, b);
  }
}

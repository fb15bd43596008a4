/** The mask algebra of simd.py: `mask`, `mask_array` and the four masks
    derived from a lane layout of `n` lanes with `bv` value bits under `bp`
    padding bits. Each mask is stated as the packed sequence it stands for
    ("an array of 1", "an array of maxval", ...), and the bit-level lemmas
    say which bits of every lane are set. The source caches these functions;
    the cache does not change their values and is not modelled. */
module Masks {
  import opened Bits
  import opened Lanes

  /** Python's `~x` on integers: `-x - 1`. */
  function Not(x: int): int
  {
    -x - 1
  }

  /** `mask(n) = ~(~0 << n)`: on Python integers `~0` is `-1` and `<< n`
      multiplies by `2^n`. The result is the number with the `n` low bits set. */
  function Mask(n: nat): (r: nat)
    ensures r == Pow2(n) - 1
  {
    Not(Not(0) * Pow2(n))
  }

  /** Bit `j` of `mask(n)` is set exactly when `j < n`. */
  lemma {:induction false} MaskBits(n: nat, j: nat)
    ensures Low(Shr(Mask(n), j), 1) == if j < n then 1 else 0
  {
    if j == 0 {
      if n > 0 {
        assert Mask(n) == 2 * Mask(n - 1) + 1;
      }
    } else if n == 0 {
      ShrZero(j);
    } else {
      assert Mask(n) / 2 == Mask(n - 1);
      MaskBits(n - 1, j - 1);
    }
  }

  lemma {:induction false} ShrZero(j: nat)
    ensures Shr(0, j) == 0
  {
    if j > 0 { ShrZero(j - 1); }
  }

  /** `x & mask(n)` keeps the `n` low bits of `x`. */
  lemma AndMask(x: nat, n: nat)
    ensures And(x, Mask(n)) == Low(x, n)
  {
    AndLowMask(x, n);
  }

  /** `mask_array(n, bi)`: bit 0 of each of `n` groups of `bi` bits, computed
      as `mask(n * bi) // mask(bi)`. The result is the array of `n` ones: `n`
      copies of a `bi`-digit binary `0...01` written side by side. */
  function MaskArray(n: nat, bi: Pos): (r: nat)
    ensures r == Pack(Repeat(1, n), bi)
  {
    PackRepeatScale(1, Mask(bi), n, bi);
    PackRepeatMask(n, bi);
    WidthIsMul(n, bi);
    Pow2Mono(1, bi);
    DivModUnique(Mask(n * bi), Mask(bi), Pack(Repeat(1, n), bi), 0);
    Mask(n * bi) / Mask(bi)
  }

  lemma PackRepeatScale(v: nat, k: nat, n: nat, w: nat)
    ensures Pack(Repeat(v, n), w) * k == Pack(Repeat(v * k, n), w)
  {
    PackScale(Repeat(v, n), k, w);
    assert seq(n, i requires 0 <= i < n => Repeat(v, n)[i] * k) == Repeat(v * k, n);
  }

  /** `_mask_array_val`: the array of 1, one bit at the bottom of every lane. */
  function MaskArrayVal(n: nat, bi: Pos): (r: nat)
    ensures r == Pack(Repeat(1, n), bi)
  {
    MaskArray(n, bi)
  }

  /** `_mask_val`: the array of maxval, every value bit of every lane set. */
  function MaskVal(n: nat, bp: nat, bv: Pos): (r: nat)
    ensures r == Pack(Repeat(Mask(bv), n), bp + bv)
  {
    PackRepeatScale(1, Mask(bv), n, bp + bv);
    MaskArrayVal(n, bp + bv) * Mask(bv)
  }

  /** `_mask_array_pad`: the array of maxval + 1, that is `_mask_array_val`
      moved up by `bv`: the first padding bit of every lane. */
  function MaskArrayPad(n: nat, bp: nat, bv: Pos): (r: nat)
    ensures r == Pack(Repeat(Pow2(bv), n), bp + bv)
    ensures r == Shl(MaskArrayVal(n, bp + bv), bv)
  {
    PackShl(Repeat(1, n), bv, bp + bv);
    ShlOne(bv);
    assert seq(n, i requires 0 <= i < n => Shl(Repeat(1, n)[i], bv)) == Repeat(Pow2(bv), n);
    Shl(MaskArray(n, bp + bv), bv)
  }

  /** `_mask_pad`: every padding bit of every lane set. */
  function MaskPad(n: nat, bp: nat, bv: Pos): (r: nat)
    ensures r == Pack(Repeat(Shl(Mask(bp), bv), n), bp + bv)
  {
    var arrayPad := MaskArrayPad(n, bp, bv);
    PackRepeatScale(Pow2(bv), Mask(bp), n, bp + bv);
    ShlIsMul(Mask(bp), bv);
    assert Pow2(bv) * Mask(bp) == Shl(Mask(bp), bv);
    arrayPad * Mask(bp)
  }

  // ---------------------------------------------------------------------
  // Which bits the masks hold

  /** Bit `s` of `x << k`: zero below `k`, bit `s - k` of `x` from `k` on. */
  lemma ShlBit(x: nat, k: nat, s: nat)
    ensures Low(Shr(Shl(x, k), s), 1) == if s < k then 0 else Low(Shr(x, s - k), 1)
  {
    if s < k {
      ShrZero(s);
      ShrAdd(0, x, s, k);
      assert Shl(x, k - s) == 2 * Shl(x, k - s - 1);
    } else {
      ShlZero(k);
      ShrLowOf(0, x, k);
      ShrShr(Shl(x, k), k, s - k);
    }
  }

  /** Bit `s` of lane `j` of `_mask_val` is set exactly when `s < bv`. */
  lemma MaskValBits(n: nat, bp: nat, bv: Pos, j: nat, s: nat)
    requires j < n && s < bp + bv
    ensures Low(Shr(MaskVal(n, bp, bv), Width(j, bp + bv) + s), 1) == if s < bv then 1 else 0
  {
    Pow2Mono(bv, bp + bv);
    Window(Repeat(Mask(bv), n), bp + bv, j, s, 1);
    MaskBits(bv, s);
  }

  /** Bit `s` of lane `j` of `_mask_pad` is set exactly when `s >= bv`. */
  lemma MaskPadBits(n: nat, bp: nat, bv: Pos, j: nat, s: nat)
    requires j < n && s < bp + bv
    ensures Low(Shr(MaskPad(n, bp, bv), Width(j, bp + bv) + s), 1) == if s < bv then 0 else 1
  {
    var m, pad := LaneMasks(bp, bv);
    Window(Repeat(pad, n), bp + bv, j, s, 1);
    ShlBit(Mask(bp), bv, s);
    if s >= bv {
      MaskBits(bp, s - bv);
    }
  }

  /** Bit `s` of lane `j` of `_mask_array_pad` is set exactly when `s == bv`. */
  lemma MaskArrayPadBits(n: nat, bp: Pos, bv: Pos, j: nat, s: nat)
    requires j < n && s < bp + bv
    ensures Low(Shr(MaskArrayPad(n, bp, bv), Width(j, bp + bv) + s), 1) == if s == bv then 1 else 0
  {
    Pow2Mono(bv + 1, bp + bv);
    Window(Repeat(Pow2(bv), n), bp + bv, j, s, 1);
    ShlOne(bv);
    ShlBit(1, bv, s);
    if s >= bv {
      MaskBits(1, s - bv);
    }
  }

  /** Bit `s` of lane `j` of `_mask_array_val` is set exactly when `s == 0`. */
  lemma MaskArrayValBits(n: nat, bi: Pos, j: nat, s: nat)
    requires j < n && s < bi
    ensures Low(Shr(MaskArrayVal(n, bi), Width(j, bi) + s), 1) == if s == 0 then 1 else 0
  {
    Pow2Mono(1, bi);
    Window(Repeat(1, n), bi, j, s, 1);
    MaskBits(1, s);
  }

  // ---------------------------------------------------------------------
  // Value mask and padding mask partition the array

  lemma PackRepeatBitwise(op: Op, u: nat, v: nat, n: nat, w: nat)
    requires u < Pow2(w) && v < Pow2(w)
    ensures Bitwise(op, Pack(Repeat(u, n), w), Pack(Repeat(v, n), w))
         == Pack(Repeat(Bitwise(op, u, v), n), w)
  {
    PackBitwiseOf(op, Repeat(u, n), Repeat(v, n), Repeat(Bitwise(op, u, v), n), w);
  }

  /** One lane of the value mask and one lane of the padding mask are
      disjoint and together fill the lane. */
  lemma LaneMasks(bp: nat, bv: Pos) returns (m: nat, pad: nat)
    ensures m == Mask(bv) && pad == Shl(Mask(bp), bv)
    ensures m < Pow2(bp + bv) && pad < Pow2(bp + bv)
    ensures And(m, pad) == 0 && Or(m, pad) == Mask(bp + bv)
  {
    m, pad := Mask(bv), Shl(Mask(bp), bv);
    ShlZero(bv);
    ShlAdd(Mask(bp), 1, bv);
    ShlOne(bv);
    Pow2Add(bp, bv);
    Pow2Mono(bv, bp + bv);
    LaneOp(AndOp, m, Mask(bp), bv);
    LaneOp(OrOp, m, Mask(bp), bv);
    AndZero(m);
    AndZero(Mask(bp));
    OrZero(m);
    OrZero(Mask(bp));
  }

  /** `Split` with nothing above the first operand's low bits. */
  lemma LaneOp(op: Op, a: nat, y: nat, k: nat)
    requires a < Pow2(k)
    ensures Bitwise(op, a, Shl(y, k)) == Bitwise(op, a, 0) + Shl(Bitwise(op, 0, y), k)
  {
    ShlZero(k);
    Split(op, a, 0, 0, y, k, a, Shl(y, k));
  }

  /** Value mask and padding mask are disjoint, and together they are the
      mask of the whole array, `mask(bi * length)`. */
  lemma MaskPartition(n: nat, bp: nat, bv: Pos)
    ensures And(MaskVal(n, bp, bv), MaskPad(n, bp, bv)) == 0
    ensures Or(MaskVal(n, bp, bv), MaskPad(n, bp, bv)) == Mask((bp + bv) * n)
  {
    var bi := bp + bv;
    var m, pad := LaneMasks(bp, bv);
    PackRepeatBitwise(AndOp, m, pad, n, bi);
    PackRepeatBitwise(OrOp, m, pad, n, bi);
    PackRepeatZero(n, bi);
    PackRepeatMask(n, bi);
    WidthIsMul(n, bi);
  }
}

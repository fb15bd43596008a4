/** The operators of class `A`.

    Every operator returns a new array of the same shape. An operand is
    another array or a Python integer; an integer `n` is first turned into
    the array holding `n` in every lane (`_from_const`). Operators that need
    two arrays of the same shape raise `ValueError` otherwise, modelled as
    `Err(ValueError)`.

    Each operator is defined on `data` the way the class computes it, and a
    lemma beside it states what that computation does to the lane values,
    under the class invariant (`Layout.Valid`) and, where the operator
    needs it, at least one padding bit. */
module Simd {
  import opened Bits
  import opened Lanes
  import opened Masks
  import opened Layout

  datatype Error = ValueError

  datatype Result<T> = Ok(value: T) | Err(error: Error)

  /** The right-hand operand `other: A | int` (non-negative integers only). */
  datatype Operand = Arr(arr: A) | Int(n: nat)

  // ---------------------------------------------------------------------
  // Constants and equality

  /** `_from_const(n)`: `_mask_array_val * n`, the integer `n` in every lane. */
  function FromConst(a: A, n: nat): (r: A)
    ensures r.shape == a.shape
    ensures n < Pow2(a.shape.bv) ==> Valid(r) && Values(r) == Repeat(n, a.shape.length)
  {
    var s := a.shape;
    PackRepeatScale(1, n, s.length, s.Bi());
    if n < Pow2(s.bv) then
      PackValid(Repeat(n, s.length), s);
      A(MaskArrayValOf(s) * n, s)
    else
      A(MaskArrayValOf(s) * n, s)
  }

  /** An integer operand becomes `_from_const` of it, an array stays. */
  function Resolve(a: A, o: Operand): A
  {
    match o
    case Arr(b) => b
    case Int(n) => FromConst(a, n)
  }

  /** `__eq__`: same shape and same `data`, i.e. the same instance value. */
  function Equal(a: A, b: A): (r: bool)
    ensures r <==> a == b
  {
    a.shape == b.shape && a.data == b.data
  }

  /** `__ne__` */
  function NotEqual(a: A, b: A): (r: bool)
    ensures r <==> a != b
  {
    a.shape != b.shape || a.data != b.data
  }

  /** On valid arrays `__eq__` compares lane values: two valid arrays of
      one shape are equal exactly when they hold the same values. */
  lemma EqualIffValues(a: A, b: A)
    requires Valid(a) && Valid(b) && a.shape == b.shape
    ensures Equal(a, b) <==> Values(a) == Values(b)
  {
    ValidPack(a);
    ValidPack(b);
  }

  // ---------------------------------------------------------------------
  // Addition and subtraction

  /** `__add__`: add the whole integers, then clear every padding field. */
  function Add(a: A, o: Operand): (r: Result<A>)
    ensures r.Err? <==> Resolve(a, o).shape != a.shape
    ensures r.Ok? ==> r.value.shape == a.shape && Valid(r.value)
  {
    var b := Resolve(a, o);
    if a.shape != b.shape then Err(ValueError)
    else
      MaskValLanes(a.data + b.data, a.shape);
      Ok(A(And(a.data + b.data, MaskValOf(a.shape)), a.shape))
  }

  /** With one padding bit the carry out of a lane stays in its padding:
      every lane is added modulo `2^bits_val`. */
  lemma AddLanes(a: A, b: A)
    requires Valid(a) && Valid(b) && b.shape == a.shape && a.shape.bp >= 1
    ensures Add(a, Arr(b)).Ok?
    ensures forall i :: 0 <= i < a.shape.length ==>
      Values(Add(a, Arr(b)).value)[i] == (Values(a)[i] + Values(b)[i]) % Pow2(a.shape.bv)
  {
    var zs := AddData(a, b);
    MaskedLanes(zs, a.shape);
  }

  /** The sum of two valid arrays, lane by lane. */
  lemma AddData(a: A, b: A) returns (zs: seq<nat>)
    requires Valid(a) && Valid(b) && a.shape == b.shape && a.shape.bp >= 1
    ensures |zs| == a.shape.length && Fits(zs, a.shape.Bi())
    ensures forall i :: 0 <= i < a.shape.length ==>
      zs[i] % Pow2(a.shape.bv) == (Values(a)[i] + Values(b)[i]) % Pow2(a.shape.bv)
    ensures a.data + b.data == Pack(zs, a.shape.Bi())
  {
    ValidPack(a);
    ValidPack(b);
    zs := AddPacked(Values(a), Values(b), a.shape);
  }

  /** Lane sums of values below `2^bits_val` fit in a lane with padding. */
  lemma AddPacked(xs: seq<nat>, ys: seq<nat>, s: Shape) returns (zs: seq<nat>)
    requires |xs| == |ys| == s.length && Fits(xs, s.bv) && Fits(ys, s.bv) && s.bp >= 1
    ensures |zs| == s.length && Fits(zs, s.Bi())
    ensures forall i :: 0 <= i < s.length ==> zs[i] == xs[i] + ys[i]
    ensures Pack(xs, s.Bi()) + Pack(ys, s.Bi()) == Pack(zs, s.Bi())
  {
    zs := seq(s.length, i requires 0 <= i < s.length => xs[i] + ys[i]);
    PackAddOf(xs, ys, zs, s.Bi());
    assert Pow2(s.bv + 1) == 2 * Pow2(s.bv);
    Pow2Mono(s.bv + 1, s.Bi());
  }

  /** Python's `x & m` for an integer `x` that may be negative: two's
      complement, so `x` is first reduced modulo a power of two above `m`. */
  function PyAnd(x: int, m: nat): (r: nat)
    ensures x >= 0 ==> r == And(x, m)
  {
    if x >= 0 then And(x, m) else And(x % Pow2(m), m)
  }

  /** `__sub__`: set the first padding bit of every lane, subtract the whole
      integers, then clear every padding field. */
  function Sub(a: A, o: Operand): (r: Result<A>)
    ensures r.Err? <==> Resolve(a, o).shape != a.shape
    ensures r.Ok? ==> r.value.shape == a.shape && Valid(r.value)
  {
    var b := Resolve(a, o);
    if a.shape != b.shape then Err(ValueError)
    else
      var n := Or(a.data, MaskArrayPadOf(a.shape)) - b.data;
      MaskValLanes(if n >= 0 then n else n % Pow2(MaskValOf(a.shape)), a.shape);
      Ok(A(PyAnd(n, MaskValOf(a.shape)), a.shape))
  }

  /** With one padding bit every lane borrows from its own padding: each
      lane is subtracted modulo `2^bits_val`. */
  lemma SubLanes(a: A, b: A)
    requires Valid(a) && Valid(b) && b.shape == a.shape && a.shape.bp >= 1
    ensures Sub(a, Arr(b)).Ok?
    ensures forall i :: 0 <= i < a.shape.length ==>
      Values(Sub(a, Arr(b)).value)[i] == (Values(a)[i] - Values(b)[i]) % Pow2(a.shape.bv)
  {
    var zs := SubData(a, b);
    MaskedLanes(zs, a.shape);
  }

  /** The difference of two valid arrays with every padding field of the
      first set to one, lane by lane. */
  lemma SubData(a: A, b: A) returns (zs: seq<nat>)
    requires Valid(a) && Valid(b) && a.shape == b.shape && a.shape.bp >= 1
    ensures |zs| == a.shape.length && Fits(zs, a.shape.Bi())
    ensures forall i :: 0 <= i < a.shape.length ==>
      zs[i] % Pow2(a.shape.bv) == (Values(a)[i] - Values(b)[i]) % Pow2(a.shape.bv)
    ensures Or(a.data, MaskArrayPadOf(a.shape)) - b.data == Pack(zs, a.shape.Bi())
  {
    ValidPack(a);
    ValidPack(b);
    zs := SubPacked(Values(a), Values(b), a.shape);
  }

  /** `(xs | _mask_array_pad) - ys` lane by lane: `x + 2^bits_val - y`, which
      is non-negative and fits in a lane with padding. */
  lemma SubPacked(xs: seq<nat>, ys: seq<nat>, s: Shape) returns (zs: seq<nat>)
    requires |xs| == |ys| == s.length && Fits(xs, s.bv) && Fits(ys, s.bv) && s.bp >= 1
    ensures |zs| == s.length && Fits(zs, s.Bi())
    ensures forall i :: 0 <= i < s.length ==> zs[i] % Pow2(s.bv) == (xs[i] - ys[i]) % Pow2(s.bv)
    ensures Or(Pack(xs, s.Bi()), MaskArrayPadOf(s)) - Pack(ys, s.Bi()) == Pack(zs, s.Bi())
  {
    var top := Pow2(s.bv);
    var us := seq(s.length, i requires 0 <= i < s.length => xs[i] + top);
    zs := Borrow(xs, ys, top);
    SetPad(xs, s);
    PackSubOf(us, ys, zs, s.Bi());
    assert Pow2(s.bv + 1) == 2 * top;
    Pow2Mono(s.bv + 1, s.Bi());
  }

  /** `data | _mask_array_pad` on values below `2^bits_val`: each lane gets
      `2^bits_val` added. */
  lemma SetPad(xs: seq<nat>, s: Shape)
    requires |xs| == s.length && Fits(xs, s.bv) && s.bp >= 1
    ensures Or(Pack(xs, s.Bi()), MaskArrayPadOf(s))
         == Pack(seq(s.length, i requires 0 <= i < s.length => xs[i] + Pow2(s.bv)), s.Bi())
  {
    var ps := Repeat(Pow2(s.bv), s.length);
    var zs := seq(s.length, i requires 0 <= i < s.length => xs[i] + Pow2(s.bv));
    Pow2Mono(s.bv + 1, s.Bi());
    Pow2Add(s.bv, 1);
    ShlIsMul(Pow2(s.bv), 1);
    forall i | 0 <= i < s.length
      ensures xs[i] < Pow2(s.Bi()) && zs[i] == Or(xs[i], ps[i])
    {
      OrHighBit(xs[i], s.bv);
    }
    PackBitwiseOf(OrOp, xs, ps, zs, s.Bi());
  }

  /** `x + top - y` lane by lane, for lanes below `top`. */
  lemma Borrow(xs: seq<nat>, ys: seq<nat>, top: nat) returns (zs: seq<nat>)
    requires |xs| == |ys| && top >= 1
    requires forall i :: 0 <= i < |ys| ==> ys[i] < top
    ensures |zs| == |xs|
    ensures forall i :: 0 <= i < |zs| ==> zs[i] == xs[i] + top - ys[i] && zs[i] <= xs[i] + top
    ensures forall i :: 0 <= i < |zs| ==> zs[i] % top == (xs[i] - ys[i]) % top
  {
    zs := seq(|xs|, i requires 0 <= i < |xs| => assert ys[i] < top; xs[i] + top - ys[i]);
    forall i | 0 <= i < |zs|
      ensures zs[i] % top == (xs[i] - ys[i]) % top
    {
      ModShift(xs[i] as int - ys[i], top);
    }
  }

  lemma ModShift(x: int, p: int)
    requires p >= 1
    ensures (x + p) % p == x % p
  {
    DivModUnique(x + p, p, x / p + 1, x % p);
  }

  // ---------------------------------------------------------------------
  // Bitwise operators

  /** `__and__`, `__or__` and `__xor__`: the operator on the whole integers. */
  function Logic(op: Op, a: A, o: Operand): (r: Result<A>)
    ensures r.Err? <==> Resolve(a, o).shape != a.shape
    ensures r.Ok? ==> r.value.shape == a.shape
  {
    var b := Resolve(a, o);
    if a.shape != b.shape then Err(ValueError)
    else Ok(A(Bitwise(op, a.data, b.data), a.shape))
  }

  /** `__and__`: on two valid arrays of one shape, lane `i` of the result is
      `And` of the two lanes, and the padding stays zero. */
  function BitAnd(a: A, o: Operand): (r: Result<A>)
    ensures r.Err? <==> Resolve(a, o).shape != a.shape
    ensures r.Ok? ==> r.value.shape == a.shape
    ensures o.Arr? && Valid(a) && Valid(o.arr) && o.arr.shape == a.shape ==>
      r.Ok? && Valid(r.value) && forall i :: 0 <= i < a.shape.length ==>
        Values(r.value)[i] == And(Values(a)[i], Values(o.arr)[i])
  {
    if o.Arr? && Valid(a) && Valid(o.arr) && o.arr.shape == a.shape then
      LogicLanes(AndOp, a, o.arr);
      Logic(AndOp, a, o)
    else
      Logic(AndOp, a, o)
  }

  /** `__or__`: on two valid arrays of one shape, lane `i` of the result is
      `Or` of the two lanes, and the padding stays zero. */
  function BitOr(a: A, o: Operand): (r: Result<A>)
    ensures r.Err? <==> Resolve(a, o).shape != a.shape
    ensures r.Ok? ==> r.value.shape == a.shape
    ensures o.Arr? && Valid(a) && Valid(o.arr) && o.arr.shape == a.shape ==>
      r.Ok? && Valid(r.value) && forall i :: 0 <= i < a.shape.length ==>
        Values(r.value)[i] == Or(Values(a)[i], Values(o.arr)[i])
  {
    if o.Arr? && Valid(a) && Valid(o.arr) && o.arr.shape == a.shape then
      LogicLanes(OrOp, a, o.arr);
      Logic(OrOp, a, o)
    else
      Logic(OrOp, a, o)
  }

  /** `__xor__`: on two valid arrays of one shape, lane `i` of the result is
      `Xor` of the two lanes, and the padding stays zero. */
  function BitXor(a: A, o: Operand): (r: Result<A>)
    ensures r.Err? <==> Resolve(a, o).shape != a.shape
    ensures r.Ok? ==> r.value.shape == a.shape
    ensures o.Arr? && Valid(a) && Valid(o.arr) && o.arr.shape == a.shape ==>
      r.Ok? && Valid(r.value) && forall i :: 0 <= i < a.shape.length ==>
        Values(r.value)[i] == Xor(Values(a)[i], Values(o.arr)[i])
  {
    if o.Arr? && Valid(a) && Valid(o.arr) && o.arr.shape == a.shape then
      LogicLanes(XorOp, a, o.arr);
      Logic(XorOp, a, o)
    else
      Logic(XorOp, a, o)
  }

  /** The bitwise operators act on every lane value on its own, and keep the
      padding zero; no padding is needed. */
  lemma LogicLanes(op: Op, a: A, b: A)
    requires Valid(a) && Valid(b) && b.shape == a.shape
    ensures Logic(op, a, Arr(b)).Ok? && Valid(Logic(op, a, Arr(b)).value)
    ensures forall i :: 0 <= i < a.shape.length ==>
      Values(Logic(op, a, Arr(b)).value)[i] == Bitwise(op, Values(a)[i], Values(b)[i])
  {
    var s := a.shape;
    var va, vb := Values(a), Values(b);
    var zs := seq(s.length, i requires 0 <= i < s.length => Bitwise(op, va[i], vb[i]));
    ValidPack(a);
    ValidPack(b);
    Pow2Mono(s.bv, s.Bi());
    forall i | 0 <= i < s.length
      ensures va[i] < Pow2(s.Bi()) && vb[i] < Pow2(s.Bi()) && zs[i] < Pow2(s.bv)
    {
      Bound(op, va[i], vb[i], s.bv);
    }
    PackBitwiseOf(op, va, vb, zs, s.Bi());
    PackValid(zs, s);
  }

  // ---------------------------------------------------------------------
  // Multiplication by a constant, shifts, inversion, negation

  /** `__mul__` with an integer: multiply the whole integer, then clear every
      padding field. There is no shape check on this path. */
  function MulConst(a: A, k: nat): (r: A)
    ensures r.shape == a.shape && Valid(r)
  {
    MaskValLanes(a.data * k, a.shape);
    A(And(a.data * k, MaskValOf(a.shape)), a.shape)
  }

  /** As long as no lane product overflows its lane, every lane is
      multiplied modulo `2^bits_val`. */
  lemma MulConstLanes(a: A, k: nat)
    requires Valid(a)
    requires forall i :: 0 <= i < a.shape.length ==> Values(a)[i] * k < Pow2(a.shape.Bi())
    ensures forall i :: 0 <= i < a.shape.length ==>
      Values(MulConst(a, k))[i] == (Values(a)[i] * k) % Pow2(a.shape.bv)
  {
    var zs := MulConstData(a, k);
    MaskedLanes(zs, a.shape);
  }

  lemma MulConstData(a: A, k: nat) returns (zs: seq<nat>)
    requires Valid(a)
    requires forall i :: 0 <= i < a.shape.length ==> Values(a)[i] * k < Pow2(a.shape.Bi())
    ensures |zs| == a.shape.length && Fits(zs, a.shape.Bi())
    ensures forall i :: 0 <= i < a.shape.length ==>
      zs[i] % Pow2(a.shape.bv) == (Values(a)[i] * k) % Pow2(a.shape.bv)
    ensures a.data * k == Pack(zs, a.shape.Bi())
  {
    var va := Values(a);
    zs := seq(a.shape.length, i requires 0 <= i < a.shape.length => va[i] * k);
    ValidPack(a);
    PackScaleOf(va, zs, k, a.shape.Bi());
  }

  /** `__rshift__`: shift the whole integer right, then clear every padding
      field. */
  function RShift(a: A, b: nat): (r: A)
    ensures r.shape == a.shape && Valid(r)
  {
    MaskValLanes(Shr(a.data, b), a.shape);
    A(And(Shr(a.data, b), MaskValOf(a.shape)), a.shape)
  }

  /** Shifting by no more than the padding width shifts every lane on its
      own: the bits that leave a lane at the bottom fall into the padding of
      the lane below and are cleared. */
  lemma RShiftLanes(a: A, b: nat)
    requires Valid(a) && b <= a.shape.bp
    ensures forall i :: 0 <= i < a.shape.length ==>
      Values(RShift(a, b))[i] == Values(a)[i] / Pow2(b)
  {
    MaskValLanes(Shr(a.data, b), a.shape);
    forall j | 0 <= j < a.shape.length
      ensures Values(A(Shr(a.data, b), a.shape))[j] == Values(a)[j] / Pow2(b)
    {
      RShiftLane(a, b, j);
    }
  }

  /** One lane of `data >> b`. */
  lemma RShiftLane(a: A, b: nat, j: nat)
    requires Valid(a) && b <= a.shape.bp && j < a.shape.length
    ensures GetVal(A(Shr(a.data, b), a.shape), j) == Values(a)[j] / Pow2(b)
  {
    ValidPack(a);
    RShiftPacked(Values(a), a.shape, b, j);
  }

  lemma RShiftPacked(xs: seq<nat>, s: Shape, b: nat, j: nat)
    requires |xs| == s.length && Fits(xs, s.bv) && b <= s.bp && j < s.length
    ensures Low(Shr(Shr(Pack(xs, s.Bi()), b), Width(j, s.Bi())), s.bv) == xs[j] / Pow2(b)
  {
    Pow2Mono(s.bv, s.Bi());
    Pow2Mono(s.bv, b + s.bv);
    ShrShr(Pack(xs, s.Bi()), b, Width(j, s.Bi()));
    assert b + Width(j, s.Bi()) == Width(j, s.Bi()) + b;
    Window(xs, s.Bi(), j, b, s.bv);
    ShrBound(xs[j], b, s.bv);
    SmallShr(Shr(xs[j], b), s.bv, s.bv);
    ShrLowIsDivMod(xs[j], b);
  }

  /** `__lshift__`: shift the whole integer left, then clear every padding
      field. */
  function LShift(a: A, b: nat): (r: A)
    ensures r.shape == a.shape && Valid(r)
  {
    MaskValLanes(Shl(a.data, b), a.shape);
    A(And(Shl(a.data, b), MaskValOf(a.shape)), a.shape)
  }

  /** Shifting by no more than the padding width shifts every lane on its
      own: the bits that leave a lane at the top land in its own padding and
      are cleared. */
  lemma LShiftLanes(a: A, b: nat)
    requires Valid(a) && b <= a.shape.bp
    ensures forall i :: 0 <= i < a.shape.length ==>
      Values(LShift(a, b))[i] == (Values(a)[i] * Pow2(b)) % Pow2(a.shape.bv)
  {
    ValidPack(a);
    var zs := LShiftPacked(Values(a), a.shape, b);
    MaskedLanes(zs, a.shape);
  }

  /** `xs << b` lane by lane: no lane reaches the next one. */
  lemma LShiftPacked(xs: seq<nat>, s: Shape, b: nat) returns (zs: seq<nat>)
    requires |xs| == s.length && Fits(xs, s.bv) && b <= s.bp
    ensures |zs| == s.length && Fits(zs, s.Bi())
    ensures forall i :: 0 <= i < s.length ==> zs[i] == xs[i] * Pow2(b)
    ensures Shl(Pack(xs, s.Bi()), b) == Pack(zs, s.Bi())
  {
    zs := seq(s.length, i requires 0 <= i < s.length => Shl(xs[i], b));
    PackShlOf(xs, zs, b, s.Bi());
    Pow2Mono(s.bv + b, s.Bi());
    forall i | 0 <= i < s.length
      ensures zs[i] < Pow2(s.Bi()) && zs[i] == xs[i] * Pow2(b)
    {
      ShlBound(xs[i], s.bv, b);
      ShlIsMul(xs[i], b);
    }
  }

  /** `__invert__`: flip every value bit, `data ^ _mask_val`. */
  function Invert(a: A): (r: A)
    ensures r.shape == a.shape
  {
    A(Xor(a.data, MaskValOf(a.shape)), a.shape)
  }

  /** Inverting a valid array flips every value, `maxval - v`, and keeps the
      padding zero. */
  lemma InvertLanes(a: A)
    requires Valid(a)
    ensures Valid(Invert(a))
    ensures forall i :: 0 <= i < a.shape.length ==>
      Values(Invert(a))[i] == Pow2(a.shape.bv) - 1 - Values(a)[i]
  {
    var zs := InvertData(a);
    PackValid(zs, a.shape);
  }

  lemma InvertData(a: A) returns (zs: seq<nat>)
    requires Valid(a)
    ensures |zs| == a.shape.length && Fits(zs, a.shape.bv)
    ensures forall i :: 0 <= i < a.shape.length ==> zs[i] == Pow2(a.shape.bv) - 1 - Values(a)[i]
    ensures Xor(a.data, MaskValOf(a.shape)) == Pack(zs, a.shape.Bi())
  {
    ValidPack(a);
    zs := InvertPacked(Values(a), a.shape);
  }

  /** `xs ^ _mask_val` lane by lane, for values below `2^bits_val`. */
  lemma InvertPacked(xs: seq<nat>, s: Shape) returns (zs: seq<nat>)
    requires |xs| == s.length && Fits(xs, s.bv)
    ensures |zs| == s.length && Fits(zs, s.bv)
    ensures forall i :: 0 <= i < s.length ==> zs[i] == Pow2(s.bv) - 1 - xs[i]
    ensures Xor(Pack(xs, s.Bi()), MaskValOf(s)) == Pack(zs, s.Bi())
  {
    var ms := Repeat(Mask(s.bv), s.length);
    zs := seq(s.length, i requires 0 <= i < s.length => Pow2(s.bv) - 1 - xs[i]);
    Pow2Mono(s.bv, s.Bi());
    forall i | 0 <= i < s.length
      ensures zs[i] == Xor(xs[i], ms[i])
    {
      XorLowMask(xs[i], s.bv);
    }
    PackBitwiseOf(XorOp, xs, ms, zs, s.Bi());
  }

  /** `__neg__`: `_mask_array_pad - data`, borrowing from the first padding
      bit of every lane. The result is never masked. The class keeps `data`
      non-negative, which here is the precondition; every valid array meets it
      (`NegDefined`). */
  function Neg(a: A): (r: A)
    requires a.data <= MaskArrayPadOf(a.shape)
    ensures r.shape == a.shape
  {
    A(MaskArrayPadOf(a.shape) - a.data, a.shape)
  }

  /** A valid array never exceeds `_mask_array_pad`: `Neg` applies to it. */
  lemma NegDefined(a: A)
    requires Valid(a)
    ensures a.data <= MaskArrayPadOf(a.shape)
  {
    var s := a.shape;
    var va := Values(a);
    ValidPack(a);
    var zs := Borrow(Repeat(0, s.length), va, Pow2(s.bv));
    PackSubOf(Repeat(Pow2(s.bv), s.length), va, zs, s.Bi());
  }

  /** Negating a valid array negates every lane modulo `2^bits_val`; a lane
      holding 0 becomes `2^bits_val`, which leaves a one in its padding, so
      the result is valid exactly when no lane is 0. */
  lemma NegLanes(a: A)
    requires Valid(a) && a.shape.bp >= 1
    ensures a.data <= MaskArrayPadOf(a.shape)
    ensures forall i :: 0 <= i < a.shape.length ==>
      Values(Neg(a))[i] == (-(Values(a)[i] as int)) % Pow2(a.shape.bv)
    ensures forall i :: 0 <= i < a.shape.length ==>
      GetPad(Neg(a), i) == if Values(a)[i] == 0 then 1 else 0
    ensures Valid(Neg(a)) <==> forall i :: 0 <= i < a.shape.length ==> Values(a)[i] != 0
  {
    var s := a.shape;
    var zs := NegData(a);
    PackBound(zs, s.Bi());
    forall j | 0 <= j < s.length
      ensures GetVal(Neg(a), j) == (-(Values(a)[j] as int)) % Pow2(s.bv)
      ensures GetPad(Neg(a), j) == if Values(a)[j] == 0 then 1 else 0
    {
      ReadLanes(zs, s, j);
      NegLane(Values(a)[j], s.bv);
    }
  }

  /** `_mask_array_pad - data` lane by lane. */
  lemma NegData(a: A) returns (zs: seq<nat>)
    requires Valid(a) && a.shape.bp >= 1
    ensures a.data <= MaskArrayPadOf(a.shape)
    ensures |zs| == a.shape.length && Fits(zs, a.shape.Bi())
    ensures forall i :: 0 <= i < a.shape.length ==> zs[i] == Pow2(a.shape.bv) - Values(a)[i]
    ensures MaskArrayPadOf(a.shape) - a.data == Pack(zs, a.shape.Bi())
  {
    var s := a.shape;
    var va := Values(a);
    ValidPack(a);
    zs := Borrow(Repeat(0, s.length), va, Pow2(s.bv));
    PackSubOf(Repeat(Pow2(s.bv), s.length), va, zs, s.Bi());
    assert Pow2(s.bv + 1) == 2 * Pow2(s.bv);
    Pow2Mono(s.bv + 1, s.Bi());
  }

  /** One lane of `Neg`: `2^bv - v` for `v < 2^bv`. */
  lemma NegLane(v: nat, bv: nat)
    requires v < Pow2(bv)
    ensures Low(Pow2(bv) - v, bv) == (-(v as int)) % Pow2(bv)
    ensures Shr(Pow2(bv) - v, bv) == if v == 0 then 1 else 0
  {
    ShlOne(bv);
    if v == 0 {
      ShrLowOf(0, 1, bv);
    } else {
      SmallShr(Pow2(bv) - v, bv, bv);
      DivModUnique(-(v as int), Pow2(bv), -1, Pow2(bv) - v);
    }
  }

  /** `__neg__` as evidently intended: the same borrow, followed by
      `& _mask_val` like every other arithmetic operator, so that padding
      stays zero. */
  function NegMasked(a: A): (r: A)
    requires a.data <= MaskArrayPadOf(a.shape)
    ensures r.shape == a.shape && Valid(r)
  {
    MaskValLanes(MaskArrayPadOf(a.shape) - a.data, a.shape);
    A(And(MaskArrayPadOf(a.shape) - a.data, MaskValOf(a.shape)), a.shape)
  }

  /** The corrected negation negates every lane modulo `2^bits_val`, zero
      lanes included, and always gives a valid array. */
  lemma NegMaskedLanes(a: A)
    requires Valid(a) && a.shape.bp >= 1
    ensures a.data <= MaskArrayPadOf(a.shape)
    ensures forall i :: 0 <= i < a.shape.length ==>
      Values(NegMasked(a))[i] == (-(Values(a)[i] as int)) % Pow2(a.shape.bv)
  {
    var zs := NegMaskedData(a);
    MaskedLanes(zs, a.shape);
  }

  lemma NegMaskedData(a: A) returns (zs: seq<nat>)
    requires Valid(a) && a.shape.bp >= 1
    ensures a.data <= MaskArrayPadOf(a.shape)
    ensures |zs| == a.shape.length && Fits(zs, a.shape.Bi())
    ensures forall i :: 0 <= i < a.shape.length ==>
      zs[i] % Pow2(a.shape.bv) == (-(Values(a)[i] as int)) % Pow2(a.shape.bv)
    ensures MaskArrayPadOf(a.shape) - a.data == Pack(zs, a.shape.Bi())
  {
    zs := NegData(a);
    forall j | 0 <= j < a.shape.length
      ensures zs[j] % Pow2(a.shape.bv) == (-(Values(a)[j] as int)) % Pow2(a.shape.bv)
    {
      NegLane(Values(a)[j], a.shape.bv);
      ShrLowIsDivMod(zs[j], a.shape.bv);
    }
  }

  /** The discrepancy on one lane holding 0 (4 value bits, 4 padding bits):
      the class's `-A(0, 4, 4, 1)` is `A(0x10, 4, 4, 1)`, whose padding is
      not zero. */
  lemma NegOfZeroLane()
    ensures Valid(A(0, Shape(4, 4, 1)))
    ensures Neg(A(0, Shape(4, 4, 1))) == A(16, Shape(4, 4, 1))
    ensures !Valid(Neg(A(0, Shape(4, 4, 1))))
  {
    var s := Shape(4, 4, 1);
    var a := A(0, s);
    PackRepeatZero(1, 8);
    PackValid(Repeat(0, 1), s);
    assert MaskArrayPadOf(s) == 16 by {
      assert Repeat(Pow2(4), 1) == [16];
      assert Pack([16], 8) == 16 + Shl(0, 8);
      ShlZero(8);
    }
    NegLanes(a);
    assert Values(a)[0] == 0;
  }

  // ---------------------------------------------------------------------
  // Truth values: every lane becomes 1 or 0

  /** `is_true`: set the first padding bit of every lane, subtract 1 from
      every lane, and keep what is left of the first padding bit. It is still
      set exactly when the lane was not 0. */
  function IsTrue(a: A): (r: A)
    ensures r.shape == a.shape
  {
    var s := a.shape;
    OrGe(a.data, MaskArrayPadOf(s));
    ShlGe(MaskArrayValOf(s), s.bv);
    var n := Or(a.data, MaskArrayPadOf(s)) - MaskArrayValOf(s);
    A(And(Shr(n, s.bv), MaskArrayValOf(s)), s)
  }

  /** `is_true` of a valid array with padding: 1 in every non-zero lane, 0
      in every zero lane, padding zero. */
  lemma IsTrueLanes(a: A)
    requires Valid(a) && a.shape.bp >= 1
    ensures Valid(IsTrue(a))
    ensures forall i :: 0 <= i < a.shape.length ==>
      Values(IsTrue(a))[i] == if Values(a)[i] != 0 then 1 else 0
  {
    var bs := IsTrueData(a);
    PackValid(bs, a.shape);
  }

  /** The lanes of `is_true` before they are read back. */
  lemma IsTrueData(a: A) returns (bs: seq<nat>)
    requires Valid(a) && a.shape.bp >= 1
    ensures |bs| == a.shape.length && Fits(bs, a.shape.bv)
    ensures forall i :: 0 <= i < a.shape.length ==> bs[i] == if Values(a)[i] != 0 then 1 else 0
    ensures IsTrue(a).data == Pack(bs, a.shape.Bi())
  {
    var s := a.shape;
    ValidPack(a);
    var zs := TruthPacked(Values(a), s);
    BitPlane(zs, s, s.bv);
    bs := BitOf(zs, s.bv);
    forall i | 0 <= i < s.length
      ensures bs[i] == if Values(a)[i] != 0 then 1 else 0
    {
      TruthBit(Values(a)[i], s.bv);
    }
    assert Pow2(1) == 2;
    Pow2Mono(1, s.bv);
  }

  /** `(xs | _mask_array_pad) - _mask_array_val` lane by lane. */
  lemma TruthPacked(xs: seq<nat>, s: Shape) returns (zs: seq<nat>)
    requires |xs| == s.length && Fits(xs, s.bv) && s.bp >= 1
    ensures |zs| == s.length && Fits(zs, s.Bi())
    ensures forall i :: 0 <= i < s.length ==> zs[i] == xs[i] + Pow2(s.bv) - 1
    ensures Or(Pack(xs, s.Bi()), MaskArrayPadOf(s)) - MaskArrayValOf(s) == Pack(zs, s.Bi())
  {
    var top := Pow2(s.bv);
    var us := seq(s.length, i requires 0 <= i < s.length => xs[i] + top);
    zs := seq(s.length, i requires 0 <= i < s.length => xs[i] + top - 1);
    SetPad(xs, s);
    PackSubOf(us, Repeat(1, s.length), zs, s.Bi());
    assert Pow2(s.bv + 1) == 2 * top;
    Pow2Mono(s.bv + 1, s.Bi());
  }

  /** Bit `bv` of `v + 2^bv - 1` is set exactly when `v` is not 0. */
  lemma TruthBit(v: nat, bv: nat)
    requires v < Pow2(bv)
    ensures Low(Shr(v + Pow2(bv) - 1, bv), 1) == if v != 0 then 1 else 0
  {
    ShlOne(bv);
    if v == 0 {
      SmallShr(Pow2(bv) - 1, bv, bv);
    } else {
      ShrLowOf(v - 1, 1, bv);
    }
  }

  /** `is_false`: `is_true` with every lane flipped, `^ _mask_array_val`. */
  function IsFalse(a: A): (r: A)
    ensures r.shape == a.shape
  {
    A(Xor(IsTrue(a).data, MaskArrayValOf(a.shape)), a.shape)
  }

  /** `is_false` of a valid array with padding: 1 in every zero lane, 0 in
      every other lane, padding zero. */
  lemma IsFalseLanes(a: A)
    requires Valid(a) && a.shape.bp >= 1
    ensures Valid(IsFalse(a))
    ensures forall i :: 0 <= i < a.shape.length ==>
      Values(IsFalse(a))[i] == if Values(a)[i] == 0 then 1 else 0
  {
    var bs := IsTrueData(a);
    var cs := FlipPacked(bs, a.shape);
    PackValid(cs, a.shape);
  }

  /** `is_true ^ is_false` is `_mask_array_val`, for every array: `is_false`
      is `is_true ^ _mask_array_val`, and `^` cancels. On a valid array with
      padding this says that in every lane exactly one of the two holds. */
  lemma TruthComplement(a: A)
    ensures Xor(IsTrue(a).data, IsFalse(a).data) == MaskArrayValOf(a.shape)
  {
    XorCancel(IsTrue(a).data, MaskArrayValOf(a.shape));
  }

  /** `xs ^ _mask_array_val` on lanes holding 0 or 1. */
  lemma FlipPacked(xs: seq<nat>, s: Shape) returns (zs: seq<nat>)
    requires |xs| == s.length && forall i :: 0 <= i < |xs| ==> xs[i] < 2
    ensures |zs| == s.length && Fits(zs, s.bv)
    ensures forall i :: 0 <= i < s.length ==> zs[i] == 1 - xs[i]
    ensures Xor(Pack(xs, s.Bi()), MaskArrayValOf(s)) == Pack(zs, s.Bi())
  {
    var ones := Repeat(1, s.length);
    zs := seq(s.length, i requires 0 <= i < s.length => 1 - xs[i]);
    assert Pow2(1) == 2;
    Pow2Mono(1, s.bv);
    Pow2Mono(1, s.Bi());
    forall i | 0 <= i < s.length
      ensures zs[i] == Xor(xs[i], ones[i])
    {
      XorLowMask(xs[i], 1);
    }
    PackBitwiseOf(XorOp, xs, ones, zs, s.Bi());
  }

  // ---------------------------------------------------------------------
  // Comparisons: every lane becomes 1 (holds) or 0 (does not)

  /** `eq`: `(self ^ other).is_false()`. */
  function Eq(a: A, o: Operand): (r: Result<A>)
    ensures r.Err? <==> Resolve(a, o).shape != a.shape
    ensures r.Ok? ==> r.value.shape == a.shape
  {
    match BitXor(a, Arr(Resolve(a, o)))
    case Err(e) => Err(e)
    case Ok(x) => Ok(IsFalse(x))
  }

  /** `ne`: `(self ^ other).is_true()`. */
  function Ne(a: A, o: Operand): (r: Result<A>)
    ensures r.Err? <==> Resolve(a, o).shape != a.shape
    ensures r.Ok? ==> r.value.shape == a.shape
  {
    match BitXor(a, Arr(Resolve(a, o)))
    case Err(e) => Err(e)
    case Ok(x) => Ok(IsTrue(x))
  }

  /** `eq` of valid arrays with padding: 1 where the lanes are equal. */
  lemma EqLanes(a: A, b: A)
    requires Valid(a) && Valid(b) && b.shape == a.shape && a.shape.bp >= 1
    ensures Eq(a, Arr(b)).Ok? && Valid(Eq(a, Arr(b)).value)
    ensures forall i :: 0 <= i < a.shape.length ==>
      Values(Eq(a, Arr(b)).value)[i] == if Values(a)[i] == Values(b)[i] then 1 else 0
  {
    var x := BitXor(a, Arr(b)).value;
    IsFalseLanes(x);
    forall i | 0 <= i < a.shape.length
      ensures (Values(x)[i] == 0) == (Values(a)[i] == Values(b)[i])
    {
      XorZeroIff(Values(a)[i], Values(b)[i]);
    }
  }

  /** `ne` of valid arrays with padding: 1 where the lanes differ. */
  lemma NeLanes(a: A, b: A)
    requires Valid(a) && Valid(b) && b.shape == a.shape && a.shape.bp >= 1
    ensures Ne(a, Arr(b)).Ok? && Valid(Ne(a, Arr(b)).value)
    ensures forall i :: 0 <= i < a.shape.length ==>
      Values(Ne(a, Arr(b)).value)[i] == if Values(a)[i] != Values(b)[i] then 1 else 0
  {
    var x := BitXor(a, Arr(b)).value;
    IsTrueLanes(x);
    forall i | 0 <= i < a.shape.length
      ensures (Values(x)[i] == 0) == (Values(a)[i] == Values(b)[i])
    {
      XorZeroIff(Values(a)[i], Values(b)[i]);
    }
  }

  /** The sign bit of every lane of a difference: `n >> (bits_val - 1) &
      _mask_array_val`. */
  function SignBits(d: A, s: Shape): (r: A)
    ensures r.shape == s
  {
    A(And(Shr(d.data, s.bv - 1), MaskArrayValOf(s)), s)
  }

  /** `lt`: the sign bit of every lane of `self - other`. */
  function Lt(a: A, o: Operand): (r: Result<A>)
    ensures r.Err? <==> Resolve(a, o).shape != a.shape
    ensures r.Ok? ==> r.value.shape == a.shape
  {
    match Sub(a, Arr(Resolve(a, o)))
    case Err(e) => Err(e)
    case Ok(d) => Ok(SignBits(d, a.shape))
  }

  /** `gt`: the sign bit of every lane of `other - self`. */
  function Gt(a: A, o: Operand): (r: Result<A>)
    ensures r.Err? <==> Resolve(a, o).shape != a.shape
    ensures r.Ok? ==> r.value.shape == a.shape
  {
    match Sub(Resolve(a, o), Arr(a))
    case Err(e) => Err(e)
    case Ok(d) => Ok(SignBits(d, a.shape))
  }

  /** The sign bits of a valid array: 1 in every lane whose top value bit is
      set, that is every lane at least `2^(bits_val - 1)`. */
  lemma SignBitsLanes(d: A)
    requires Valid(d)
    ensures Valid(SignBits(d, d.shape))
    ensures forall i :: 0 <= i < d.shape.length ==>
      Values(SignBits(d, d.shape))[i] == if Values(d)[i] >= Pow2(d.shape.bv - 1) then 1 else 0
  {
    ValidPack(d);
    var bs := SignPacked(Values(d), d.shape);
    PackValid(bs, d.shape);
  }

  /** `xs >> (bits_val - 1) & _mask_array_val` lane by lane. */
  lemma SignPacked(xs: seq<nat>, s: Shape) returns (bs: seq<nat>)
    requires |xs| == s.length && Fits(xs, s.bv)
    ensures |bs| == s.length && Fits(bs, s.bv)
    ensures forall i :: 0 <= i < s.length ==> bs[i] == if xs[i] >= Pow2(s.bv - 1) then 1 else 0
    ensures And(Shr(Pack(xs, s.Bi()), s.bv - 1), MaskArrayValOf(s)) == Pack(bs, s.Bi())
  {
    Pow2Mono(s.bv, s.Bi());
    assert Fits(xs, s.Bi());
    BitPlane(xs, s, s.bv - 1);
    bs := BitOf(xs, s.bv - 1);
    forall i | 0 <= i < s.length
      ensures bs[i] == if xs[i] >= Pow2(s.bv - 1) then 1 else 0
    {
      TopBit(xs[i], s.bv);
    }
    assert Pow2(1) == 2;
    Pow2Mono(1, s.bv);
  }

  /** The top bit of a `bv`-bit number. */
  lemma TopBit(x: nat, bv: Pos)
    requires x < Pow2(bv)
    ensures Low(Shr(x, bv - 1), 1) == if x >= Pow2(bv - 1) then 1 else 0
  {
    var h := Pow2(bv - 1);
    assert Pow2(bv) == 2 * h;
    ShlOne(bv - 1);
    if x >= h {
      ShrLowOf(x - h, 1, bv - 1);
    } else {
      SmallShr(x, bv - 1, bv - 1);
    }
  }

  /** `lt` of valid arrays with padding: 1 in every lane where the top bit
      of `self - other` (modulo `2^bits_val`) is set. */
  lemma LtLanes(a: A, b: A)
    requires Valid(a) && Valid(b) && b.shape == a.shape && a.shape.bp >= 1
    ensures Lt(a, Arr(b)).Ok? && Valid(Lt(a, Arr(b)).value)
    ensures forall i :: 0 <= i < a.shape.length ==>
      Values(Lt(a, Arr(b)).value)[i]
        == if (Values(a)[i] - Values(b)[i]) % Pow2(a.shape.bv) >= Pow2(a.shape.bv - 1) then 1 else 0
  {
    SubLanes(a, b);
    SignBitsLanes(Sub(a, Arr(b)).value);
  }

  /** On lanes below `2^(bits_val - 1)`, `lt` is exactly `self < other`. */
  lemma LtIsLess(a: A, b: A)
    requires Valid(a) && Valid(b) && b.shape == a.shape && a.shape.bp >= 1
    ensures Lt(a, Arr(b)).Ok?
    ensures forall i :: 0 <= i < a.shape.length ==>
      Values(a)[i] < Pow2(a.shape.bv - 1) && Values(b)[i] < Pow2(a.shape.bv - 1) ==>
        Values(Lt(a, Arr(b)).value)[i] == if Values(a)[i] < Values(b)[i] then 1 else 0
  {
    LtLanes(a, b);
    forall i | 0 <= i < a.shape.length && Values(a)[i] < Pow2(a.shape.bv - 1)
      && Values(b)[i] < Pow2(a.shape.bv - 1)
    {
      SignOfDifference(Values(a)[i], Values(b)[i], a.shape.bv);
    }
  }

  /** `gt` of valid arrays with padding: the top bit of `other - self`. */
  lemma GtLanes(a: A, b: A)
    requires Valid(a) && Valid(b) && b.shape == a.shape && a.shape.bp >= 1
    ensures Gt(a, Arr(b)).Ok? && Valid(Gt(a, Arr(b)).value)
    ensures forall i :: 0 <= i < a.shape.length ==>
      Values(Gt(a, Arr(b)).value)[i]
        == if (Values(b)[i] - Values(a)[i]) % Pow2(a.shape.bv) >= Pow2(a.shape.bv - 1) then 1 else 0
  {
    SubLanes(b, a);
    SignBitsLanes(Sub(b, Arr(a)).value);
  }

  /** On lanes below `2^(bits_val - 1)`, `gt` is exactly `self > other`. */
  lemma GtIsGreater(a: A, b: A)
    requires Valid(a) && Valid(b) && b.shape == a.shape && a.shape.bp >= 1
    ensures Gt(a, Arr(b)).Ok?
    ensures forall i :: 0 <= i < a.shape.length ==>
      Values(a)[i] < Pow2(a.shape.bv - 1) && Values(b)[i] < Pow2(a.shape.bv - 1) ==>
        Values(Gt(a, Arr(b)).value)[i] == if Values(a)[i] > Values(b)[i] then 1 else 0
  {
    GtLanes(a, b);
    forall i | 0 <= i < a.shape.length && Values(a)[i] < Pow2(a.shape.bv - 1)
      && Values(b)[i] < Pow2(a.shape.bv - 1)
    {
      SignOfDifference(Values(b)[i], Values(a)[i], a.shape.bv);
    }
  }

  /** For `x, y` below `2^(bv - 1)`, the top bit of `(x - y) mod 2^bv` is set
      exactly when `x < y`. */
  lemma SignOfDifference(x: nat, y: nat, bv: Pos)
    requires x < Pow2(bv - 1) && y < Pow2(bv - 1)
    ensures (x - y) % Pow2(bv) >= Pow2(bv - 1) <==> x < y
  {
    var h := Pow2(bv - 1);
    assert Pow2(bv) == 2 * h;
    if x < y {
      DivModUnique(x - y, 2 * h, -1, x - y + 2 * h);
    } else {
      DivModUnique(x - y, 2 * h, 0, x - y);
    }
  }

  /** `le`: `self.lt(other) | self.eq(other)`. */
  function Le(a: A, o: Operand): (r: Result<A>)
    ensures r.Err? <==> Resolve(a, o).shape != a.shape
    ensures r.Ok? ==> r.value.shape == a.shape
  {
    var b := Resolve(a, o);
    match Lt(a, Arr(b))
    case Err(e) => Err(e)
    case Ok(l) =>
      match Eq(a, Arr(b))
      case Err(e) => Err(e)
      case Ok(q) => BitOr(l, Arr(q))
  }

  /** `ge`: `self.gt(other) | self.eq(other)`. */
  function Ge(a: A, o: Operand): (r: Result<A>)
    ensures r.Err? <==> Resolve(a, o).shape != a.shape
    ensures r.Ok? ==> r.value.shape == a.shape
  {
    var b := Resolve(a, o);
    match Gt(a, Arr(b))
    case Err(e) => Err(e)
    case Ok(g) =>
      match Eq(a, Arr(b))
      case Err(e) => Err(e)
      case Ok(q) => BitOr(g, Arr(q))
  }

  /** `x | y` on bits. */
  lemma OrBits(x: nat, y: nat)
    requires x < 2 && y < 2
    ensures Or(x, y) == if x == 1 || y == 1 then 1 else 0
  {
    OnBits(OrOp, x, y);
  }

  /** On lanes below `2^(bits_val - 1)`, `le` is exactly `self <= other`. */
  lemma LeLanes(a: A, b: A)
    requires Valid(a) && Valid(b) && b.shape == a.shape && a.shape.bp >= 1
    ensures Le(a, Arr(b)).Ok? && Valid(Le(a, Arr(b)).value)
    ensures forall i :: 0 <= i < a.shape.length ==>
      Values(a)[i] < Pow2(a.shape.bv - 1) && Values(b)[i] < Pow2(a.shape.bv - 1) ==>
        Values(Le(a, Arr(b)).value)[i] == if Values(a)[i] <= Values(b)[i] then 1 else 0
  {
    LtLanes(a, b);
    LtIsLess(a, b);
    EqLanes(a, b);
    var l, q := Lt(a, Arr(b)).value, Eq(a, Arr(b)).value;
    forall i | 0 <= i < a.shape.length
      ensures Or(Values(l)[i], Values(q)[i]) == if Values(l)[i] == 1 || Values(q)[i] == 1 then 1 else 0
    {
      OrBits(Values(l)[i], Values(q)[i]);
    }
  }

  /** On lanes below `2^(bits_val - 1)`, `ge` is exactly `self >= other`. */
  lemma GeLanes(a: A, b: A)
    requires Valid(a) && Valid(b) && b.shape == a.shape && a.shape.bp >= 1
    ensures Ge(a, Arr(b)).Ok? && Valid(Ge(a, Arr(b)).value)
    ensures forall i :: 0 <= i < a.shape.length ==>
      Values(a)[i] < Pow2(a.shape.bv - 1) && Values(b)[i] < Pow2(a.shape.bv - 1) ==>
        Values(Ge(a, Arr(b)).value)[i] == if Values(a)[i] >= Values(b)[i] then 1 else 0
  {
    GtLanes(a, b);
    GtIsGreater(a, b);
    EqLanes(a, b);
    var g, q := Gt(a, Arr(b)).value, Eq(a, Arr(b)).value;
    forall i | 0 <= i < a.shape.length
      ensures Or(Values(g)[i], Values(q)[i]) == if Values(g)[i] == 1 || Values(q)[i] == 1 then 1 else 0
    {
      OrBits(Values(g)[i], Values(q)[i]);
    }
  }

  // ---------------------------------------------------------------------
  // Multiplication of two arrays: shift and add, one bit of `other` at a time

  /** Round `i` of the loop in `__mul__`: bit `i` of every lane of `n2`
      (`n2 >> i & _mask_array_val`), spread over the value bits of its lane
      (`* mask(bits_val)`), selects the lanes of `n1` (`& n1`), which are then
      moved up by `i` (`<< i`). */
  function MulTerm(n1: nat, n2: nat, s: Shape, i: nat): nat
  {
    Shl(And(And(Shr(n2, i), MaskArrayValOf(s)) * Mask(s.bv), n1), i)
  }

  /** The accumulator `n` of `__mul__` after rounds `0 .. k - 1`. */
  function MulSum(n1: nat, n2: nat, s: Shape, k: nat): nat
  {
    if k == 0 then 0 else MulSum(n1, n2, s, k - 1) + MulTerm(n1, n2, s, k - 1)
  }

  /** `__mul__`. With an integer: `MulConst`, without a shape check. With an
      array of the same shape: the shift-and-add loop over the `bits_val`
      bits of `other`, then `& _mask_val`. */
  method Mul(a: A, o: Operand) returns (r: Result<A>)
    ensures o.Int? ==> r == Ok(MulConst(a, o.n))
    ensures o.Arr? ==> (r.Err? <==> o.arr.shape != a.shape)
    ensures r.Ok? ==> r.value.shape == a.shape && Valid(r.value)
    ensures o.Arr? && r.Ok? ==>
      r.value.data == And(MulSum(a.data, o.arr.data, a.shape, a.shape.bv), MaskValOf(a.shape))
    ensures o.Arr? && o.arr.shape == a.shape && Valid(a) && Valid(o.arr) && a.shape.bv <= a.shape.bp ==>
      r.Ok? && forall i :: 0 <= i < a.shape.length ==>
        Values(r.value)[i] == (Values(a)[i] * Values(o.arr)[i]) % Pow2(a.shape.bv)
  {
    match o {
      case Int(k) =>
        return Ok(MulConst(a, k));
      case Arr(b) =>
        if a.shape != b.shape {
          return Err(ValueError);
        }
        var s := a.shape;
        var n1, n2 := a.data, b.data;
        var n := 0;
        var i := 0;
        while i < s.bv
          invariant i <= s.bv
          invariant n == MulSum(n1, n2, s, i)
        {
          var t := Shr(n2, i);
          t := And(t, MaskArrayValOf(s));
          t := t * Mask(s.bv);
          t := And(t, n1);
          t := Shl(t, i);
          n := n + t;
          i := i + 1;
        }
        MaskValLanes(n, s);
        if Valid(a) && Valid(b) && s.bv <= s.bp {
          MulLanes(a, b);
        }
        return Ok(A(And(n, MaskValOf(s)), s));
    }
  }

  /** With at least as many padding bits as value bits no lane product
      overflows its lane: the loop multiplies every lane modulo
      `2^bits_val`. */
  lemma MulLanes(a: A, b: A)
    requires Valid(a) && Valid(b) && b.shape == a.shape && a.shape.bv <= a.shape.bp
    ensures forall i :: 0 <= i < a.shape.length ==>
      Values(A(And(MulSum(a.data, b.data, a.shape, a.shape.bv), MaskValOf(a.shape)), a.shape))[i]
        == (Values(a)[i] * Values(b)[i]) % Pow2(a.shape.bv)
  {
    var s := a.shape;
    ValidPack(a);
    ValidPack(b);
    MulSumLanes(Values(a), Values(b), s, s.bv);
    var ps := PartialProducts(Values(a), Values(b), s.bv);
    MaskedLanes(ps, s);
    forall i | 0 <= i < s.length
      ensures Low(Values(b)[i], s.bv) == Values(b)[i]
    {
      SmallShr(Values(b)[i], s.bv, s.bv);
    }
  }

  /** Lane `i` of the accumulator after `k` rounds is `x * (y mod 2^k)`: the
      product of the lane of `self` with the `k` low bits of the lane of
      `other`. */
  lemma {:induction false} MulSumLanes(xs: seq<nat>, ys: seq<nat>, s: Shape, k: nat)
    requires |xs| == |ys| == s.length && Fits(xs, s.bv) && Fits(ys, s.bv)
    requires s.bv <= s.bp && k <= s.bv
    ensures Fits(PartialProducts(xs, ys, k), s.Bi())
    ensures MulSum(Pack(xs, s.Bi()), Pack(ys, s.Bi()), s, k) == Pack(PartialProducts(xs, ys, k), s.Bi())
    decreases k
  {
    if k == 0 {
      assert PartialProducts(xs, ys, 0) == Repeat(0, s.length);
      PackRepeatZero(s.length, s.Bi());
    } else {
      MulSumLanes(xs, ys, s, k - 1);
      MulSumStep(xs, ys, s, k - 1);
    }
  }

  /** One round adds its term to every partial product. */
  lemma MulSumStep(xs: seq<nat>, ys: seq<nat>, s: Shape, j: nat)
    requires |xs| == |ys| == s.length && Fits(xs, s.bv) && Fits(ys, s.bv)
    requires s.bv <= s.bp && j < s.bv
    ensures Fits(PartialProducts(xs, ys, j + 1), s.Bi())
    ensures Pack(PartialProducts(xs, ys, j), s.Bi()) + MulTerm(Pack(xs, s.Bi()), Pack(ys, s.Bi()), s, j)
         == Pack(PartialProducts(xs, ys, j + 1), s.Bi())
  {
    var prev, ps := PartialProducts(xs, ys, j), PartialProducts(xs, ys, j + 1);
    var ts := MulTermPacked(xs, ys, s, j);
    forall i | 0 <= i < s.length
      ensures ps[i] == prev[i] + ts[i] && ps[i] < Pow2(s.Bi())
    {
      MulLowStep(xs[i], ys[i], j);
      ShrLow(ys[i], j + 1);
      Pow2Mono(j + 1, s.bv);
      MulBound(xs[i], Low(ys[i], j + 1), s.bv, s.bv);
      Pow2Mono(s.bv + s.bv, s.Bi());
    }
    PackAddOf(prev, ts, ps, s.Bi());
  }

  /** Lane by lane, `xs[i]` times the `k` low bits of `ys[i]`. */
  function PartialProducts(xs: seq<nat>, ys: seq<nat>, k: nat): (r: seq<nat>)
    requires |xs| == |ys|
    ensures |r| == |xs|
    ensures forall i :: 0 <= i < |xs| ==> r[i] == xs[i] * Low(ys[i], k)
  {
    seq(|xs|, i requires 0 <= i < |xs| => xs[i] * Low(ys[i], k))
  }

  /** One round of the loop on whole lanes: lane `i` of the term is lane `i`
      of `xs` if bit `j` of lane `i` of `ys` is set, else 0, moved up by `j`. */
  lemma MulTermPacked(xs: seq<nat>, ys: seq<nat>, s: Shape, j: nat) returns (ts: seq<nat>)
    requires |xs| == |ys| == s.length && Fits(xs, s.bv) && Fits(ys, s.bv)
    requires j < s.bv && s.bv + j <= s.Bi()
    ensures |ts| == s.length && Fits(ts, s.Bi())
    ensures forall i :: 0 <= i < s.length ==> ts[i] == Shl(xs[i] * Low(Shr(ys[i], j), 1), j)
    ensures MulTerm(Pack(xs, s.Bi()), Pack(ys, s.Bi()), s, j) == Pack(ts, s.Bi())
  {
    var w := s.Bi();
    Pow2Mono(s.bv, w);
    assert Fits(ys, w);
    BitPlane(ys, s, j);
    var bits := BitOf(ys, j);
    forall i | 0 <= i < s.length
      ensures bits[i] < Pow2(1)
    {
      ShrLow(Shr(ys[i], j), 1);
    }
    var sel := SelectPacked(xs, bits, s);
    ts := seq(s.length, i requires 0 <= i < s.length => Shl(sel[i], j));
    forall i | 0 <= i < s.length
      ensures ts[i] < Pow2(w)
    {
      ShlBound(sel[i], s.bv, j);
      Pow2Mono(s.bv + j, w);
    }
    PackShlOf(sel, ts, j, w);
  }

  /** `bits * mask(bits_val) & xs` for an array of bits: the lanes of `xs`
      whose bit is set, 0 in the others. */
  lemma SelectPacked(xs: seq<nat>, bits: seq<nat>, s: Shape) returns (sel: seq<nat>)
    requires |xs| == |bits| == s.length && Fits(xs, s.bv) && Fits(bits, 1)
    ensures |sel| == s.length && Fits(sel, s.bv)
    ensures forall i :: 0 <= i < s.length ==> sel[i] == xs[i] * bits[i]
    ensures And(Pack(bits, s.Bi()) * Mask(s.bv), Pack(xs, s.Bi())) == Pack(sel, s.Bi())
  {
    var w := s.Bi();
    Pow2Mono(s.bv, w);
    assert Fits(xs, w);
    var spread := seq(s.length, i requires 0 <= i < s.length => if bits[i] == 0 then 0 else Mask(s.bv));
    PackScaleOf(bits, spread, Mask(s.bv), w);
    sel := seq(s.length, i requires 0 <= i < s.length => if bits[i] == 0 then 0 else xs[i]);
    assert Pow2(1) == 2;
    forall i | 0 <= i < s.length
      ensures spread[i] == bits[i] * Mask(s.bv) && spread[i] < Pow2(w)
      ensures sel[i] == xs[i] * bits[i] == And(spread[i], xs[i]) && sel[i] < Pow2(s.bv)
    {
      SelectLane(xs[i], bits[i], s.bv);
    }
    PackBitwiseOf(AndOp, spread, xs, sel, w);
  }

  /** `b * mask(bits_val) & x` for a bit `b`: `x` itself or 0. */
  lemma SelectLane(x: nat, bit: nat, bv: nat)
    requires x < Pow2(bv) && bit < 2
    ensures bit * Mask(bv) < Pow2(bv)
    ensures x * bit < Pow2(bv)
    ensures And(bit * Mask(bv), x) == x * bit
  {
    if bit == 0 {
      AndZero(x);
    } else {
      Commute(AndOp, Mask(bv), x);
      AndMask(x, bv);
      SmallShr(x, bv, bv);
    }
  }
}

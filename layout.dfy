/** The state of an instance of class `A` and its lane view.

    An array is one non-negative integer `data` and a shape: `length` lanes
    of `bi = bits_pad + bits_val` bits each, lane 0 in the least significant
    bits. The low `bits_val` bits of a lane hold its value, the high
    `bits_pad` bits are padding. The class takes the padding to be zero; here
    that convention is the predicate `Valid`, and `ValidPack`/`PackValid`
    show that the valid arrays are exactly the packed sequences of values
    below `2^bits_val`. */
module Layout {
  import opened Bits
  import opened Lanes
  import opened Masks

  /** The `_shape` tuple `(bits_val, bits_pad, length)`. */
  datatype Shape = Shape(bv: Pos, bp: nat, length: nat)
  {
    /** `_bits_item`, the width of one lane. */
    function Bi(): Pos
    {
      bp + bv
    }
  }

  /** An instance of `A`. Its fields are set once by `__init__` and never
      change: every operation returns a new instance. */
  datatype A = A(data: nat, shape: Shape)

  // ---------------------------------------------------------------------
  // The mask properties of an instance

  /** The `mask` property: every bit of the array, `mask(bi * length)`. */
  function MaskAll(s: Shape): (r: nat)
    ensures r == Pow2(Width(s.length, s.Bi())) - 1
  {
    WidthIsMul(s.length, s.Bi());
    Mask(s.Bi() * s.length)
  }

  function MaskArrayValOf(s: Shape): nat
  {
    MaskArrayVal(s.length, s.Bi())
  }

  function MaskValOf(s: Shape): nat
  {
    MaskVal(s.length, s.bp, s.bv)
  }

  function MaskArrayPadOf(s: Shape): nat
  {
    MaskArrayPad(s.length, s.bp, s.bv)
  }

  function MaskPadOf(s: Shape): nat
  {
    MaskPad(s.length, s.bp, s.bv)
  }

  // ---------------------------------------------------------------------
  // Lane access. `Width(i, bi)` is the bit offset `i * bi` of lane `i`, and
  // `x & mask(k)` is written `Low(x, k)` (the two agree by `Masks.AndMask`).

  /** `_get_item(i)`: `data >> (i * bi) & mask(bi)`, the whole lane `i`. */
  function GetItem(a: A, i: nat): (r: nat)
    ensures r < Pow2(a.shape.Bi())
  {
    ShrLow(Shr(a.data, Width(i, a.shape.Bi())), a.shape.Bi());
    Low(Shr(a.data, Width(i, a.shape.Bi())), a.shape.Bi())
  }

  /** `_get_padval(i)`: the lane split into `(pad, val)` as
      `(item >> bits_val, item & mask(bits_val))`. The value is the
      `bits_val` bits at offset `i * bi`, the padding the `bits_pad` bits
      right above them. */
  function GetPadVal(a: A, i: nat): (r: (nat, nat))
    ensures r.1 == Low(Shr(a.data, Width(i, a.shape.Bi())), a.shape.bv)
    ensures r.0 == Low(Shr(a.data, Width(i, a.shape.Bi()) + a.shape.bv), a.shape.bp)
    ensures r.1 < Pow2(a.shape.bv)
  {
    var item := GetItem(a, i);
    var x := Shr(a.data, Width(i, a.shape.Bi()));
    LowLow(x, a.shape.bv, a.shape.Bi());
    ShrLow(item, a.shape.bv);
    LowSplit(x, a.shape.bv, a.shape.bp);
    ShrLowOf(Low(x, a.shape.bv), Low(Shr(x, a.shape.bv), a.shape.bp), a.shape.bv);
    ShrShr(a.data, Width(i, a.shape.Bi()), a.shape.bv);
    (Shr(item, a.shape.bv), Low(item, a.shape.bv))
  }

  /** `_get_pad(i)` */
  function GetPad(a: A, i: nat): nat
  {
    GetPadVal(a, i).0
  }

  /** `_get_val(i)` */
  function GetVal(a: A, i: nat): nat
  {
    GetPadVal(a, i).1
  }

  /** Lane access as written with Python's `&`. */
  lemma GetItemAnd(a: A, i: nat)
    ensures GetItem(a, i) == And(Shr(a.data, Width(i, a.shape.Bi())), Mask(a.shape.Bi()))
    ensures GetVal(a, i) == And(GetItem(a, i), Mask(a.shape.bv))
  {
    AndMask(Shr(a.data, Width(i, a.shape.Bi())), a.shape.Bi());
    AndMask(GetItem(a, i), a.shape.bv);
  }

  /** The lane values in lane order: what `__iter__` yields. */
  function Values(a: A): (r: seq<nat>)
    ensures |r| == a.shape.length
  {
    seq(a.shape.length, i requires 0 <= i < a.shape.length => GetVal(a, i))
  }

  /** The class invariant: `data` has no bits above the array and every
      padding field is zero. */
  predicate Valid(a: A)
  {
    && a.data < Pow2(Width(a.shape.length, a.shape.Bi()))
    && forall i :: 0 <= i < a.shape.length ==> GetPad(a, i) == 0
  }

  // ---------------------------------------------------------------------
  // Valid arrays are the packed value sequences

  /** Reading an integer built from whole lanes `zs`: value and padding of
      lane `j` are the low `bits_val` bits of `zs[j]` and the bits above them. */
  lemma ReadLanes(zs: seq<nat>, s: Shape, j: nat)
    requires |zs| == s.length && Fits(zs, s.Bi()) && j < s.length
    ensures GetVal(A(Pack(zs, s.Bi()), s), j) == Low(zs[j], s.bv)
    ensures GetPad(A(Pack(zs, s.Bi()), s), j) == Shr(zs[j], s.bv)
  {
    Window(zs, s.Bi(), j, 0, s.bv);
    Window(zs, s.Bi(), j, s.bv, s.bp);
    ShrBound(zs[j], s.bv, s.bp);
    SmallShr(Shr(zs[j], s.bv), s.bp, s.bp);
  }

  /** Packing values that fit in `bits_val` bits gives a valid array with
      exactly those values. */
  lemma PackValid(xs: seq<nat>, s: Shape)
    requires |xs| == s.length && Fits(xs, s.bv)
    ensures Valid(A(Pack(xs, s.Bi()), s))
    ensures Values(A(Pack(xs, s.Bi()), s)) == xs
  {
    var a := A(Pack(xs, s.Bi()), s);
    Pow2Mono(s.bv, s.Bi());
    PackBound(xs, s.Bi());
    forall j | 0 <= j < s.length
      ensures GetVal(a, j) == xs[j] && GetPad(a, j) == 0
    {
      ReadLanes(xs, s, j);
      SmallShr(xs[j], s.bv, s.bv);
    }
  }

  /** A valid array is the packing of its values, and they fit in
      `bits_val` bits. */
  lemma ValidPack(a: A)
    requires Valid(a)
    ensures Fits(Values(a), a.shape.bv)
    ensures a.data == Pack(Values(a), a.shape.Bi())
  {
    var s := a.shape;
    var its := Items(a.data, s.Bi(), s.length);
    ItemsPack(a.data, s.Bi(), s.length);
    SmallShr(a.data, Width(s.length, s.Bi()), Width(s.length, s.Bi()));
    forall j | 0 <= j < s.length
      ensures its[j] == GetVal(a, j)
    {
      ItemAt(a.data, s.Bi(), s.length, j);
      var x := Shr(a.data, Width(j, s.Bi()));
      LowSplit(x, s.bv, s.bp);
      ShrShr(a.data, Width(j, s.Bi()), s.bv);
      assert Low(Shr(x, s.bv), s.bp) == GetPad(a, j) == 0;
      ShlZero(s.bv);
      assert s.bv + s.bp == s.Bi();
    }
    assert its == Values(a);
  }

  /** `__iter__`: the lane values, read one lane at a time from lane 0 up.
      Each is below `2^bits_val`, and for a valid array they pack back into
      `data`: iterating loses nothing. */
  method Iter(a: A) returns (vals: seq<nat>)
    ensures vals == Values(a)
    ensures Fits(vals, a.shape.bv)
    ensures Valid(a) ==> Pack(vals, a.shape.Bi()) == a.data
  {
    vals := [];
    var i := 0;
    while i < a.shape.length
      invariant i <= a.shape.length
      invariant vals == Values(a)[..i]
      invariant Fits(vals, a.shape.bv)
    {
      vals := vals + [GetVal(a, i)];
      i := i + 1;
    }
    if Valid(a) {
      ValidPack(a);
    }
  }

  /** `& _mask_val` keeps every lane value and clears every padding field,
      whatever the integer it is applied to. */
  lemma MaskValLanes(x: nat, s: Shape)
    ensures Valid(A(And(x, MaskValOf(s)), s))
    ensures Values(A(And(x, MaskValOf(s)), s)) == Values(A(x, s))
  {
    var vs := LowItems(x, s.Bi(), s.length, s.bv);
    assert MaskValOf(s) == Pack(Repeat(Pow2(s.bv) - 1, s.length), s.Bi());
    AndPackMask(x, s.length, s.Bi(), s.bv);
    LowItemsValues(x, s);
    PackValid(vs, s);
  }

  /** `& _mask_val` applied to whole lanes `zs`: a valid array whose values
      are the lanes reduced modulo `2^bits_val`. */
  lemma MaskedLanes(zs: seq<nat>, s: Shape)
    requires |zs| == s.length && Fits(zs, s.Bi())
    ensures Valid(A(And(Pack(zs, s.Bi()), MaskValOf(s)), s))
    ensures forall j :: 0 <= j < s.length ==>
      Values(A(And(Pack(zs, s.Bi()), MaskValOf(s)), s))[j] == zs[j] % Pow2(s.bv)
  {
    MaskValLanes(Pack(zs, s.Bi()), s);
    forall j | 0 <= j < s.length
      ensures Values(A(Pack(zs, s.Bi()), s))[j] == zs[j] % Pow2(s.bv)
    {
      ReadLanes(zs, s, j);
      ShrLowIsDivMod(zs[j], s.bv);
    }
  }

  /** The value bits of every lane of any integer, as `LowItems` reads them. */
  lemma LowItemsValues(x: nat, s: Shape)
    ensures LowItems(x, s.Bi(), s.length, s.bv) == Values(A(x, s))
    ensures Fits(LowItems(x, s.Bi(), s.length, s.bv), s.bv)
  {
    var its := Items(x, s.Bi(), s.length);
    var vs := LowItems(x, s.Bi(), s.length, s.bv);
    forall j | 0 <= j < s.length
      ensures vs[j] == GetVal(A(x, s), j) && vs[j] < Pow2(s.bv)
    {
      ItemAt(x, s.Bi(), s.length, j);
      LowLow(Shr(x, Width(j, s.Bi())), s.bv, s.Bi());
      ShrLow(its[j], s.bv);
    }
  }

  /** Bit `t` of every lane of an integer built from whole lanes `zs`. */
  function BitOf(zs: seq<nat>, t: nat): (r: seq<nat>)
    ensures |r| == |zs|
    ensures forall j :: 0 <= j < |zs| ==> r[j] == Low(Shr(zs[j], t), 1)
  {
    seq(|zs|, j requires 0 <= j < |zs| => Low(Shr(zs[j], t), 1))
  }

  /** `x >> t & _mask_array_val` for `x` built from whole lanes: bit `t` of
      every lane, moved to the bottom of the lane. */
  lemma BitPlane(zs: seq<nat>, s: Shape, t: nat)
    requires |zs| == s.length && Fits(zs, s.Bi()) && t < s.Bi()
    ensures And(Shr(Pack(zs, s.Bi()), t), MaskArrayValOf(s)) == Pack(BitOf(zs, t), s.Bi())
  {
    var x := Shr(Pack(zs, s.Bi()), t);
    assert MaskArrayValOf(s) == Pack(Repeat(Pow2(1) - 1, s.length), s.Bi()) by {
      assert Repeat(1, s.length) == Repeat(Pow2(1) - 1, s.length);
    }
    AndPackMask(x, s.length, s.Bi(), 1);
    BitPlaneLanes(zs, s, t);
  }

  lemma BitPlaneLanes(zs: seq<nat>, s: Shape, t: nat)
    requires |zs| == s.length && Fits(zs, s.Bi()) && t < s.Bi()
    ensures LowItems(Shr(Pack(zs, s.Bi()), t), s.Bi(), s.length, 1) == BitOf(zs, t)
  {
    var x := Shr(Pack(zs, s.Bi()), t);
    var its := Items(x, s.Bi(), s.length);
    forall j | 0 <= j < s.length
      ensures Low(its[j], 1) == Low(Shr(zs[j], t), 1)
    {
      ItemAt(x, s.Bi(), s.length, j);
      ShrShr(Pack(zs, s.Bi()), t, Width(j, s.Bi()));
      LowLow(Shr(x, Width(j, s.Bi())), 1, s.Bi());
      Window(zs, s.Bi(), j, t, 1);
    }
  }

  /** A valid array is exactly one that `& _mask_val` leaves unchanged. */
  lemma ValidIffMasked(a: A)
    ensures Valid(a) <==> And(a.data, MaskValOf(a.shape)) == a.data
  {
    MaskValLanes(a.data, a.shape);
    if Valid(a) {
      var b := A(And(a.data, MaskValOf(a.shape)), a.shape);
      ValidPack(a);
      ValidPack(b);
    }
  }
}

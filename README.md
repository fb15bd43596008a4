# A verified model of simd.py's packed array

`simd.py` packs `length` small unsigned integers into one non-negative Python
integer `data` (SIMD within a register). Each lane is `bi = bits_pad +
bits_val` bits wide: its low `bits_val` bits hold the value and its high
`bits_pad` bits are padding, which the class takes to be zero. Lane 0 is
the least significant. Every operator of class `A` is a few whole-integer
`+ - * & | ^ >> <<` steps with precomputed masks, and a new array comes out.

The model states each operator exactly as the class computes it, on `data`.
Beside it, a lemma says what that computation does to the lane values.

- `bits.dfy` (module `Bits`): `<<`, `>>` and "low `k` bits" on natural
  numbers, and Python's `&`, `|`, `^`, defined bit by bit. It proves the
  split lemma that lets a bitwise operator act on low and high parts
  separately.
- `lanes.dfy` (module `Lanes`): `Pack(xs, w)`, the integer whose `w`-bit
  lanes are `xs`. It proves how `+`, `-`, `<<`, `*` and the bitwise
  operators act on packed lanes when no lane overflows.
- `masks.dfy` (module `Masks`): `mask`, `mask_array` and the four array
  masks, with their lane-by-lane bit patterns.
- `layout.dfy` (module `Layout`): the shape and the array, the mask
  properties, lane access and `__iter__`. The class invariant is the
  predicate `Valid`: no bits above the array, and every padding field zero.
  A valid array is exactly `Pack` of its values.
- `simd.dfy` (module `Simd`): the operators. An operand is an array or a
  non-negative integer; an integer is broadcast by `_from_const`. A shape
  mismatch between arrays is `Err(ValueError)`.

## Model

| member | source | states |
|---|---|---|
| Masks.Mask | simd.py:15-21 | `mask(n)` is `2^n - 1` |
| Masks.MaskBits | simd.py:15-21 | bit `j` of `mask(n)` is set exactly when `j < n` |
| Masks.AndMask | simd.py:15-21 | `x & mask(n)` keeps exactly the `n` low bits of `x` |
| Masks.MaskArray | simd.py:24-32 | `mask(n*bi) // mask(bi)` is `n` ones packed in `bi`-bit lanes, i.e. the sum of `2^(i*bi)` |
| Masks.MaskArrayVal | simd.py:35-42 | `_mask_array_val` is the array holding 1 in every lane |
| Masks.MaskVal | simd.py:45-52 | `_mask_val` is the array holding `mask(bv)` (maxval) in every lane |
| Masks.MaskArrayPad | simd.py:55-62 | `_mask_array_pad` holds `2^bv` (maxval + 1) in every lane and equals `_mask_array_val << bv` |
| Masks.MaskPad | simd.py:65-71 | `_mask_pad` holds `mask(bp) << bv` in every lane |
| Masks.MaskArrayValBits | simd.py:35-42 | bit `s` of lane `j` of `_mask_array_val` is set exactly when `s == 0` |
| Masks.MaskValBits | simd.py:45-52 | bit `s` of lane `j` of `_mask_val` is set exactly when `s < bv` |
| Masks.MaskArrayPadBits | simd.py:55-62 | bit `s` of lane `j` of `_mask_array_pad` is set exactly when `s == bv` |
| Masks.MaskPadBits | simd.py:65-71 | bit `s` of lane `j` of `_mask_pad` is set exactly when `s >= bv` |
| Masks.MaskPartition | simd.py:45-71 | `_mask_val & _mask_pad == 0` and `_mask_val \| _mask_pad == mask(bi * length)` |
| Layout.MaskAll | simd.py:133-139 | the `mask` property is `2^(bi * length) - 1` |
| Layout.GetItem | simd.py:157-158 | `_get_item(i)` is below `2^bi` |
| Layout.GetPadVal | simd.py:160-164 | the value of lane `i` is the `bv` bits at offset `i*bi`; the padding is the `bp` bits right above them; the value is below `2^bv` |
| Layout.GetItemAnd | simd.py:157-170 | the lane readers agree with the `>>`/`& mask` formulas as written |
| Layout.ValidPack | simd.py:79-97 | a valid array is the packing of its lane values, and each value fits in `bv` bits |
| Layout.PackValid | simd.py:79-97 | packing values below `2^bv` gives a valid array holding exactly those values |
| Layout.ValidIffMasked | simd.py:79-97 | an array is valid exactly when `& _mask_val` leaves it unchanged |
| Layout.MaskValLanes | simd.py:45-52 | `x & _mask_val` is valid and keeps every lane value of `x` |
| Layout.Iter | simd.py:172-175 | `__iter__` yields the `length` lane values from lane 0 up, each below `2^bv`; for a valid array they pack back into `data` |
| Simd.FromConst | simd.py:122-123 | `_from_const(n)` keeps the shape and, for `n < 2^bv`, is a valid array with `n` in every lane |
| Simd.Equal | simd.py:110-114 | `__eq__` holds exactly when shape and data are equal |
| Simd.NotEqual | simd.py:116-120 | `__ne__` is the negation of `__eq__` |
| Simd.EqualIffValues | simd.py:110-114 | two valid arrays of one shape are `__eq__` exactly when their lane values are equal |
| Simd.Add | simd.py:190-201 | `ValueError` exactly when the shapes differ; otherwise a valid array of the same shape |
| Simd.AddLanes | simd.py:190-201 | with one padding bit, lane `i` is `(a_i + b_i) mod 2^bv` |
| Simd.Sub | simd.py:203-216 | `ValueError` exactly when the shapes differ; otherwise a valid array of the same shape |
| Simd.SubLanes | simd.py:203-216 | with one padding bit, lane `i` is `(a_i - b_i) mod 2^bv`; no borrow crosses lanes |
| Simd.Logic | simd.py:244-272 | `&`, `\|`, `^`: `ValueError` exactly when the shapes differ; otherwise the same shape |
| Simd.BitAnd | simd.py:244-252 | `__and__`: `ValueError` exactly when the shapes differ; on two valid arrays of one shape, lane `i` is `a_i & b_i` and the result is valid |
| Simd.BitOr | simd.py:254-262 | `__or__`: `ValueError` exactly when the shapes differ; on two valid arrays of one shape, lane `i` is `a_i \| b_i` and the result is valid |
| Simd.BitXor | simd.py:264-272 | `__xor__`: `ValueError` exactly when the shapes differ; on two valid arrays of one shape, lane `i` is `a_i ^ b_i` and the result is valid |
| Simd.LogicLanes | simd.py:244-272 | on valid arrays every lane is the operator on the two lane values; the result is valid; no padding is needed |
| Simd.MulConst | simd.py:218-224 | multiplication by an integer gives a valid array of the same shape, with no shape check |
| Simd.MulConstLanes | simd.py:218-224 | when no lane product leaves its lane, lane `i` is `(a_i * k) mod 2^bv` |
| Simd.Mul | simd.py:218-242 | integer operand: `MulConst`; array operand: `ValueError` exactly on a shape mismatch, else the loop's accumulator `& _mask_val`, valid; with `bp >= bv`, lane `i` is `(a_i * b_i) mod 2^bv` |
| Simd.MulLanes | simd.py:229-242 | with `bp >= bv`, the loop multiplies every lane modulo `2^bv` |
| Simd.MulSumLanes | simd.py:229-239 | after `k` rounds, lane `i` of the accumulator is `a_i * (b_i mod 2^k)` and fits in its lane |
| Simd.MulSumStep | simd.py:231-238 | one round adds `a_i * bit_k(b_i) * 2^k` to every lane |
| Simd.MulTermPacked | simd.py:231-237 | the round's term is, lane by lane, `a_i` if bit `j` of `b_i` is set and 0 otherwise, shifted left by `j` |
| Simd.RShift | simd.py:274-278 | `>>` gives a valid array of the same shape |
| Simd.RShiftLanes | simd.py:274-278 | for a shift up to `bp`, lane `i` is `a_i // 2^b` |
| Simd.LShift | simd.py:280-284 | `<<` gives a valid array of the same shape |
| Simd.LShiftLanes | simd.py:280-284 | for a shift up to `bp`, lane `i` is `(a_i * 2^b) mod 2^bv` |
| Simd.Invert | simd.py:286-289 | `~` keeps the shape |
| Simd.InvertLanes | simd.py:286-289 | lane `i` is `2^bv - 1 - a_i`; the result is valid |
| Simd.Neg | simd.py:291-295 | `-` as written keeps the shape (see Findings) |
| Simd.NegDefined | simd.py:291-295 | a valid array never exceeds `_mask_array_pad`, so `-` gives a non-negative `data` |
| Simd.NegLanes | simd.py:291-295 | lane `i` is `(-a_i) mod 2^bv`; a zero lane gets padding 1; the result is valid exactly when no lane is 0 |
| Simd.NegOfZeroLane | simd.py:291-295 | `-A(0, 4, 4, 1)` is `A(0x10, 4, 4, 1)`, which is not valid |
| Simd.NegMasked | simd.py:291-295 | corrected `-` (masked with `_mask_val`) always gives a valid array |
| Simd.NegMaskedLanes | simd.py:291-295 | corrected `-`: lane `i` is `(-a_i) mod 2^bv`, zero lanes included |
| Simd.IsTrue | simd.py:297-306 | `is_true` keeps the shape |
| Simd.IsTrueLanes | simd.py:297-306 | lane `i` is 1 if `a_i != 0`, else 0; the result is valid |
| Simd.IsFalse | simd.py:308-311 | `is_false` keeps the shape |
| Simd.IsFalseLanes | simd.py:308-311 | lane `i` is 1 if `a_i == 0`, else 0; the result is valid |
| Simd.TruthComplement | simd.py:297-311 | `is_true ^ is_false == _mask_array_val`, for every array |
| Simd.Eq | simd.py:313-316 | `eq`: `ValueError` exactly when the shapes differ |
| Simd.Ne | simd.py:318-321 | `ne`: `ValueError` exactly when the shapes differ |
| Simd.EqLanes | simd.py:313-316 | lane `i` is 1 exactly when `a_i == b_i`; the result is valid |
| Simd.NeLanes | simd.py:318-321 | lane `i` is 1 exactly when `a_i != b_i`; the result is valid |
| Simd.Lt | simd.py:323-331 | `lt`: `ValueError` exactly when the shapes differ |
| Simd.Gt | simd.py:333-341 | `gt`: `ValueError` exactly when the shapes differ |
| Simd.SignBitsLanes | simd.py:323-341 | `n >> (bv - 1) & _mask_array_val` marks every lane at least `2^(bv-1)` |
| Simd.LtLanes | simd.py:323-331 | lane `i` is the top value bit of `(a_i - b_i) mod 2^bv` |
| Simd.LtIsLess | simd.py:323-331 | for lane values below `2^(bv-1)`, lane `i` is 1 exactly when `a_i < b_i` |
| Simd.GtLanes | simd.py:333-341 | lane `i` is the top value bit of `(b_i - a_i) mod 2^bv` |
| Simd.GtIsGreater | simd.py:333-341 | for lane values below `2^(bv-1)`, lane `i` is 1 exactly when `a_i > b_i` |
| Simd.Le | simd.py:343-346 | `le`: `ValueError` exactly when the shapes differ |
| Simd.Ge | simd.py:348-351 | `ge`: `ValueError` exactly when the shapes differ |
| Simd.LeLanes | simd.py:343-346 | for lane values below `2^(bv-1)`, lane `i` is 1 exactly when `a_i <= b_i`; the result is valid |
| Simd.GeLanes | simd.py:348-351 | for lane values below `2^(bv-1)`, lane `i` is 1 exactly when `a_i >= b_i`; the result is valid |

## Left out

- `__str__` and `__repr__` (simd.py:177-188) are text formatting; `__repr__` also uses float division.
- The `functools.cache` memoisation of the mask functions is not modelled. It changes speed, not results.
- The empty `Shape` dataclass (simd.py:74-76) has no behaviour. The model's `Shape` is the tuple `(bits_val, bits_pad, length)` instead.
- `__init__` stores its arguments and checks nothing. It is the constructor `A(data, Shape(bv, bp, length))`.
- Python's dispatch details are not modelled:
  - the `NotImplemented` class test in `__eq__`/`__ne__`;
  - reflected operators;
  - subclasses.
- test_simd.py uses an API that simd.py does not have: `S`, `A.from_const`, `A.from_iterable`, `len`, indexing, and validation in the constructor. It is not part of this model.
- Negative integer operands and negative shift counts are not modelled; an integer operand is a natural number.
- `bits_val == 0` is not modelled: `bits_val` is positive, because `lt`/`gt` shift by `bits_val - 1`.
- Simd.Neg: requires `data <= _mask_array_pad`. Above that, Python would produce a negative `data`, which the class excludes. Every valid array meets it (`Simd.NegDefined`).
- Simd.AddLanes, Simd.SubLanes, Simd.NegLanes, Simd.IsTrueLanes, Simd.IsFalseLanes, Simd.EqLanes, Simd.NeLanes, Simd.LtLanes, Simd.GtLanes, Simd.LeLanes and Simd.GeLanes require at least one padding bit. The class leaves behaviour without enough padding unspecified.
- Simd.MulLanes and Simd.Mul's lane clause require `bits_pad >= bits_val`: the partial products need `2 * bits_val` bits.
- Simd.MulConstLanes requires every lane product to fit in its lane.
- Simd.RShiftLanes and Simd.LShiftLanes require the shift to be at most `bits_pad`. A wider shift moves bits across lanes; the model keeps its data-level definition but states no lane property for it.
- Simd.LtIsLess, Simd.GtIsGreater, Simd.LeLanes and Simd.GeLanes state `<`, `>`, `<=`, `>=` only for lane values below `2^(bits_val - 1)`. For larger values the source's sign-bit trick does not compute the comparison; `LtLanes`/`GtLanes` state what it does compute.
- Simd.AddLanes, Simd.SubLanes, Simd.LogicLanes, Simd.BitAnd, Simd.BitOr, Simd.BitXor, Simd.EqLanes, Simd.NeLanes, Simd.LtLanes, Simd.GtLanes, Simd.LtIsLess, Simd.GtIsGreater, Simd.LeLanes and Simd.GeLanes state lane values for an array operand only. For an integer operand `n`, each operator `X(a, Int(n))` is by definition `X(a, Arr(FromConst(a, n)))` (`Simd.Resolve`), and `Simd.FromConst` gives a valid array with `n` in every lane when `n < 2^bits_val`, so the array-operand lemmas apply to it. Multiplication is the exception: `Mul(a, Int(k))` is `MulConst(a, k)`, covered by `Simd.MulConstLanes`.

## Findings

| source | as written | input that shows it | evidently intended | confidence | as-written member | corrected member |
|---|---|---|---|---|---|---|
| simd.py:291-295 | `__neg__` returns `_mask_array_pad - data` without `& _mask_val`. A lane holding 0 becomes `2^bits_val`, a 1 in its padding, which breaks the class's "padding bits are always filled with zeros". | `-A(0, 4, 4, 1)` gives `A(0x10, 4, 4, 1)` | mask with `_mask_val` like `__add__`/`__sub__`: every lane `(-a_i) mod 2^bits_val`, padding zero | medium; not executed | Simd.NegOfZeroLane | Simd.NegMaskedLanes |

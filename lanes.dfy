/** The lane view of a non-negative integer.

    `Pack(xs, w)` places `xs[0]` in the lowest `w` bits, `xs[1]` in the next
    `w` bits and so on: `xs[0] | xs[1] << w | xs[2] << 2w | ...` when every
    element fits in `w` bits. `Items(d, w, n)` reads the `n` lowest `w`-bit
    groups of `d` back out. As long as every element fits in `w` bits the two
    are inverse, and whole-number `+`, `-`, `*` by a scalar, `<<` and the
    bitwise operators act lane by lane. */
module Lanes {
  import opened Bits

  function Pack(xs: seq<nat>, w: nat): nat
  {
    if |xs| == 0 then 0 else xs[0] + Shl(Pack(xs[1..], w), w)
  }

  function Items(d: nat, w: nat, n: nat): (r: seq<nat>)
    ensures |r| == n
    decreases n
  {
    if n == 0 then [] else [Low(d, w)] + Items(Shr(d, w), w, n - 1)
  }

  /** Every element is below `2^w`. */
  predicate Fits(xs: seq<nat>, w: nat)
  {
    forall i :: 0 <= i < |xs| ==> xs[i] < Pow2(w)
  }

  function Repeat(v: nat, n: nat): (r: seq<nat>)
    ensures |r| == n
    ensures forall i :: 0 <= i < n ==> r[i] == v
  {
    seq(n, _ => v)
  }

  // ---------------------------------------------------------------------
  // Round trips

  /** Group `i` is the `w` bits starting at bit `i * w`. */
  lemma {:induction false} ItemAt(d: nat, w: nat, n: nat, i: nat)
    requires i < n
    ensures Items(d, w, n)[i] == Low(Shr(d, Width(i, w)), w)
    decreases i
  {
    if i > 0 {
      ItemAt(Shr(d, w), w, n - 1, i - 1);
      ShrShr(d, w, Width(i - 1, w));
    }
  }

  lemma {:induction false} PackBound(xs: seq<nat>, w: nat)
    requires Fits(xs, w)
    ensures Pack(xs, w) < Pow2(Width(|xs|, w))
  {
    if |xs| > 0 {
      var rest := Pack(xs[1..], w);
      PackBound(xs[1..], w);
      var top := Pow2(Width(|xs| - 1, w));
      ShlMono(rest + 1, top, w);
      ShlAdd(rest, 1, w);
      ShlOne(w);
      Pow2Add(Width(|xs| - 1, w), w);
    }
  }

  /** Reading the groups of a packed sequence gives the sequence back. */
  lemma {:induction false} PackItems(xs: seq<nat>, w: nat)
    requires Fits(xs, w)
    ensures Items(Pack(xs, w), w, |xs|) == xs
  {
    if |xs| > 0 {
      PackItems(xs[1..], w);
      ShrLowOf(xs[0], Pack(xs[1..], w), w);
      assert xs == [xs[0]] + xs[1..];
    }
  }

  /** Packing the groups of `d` gives back the low `n * w` bits of `d`. */
  lemma {:induction false} ItemsPack(d: nat, w: nat, n: nat)
    ensures Pack(Items(d, w, n), w) == Low(d, Width(n, w))
    decreases n
  {
    if n > 0 {
      var its := Items(d, w, n);
      assert its[1..] == Items(Shr(d, w), w, n - 1);
      ItemsPack(Shr(d, w), w, n - 1);
      LowSplit(d, w, Width(n - 1, w));
    }
  }

  lemma {:induction false} PackRepeatZero(n: nat, w: nat)
    ensures Pack(Repeat(0, n), w) == 0
  {
    if n > 0 {
      PackRepeatZero(n - 1, w);
      assert Repeat(0, n)[1..] == Repeat(0, n - 1);
      ShlZero(w);
    }
  }

  /** `n` lanes of `w` set bits are the `n * w` low bits. */
  lemma {:induction false} PackRepeatMask(n: nat, w: nat)
    ensures Pack(Repeat(Pow2(w) - 1, n), w) == Pow2(Width(n, w)) - 1
  {
    if n > 0 {
      PackRepeatMask(n - 1, w);
      assert Repeat(Pow2(w) - 1, n)[1..] == Repeat(Pow2(w) - 1, n - 1);
      var top := Pow2(Width(n - 1, w));
      ShlAdd(top - 1, 1, w);
      ShlOne(w);
      Pow2Add(Width(n - 1, w), w);
    }
  }

  // ---------------------------------------------------------------------
  // Whole-number arithmetic acts lane by lane

  lemma {:induction false} PackShl(xs: seq<nat>, k: nat, w: nat)
    ensures Shl(Pack(xs, w), k) == Pack(seq(|xs|, i requires 0 <= i < |xs| => Shl(xs[i], k)), w)
  {
    var zs: seq<nat> := seq(|xs|, i requires 0 <= i < |xs| => Shl(xs[i], k));
    if |xs| == 0 {
      ShlZero(k);
    } else {
      PackShl(xs[1..], k, w);
      assert zs[1..] == seq(|xs| - 1, i requires 0 <= i < |xs| - 1 => Shl(xs[1..][i], k));
      var rest := Pack(xs[1..], w);
      ShlAdd(xs[0], Shl(rest, w), k);
      ShlShl(rest, w, k);
      ShlShl(rest, k, w);
    }
  }

  lemma {:induction false} PackScale(xs: seq<nat>, k: nat, w: nat)
    ensures Pack(xs, w) * k == Pack(seq(|xs|, i requires 0 <= i < |xs| => xs[i] * k), w)
  {
    var zs: seq<nat> := seq(|xs|, i requires 0 <= i < |xs| => xs[i] * k);
    if |xs| > 0 {
      PackScale(xs[1..], k, w);
      assert zs[1..] == seq(|xs| - 1, i requires 0 <= i < |xs| - 1 => xs[1..][i] * k);
      var a := Pack(xs[1..], w);
      ShlIsMul(a, w);
      ShlIsMul(a * k, w);
      Distrib(xs[0], a, k, Pow2(w));
    }
  }

  lemma Distrib(x: nat, a: nat, k: nat, p: nat)
    ensures (x + a * p) * k == x * k + (a * k) * p
  {
  }

  /** Packing is additive lane by lane when no lane carries into the next. */
  lemma {:induction false} PackAddOf(xs: seq<nat>, ys: seq<nat>, zs: seq<nat>, w: nat)
    requires |xs| == |ys| == |zs|
    requires forall i :: 0 <= i < |zs| ==> zs[i] == xs[i] + ys[i]
    ensures Pack(xs, w) + Pack(ys, w) == Pack(zs, w)
  {
    if |zs| > 0 {
      PackAddOf(xs[1..], ys[1..], zs[1..], w);
      ShlAdd(Pack(xs[1..], w), Pack(ys[1..], w), w);
    }
  }

  /** Packing is subtractive lane by lane when no lane borrows from the next. */
  lemma PackSubOf(xs: seq<nat>, ys: seq<nat>, zs: seq<nat>, w: nat)
    requires |xs| == |ys| == |zs|
    requires forall i :: 0 <= i < |zs| ==> ys[i] <= xs[i] && zs[i] == xs[i] - ys[i]
    ensures Pack(ys, w) <= Pack(xs, w)
    ensures Pack(xs, w) - Pack(ys, w) == Pack(zs, w)
  {
    PackAddOf(zs, ys, xs, w);
  }

  /** `PackShl` with the shifted lanes given by name. */
  lemma PackShlOf(xs: seq<nat>, zs: seq<nat>, k: nat, w: nat)
    requires |xs| == |zs|
    requires forall i :: 0 <= i < |zs| ==> zs[i] == Shl(xs[i], k)
    ensures Shl(Pack(xs, w), k) == Pack(zs, w)
  {
    PackShl(xs, k, w);
    assert zs == seq(|xs|, i requires 0 <= i < |xs| => Shl(xs[i], k));
  }

  /** `PackScale` with the scaled lanes given by name. */
  lemma PackScaleOf(xs: seq<nat>, zs: seq<nat>, k: nat, w: nat)
    requires |xs| == |zs|
    requires forall i :: 0 <= i < |zs| ==> zs[i] == xs[i] * k
    ensures Pack(xs, w) * k == Pack(zs, w)
  {
    PackScale(xs, k, w);
    assert zs == seq(|xs|, i requires 0 <= i < |xs| => xs[i] * k);
  }

  lemma PackBitwise(op: Op, xs: seq<nat>, ys: seq<nat>, w: nat)
    requires |xs| == |ys| && Fits(xs, w) && Fits(ys, w)
    ensures Bitwise(op, Pack(xs, w), Pack(ys, w))
         == Pack(seq(|xs|, i requires 0 <= i < |xs| => Bitwise(op, xs[i], ys[i])), w)
  {
    PackBitwiseOf(op, xs, ys, seq(|xs|, i requires 0 <= i < |xs| => Bitwise(op, xs[i], ys[i])), w);
  }

  lemma {:induction false} PackBitwiseOf(op: Op, xs: seq<nat>, ys: seq<nat>, zs: seq<nat>, w: nat)
    requires |xs| == |ys| == |zs| && Fits(xs, w) && Fits(ys, w)
    requires forall i :: 0 <= i < |zs| ==> zs[i] == Bitwise(op, xs[i], ys[i])
    ensures Bitwise(op, Pack(xs, w), Pack(ys, w)) == Pack(zs, w)
  {
    if |xs| == 0 {
      BitwiseZero(op);
    } else {
      PackBitwiseOf(op, xs[1..], ys[1..], zs[1..], w);
      PackBitwiseCons(op, xs, ys, zs, w);
    }
  }

  lemma PackBitwiseCons(op: Op, xs: seq<nat>, ys: seq<nat>, zs: seq<nat>, w: nat)
    requires |xs| == |ys| == |zs| > 0 && xs[0] < Pow2(w) && ys[0] < Pow2(w)
    requires zs[0] == Bitwise(op, xs[0], ys[0])
    requires Bitwise(op, Pack(xs[1..], w), Pack(ys[1..], w)) == Pack(zs[1..], w)
    ensures Bitwise(op, Pack(xs, w), Pack(ys, w)) == Pack(zs, w)
  {
    BitwiseCons(op, xs[0], ys[0], Pack(xs[1..], w), Pack(ys[1..], w), Pack(zs[1..], w), w);
  }

  lemma BitwiseZero(op: Op)
    ensures Bitwise(op, 0, 0) == 0
  {
    Unfold(op, 0, 0);
  }

  /** One step of `PackBitwise`: the lowest lane, then the rest. */
  lemma BitwiseCons(op: Op, x: nat, y: nat, a: nat, b: nat, c: nat, w: nat)
    requires x < Pow2(w) && y < Pow2(w) && Bitwise(op, a, b) == c
    ensures Bitwise(op, x + Shl(a, w), y + Shl(b, w)) == Bitwise(op, x, y) + Shl(c, w)
  {
    Split(op, x, y, a, b, w, x + Shl(a, w), y + Shl(b, w));
  }

  /** Masking any `d` with a packed mask: each group of `d` is masked with
      the mask's lane, and everything above the mask disappears. */
  lemma AndPack(d: nat, ms: seq<nat>, w: nat)
    requires Fits(ms, w)
    ensures And(d, Pack(ms, w))
         == Pack(seq(|ms|, i requires 0 <= i < |ms| => And(Items(d, w, |ms|)[i], ms[i])), w)
  {
    var its := Items(d, w, |ms|);
    ItemsPack(d, w, |ms|);
    PackBound(ms, w);
    ItemsFit(d, w, |ms|);
    AndLow(d, Pack(ms, w), Width(|ms|, w));
    PackBitwiseOf(AndOp, its, ms, seq(|ms|, i requires 0 <= i < |ms| => And(its[i], ms[i])), w);
  }

  /** The `k` low bits of each of the `n` lowest `w`-bit groups of `d`. */
  function LowItems(d: nat, w: nat, n: nat, k: nat): (r: seq<nat>)
    ensures |r| == n
    ensures forall i :: 0 <= i < n ==> r[i] == Low(Items(d, w, n)[i], k)
  {
    seq(n, i requires 0 <= i < n => Low(Items(d, w, n)[i], k))
  }

  /** Masking with `n` lanes of `k` low bits keeps the `k` low bits of each
      of the `n` lowest groups of `d`. */
  lemma AndPackMask(d: nat, n: nat, w: nat, k: nat)
    requires k <= w
    ensures And(d, Pack(Repeat(Pow2(k) - 1, n), w)) == Pack(LowItems(d, w, n, k), w)
  {
    var its := Items(d, w, n);
    var ms := Repeat(Pow2(k) - 1, n);
    Pow2Mono(k, w);
    AndPack(d, ms, w);
    forall i | 0 <= i < n
      ensures And(its[i], ms[i]) == Low(its[i], k)
    {
      AndLowMask(its[i], k);
    }
    assert seq(n, i requires 0 <= i < n => And(its[i], ms[i])) == LowItems(d, w, n, k);
  }

  lemma ItemsFit(d: nat, w: nat, n: nat)
    ensures Fits(Items(d, w, n), w)
  {
    forall i | 0 <= i < n ensures Items(d, w, n)[i] < Pow2(w) {
      ItemAt(d, w, n, i);
      ShrLow(Shr(d, Width(i, w)), w);
    }
  }

  /** Dropping the `i` lowest groups of a packed sequence. */
  lemma {:induction false} PackDrop(xs: seq<nat>, w: nat, i: nat)
    requires Fits(xs, w) && i <= |xs|
    ensures Shr(Pack(xs, w), Width(i, w)) == Pack(xs[i..], w)
  {
    if i > 0 {
      PackDrop(xs[1..], w, i - 1);
      assert xs[1..][i - 1..] == xs[i..];
      ShrShr(Pack(xs, w), w, Width(i - 1, w));
      ShrLowOf(xs[0], Pack(xs[1..], w), w);
    }
  }

  /** A window of `t` bits starting `s` bits into lane `i` lies inside that
      lane when `s + t <= w`: it reads only `xs[i]`. */
  lemma Window(xs: seq<nat>, w: nat, i: nat, s: nat, t: nat)
    requires Fits(xs, w) && i < |xs| && s + t <= w
    ensures Low(Shr(Pack(xs, w), Width(i, w) + s), t) == Low(Shr(xs[i], s), t)
  {
    PackDrop(xs, w, i);
    ShrShr(Pack(xs, w), Width(i, w), s);
    var rest := Pack(xs[i + 1..], w);
    assert xs[i..][1..] == xs[i + 1..];
    ShrAdd(xs[i], rest, s, w);
    LowAdd(Shr(xs[i], s), rest, t, w - s);
  }
}

/** The size arithmetic of gralloc_gbm.c: alignment, padding for cursors, and the dimensions
    that stand in for planar YV12 buffers. */
module Sizes {
  import opened Bits

  /** Bitwise `a & ~b`, one bit at a time. */
  function AndNot(a: nat, b: nat): nat {
    if a == 0 then 0 else (if b % 2 == 1 then 0 else a % 2) + 2 * AndNot(a / 2, b / 2)
  }

  lemma {:induction false} AndNotRest(a: nat, b: nat)
    ensures AndNot(a, b) + And(a, b) == a
  {
    if a != 0 {
      AndNotRest(a / 2, b / 2);
      if b == 0 {
        assert And(a / 2, b / 2) == 0;
      }
    }
  }

  /** ALIGN in its mask form. */
  function Align(a: nat, b: nat): nat
    requires b > 0
  {
    AndNot(a + b - 1, b - 1)
  }

  predicate Multiple(a: nat, b: nat)
    requires b > 0
  {
    Rem(a, b) == 0
  }

  /** For a power of two, the mask form gives the least multiple that is not below a. */
  lemma AlignIsLeastMultiple(a: nat, b: nat, k: nat)
    requires b == Pow2(k)
    ensures Multiple(Align(a, b), b) && a <= Align(a, b) < a + b
    ensures forall m: nat :: Multiple(m, b) && a <= m ==> Align(a, b) <= m
  {
    hide And, AndNot, Rem, Pow2;
    var x := a + b - 1;
    var q, r := Division(x, b);
    AndNotRest(x, b - 1);
    MaskIsRemainder(x, k);
    assert And(x, b - 1) == r by { RemainderIs(x, b, r); }
    MultipleOf(q, b);
    forall m: nat | Multiple(m, b) && a <= m ensures Align(a, b) <= m {
      var p, zero := Division(m, b);
      MultiplesApart(p, q, b);
    }
  }

  lemma RemainderIs(x: nat, b: nat, r: nat)
    requires b > 0 && r == Rem(x, b)
    ensures x % b == r
  {
  }

  lemma MultipleOf(q: nat, b: nat)
    requires b > 0
    ensures Multiple(q * b, b)
  {
    QuotientUnique(q * b, b, q, 0);
  }

  lemma MultiplesApart(p: nat, q: nat, b: nat)
    requires b > 0
    ensures p < q ==> p * b + b <= q * b
  {
    if p < q {
      ProductMonotone(p + 1, q, b);
      assert (p + 1) * b == p * b + b;
    }
  }

  lemma AlignedStays(a: nat, b: nat, k: nat)
    requires b == Pow2(k) && Multiple(a, b)
    ensures Align(a, b) == a
  {
    AlignIsLeastMultiple(a, b, k);
  }

  lemma Powers()
    ensures Pow2(1) == 2 && Pow2(2) == 4 && Pow2(5) == 32
  {
    assert Pow2(3) == 8;
  }

  function Max(a: nat, b: nat): nat {
    if a > b then a else b
  }

  /** What a cursor's width or height is padded to. */
  function Padded(a: nat): nat {
    Align(Max(a, 64), 4)
  }

  /** Padding gives the least multiple of 4 that is at least 64 and not below a, so padding
      again changes nothing. */
  lemma PaddedIdempotent(a: nat)
    ensures Padded(a) >= a && Padded(a) >= 64 && Multiple(Padded(a), 4)
    ensures forall m: nat :: Multiple(m, 4) && m >= a && m >= 64 ==> Padded(a) <= m
    ensures Padded(Padded(a)) == Padded(a)
    ensures Padded(a) == a <==> a >= 64 && Multiple(a, 4)
  {
    hide Align;
    Powers();
    AlignIsLeastMultiple(Max(a, 64), 4, 2);
    AlignedStays(Padded(a), 4, 2);
    if a >= 64 && Multiple(a, 4) {
      AlignedStays(a, 4, 2);
    }
  }

  // ---------------------------------------------------------------- dimensions

  /** The dimensions of the buffer object, and of the handle, in gralloc_gbm_android_buffer_new:
      those asked for; for a cursor each the least multiple of 4 that is at least 64 and not
      below what was asked for; for YV12 half the least multiple of 32 across, and half the
      rows again, rounded up, below. */
  method SizeForNew(w: nat, h: nat, cursor: bool, yv12: bool) returns (width: nat, height: nat)
    ensures (width, height) == NewSize(w, h, cursor, yv12)
    ensures !cursor && !yv12 ==> width == w && height == h
    ensures cursor && !yv12 ==> width % 4 == 0 && width >= w && width >= 64 && (width < w + 4 || width < 64 + 4)
    ensures yv12 ==> 2 * width % 32 == 0 && w <= 2 * width < w + 32
    ensures !cursor && yv12 ==> height == h + (h + 1) / 2
    ensures cursor ==> (var rows := height - (if yv12 then (h + 1) / 2 else 0);
      rows % 4 == 0 && rows >= h && rows >= 64 && (rows < h + 4 || rows < 64 + 4))
  {
    hide Align;
    SizesMean(w, h);
    width, height := w, h;
    if cursor {
      width := Max(w, 64);
      height := Max(h, 64);
      width := Align(width, 4);
      height := Align(height, 4);
    }
    if yv12 {
      width := Align(w, 32) / 2;
      height := height + Align(h, 2) / 2;
    }
  }

  function NewSize(w: nat, h: nat, cursor: bool, yv12: bool): (nat, nat) {
    var rows := if cursor then Padded(h) else h;
    if yv12 then (Align(w, 32) / 2, rows + Align(h, 2) / 2)
    else (if cursor then Padded(w) else w, rows)
  }

  /** The dimensions that gralloc_gbm_android_buffer_import derives from the handle's: as for
      a new buffer, except that a cursor's padding goes by the handle's dimensions alone. */
  method SizeForImport(w: nat, h: nat, cursor: bool, yv12: bool) returns (width: nat, height: nat)
    ensures (width, height) == ImportSize(w, h, cursor, yv12)
    ensures !cursor && !yv12 ==> width == w && height == h
    ensures cursor ==> width % 4 == 0 && width >= w && width >= 64 && (width < w + 4 || width < 64 + 4)
    ensures cursor ==> height % 4 == 0 && height >= h && height >= 64 && (height < h + 4 || height < 64 + 4)
    ensures !cursor && yv12 ==> 2 * width % 32 == 0 && w <= 2 * width < w + 32 && height == h + (h + 1) / 2
  {
    hide Align;
    SizesMean(w, h);
    width, height := w, h;
    if yv12 {
      width := Align(w, 32) / 2;
      height := h + Align(h, 2) / 2;
    }
    if cursor {
      width := Max(w, 64);
      height := Max(h, 64);
      width := Align(width, 4);
      height := Align(height, 4);
    }
  }

  function ImportSize(w: nat, h: nat, cursor: bool, yv12: bool): (nat, nat) {
    if cursor then (Padded(w), Padded(h))
    else if yv12 then (Align(w, 32) / 2, h + Align(h, 2) / 2)
    else (w, h)
  }

  lemma PaddedMeans(a: nat)
    ensures var p := Padded(a); p % 4 == 0 && p >= a && p >= 64 && (p < a + 4 || p < 64 + 4)
  {
    hide Align;
    Powers();
    AlignIsLeastMultiple(Max(a, 64), 4, 2);
  }

  /** The pieces both methods put together, in plain terms. */
  lemma SizesMean(w: nat, h: nat)
    ensures var p := Padded(w); p % 4 == 0 && p >= w && p >= 64 && (p < w + 4 || p < 64 + 4)
    ensures var p := Padded(h); p % 4 == 0 && p >= h && p >= 64 && (p < h + 4 || p < 64 + 4)
    ensures var s := Align(w, 32); s % 32 == 0 && w <= s < w + 32 && 2 * (s / 2) == s
    ensures Align(h, 2) / 2 == (h + 1) / 2
  {
    hide Align, Padded;
    PaddedMeans(w);
    PaddedMeans(h);
    YV12Width(w);
    YV12Rows(h);
  }

  lemma YV12Width(w: nat)
    ensures var s := Align(w, 32); Multiple(s, 32) && w <= s < w + 32 && Multiple(s / 2, 16) && s == 2 * (s / 2)
  {
    hide Align;
    Powers();
    AlignIsLeastMultiple(w, 32, 5);
  }

  lemma YV12Rows(h: nat)
    ensures Align(h, 2) / 2 == (h + 1) / 2
  {
    hide Align;
    Powers();
    AlignIsLeastMultiple(h, 2, 1);
  }

  /** Without a cursor, a YV12 buffer's object has at 2 bytes a pixel exactly the bytes of a
      luma plane with an aligned stride and of two chroma planes of half that stride, which
      is a multiple of 16, and half the rows. */
  lemma YV12HasItsPlanes(w: nat, h: nat)
    ensures var (width, height) := NewSize(w, h, false, true);
      var stride, rows := Align(w, 32), (h + 1) / 2;
      && 2 * width * height == stride * h + 2 * (stride / 2 * rows)
      && Multiple(stride / 2, 16) && stride >= w && 2 * rows >= h
  {
    hide Align;
    YV12Width(w);
    YV12Rows(h);
    PlanesAddUp(Align(w, 32) / 2, h, (h + 1) / 2);
  }

  lemma PlanesAddUp(half: nat, h: nat, rows: nat)
    ensures 2 * half * (h + rows) == 2 * half * h + 2 * (half * rows)
  {
  }

  /** Import recomputes the dimensions that new used, exactly when the format is not YV12 or,
      for a cursor, in the cases where the padding happens to change nothing. In all other
      YV12 cases it shrinks the width again or grows the height again. */
  lemma ImportAgrees(w: nat, h: nat, cursor: bool, yv12: bool)
    requires w > 0 && h > 0
    ensures var (width, height) := NewSize(w, h, cursor, yv12);
      (ImportSize(width, height, cursor, yv12) == (width, height))
      <==> (!yv12 || (cursor && w > 96 && (h + 1) / 2 % 4 == 0))
  {
    hide Align, Padded, Rem;
    if !yv12 {
      PaddedIdempotent(w);
      PaddedIdempotent(h);
    } else if cursor {
      CursorYV12(w, h);
    } else {
      YV12Rows(NewSize(w, h, cursor, yv12).1);
      YV12Rows(h);
    }
  }

  lemma CursorYV12(w: nat, h: nat)
    requires w > 0 && h > 0
    ensures var (width, height) := NewSize(w, h, true, true);
      && (Padded(width) == width <==> w > 96)
      && (Padded(height) == height <==> (h + 1) / 2 % 4 == 0)
  {
    hide Align, Padded, Rem;
    var (width, height) := NewSize(w, h, true, true);
    YV12Width(w);
    PaddedIdempotent(width);
    SixteensAreFours(width);
    YV12Rows(h);
    PaddedIdempotent(h);
    PaddedIdempotent(height);
    SumOfFours(Padded(h), (h + 1) / 2);
  }

  lemma SixteensAreFours(a: nat)
    requires Multiple(a, 16)
    ensures Multiple(a, 4) && (a > 48 ==> a >= 64)
  {
    hide Rem;
    var q, r := Division(a, 16);
    assert a == (4 * q) * 4;
    MultipleOf(4 * q, 4);
  }

  lemma SumOfFours(a: nat, b: nat)
    requires Multiple(a, 4)
    ensures Multiple(a + b, 4) <==> b % 4 == 0
  {
    hide Rem;
    var q, zero := Division(a, 4);
    var p, r := Division(b, 4);
    QuotientUnique(a + b, 4, q + p, r);
    RemainderIs(b, 4, r);
    RemainderIs(a + b, 4, Rem(a + b, 4));
  }

  const INT_LIMIT: nat := 0x8000_0000

  /** Within the supported sizes, no sum that new or import forms on the way to its dimensions
      exceeds an int: the arguments of ALIGN with the alignment less one added to them, and the
      heights with the chroma rows added. */
  lemma NoOverflow(w: nat, h: nat, cursor: bool, yv12: bool)
    requires w <= 16384 && h <= 16384
    ensures SumsFit(w, h, cursor)
    ensures var (width, height) := NewSize(w, h, cursor, yv12); SumsFit(width, height, false)
  {
    hide Align;
    Powers();
    YV12Width(w);
    YV12Rows(h);
    AlignIsLeastMultiple(Max(w, 64), 4, 2);
    AlignIsLeastMultiple(Max(h, 64), 4, 2);
    var (width, height) := NewSize(w, h, cursor, yv12);
    YV12Rows(height);
    AlignIsLeastMultiple(Max(width, 64), 4, 2);
    AlignIsLeastMultiple(Max(height, 64), 4, 2);
  }

  predicate SumsFit(w: nat, h: nat, cursor: bool) {
    && w + 31 < INT_LIMIT && h + 1 < INT_LIMIT
    && Max(w, 64) + 3 < INT_LIMIT && Max(h, 64) + 3 < INT_LIMIT
    && (if cursor then Padded(h) else h) + Align(h, 2) / 2 < INT_LIMIT
  }
}

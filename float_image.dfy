/** The floating-point image buffer `FImage` and its `Pixel` values.

    An image holds `width * height` pixels of 3 channels (RGB) or 4 (RGBA), as
    one flat row-major array of samples. Coordinates are toroidal: every pair
    of integers addresses a pixel, after reduction modulo the width and the
    height. Samples are `real`; `f32` rounding is not modelled. */
module FloatImage {
  import opened Outcomes

  const I32_MAX: int := 0x7FFF_FFFF

  datatype Pixel =
    | RGB(r: real, g: real, b: real)
    | RGBA(r: real, g: real, b: real, a: real)

  function Channels(alpha: bool): nat { if alpha then 4 else 3 }

  /** The buffer accepts the pixel: RGBA exactly when it has an alpha channel. */
  predicate Fits(p: Pixel, alpha: bool) { p.RGBA? == alpha }

  /** The channel values of a pixel, in storage order. */
  function Samples(p: Pixel): (c: seq<real>)
    ensures |c| == Channels(p.RGBA?)
    ensures c[0] == p.r && c[1] == p.g && c[2] == p.b
    ensures p.RGBA? ==> c[3] == p.a
  {
    match p
    case RGB(r, g, b) => [r, g, b]
    case RGBA(r, g, b, a) => [r, g, b, a]
  }

  // ---------------------------------------------------------------------
  // Toroidal addressing

  /** The remainder of `i32 %`: truncated toward zero, with the sign of `v`. */
  function TruncRem(v: int, n: int): (r: int)
    requires n > 0
    ensures -n < r < n
    ensures v >= 0 ==> r >= 0
    ensures v < 0 ==> r <= 0
  {
    if v >= 0 then v % n else -((-v) % n)
  }

  /** The wrapped coordinate of `get_pixel`/`set_pixel`: the truncated
      remainder, shifted up by `n` when it is negative. It is the Euclidean
      residue of `v`, and so lies in [0, n) for every `v`. */
  function Wrap(v: int, n: int): (r: int)
    requires n > 0
    ensures 0 <= r < n
  {
    var t := TruncRem(v, n);
    if t < 0 then t + n else t
  }

  /** Shifting a negative truncated remainder up by `n` yields exactly the
      Euclidean residue. */
  lemma WrapIsResidue(v: int, n: int)
    requires n > 0
    ensures Wrap(v, n) == v % n
  {
    if v < 0 {
      var m := (-v) % n;
      var q := (-v) / n;
      assert -v == q * n + m;
      if m == 0 {
        ResidueUnique(v, n, -q, 0);
      } else {
        assert v == (-q - 1) * n + (n - m);
        ResidueUnique(v, n, -q - 1, n - m);
      }
    }
  }

  /** Euclidean division has one remainder. */
  lemma ResidueUnique(a: int, n: int, q: int, r: int)
    requires n > 0 && 0 <= r < n && a == q * n + r
    ensures a % n == r && a / n == q
  {
    var q', r' := a / n, a % n;
    assert (q - q') * n == r' - r;
    if q > q' {
      MultipleAtLeast(q - q', n);
    } else if q < q' {
      MultipleAtLeast(q' - q, n);
    }
  }

  lemma MultipleAtLeast(k: int, n: int)
    requires k >= 1 && n > 0
    ensures k * n >= n
  {
    assert k * n == (k - 1) * n + n;
  }

  /** Shifting a coordinate by whole periods addresses the same column. */
  lemma {:induction false} WrapPeriodic(v: int, n: int, k: int)
    requires n > 0
    ensures Wrap(v + k * n, n) == Wrap(v, n)
  {
    WrapIsResidue(v, n);
    WrapIsResidue(v + k * n, n);
    ResiduePeriodic(v, n, k);
  }

  lemma ResiduePeriodic(v: int, n: int, k: int)
    requires n > 0
    ensures (v + k * n) % n == v % n
  {
    var q := v / n;
    assert v == q * n + v % n;
    assert v + k * n == (q + k) * n + v % n;
    ResidueUnique(v + k * n, n, q + k, v % n);
  }

  /** Coordinates already on the canvas are left alone. */
  lemma WrapOnCanvas(v: int, n: int)
    requires 0 <= v < n
    ensures Wrap(v, n) == v
  {
    WrapIsResidue(v, n);
    ResidueUnique(v, n, 0, v);
  }

  lemma RowsFit(my: nat, width: nat, height: nat)
    requires my < height
    ensures my * width + width <= width * height
  {
    assert (my + 1) * width <= height * width;
  }

  /** The pixel index `mod_x + mod_y * width` that a coordinate pair names. */
  function Slot(width: nat, height: nat, x: int, y: int): (s: nat)
    requires width > 0 && height > 0
    ensures s < width * height
  {
    var mx, my := Wrap(x, width), Wrap(y, height);
    RowsFit(my, width, height);
    mx + my * width
  }

  /** The sample offset `channels * (mod_x + mod_y * width)`; the whole pixel
      starting there lies inside a buffer of `width * height` pixels. */
  function Offset(width: nat, height: nat, alpha: bool, x: int, y: int): (off: nat)
    requires width > 0 && height > 0
    ensures off + Channels(alpha) <= width * height * Channels(alpha)
  {
    var s := Slot(width, height, x, y);
    assert (s + 1) * Channels(alpha) <= (width * height) * Channels(alpha);
    if alpha then 4 * s else 3 * s
  }

  /** `(x + k*width, y + m*height)` addresses the same pixel as `(x, y)`. */
  lemma {:induction false} SlotPeriodic(width: nat, height: nat, x: int, y: int, k: int, m: int)
    requires width > 0 && height > 0
    ensures Slot(width, height, x + k * width, y + m * height) == Slot(width, height, x, y)
  {
    WrapPeriodic(x, width, k);
    WrapPeriodic(y, height, m);
  }

  /** Coordinates closer than a period in each direction that address the
      same pixel are the same coordinates. */
  lemma SlotNear(width: nat, height: nat, x1: int, y1: int, x2: int, y2: int)
    requires width > 0 && height > 0
    requires x1 - x2 < width && x2 - x1 < width && y1 - y2 < height && y2 - y1 < height
    requires Slot(width, height, x1, y1) == Slot(width, height, x2, y2)
    ensures x1 == x2 && y1 == y2
  {
    var mx1, my1 := Wrap(x1, width), Wrap(y1, height);
    var mx2, my2 := Wrap(x2, width), Wrap(y2, height);
    var slot: int := mx1 + my1 * width;
    assert slot == mx2 + my2 * width;
    ResidueUnique(slot, width, my1, mx1);
    ResidueUnique(slot, width, my2, mx2);
    NearResidue(x1, x2, width);
    NearResidue(y1, y2, height);
  }

  /** Two values closer than `n` with one residue are equal. */
  lemma NearResidue(a: int, b: int, n: int)
    requires n > 0 && a - b < n && b - a < n && Wrap(a, n) == Wrap(b, n)
    ensures a == b
  {
    WrapIsResidue(a, n);
    WrapIsResidue(b, n);
    var qa, qb := a / n, b / n;
    assert a - b == (qa - qb) * n;
    if qa > qb {
      MultipleAtLeast(qa - qb, n);
    } else if qa < qb {
      MultipleAtLeast(qb - qa, n);
    }
  }

  /** On the canvas, distinct coordinates address distinct pixels. */
  lemma SlotInjective(width: nat, height: nat, x1: int, y1: int, x2: int, y2: int)
    requires width > 0 && height > 0
    requires 0 <= x1 < width && 0 <= y1 < height && 0 <= x2 < width && 0 <= y2 < height
    requires Slot(width, height, x1, y1) == Slot(width, height, x2, y2)
    ensures x1 == x2 && y1 == y2
  {
    WrapOnCanvas(x1, width); WrapOnCanvas(y1, height);
    WrapOnCanvas(x2, width); WrapOnCanvas(y2, height);
    assert x1 + y1 * width == x2 + y2 * width;
    ResidueUnique(x1 + y1 * width, width, y1, x1);
    ResidueUnique(x2 + y2 * width, width, y2, x2);
  }

  // ---------------------------------------------------------------------
  // Reading and writing one pixel of a flat sample sequence

  function ReadAt(s: seq<real>, alpha: bool, off: nat): (p: Pixel)
    requires off + Channels(alpha) <= |s|
    ensures Fits(p, alpha)
    ensures Samples(p) == s[off .. off + Channels(alpha)]
  {
    if alpha then RGBA(s[off], s[off + 1], s[off + 2], s[off + 3])
    else RGB(s[off], s[off + 1], s[off + 2])
  }

  /** The samples after storing pixel `p` at `off`; `WriteAtEffect` says
      what changes. */
  function WriteAt(s: seq<real>, alpha: bool, off: nat, p: Pixel): (t: seq<real>)
    requires off + Channels(alpha) <= |s| && Fits(p, alpha)
    ensures |t| == |s|
  {
    if alpha then s[off := p.r][off + 1 := p.g][off + 2 := p.b][off + 3 := p.a]
    else s[off := p.r][off + 1 := p.g][off + 2 := p.b]
  }

  /** What a write changes: the pixel at `off` now holds `p`, and every
      sample outside it is as before. */
  lemma WriteAtEffect(s: seq<real>, alpha: bool, off: nat, p: Pixel)
    requires off + Channels(alpha) <= |s| && Fits(p, alpha)
    ensures WriteAt(s, alpha, off, p)[off .. off + Channels(alpha)] == Samples(p)
    ensures forall i :: 0 <= i < |s| && !(off <= i < off + Channels(alpha)) ==> WriteAt(s, alpha, off, p)[i] == s[i]
  {
  }

  /** Reading a pixel back after writing it, at the same pixel or another:
      a write is seen exactly at its own pixel. */
  lemma ReadAfterWrite(s: seq<real>, alpha: bool, s1: nat, s2: nat, p: Pixel)
    requires (s1 + 1) * Channels(alpha) <= |s| && (s2 + 1) * Channels(alpha) <= |s|
    requires Fits(p, alpha)
    ensures ReadAt(WriteAt(s, alpha, Channels(alpha) * s2, p), alpha, Channels(alpha) * s1)
         == if s1 == s2 then p else ReadAt(s, alpha, Channels(alpha) * s1)
  {
    var c := Channels(alpha);
    var t := WriteAt(s, alpha, c * s2, p);
    WriteAtEffect(s, alpha, c * s2, p);
    if s1 == s2 {
      assert Samples(ReadAt(t, alpha, c * s1)) == Samples(p);
    } else {
      if s1 < s2 {
        assert (s1 + 1) * c <= s2 * c;
      } else {
        assert (s2 + 1) * c <= s1 * c;
      }
      assert t[c * s1 .. c * s1 + c] == s[c * s1 .. c * s1 + c];
    }
  }

  /** The same, in image coordinates: a write at `(x2, y2)` is seen by a
      read at `(x1, y1)` exactly when both name the same pixel. */
  lemma ReadAfterWriteAt(s: seq<real>, width: nat, height: nat, alpha: bool,
                         x1: int, y1: int, x2: int, y2: int, p: Pixel)
    requires width > 0 && height > 0 && |s| == width * height * Channels(alpha)
    requires Fits(p, alpha)
    ensures ReadAt(WriteAt(s, alpha, Offset(width, height, alpha, x2, y2), p), alpha, Offset(width, height, alpha, x1, y1))
         == if Slot(width, height, x1, y1) == Slot(width, height, x2, y2) then p
            else ReadAt(s, alpha, Offset(width, height, alpha, x1, y1))
  {
    var s1, s2 := Slot(width, height, x1, y1), Slot(width, height, x2, y2);
    assert (s1 + 1) * Channels(alpha) <= |s| && (s2 + 1) * Channels(alpha) <= |s| by {
      assert (s1 + 1) * Channels(alpha) <= (width * height) * Channels(alpha);
      assert (s2 + 1) * Channels(alpha) <= (width * height) * Channels(alpha);
    }
    ReadAfterWrite(s, alpha, s1, s2, p);
  }

  // ---------------------------------------------------------------------
  // Clipping and normalisation

  /** With an alpha channel, every fourth sample (index 3 mod 4) is alpha. */
  predicate IsAlphaSample(alpha: bool, i: int) { alpha && i % 4 == 3 }

  function Clamp01(v: real): (r: real)
    ensures 0.0 <= r <= 1.0
    ensures 0.0 <= v <= 1.0 ==> r == v
    ensures v <= 0.0 ==> r == 0.0
    ensures v >= 1.0 ==> r == 1.0
  {
    if v < 0.0 then 0.0 else if v > 1.0 then 1.0 else v
  }

  /** `((c - min) / (max - min)).clamp(0.0, 1.0)`: a value in [0, 1]; for
      `min < max`, 0 at `min` and below, 1 at `max` and above, and the
      linear position of `c` in between. */
  function Rescale(c: real, min: real, max: real): (r: real)
    requires min != max
    ensures 0.0 <= r <= 1.0
    ensures min < max && c <= min ==> r == 0.0
    ensures min < max && c >= max ==> r == 1.0
    ensures min <= c <= max ==> r == (c - min) / (max - min)
  {
    var range := max - min;
    if min < max then
      if c <= min then
        DivNonPositive(c - min, range);
        0.0
      else if c >= max then
        DivAtLeastOne(c - min, range);
        1.0
      else
        DivMonotone(0.0, c - min, range);
        DivMonotone(c - min, range, range);
        Clamp01((c - min) / range)
    else
      Clamp01((c - min) / range)
  }

  /** The samples `clip(min, max)` leaves: alpha samples as they were, every
      other sample moved into [0, 1]. */
  function Clipped(s: seq<real>, alpha: bool, min: real, max: real): (t: seq<real>)
    requires min != max
    ensures |t| == |s|
    ensures forall i :: 0 <= i < |s| && IsAlphaSample(alpha, i) ==> t[i] == s[i]
    ensures forall i :: 0 <= i < |s| && !IsAlphaSample(alpha, i) ==> 0.0 <= t[i] <= 1.0
  {
    seq(|s|, i requires 0 <= i < |s| => if IsAlphaSample(alpha, i) then s[i] else Rescale(s[i], min, max))
  }

  /** For `min < max`, clipping sends `min` and below to 0, `max` and above to
      1, and keeps the order of the colour samples. */
  lemma ClippedOrder(s: seq<real>, alpha: bool, min: real, max: real, i: int, j: int)
    requires min < max
    requires 0 <= i < |s| && 0 <= j < |s| && !IsAlphaSample(alpha, i) && !IsAlphaSample(alpha, j)
    ensures s[i] <= min ==> Clipped(s, alpha, min, max)[i] == 0.0
    ensures s[i] >= max ==> Clipped(s, alpha, min, max)[i] == 1.0
    ensures s[i] <= s[j] ==> Clipped(s, alpha, min, max)[i] <= Clipped(s, alpha, min, max)[j]
  {
    var t := Clipped(s, alpha, min, max);
    assert t[i] == Rescale(s[i], min, max);
    assert t[j] == Rescale(s[j], min, max);
    if min <= s[i] <= s[j] <= max {
      DivMonotone(s[i] - min, s[j] - min, max - min);
    }
  }

  lemma DivNonPositive(a: real, d: real)
    requires a <= 0.0 && d > 0.0
    ensures a / d <= 0.0
  {
    assert (a / d) * d == a;
  }

  lemma DivAtLeastOne(a: real, d: real)
    requires a >= d > 0.0
    ensures a / d >= 1.0
  {
    assert (a / d) * d == a;
  }

  lemma DivMonotone(a: real, b: real, d: real)
    requires a <= b && d > 0.0
    ensures a / d <= b / d
  {
    assert b / d - a / d == (b - a) / d;
    DivNonPositive(a - b, d);
  }

  /** Normalisation is defined unless every colour sample has one value
      (then `clip` divides by zero and `f32` yields NaN). */
  predicate NotFlat(s: seq<real>, alpha: bool)
  {
    |s| == 0 ||
    exists i, j :: 0 <= i < |s| && 0 <= j < |s| && !IsAlphaSample(alpha, i) && !IsAlphaSample(alpha, j) && s[i] != s[j]
  }

  /** `lo` and `hi` are the least and greatest colour sample of `s`. */
  ghost predicate ColourBounds(s: seq<real>, alpha: bool, lo: real, hi: real)
  {
    && (forall i :: 0 <= i < |s| && !IsAlphaSample(alpha, i) ==> lo <= s[i] <= hi)
    && (exists i :: 0 <= i < |s| && !IsAlphaSample(alpha, i) && s[i] == lo)
    && (exists i :: 0 <= i < |s| && !IsAlphaSample(alpha, i) && s[i] == hi)
  }

  datatype Range = Range(lo: real, hi: real)

  /** Unless the colour samples all share one value, the least is strictly
      below the greatest, so `clip` does not divide by zero. */
  lemma SpreadBounds(s: seq<real>, alpha: bool, lo: real, hi: real)
    requires NotFlat(s, alpha) && ColourBounds(s, alpha, lo, hi)
    ensures lo < hi
  {
    var i, j :| 0 <= i < |s| && 0 <= j < |s| && !IsAlphaSample(alpha, i) && !IsAlphaSample(alpha, j) && s[i] != s[j];
  }

  // ---------------------------------------------------------------------
  // The image

  class FImage {
    const width: nat
    const height: nat
    const alpha: bool
    const pixels: array<real>

    ghost predicate Valid()
      reads this
    {
      pixels.Length == width * height * Channels(alpha)
    }

    /** Toroidal addressing needs a non-empty canvas (`%` by zero panics) whose
        sides survive the `as i32` cast. */
    ghost predicate Addressable()
      reads this
    {
      Valid() && 0 < width <= I32_MAX && 0 < height <= I32_MAX
    }

    /** `FImage::new`: `width * height * channels` samples, all 0. */
    constructor (width: nat, height: nat, useAlphaChannel: bool)
      ensures Valid() && fresh(pixels)
      ensures this.width == width && this.height == height && alpha == useAlphaChannel
      ensures pixels.Length == width * height * Channels(useAlphaChannel)
      ensures forall i :: 0 <= i < pixels.Length ==> pixels[i] == 0.0
    {
      this.width := width;
      this.height := height;
      alpha := useAlphaChannel;
      pixels := new real[width * height * Channels(useAlphaChannel)](_ => 0.0);
    }

    function OffsetOf(x: int, y: int): (off: nat)
      reads this
      requires Addressable()
      ensures off + Channels(alpha) <= pixels.Length
    {
      Offset(width, height, alpha, x, y)
    }

    /** `get_pixel`: RGBA exactly when the image has alpha, holding the
        channels stored at the wrapped coordinates. */
    function GetPixel(x: int, y: int): (p: Pixel)
      reads this, pixels
      requires Addressable()
      ensures p.RGBA? <==> alpha
      ensures Samples(p) == pixels[OffsetOf(x, y) .. OffsetOf(x, y) + Channels(alpha)]
    {
      ReadAt(pixels[..], alpha, OffsetOf(x, y))
    }

    /** `set_pixel`: stores the channels of `p` at the wrapped coordinates.
        The Rust code panics unless `p` has the buffer's format. */
    method SetPixel(x: int, y: int, p: Pixel)
      requires Addressable()
      requires Fits(p, alpha)
      modifies pixels
      ensures pixels[..] == WriteAt(old(pixels[..]), alpha, OffsetOf(x, y), p)
      ensures GetPixel(x, y) == p
      ensures forall i :: 0 <= i < pixels.Length && !(OffsetOf(x, y) <= i < OffsetOf(x, y) + Channels(alpha))
                ==> pixels[i] == old(pixels[i])
    {
      var off := OffsetOf(x, y);
      if alpha {
        pixels[off] := p.r;
        pixels[off + 1] := p.g;
        pixels[off + 2] := p.b;
        pixels[off + 3] := p.a;
      } else {
        pixels[off] := p.r;
        pixels[off + 1] := p.g;
        pixels[off + 2] := p.b;
      }
      assert pixels[..] == WriteAt(old(pixels[..]), alpha, off, p);
    }

    function HasAlphaChannel(): (a: bool)
      reads this
      ensures a == alpha
    {
      alpha
    }

    /** `clip(min, max)`: rescales every colour sample in place and leaves
        the alpha samples alone. */
    method Clip(min: real, max: real)
      requires Valid()
      requires min != max
      modifies pixels
      ensures pixels[..] == Clipped(old(pixels[..]), alpha, min, max)
    {
      ghost var s := pixels[..];
      var i := 0;
      while i < pixels.Length
        invariant 0 <= i <= pixels.Length
        invariant forall k :: 0 <= k < i ==> pixels[k] == Clipped(s, alpha, min, max)[k]
        invariant forall k :: i <= k < pixels.Length ==> pixels[k] == s[k]
      {
        if !alpha || i % 4 != 3 {
          pixels[i] := Rescale(pixels[i], min, max);
        }
        i := i + 1;
      }
      assert pixels[..] == Clipped(s, alpha, min, max);
    }

    /** The scan at the top of `normalize`: the least and greatest colour
        sample (the pair the Rust code prints), or none for an empty image,
        where the Rust code is left with `+inf` and `-inf`. */
    method ColourRange() returns (bounds: Option<Range>)
      requires Valid()
      ensures bounds.None? <==> pixels.Length == 0
      ensures bounds.Some? ==> ColourBounds(pixels[..], alpha, bounds.value.lo, bounds.value.hi)
    {
      var min, max := 0.0, 0.0;
      var seen := false;
      ghost var iMin, iMax := 0, 0;
      var i := 0;
      while i < pixels.Length
        invariant 0 <= i <= pixels.Length
        invariant seen <==> i > 0
        invariant seen ==> 0 <= iMin < i && 0 <= iMax < i
        invariant seen ==> !IsAlphaSample(alpha, iMin) && pixels[iMin] == min
        invariant seen ==> !IsAlphaSample(alpha, iMax) && pixels[iMax] == max
        invariant forall k :: 0 <= k < i && !IsAlphaSample(alpha, k) ==> min <= pixels[k] <= max
      {
        if !alpha || i % 4 != 3 {
          if !seen || pixels[i] > max { max := pixels[i]; iMax := i; }
          if !seen || pixels[i] < min { min := pixels[i]; iMin := i; }
          seen := true;
        }
        i := i + 1;
      }
      if seen {
        bounds := Some(Range(min, max));
      } else {
        bounds := None;
      }
    }

    /** `normalize`: clips to the least and greatest colour sample. For an
        empty image `clip(+inf, -inf)` touches nothing. */
    method Normalize() returns (bounds: Option<Range>)
      requires Valid()
      requires NotFlat(pixels[..], alpha)
      modifies pixels
      ensures bounds.None? <==> pixels.Length == 0
      ensures bounds.None? ==> pixels[..] == old(pixels[..])
      ensures bounds.Some? ==>
        && bounds.value.lo < bounds.value.hi
        && ColourBounds(old(pixels[..]), alpha, bounds.value.lo, bounds.value.hi)
        && pixels[..] == Clipped(old(pixels[..]), alpha, bounds.value.lo, bounds.value.hi)
    {
      bounds := ColourRange();
      if bounds.Some? {
        SpreadBounds(pixels[..], alpha, bounds.value.lo, bounds.value.hi);
        Clip(bounds.value.lo, bounds.value.hi);
      }
    }
  }
}

/** The circle rasteriser: antialiased outlines (`draw_circle`) and
    antialiased filled discs (`fill_circle`) on an `FImage`.

    A `Target` wraps the image and keeps the trace of every write the
    rasteriser issues. Plain writes (`set_pixel`) store a pixel in the image.
    Blended writes (`set_pixel_blended`) replace the pixel they land on by
    what the target's compositing rule `blend` makes of the pixel there and
    the colour, alpha included; the rule itself is left open, and no other
    pixel changes. */
module CircleDrawer {
  import opened Roots
  import opened FloatImage

  datatype Write =
    | Plain(x: int, y: int, color: Pixel, passed: bool)
    | Blended(x: int, y: int, color: Pixel, passed: bool)

  function Abs(v: int): nat { if v < 0 then -v else v }

  /** `Pixel::rgba(color.r(), color.g(), color.b(), a)` */
  function WithAlpha(color: Pixel, a: real): Pixel
  {
    RGBA(color.r, color.g, color.b, a)
  }

  /** A compositing rule: the pixel that blending `src` onto `dst` yields. */
  type Blender = (Pixel, Pixel) -> Pixel

  /** The pixel a blended write of `src` leaves where the image held `dst`:
      what `blend` makes of them, kept in the image's format. A rule that
      keeps the format is taken as it is. */
  function Composite(blend: Blender, dst: Pixel, src: Pixel): (p: Pixel)
    ensures p.RGBA? == dst.RGBA?
    ensures blend(dst, src).RGBA? == dst.RGBA? ==> p == blend(dst, src)
  {
    var q := blend(dst, src);
    if dst.RGBA? then RGBA(q.r, q.g, q.b, if q.RGBA? then q.a else dst.a)
    else RGB(q.r, q.g, q.b)
  }

  /** The samples after one write. A write the guard stopped changes
      nothing. A plain write stores its colour at its pixel; a blended write
      stores there the composite of the pixel it finds and its colour. (A
      plain colour of the wrong format would make the Rust code panic; every
      method here requires the right one, so such a write is never issued.) */
  ghost function Apply(s: seq<real>, width: nat, height: nat, alpha: bool, blend: Blender, w: Write): (t: seq<real>)
    requires width > 0 && height > 0 && |s| == width * height * Channels(alpha)
    ensures |t| == |s|
  {
    if !w.passed then s
    else
      var off := Offset(width, height, alpha, w.x, w.y);
      if w.Blended? then WriteAt(s, alpha, off, Composite(blend, ReadAt(s, alpha, off), w.color))
      else if Fits(w.color, alpha) then WriteAt(s, alpha, off, w.color)
      else s
  }

  /** The samples after the writes `ws[i..]`, in order, starting from `s`. */
  ghost function PaintFrom(s: seq<real>, width: nat, height: nat, alpha: bool, blend: Blender, ws: seq<Write>, i: nat): (t: seq<real>)
    requires width > 0 && height > 0 && |s| == width * height * Channels(alpha)
    requires i <= |ws|
    ensures |t| == |s|
    decreases |ws| - i
  {
    if i == |ws| then s
    else PaintFrom(Apply(s, width, height, alpha, blend, ws[i]), width, height, alpha, blend, ws, i + 1)
  }

  /** The samples after all the writes of `ws`, in order, starting from `s`. */
  ghost function Paint(s: seq<real>, width: nat, height: nat, alpha: bool, blend: Blender, ws: seq<Write>): (t: seq<real>)
    requires width > 0 && height > 0 && |s| == width * height * Channels(alpha)
    ensures |t| == |s|
  {
    PaintFrom(s, width, height, alpha, blend, ws, 0)
  }

  /** Painting one more write applies it to the samples painted so far. */
  lemma {:induction false} PaintFromSnoc(s: seq<real>, width: nat, height: nat, alpha: bool, blend: Blender,
                                         ws: seq<Write>, w: Write, i: nat)
    requires width > 0 && height > 0 && |s| == width * height * Channels(alpha)
    requires i <= |ws|
    ensures PaintFrom(s, width, height, alpha, blend, ws + [w], i)
         == Apply(PaintFrom(s, width, height, alpha, blend, ws, i), width, height, alpha, blend, w)
    decreases |ws| - i
  {
    assert (ws + [w])[|ws|] == w;
    if i < |ws| {
      assert (ws + [w])[i] == ws[i];
      PaintFromSnoc(Apply(s, width, height, alpha, blend, ws[i]), width, height, alpha, blend, ws, w, i + 1);
    }
  }

  lemma PaintSnoc(s: seq<real>, width: nat, height: nat, alpha: bool, blend: Blender, ws: seq<Write>, w: Write)
    requires width > 0 && height > 0 && |s| == width * height * Channels(alpha)
    ensures Paint(s, width, height, alpha, blend, ws + [w])
         == Apply(Paint(s, width, height, alpha, blend, ws), width, height, alpha, blend, w)
  {
    PaintFromSnoc(s, width, height, alpha, blend, ws, w, 0);
  }

  /** `ws[k]` stores `c` at `(px, py)`, and every later write that reaches
      the same pixel stores `c` too. */
  predicate Settles(width: nat, height: nat, ws: seq<Write>, k: nat, px: int, py: int, c: Pixel)
    requires width > 0 && height > 0
  {
    k < |ws| && ws[k] == Plain(px, py, c, true)
    && forall m :: k < m < |ws| && ws[m].passed && Slot(width, height, ws[m].x, ws[m].y) == Slot(width, height, px, py)
                   ==> ws[m].Plain? && ws[m].color == c
  }

  /** A pixel written by a plain write reads back that write's colour when
      every later write that reaches the pixel, plain or blended, stores the
      same colour there; writes elsewhere do not matter. */
  lemma {:induction false} LastColourSeen(s: seq<real>, width: nat, height: nat, alpha: bool, blend: Blender,
                                          ws: seq<Write>, k: nat, px: int, py: int, c: Pixel)
    requires width > 0 && height > 0 && |s| == width * height * Channels(alpha)
    requires Fits(c, alpha) && Settles(width, height, ws, k, px, py, c)
    ensures ReadAt(Paint(s, width, height, alpha, blend, ws), alpha, Offset(width, height, alpha, px, py)) == c
    decreases |ws|
  {
    var n := |ws| - 1;
    var pre := ws[..n];
    var last := ws[n];
    assert ws == pre + [last];
    PaintSnoc(s, width, height, alpha, blend, pre, last);
    var before := Paint(s, width, height, alpha, blend, pre);
    if k < n {
      assert forall m :: 0 <= m < n ==> pre[m] == ws[m];
      assert Settles(width, height, pre, k, px, py, c);
      LastColourSeen(s, width, height, alpha, blend, pre, k, px, py, c);
    }
    if last.passed {
      var off := Offset(width, height, alpha, last.x, last.y);
      if last.Blended? {
        ReadAfterWriteAt(before, width, height, alpha, px, py, last.x, last.y, Composite(blend, ReadAt(before, alpha, off), last.color));
      } else if Fits(last.color, alpha) {
        ReadAfterWriteAt(before, width, height, alpha, px, py, last.x, last.y, last.color);
      }
    }
  }

  /** Every plain write among `ws` stores `color`. */
  predicate Coloured(ws: seq<Write>, color: Pixel)
  {
    forall k :: 0 <= k < |ws| && ws[k].Plain? ==> ws[k].color == color
  }

  /** Every write is an unguarded blended write of `color`'s red, green and
      blue with an alpha in [0, 1]. */
  predicate Tinted(ws: seq<Write>, color: Pixel)
  {
    forall k :: 0 <= k < |ws| ==>
      ws[k].Blended? && ws[k].passed && ws[k].color.RGBA?
      && ws[k].color.r == color.r && ws[k].color.g == color.g && ws[k].color.b == color.b
      && 0.0 <= ws[k].color.a <= 1.0
  }

  /** The image the rasteriser draws into, with the trace of the writes the
      rasteriser issues. */
  class Target {
    const img: FImage
    const blend: Blender
    ghost var trace: seq<Write>

    ghost predicate Valid()
      reads img
    {
      img.Addressable()
    }

    constructor (img: FImage, blend: Blender)
      requires img.Addressable()
      ensures Valid() && this.img == img && this.blend == blend && trace == []
    {
      this.img := img;
      this.blend := blend;
      trace := [];
    }

    /** `FImage::set_pixel`, which panics unless `p` has the image's format. */
    method SetPixel(x: int, y: int, p: Pixel)
      requires Valid() && Fits(p, img.alpha)
      modifies this, img.pixels
      ensures trace == old(trace) + [Plain(x, y, p, true)]
      ensures img.pixels[..] == Apply(old(img.pixels[..]), img.width, img.height, img.alpha, blend, Plain(x, y, p, true))
    {
      img.SetPixel(x, y, p);
      trace := trace + [Plain(x, y, p, true)];
    }

    /** `FImage::set_pixel_blended`: the pixel at `(x, y)` becomes the
        composite of what it held and `p`. */
    method SetPixelBlended(x: int, y: int, p: Pixel)
      requires Valid()
      modifies this, img.pixels
      ensures trace == old(trace) + [Blended(x, y, p, true)]
      ensures img.pixels[..] == Apply(old(img.pixels[..]), img.width, img.height, img.alpha, blend, Blended(x, y, p, true))
    {
      var dst := img.GetPixel(x, y);
      img.SetPixel(x, y, Composite(blend, dst, p));
      trace := trace + [Blended(x, y, p, true)];
    }
  }

  // ---------------------------------------------------------------------
  // Octant mirroring

  function Pow(b: int, e: nat): int
  {
    if e == 0 then 1 else b * Pow(b, e - 1)
  }

  /** The eight offsets `draw_points` plots for `(i, j)`: every sign of the
      pair and of its swap, in the order of the loop. */
  function Mirrors(i: int, j: int): (m: seq<(int, int)>)
    ensures |m| == 8
  {
    [(i, j), (j, i), (-i, j), (j, -i), (i, -j), (-j, i), (-i, -j), (-j, -i)]
  }

  /** The eight offsets are exactly the points whose coordinates have the
      magnitudes of `(i, j)` or of `(j, i)`. */
  lemma MirrorsAreOctants(i: int, j: int, dx: int, dy: int)
    ensures (dx, dy) in Mirrors(i, j) <==>
      (Abs(dx) == Abs(i) && Abs(dy) == Abs(j)) || (Abs(dx) == Abs(j) && Abs(dy) == Abs(i))
  {
  }

  /** Blended writes of `color` at `(x, y)` shifted by each offset in turn. */
  function Blends(x: int, y: int, offsets: seq<(int, int)>, color: Pixel): (ws: seq<Write>)
    ensures |ws| == |offsets|
  {
    seq(|offsets|, k requires 0 <= k < |offsets| => Blended(x + offsets[k].0, y + offsets[k].1, color, true))
  }

  lemma BlendsSnoc(x: int, y: int, offsets: seq<(int, int)>, n: nat, color: Pixel)
    requires n < |offsets|
    ensures Blends(x, y, offsets[..n + 1], color)
         == Blends(x, y, offsets[..n], color) + [Blended(x + offsets[n].0, y + offsets[n].1, color, true)]
  {
    assert offsets[..n + 1][n] == offsets[n];
  }

  /** The first loop of `draw_points`: for k in 0..4 the signs
      `((-1)^(k % 2), (-1)^(k / 2))`, each offset followed by its swap. */
  method OctantCoords(i: int, j: int) returns (coords: seq<(int, int)>)
    ensures coords == Mirrors(i, j)
  {
    coords := [];
    for k := 0 to 4
      invariant coords == Mirrors(i, j)[..2 * k]
    {
      var mx := Pow(-1, k % 2);
      var my := Pow(-1, k / 2);
      assert Pow(-1, 0) == 1 && Pow(-1, 1) == -1;
      assert k == 0 || k == 1 || k == 2 || k == 3;
      var p := (i * mx, j * my);
      coords := coords + [p];
      coords := coords + [(p.1, p.0)];
    }
  }

  /** `draw_points`: eight blended writes around `(x, y)`, no clipping. */
  method DrawPoints(x: int, y: int, i: int, j: int, color: Pixel, t: Target)
    requires t.Valid()
    modifies t, t.img.pixels
    ensures t.trace == old(t.trace) + Blends(x, y, Mirrors(i, j), color)
    ensures t.img.pixels[..] == Paint(old(t.img.pixels[..]), t.img.width, t.img.height, t.img.alpha, t.blend,
                                      Blends(x, y, Mirrors(i, j), color))
  {
    ghost var w, h, alpha := t.img.width, t.img.height, t.img.alpha;
    ghost var s0 := t.img.pixels[..];
    var coords := OctantCoords(i, j);
    for n := 0 to |coords|
      invariant t.trace == old(t.trace) + Blends(x, y, coords[..n], color)
      invariant t.img.pixels[..] == Paint(s0, w, h, alpha, t.blend, Blends(x, y, coords[..n], color))
    {
      ghost var done := Blends(x, y, coords[..n], color);
      BlendNext(x + coords[n].0, y + coords[n].1, color, t, s0, old(t.trace), done);
      BlendsSnoc(x, y, coords, n, color);
    }
    assert coords[..|coords|] == coords;
  }

  /** One blended write of `draw_points`, extending the writes `done`
      already recorded since `(tr0, s0)`. */
  method BlendNext(x: int, y: int, color: Pixel, t: Target, ghost s0: seq<real>, ghost tr0: seq<Write>, ghost done: seq<Write>)
    requires t.Valid() && |s0| == t.img.pixels.Length
    requires t.trace == tr0 + done && t.img.pixels[..] == Paint(s0, t.img.width, t.img.height, t.img.alpha, t.blend, done)
    modifies t, t.img.pixels
    ensures t.trace == tr0 + (done + [Blended(x, y, color, true)])
    ensures t.img.pixels[..] == Paint(s0, t.img.width, t.img.height, t.img.alpha, t.blend, done + [Blended(x, y, color, true)])
  {
    t.SetPixelBlended(x, y, color);
    PaintSnoc(s0, t.img.width, t.img.height, t.img.alpha, t.blend, done, Blended(x, y, color, true));
  }

  // ---------------------------------------------------------------------
  // draw_circle

  function Floor(v: real): int { v.Floor }
  function Ceil(v: real): int { -((-v).Floor) }

  /** An unsigned byte, `u8`. */
  newtype u8 = d: int | 0 <= d < 256

  /** The coverage byte `d` of column `j`: `255 * (ceil(root) - root)`
      rounded, where `root` is the root of `radius² - j²`; below zero the
      `f32` root is NaN, which `as u8` turns into 0. A column past the
      radius, or one whose root is whole, has coverage 0. */
  function RingByte(sqrt: nat -> real, radius: int, j: int): (d: u8)
    ensures radius * radius - j * j < 0 ==> d == 0
    ensures var n := radius * radius - j * j; n >= 0 && sqrt(n) == Floor(sqrt(n)) as real ==> d == 0
  {
    var n := radius * radius - j * j;
    if n < 0 then 0
    else
      var root := sqrt(n);
      var v := Floor(255.0 * (Ceil(root) as real - root) + 0.5);
      assert 0 <= v <= 255;
      assert root == Floor(root) as real ==> v == 0 by {
        if root == Floor(root) as real {
          assert -root == (-Floor(root)) as real;
          assert Ceil(root) == Floor(root);
        }
      }
      v as u8
  }

  /** `!d` on a `u8`: the bitwise complement, which is `255 - d`
      (`ComplementOfBits`). */
  function Not(d: u8): u8
  {
    255 - d
  }

  /** Complementing the eight bits of a byte subtracts it from 255. */
  lemma ComplementOfBits(b: bv8)
    ensures (!b) as int == 255 - b as int
  {
  }

  /** The two ring alphas `!d / 255` and `d / 255`: each in [0, 1], and they
      sum to 1. */
  function RingAlphas(d: u8): (a: (real, real))
    ensures 0.0 <= a.0 <= 1.0 && 0.0 <= a.1 <= 1.0
    ensures a.0 + a.1 == 1.0
  {
    (Not(d) as int as real / 255.0, d as int as real / 255.0)
  }

  /** The coverage bytes of the ring of `radius`, column by column. */
  function Ring(sqrt: nat -> real, radius: int): int -> u8
  {
    j => RingByte(sqrt, radius, j)
  }

  /** The row `i` the scan loop draws after state `(i, j, t)`: one row
      nearer the centre when the coverage byte of the next column drops
      below `t`. */
  function NextRow(ring: int -> u8, i: int, j: int, t: u8): int
  {
    if ring(j + 1) < t then i - 1 else i
  }

  /** The writes of one turn of the scan loop from state `(i, j, t)`: the
      points of the next column at row `i'` with alpha `!d / 255`, then at
      row `i' - 1` with alpha `d / 255`. */
  function Turn(x: int, y: int, color: Pixel, ring: int -> u8, i: int, j: int, t: u8): (ws: seq<Write>)
    ensures Tinted(ws, color)
  {
    var j' := j + 1;
    var d := ring(j');
    var i' := NextRow(ring, i, j, t);
    var alphas := RingAlphas(d);
    var inner := Blends(x, y, Mirrors(i', j'), WithAlpha(color, alphas.0));
    var outer := Blends(x, y, Mirrors(i' - 1, j'), WithAlpha(color, alphas.1));
    assert Tinted(inner, color) && Tinted(outer, color);
    inner + outer
  }

  /** The blended writes of the scan loop, from state `(i, j, t)` on, where
      `ring` gives the coverage byte of each column. Every one is an
      unguarded blended write of `color` with an alpha in [0, 1]. */
  function Scan(x: int, y: int, color: Pixel, ring: int -> u8, i: int, j: int, t: u8): (ws: seq<Write>)
    ensures Tinted(ws, color)
    decreases i - j
  {
    if i < j then []
    else
      var turn := Turn(x, y, color, ring, i, j, t);
      var rest := Scan(x, y, color, ring, NextRow(ring, i, j, t), j + 1, ring(j + 1));
      assert Tinted(turn, color) && Tinted(rest, color);
      turn + rest
  }

  /** The closing writes of `draw_circle` on the four axis points. */
  function Axes(x: int, y: int, radius: int, color: Pixel): seq<Write>
  {
    [Plain(x + radius, y, color, true), Plain(x - radius, y, color, true),
     Plain(x, y + radius, color, true), Plain(x, y - radius, color, true)]
  }

  /** Every write of `draw_circle`; `wrap` plays no part in it. */
  function CircleWrites(x: int, y: int, radius: int, color: Pixel, sqrt: nat -> real): seq<Write>
  {
    Scan(x, y, color, Ring(sqrt, radius), radius, 0, 0) + Axes(x, y, radius, color)
  }

  /** `draw_circle`: the antialiased ring of blended writes, then the four
      axis pixels set to `color`. Its writes bypass the clipping guard, so
      the result does not depend on `wrap`; the axis pixels read `color`
      afterwards (`AxesShown`). The Rust code panics unless `color` has the
      image's format. */
  method DrawCircle(x: int, y: int, radius: int, color: Pixel, wrap: bool, t: Target, sqrt: nat -> real)
    requires t.Valid() && Fits(color, t.img.alpha)
    modifies t, t.img.pixels
    ensures t.trace == old(t.trace) + CircleWrites(x, y, radius, color, sqrt)
    ensures t.img.pixels[..] == Paint(old(t.img.pixels[..]), t.img.width, t.img.height, t.img.alpha, t.blend,
                                      CircleWrites(x, y, radius, color, sqrt))
  {
    ghost var w, h, alpha := t.img.width, t.img.height, t.img.alpha;
    ghost var s0 := t.img.pixels[..];
    DrawRing(x, y, radius, color, t, sqrt);
    SetAxes(x, y, radius, color, t);
    PaintAppend(s0, w, h, alpha, t.blend, Scan(x, y, color, Ring(sqrt, radius), radius, 0, 0), Axes(x, y, radius, color));
  }

  /** Painted into the image: a pixel a plain write of `ws` settles reads
      that write's colour. */
  lemma PixelShown(t: Target, s: seq<real>, ws: seq<Write>, k: nat, px: int, py: int, c: Pixel)
    requires t.Valid() && |s| == t.img.pixels.Length
    requires Fits(c, t.img.alpha) && Settles(t.img.width, t.img.height, ws, k, px, py, c)
    requires t.img.pixels[..] == Paint(s, t.img.width, t.img.height, t.img.alpha, t.blend, ws)
    ensures t.img.GetPixel(px, py) == c
  {
    LastColourSeen(s, t.img.width, t.img.height, t.img.alpha, t.blend, ws, k, px, py, c);
  }

  /** After `draw_circle`, each of the four axis pixels reads `color`,
      whatever the ring blended onto them, since the axis writes come last. */
  lemma AxesShown(t: Target, s: seq<real>, x: int, y: int, radius: int, color: Pixel, sqrt: nat -> real, px: int, py: int)
    requires t.Valid() && Fits(color, t.img.alpha) && |s| == t.img.pixels.Length
    requires t.img.pixels[..] == Paint(s, t.img.width, t.img.height, t.img.alpha, t.blend, CircleWrites(x, y, radius, color, sqrt))
    requires (px, py) in [(x + radius, y), (x - radius, y), (x, y + radius), (x, y - radius)]
    ensures t.img.GetPixel(px, py) == color
  {
    var w, h, alpha := t.img.width, t.img.height, t.img.alpha;
    var ring := Scan(x, y, color, Ring(sqrt, radius), radius, 0, 0);
    var ws := Axes(x, y, radius, color);
    PaintAppend(s, w, h, alpha, t.blend, ring, ws);
    var k := if (px, py) == (x + radius, y) then 0 else if (px, py) == (x - radius, y) then 1
             else if (px, py) == (x, y + radius) then 2 else 3;
    assert ws[k] == Plain(px, py, color, true);
    assert Settles(w, h, ws, k, px, py, color);
    PixelShown(t, Paint(s, w, h, alpha, t.blend, ring), ws, k, px, py, color);
  }

  /** The scan loop of `draw_circle`. */
  method DrawRing(x: int, y: int, radius: int, color: Pixel, t: Target, sqrt: nat -> real)
    requires t.Valid()
    modifies t, t.img.pixels
    ensures t.trace == old(t.trace) + Scan(x, y, color, Ring(sqrt, radius), radius, 0, 0)
    ensures t.img.pixels[..] == Paint(old(t.img.pixels[..]), t.img.width, t.img.height, t.img.alpha, t.blend,
                                      Scan(x, y, color, Ring(sqrt, radius), radius, 0, 0))
  {
    ghost var w, h, alpha := t.img.width, t.img.height, t.img.alpha;
    ghost var s0 := t.img.pixels[..];
    var ring := Ring(sqrt, radius);
    var i := radius;
    var j := 0;
    var tPrev: u8 := 0;
    ghost var done: seq<Write> := [];
    while i >= j
      invariant t.trace == old(t.trace) + done
      invariant t.img.pixels[..] == Paint(s0, w, h, alpha, t.blend, done)
      invariant done + Scan(x, y, color, ring, i, j, tPrev) == Scan(x, y, color, ring, radius, 0, 0)
      decreases i - j
    {
      ghost var turn := Turn(x, y, color, ring, i, j, tPrev);
      ghost var tr, pix := t.trace, t.img.pixels[..];
      ghost var rest := Scan(x, y, color, ring, i, j, tPrev);
      i, j, tPrev := ScanTurn(x, y, color, t, ring, i, j, tPrev);
      Extend(s0, w, h, alpha, t.blend, old(t.trace), done, turn, tr, pix, t.trace, t.img.pixels[..]);
      Regroup(done, turn, Scan(x, y, color, ring, i, j, tPrev), rest);
      done := done + turn;
    }
    assert done + [] == done;
  }

  lemma Regroup<T>(done: seq<T>, turn: seq<T>, rest: seq<T>, whole: seq<T>)
    requires whole == turn + rest
    ensures done + whole == (done + turn) + rest
  {
  }

  /** One turn of the scan loop from state `(i, j, tPrev)`: it issues the
      writes of `Turn` and moves to the next state, where the rest of `Scan`
      begins. */
  method ScanTurn(x: int, y: int, color: Pixel, t: Target, ring: int -> u8,
                  i: int, j: int, tPrev: u8) returns (i': int, j': int, d: u8)
    requires i >= j && t.Valid()
    modifies t, t.img.pixels
    ensures t.trace == old(t.trace) + Turn(x, y, color, ring, i, j, tPrev)
    ensures t.img.pixels[..] == Paint(old(t.img.pixels[..]), t.img.width, t.img.height, t.img.alpha, t.blend,
                                      Turn(x, y, color, ring, i, j, tPrev))
    ensures Scan(x, y, color, ring, i, j, tPrev) == Turn(x, y, color, ring, i, j, tPrev) + Scan(x, y, color, ring, i', j', d)
    ensures i' - j' < i - j
  {
    j' := j + 1;
    d := ring(j');
    i' := i;
    if d < tPrev {
      i' := i - 1;
    }
    var alphas := RingAlphas(d);
    DrawPair(x, y, i', j', WithAlpha(color, alphas.0), WithAlpha(color, alphas.1), t);
    assert i' == NextRow(ring, i, j, tPrev);
    ScanUnfolds(x, y, color, ring, i, j, tPrev);
  }

  /** A scan from a state with `i >= j` is its first turn followed by the
      scan from the next state. */
  lemma ScanUnfolds(x: int, y: int, color: Pixel, ring: int -> u8, i: int, j: int, t: u8)
    requires i >= j
    ensures Scan(x, y, color, ring, i, j, t)
         == Turn(x, y, color, ring, i, j, t) + Scan(x, y, color, ring, NextRow(ring, i, j, t), j + 1, ring(j + 1))
  {
  }

  /** The two `draw_points` calls of one turn: the points of `(i, j)` in
      `inner`, then those of `(i - 1, j)` in `outer`. */
  method DrawPair(x: int, y: int, i: int, j: int, inner: Pixel, outer: Pixel, t: Target)
    requires t.Valid()
    modifies t, t.img.pixels
    ensures t.trace == old(t.trace) + (Blends(x, y, Mirrors(i, j), inner) + Blends(x, y, Mirrors(i - 1, j), outer))
    ensures t.img.pixels[..] == Paint(old(t.img.pixels[..]), t.img.width, t.img.height, t.img.alpha, t.blend,
                                      Blends(x, y, Mirrors(i, j), inner) + Blends(x, y, Mirrors(i - 1, j), outer))
  {
    ghost var w, h, alpha := t.img.width, t.img.height, t.img.alpha;
    ghost var s0 := t.img.pixels[..];
    DrawPoints(x, y, i, j, inner, t);
    ghost var tr, pix := t.trace, t.img.pixels[..];
    DrawPoints(x, y, i - 1, j, outer, t);
    Extend(s0, w, h, alpha, t.blend, old(t.trace), Blends(x, y, Mirrors(i, j), inner), Blends(x, y, Mirrors(i - 1, j), outer),
           tr, pix, t.trace, t.img.pixels[..]);
  }

  /** The closing writes of `draw_circle`: the four axis pixels. */
  method SetAxes(x: int, y: int, radius: int, color: Pixel, t: Target)
    requires t.Valid() && Fits(color, t.img.alpha)
    modifies t, t.img.pixels
    ensures t.trace == old(t.trace) + Axes(x, y, radius, color)
    ensures t.img.pixels[..] == Paint(old(t.img.pixels[..]), t.img.width, t.img.height, t.img.alpha, t.blend, Axes(x, y, radius, color))
  {
    ghost var w, h, alpha := t.img.width, t.img.height, t.img.alpha;
    ghost var s0 := t.img.pixels[..];
    SetPair(x + radius, y, x - radius, y, color, t);
    SetPair(x, y + radius, x, y - radius, color, t);
    PaintFour(s0, w, h, alpha, t.blend, Plain(x + radius, y, color, true), Plain(x - radius, y, color, true),
              Plain(x, y + radius, color, true), Plain(x, y - radius, color, true));
  }

  /** Two plain writes in a row. */
  method SetPair(x0: int, y0: int, x1: int, y1: int, color: Pixel, t: Target)
    requires t.Valid() && Fits(color, t.img.alpha)
    modifies t, t.img.pixels
    ensures t.trace == old(t.trace) + [Plain(x0, y0, color, true), Plain(x1, y1, color, true)]
    ensures t.img.pixels[..] == Apply(Apply(old(t.img.pixels[..]), t.img.width, t.img.height, t.img.alpha, t.blend,
                                            Plain(x0, y0, color, true)),
                                      t.img.width, t.img.height, t.img.alpha, t.blend, Plain(x1, y1, color, true))
  {
    t.SetPixel(x0, y0, color);
    t.SetPixel(x1, y1, color);
  }

  /** Painting four plain writes applies them in order. */
  lemma PaintFour(s: seq<real>, width: nat, height: nat, alpha: bool, blend: Blender, a: Write, b: Write, c: Write, d: Write)
    requires width > 0 && height > 0 && |s| == width * height * Channels(alpha)
    ensures
      var s1 := Apply(s, width, height, alpha, blend, a);
      var s2 := Apply(s1, width, height, alpha, blend, b);
      var s3 := Apply(s2, width, height, alpha, blend, c);
      Paint(s, width, height, alpha, blend, [a, b, c, d]) == Apply(s3, width, height, alpha, blend, d)
  {
    assert [] + [a] == [a] && [a] + [b] == [a, b] && [a, b] + [c] == [a, b, c] && [a, b, c] + [d] == [a, b, c, d];
    PaintSnoc(s, width, height, alpha, blend, [], a);
    PaintSnoc(s, width, height, alpha, blend, [a], b);
    PaintSnoc(s, width, height, alpha, blend, [a, b], c);
    PaintSnoc(s, width, height, alpha, blend, [a, b, c], d);
  }

  // ---------------------------------------------------------------------
  // The clipping guard

  /** The guard of the module's `set_pixel`/`set_pixel_blended`: with `wrap`
      every write goes through (and `FImage` wraps it onto the canvas);
      without it only writes on the canvas do. */
  predicate Passes(wrap: bool, width: nat, height: nat, x: int, y: int)
  {
    wrap || (0 <= x < width && 0 <= y < height)
  }

  /** Without `wrap`, a write the guard lets through lands on the pixel its
      coordinates name, untouched by the image's wrap-around, and no other
      such write shares that pixel. */
  lemma PassedUnwrapped(width: nat, height: nat, x1: int, y1: int, x2: int, y2: int)
    requires width > 0 && height > 0
    requires Passes(false, width, height, x1, y1) && Passes(false, width, height, x2, y2)
    ensures Slot(width, height, x1, y1) == x1 + y1 * width
    ensures Slot(width, height, x1, y1) == Slot(width, height, x2, y2) <==> x1 == x2 && y1 == y2
  {
    WrapOnCanvas(x1, width);
    WrapOnCanvas(y1, height);
    if Slot(width, height, x1, y1) == Slot(width, height, x2, y2) {
      SlotInjective(width, height, x1, y1, x2, y2);
    }
  }

  /** A plain write of `color` through the guard: recorded with the
      guard's verdict, and stored only when it passes. */
  method SetPixel(x: int, y: int, color: Pixel, wrap: bool, t: Target)
    requires t.Valid() && Fits(color, t.img.alpha)
    modifies t, t.img.pixels
    ensures t.trace == old(t.trace) + [Plain(x, y, color, Passes(wrap, t.img.width, t.img.height, x, y))]
    ensures t.img.pixels[..] == Apply(old(t.img.pixels[..]), t.img.width, t.img.height, t.img.alpha, t.blend,
                                      Plain(x, y, color, Passes(wrap, t.img.width, t.img.height, x, y)))
  {
    if wrap || (x >= 0 && x < t.img.width && y >= 0 && y < t.img.height) {
      t.SetPixel(x, y, color);
    } else {
      t.trace := t.trace + [Plain(x, y, color, false)];
    }
  }

  /** A blended write through the guard: recorded with the guard's
      verdict, and composited only when it passes. */
  method SetPixelBlended(x: int, y: int, color: Pixel, wrap: bool, t: Target)
    requires t.Valid()
    modifies t, t.img.pixels
    ensures t.trace == old(t.trace) + [Blended(x, y, color, Passes(wrap, t.img.width, t.img.height, x, y))]
    ensures t.img.pixels[..] == Apply(old(t.img.pixels[..]), t.img.width, t.img.height, t.img.alpha, t.blend,
                                      Blended(x, y, color, Passes(wrap, t.img.width, t.img.height, x, y)))
  {
    if wrap || (x >= 0 && x < t.img.width && y >= 0 && y < t.img.height) {
      t.SetPixelBlended(x, y, color);
    } else {
      t.trace := t.trace + [Blended(x, y, color, false)];
    }
  }

  /** Painting two stretches of writes one after the other. */
  lemma {:induction false} PaintAppend(s: seq<real>, width: nat, height: nat, alpha: bool, blend: Blender, p: seq<Write>, q: seq<Write>)
    requires width > 0 && height > 0 && |s| == width * height * Channels(alpha)
    ensures Paint(s, width, height, alpha, blend, p + q)
         == Paint(Paint(s, width, height, alpha, blend, p), width, height, alpha, blend, q)
    decreases |q|
  {
    assert forall k :: 0 <= k < |p + q| ==> (p + q)[k] == if k < |p| then p[k] else q[k - |p|];
    if q == [] {
      assert p + q == p;
    } else {
      var q', w := q[..|q| - 1], q[|q| - 1];
      assert q == q' + [w];
      assert p + q == (p + q') + [w];
      PaintAppend(s, width, height, alpha, blend, p, q');
      PaintSnoc(s, width, height, alpha, blend, p + q', w);
      PaintSnoc(Paint(s, width, height, alpha, blend, p), width, height, alpha, blend, q', w);
    }
  }

  /** A trace and samples that record `done` from `(tr0, s0)`, followed by
      the writes `more`, record `done + more`. */
  lemma Extend(s0: seq<real>, width: nat, height: nat, alpha: bool, blend: Blender, tr0: seq<Write>, done: seq<Write>, more: seq<Write>,
               tr: seq<Write>, pix: seq<real>, tr': seq<Write>, pix': seq<real>)
    requires width > 0 && height > 0 && |s0| == width * height * Channels(alpha)
    requires tr == tr0 + done && pix == Paint(s0, width, height, alpha, blend, done)
    requires tr' == tr + more && pix' == Paint(pix, width, height, alpha, blend, more)
    ensures tr' == tr0 + (done + more) && pix' == Paint(s0, width, height, alpha, blend, done + more)
  {
    PaintAppend(s0, width, height, alpha, blend, done, more);
    assert tr0 + done + more == tr0 + (done + more);
  }

  // ---------------------------------------------------------------------
  // fill_circle

  /** The four plain writes of `fill_circle` for cell `(i, j)`, at
      `(x ± i, y ± j)` in the order of the Rust code, each with the guard's
      verdict. */
  function PlainQuad(x: int, y: int, i: int, j: int, color: Pixel, wrap: bool, width: nat, height: nat): (ws: seq<Write>)
    ensures |ws| == 4
  {
    [Plain(x + i, y + j, color, Passes(wrap, width, height, x + i, y + j)),
     Plain(x - i, y + j, color, Passes(wrap, width, height, x - i, y + j)),
     Plain(x + i, y - j, color, Passes(wrap, width, height, x + i, y - j)),
     Plain(x - i, y - j, color, Passes(wrap, width, height, x - i, y - j))]
  }

  /** The four blended writes of the rim cell `(i, j)`. */
  function BlendQuad(x: int, y: int, i: int, j: int, color: Pixel, wrap: bool, width: nat, height: nat): (ws: seq<Write>)
    ensures |ws| == 4
  {
    [Blended(x + i, y + j, color, Passes(wrap, width, height, x + i, y + j)),
     Blended(x - i, y + j, color, Passes(wrap, width, height, x - i, y + j)),
     Blended(x + i, y - j, color, Passes(wrap, width, height, x + i, y - j)),
     Blended(x - i, y - j, color, Passes(wrap, width, height, x - i, y - j))]
  }

  /** The gap `sqrt(i*i + j*j) - radius` between the root and the radius. */
  function Diff(sqrt: nat -> real, radius: int, i: nat, j: nat): real
  {
    sqrt(i * i + j * j) - radius as real
  }

  /** The writes of cell `(i, j)`: inside the circle four plain writes of
      `color`; on the rim four blended writes whose alpha is `1 - diff`;
      beyond it none. */
  function Cell(x: int, y: int, radius: int, color: Pixel, wrap: bool, width: nat, height: nat,
                sqrt: nat -> real, i: nat, j: nat): (ws: seq<Write>)
    ensures Coloured(ws, color)
  {
    var diff := Diff(sqrt, radius, i, j);
    if diff < 0.0 then PlainQuad(x, y, i, j, color, wrap, width, height)
    else if diff < 1.0 then BlendQuad(x, y, i, j, WithAlpha(color, 1.0 - diff), wrap, width, height)
    else []
  }

  /** The writes of row `i`, cells `j` in `[0, n)`. */
  function RowWrites(x: int, y: int, radius: int, color: Pixel, wrap: bool, width: nat, height: nat,
                     sqrt: nat -> real, i: nat, n: nat): (ws: seq<Write>)
    ensures Coloured(ws, color)
  {
    if n == 0 then []
    else RowWrites(x, y, radius, color, wrap, width, height, sqrt, i, n - 1)
         + Cell(x, y, radius, color, wrap, width, height, sqrt, i, n - 1)
  }

  /** The writes of rows `i` in `[0, m)`, each of `n` cells. */
  function DiscWrites(x: int, y: int, radius: int, color: Pixel, wrap: bool, width: nat, height: nat,
                      sqrt: nat -> real, m: nat, n: nat): (ws: seq<Write>)
    ensures Coloured(ws, color)
  {
    if m == 0 then []
    else DiscWrites(x, y, radius, color, wrap, width, height, sqrt, m - 1, n)
         + RowWrites(x, y, radius, color, wrap, width, height, sqrt, m - 1, n)
  }

  /** Every write of `fill_circle`; a negative radius writes nothing. */
  function FillWrites(x: int, y: int, radius: int, color: Pixel, wrap: bool, width: nat, height: nat,
                      sqrt: nat -> real): (ws: seq<Write>)
    ensures Coloured(ws, color)
  {
    if radius < 0 then []
    else DiscWrites(x, y, radius, color, wrap, width, height, sqrt, radius + 1, radius + 1)
  }

  /** The writes of cell `(i, j)`, one by one: they sit at `(x ± i, y ± j)`
      with the guard's verdict; inside the circle they are plain writes of
      `color`, on the rim blended writes whose alpha is `1 - diff`. */
  lemma CellMembers(x: int, y: int, radius: int, color: Pixel, wrap: bool, width: nat, height: nat,
                    sqrt: nat -> real, i: nat, j: nat, w: Write)
    ensures w in Cell(x, y, radius, color, wrap, width, height, sqrt, i, j) <==>
      (w.x == x + i || w.x == x - i) && (w.y == y + j || w.y == y - j)
      && w.passed == Passes(wrap, width, height, w.x, w.y)
      && ((Diff(sqrt, radius, i, j) < 0.0 && w.Plain? && w.color == color)
          || (0.0 <= Diff(sqrt, radius, i, j) < 1.0 && w.Blended?
              && w.color == WithAlpha(color, 1.0 - Diff(sqrt, radius, i, j))))
  {
    var diff := Diff(sqrt, radius, i, j);
    if diff < 0.0 {
      var q := PlainQuad(x, y, i, j, color, wrap, width, height);
      assert w in q <==> w == q[0] || w == q[1] || w == q[2] || w == q[3];
    } else if diff < 1.0 {
      var q := BlendQuad(x, y, i, j, WithAlpha(color, 1.0 - diff), wrap, width, height);
      assert w in q <==> w == q[0] || w == q[1] || w == q[2] || w == q[3];
    }
  }

  /** A write of cell `(i, j)` with `j < n` is a write of row `i`. */
  lemma {:induction false} CellInRow(x: int, y: int, radius: int, color: Pixel, wrap: bool, width: nat, height: nat,
                                     sqrt: nat -> real, i: nat, j: nat, n: nat, w: Write)
    requires j < n && w in Cell(x, y, radius, color, wrap, width, height, sqrt, i, j)
    ensures w in RowWrites(x, y, radius, color, wrap, width, height, sqrt, i, n)
  {
    if j < n - 1 {
      CellInRow(x, y, radius, color, wrap, width, height, sqrt, i, j, n - 1, w);
    }
  }

  /** A write of row `i` comes from one of its cells `j < n`. */
  lemma {:induction false} RowInCell(x: int, y: int, radius: int, color: Pixel, wrap: bool, width: nat, height: nat,
                                     sqrt: nat -> real, i: nat, n: nat, w: Write)
    requires w in RowWrites(x, y, radius, color, wrap, width, height, sqrt, i, n)
    ensures exists j :: 0 <= j < n && w in Cell(x, y, radius, color, wrap, width, height, sqrt, i, j)
  {
    var cell := Cell(x, y, radius, color, wrap, width, height, sqrt, i, n - 1);
    assert w in RowWrites(x, y, radius, color, wrap, width, height, sqrt, i, n - 1) + cell;
    if w !in cell {
      RowInCell(x, y, radius, color, wrap, width, height, sqrt, i, n - 1, w);
      var j :| 0 <= j < n - 1 && w in Cell(x, y, radius, color, wrap, width, height, sqrt, i, j);
      assert 0 <= j < n;
    }
  }

  /** A write of cell `(i, j)` with `i < m` and `j < n` is a write of the
      rows `i < m`. */
  lemma {:induction false} CellInDisc(x: int, y: int, radius: int, color: Pixel, wrap: bool, width: nat, height: nat,
                                      sqrt: nat -> real, i: nat, j: nat, m: nat, n: nat, w: Write)
    requires i < m && j < n && w in Cell(x, y, radius, color, wrap, width, height, sqrt, i, j)
    ensures w in DiscWrites(x, y, radius, color, wrap, width, height, sqrt, m, n)
  {
    var before := DiscWrites(x, y, radius, color, wrap, width, height, sqrt, m - 1, n);
    var row := RowWrites(x, y, radius, color, wrap, width, height, sqrt, m - 1, n);
    assert DiscWrites(x, y, radius, color, wrap, width, height, sqrt, m, n) == before + row;
    if i < m - 1 {
      CellInDisc(x, y, radius, color, wrap, width, height, sqrt, i, j, m - 1, n, w);
      assert w in before;
    } else {
      CellInRow(x, y, radius, color, wrap, width, height, sqrt, i, j, n, w);
      assert w in row;
    }
  }

  /** A write of the rows `i < m` comes from one of their cells. */
  lemma {:induction false} DiscInCell(x: int, y: int, radius: int, color: Pixel, wrap: bool, width: nat, height: nat,
                                      sqrt: nat -> real, m: nat, n: nat, w: Write)
    requires w in DiscWrites(x, y, radius, color, wrap, width, height, sqrt, m, n)
    ensures exists i, j :: 0 <= i < m && 0 <= j < n && w in Cell(x, y, radius, color, wrap, width, height, sqrt, i, j)
  {
    var before := DiscWrites(x, y, radius, color, wrap, width, height, sqrt, m - 1, n);
    var row := RowWrites(x, y, radius, color, wrap, width, height, sqrt, m - 1, n);
    assert w in before + row;
    if w in row {
      RowInCell(x, y, radius, color, wrap, width, height, sqrt, m - 1, n, w);
      var j :| 0 <= j < n && w in Cell(x, y, radius, color, wrap, width, height, sqrt, m - 1, j);
      assert 0 <= m - 1 < m;
    } else {
      DiscInCell(x, y, radius, color, wrap, width, height, sqrt, m - 1, n, w);
      var i, j :| 0 <= i < m - 1 && 0 <= j < n && w in Cell(x, y, radius, color, wrap, width, height, sqrt, i, j);
      assert 0 <= i < m;
    }
  }

  /** The offsets `±i` are the numbers whose magnitude is `i`. */
  lemma SignedOffset(d: int, i: nat)
    ensures d == i || d + i == 0 <==> Abs(d) == i
    ensures Abs(d) * Abs(d) == d * d
  {
  }

  /** The squared length of the offset `(dx, dy)`. */
  function Norm2(dx: int, dy: int): nat
  {
    dx * dx + dy * dy
  }

  /** Each write of a cell with `i` and `j` in `[0, radius]` is a write of
      `fill_circle`. */
  lemma CellInFill(x: int, y: int, radius: int, color: Pixel, wrap: bool, width: nat, height: nat,
                   sqrt: nat -> real, i: nat, j: nat, w: Write)
    requires i <= radius && j <= radius
    requires w in Cell(x, y, radius, color, wrap, width, height, sqrt, i, j)
    ensures w in FillWrites(x, y, radius, color, wrap, width, height, sqrt)
  {
    CellInDisc(x, y, radius, color, wrap, width, height, sqrt, i, j, radius + 1, radius + 1, w);
  }

  /** Each write of `fill_circle` comes from a cell with `i` and `j` in
      `[0, radius]`. */
  lemma FillInCell(x: int, y: int, radius: int, color: Pixel, wrap: bool, width: nat, height: nat,
                   sqrt: nat -> real, w: Write)
    requires w in FillWrites(x, y, radius, color, wrap, width, height, sqrt)
    ensures radius >= 0
    ensures exists i, j :: 0 <= i <= radius && 0 <= j <= radius
                        && w in Cell(x, y, radius, color, wrap, width, height, sqrt, i, j)
  {
    DiscInCell(x, y, radius, color, wrap, width, height, sqrt, radius + 1, radius + 1, w);
  }

  /** A write of cell `(i, j)` sits at distance `(i, j)` from the centre. */
  lemma CellOffsets(x: int, y: int, radius: int, color: Pixel, wrap: bool, width: nat, height: nat,
                    sqrt: nat -> real, i: nat, j: nat, w: Write)
    requires w in Cell(x, y, radius, color, wrap, width, height, sqrt, i, j)
    ensures Abs(w.x - x) == i && Abs(w.y - y) == j
    ensures Norm2(w.x - x, w.y - y) == i * i + j * j
    ensures w.passed == Passes(wrap, width, height, w.x, w.y)
  {
    CellMembers(x, y, radius, color, wrap, width, height, sqrt, i, j, w);
    SignedOffset(w.x - x, i);
    SignedOffset(w.y - y, j);
  }

  /** A coordinate within the disc of `radius` is at most `radius` away. */
  lemma WithinRadius(dx: int, dy: int, r: nat)
    requires Norm2(dx, dy) < (r + 1) * (r + 1)
    ensures Abs(dx) <= r && Abs(dy) <= r
  {
    SignedOffset(dx, Abs(dx));
    SignedOffset(dy, Abs(dy));
    SquareMonotone(Abs(dx), r + 1);
    SquareMonotone(Abs(dy), r + 1);
  }

  /** A plain write of a cell lies strictly inside the circle. */
  lemma PlainInside(x: int, y: int, radius: nat, color: Pixel, wrap: bool, width: nat, height: nat,
                    sqrt: nat -> real, i: nat, j: nat, w: Write)
    requires RootLaw(sqrt)
    requires w.Plain? && w in Cell(x, y, radius, color, wrap, width, height, sqrt, i, j)
    ensures w.color == color && w.passed == Passes(wrap, width, height, w.x, w.y)
    ensures Norm2(w.x - x, w.y - y) < radius * radius
  {
    CellMembers(x, y, radius, color, wrap, width, height, sqrt, i, j, w);
    CellOffsets(x, y, radius, color, wrap, width, height, sqrt, i, j, w);
    RootBelow(sqrt, i * i + j * j, radius);
  }

  /** A point strictly inside the circle gets a plain write from its cell. */
  lemma InsideIsPlain(x: int, y: int, radius: nat, color: Pixel, wrap: bool, width: nat, height: nat,
                      sqrt: nat -> real, px: int, py: int)
    requires RootLaw(sqrt)
    requires Norm2(px - x, py - y) < radius * radius
    ensures Abs(px - x) <= radius && Abs(py - y) <= radius
    ensures Plain(px, py, color, Passes(wrap, width, height, px, py))
         in Cell(x, y, radius, color, wrap, width, height, sqrt, Abs(px - x), Abs(py - y))
  {
    var i, j := Abs(px - x), Abs(py - y);
    SquareMonotone(radius, radius + 1);
    WithinRadius(px - x, py - y, radius);
    SignedOffset(px - x, i);
    SignedOffset(py - y, j);
    RootBelow(sqrt, i * i + j * j, radius);
    CellMembers(x, y, radius, color, wrap, width, height, sqrt, i, j,
                Plain(px, py, color, Passes(wrap, width, height, px, py)));
  }

  /** A blended write of a cell lies on the rim, with the alpha of its own
      distance. */
  lemma BlendedOnRim(x: int, y: int, radius: nat, color: Pixel, wrap: bool, width: nat, height: nat,
                     sqrt: nat -> real, i: nat, j: nat, w: Write)
    requires RootLaw(sqrt)
    requires w.Blended? && w in Cell(x, y, radius, color, wrap, width, height, sqrt, i, j)
    ensures w.passed == Passes(wrap, width, height, w.x, w.y)
    ensures radius * radius <= Norm2(w.x - x, w.y - y) < (radius + 1) * (radius + 1)
    ensures w.color == WithAlpha(color, 1.0 - Diff(sqrt, radius, Abs(w.x - x), Abs(w.y - y)))
  {
    CellMembers(x, y, radius, color, wrap, width, height, sqrt, i, j, w);
    CellOffsets(x, y, radius, color, wrap, width, height, sqrt, i, j, w);
    RootBelow(sqrt, i * i + j * j, radius);
    RootBelow(sqrt, i * i + j * j, radius + 1);
  }

  /** A point on the rim gets a blended write from its cell. */
  lemma RimIsBlended(x: int, y: int, radius: nat, color: Pixel, wrap: bool, width: nat, height: nat,
                     sqrt: nat -> real, px: int, py: int)
    requires RootLaw(sqrt)
    requires radius * radius <= Norm2(px - x, py - y) < (radius + 1) * (radius + 1)
    ensures Abs(px - x) <= radius && Abs(py - y) <= radius
    ensures Blended(px, py, WithAlpha(color, 1.0 - Diff(sqrt, radius, Abs(px - x), Abs(py - y))),
                    Passes(wrap, width, height, px, py))
         in Cell(x, y, radius, color, wrap, width, height, sqrt, Abs(px - x), Abs(py - y))
  {
    var i, j := Abs(px - x), Abs(py - y);
    WithinRadius(px - x, py - y, radius);
    SignedOffset(px - x, i);
    SignedOffset(py - y, j);
    RootBelow(sqrt, i * i + j * j, radius);
    RootBelow(sqrt, i * i + j * j, radius + 1);
    CellMembers(x, y, radius, color, wrap, width, height, sqrt, i, j,
                Blended(px, py, WithAlpha(color, 1.0 - Diff(sqrt, radius, i, j)), Passes(wrap, width, height, px, py)));
  }

  /** A plain write of `fill_circle` stores `color` strictly inside the
      circle. */
  lemma PlainFillInside(x: int, y: int, radius: int, color: Pixel, wrap: bool, width: nat, height: nat,
                        sqrt: nat -> real, w: Write)
    requires RootLaw(sqrt)
    requires w.Plain? && w in FillWrites(x, y, radius, color, wrap, width, height, sqrt)
    ensures radius >= 0 && w.color == color && w.passed == Passes(wrap, width, height, w.x, w.y)
    ensures Norm2(w.x - x, w.y - y) < radius * radius
  {
    FillInCell(x, y, radius, color, wrap, width, height, sqrt, w);
    var i, j :| 0 <= i <= radius && 0 <= j <= radius && w in Cell(x, y, radius, color, wrap, width, height, sqrt, i, j);
    PlainInside(x, y, radius, color, wrap, width, height, sqrt, i, j, w);
  }

  /** A blended write of `fill_circle` lies on the rim. */
  lemma BlendedFillOnRim(x: int, y: int, radius: int, color: Pixel, wrap: bool, width: nat, height: nat,
                         sqrt: nat -> real, w: Write)
    requires RootLaw(sqrt)
    requires w.Blended? && w in FillWrites(x, y, radius, color, wrap, width, height, sqrt)
    ensures radius >= 0 && w.passed == Passes(wrap, width, height, w.x, w.y)
    ensures radius * radius <= Norm2(w.x - x, w.y - y) < (radius + 1) * (radius + 1)
    ensures w.color == WithAlpha(color, 1.0 - Diff(sqrt, radius, Abs(w.x - x), Abs(w.y - y)))
  {
    FillInCell(x, y, radius, color, wrap, width, height, sqrt, w);
    var i, j :| 0 <= i <= radius && 0 <= j <= radius && w in Cell(x, y, radius, color, wrap, width, height, sqrt, i, j);
    BlendedOnRim(x, y, radius, color, wrap, width, height, sqrt, i, j, w);
  }

  /** The plain writes of `fill_circle` are those of `color` at the points
      strictly inside the circle, measured exactly; each carries the guard's
      verdict. */
  lemma FillPlain(x: int, y: int, radius: int, color: Pixel, wrap: bool, width: nat, height: nat,
                  sqrt: nat -> real, px: int, py: int, c: Pixel, passed: bool)
    requires RootLaw(sqrt)
    ensures Plain(px, py, c, passed) in FillWrites(x, y, radius, color, wrap, width, height, sqrt) <==>
      radius >= 0 && c == color && passed == Passes(wrap, width, height, px, py)
      && Norm2(px - x, py - y) < radius * radius
  {
    var w := Plain(px, py, c, passed);
    if w in FillWrites(x, y, radius, color, wrap, width, height, sqrt) {
      PlainFillInside(x, y, radius, color, wrap, width, height, sqrt, w);
    }
    if radius >= 0 && c == color && passed == Passes(wrap, width, height, px, py) && Norm2(px - x, py - y) < radius * radius {
      InsideIsPlain(x, y, radius, color, wrap, width, height, sqrt, px, py);
      CellInFill(x, y, radius, color, wrap, width, height, sqrt, Abs(px - x), Abs(py - y), w);
    }
  }

  /** The blended writes of `fill_circle` are those of the rim: the points
      whose squared distance lies in `[radius², (radius+1)²)`, with alpha
      `1 - diff` for their own distance and the guard's verdict. */
  lemma FillRim(x: int, y: int, radius: int, color: Pixel, wrap: bool, width: nat, height: nat,
                sqrt: nat -> real, px: int, py: int, c: Pixel, passed: bool)
    requires RootLaw(sqrt)
    ensures Blended(px, py, c, passed) in FillWrites(x, y, radius, color, wrap, width, height, sqrt) <==>
      radius >= 0 && passed == Passes(wrap, width, height, px, py)
      && radius * radius <= Norm2(px - x, py - y) < (radius + 1) * (radius + 1)
      && c == WithAlpha(color, 1.0 - Diff(sqrt, radius, Abs(px - x), Abs(py - y)))
  {
    var w := Blended(px, py, c, passed);
    if w in FillWrites(x, y, radius, color, wrap, width, height, sqrt) {
      BlendedFillOnRim(x, y, radius, color, wrap, width, height, sqrt, w);
    }
    if radius >= 0 && passed == Passes(wrap, width, height, px, py)
       && radius * radius <= Norm2(px - x, py - y) < (radius + 1) * (radius + 1)
       && c == WithAlpha(color, 1.0 - Diff(sqrt, radius, Abs(px - x), Abs(py - y))) {
      RimIsBlended(x, y, radius, color, wrap, width, height, sqrt, px, py);
      CellInFill(x, y, radius, color, wrap, width, height, sqrt, Abs(px - x), Abs(py - y), w);
    }
  }

  /** Every write of `fill_circle` lies in the square of side `2 * radius`
      around the centre and carries the guard's verdict, so without `wrap`
      no write that passes lands outside the image. */
  lemma FillBounds(x: int, y: int, radius: int, color: Pixel, wrap: bool, width: nat, height: nat,
                   sqrt: nat -> real, w: Write)
    requires w in FillWrites(x, y, radius, color, wrap, width, height, sqrt)
    ensures x - radius <= w.x <= x + radius && y - radius <= w.y <= y + radius
    ensures w.passed == Passes(wrap, width, height, w.x, w.y)
    ensures w.passed && !wrap ==> 0 <= w.x < width && 0 <= w.y < height
  {
    FillInCell(x, y, radius, color, wrap, width, height, sqrt, w);
    var i, j :| 0 <= i <= radius && 0 <= j <= radius && w in Cell(x, y, radius, color, wrap, width, height, sqrt, i, j);
    CellOffsets(x, y, radius, color, wrap, width, height, sqrt, i, j, w);
  }

  /** A write of `fill_circle` that passes and reaches the pixel of a point
      strictly inside the circle is the plain write of `color` at that very
      point, provided the image's wrap-around cannot fold the disc onto
      itself: without `wrap`, or with a canvas wider and taller than the
      disc. */
  lemma SameFillPixel(x: int, y: int, radius: int, color: Pixel, wrap: bool, width: nat, height: nat,
                      sqrt: nat -> real, w: Write, px: int, py: int)
    requires RootLaw(sqrt) && width > 0 && height > 0
    requires !wrap || (2 * radius < width && 2 * radius < height)
    requires w in FillWrites(x, y, radius, color, wrap, width, height, sqrt) && w.passed
    requires radius >= 0 && Passes(wrap, width, height, px, py) && Norm2(px - x, py - y) < radius * radius
    requires Slot(width, height, w.x, w.y) == Slot(width, height, px, py)
    ensures w == Plain(px, py, color, true)
  {
    FillBounds(x, y, radius, color, wrap, width, height, sqrt, w);
    SquareMonotone(radius, radius + 1);
    WithinRadius(px - x, py - y, radius);
    if wrap {
      SlotNear(width, height, w.x, w.y, px, py);
    } else {
      SlotInjective(width, height, w.x, w.y, px, py);
    }
    if w.Blended? {
      BlendedFillOnRim(x, y, radius, color, wrap, width, height, sqrt, w);
      assert false;
    }
    PlainFillInside(x, y, radius, color, wrap, width, height, sqrt, w);
  }

  /** After `fill_circle`, every pixel strictly inside the circle that the
      guard lets through reads `color`, as long as the image's wrap-around
      cannot fold a rim write onto it: without `wrap`, or on a canvas wider
      and taller than the disc. */
  lemma FillShown(t: Target, s: seq<real>, x: int, y: int, radius: int, color: Pixel, wrap: bool,
                  sqrt: nat -> real, px: int, py: int)
    requires RootLaw(sqrt) && t.Valid() && Fits(color, t.img.alpha) && |s| == t.img.pixels.Length
    requires !wrap || (2 * radius < t.img.width && 2 * radius < t.img.height)
    requires t.img.pixels[..] == Paint(s, t.img.width, t.img.height, t.img.alpha, t.blend,
                                       FillWrites(x, y, radius, color, wrap, t.img.width, t.img.height, sqrt))
    requires radius >= 0 && Passes(wrap, t.img.width, t.img.height, px, py)
    requires Norm2(px - x, py - y) < radius * radius
    ensures t.img.GetPixel(px, py) == color
  {
    var w, h := t.img.width, t.img.height;
    var ws := FillWrites(x, y, radius, color, wrap, w, h, sqrt);
    FillPlain(x, y, radius, color, wrap, w, h, sqrt, px, py, color, true);
    var k :| 0 <= k < |ws| && ws[k] == Plain(px, py, color, true);
    forall m | k < m < |ws| && ws[m].passed && Slot(w, h, ws[m].x, ws[m].y) == Slot(w, h, px, py)
      ensures ws[m].Plain? && ws[m].color == color
    {
      SameFillPixel(x, y, radius, color, wrap, w, h, sqrt, ws[m], px, py);
    }
    PixelShown(t, s, ws, k, px, py, color);
  }

  /** The four plain writes of an inner cell. */
  method SetQuad(x: int, y: int, i: int, j: int, color: Pixel, wrap: bool, t: Target)
    requires t.Valid() && Fits(color, t.img.alpha)
    modifies t, t.img.pixels
    ensures t.trace == old(t.trace) + PlainQuad(x, y, i, j, color, wrap, t.img.width, t.img.height)
    ensures t.img.pixels[..] == Paint(old(t.img.pixels[..]), t.img.width, t.img.height, t.img.alpha, t.blend,
                                      PlainQuad(x, y, i, j, color, wrap, t.img.width, t.img.height))
  {
    ghost var w, h, alpha := t.img.width, t.img.height, t.img.alpha;
    ghost var s0 := t.img.pixels[..];
    SetPixel(x + i, y + j, color, wrap, t);
    SetPixel(x - i, y + j, color, wrap, t);
    SetPixel(x + i, y - j, color, wrap, t);
    SetPixel(x - i, y - j, color, wrap, t);
    ghost var q := PlainQuad(x, y, i, j, color, wrap, w, h);
    PaintFour(s0, w, h, alpha, t.blend, q[0], q[1], q[2], q[3]);
    assert [q[0], q[1], q[2], q[3]] == q;
  }

  /** One guarded blended write, extending the writes `done` already
      recorded since `(tr0, s0)`. */
  method BlendNextGuarded(x: int, y: int, color: Pixel, wrap: bool, t: Target,
                          ghost s0: seq<real>, ghost tr0: seq<Write>, ghost done: seq<Write>)
    requires t.Valid() && |s0| == t.img.pixels.Length
    requires t.trace == tr0 + done && t.img.pixels[..] == Paint(s0, t.img.width, t.img.height, t.img.alpha, t.blend, done)
    modifies t, t.img.pixels
    ensures t.trace == tr0 + (done + [Blended(x, y, color, Passes(wrap, t.img.width, t.img.height, x, y))])
    ensures t.img.pixels[..] == Paint(s0, t.img.width, t.img.height, t.img.alpha, t.blend,
                                      done + [Blended(x, y, color, Passes(wrap, t.img.width, t.img.height, x, y))])
  {
    SetPixelBlended(x, y, color, wrap, t);
    PaintSnoc(s0, t.img.width, t.img.height, t.img.alpha, t.blend, done,
              Blended(x, y, color, Passes(wrap, t.img.width, t.img.height, x, y)));
  }

  /** The four blended writes of a rim cell. */
  method BlendQuadAt(x: int, y: int, i: int, j: int, color: Pixel, wrap: bool, t: Target)
    requires t.Valid()
    modifies t, t.img.pixels
    ensures t.trace == old(t.trace) + BlendQuad(x, y, i, j, color, wrap, t.img.width, t.img.height)
    ensures t.img.pixels[..] == Paint(old(t.img.pixels[..]), t.img.width, t.img.height, t.img.alpha, t.blend,
                                      BlendQuad(x, y, i, j, color, wrap, t.img.width, t.img.height))
  {
    ghost var w, h, alpha := t.img.width, t.img.height, t.img.alpha;
    ghost var s0, tr0 := t.img.pixels[..], t.trace;
    ghost var q := BlendQuad(x, y, i, j, color, wrap, w, h);
    assert tr0 + [] == tr0 && Paint(s0, w, h, alpha, t.blend, []) == s0;
    assert [] + [q[0]] == [q[0]] && [q[0]] + [q[1]] == [q[0], q[1]];
    assert [q[0], q[1]] + [q[2]] == [q[0], q[1], q[2]] && [q[0], q[1], q[2]] + [q[3]] == q;
    BlendNextGuarded(x + i, y + j, color, wrap, t, s0, tr0, []);
    BlendNextGuarded(x - i, y + j, color, wrap, t, s0, tr0, [q[0]]);
    BlendNextGuarded(x + i, y - j, color, wrap, t, s0, tr0, [q[0], q[1]]);
    BlendNextGuarded(x - i, y - j, color, wrap, t, s0, tr0, [q[0], q[1], q[2]]);
  }

  /** Cell `(i, j)` of `fill_circle`. */
  method FillCell(x: int, y: int, radius: int, color: Pixel, wrap: bool, t: Target, sqrt: nat -> real, i: nat, j: nat)
    requires t.Valid() && Fits(color, t.img.alpha)
    modifies t, t.img.pixels
    ensures t.trace == old(t.trace) + Cell(x, y, radius, color, wrap, t.img.width, t.img.height, sqrt, i, j)
    ensures t.img.pixels[..] == Paint(old(t.img.pixels[..]), t.img.width, t.img.height, t.img.alpha, t.blend,
                                      Cell(x, y, radius, color, wrap, t.img.width, t.img.height, sqrt, i, j))
  {
    var d := sqrt(i * i + j * j);
    var diff := d - radius as real;
    if diff < 0.0 {
      SetQuad(x, y, i, j, color, wrap, t);
    } else if diff < 1.0 {
      var newcolor := WithAlpha(color, 1.0 - diff);
      BlendQuadAt(x, y, i, j, newcolor, wrap, t);
    }
  }

  /** Row `i` of `fill_circle`: cells `j` from 0 to `radius`. */
  method FillRow(x: int, y: int, radius: int, color: Pixel, wrap: bool, t: Target, sqrt: nat -> real, i: nat)
    requires t.Valid() && Fits(color, t.img.alpha) && radius >= 0
    modifies t, t.img.pixels
    ensures t.trace == old(t.trace) + RowWrites(x, y, radius, color, wrap, t.img.width, t.img.height, sqrt, i, radius + 1)
    ensures t.img.pixels[..] == Paint(old(t.img.pixels[..]), t.img.width, t.img.height, t.img.alpha, t.blend,
                                      RowWrites(x, y, radius, color, wrap, t.img.width, t.img.height, sqrt, i, radius + 1))
  {
    ghost var w, h, alpha := t.img.width, t.img.height, t.img.alpha;
    ghost var s0 := t.img.pixels[..];
    var j := 0;
    while j <= radius
      invariant 0 <= j <= radius + 1
      invariant t.trace == old(t.trace) + RowWrites(x, y, radius, color, wrap, w, h, sqrt, i, j)
      invariant t.img.pixels[..] == Paint(s0, w, h, alpha, t.blend, RowWrites(x, y, radius, color, wrap, w, h, sqrt, i, j))
    {
      ghost var done := RowWrites(x, y, radius, color, wrap, w, h, sqrt, i, j);
      ghost var cell := Cell(x, y, radius, color, wrap, w, h, sqrt, i, j);
      ghost var tr, pix := t.trace, t.img.pixels[..];
      FillCell(x, y, radius, color, wrap, t, sqrt, i, j);
      Extend(s0, w, h, alpha, t.blend, old(t.trace), done, cell, tr, pix, t.trace, t.img.pixels[..]);
      j := j + 1;
    }
  }

  /** `fill_circle`: every cell `(i, j)` with `0 <= i, j <= radius`, row by
      row. Plain writes of `color` fill the inside of the circle and blended
      ones its rim, all through the guard. The Rust code panics unless
      `color` has the image's format. */
  method FillCircle(x: int, y: int, radius: int, color: Pixel, wrap: bool, t: Target, sqrt: nat -> real)
    requires t.Valid() && Fits(color, t.img.alpha)
    modifies t, t.img.pixels
    ensures t.trace == old(t.trace) + FillWrites(x, y, radius, color, wrap, t.img.width, t.img.height, sqrt)
    ensures t.img.pixels[..] == Paint(old(t.img.pixels[..]), t.img.width, t.img.height, t.img.alpha, t.blend,
                                      FillWrites(x, y, radius, color, wrap, t.img.width, t.img.height, sqrt))
  {
    ghost var w, h, alpha := t.img.width, t.img.height, t.img.alpha;
    ghost var s0 := t.img.pixels[..];
    ghost var n: nat := if radius < 0 then 0 else radius + 1;
    var i := 0;
    while i <= radius
      invariant 0 <= i && (radius >= 0 ==> i <= radius + 1) && (radius < 0 ==> i == 0)
      invariant t.trace == old(t.trace) + DiscWrites(x, y, radius, color, wrap, w, h, sqrt, i, n)
      invariant t.img.pixels[..] == Paint(s0, w, h, alpha, t.blend, DiscWrites(x, y, radius, color, wrap, w, h, sqrt, i, n))
    {
      ghost var done := DiscWrites(x, y, radius, color, wrap, w, h, sqrt, i, n);
      ghost var row := RowWrites(x, y, radius, color, wrap, w, h, sqrt, i, n);
      ghost var tr, pix := t.trace, t.img.pixels[..];
      FillRow(x, y, radius, color, wrap, t, sqrt, i);
      Extend(s0, w, h, alpha, t.blend, old(t.trace), done, row, tr, pix, t.trace, t.img.pixels[..]);
      i := i + 1;
    }
  }
}

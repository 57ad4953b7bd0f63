/**
 Pixels and drawing calls of app/src/gfx.c.

 Every primitive of the source composites, at each pixel it touches, a short
 list of (colour, coverage) layers over what the surface holds.  A drawing call
 is therefore given meaning by the layers it puts on each pixel.  What the
 source computes in single precision or reads from a table (coverage of round
 shapes, gradient rows, glyph bitmaps, an image's texels, video pictures) is a
 parameter, `Kit`; which pixels a call reaches, which texel an image puts there,
 and the compositing arithmetic are exact.
 */
module Raster {
  type Byte = x: int | 0 <= x < 256
  type Word = x: int | 0 <= x < 0x1_0000_0000

  datatype Color = Color(r: Byte, g: Byte, b: Byte)

  /** The scanout format: opaque top byte, then red, green and blue. */
  function Encode(c: Color): Word {
    0x8000_0000 + c.r * 65536 + c.g * 256 + c.b
  }

  function Channels(e: Word): Color {
    Color((e / 65536) % 256, (e / 256) % 256, e % 256)
  }

  lemma EncodeRoundTrip(c: Color)
    ensures Channels(Encode(c)) == c
  {
    var e := Encode(c);
    assert e / 65536 == 32768 + c.r;
    assert e / 256 == (32768 + c.r) * 256 + c.g;
  }

  /** One channel of a blend: the weighted mean, rounded down. */
  function Mix(s: Byte, d: Byte, a: int): (m: Byte)
    requires 0 <= a <= 255
  {
    MixBound(s, d, a);
    (s * a + d * (255 - a)) / 255
  }

  lemma MixBound(s: Byte, d: Byte, a: int)
    requires 0 <= a <= 255
    ensures 0 <= s * a + d * (255 - a) <= 255 * 255
  {
    Scale(s, 255, a);
    Scale(d, 255, 255 - a);
  }

  lemma Scale(x: int, y: int, k: int)
    requires 0 <= x <= y && 0 <= k
    ensures 0 <= x * k <= y * k
  {
  }

  /** `blend_px` on the word of one in-bounds pixel. */
  function BlendPx(e: Word, c: Color, a: int): Word {
    if a <= 0 then e
    else if a >= 255 then Encode(c)
    else
      var d := Channels(e);
      Encode(Color(Mix(c.r, d.r, a), Mix(c.g, d.g, a), Mix(c.b, d.b, a)))
  }

  /** Blending a colour over itself changes nothing, at any coverage. */
  lemma BlendOverSelf(c: Color, a: int)
    ensures BlendPx(Encode(c), c, a) == Encode(c)
  {
    EncodeRoundTrip(c);
    if 0 < a < 255 {
      MixSelf(c.r, a);
      MixSelf(c.g, a);
      MixSelf(c.b, a);
    }
  }

  lemma MixSelf(s: Byte, a: int)
    requires 0 <= a <= 255
    ensures Mix(s, s, a) == s
  {
    assert s * a + s * (255 - a) == s * 255;
  }

  // ---- layers -----------------------------------------------------------

  datatype Layer = Layer(color: Color, alpha: int)

  /** Composite layers over a word, first layer first. */
  function Over(ls: seq<Layer>, e: Word): Word {
    if ls == [] then e
    else BlendPx(Over(ls[..|ls| - 1], e), ls[|ls| - 1].color, ls[|ls| - 1].alpha)
  }

  lemma {:induction false} OverConcat(a: seq<Layer>, b: seq<Layer>, e: Word)
    ensures Over(a + b, e) == Over(b, Over(a, e))
  {
    if b == [] {
      assert a + b == a;
    } else {
      OverConcat(a, b[..|b| - 1], e);
      assert (a + b)[..|a + b| - 1] == a + b[..|b| - 1];
    }
  }

  // ---- drawing calls ------------------------------------------------------

  datatype Call =
    | Dot(x: int, y: int, c: Color)
    | Rect(x: int, y: int, w: int, h: int, c: Color)
    | Blend(x: int, y: int, c: Color, a: int)
    | RectA(x: int, y: int, w: int, h: int, c: Color, a: int)
    | CircleA(x: int, y: int, r: int, c: Color, a: int)
    | RoundA(x: int, y: int, w: int, h: int, r: int, c: Color, a: int)
    | VGrad(x: int, y: int, w: int, h: int, top: Color, bot: Color)
    | Tri(x: int, y: int, x1: int, y1: int, x2: int, y2: int, c: Color)
    | Arc(x: int, y: int, r: int, thick: int, quad: int, c: Color)
    | Text(x: int, y: int, text: seq<Byte>, scale: int, c: Color, track: int)
    | Image(x: int, y: int, w: int, h: int, argb: int, sw: int, sh: int, id: int)

  /** What the source computes in floating point or reads from tables and
      memory outside the surface. */
  datatype Kit = Kit(
    disc: (int, nat, nat, int) -> int,        // radius, distances, a: coverage of a disc pixel
    shape: (Call, int, int) -> int,           // coverage of a triangle or arc pixel
    shade: (Call, int) -> Color,              // colour of a gradient row
    useAtlas: int -> bool,                    // does this text scale have an atlas?
    glyphs: (Call, int, int) -> seq<int>,     // alphas the atlas glyphs put on a pixel
    bits: Call -> seq<(int, int)>,            // corners of the bitmap font's set cells
    texel: (int, int, int) -> Layer,          // an image's texel
    video: (nat, int) -> Word)                // pixel of a video picture

  predicate Inside(px: int, py: int, x: int, y: int, w: int, h: int) {
    x <= px < x + w && y <= py < y + h
  }

  /** Halving as C does it, toward zero. */
  function Half(n: int): int {
    if n >= 0 then n / 2 else -((-n) / 2)
  }

  /** The corner radius `gfx_round_a` settles on. */
  function Radius(c: Call): (r: int)
    requires c.RoundA?
    ensures r >= 0
  {
    var r := if c.r * 2 > c.w then Half(c.w) else c.r;
    var r := if r * 2 > c.h then Half(c.h) else r;
    if r < 0 then 0 else r
  }

  /** The drawing calls a primitive makes through the public entry points, so
      each of them passes the queue hook again. */
  function Subs(k: Kit, c: Call): seq<Call> {
    match c
    case RectA(x, y, w, h, col, a) => if a >= 255 then [Rect(x, y, w, h, col)] else []
    case RoundA(x, y, w, h, _, col, a) =>
      var r := Radius(c);
      [RectA(x + r, y, w - 2 * r, h, col, a),
       RectA(x, y + r, r, h - 2 * r, col, a),
       RectA(x + w - r, y + r, r, h - 2 * r, col, a)]
    case Text(_, _, _, scale, col, _) =>
      if k.useAtlas(scale) then []
      else seq(|k.bits(c)|, i requires 0 <= i < |k.bits(c)| =>
                 Rect(k.bits(c)[i].0, k.bits(c)[i].1, scale, scale, col))
    case _ => []
  }

  function Depth(c: Call): nat {
    match c
    case RoundA(_, _, _, _, _, _, _) => 2
    case RectA(_, _, _, _, _, _) => 1
    case Text(_, _, _, _, _, _) => 1
    case _ => 0
  }

  lemma SubsShallower(k: Kit, c: Call)
    ensures forall s | s in Subs(k, c) :: Depth(s) < Depth(c)
  {
  }

  /** One corner of `gfx_round_a`: its blend reaches a pixel at most once. */
  function Corner(k: Kit, c: Call, cx: int, cy: int, qx: int, qy: int, px: int, py: int): seq<Layer>
    requires c.RoundA?
  {
    var r := Radius(c);
    var xx := (px - cx) * qx;
    var yy := (py - cy) * qy;
    if 0 <= xx <= r && 0 <= yy <= r then [Layer(c.c, k.disc(r, xx, yy, c.a))] else []
  }

  function Dist(a: int, b: int): (d: nat) {
    if a <= b then b - a else a - b
  }

  function Least(a: int, b: int, c: int): int {
    if a < b then (if a < c then a else c) else (if b < c then b else c)
  }

  function Most(a: int, b: int, c: int): int {
    if a > b then (if a > c then a else c) else (if b > c then b else c)
  }

  /** The box `gfx_tri` walks. */
  predicate Bounds(c: Call, px: int, py: int)
    requires c.Tri?
  {
    && Least(c.x, c.x1, c.x2) <= px <= Most(c.x, c.x1, c.x2)
    && Least(c.y, c.y1, c.y2) <= py <= Most(c.y, c.y1, c.y2)
  }

  /** The quadrant `gfx_arc` keeps to; any other number means all of them. */
  predicate Quadrant(quad: int, dx: int, dy: int) {
    match quad
    case 0 => dx <= 0 && dy <= 0
    case 1 => dx >= 0 && dy <= 0
    case 2 => dx >= 0 && dy >= 0
    case 3 => dx <= 0 && dy >= 0
    case _ => true
  }

  /** The square around a disc. */
  predicate Near(c: Call, px: int, py: int)
    requires c.CircleA? || c.Arc?
  {
    Inside(px, py, c.x - c.r - 1, c.y - c.r - 1, 2 * c.r + 3, 2 * c.r + 3)
  }

  /** What a primitive draws itself, besides the calls in `Subs`. */
  function Own(k: Kit, c: Call, px: int, py: int): seq<Layer> {
    match c
    case Dot(x, y, col) => if px == x && py == y then [Layer(col, 255)] else []
    case Rect(x, y, w, h, col) => if Inside(px, py, x, y, w, h) then [Layer(col, 255)] else []
    case Blend(x, y, col, a) => if px == x && py == y then [Layer(col, a)] else []
    case RectA(x, y, w, h, col, a) =>
      if a < 255 && Inside(px, py, x, y, w, h) then [Layer(col, a)] else []
    case CircleA(x, y, r, col, a) =>
      if r > 0 && Near(c, px, py) then [Layer(col, k.disc(r, Dist(px, x), Dist(py, y), a))] else []
    case RoundA(x, y, w, h, _, _, _) =>
      var r := Radius(c);
      Corner(k, c, x + r, y + r, -1, -1, px, py) +
      Corner(k, c, x + w - r - 1, y + r, 1, -1, px, py) +
      Corner(k, c, x + r, y + h - r - 1, -1, 1, px, py) +
      Corner(k, c, x + w - r - 1, y + h - r - 1, 1, 1, px, py)
    case VGrad(x, y, w, h, _, _) =>
      if Inside(px, py, x, y, w, h) then [Layer(k.shade(c, py), 255)] else []
    case Tri(_, _, _, _, _, _, col) =>
      if Bounds(c, px, py) then [Layer(col, k.shape(c, px, py))] else []
    case Arc(x, y, _, _, quad, col) =>
      if Near(c, px, py) && Quadrant(quad, px - x, py - y) then [Layer(col, k.shape(c, px, py))] else []
    case Text(_, _, _, scale, col, _) =>
      if k.useAtlas(scale)
      then var al := k.glyphs(c, px, py); seq(|al|, i requires 0 <= i < |al| => Layer(col, al[i]))
      else []
    case Image(x, y, w, h, argb, sw, sh, _) =>
      if argb != 0 && sw > 0 && sh > 0 && Inside(px, py, x, y, w, h)
      then [k.texel(argb, (px - x) * sw / w, (py - y) * sh / h)] else []
  }

  /** All layers of a call on one pixel, in the order the source draws them. */
  function Layers(k: Kit, c: Call, px: int, py: int): seq<Layer>
    decreases Depth(c), 1, 0
  {
    SubsShallower(k, c);
    LayersAll(k, Subs(k, c), px, py, Depth(c)) + Own(k, c, px, py)
  }

  function LayersAll(k: Kit, cs: seq<Call>, px: int, py: int, depth: nat): seq<Layer>
    requires forall c | c in cs :: Depth(c) < depth
    decreases depth, 0, |cs|
  {
    if cs == [] then []
    else LayersAll(k, cs[..|cs| - 1], px, py, depth) + Layers(k, cs[|cs| - 1], px, py)
  }

  // ---- surfaces -------------------------------------------------------------

  type Picture = seq<Word>     // row-major, pixel (x, y) at y * width + x

  /** Immediate drawing of one call into a surface `w` pixels wide. */
  function Draw(k: Kit, w: nat, c: Call, p: Picture): (r: Picture)
    requires w > 0
    ensures |r| == |p|
  {
    seq(|p|, i requires 0 <= i < |p| => Over(Layers(k, c, i % w, i / w), p[i]))
  }

  function DrawAll(k: Kit, w: nat, cs: seq<Call>, p: Picture): (r: Picture)
    requires w > 0
    ensures |r| == |p|
  {
    if cs == [] then p else Draw(k, w, cs[|cs| - 1], DrawAll(k, w, cs[..|cs| - 1], p))
  }

  lemma {:induction false} DrawAllConcat(k: Kit, w: nat, a: seq<Call>, b: seq<Call>, p: Picture)
    requires w > 0
    ensures DrawAll(k, w, a + b, p) == DrawAll(k, w, b, DrawAll(k, w, a, p))
  {
    if b == [] {
      assert a + b == a;
    } else {
      DrawAllConcat(k, w, a, b[..|b| - 1], p);
      assert (a + b)[..|a + b| - 1] == a + b[..|b| - 1];
    }
  }

  lemma DrawAllSnoc(k: Kit, w: nat, cs: seq<Call>, c: Call, p: Picture)
    requires w > 0
    ensures DrawAll(k, w, cs + [c], p) == Draw(k, w, c, DrawAll(k, w, cs, p))
  {
    assert (cs + [c])[..|cs|] == cs;
  }

  lemma DrawAllOne(k: Kit, w: nat, c: Call, p: Picture)
    requires w > 0
    ensures DrawAll(k, w, [c], p) == Draw(k, w, c, p)
  {
    assert DrawAll(k, w, [], p) == p;
  }

  /** The opaque full-screen calls the queue hook recognises. */
  predicate Covers(c: Call, w: nat, h: nat) {
    (c.Rect? || c.VGrad?) && c.x <= 0 && c.y <= 0 && c.x + c.w >= w && c.y + c.h >= h
  }

  /** Nothing drawn before a covering call survives it: the result does not
      depend on the surface it is drawn over. */
  lemma CoverErases(k: Kit, w: nat, h: nat, c: Call, p: Picture, q: Picture)
    requires w > 0 && Covers(c, w, h) && |p| == w * h && |q| == w * h
    ensures Draw(k, w, c, p) == Draw(k, w, c, q)
  {
    forall i | 0 <= i < |p|
      ensures Draw(k, w, c, p)[i] == Draw(k, w, c, q)[i]
    {
      PixelOnScreen(i, w, h);
      CoverErasesAt(k, w, h, c, i % w, i / w, p[i], q[i]);
    }
  }

  lemma CoverErasesAt(k: Kit, w: nat, h: nat, c: Call, px: int, py: int, d: Word, e: Word)
    requires Covers(c, w, h) && 0 <= px < w && 0 <= py < h
    ensures Over(Layers(k, c, px, py), d) == Over(Layers(k, c, px, py), e)
  {
    var ls := Layers(k, c, px, py);
    assert Subs(k, c) == [];
    assert LayersAll(k, [], px, py, Depth(c)) == [];
    assert ls == Own(k, c, px, py);
    assert |ls| == 1 && ls[0].alpha == 255;
  }

  lemma PixelOnScreen(i: nat, w: nat, h: nat)
    requires w > 0 && i < w * h
    ensures 0 <= i % w < w && 0 <= i / w < h
  {
    Quotient(i, w, h);
  }

  lemma Quotient(i: nat, w: nat, h: nat)
    requires w > 0 && i < w * h
    ensures i / w < h
  {
    if i / w >= h {
      Scale(h, i / w, w);
      assert false;
    }
  }

  /** A rectangle and a translucent rectangle, on one pixel. */
  lemma RectAt(k: Kit, c: Call, px: int, py: int, e: Word)
    requires c.Rect?
    ensures Over(Layers(k, c, px, py), e) ==
            if Inside(px, py, c.x, c.y, c.w, c.h) then Encode(c.c) else e
  {
    LeafLayers(k, c, px, py);
    assert Over([], e) == e;
  }

  lemma RectAAt(k: Kit, c: Call, px: int, py: int, e: Word)
    requires c.RectA?
    ensures Over(Layers(k, c, px, py), e) ==
            if Inside(px, py, c.x, c.y, c.w, c.h) then BlendPx(e, c.c, c.a) else e
  {
    if c.a >= 255 {
      var s := Rect(c.x, c.y, c.w, c.h, c.c);
      assert Subs(k, c) == [s];
      assert LayersAll(k, [], px, py, Depth(c)) == [];
      assert LayersAll(k, [s], px, py, Depth(c)) == Layers(k, s, px, py);
      assert Layers(k, c, px, py) == Layers(k, s, px, py);
      RectAt(k, s, px, py, e);
    } else {
      LeafLayers(k, c, px, py);
      assert Over([], e) == e;
    }
  }

  lemma LeafLayers(k: Kit, c: Call, px: int, py: int)
    requires Subs(k, c) == []
    ensures Layers(k, c, px, py) == Own(k, c, px, py)
  {
    assert LayersAll(k, [], px, py, Depth(c)) == [];
  }

  /** Drawing the calls a primitive is made of, then its own pixels, is drawing it. */
  lemma DrawBySubs(k: Kit, w: nat, c: Call, p: Picture, r: Picture)
    requires w > 0 && |r| == |p|
    requires var q := DrawAll(k, w, Subs(k, c), p);
      forall i | 0 <= i < |p| :: r[i] == Over(Own(k, c, i % w, i / w), q[i])
    ensures r == Draw(k, w, c, p)
  {
    SubsShallower(k, c);
    var q := DrawAll(k, w, Subs(k, c), p);
    forall i | 0 <= i < |p|
      ensures r[i] == Draw(k, w, c, p)[i]
    {
      DrawAllAt(k, w, Subs(k, c), p, i, Depth(c));
      OverConcat(LayersAll(k, Subs(k, c), i % w, i / w, Depth(c)), Own(k, c, i % w, i / w), p[i]);
    }
  }

  lemma {:induction false} DrawAllAt(k: Kit, w: nat, cs: seq<Call>, p: Picture, i: nat, depth: nat)
    requires w > 0 && i < |p|
    requires forall c | c in cs :: Depth(c) < depth
    ensures DrawAll(k, w, cs, p)[i] == Over(LayersAll(k, cs, i % w, i / w, depth), p[i])
  {
    hide Own, BlendPx, Subs, Layers;
    if cs != [] {
      var front := cs[..|cs| - 1];
      DrawAllAt(k, w, front, p, i, depth);
      OverConcat(LayersAll(k, front, i % w, i / w, depth),
                 Layers(k, cs[|cs| - 1], i % w, i / w), p[i]);
    }
  }
}

/**
 The pictures the shapes of app/src/gfx.c draw, by pixel and without the layers they
 are made of: which pixels a call may change, what it leaves there, and where it is its
 own mirror image.
 */
module Shapes {
  import opened Raster
  import Rows

  // ---- one pixel ----------------------------------------------------------------------

  lemma AtIs(k: Kit, w: nat, c: Call, p: Picture, i: nat)
    requires w > 0 && i < |p|
    ensures Draw(k, w, c, p)[i] == Over(Layers(k, c, i % w, i / w), p[i])
    ensures Subs(k, c) == [] ==> Draw(k, w, c, p)[i] == Over(Own(k, c, i % w, i / w), p[i])
  {
    if Subs(k, c) == [] { LeafLayers(k, c, i % w, i / w); }
  }

  lemma OverFew(e: Word, a: Layer)
    ensures Over([], e) == e && Over([a], e) == BlendPx(e, a.color, a.alpha)
  {
    assert [a][..0] == [];
  }

  /** Red, green and blue move toward the colour as coverage grows, from the pixel as it was at 0
      to the colour at 255. */
  lemma BlendNearer(e: Word, c: Color, a: int, b: int)
    requires a <= b && e == Encode(Channels(e))
    ensures BlendPx(e, c, 0) == e && BlendPx(e, c, 255) == Encode(c)
    ensures var d, m, n := Channels(e), Channels(BlendPx(e, c, a)), Channels(BlendPx(e, c, b));
      Between(d.r, m.r, n.r, c.r) && Between(d.g, m.g, n.g, c.g) && Between(d.b, m.b, n.b, c.b)
  {
    hide Mix, Encode, Channels;
    var d := Channels(e);
    EncodeRoundTrip(c);
    if 0 < a < 255 { EncodeRoundTrip(Color(Mix(c.r, d.r, a), Mix(c.g, d.g, a), Mix(c.b, d.b, a))); }
    if 0 < b < 255 { EncodeRoundTrip(Color(Mix(c.r, d.r, b), Mix(c.g, d.g, b), Mix(c.b, d.b, b))); }
    var a', b' := Clamp(a), Clamp(b);
    MixNearer(d.r, c.r, a', b');
    MixNearer(d.g, c.g, a', b');
    MixNearer(d.b, c.b, a', b');
  }

  function Clamp(a: int): int { if a < 0 then 0 else if a > 255 then 255 else a }

  predicate Between(d: int, m: int, n: int, s: int) {
    d <= m <= n <= s || d >= m >= n >= s
  }

  lemma MixNearer(d: Byte, s: Byte, a: int, b: int)
    requires 0 <= a <= b <= 255
    ensures Mix(s, d, 0) == d && Mix(s, d, 255) == s
    ensures Between(d, Mix(s, d, a), Mix(s, d, b), s)
  {
    assert s * 0 + d * 255 == 255 * d;
    assert s * 255 + d * 0 == 255 * s;
    var x, y := s * a + d * (255 - a), s * b + d * (255 - b);
    assert y - x == (s - d) * (b - a);
    assert x == 255 * d + (s - d) * a;
    assert y == 255 * s - (s - d) * (255 - b);
    if s >= d {
      Scale(0, s - d, b - a);
      Scale(0, s - d, a);
      Scale(0, s - d, 255 - b);
    } else {
      Scale(0, d - s, b - a);
      Scale(0, d - s, a);
      Scale(0, d - s, 255 - b);
      assert (s - d) * (b - a) == -((d - s) * (b - a));
      assert (s - d) * a == -((d - s) * a);
      assert (s - d) * (255 - b) == -((d - s) * (255 - b));
    }
  }

  // ---- shapes of one piece --------------------------------------------------------------

  /** A dot is one pixel of its colour. */
  lemma DotAt(k: Kit, w: nat, c: Call, p: Picture, i: nat)
    requires w > 0 && i < |p| && c.Dot?
    ensures Draw(k, w, c, p)[i] == if i % w == c.x && i / w == c.y then Encode(c.c) else p[i]
  {
    AtIs(k, w, c, p, i);
    OverFew(p[i], Layer(c.c, 255));
  }

  /** A blended dot is one pixel blended. */
  lemma BlendAt(k: Kit, w: nat, c: Call, p: Picture, i: nat)
    requires w > 0 && i < |p| && c.Blend?
    ensures Draw(k, w, c, p)[i] == if i % w == c.x && i / w == c.y then BlendPx(p[i], c.c, c.a) else p[i]
  {
    AtIs(k, w, c, p, i);
    OverFew(p[i], Layer(c.c, c.a));
  }

  /** A gradient covers its rectangle, every row in one colour, whatever was there. */
  lemma GradientAt(k: Kit, w: nat, c: Call, p: Picture, i: nat, j: nat)
    requires w > 0 && i < |p| && j < |p| && c.VGrad?
    ensures !Inside(i % w, i / w, c.x, c.y, c.w, c.h) ==> Draw(k, w, c, p)[i] == p[i]
    ensures i / w == j / w && Inside(i % w, i / w, c.x, c.y, c.w, c.h) && Inside(j % w, j / w, c.x, c.y, c.w, c.h) ==>
      Draw(k, w, c, p)[i] == Draw(k, w, c, p)[j] == Encode(k.shade(c, i / w))
  {
    AtIs(k, w, c, p, i);
    AtIs(k, w, c, p, j);
    OverFew(p[i], Layer(k.shade(c, i / w), 255));
    OverFew(p[j], Layer(k.shade(c, j / w), 255));
  }

  /** A rectangle or gradient leaves nothing of any picture, whatever its rows' colours, if and only if the queue hook
      takes it for a full-screen call. */
  lemma CoversExactly(w: nat, h: nat, c: Call)
    requires w > 0 && h > 0 && (c.Rect? || c.VGrad?)
    ensures Covers(c, w, h) <==>
      forall k: Kit, p: Picture, q: Picture | |p| == |q| == w * h :: Draw(k, w, c, p) == Draw(k, w, c, q)
  {
    hide Draw;
    if Covers(c, w, h) {
      forall k: Kit, p: Picture, q: Picture | |p| == |q| == w * h
        ensures Draw(k, w, c, p) == Draw(k, w, c, q)
      {
        CoverErases(k, w, h, c, p, q);
      }
    } else {
      var k := Kit((_, _, _, _) => 0, (_, _, _) => 0, (_, _) => Color(0, 0, 0), _ => false, (_, _, _) => [], _ => [],
                   (_, _, _) => Layer(Color(0, 0, 0), 0), (_, _) => 0);
      var x, y := if c.x + c.w < w then w - 1 else 0, if c.y + c.h < h then h - 1 else 0;
      Rows.RowIndex(w, h, x, y);
      var i := y * w + x;
      var p, q := seq<Word>(w * h, _ => 0), seq<Word>(w * h, _ => 1);
      RectWithin(k, w, c, p, i);
      RectWithin(k, w, c, q, i);
      assert Draw(k, w, c, p)[i] != Draw(k, w, c, q)[i];
    }
  }

  lemma RectWithin(k: Kit, w: nat, c: Call, p: Picture, i: nat)
    requires w > 0 && i < |p| && (c.Rect? || c.VGrad?) && !Inside(i % w, i / w, c.x, c.y, c.w, c.h)
    ensures Draw(k, w, c, p)[i] == p[i]
  {
    AtIs(k, w, c, p, i);
    OverFew(p[i], Layer(Color(0, 0, 0), 0));
  }

  /** A disc reaches one pixel past its radius, and depends on distances from its centre alone. */
  lemma DiscAt(k: Kit, w: nat, c: Call, p: Picture, i: nat)
    requires w > 0 && i < |p| && c.CircleA?
    ensures var dx, dy := Dist(i % w, c.x), Dist(i / w, c.y);
      Draw(k, w, c, p)[i] ==
        if c.r > 0 && dx <= c.r + 1 && dy <= c.r + 1 then BlendPx(p[i], c.c, k.disc(c.r, dx, dy, c.a)) else p[i]
  {
    AtIs(k, w, c, p, i);
    OverFew(p[i], Layer(c.c, k.disc(c.r, Dist(i % w, c.x), Dist(i / w, c.y), c.a)));
  }

  /** A triangle stays between its corners. */
  lemma TriangleWithin(k: Kit, w: nat, c: Call, p: Picture, i: nat)
    requires w > 0 && i < |p| && c.Tri? && Draw(k, w, c, p)[i] != p[i]
    ensures (c.x <= i % w || c.x1 <= i % w || c.x2 <= i % w) && (i % w <= c.x || i % w <= c.x1 || i % w <= c.x2)
    ensures (c.y <= i / w || c.y1 <= i / w || c.y2 <= i / w) && (i / w <= c.y || i / w <= c.y1 || i / w <= c.y2)
  {
    AtIs(k, w, c, p, i);
    OverFew(p[i], Layer(c.c, 0));
  }

  /** An arc stays within a pixel of its radius and in its quarter; the four quarters, clockwise from the
      upper left, make the full ring. */
  lemma ArcWithin(k: Kit, w: nat, c: Call, p: Picture, i: nat)
    requires w > 0 && i < |p| && c.Arc? && Draw(k, w, c, p)[i] != p[i]
    ensures Dist(i % w, c.x) <= c.r + 1 && Dist(i / w, c.y) <= c.r + 1
    ensures c.quad == 0 || c.quad == 3 ==> i % w <= c.x
    ensures c.quad == 1 || c.quad == 2 ==> c.x <= i % w
    ensures c.quad == 0 || c.quad == 1 ==> i / w <= c.y
    ensures c.quad == 2 || c.quad == 3 ==> c.y <= i / w
  {
    AtIs(k, w, c, p, i);
    OverFew(p[i], Layer(c.c, 0));
  }

  /** Pixel d of n lies in cell u of s. */
  predicate InCell(d: int, s: int, n: int, u: int) {
    u * n <= d * s < (u + 1) * n
  }

  /** An image puts on each pixel of its rectangle the texel whose scaled cell the pixel's corner lies in,
      never one outside the image. */
  lemma ImageAt(k: Kit, w: nat, c: Call, p: Picture, i: nat, u: int, v: int)
    requires w > 0 && i < |p| && c.Image? && c.argb != 0 && c.sw > 0 && c.sh > 0
    requires Inside(i % w, i / w, c.x, c.y, c.w, c.h)
    requires InCell(i % w - c.x, c.sw, c.w, u) && InCell(i / w - c.y, c.sh, c.h, v)
    ensures 0 <= u < c.sw && 0 <= v < c.sh
    ensures var t := k.texel(c.argb, u, v); Draw(k, w, c, p)[i] == BlendPx(p[i], t.color, t.alpha)
  {
    hide BlendPx, InCell, Draw, Over, Own, Layers, Inside;
    AtIs(k, w, c, p, i);
    SampleOf(k, c, i % w, i / w, u, v);
    OverFew(p[i], k.texel(c.argb, u, v));
  }

  lemma SampleOf(k: Kit, c: Call, px: int, py: int, u: int, v: int)
    requires c.Image? && c.argb != 0 && c.sw > 0 && c.sh > 0 && Inside(px, py, c.x, c.y, c.w, c.h)
    requires InCell(px - c.x, c.sw, c.w, u) && InCell(py - c.y, c.sh, c.h, v)
    ensures 0 <= u < c.sw && 0 <= v < c.sh && Own(k, c, px, py) == [k.texel(c.argb, u, v)]
  {
    CellOf(px - c.x, c.sw, c.w, u);
    CellOf(py - c.y, c.sh, c.h, v);
  }

  lemma CellOf(d: int, s: int, n: int, u: int)
    requires 0 <= d < n && s > 0 && InCell(d, s, n, u)
    ensures d * s / n == u && 0 <= u < s
  {
    Scale(0, d, s);
    Scale(d, n - 1, s);
    assert (n - 1) * s == s * n - s;
    QuotientIs(d * s, n, u);
    Above(-1, n, d * s, u);
    Below(s, n, d * s, u);
  }

  lemma QuotientIs(m: int, n: int, u: int)
    requires n > 0 && u * n <= m < (u + 1) * n
    ensures m / n == u
  {
    var z := m / n;
    assert m == n * z + m % n;
    Above(z - 1, n, m, u);
    Below(z + 1, n, m, u);
  }

  lemma Above(z: int, n: int, m: int, u: int)
    requires n > 0 && (z + 1) * n <= m < (u + 1) * n
    ensures z < u
  {
    if u <= z { Times(u + 1, z + 1, n); }
  }

  lemma Below(z: int, n: int, m: int, u: int)
    requires n > 0 && u * n <= m < z * n
    ensures u < z
  {
    if z <= u { Times(z, u, n); }
  }

  lemma Times(a: int, b: int, n: int)
    requires a <= b && n > 0
    ensures a * n <= b * n
  {
    Scale(0, b - a, n);
    assert (b - a) * n == b * n - a * n;
  }

  /** And none elsewhere. */
  lemma ImageWithin(k: Kit, w: nat, c: Call, p: Picture, i: nat)
    requires w > 0 && i < |p| && c.Image?
    requires c.argb == 0 || c.sw <= 0 || c.sh <= 0 || !Inside(i % w, i / w, c.x, c.y, c.w, c.h)
    ensures Draw(k, w, c, p)[i] == p[i]
  {
    AtIs(k, w, c, p, i);
    OverFew(p[i], k.texel(0, 0, 0));
  }
}

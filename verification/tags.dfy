/**
 Reuse tags and frames of app/src/gfx.c, as values.

 A tag names what a surface holds.  The source folds it into 64 bits; here it is
 the free term those bits summarise, a base picture and the calls hooked since,
 so the hash is idealised as injective.
 */
module Tags {
  import opened Raster
  import Rows

  datatype Base = Full | Video(v: nat)
  datatype Tag = Unknown | Known(base: Base, calls: seq<Call>)

  /** What one hooked call does to the running tag of a frame. */
  function Fold(t: Tag, c: Call, w: nat, h: nat): Tag {
    var t' := if Covers(c, w, h) then Known(Full, []) else t;
    if t'.Unknown? then Unknown else Known(t'.base, t'.calls + [c])
  }

  function FoldAll(t: Tag, cs: seq<Call>, w: nat, h: nat): Tag {
    if cs == [] then t else Fold(FoldAll(t, cs[..|cs| - 1], w, h), cs[|cs| - 1], w, h)
  }

  function VideoPic(k: Kit, n: nat, v: nat): (p: Picture)
    ensures |p| == n
  {
    seq<Word>(n, i requires 0 <= i < n => k.video(v, i))
  }

  function Blank(n: nat): (p: Picture)
    ensures |p| == n
  {
    seq(n, _ => 0)
  }

  function BasePic(k: Kit, n: nat, b: Base): (p: Picture)
    ensures |p| == n
  {
    match b
    case Full => Blank(n)
    case Video(v) => VideoPic(k, n, v)
  }

  /** The picture a tag names. */
  function Denote(k: Kit, w: nat, h: nat, t: Tag): (p: Picture)
    requires w > 0 && t.Known?
    ensures |p| == w * h
  {
    DrawAll(k, w, t.calls, BasePic(k, w * h, t.base))
  }

  /** A tag is true of a surface: if it is known, it names the pixels. */
  ghost predicate Holds(k: Kit, w: nat, h: nat, t: Tag, p: Picture)
    requires w > 0
  {
    t.Known? ==> Denote(k, w, h, t) == p
  }

  /** Folding a call into the tag follows drawing the call, also over content
      that was not known when the call covers the screen. */
  lemma FoldHolds(k: Kit, w: nat, h: nat, t: Tag, c: Call, p: Picture)
    requires w > 0 && |p| == w * h && Holds(k, w, h, t, p)
    ensures Holds(k, w, h, Fold(t, c, w, h), Draw(k, w, c, p))
  {
    hide Draw, DrawAll, VideoPic, Blank, Covers;
    if Covers(c, w, h) {
      DrawAllOne(k, w, c, Blank(w * h));
      CoverErases(k, w, h, c, p, Blank(w * h));
      assert [] + [c] == [c];
    } else if t.Known? {
      DrawAllSnoc(k, w, t.calls, c, BasePic(k, w * h, t.base));
    }
  }

  lemma {:induction false} FoldAllHolds(k: Kit, w: nat, h: nat, t: Tag, cs: seq<Call>, p: Picture)
    requires w > 0 && |p| == w * h && Holds(k, w, h, t, p)
    ensures Holds(k, w, h, FoldAll(t, cs, w, h), DrawAll(k, w, cs, p))
  {
    if cs != [] {
      FoldAllHolds(k, w, h, t, cs[..|cs| - 1], p);
      FoldHolds(k, w, h, FoldAll(t, cs[..|cs| - 1], w, h), cs[|cs| - 1],
                DrawAll(k, w, cs[..|cs| - 1], p));
    }
  }

  lemma {:induction false} FoldAllConcat(t: Tag, a: seq<Call>, b: seq<Call>, w: nat, h: nat)
    ensures FoldAll(t, a + b, w, h) == FoldAll(FoldAll(t, a, w, h), b, w, h)
  {
    if b == [] {
      assert a + b == a;
    } else {
      FoldAllConcat(t, a, b[..|b| - 1], w, h);
      assert (a + b)[..|a + b| - 1] == a + b[..|b| - 1];
    }
  }

  // ---- what drawing directly folds ----------------------------------------

  /** Every call that passes the hook while `c` is drawn at once: the call, then
      the nested calls its primitive makes. */
  function Hooked(k: Kit, c: Call): seq<Call>
    decreases Depth(c), 1, 0
  {
    SubsShallower(k, c);
    [c] + HookedAll(k, Subs(k, c), Depth(c))
  }

  function HookedAll(k: Kit, cs: seq<Call>, depth: nat): seq<Call>
    requires forall c | c in cs :: Depth(c) < depth
    decreases depth, 0, |cs|
  {
    if cs == [] then []
    else HookedAll(k, cs[..|cs| - 1], depth) + Hooked(k, cs[|cs| - 1])
  }

  /** A second blend can show on a channel: at every coverage but the faintest and the
      strongest, and at those for sources near the far end of the scale. */
  predicate ShowsOn(s: Byte, a: int)
    requires 0 < a < 255
  {
    1 < a < 254 || (a == 254 && s == 0) || (a == 1 && s < 254)
  }

  predicate Shows(col: Color, a: int)
    requires 0 < a < 255
  {
    ShowsOn(col.r, a) || ShowsOn(col.g, a) || ShowsOn(col.b, a)
  }

  predicate StripOnScreen(c: Call, w: nat, h: nat)
    requires c.RoundA?
  {
    exists x: nat, y: nat | x < w && y < h :: InStrip(c, x, y)
  }

  /** A translucent rounded rectangle with a strip on screen, in a colour and coverage
      that show twice: the only call whose nested calls, drawn once more, would change
      the picture. */
  predicate Doubles(c: Call, w: nat, h: nat) {
    c.RoundA? && 0 < c.a < 255 && Shows(c.c, c.a) && StripOnScreen(c, w, h)
  }

  predicate InStrip(c: Call, px: int, py: int)
    requires c.RoundA?
  {
    var r := Radius(c);
    || Inside(px, py, c.x + r, c.y, c.w - 2 * r, c.h)
    || Inside(px, py, c.x, c.y + r, r, c.h - 2 * r)
    || Inside(px, py, c.x + c.w - r, c.y + r, r, c.h - 2 * r)
  }

  /** Opaque fills of one colour. */
  ghost predicate OneColour(cs: seq<Call>, col: Color) {
    forall s | s in cs :: (s.Rect? && s.c == col) || (s.RectA? && s.c == col && s.a >= 255)
  }

  ghost predicate Touched(cs: seq<Call>, px: int, py: int) {
    exists s | s in cs :: (s.Rect? || s.RectA?) && Inside(px, py, s.x, s.y, s.w, s.h)
  }

  lemma {:induction false} OneColourAt(k: Kit, w: nat, cs: seq<Call>, col: Color, p: Picture, i: nat)
    requires w > 0 && i < |p| && OneColour(cs, col)
    ensures DrawAll(k, w, cs, p)[i] == if Touched(cs, i % w, i / w) then Encode(col) else p[i]
  {
    hide Draw, Layers, Own, Subs, Over, Touched;
    if cs != [] {
      var front, s := cs[..|cs| - 1], cs[|cs| - 1];
      OneColourAt(k, w, front, col, p, i);
      var e := DrawAll(k, w, front, p)[i];
      DrawAt(k, w, s, DrawAll(k, w, front, p), i);
      if s.Rect? { RectAt(k, s, i % w, i / w, e); } else { RectAAt(k, s, i % w, i / w, e); }
      TouchedNext(cs, i % w, i / w);
    } else {
      TouchedNone(i % w, i / w);
    }
  }

  lemma TouchedNext(cs: seq<Call>, px: int, py: int)
    requires cs != [] && (cs[|cs| - 1].Rect? || cs[|cs| - 1].RectA?)
    ensures var s := cs[|cs| - 1];
      Touched(cs, px, py) == (Touched(cs[..|cs| - 1], px, py) || Inside(px, py, s.x, s.y, s.w, s.h))
  {
    assert cs == cs[..|cs| - 1] + [cs[|cs| - 1]];
  }

  lemma TouchedNone(px: int, py: int)
    ensures !Touched([], px, py)
  {}

  /** Same-coloured blends over a pixel already of that colour. */
  lemma {:induction false} OverOneColour(ls: seq<Layer>, col: Color)
    requires forall l | l in ls :: l.color == col
    ensures Over(ls, Encode(col)) == Encode(col)
  {
    if ls != [] {
      OverOneColour(ls[..|ls| - 1], col);
      BlendOverSelf(col, ls[|ls| - 1].alpha);
    }
  }

  /** What the nested calls of a rounded rectangle would do to a pixel. */
  lemma RoundRest(k: Kit, c: Call)
    requires c.RoundA?
    ensures var s := Subs(k, c);
      HookedAll(k, s, Depth(c)) == Hooked(k, s[0]) + Hooked(k, s[1]) + Hooked(k, s[2])
    ensures forall s | s in Subs(k, c) :: s.RectA? && s.c == c.c && s.a == c.a
    ensures forall s | s in Subs(k, c) ::
      Hooked(k, s) == [s] + (if c.a >= 255 then [Rect(s.x, s.y, s.w, s.h, s.c)] else [])
  {
    var s := Subs(k, c);
    assert s[..2] == [s[0], s[1]] && s[..2][..1] == [s[0]] && s[..2][..1][..0] == [];
    assert HookedAll(k, [], Depth(c)) == [];
    assert HookedAll(k, [s[0]], Depth(c)) == Hooked(k, s[0]);
    assert HookedAll(k, [s[0], s[1]], Depth(c)) == Hooked(k, s[0]) + Hooked(k, s[1]);
    forall t | t in s
      ensures Hooked(k, t) == [t] + (if c.a >= 255 then [Rect(t.x, t.y, t.w, t.h, t.c)] else [])
    {
      HookedRectA(k, t);
    }
  }

  lemma HookedRectA(k: Kit, t: Call)
    requires t.RectA?
    ensures Hooked(k, t) == [t] + (if t.a >= 255 then [Rect(t.x, t.y, t.w, t.h, t.c)] else [])
  {
    assert HookedAll(k, [], Depth(t)) == [];
    if t.a >= 255 {
      var s := Rect(t.x, t.y, t.w, t.h, t.c);
      assert HookedAll(k, [], Depth(s)) == [];
      assert Hooked(k, s) == [s];
      assert Subs(k, t) == [s];
      assert HookedAll(k, [s], Depth(t)) == [s];
    }
  }

  lemma {:induction false} HookedLeaves(k: Kit, cs: seq<Call>, depth: nat)
    requires forall c | c in cs :: Subs(k, c) == [] && Depth(c) < depth
    ensures HookedAll(k, cs, depth) == cs
  {
    if cs != [] {
      var s := cs[|cs| - 1];
      HookedLeaves(k, cs[..|cs| - 1], depth);
      assert HookedAll(k, [], Depth(s)) == [];
      assert Hooked(k, s) == [s];
    }
  }

  /** Drawing what was hooked replays the call: after a call is drawn directly its
      tag still names the pixels, unless the call doubles. */
  lemma ReplayIsDraw(k: Kit, w: nat, h: nat, c: Call, p: Picture)
    requires w > 0 && |p| == w * h && !Doubles(c, w, h)
    ensures DrawAll(k, w, Hooked(k, c), p) == Draw(k, w, c, p)
  {
    hide *;
    SubsShallower(k, c);
    var d := Draw(k, w, c, p);
    var rest := HookedAll(k, Subs(k, c), Depth(c));
    HookedIs(k, c);
    DrawAllConcat(k, w, [c], rest, p);
    DrawAllOne(k, w, c, p);
    forall i | 0 <= i < |p|
      ensures DrawAll(k, w, rest, d)[i] == d[i]
    {
      PixelOnScreen(i, w, h);
      ReplayAt(k, w, h, c, p, i);
    }
  }

  lemma HookedIs(k: Kit, c: Call)
    requires forall s | s in Subs(k, c) :: Depth(s) < Depth(c)
    ensures Hooked(k, c) == [c] + HookedAll(k, Subs(k, c), Depth(c))
  {
  }

  lemma ReplayAt(k: Kit, w: nat, h: nat, c: Call, p: Picture, i: nat)
    requires w > 0 && |p| == w * h && !Doubles(c, w, h) && i < |p|
    requires 0 <= i % w < w && 0 <= i / w < h
    ensures var d := Draw(k, w, c, p); DrawAll(k, w, HookedAll(k, Subs(k, c), Depth(c)), d)[i] == d[i]
  {
    hide DrawAll, Draw, Own, BlendPx;
    var d := Draw(k, w, c, p);
    if c.RectA? {
      HookedRectA(k, c);
      RectReplay(k, w, c, p, i);
    } else if c.RoundA? {
      RoundReplay(k, w, h, c, p, i);
    } else if c.Text? {
      TextReplay(k, w, c, p, i);
    } else {
      assert HookedAll(k, Subs(k, c), Depth(c)) == [];
      NothingDrawn(k, w, d);
    }
  }

  lemma NothingDrawn(k: Kit, w: nat, p: Picture)
    requires w > 0
    ensures DrawAll(k, w, [], p) == p
  {
  }

  lemma RectReplay(k: Kit, w: nat, c: Call, p: Picture, i: nat)
    requires w > 0 && i < |p| && c.RectA?
    ensures var d := Draw(k, w, c, p); DrawAll(k, w, HookedAll(k, Subs(k, c), Depth(c)), d)[i] == d[i]
  {
    hide Layers, Over, Draw, Own;
    HookedRectA(k, c);
    var d := Draw(k, w, c, p);
    var rest := HookedAll(k, Subs(k, c), Depth(c));
    assert rest == Hooked(k, c)[1..];
    if c.a >= 255 {
      OneColourAt(k, w, rest, c.c, d, i);
      DrawAt(k, w, c, p, i);
      RectAAt(k, c, i % w, i / w, p[i]);
    }
  }

  lemma TextReplay(k: Kit, w: nat, c: Call, p: Picture, i: nat)
    requires w > 0 && i < |p| && c.Text?
    ensures var d := Draw(k, w, c, p); DrawAll(k, w, HookedAll(k, Subs(k, c), Depth(c)), d)[i] == d[i]
  {
    hide DrawAll, Draw, Own, BlendPx, Over, Hooked, HookedAll;
    var d := Draw(k, w, c, p);
    var subs := Subs(k, c);
    HookedLeaves(k, subs, Depth(c));
    if subs == [] {
      NothingDrawn(k, w, d);
    } else {
      OneColourAt(k, w, subs, c.c, d, i);
      OneColourAt(k, w, subs, c.c, p, i);
      TextIsBits(k, w, c, p, i);
    }
  }

  lemma TextIsBits(k: Kit, w: nat, c: Call, p: Picture, i: nat)
    requires w > 0 && i < |p| && c.Text? && Subs(k, c) != []
    ensures Draw(k, w, c, p)[i] == DrawAll(k, w, Subs(k, c), p)[i]
  {
    hide DrawAll, BlendPx, Over;
    SubsShallower(k, c);
    DrawAllAt(k, w, Subs(k, c), p, i, Depth(c));
    var ls := LayersAll(k, Subs(k, c), i % w, i / w, Depth(c));
    assert Layers(k, c, i % w, i / w) == ls + [] == ls;
  }

  lemma RoundReplay(k: Kit, w: nat, h: nat, c: Call, p: Picture, i: nat)
    requires w > 0 && |p| == w * h && i < |p| && c.RoundA? && !Doubles(c, w, h)
    requires 0 <= i % w < w && 0 <= i / w < h
    ensures var d := Draw(k, w, c, p); DrawAll(k, w, HookedAll(k, Subs(k, c), Depth(c)), d)[i] == d[i]
  {
    hide DrawAll, Draw, Own, BlendPx, HookedAll, Hooked;
    var d := Draw(k, w, c, p);
    var subs := Subs(k, c);
    var rest := HookedAll(k, subs, Depth(c));
    RoundRest(k, c);
    StripsOf(k, c, i % w, i / w);
    if c.a >= 255 {
      RoundRestOpaque(k, c, i % w, i / w);
      OneColourAt(k, w, rest, c.c, d, i);
      if Touched(rest, i % w, i / w) {
        RoundOpaqueAt(k, w, c, p, i);
      }
    } else {
      assert rest == subs;
      if c.a > 0 && InStrip(c, i % w, i / w) {
        RoundStays(k, w, c, p, i);
        StaysAt(k, w, subs, c.c, c.a, d, i);
      } else {
        FaintAt(k, w, subs, d, i);
      }
    }
  }

  // ---- blends that no longer move a pixel -----------------------------------

  /** The weighted mean moves a channel towards the source by a rounded share of the distance. */
  lemma MixMoves(s: Byte, d: Byte, a: int)
    requires 0 <= a <= 255
    ensures var m := Mix(s, d, a); 255 * (m - d) <= a * (s - d) < 255 * (m - d) + 255
  {
    MixBound(s, d, a);
    assert s * a + d * (255 - a) == 255 * d + a * (s - d);
  }

  lemma MovesUnless(s: Byte, m: Byte, a: int)
    requires 0 < a < 255
    ensures Mix(s, m, a) == m <==> 0 <= a * (s - m) < 255
  {
    MixMoves(s, m, a);
    var n := Mix(s, m, a);
    if 0 <= a * (s - m) < 255 { assert 255 * (n - m) < 255 && 255 * (n - m) + 255 > 0; }
  }

  /** The guard is exact: a second blend differs, over some value, if and only if it holds. */
  lemma ShowsExactly(s: Byte, a: int)
    requires 0 < a < 255
    ensures ShowsOn(s, a) <==> exists d: Byte :: Mix(s, Mix(s, d, a), a) != Mix(s, d, a)
  {
    hide Mix;
    if ShowsOn(s, a) {
      var d := Twice(s, a);
    } else {
      forall d: Byte
        ensures Mix(s, Mix(s, d, a), a) == Mix(s, d, a)
      {
        MixMoves(s, d, a);
        MovesUnless(s, Mix(s, d, a), a);
      }
    }
  }

  /** The end of the scale a source is far from. */
  function FarEnd(s: Byte, a: int): (d: Byte) {
    if (255 - a) * (255 - s) >= 255 then 255 else 0
  }

  /** There two blends are not one. */
  lemma Twice(s: Byte, a: int) returns (d: Byte)
    requires 0 < a < 255 && ShowsOn(s, a)
    ensures d == FarEnd(s, a) && Mix(s, Mix(s, d, a), a) != Mix(s, d, a)
  {
    hide Mix;
    d := FarEnd(s, a);
    var m := Mix(s, d, a);
    MixMoves(s, d, a);
    MovesUnless(s, m, a);
    if d == 255 {
      Opposite(a, s);
      assert m > s;
      Negative(a, s - m);
    } else {
      FarEnds(s, a);
      Near(s, m, a);
    }
  }

  lemma Opposite(a: int, s: int)
    ensures (255 - a) * (255 - s) == 255 * (255 - s) + a * (s - 255)
  {}

  lemma Near(s: Byte, m: Byte, a: int)
    requires 1 < a < 254 && (255 - a) * (255 - s) < 255 && 255 * m <= a * s
    ensures a * (s - m) >= 255
  {
    var b := 255 - a;
    assert b * (255 - s) == 255 * b - b * s;
    assert 255 * s - a * s == b * s;
    assert 255 * (s - m) > 255 * (b - 1);
    Scale(b, s - m, a);
    assert (a - 2) * (253 - a) == 255 * a - a * a - 506;
    Product(a - 2, 253 - a);
    assert b * a == 255 * a - a * a;
  }

  lemma FarEnds(s: Byte, a: int)
    requires 0 < a < 255 && ShowsOn(s, a) && (255 - a) * (255 - s) < 255
    ensures 1 < a < 254
  {}

  lemma Negative(a: int, x: int)
    requires a > 0 && x < 0
    ensures a * x < 0
  {}

  lemma Product(x: int, y: int)
    requires x >= 0 && y >= 0
    ensures x * y >= 0
  {}

  /** A channel that blending no longer moves stays so after blends at other coverages. */
  lemma MixStays(s: Byte, d: Byte, a: int, b: int)
    requires 0 < a <= 255 && 0 <= b <= 255 && Mix(s, d, a) == d
    ensures var m := Mix(s, d, b); Mix(s, m, a) == m
  {
    hide Mix;
    var m := Mix(s, d, b);
    MixMoves(s, d, a);
    MixMoves(s, d, b);
    MixMoves(s, m, a);
    assert 0 <= a * (s - d) < 255;
    Sign(a, s - d);
    Share(b, s - d, m - d);
    Scale(s - m, s - d, a);
  }

  lemma Sign(a: int, x: int)
    requires a > 0 && a * x >= 0
    ensures x >= 0
  {}

  lemma Share(b: int, x: int, y: int)
    requires 0 <= b <= 255 && x >= 0 && 255 * y <= b * x < 255 * y + 255
    ensures 0 <= y <= x
  {
    Scale(0, b, x);
    Scale(b, 255, x);
  }

  /** A pixel of the screen that blending this colour at this coverage leaves alone. */
  predicate Still(e: Word, col: Color, a: int)
    requires 0 < a < 255
  {
    var d := Channels(e);
    e == Encode(d) && Mix(col.r, d.r, a) == d.r && Mix(col.g, d.g, a) == d.g && Mix(col.b, d.b, a) == d.b
  }

  lemma StillIs(e: Word, col: Color, a: int)
    requires 0 < a < 255 && Still(e, col, a)
    ensures BlendPx(e, col, a) == e
  {}

  lemma StillKept(e: Word, col: Color, a: int, b: int)
    requires 0 < a < 255 && Still(e, col, a)
    ensures Still(BlendPx(e, col, b), col, a)
  {
    EncodeRoundTrip(col);
    var d := Channels(e);
    if 0 < b < 255 {
      var m := Color(Mix(col.r, d.r, b), Mix(col.g, d.g, b), Mix(col.b, d.b, b));
      EncodeRoundTrip(m);
      MixStays(col.r, d.r, a, b);
      MixStays(col.g, d.g, a, b);
      MixStays(col.b, d.b, a, b);
    } else if b >= 255 {
      MixSelf(col.r, a);
      MixSelf(col.g, a);
      MixSelf(col.b, a);
    }
  }

  lemma {:induction false} StillOver(ls: seq<Layer>, e: Word, col: Color, a: int)
    requires 0 < a < 255 && Still(e, col, a) && forall l | l in ls :: l.color == col
    ensures Still(Over(ls, e), col, a)
  {
    hide Still, BlendPx;
    if ls != [] {
      StillOver(ls[..|ls| - 1], e, col, a);
      StillKept(Over(ls[..|ls| - 1], e), col, a, ls[|ls| - 1].alpha);
    }
  }

  /** One blend is enough where a second cannot show. */
  lemma BlendIsStill(e: Word, col: Color, a: int)
    requires 0 < a < 255 && !Shows(col, a)
    ensures Still(BlendPx(e, col, a), col, a)
  {
    var d := Channels(e);
    EncodeRoundTrip(Color(Mix(col.r, d.r, a), Mix(col.g, d.g, a), Mix(col.b, d.b, a)));
    ShowsExactly(col.r, a);
    ShowsExactly(col.g, a);
    ShowsExactly(col.b, a);
  }

  lemma {:induction false} StaysAt(k: Kit, w: nat, cs: seq<Call>, col: Color, a: int, p: Picture, i: nat)
    requires w > 0 && i < |p| && 0 < a < 255 && Still(p[i], col, a)
    requires forall s | s in cs :: s.RectA? && s.c == col && s.a == a
    ensures DrawAll(k, w, cs, p)[i] == p[i]
  {
    hide Still, BlendPx, Draw;
    StillIs(p[i], col, a);
    if cs != [] {
      var front := DrawAll(k, w, cs[..|cs| - 1], p);
      var s := cs[|cs| - 1];
      StaysAt(k, w, cs[..|cs| - 1], col, a, p, i);
      DrawAt(k, w, s, front, i);
      RectAAt(k, s, i % w, i / w, p[i]);
    }
  }

  lemma DrawAt(k: Kit, w: nat, c: Call, p: Picture, i: nat)
    requires w > 0 && i < |p|
    ensures Draw(k, w, c, p)[i] == Over(Layers(k, c, i % w, i / w), p[i])
  {
    hide Layers, Over;
  }

  /** Where a strip was drawn, the corners drawn after it leave the pixel still. */
  lemma RoundStays(k: Kit, w: nat, c: Call, p: Picture, i: nat)
    requires w > 0 && i < |p| && c.RoundA? && 0 < c.a < 255 && !Shows(c.c, c.a) && InStrip(c, i % w, i / w)
    ensures Still(Draw(k, w, c, p)[i], c.c, c.a)
  {
    hide Own, BlendPx, Still, Shows, Layers, LayersAll, DrawAll;
    SubsShallower(k, c);
    var ls, own := LayersAll(k, Subs(k, c), i % w, i / w, Depth(c)), Own(k, c, i % w, i / w);
    DrawAllAt(k, w, Subs(k, c), p, i, Depth(c));
    OneStripAt(k, w, c, p, i);
    BlendIsStill(p[i], c.c, c.a);
    RoundOwnColour(k, c, i % w, i / w);
    StillOver(own, Over(ls, p[i]), c.c, c.a);
    OverConcat(ls, own, p[i]);
    LayersAre(k, c, i % w, i / w);
  }

  lemma LayersAre(k: Kit, c: Call, px: int, py: int)
    requires forall s | s in Subs(k, c) :: Depth(s) < Depth(c)
    ensures Layers(k, c, px, py) == LayersAll(k, Subs(k, c), px, py, Depth(c)) + Own(k, c, px, py)
  {}

  lemma RoundRestOpaque(k: Kit, c: Call, px: int, py: int)
    requires c.RoundA? && c.a >= 255
    ensures OneColour(HookedAll(k, Subs(k, c), Depth(c)), c.c)
    ensures Touched(HookedAll(k, Subs(k, c), Depth(c)), px, py) ==> Touched(Subs(k, c), px, py)
  {
    hide HookedAll, Hooked;
    RoundRest(k, c);
  }

  lemma StripsOf(k: Kit, c: Call, px: int, py: int)
    requires c.RoundA?
    ensures Touched(Subs(k, c), px, py) == InStrip(c, px, py)
  {
    var s := Subs(k, c);
    assert s[0] in s && s[1] in s && s[2] in s;
  }

  /** Nested fills that are off this pixel, or have no coverage, leave it alone. */
  lemma {:induction false} FaintAt(k: Kit, w: nat, cs: seq<Call>, p: Picture, i: nat)
    requires w > 0 && i < |p|
    requires forall s | s in cs :: s.RectA? && (s.a <= 0 || !Inside(i % w, i / w, s.x, s.y, s.w, s.h))
    ensures DrawAll(k, w, cs, p)[i] == p[i]
  {
    if cs != [] {
      var s := cs[|cs| - 1];
      FaintAt(k, w, cs[..|cs| - 1], p, i);
      RectAAt(k, s, i % w, i / w, p[i]);
    }
  }

  lemma RoundOpaqueAt(k: Kit, w: nat, c: Call, p: Picture, i: nat)
    requires w > 0 && i < |p| && c.RoundA? && c.a >= 255 && Touched(Subs(k, c), i % w, i / w)
    ensures Draw(k, w, c, p)[i] == Encode(c.c)
  {
    hide Own, BlendPx, DrawAll, Over, LayersAll, Layers;
    var subs := Subs(k, c);
    RoundRest(k, c);
    OneColourAt(k, w, subs, c.c, p, i);
    DrawAllAt(k, w, subs, p, i, Depth(c));
    RoundOwnColour(k, c, i % w, i / w);
    RoundOpaqueLayers(k, c, i % w, i / w, p[i]);
  }

  lemma RoundOpaqueLayers(k: Kit, c: Call, px: int, py: int, e: Word)
    requires c.RoundA?
    requires Over(LayersAll(k, Subs(k, c), px, py, Depth(c)), e) == Encode(c.c)
    requires forall l | l in Own(k, c, px, py) :: l.color == c.c
    ensures Over(Layers(k, c, px, py), e) == Encode(c.c)
  {
    hide Own, BlendPx, LayersAll, Over;
    SubsShallower(k, c);
    OverConcat(LayersAll(k, Subs(k, c), px, py, Depth(c)), Own(k, c, px, py), e);
    OverOneColour(Own(k, c, px, py), c.c);
  }

  lemma RoundOwnColour(k: Kit, c: Call, px: int, py: int)
    requires c.RoundA?
    ensures forall l | l in Own(k, c, px, py) :: l.color == c.c
  {
  }

  // ---- where the invariant fails ------------------------------------------

  /** A translucent rounded rectangle drawn directly folds its strips a second
      time.  Wherever a strip shows clear of the corners and blending twice is
      not blending once, the tag it leaves names another picture than the one it
      drew: the picture of a frame that asks for the strips as well. */
  lemma DoubledTagNamesOtherPicture(k: Kit, w: nat, h: nat, t: Tag, c: Call, x: nat, y: nat, e: Word)
    requires w > 0 && x < w && y < h && c.RoundA? && 0 < c.a < 255
    requires InStrip(c, x, y) && Faint(Own(k, c, x, y))
    requires BlendPx(BlendPx(e, c.c, c.a), c.c, c.a) != BlendPx(e, c.c, c.a)
    ensures Doubles(c, w, h)
    ensures var p := seq<Word>(w * h, _ => e);
      DrawAll(k, w, Hooked(k, c), p) != Draw(k, w, c, p)
    ensures Hooked(k, c) == [c] + Subs(k, c)
  {
    ShowsThere(e, c.c, c.a);
    HookedTranslucent(k, c);
    DrawnTwice(k, w, h, c, x, y, e);
    hide *;
    assert Doubles(c, w, h) by { OnScreen(c, w, h, x, y); }
  }

  lemma OnScreen(c: Call, w: nat, h: nat, x: nat, y: nat)
    requires c.RoundA? && x < w && y < h && InStrip(c, x, y) && 0 < c.a < 255 && Shows(c.c, c.a)
    ensures Doubles(c, w, h)
  {
    hide InStrip, Shows;
  }

  /** Translucent strips fold themselves only. */
  lemma HookedTranslucent(k: Kit, c: Call)
    requires c.RoundA? && c.a < 255
    ensures Hooked(k, c) == [c] + Subs(k, c)
  {
    hide Radius;
    RoundRest(k, c);
    var s := Subs(k, c);
    assert |s| == 3;
    assert [s[0]] + [s[1]] + [s[2]] == s;
  }

  lemma DrawnTwice(k: Kit, w: nat, h: nat, c: Call, x: nat, y: nat, e: Word)
    requires w > 0 && x < w && y < h && c.RoundA? && InStrip(c, x, y) && Faint(Own(k, c, x, y))
    requires Hooked(k, c) == [c] + Subs(k, c)
    requires BlendPx(BlendPx(e, c.c, c.a), c.c, c.a) != BlendPx(e, c.c, c.a)
    ensures var p := seq<Word>(w * h, _ => e);
      DrawAll(k, w, Hooked(k, c), p) != Draw(k, w, c, p)
  {
    hide Own, BlendPx, Draw, DrawAll, InStrip, Subs, Hooked;
    Rows.RowIndex(w, h, x, y);
    var p := seq<Word>(w * h, _ => e);
    var i := y * w + x;
    var subs := Subs(k, c);
    var d := Draw(k, w, c, p);
    DrawAllConcat(k, w, [c], subs, p);
    DrawAllOne(k, w, c, p);
    OneStripAt(k, w, c, p, i);
    OneStripAt(k, w, c, d, i);
    DrawIsStrips(k, w, c, p, i);
  }

  /** When some pixel of a strip on screen is clear of the corners the condition is exact for the
      coverage at hand: the folded calls replay to another picture, over some picture, if and only if the call
      doubles. */
  lemma DoublesExactly(k: Kit, w: nat, h: nat, c: Call, x: nat, y: nat)
    requires w > 0 && c.RoundA?
    requires StripOnScreen(c, w, h) ==> x < w && y < h && InStrip(c, x, y) && Faint(Own(k, c, x, y))
    ensures Doubles(c, w, h) <==> exists p: Picture | |p| == w * h :: DrawAll(k, w, Hooked(k, c), p) != Draw(k, w, c, p)
  {
    hide Own, Draw, DrawAll, InStrip, Hooked;
    if Doubles(c, w, h) {
      var under := Unlike(c.c, c.a);
      UnlikeDiffers(c.c, c.a);
      var e := Encode(under);
      DoubledTagNamesOtherPicture(k, w, h, Unknown, c, x, y, e);
      var p := seq<Word>(w * h, _ => e);
      assert |p| == w * h;
    } else {
      forall p: Picture | |p| == w * h
        ensures DrawAll(k, w, Hooked(k, c), p) == Draw(k, w, c, p)
      {
        ReplayIsDraw(k, w, h, c, p);
      }
    }
  }

  /** And for every rounded rectangle: the folded calls replay to another picture, for some
      coverage of corners and over some picture, if and only if the call doubles. */
  lemma DoublesForSomeKit(w: nat, h: nat, c: Call)
    requires w > 0 && c.RoundA?
    ensures Doubles(c, w, h) <==>
      exists k: Kit, p: Picture | |p| == w * h :: DrawAll(k, w, Hooked(k, c), p) != Draw(k, w, c, p)
  {
    hide Own, Draw, DrawAll, InStrip, Hooked, Shows, Faint;
    if Doubles(c, w, h) {
      var k := Kit((_, _, _, _) => 0, (_, _, _) => 0, (_, _) => Color(0, 0, 0), _ => false, (_, _, _) => [], _ => [],
                   (_, _, _) => Layer(Color(0, 0, 0), 0), (_, _) => 0);
      var x: nat, y: nat :| x < w && y < h && InStrip(c, x, y);
      NoCorners(k, c, x, y);
      DoublesExactly(k, w, h, c, x, y);
      var p: Picture :| |p| == w * h && DrawAll(k, w, Hooked(k, c), p) != Draw(k, w, c, p);
    } else {
      forall k: Kit, p: Picture | |p| == w * h
        ensures DrawAll(k, w, Hooked(k, c), p) == Draw(k, w, c, p)
      {
        ReplayIsDraw(k, w, h, c, p);
      }
    }
  }

  lemma NoCorners(k: Kit, c: Call, x: int, y: int)
    requires c.RoundA? && forall r, dx, dy, a :: k.disc(r, dx, dy, a) == 0
    ensures Faint(Own(k, c, x, y))
  {}

  lemma ShowsThere(e: Word, col: Color, a: int)
    requires 0 < a < 255 && BlendPx(BlendPx(e, col, a), col, a) != BlendPx(e, col, a)
    ensures Shows(col, a)
  {
    hide BlendPx, Still, Shows;
    if !Shows(col, a) {
      BlendIsStill(e, col, a);
      StillIs(BlendPx(e, col, a), col, a);
    }
  }

  /** Two blends over a colour are not one. */
  predicate TwiceDiffers(under: Color, col: Color, a: int) {
    var e := Encode(under);
    BlendPx(BlendPx(e, col, a), col, a) != BlendPx(e, col, a)
  }

  /** Such a colour, wherever a second blend can show. */
  function Unlike(col: Color, a: int): (under: Color)
    requires 0 < a < 255 && Shows(col, a)
  {
    var d := FarEnd(if ShowsOn(col.r, a) then col.r else if ShowsOn(col.g, a) then col.g else col.b, a);
    Color(d, d, d)
  }

  lemma UnlikeDiffers(col: Color, a: int)
    requires 0 < a < 255 && Shows(col, a)
    ensures TwiceDiffers(Unlike(col, a), col, a)
  {
    var under := Unlike(col, a);
    var d := Twice(if ShowsOn(col.r, a) then col.r else if ShowsOn(col.g, a) then col.g else col.b, a);
    EncodeRoundTrip(under);
    var m := Color(Mix(col.r, d, a), Mix(col.g, d, a), Mix(col.b, d, a));
    EncodeRoundTrip(m);
    EncodeRoundTrip(Color(Mix(col.r, m.r, a), Mix(col.g, m.g, a), Mix(col.b, m.b, a)));
  }

  /** The three strips are disjoint: together they blend a pixel once. */
  lemma OneStripAt(k: Kit, w: nat, c: Call, p: Picture, i: nat)
    requires w > 0 && i < |p| && c.RoundA? && InStrip(c, i % w, i / w)
    ensures DrawAll(k, w, Subs(k, c), p)[i] == BlendPx(p[i], c.c, c.a)
  {
    hide Own, BlendPx, Layers, LayersAll;
    var s := Subs(k, c);
    var p0 := DrawAll(k, w, [], p);
    var p1 := Draw(k, w, s[0], p0);
    var p2 := Draw(k, w, s[1], p1);
    assert s[..2] == [s[0], s[1]] && s[..2][..1] == [s[0]] && [s[0]][..0] == [];
    assert DrawAll(k, w, [s[0]], p) == p1;
    assert DrawAll(k, w, s[..2], p) == p2;
    RectAAt(k, s[0], i % w, i / w, p0[i]);
    RectAAt(k, s[1], i % w, i / w, p1[i]);
    RectAAt(k, s[2], i % w, i / w, p2[i]);
  }

  lemma DrawIsStrips(k: Kit, w: nat, c: Call, p: Picture, i: nat)
    requires w > 0 && i < |p| && c.RoundA? && Faint(Own(k, c, i % w, i / w))
    ensures Draw(k, w, c, p)[i] == DrawAll(k, w, Subs(k, c), p)[i]
  {
    hide Own, BlendPx, DrawAll, Subs, Faint, Over, LayersAll;
    SubsShallower(k, c);
    DrawAllAt(k, w, Subs(k, c), p, i, Depth(c));
    var ls, own := LayersAll(k, Subs(k, c), i % w, i / w, Depth(c)), Own(k, c, i % w, i / w);
    LayersAre(k, c, i % w, i / w);
    DrawAt(k, w, c, p, i);
    OverConcat(ls, own, p[i]);
    FaintOver(own, Over(ls, p[i]));
  }

  /** Layers without coverage. */
  predicate Faint(ls: seq<Layer>) {
    forall l | l in ls :: l.alpha <= 0
  }

  lemma {:induction false} FaintOver(ls: seq<Layer>, e: Word)
    requires Faint(ls)
    ensures Over(ls, e) == e
  {
    if ls != [] { FaintOver(ls[..|ls| - 1], e); }
  }
}

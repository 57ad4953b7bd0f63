/**
 Rounded rectangles of app/src/gfx.c: what `gfx_round_a` leaves on each pixel, told by the
 pixel's distances from the edges, and exactly when the picture is its own mirror image.
 */
module Rounds {
  import opened Raster
  import opened Shapes
  import Rows

  /** Distance of column d of n from the nearer end. */
  function Inset(d: int, n: int): int {
    if d <= n - 1 - d then d else n - 1 - d
  }

  /** How far column d of n reaches into the two corners on its line, counted from their centres:
      corners that meet both reach it. */
  function Sides(d: int, n: int, r: nat): seq<nat> {
    (if 0 <= d <= r then [r - d] else []) + (if 0 <= n - 1 - d <= r then [r - (n - 1 - d)] else [])
  }

  function Line(k: Kit, c: Call, xs: seq<nat>, y: nat): seq<Layer>
    requires c.RoundA?
  {
    seq<Layer>(|xs|, i requires 0 <= i < |xs| => Layer(c.c, k.disc(Radius(c), xs[i], y, c.a)))
  }

  /** The disc at every pair of distances, line by line. */
  function Cross(k: Kit, c: Call, xs: seq<nat>, ys: seq<nat>): seq<Layer>
    requires c.RoundA?
  {
    if ys == [] then [] else Line(k, c, xs, ys[0]) + Cross(k, c, xs, ys[1..])
  }

  /** The radius is the largest that is asked for and fits both sides. */
  lemma RadiusFits(c: Call)
    requires c.RoundA? && c.w >= 1 && c.h >= 1
    ensures var r := Radius(c);
      && r <= (if c.r < 0 then 0 else c.r) && 2 * r <= c.w && 2 * r <= c.h
      && (r == (if c.r < 0 then 0 else c.r) || 2 * r + 2 > c.w || 2 * r + 2 > c.h)
  {
  }

  // ---- the three strips -----------------------------------------------------------------

  /** The strips are one blend of everything but the four squares cut out for the corners. */
  lemma StripsAt(k: Kit, c: Call, px: int, py: int, e: Word)
    requires c.RoundA? && c.w >= 1 && c.h >= 1
    ensures Over(LayersAll(k, Subs(k, c), px, py, Depth(c)), e) == Based(c, px, py, e)
  {
    hide BlendPx, Layers;
    var s := Subs(k, c);
    assert |s| == 3;
    assert LayersAll(k, [], px, py, 2) == [];
    assert s[..3] == s && s[..3][..2] == s[..2] && s[..2][..1] == s[..1] && s[..1][..0] == [];
    SubsShallower(k, c);
    var l1 := LayersAll(k, s[..1], px, py, 2);
    var l2 := LayersAll(k, s[..2], px, py, 2);
    assert l1 == [] + Layers(k, s[0], px, py) == Layers(k, s[0], px, py);
    assert l2 == l1 + Layers(k, s[1], px, py);
    assert LayersAll(k, s, px, py, 2) == l2 + Layers(k, s[2], px, py);
    OverConcat(l2, Layers(k, s[2], px, py), e);
    OverConcat(l1, Layers(k, s[1], px, py), e);
    RectAAt(k, s[0], px, py, e);
    RectAAt(k, s[1], px, py, Over(l1, e));
    RectAAt(k, s[2], px, py, Over(l2, e));
  }

  function Based(c: Call, px: int, py: int, e: Word): Word
    requires c.RoundA?
  {
    if Inside(px, py, c.x, c.y, c.w, c.h)
      && (Inset(px - c.x, c.w) >= Radius(c) || Inset(py - c.y, c.h) >= Radius(c))
    then BlendPx(e, c.c, c.a) else e
  }

  // ---- the four corners -----------------------------------------------------------------

  function Arm(k: Kit, c: Call, right: bool, low: bool, px: int, py: int): seq<Layer>
    requires c.RoundA?
  {
    var r := Radius(c);
    Corner(k, c, if right then c.x + c.w - r - 1 else c.x + r, if low then c.y + c.h - r - 1 else c.y + r,
           if right then 1 else -1, if low then 1 else -1, px, py)
  }

  lemma RoundIs(k: Kit, w: nat, c: Call, p: Picture, i: nat)
    requires w > 0 && i < |p| && c.RoundA? && c.w >= 1 && c.h >= 1
    ensures var (px, py) := (i % w, i / w);
      Draw(k, w, c, p)[i] ==
        Over(Arm(k, c, false, false, px, py) + Arm(k, c, true, false, px, py) +
             Arm(k, c, false, true, px, py) + Arm(k, c, true, true, px, py), Based(c, px, py, p[i]))
  {
    hide Based, BlendPx;
    var (px, py) := (i % w, i / w);
    AtIs(k, w, c, p, i);
    OverConcat(LayersAll(k, Subs(k, c), px, py, Depth(c)), Own(k, c, px, py), p[i]);
    StripsAt(k, c, px, py, p[i]);
    assert Own(k, c, px, py) ==
      Arm(k, c, false, false, px, py) + Arm(k, c, true, false, px, py) +
      Arm(k, c, false, true, px, py) + Arm(k, c, true, true, px, py);
  }

  lemma ArmsCross(k: Kit, c: Call, px: int, py: int)
    requires c.RoundA?
    ensures var r := Radius(c);
      Arm(k, c, false, false, px, py) + Arm(k, c, true, false, px, py) +
      Arm(k, c, false, true, px, py) + Arm(k, c, true, true, px, py)
      == Cross(k, c, Sides(px - c.x, c.w, r), Sides(py - c.y, c.h, r))
  {
    hide Radius;
    var r := Radius(c);
    var xs, ys := Sides(px - c.x, c.w, r), Sides(py - c.y, c.h, r);
    ArmsLine(k, c, false, px, py);
    ArmsLine(k, c, true, px, py);
    var top, low := Arm(k, c, false, false, px, py) + Arm(k, c, true, false, px, py),
                    Arm(k, c, false, true, px, py) + Arm(k, c, true, true, px, py);
    hide Arm, Line;
    assert Arm(k, c, false, false, px, py) + Arm(k, c, true, false, px, py) +
      Arm(k, c, false, true, px, py) + Arm(k, c, true, true, px, py) == top + low;
    CrossOf(k, c, xs, ys);
  }

  lemma CrossOf(k: Kit, c: Call, xs: seq<nat>, ys: seq<nat>)
    requires c.RoundA? && |ys| <= 2
    ensures Cross(k, c, xs, ys) ==
      (if |ys| > 0 then Line(k, c, xs, ys[0]) else []) + (if |ys| > 1 then Line(k, c, xs, ys[1]) else [])
  {
    hide Line;
    if |ys| > 0 { assert ys[1..] == [] || (ys[1..][0] == ys[1] && ys[1..][1..] == []); }
  }

  lemma NoCross(k: Kit, c: Call, xs: seq<nat>, ys: seq<nat>)
    requires c.RoundA? && |ys| <= 2 && (xs == [] || ys == [])
    ensures Cross(k, c, xs, ys) == []
  {
    CrossOf(k, c, xs, ys);
  }

  /** The two corners of one line. */
  lemma ArmsLine(k: Kit, c: Call, low: bool, px: int, py: int)
    requires c.RoundA?
    ensures var r := Radius(c);
      var y := if low then c.h - 1 - (py - c.y) else py - c.y;
      Arm(k, c, false, low, px, py) + Arm(k, c, true, low, px, py)
      == if 0 <= y <= r then Line(k, c, Sides(px - c.x, c.w, r), r - y) else []
  {
    hide Radius;
  }

  /** Every pixel of a rounded rectangle, on every surface. */
  lemma RoundBySides(k: Kit, w: nat, c: Call, p: Picture, i: nat)
    requires w > 0 && i < |p| && c.RoundA? && c.w >= 1 && c.h >= 1
    ensures var r := Radius(c);
      Draw(k, w, c, p)[i] ==
        Over(Cross(k, c, Sides(i % w - c.x, c.w, r), Sides(i / w - c.y, c.h, r)), Based(c, i % w, i / w, p[i]))
  {
    hide Draw, Over, Cross, Based, Sides, Radius, Arm;
    RoundIs(k, w, c, p, i);
    ArmsCross(k, c, i % w, i / w);
  }

  /** It leaves everything outside its rectangle alone. */
  lemma RoundOutside(k: Kit, w: nat, c: Call, p: Picture, i: nat)
    requires w > 0 && i < |p| && c.RoundA? && c.w >= 1 && c.h >= 1
    requires !Inside(i % w, i / w, c.x, c.y, c.w, c.h)
    ensures Draw(k, w, c, p)[i] == p[i]
  {
    hide Radius, Draw, Over, BlendPx, Cross;
    var (dx, dy, r) := (i % w - c.x, i / w - c.y, Radius(c));
    RoundBySides(k, w, c, p, i);
    RadiusFits(c);
    var xs, ys := Sides(dx, c.w, r), Sides(dy, c.h, r);
    assert xs == [] || ys == [];
    NoCross(k, c, xs, ys);
    OverFew(p[i], Layer(c.c, 0));
  }

  // ---- mirror images --------------------------------------------------------------------

  /** Pixels that are each other's image, left and right of the middle of x to x + w, look alike. */
  ghost predicate LeftRight(c: Call, x: int, n: int) {
    forall k: Kit, w: nat, p: Picture, i: nat, j: nat
      | w > 0 && i < |p| && j < |p| && i / w == j / w && i % w + j % w == 2 * x + n - 1 && p[i] == p[j] ::
      Draw(k, w, c, p)[i] == Draw(k, w, c, p)[j]
  }

  ghost predicate TopBottom(c: Call, y: int, n: int) {
    forall k: Kit, w: nat, p: Picture, i: nat, j: nat
      | w > 0 && i < |p| && j < |p| && i % w == j % w && i / w + j / w == 2 * y + n - 1 && p[i] == p[j] ::
      Draw(k, w, c, p)[i] == Draw(k, w, c, p)[j]
  }

  /** The corners of the narrow side share a column: the rectangle is as round as it is wide. */
  predicate Meets(n: int, across: int, r: int) {
    n % 2 == 0 && 2 * r >= n && across >= n
  }

  lemma MeetsIs(c: Call)
    requires c.RoundA? && c.w >= 1 && c.h >= 1
    ensures Meets(c.w, c.h, c.r) <==> 2 * Radius(c) == c.w
    ensures Meets(c.h, c.w, c.r) <==> 2 * Radius(c) == c.h
  {
  }

  lemma SidesMirror(d: int, n: int, r: nat)
    requires 2 * r < n || !(r - 1 <= d <= r)
    requires 2 * r <= n
    ensures Sides(n - 1 - d, n, r) == Sides(d, n, r)
  {
  }

  lemma BasedMirror(c: Call, px: int, py: int, e: Word)
    requires c.RoundA?
    ensures Based(c, 2 * c.x + c.w - 1 - px, py, e) == Based(c, px, py, e)
    ensures Based(c, px, 2 * c.y + c.h - 1 - py, e) == Based(c, px, py, e)
  {
  }

  /** A rounded rectangle is its own mirror image, left and right, on every surface if and only if it is not as
      round as it is wide, or its middle columns are not on the surface together.  Where they are, both
      corners blend into each, in the same order, and rounding tells them apart. */
  lemma LeftRightExactly(c: Call)
    requires c.RoundA? && c.w >= 1 && c.h >= 1
    ensures LeftRight(c, c.x, c.w) <==> !(Meets(c.w, c.h, c.r) && c.x + c.w / 2 >= 1 && c.y + c.h >= 1)
  {
    hide Draw;
    if Meets(c.w, c.h, c.r) && c.x + c.w / 2 >= 1 && c.y + c.h >= 1 {
      LeftRightFails(c);
    } else {
      forall k: Kit, w: nat, p: Picture, i: nat, j: nat
        | w > 0 && i < |p| && j < |p| && i / w == j / w && i % w + j % w == 2 * c.x + c.w - 1 && p[i] == p[j]
        ensures Draw(k, w, c, p)[i] == Draw(k, w, c, p)[j]
      {
        Alike(k, w, c, p, i, j, i % w, i / w, j % w, j / w);
      }
    }
  }

  /** Two pixels that are each other's image one way, the rectangle not as round as it is long that way or its
      middle not on the surface. */
  lemma Alike(k: Kit, w: nat, c: Call, p: Picture, i: nat, j: nat, px: nat, py: nat, qx: nat, qy: nat)
    requires c.RoundA? && c.w >= 1 && c.h >= 1 && w > 0 && i < |p| && j < |p| && p[i] == p[j]
    requires px == i % w && py == i / w && qx == j % w && qy == j / w
    requires
      || (py == qy && px + qx == 2 * c.x + c.w - 1
          && !(Meets(c.w, c.h, c.r) && c.x + c.w / 2 >= 1 && c.y + c.h >= 1))
      || (px == qx && py + qy == 2 * c.y + c.h - 1
          && !(Meets(c.h, c.w, c.r) && c.y + c.h / 2 >= 1 && c.x + c.w >= 1))
    ensures Draw(k, w, c, p)[i] == Draw(k, w, c, p)[j]
  {
    hide Draw, Over, Cross, Sides, Based, Radius, Meets;
    var across := py == qy && px + qx == 2 * c.x + c.w - 1
                  && !(Meets(c.w, c.h, c.r) && c.x + c.w / 2 >= 1 && c.y + c.h >= 1);
    if if across then py >= c.y + c.h else px >= c.x + c.w {
      PastEnd(k, w, c, p, i);
      PastEnd(k, w, c, p, j);
    } else {
      if across { SidesAcross(c, px, qx, py); } else { SidesDown(c, py, qy, px); }
      BasedMirror(c, px, py, p[i]);
      RoundBySides(k, w, c, p, i);
      RoundBySides(k, w, c, p, j);
    }
  }

  lemma PastEnd(k: Kit, w: nat, c: Call, p: Picture, i: nat)
    requires w > 0 && i < |p| && c.RoundA? && c.w >= 1 && c.h >= 1
    requires i / w >= c.y + c.h || i % w >= c.x + c.w
    ensures Draw(k, w, c, p)[i] == p[i]
  {
    hide Draw;
    RoundOutside(k, w, c, p, i);
  }

  /** Images of each other, on a surface, reach the corners alike. */
  lemma SidesAcross(c: Call, px: nat, qx: nat, y: int)
    requires c.RoundA? && c.w >= 1 && c.h >= 1 && px + qx == 2 * c.x + c.w - 1 && 0 <= y < c.y + c.h
    requires !(Meets(c.w, c.h, c.r) && c.x + c.w / 2 >= 1 && c.y + c.h >= 1)
    ensures qx - c.x == c.w - 1 - (px - c.x)
    ensures Sides(qx - c.x, c.w, Radius(c)) == Sides(px - c.x, c.w, Radius(c))
  {
    hide Radius, Sides;
    RadiusFits(c);
    MeetsIs(c);
    SidesMirror(px - c.x, c.w, Radius(c));
  }

  /** And likewise top and bottom. */
  lemma TopBottomExactly(c: Call)
    requires c.RoundA? && c.w >= 1 && c.h >= 1
    ensures TopBottom(c, c.y, c.h) <==> !(Meets(c.h, c.w, c.r) && c.y + c.h / 2 >= 1 && c.x + c.w >= 1)
  {
    hide Draw;
    if Meets(c.h, c.w, c.r) && c.y + c.h / 2 >= 1 && c.x + c.w >= 1 {
      TopBottomFails(c);
    } else {
      forall k: Kit, w: nat, p: Picture, i: nat, j: nat
        | w > 0 && i < |p| && j < |p| && i % w == j % w && i / w + j / w == 2 * c.y + c.h - 1 && p[i] == p[j]
        ensures Draw(k, w, c, p)[i] == Draw(k, w, c, p)[j]
      {
        Alike(k, w, c, p, i, j, i % w, i / w, j % w, j / w);
      }
    }
  }

  lemma SidesDown(c: Call, py: nat, qy: nat, x: int)
    requires c.RoundA? && c.w >= 1 && c.h >= 1 && py + qy == 2 * c.y + c.h - 1 && 0 <= x < c.x + c.w
    requires !(Meets(c.h, c.w, c.r) && c.y + c.h / 2 >= 1 && c.x + c.w >= 1)
    ensures qy - c.y == c.h - 1 - (py - c.y)
    ensures Sides(qy - c.y, c.h, Radius(c)) == Sides(py - c.y, c.h, Radius(c))
  {
    hide Radius, Sides;
    RadiusFits(c);
    MeetsIs(c);
    SidesMirror(py - c.y, c.h, Radius(c));
  }

  // ---- where corners meet -----------------------------------------------------------------

  /** Two coverages of a colour whose order tells, over a channel five away from it. */
  const ONE := 102
  const TWO := 170

  function Five(s: Byte): Byte { if s <= 250 then s + 5 else s - 5 }

  lemma OrderTells(c: Color)
    ensures var e := Encode(Color(Five(c.r), c.g, c.b));
      BlendPx(BlendPx(e, c, ONE), c, TWO) != BlendPx(BlendPx(e, c, TWO), c, ONE)
  {
    hide Encode, Channels;
    var d := Color(Five(c.r), c.g, c.b);
    var m, n := Blended(c, d, ONE), Blended(c, d, TWO);
    BlendedIs(c, d, ONE);
    BlendedIs(c, d, TWO);
    BlendedIs(c, m, TWO);
    BlendedIs(c, n, ONE);
    EncodeRoundTrip(Blended(c, m, TWO));
    EncodeRoundTrip(Blended(c, n, ONE));
    MixFive(c.r);
  }

  function Blended(c: Color, d: Color, a: int): Color
    requires 0 < a < 255
  {
    Color(Mix(c.r, d.r, a), Mix(c.g, d.g, a), Mix(c.b, d.b, a))
  }

  lemma BlendedIs(c: Color, d: Color, a: int)
    requires 0 < a < 255
    ensures BlendPx(Encode(d), c, a) == Encode(Blended(c, d, a))
  {
    EncodeRoundTrip(d);
  }

  lemma MixFive(s: Byte)
    ensures Mix(s, Mix(s, Five(s), ONE), TWO) != Mix(s, Mix(s, Five(s), TWO), ONE)
  {
    MixApart(s, Five(s), ONE);
    MixApart(s, Five(s), TWO);
    MixApart(s, Mix(s, Five(s), ONE), TWO);
    MixApart(s, Mix(s, Five(s), TWO), ONE);
  }

  lemma MixApart(s: Byte, d: Byte, a: int)
    requires 0 <= a <= 255
    ensures Mix(s, d, a) == s + (d - s) * (255 - a) / 255
  {
    assert s * a + d * (255 - a) == 255 * s + (d - s) * (255 - a);
  }

  function Surface(n: nat, c: Color): Picture {
    seq<Word>(n, _ => Encode(Color(Five(c.r), c.g, c.b)))
  }

  /** Coverage that shows in the corner's last row only, and there in two columns. */
  function RowKit(): Kit {
    Kit((r, x, y, _) => if y != r then 0 else if x == 1 then ONE else if x == 0 then TWO else 0,
        (_, _, _) => 0, (_, _) => Color(0, 0, 0), _ => false, (_, _, _) => [], _ => [],
        (_, _, _) => Layer(Color(0, 0, 0), 0), (_, _) => 0)
  }

  function ColumnKit(): Kit {
    RowKit().(disc := (r, x, y, _) => if x != r then 0 else if y == 1 then ONE else if y == 0 then TWO else 0)
  }

  lemma LeftRightFails(c: Call)
    requires c.RoundA? && c.w >= 1 && c.h >= 1
    requires Meets(c.w, c.h, c.r) && c.x + c.w / 2 >= 1 && c.y + c.h >= 1
    ensures !LeftRight(c, c.x, c.w)
  {
    hide Draw, Radius, Over, Cross, Sides, Based, BlendPx;
    var (r, y, x) := (c.w / 2, c.y + c.h - 1, c.x + c.w / 2 - 1);
    var w := x + 2;
    var p := Surface(w * (y + 1), c.c);
    Rows.RowIndex(w, y + 1, x, y);
    Rows.RowIndex(w, y + 1, x + 1, y);
    var i, j := y * w + x, y * w + x + 1;
    MeetsIs(c);
    BottomAt(RowKit(), w, c, p, i);
    BottomAt(RowKit(), w, c, p, j);
    OrderTells(c.c);
    assert Draw(RowKit(), w, c, p)[i] != Draw(RowKit(), w, c, p)[j];
  }

  lemma BottomAt(k: Kit, w: nat, c: Call, p: Picture, i: nat)
    requires c.RoundA? && c.w >= 1 && c.h >= 1 && 2 * Radius(c) == c.w && k == RowKit()
    requires w > 0 && i < |p| && i / w == c.y + c.h - 1 && Radius(c) - 1 <= i % w - c.x <= Radius(c)
    ensures Draw(k, w, c, p)[i] ==
      if i % w - c.x < Radius(c) then BlendPx(BlendPx(p[i], c.c, ONE), c.c, TWO)
      else BlendPx(BlendPx(p[i], c.c, TWO), c.c, ONE)
  {
    hide Draw, Radius, Over, Cross, BlendPx;
    var r := Radius(c);
    RadiusFits(c);
    RoundBySides(k, w, c, p, i);
    var xs, ys := Sides(i % w - c.x, c.w, r), Sides(i / w - c.y, c.h, r);
    assert xs == if i % w - c.x < r then [1, 0] else [0, 1];
    assert ys == if c.h - 1 <= r then [0, 1] else [r];
    CrossOf(k, c, xs, ys);
    LineOver(k, c, xs, 0, p[i]);
    Unblended(p[i], c.c);
    LineOver(k, c, xs, r, p[i]);
    hide Line;
    if |ys| == 1 {
      assert Cross(k, c, xs, ys) == Line(k, c, xs, r);
    } else {
      assert Cross(k, c, xs, ys) == Line(k, c, xs, 0) + Line(k, c, xs, r);
      OverConcat(Line(k, c, xs, 0), Line(k, c, xs, r), p[i]);
    }
    assert Based(c, i % w, i / w, p[i]) == p[i];
  }

  lemma Unblended(e: Word, c: Color)
    ensures BlendPx(e, c, 0) == e
  {
  }

  lemma LineOver(k: Kit, c: Call, xs: seq<nat>, y: nat, e: Word)
    requires c.RoundA? && |xs| == 2
    ensures var r := Radius(c);
      Over(Line(k, c, xs, y), e) ==
        BlendPx(BlendPx(e, c.c, k.disc(r, xs[0], y, c.a)), c.c, k.disc(r, xs[1], y, c.a))
  {
    hide Radius, BlendPx;
    var ls := Line(k, c, xs, y);
    assert ls[..1] == [ls[0]];
    OverFew(e, ls[0]);
  }

  lemma TopBottomFails(c: Call)
    requires c.RoundA? && c.w >= 1 && c.h >= 1
    requires Meets(c.h, c.w, c.r) && c.y + c.h / 2 >= 1 && c.x + c.w >= 1
    ensures !TopBottom(c, c.y, c.h)
  {
    hide Draw, Radius, Over, Cross, Sides, Based, BlendPx;
    var (x, y) := (c.x + c.w - 1, c.y + c.h / 2 - 1);
    var w := x + 1;
    var p := Surface(w * (y + 2), c.c);
    Rows.RowIndex(w, y + 2, x, y);
    Rows.RowIndex(w, y + 2, x, y + 1);
    var i, j := y * w + x, (y + 1) * w + x;
    MeetsIs(c);
    RightAt(ColumnKit(), w, c, p, i);
    RightAt(ColumnKit(), w, c, p, j);
    OrderTells(c.c);
    assert Draw(ColumnKit(), w, c, p)[i] != Draw(ColumnKit(), w, c, p)[j];
  }

  lemma RightAt(k: Kit, w: nat, c: Call, p: Picture, i: nat)
    requires c.RoundA? && c.w >= 1 && c.h >= 1 && 2 * Radius(c) == c.h && k == ColumnKit()
    requires w > 0 && i < |p| && i % w == c.x + c.w - 1 && Radius(c) - 1 <= i / w - c.y <= Radius(c)
    ensures Draw(k, w, c, p)[i] ==
      if i / w - c.y < Radius(c) then BlendPx(BlendPx(p[i], c.c, ONE), c.c, TWO)
      else BlendPx(BlendPx(p[i], c.c, TWO), c.c, ONE)
  {
    hide Draw, Radius, Over, Cross, BlendPx;
    var r := Radius(c);
    RadiusFits(c);
    RoundBySides(k, w, c, p, i);
    var xs, ys := Sides(i % w - c.x, c.w, r), Sides(i / w - c.y, c.h, r);
    assert ys == if i / w - c.y < r then [1, 0] else [0, 1];
    assert xs == if c.w - 1 <= r then [0, r] else [r];
    CrossOf(k, c, xs, ys);
    var e := Over(Line(k, c, xs, ys[0]), p[i]);
    EndOver(k, c, xs, ys[0], p[i]);
    EndOver(k, c, xs, ys[1], e);
    OverConcat(Line(k, c, xs, ys[0]), Line(k, c, xs, ys[1]), p[i]);
  }

  lemma EndOver(k: Kit, c: Call, xs: seq<nat>, y: nat, e: Word)
    requires c.RoundA? && k == ColumnKit() && Radius(c) > 0 && (xs == [Radius(c)] || xs == [0, Radius(c)])
    ensures Over(Line(k, c, xs, y), e) == BlendPx(e, c.c, k.disc(Radius(c), Radius(c), y, c.a))
  {
    hide Radius;
    if |xs| == 1 {
      OverFew(e, Line(k, c, xs, y)[0]);
      assert Line(k, c, xs, y) == [Line(k, c, xs, y)[0]];
    } else {
      LineOver(k, c, xs, y, e);
    }
  }
}

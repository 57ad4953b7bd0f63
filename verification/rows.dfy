/**
 The pre-clipped row walks of app/src/gfx.c: `gfx_rect`, the translucent fill of
 `gfx_rect_a` and `blit_glyph` clip once and then write whole row segments.  Each
 is proved to leave exactly the surface that per-pixel drawing would leave.
 */
module Rows {
  import opened Raster

  /** The row address arithmetic: pixel (x, y) and its index determine each other. */
  lemma RowIndex(w: nat, h: nat, x: nat, y: nat)
    requires x < w && y < h
    ensures 0 <= y * w + x < w * h
    ensures (y * w + x) % w == x && (y * w + x) / w == y
  {
    var i := y * w + x;
    Scale(y + 1, h, w);
    assert i == w * (i / w) + i % w;
    var d := i / w - y;
    assert d * w == x - i % w;
    if d >= 1 {
      Scale(1, d, w);
      assert false;
    } else if d <= -1 {
      Scale(1, -d, w);
      assert false;
    }
  }

  /** A surface whose rows above `y` are final. */
  ghost predicate Walked(fb: seq<Word>, before: seq<Word>, after: seq<Word>, w: nat, y: int)
    requires w > 0 && |fb| == |before| == |after|
  {
    forall i | 0 <= i < |fb| :: fb[i] == if i / w < y then after[i] else before[i]
  }

  lemma WalkEnds(fb: seq<Word>, before: seq<Word>, after: seq<Word>, w: nat, h: nat,
                 x0: int, y0: int, x1: int, y1: int)
    requires w > 0 && |fb| == |before| == |after| == w * h
    requires SameOutside(before, after, w, x0, y0, x1, y1)
    requires Walked(fb, before, after, w, y1)
    ensures fb == after
  {
  }

  /** The pixels of a clipped rectangle, by index: row `y` is one contiguous run. */
  lemma RowRun(w: nat, h: nat, x0: nat, x1: nat, y: nat)
    requires x0 <= x1 <= w && y < h
    ensures 0 <= y * w + x0 <= y * w + x1 <= w * h
    ensures forall i | 0 <= i < w * h && w > 0 ::
      y * w + x0 <= i < y * w + x1 <==> i / w == y && x0 <= i % w < x1
  {
    Scale(y + 1, h, w);
    forall i | 0 <= i < w * h && w > 0
      ensures y * w + x0 <= i < y * w + x1 <==> i / w == y && x0 <= i % w < x1
    {
      assert i == w * (i / w) + i % w;
      if y * w + x0 <= i < y * w + x1 {
        RowIndex(w, h, i - y * w, y);
      }
    }
  }

  /** Where drawing leaves a pixel alone, the walk may skip it. */
  ghost predicate SameOutside(before: seq<Word>, after: seq<Word>, w: nat, x0: int, y0: int, x1: int, y1: int)
    requires w > 0 && |before| == |after|
  {
    forall i | 0 <= i < |before| ::
      !(x0 <= i % w < x1 && y0 <= i / w < y1) ==> after[i] == before[i]
  }

  /** What the run of row `y` holds before it is written, and what it must hold. */
  lemma RowTarget(was: seq<Word>, before: seq<Word>, after: seq<Word>, w: nat, h: nat,
                  x0: nat, x1: nat, y0: nat, y1: nat, y: nat, f: Word -> Word)
    requires w > 0 && |was| == |before| == |after| == w * h
    requires x0 < x1 <= w && y0 <= y < y1 <= h
    requires Walked(was, before, after, w, y)
    requires Maps(before, after, w, x0, y0, x1, y1, f)
    ensures 0 <= y * w + x0 <= y * w + x1 <= w * h
    ensures forall i | y * w + x0 <= i < y * w + x1 :: was[i] == before[i] && after[i] == f(was[i])
  {
    RowRun(w, h, x0, x1, y);
  }

  /** Inside the clipped rectangle, drawing is one function of the old word. */
  ghost predicate Maps(before: seq<Word>, after: seq<Word>, w: nat, x0: int, y0: int, x1: int, y1: int,
                       f: Word -> Word)
    requires w > 0 && |before| == |after|
  {
    forall i | 0 <= i < |before| :: x0 <= i % w < x1 && y0 <= i / w < y1 ==> after[i] == f(before[i])
  }

  /** The run of row `y` is final and nothing else moved: one more row is done. */
  lemma RowDone(was: seq<Word>, fb: seq<Word>, before: seq<Word>, after: seq<Word>, w: nat, h: nat,
                x0: nat, y0: int, x1: nat, y1: int, y: nat)
    requires w > 0 && |was| == |fb| == |before| == |after| == w * h
    requires x0 <= x1 <= w && y < h
    requires SameOutside(before, after, w, x0, y0, x1, y1)
    requires Walked(was, before, after, w, y)
    requires forall i | 0 <= i < |fb| ::
      fb[i] == if y * w + x0 <= i < y * w + x1 then after[i] else was[i]
    ensures Walked(fb, before, after, w, y + 1)
  {
    RowRun(w, h, x0, x1, y);
  }

  /** One function of the old word on every pixel of a rectangle, nothing elsewhere. */
  ghost predicate Filled(before: seq<Word>, after: seq<Word>, width: nat,
                         x: int, y: int, w: int, h: int, f: Word -> Word)
    requires width > 0 && |before| == |after|
  {
    forall i | 0 <= i < |before| ::
      after[i] == if Inside(i % width, i / width, x, y, w, h) then f(before[i]) else before[i]
  }

  /** Clipping to the surface loses nothing. */
  lemma Clipped(before: seq<Word>, after: seq<Word>, width: nat, height: nat,
                x: int, y: int, w: int, h: int, f: Word -> Word, x0: int, y0: int, x1: int, y1: int)
    requires width > 0 && |before| == |after| == width * height
    requires Filled(before, after, width, x, y, w, h, f)
    requires x0 == (if x < 0 then 0 else x) && y0 == (if y < 0 then 0 else y)
    requires x1 == (if x + w > width then width else x + w)
    requires y1 == (if y + h > height then height else y + h)
    ensures SameOutside(before, after, width, x0, y0, x1, y1)
    ensures Maps(before, after, width, x0, y0, x1, y1, f)
    ensures Walked(before, before, after, width, y0)
    ensures x0 >= x1 || y0 >= y1 ==> before == after
  {
    forall i | 0 <= i < |before|
      ensures 0 <= i % width < width && 0 <= i / width < height
    {
      PixelOnScreen(i, width, height);
    }
  }

  // ---- gfx_rect -----------------------------------------------------------

  /** `gfx_rect` once the call is past the queue hook. */
  method FillRect(k: Kit, fb: array<Word>, width: nat, height: nat, x: int, y: int, w: int, h: int, c: Color)
    requires width > 0 && fb.Length == width * height
    modifies fb
    ensures fb[..] == Draw(k, width, Rect(x, y, w, h, c), old(fb[..]))
  {
    hide *;
    ghost var before := fb[..];
    ghost var after := Draw(k, width, Rect(x, y, w, h, c), before);
    var e := Encode(c);
    var x0, y0 := if x < 0 then 0 else x, if y < 0 then 0 else y;
    var x1, y1 := x + w, y + h;
    if x1 > width { x1 := width; }
    if y1 > height { y1 := height; }
    ghost var f := (_: Word) => e;
    RectFills(k, width, x, y, w, h, c, before, f);
    Clipped(before, after, width, height, x, y, w, h, f, x0, y0, x1, y1);
    if x0 >= x1 || y0 >= y1 { return; }
    var yy := y0;
    while yy < y1
      invariant y0 <= yy <= y1
      invariant Walked(fb[..], before, after, width, yy)
    {
      ghost var was := fb[..];
      RowTarget(was, before, after, width, height, x0, x1, y0, y1, yy, f);
      var row := yy * width;
      var xx := x0;
      while xx < x1
        invariant x0 <= xx <= x1
        invariant forall i | 0 <= i < fb.Length ::
          fb[i] == if row + x0 <= i < row + xx then after[i] else was[i]
      {
        fb[row + xx] := e;
        xx := xx + 1;
      }
      RowDone(was, fb[..], before, after, width, height, x0, y0, x1, y1, yy);
      yy := yy + 1;
    }
    WalkEnds(fb[..], before, after, width, height, x0, y0, x1, y1);
  }

  lemma RectFills(k: Kit, width: nat, x: int, y: int, w: int, h: int, c: Color, p: Picture, f: Word -> Word)
    requires width > 0 && forall e: Word :: f(e) == Encode(c)
    ensures Filled(p, Draw(k, width, Rect(x, y, w, h, c), p), width, x, y, w, h, f)
  {
    var call := Rect(x, y, w, h, c);
    forall i | 0 <= i < |p|
      ensures Draw(k, width, call, p)[i] ==
              if Inside(i % width, i / width, x, y, w, h) then Encode(c) else p[i]
    {
      RectAt(k, call, i % width, i / width, p[i]);
    }
  }

  // ---- gfx_rect_a -----------------------------------------------------------

  /** The inlined blend: the source's weighted sums over one destination word. */
  function Weighed(e: Word, sr: int, sg: int, sb: int, ia: int): Word
    requires 0 <= sr + (e / 65536) % 256 * ia <= 255 * 255
    requires 0 <= sg + (e / 256) % 256 * ia <= 255 * 255
    requires 0 <= sb + e % 256 * ia <= 255 * 255
  {
    var r := (sr + (e / 65536) % 256 * ia) / 255;
    var g := (sg + (e / 256) % 256 * ia) / 255;
    var b := (sb + e % 256 * ia) / 255;
    0x8000_0000 + r * 65536 + g * 256 + b
  }

  lemma BlendSums(e: Word, c: Color, a: int, sr: int, sg: int, sb: int)
    requires 0 < a < 255 && sr == c.r * a && sg == c.g * a && sb == c.b * a
    ensures 0 <= sr + (e / 65536) % 256 * (255 - a) <= 255 * 255
    ensures 0 <= sg + (e / 256) % 256 * (255 - a) <= 255 * 255
    ensures 0 <= sb + e % 256 * (255 - a) <= 255 * 255
    ensures Weighed(e, sr, sg, sb, 255 - a) == BlendPx(e, c, a)
  {
    MixBound(c.r, (e / 65536) % 256, a);
    MixBound(c.g, (e / 256) % 256, a);
    MixBound(c.b, e % 256, a);
  }

  /** `gfx_rect_a` once the call is past the queue hook. */
  method FillRectA(k: Kit, fb: array<Word>, width: nat, height: nat, x: int, y: int, w: int, h: int, c: Color, a: int)
    requires width > 0 && fb.Length == width * height
    modifies fb
    ensures fb[..] == Draw(k, width, RectA(x, y, w, h, c, a), old(fb[..]))
  {
    hide *;
    ghost var before := fb[..];
    ghost var after := Draw(k, width, RectA(x, y, w, h, c, a), before);
    if a >= 255 {
      OpaqueIsRect(k, width, x, y, w, h, c, a, before);
      FillRect(k, fb, width, height, x, y, w, h, c);
      return;
    }
    ghost var f := (e: Word) => BlendPx(e, c, a);
    RectAFills(k, width, x, y, w, h, c, a, before, f);
    if a <= 0 {
      InvisibleFill(before, after, width, x, y, w, h, c, a, f);
      return;
    }
    var x1, y1 := x + w, y + h;
    var x0, y0 := if x < 0 then 0 else x, if y < 0 then 0 else y;
    if x1 > width { x1 := width; }
    if y1 > height { y1 := height; }
    Clipped(before, after, width, height, x, y, w, h, f, x0, y0, x1, y1);
    if x1 <= x0 || y1 <= y0 { return; }
    var ia := 255 - a;
    var sr, sg, sb := c.r * a, c.g * a, c.b * a;
    var yy := y0;
    while yy < y1
      invariant y0 <= yy <= y1
      invariant Walked(fb[..], before, after, width, yy)
    {
      ghost var was := fb[..];
      RowTarget(was, before, after, width, height, x0, x1, y0, y1, yy, f);
      var row := yy * width;
      var xx := x0;
      while xx < x1
        invariant x0 <= xx <= x1
        invariant forall i | 0 <= i < fb.Length ::
          fb[i] == if row + x0 <= i < row + xx then after[i] else was[i]
      {
        var e := fb[row + xx];
        BlendSums(e, c, a, sr, sg, sb);
        fb[row + xx] := Weighed(e, sr, sg, sb, ia);
        xx := xx + 1;
      }
      RowDone(was, fb[..], before, after, width, height, x0, y0, x1, y1, yy);
      yy := yy + 1;
    }
    WalkEnds(fb[..], before, after, width, height, x0, y0, x1, y1);
  }

  /** A translucent rectangle is one `blend_px` per covered pixel, at any coverage. */
  lemma RectAFills(k: Kit, width: nat, x: int, y: int, w: int, h: int, c: Color, a: int, p: Picture, f: Word -> Word)
    requires width > 0 && forall e: Word :: f(e) == BlendPx(e, c, a)
    ensures Filled(p, Draw(k, width, RectA(x, y, w, h, c, a), p), width, x, y, w, h, f)
  {
    var call := RectA(x, y, w, h, c, a);
    forall i | 0 <= i < |p|
      ensures Draw(k, width, call, p)[i] ==
              if Inside(i % width, i / width, x, y, w, h) then BlendPx(p[i], c, a) else p[i]
    {
      RectAAt(k, call, i % width, i / width, p[i]);
    }
  }

  lemma OpaqueIsRect(k: Kit, width: nat, x: int, y: int, w: int, h: int, c: Color, a: int, p: Picture)
    requires width > 0 && a >= 255
    ensures Draw(k, width, RectA(x, y, w, h, c, a), p) == Draw(k, width, Rect(x, y, w, h, c), p)
  {
    forall i | 0 <= i < |p|
      ensures Draw(k, width, RectA(x, y, w, h, c, a), p)[i] == Draw(k, width, Rect(x, y, w, h, c), p)[i]
    {
      RectAAt(k, RectA(x, y, w, h, c, a), i % width, i / width, p[i]);
      RectAt(k, Rect(x, y, w, h, c), i % width, i / width, p[i]);
    }
  }

  lemma InvisibleFill(before: seq<Word>, after: seq<Word>, width: nat,
                      x: int, y: int, w: int, h: int, c: Color, a: int, f: Word -> Word)
    requires width > 0 && |before| == |after| && a <= 0 && forall e: Word :: f(e) == BlendPx(e, c, a)
    requires Filled(before, after, width, x, y, w, h, f)
    ensures before == after
  {
  }

  // ---- blit_glyph -------------------------------------------------------------

  /** The atlas cell over a pixel: the alpha a per-pixel `blend_px` loop would use there. */
  function GlyphAlpha(gly: seq<Byte>, cell: nat, gx: int, gy: int): Byte
    requires |gly| == cell * cell && 0 <= gx < cell && 0 <= gy < cell
  {
    RowIndex(cell, cell, gx, gy);
    gly[gy * cell + gx]
  }

  function DrawGlyph(width: nat, gly: seq<Byte>, cell: nat, dx: int, dy: int, c: Color, p: Picture): (r: Picture)
    requires width > 0 && |gly| == cell * cell
    ensures |r| == |p|
  {
    seq(|p|, i requires 0 <= i < |p| =>
      if Inside(i % width, i / width, dx, dy, cell, cell)
      then BlendPx(p[i], c, GlyphAlpha(gly, cell, i % width - dx, i / width - dy)) else p[i])
  }

  /** What the run of glyph row `gy` must hold after the blit; `drow` and `row`
      are the two row offsets the source computes. */
  lemma GlyphTarget(was: seq<Word>, before: seq<Word>, width: nat, height: nat, gly: seq<Byte>, cell: nat,
                    dx: int, dy: int, c: Color, gx0: int, gx1: int, gy: int, drow: int, row: int)
    requires width > 0 && |was| == |before| == width * height && |gly| == cell * cell
    requires 0 <= gx0 < gx1 <= cell && 0 <= gy < cell
    requires 0 <= dx + gx0 && dx + gx1 <= width && 0 <= dy + gy < height
    requires drow == (dy + gy) * width + dx && row == gy * cell
    requires Walked(was, before, DrawGlyph(width, gly, cell, dx, dy, c, before), width, dy + gy)
    ensures 0 <= drow + gx0 <= drow + gx1 <= width * height
    ensures 0 <= row + gx0 <= row + gx1 <= cell * cell
    ensures forall i | drow + gx0 <= i < drow + gx1 ::
      was[i] == before[i] &&
      DrawGlyph(width, gly, cell, dx, dy, c, before)[i] == BlendPx(was[i], c, gly[i - drow + row])
  {
    hide Over, BlendPx;
    RowRun(width, height, dx + gx0, dx + gx1, dy + gy);
    RowRun(cell, cell, gx0, gx1, gy);
    forall i | drow + gx0 <= i < drow + gx1
      ensures was[i] == before[i]
      ensures DrawGlyph(width, gly, cell, dx, dy, c, before)[i] == BlendPx(was[i], c, gly[i - drow + row])
    {
      GlyphAt(before, width, height, gly, cell, dx, dy, c, i - drow, gy);
    }
  }

  lemma GlyphAt(p: Picture, width: nat, height: nat, gly: seq<Byte>, cell: nat,
                dx: int, dy: int, c: Color, gx: int, gy: int)
    requires width > 0 && |p| == width * height && |gly| == cell * cell
    requires 0 <= gx < cell && 0 <= gy < cell && 0 <= dx + gx < width && 0 <= dy + gy < height
    ensures 0 <= gy * cell + gx < |gly|
    ensures var i := (dy + gy) * width + (dx + gx);
      && 0 <= i < |p| && i / width == dy + gy
      && DrawGlyph(width, gly, cell, dx, dy, c, p)[i] == BlendPx(p[i], c, gly[gy * cell + gx])
  {
    hide BlendPx;
    RowIndex(width, height, dx + gx, dy + gy);
    RowIndex(cell, cell, gx, gy);
  }

  lemma GlyphClipped(before: seq<Word>, width: nat, height: nat, gly: seq<Byte>, cell: nat,
                     dx: int, dy: int, c: Color, gx0: int, gx1: int, gy0: int, gy1: int)
    requires width > 0 && |before| == width * height && |gly| == cell * cell
    requires gx0 == (if dx < 0 then -dx else 0) && gy0 == (if dy < 0 then -dy else 0)
    requires gx1 == (if dx + cell > width then width - dx else cell)
    requires gy1 == (if dy + cell > height then height - dy else cell)
    ensures var after := DrawGlyph(width, gly, cell, dx, dy, c, before);
      && SameOutside(before, after, width, dx + gx0, dy + gy0, dx + gx1, dy + gy1)
      && Walked(before, before, after, width, dy + gy0)
      && (gx0 >= gx1 || gy0 >= gy1 ==> before == after)
  {
    forall i | 0 <= i < |before|
      ensures 0 <= i % width < width && 0 <= i / width < height
    {
      PixelOnScreen(i, width, height);
    }
  }

  /** `blit_glyph`: one clipped pass over the glyph cell. */
  method BlitGlyph(fb: array<Word>, width: nat, height: nat, gly: seq<Byte>, cell: nat, dx: int, dy: int, c: Color)
    requires width > 0 && fb.Length == width * height && |gly| == cell * cell
    modifies fb
    ensures fb[..] == DrawGlyph(width, gly, cell, dx, dy, c, old(fb[..]))
  {
    hide *;
    ghost var before := fb[..];
    ghost var after := DrawGlyph(width, gly, cell, dx, dy, c, before);
    var gx0, gy0 := if dx < 0 then -dx else 0, if dy < 0 then -dy else 0;
    var gx1 := if dx + cell > width then width - dx else cell;
    var gy1 := if dy + cell > height then height - dy else cell;
    GlyphClipped(before, width, height, gly, cell, dx, dy, c, gx0, gx1, gy0, gy1);
    if gx0 >= gx1 || gy0 >= gy1 { return; }
    var enc := Encode(c);
    var gy := gy0;
    while gy < gy1
      invariant gy0 <= gy <= gy1
      invariant Walked(fb[..], before, after, width, dy + gy)
    {
      ghost var was := fb[..];
      var row := gy * cell;
      var drow := (dy + gy) * width + dx;
      GlyphTarget(was, before, width, height, gly, cell, dx, dy, c, gx0, gx1, gy, drow, row);
      var gx := gx0;
      while gx < gx1
        invariant gx0 <= gx <= gx1
        invariant forall i | 0 <= i < fb.Length ::
          fb[i] == if drow + gx0 <= i < drow + gx then after[i] else was[i]
      {
        var a := gly[row + gx];
        var e := fb[drow + gx];
        assert e == was[drow + gx];
        BlendCases(e, c, a);
        if a == 0 {
        } else if a >= 255 {
          fb[drow + gx] := enc;
        } else {
          BlendSums(e, c, a, c.r * a, c.g * a, c.b * a);
          fb[drow + gx] := Weighed(e, c.r * a, c.g * a, c.b * a, 255 - a);
        }
        assert fb[drow + gx] == after[drow + gx];
        gx := gx + 1;
      }
      RowDone(was, fb[..], before, after, width, height, dx + gx0, dy + gy0, dx + gx1, dy + gy1, dy + gy);
      gy := gy + 1;
    }
    WalkEnds(fb[..], before, after, width, height, dx + gx0, dy + gy0, dx + gx1, dy + gy1);
  }

  lemma BlendCases(e: Word, c: Color, a: int)
    ensures a <= 0 ==> BlendPx(e, c, a) == e
    ensures a >= 255 ==> BlendPx(e, c, a) == Encode(c)
  {
  }
}

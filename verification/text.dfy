/**
 Text of app/src/gfx.c: drawing a string puts its glyphs on the surface one after the
 other, and advances the pen exactly as far as measuring it says, which is what lets a
 queued `gfx_text_tr` answer with the measured width without drawing.

 A string is its bytes before the terminating NUL.  The folding of code points to
 printable characters, the glyph advances and the glyphs are tables, so parameters.
 */
module Text {
  import opened Raster
  import opened Rows
  import opened Tags

  const FONT_FIRST := 32
  const FONT_LAST := 126

  type CString = s: seq<Byte> | forall b | b in s :: b != 0

  /** The byte at `i`, with the terminator after the last one. */
  function At(s: CString, i: nat): Byte {
    if i < |s| then s[i] else 0
  }

  predicate Continues(b: Byte) {
    b / 64 == 2
  }

  /** `utf8_next` from byte `i`: the code point and where the next one starts. */
  function Utf8Next(s: CString, i: nat): (r: (nat, nat))
    requires i < |s|
    ensures i < r.1 <= |s| && r.1 <= i + 4
  {
    var c, p0, p1, p2 := s[i], At(s, i + 1), At(s, i + 2), At(s, i + 3);
    if c < 0x80 then (c, i + 1)
    else if c / 32 == 6 && Continues(p0) then
      var cp := (c % 32) * 64 + p0 % 64;
      (if cp >= 0x80 then cp else '?' as nat, i + 2)
    else if c / 16 == 14 && Continues(p0) && Continues(p1) then
      var cp := (c % 16) * 4096 + (p0 % 64) * 64 + p1 % 64;
      (if cp >= 0x800 && !(0xd800 <= cp <= 0xdfff) then cp else '?' as nat, i + 3)
    else if c / 8 == 30 && Continues(p0) && Continues(p1) && Continues(p2) then
      var cp := (c % 8) * 262144 + (p0 % 64) * 4096 + (p1 % 64) * 64 + p2 % 64;
      (if 0x10000 <= cp <= 0x10ffff then cp else '?' as nat, i + 4)
    else ('?' as nat, i + 1)
  }

  /** After its first byte, a character or whatever passes for one takes continuation bytes only. */
  lemma TakesContinuations(s: CString, i: nat, j: nat)
    requires i < |s| && i < j < Utf8Next(s, i).1
    ensures Continues(s[j])
  {
  }

  /** Reading from byte `i` on comes to byte `k`. */
  predicate ComesTo(s: CString, i: nat, k: nat)
    requires i <= |s|
    decreases |s| - i
  {
    i == k || (i < k && i < |s| && ComesTo(s, Utf8Next(s, i).1, k))
  }

  /** Whatever stands before it, malformed or not, a byte that begins a character is come to: nothing
      swallows it. */
  lemma {:induction false} Resyncs(s: CString, i: nat, k: nat)
    requires i <= k <= |s| && (k < |s| ==> !Continues(s[k]))
    ensures ComesTo(s, i, k)
    decreases k - i
  {
    if i < k {
      var n := Utf8Next(s, i).1;
      if k < n { TakesContinuations(s, i, k); }
      Resyncs(s, n, k);
    }
  }

  /** A character that can be encoded; the terminator cannot stand in a string. */
  predicate Scalar(cp: nat) {
    0 < cp <= 0x10ffff && !(0xd800 <= cp <= 0xdfff)
  }

  /** UTF-8, section 3 of RFC 3629. */
  function Utf8(cp: nat): (s: CString)
    requires Scalar(cp)
    ensures 1 <= |s| <= 4
  {
    if cp < 0x80 then [cp]
    else if cp < 0x800 then [0xc0 + cp / 64, 0x80 + cp % 64]
    else if cp < 0x10000 then [0xe0 + cp / 4096, 0x80 + cp / 64 % 64, 0x80 + cp % 64]
    else [0xf0 + cp / 262144, 0x80 + cp / 4096 % 64, 0x80 + cp / 64 % 64, 0x80 + cp % 64]
  }

  lemma Lead2(q: nat)
    requires q < 32
    ensures (0xc0 + q) / 32 == 6 && (0xc0 + q) % 32 == q
  {}

  lemma Lead3(q: nat)
    requires q < 16
    ensures (0xe0 + q) / 16 == 14 && (0xe0 + q) % 16 == q && (0xe0 + q) / 32 == 7
  {}

  lemma Lead4(q: nat)
    requires q < 8
    ensures (0xf0 + q) / 8 == 30 && (0xf0 + q) % 8 == q && (0xf0 + q) / 16 == 15 && (0xf0 + q) / 32 == 7
  {}

  lemma Trail(q: nat)
    requires q < 64
    ensures (0x80 + q) / 64 == 2 && (0x80 + q) % 64 == q
  {}

  /** An encoded character is read back, wherever it stands. */
  lemma Utf8Reads(s: CString, i: nat, cp: nat)
    requires Scalar(cp) && i + |Utf8(cp)| <= |s| && s[i..i + |Utf8(cp)|] == Utf8(cp)
    ensures Utf8Next(s, i) == (cp, i + |Utf8(cp)|)
  {
    var e := Utf8(cp);
    var t := s[i..i + |e|];
    assert forall j | 0 <= j < |e| :: t[j] == s[i + j];
    if cp < 0x80 {
      assert s[i] == e[0];
    } else if cp < 0x800 {
      Lead2(cp / 64);
      Trail(cp % 64);
      assert s[i] == e[0] && s[i + 1] == e[1];
    } else if cp < 0x10000 {
      ThreeRead(s, i, cp);
    } else {
      FourRead(s, i, cp);
    }
  }

  lemma ThreeRead(s: CString, i: nat, cp: nat)
    requires Scalar(cp) && 0x800 <= cp < 0x10000
    requires i + 3 <= |s| && s[i..i + 3] == Utf8(cp)
    ensures Utf8Next(s, i) == (cp, i + 3)
  {
    Lead3(cp / 4096);
    Trail(cp / 64 % 64);
    Trail(cp % 64);
    Join3(cp);
    var t := s[i..i + 3];
    assert s[i] == t[0] && s[i + 1] == t[1] && s[i + 2] == t[2];
  }

  lemma FourRead(s: CString, i: nat, cp: nat)
    requires Scalar(cp) && 0x10000 <= cp
    requires i + 4 <= |s| && s[i..i + 4] == Utf8(cp)
    ensures Utf8Next(s, i) == (cp, i + 4)
  {
    Lead4(cp / 262144);
    Trail(cp / 4096 % 64);
    Trail(cp / 64 % 64);
    Trail(cp % 64);
    Join4(cp);
    var t := s[i..i + 4];
    assert s[i] == t[0] && s[i + 1] == t[1] && s[i + 2] == t[2] && s[i + 3] == t[3];
  }

  lemma Join3(cp: nat)
    ensures cp == cp / 4096 * 4096 + cp / 64 % 64 * 64 + cp % 64
  {
    assert cp / 64 == cp / 4096 * 64 + cp / 64 % 64;
  }

  lemma Join4(cp: nat)
    ensures cp == cp / 262144 * 262144 + cp / 4096 % 64 * 4096 + cp / 64 % 64 * 64 + cp % 64
  {
    Join3(cp);
    assert cp / 4096 == cp / 262144 * 64 + cp / 4096 % 64;
  }

  lemma Split3(x: nat, y: nat, z: nat)
    requires y < 64 && z < 64
    ensures var cp := x * 4096 + y * 64 + z;
      cp / 4096 == x && cp / 64 % 64 == y && cp % 64 == z && cp / 64 == x * 64 + y
  {
    var cp := x * 4096 + y * 64 + z;
    assert cp == 64 * (64 * x + y) + z;
    assert cp / 64 == 64 * x + y;
  }

  /** Whatever is read as other than a question mark was the encoding of that character. */
  lemma Utf8Only(s: CString, i: nat)
    requires i < |s| && Utf8Next(s, i).0 != '?' as nat
    ensures var (cp, next) := Utf8Next(s, i);
      Scalar(cp) && s[i..next] == Utf8(cp)
  {
    var c, p0, p1, p2 := s[i], At(s, i + 1), At(s, i + 2), At(s, i + 3);
    assert c in s;
    var next := Utf8Next(s, i).1;
    if c < 0x80 {
      assert s[i..next] == [c];
    } else if c / 32 == 6 && Continues(p0) {
      TwoOnly(c, p0);
      hide Utf8;
      assert s[i..next] == [c, p0];
    } else if c / 16 == 14 && Continues(p0) && Continues(p1) {
      ThreeOnly(c, p0, p1);
      hide Utf8;
      assert s[i..next] == [c, p0, p1];
    } else {
      FourOnly(c, p0, p1, p2);
      hide Utf8;
      assert s[i..next] == [c, p0, p1, p2];
    }
  }

  lemma TwoOnly(c: Byte, p0: Byte)
    requires c / 32 == 6 && Continues(p0)
    ensures var cp := (c % 32) * 64 + p0 % 64;
      cp >= 0x80 ==> Scalar(cp) && Utf8(cp) == [c, p0]
  {
    assert c == 0xc0 + c % 32 && p0 == 0x80 + p0 % 64;
  }

  lemma ThreeOnly(c: Byte, p0: Byte, p1: Byte)
    requires c / 16 == 14 && Continues(p0) && Continues(p1)
    ensures var cp := (c % 16) * 4096 + (p0 % 64) * 64 + p1 % 64;
      cp >= 0x800 && !(0xd800 <= cp <= 0xdfff) ==> Scalar(cp) && Utf8(cp) == [c, p0, p1]
  {
    assert c == 0xe0 + c % 16 && p0 == 0x80 + p0 % 64 && p1 == 0x80 + p1 % 64;
    Split3(c % 16, p0 % 64, p1 % 64);
  }

  lemma FourOnly(c: Byte, p0: Byte, p1: Byte, p2: Byte)
    requires c / 8 == 30 && Continues(p0) && Continues(p1) && Continues(p2)
    ensures var cp := (c % 8) * 262144 + (p0 % 64) * 4096 + (p1 % 64) * 64 + p2 % 64;
      0x10000 <= cp <= 0x10ffff ==> Scalar(cp) && Utf8(cp) == [c, p0, p1, p2]
  {
    assert c == 0xf0 + c % 8 && p0 == 0x80 + p0 % 64 && p1 == 0x80 + p1 % 64 && p2 == 0x80 + p2 % 64;
    Split4(c % 8, p0 % 64, p1 % 64, p2 % 64);
  }

  lemma Split4(w: nat, x: nat, y: nat, z: nat)
    requires x < 64 && y < 64 && z < 64
    ensures var cp := w * 262144 + x * 4096 + y * 64 + z;
      cp / 262144 == w && cp / 4096 % 64 == x && cp / 64 % 64 == y && cp % 64 == z
  {
    var cp := w * 262144 + x * 4096 + y * 64 + z;
    Split3(w * 64 + x, y, z);
    assert cp == (w * 64 + x) * 4096 + y * 64 + z;
  }

  /** The characters a string is drawn with, from byte `i` on. */
  function Glyphs(s: CString, i: nat, fold: nat -> Byte): seq<Byte>
    requires i <= |s|
    decreases |s| - i
  {
    if i == |s| then []
    else
      var (cp, next) := Utf8Next(s, i);
      (if fold(cp) == 0 then [] else [Shown(fold(cp))]) + Glyphs(s, next, fold)
  }

  function Shown(ch: Byte): Byte {
    if ch < FONT_FIRST || ch > FONT_LAST then '?' as int else ch
  }

  function Sum(gs: seq<Byte>, adv: Byte -> int): int {
    if gs == [] then 0 else adv(gs[0]) + Sum(gs[1..], adv)
  }

  /** The pen position of each glyph. */
  function Placed(gs: seq<Byte>, x: int, adv: Byte -> int, track: int): seq<(Byte, int)> {
    if gs == [] then [] else [(gs[0], x)] + Placed(gs[1..], x + adv(gs[0]) + track, adv, track)
  }

  /** The width of a run: tracking between glyphs, none after the last. */
  function Width(gs: seq<Byte>, adv: Byte -> int, track: int): int {
    Sum(gs, adv) + (if |gs| > 0 then (|gs| - 1) * track else 0)
  }

  /** Each glyph stands where the glyphs before it, measured, and the tracking after them end. */
  lemma {:induction false} PlacedAt(gs: seq<Byte>, x: int, adv: Byte -> int, track: int, n: nat)
    requires n < |gs|
    ensures |Placed(gs, x, adv, track)| == |gs|
    ensures Placed(gs, x, adv, track)[n] == (gs[n], x + Width(gs[..n], adv, track) + if n > 0 then track else 0)
  {
    var next := x + adv(gs[0]) + track;
    if n == 0 {
      PlacedLength(gs, x, adv, track);
    } else {
      PlacedAt(gs[1..], next, adv, track, n - 1);
      assert gs[..n][1..] == gs[1..][..n - 1];
      NextGap(n - 2, track);
    }
  }

  lemma {:induction false} PlacedLength(gs: seq<Byte>, x: int, adv: Byte -> int, track: int)
    ensures |Placed(gs, x, adv, track)| == |gs|
  {
    if gs != [] { PlacedLength(gs[1..], x + adv(gs[0]) + track, adv, track); }
  }

  /** A text of characters. */
  function Encoded(cps: seq<nat>): (s: CString)
    requires forall cp | cp in cps :: Scalar(cp)
  {
    if cps == [] then [] else Utf8(cps[0]) + Encoded(cps[1..])
  }

  /** One glyph for each character that folds to one, a question mark for what the font does not have. */
  function Folded(cps: seq<nat>, fold: nat -> Byte): seq<Byte> {
    if cps == [] then []
    else
      (if fold(cps[0]) == 0 then [] else if 32 <= fold(cps[0]) <= 126 then [fold(cps[0])] else ['?' as int])
      + Folded(cps[1..], fold)
  }

  /** The glyphs of a well-formed text are those of its characters. */
  lemma {:induction false} GlyphsOfText(s: CString, i: nat, cps: seq<nat>, fold: nat -> Byte)
    requires (forall cp | cp in cps :: Scalar(cp)) && i <= |s| && s[i..] == Encoded(cps)
    ensures Glyphs(s, i, fold) == Folded(cps, fold)
    decreases |cps|
  {
    hide Utf8Next, Utf8;
    if cps != [] {
      var e := Utf8(cps[0]);
      assert s[i..][..|e|] == e && s[i..][..|e|] == s[i..i + |e|];
      assert s[i + |e|..] == s[i..][|e|..] == Encoded(cps[1..]);
      Utf8Reads(s, i, cps[0]);
      GlyphsOfText(s, i + |e|, cps[1..], fold);
      ShownIs(fold(cps[0]));
    }
  }

  lemma GlyphStep(s: CString, i: nat, fold: nat -> Byte)
    requires i < |s|
    ensures var (cp, next) := Utf8Next(s, i);
      var gs := Glyphs(s, i, fold);
      if fold(cp) == 0 then gs == Glyphs(s, next, fold)
      else gs != [] && gs[0] == Shown(fold(cp)) && gs[1..] == Glyphs(s, next, fold)
  {
    hide Utf8Next;
    var (cp, next) := Utf8Next(s, i);
    assert ([Shown(fold(cp))] + Glyphs(s, next, fold))[1..] == Glyphs(s, next, fold);
  }

  /** `gfx_text_tr_w`. */
  method Measure(s: CString, fold: nat -> Byte, adv: Byte -> int, track: int) returns (width: int)
    ensures width == Width(Glyphs(s, 0, fold), adv, track)
  {
    hide Utf8Next, Glyphs;
    GlyphsEnd(s, fold);
    var w, n := 0, 0;
    var p := 0;
    while p < |s|
      invariant 0 <= p <= |s| && n >= 0
      invariant w + Sum(Glyphs(s, p, fold), adv) == Sum(Glyphs(s, 0, fold), adv)
      invariant n + |Glyphs(s, p, fold)| == |Glyphs(s, 0, fold)|
      decreases |s| - p
    {
      var (cp, next) := Utf8Next(s, p);
      var ch := fold(cp);
      ghost var rest := Glyphs(s, next, fold);
      GlyphStep(s, p, fold);
      p := next;
      if ch == 0 { continue; }
      if ch < FONT_FIRST || ch > FONT_LAST { ch := '?' as int; }
      w := w + adv(ch);
      n := n + 1;
    }
    return w + if n > 0 then (n - 1) * track else 0;
  }

  // ---- drawing ------------------------------------------------------------------------

  /** The tables for one scale: folding, advances, and either atlas cells or 8 by 8 bitmaps. */
  datatype Font = Font(fold: nat -> Byte, adv: Byte -> int, useAtlas: bool,
                       atlas: Byte -> seq<Byte>, bitmap: (Byte, int, int) -> bool)

  ghost predicate FontOk(f: Font, scale: nat) {
    forall ch: Byte :: |f.atlas(ch)| == (8 * scale) * (8 * scale)
  }

  /** The first `n` cells of a bitmap, row by row: corners of those that are set. */
  function Cells(f: Font, ch: Byte, x: int, y: int, scale: nat, n: nat): (r: seq<(int, int)>) {
    if n == 0 then []
    else
      var row, col := (n - 1) / 8, (n - 1) % 8;
      Cells(f, ch, x, y, scale, n - 1)
        + (if f.bitmap(ch, row, col) then [(x + col * scale, y + row * scale)] else [])
  }

  /** The squares of a bitmap are those of its set bits, column by column to the right and row by row down. */
  lemma {:induction false} CellsAre(f: Font, ch: Byte, x: int, y: int, scale: nat, n: nat, at: (int, int))
    ensures at in Cells(f, ch, x, y, scale, n) <==>
      exists row: nat, col: nat | row * 8 + col < n && col < 8 ::
        f.bitmap(ch, row, col) && at == (x + col * scale, y + row * scale)
  {
    if n > 0 {
      var row, col := (n - 1) / 8, (n - 1) % 8;
      CellsAre(f, ch, x, y, scale, n - 1, at);
      assert row * 8 + col == n - 1;
    }
  }

  /** A filled square at each corner. */
  function Squares(corners: seq<(int, int)>, scale: nat, c: Color): (r: seq<Call>)
    ensures |r| == |corners|
  {
    seq(|corners|, i requires 0 <= i < |corners| => Rect(corners[i].0, corners[i].1, scale, scale, c))
  }

  /** One glyph on the surface. */
  function InkOne(k: Kit, w: nat, f: Font, scale: nat, y: int, c: Color, g: (Byte, int), p: Picture): (r: Picture)
    requires w > 0 && FontOk(f, scale)
    ensures |r| == |p|
  {
    if f.useAtlas then DrawGlyph(w, f.atlas(g.0), 8 * scale, g.1, y, c, p)
    else DrawAll(k, w, Squares(Cells(f, g.0, g.1, y, scale, 64), scale, c), p)
  }

  /** The glyphs one after the other. */
  function Inked(k: Kit, w: nat, f: Font, scale: nat, y: int, c: Color, gs: seq<(Byte, int)>, p: Picture): (r: Picture)
    requires w > 0 && FontOk(f, scale)
    ensures |r| == |p|
  {
    if gs == [] then p
    else InkOne(k, w, f, scale, y, c, gs[|gs| - 1], Inked(k, w, f, scale, y, c, gs[..|gs| - 1], p))
  }

  lemma InkedNext(k: Kit, w: nat, f: Font, scale: nat, y: int, c: Color, gs: seq<(Byte, int)>, g: (Byte, int),
                  p: Picture)
    requires w > 0 && FontOk(f, scale)
    ensures Inked(k, w, f, scale, y, c, gs + [g], p)
      == InkOne(k, w, f, scale, y, c, g, Inked(k, w, f, scale, y, c, gs, p))
    ensures Inked(k, w, f, scale, y, c, [], p) == p
  {
    assert (gs + [g])[..|gs|] == gs;
  }

  /** `gfx_text_tr` past the queue: the glyphs drawn, and the advance returned. */
  method DrawText(k: Kit, fb: array<Word>, width: nat, height: nat, x: int, y: int, s: CString, scale: nat, c: Color,
                  track: int, f: Font) returns (advance: int)
    requires width > 0 && fb.Length == width * height && FontOk(f, scale)
    modifies fb
    ensures fb[..] == Inked(k, width, f, scale, y, c, Placed(Glyphs(s, 0, f.fold), x, f.adv, track), old(fb[..]))
    ensures advance == Width(Glyphs(s, 0, f.fold), f.adv, track)
  {
    hide Utf8Next, Glyphs, Placed, Sum, Inked, InkOne, FontOk, Penned, Width, Shown;
    GlyphsEnd(s, f.fold);
    var penX, drew := x, false;
    ghost var all, was := Glyphs(s, 0, f.fold), fb[..];
    ghost var n := 0;
    ghost var drawn: seq<(Byte, int)> := [];
    InkedNext(k, width, f, scale, y, c, [], (0, 0), was);
    PenStart(all, x, f.adv, track);
    assert all[0..] == all;
    var p := 0;
    while p < |s|
      invariant 0 <= p <= |s| && 0 <= n <= |all| && drew == (n > 0)
      invariant Glyphs(s, p, f.fold) == all[n..]
      invariant Penned(all, n, drawn, x, penX, f.adv, track)
      invariant fb[..] == Inked(k, width, f, scale, y, c, drawn, was)
      decreases |s| - p
    {
      var (cp, next) := Utf8Next(s, p);
      var ch := f.fold(cp);
      GlyphStep(s, p, f.fold);
      ShownIs(ch);
      p := next;
      if ch == 0 { continue; }
      if ch < FONT_FIRST || ch > FONT_LAST { ch := '?' as int; }
      PenNext(all, n, drawn, x, penX, f.adv, track);
      InkedNext(k, width, f, scale, y, c, drawn, (ch, penX), was);
      DrawOne(k, fb, width, height, penX, y, ch, scale, c, f);
      drawn := drawn + [(ch, penX)];
      penX := penX + f.adv(ch) + track;
      drew := true;
      n := n + 1;
    }
    PenEnd(all, n, drawn, x, penX, f.adv, track);
    return penX - x - (if drew then track else 0);
  }

  lemma ShownIs(ch: Byte)
    ensures Shown(ch) == if ch < FONT_FIRST || ch > FONT_LAST then '?' as int else ch
  {}

  /** `n` glyphs are drawn, the pen is at `penX`, and the rest is still to be placed from there. */
  ghost predicate Penned(all: seq<Byte>, n: nat, drawn: seq<(Byte, int)>, x: int, penX: int, adv: Byte -> int,
                         track: int) {
    && n <= |all| && drawn + Placed(all[n..], penX, adv, track) == Placed(all, x, adv, track)
    && penX - x + Sum(all[n..], adv) == Sum(all, adv) + n * track
  }

  lemma PenStart(all: seq<Byte>, x: int, adv: Byte -> int, track: int)
    ensures Penned(all, 0, [], x, x, adv, track)
  {
    assert all[0..] == all && [] + Placed(all, x, adv, track) == Placed(all, x, adv, track);
  }

  lemma PenNext(all: seq<Byte>, n: nat, drawn: seq<(Byte, int)>, x: int, penX: int, adv: Byte -> int, track: int)
    requires Penned(all, n, drawn, x, penX, adv, track) && n < |all|
    ensures all[n..][0] == all[n] && all[n + 1..] == all[n..][1..]
    ensures Penned(all, n + 1, drawn + [(all[n], penX)], x, penX + adv(all[n]) + track, adv, track)
  {
    hide Placed, Sum;
    DrawStep(all, n, drawn, penX, adv, track);
    NextGap(n, track);
  }

  lemma PenEnd(all: seq<Byte>, n: nat, drawn: seq<(Byte, int)>, x: int, penX: int, adv: Byte -> int, track: int)
    requires Penned(all, n, drawn, x, penX, adv, track)
    ensures all[n..] == [] ==>
      && drawn == Placed(all, x, adv, track)
      && penX - x - (if n > 0 then track else 0) == Width(all, adv, track)
  {
    if all[n..] == [] {
      NoGlyphs(penX, adv, track);
      if n > 0 { NextGap(n - 1, track); }
    }
  }

  /** One glyph: a blit of its atlas cell, or a square for every set cell of its bitmap. */
  method DrawOne(k: Kit, fb: array<Word>, width: nat, height: nat, penX: int, y: int, ch: Byte, scale: nat, c: Color,
                 f: Font)
    requires width > 0 && fb.Length == width * height && FontOk(f, scale)
    modifies fb
    ensures fb[..] == InkOne(k, width, f, scale, y, c, (ch, penX), old(fb[..]))
  {
    hide DrawGlyph, DrawAll, Cells;
    if f.useAtlas {
      BlitGlyph(fb, width, height, f.atlas(ch), 8 * scale, penX, y, c);
      return;
    }
    ghost var was := fb[..];
    NoCells(k, width, f, ch, penX, y, scale, c, was);
    var row := 0;
    while row < 8
      invariant 0 <= row <= 8
      invariant fb[..] == DrawAll(k, width, Squares(Cells(f, ch, penX, y, scale, row * 8), scale, c), was)
    {
      var col := 0;
      while col < 8
        invariant 0 <= col <= 8
        invariant fb[..] == DrawAll(k, width, Squares(Cells(f, ch, penX, y, scale, row * 8 + col), scale, c), was)
      {
        NextCell(k, width, f, ch, penX, y, scale, c, row, col, was);
        if f.bitmap(ch, row, col) {
          FillRect(k, fb, width, height, penX + col * scale, y + row * scale, scale, scale, c);
        }
        col := col + 1;
      }
      row := row + 1;
    }
  }

  lemma NoCells(k: Kit, w: nat, f: Font, ch: Byte, x: int, y: int, scale: nat, c: Color, p: Picture)
    requires w > 0
    ensures DrawAll(k, w, Squares(Cells(f, ch, x, y, scale, 0), scale, c), p) == p
  {}

  lemma NextCell(k: Kit, w: nat, f: Font, ch: Byte, x: int, y: int, scale: nat, c: Color, row: nat, col: nat,
                 p: Picture)
    requires w > 0 && row < 8 && col < 8
    ensures var n := row * 8 + col;
      var before := DrawAll(k, w, Squares(Cells(f, ch, x, y, scale, n), scale, c), p);
      DrawAll(k, w, Squares(Cells(f, ch, x, y, scale, n + 1), scale, c), p)
        == if f.bitmap(ch, row, col) then Draw(k, w, Rect(x + col * scale, y + row * scale, scale, scale, c), before)
           else before
  {
    hide Draw;
    var n := row * 8 + col;
    assert n / 8 == row && n % 8 == col;
    var cs := Cells(f, ch, x, y, scale, n);
    if f.bitmap(ch, row, col) {
      var corner := (x + col * scale, y + row * scale);
      assert Squares(cs + [corner], scale, c) == Squares(cs, scale, c) + [Rect(corner.0, corner.1, scale, scale, c)];
      DrawAllSnoc(k, w, Squares(cs, scale, c), Rect(corner.0, corner.1, scale, scale, c), p);
      assert Cells(f, ch, x, y, scale, n + 1) == cs + [corner];
    } else {
      assert Cells(f, ch, x, y, scale, n + 1) == cs + [] == cs;
    }
  }

  // ---- glyphs and the queue's view of a text --------------------------------------------

  /** The alphas that the atlas cells of the glyphs put on a pixel, in order. */
  function Alphas(f: Font, scale: nat, y: int, gs: seq<(Byte, int)>, px: int, py: int): (r: seq<int>)
    requires FontOk(f, scale)
  {
    if gs == [] then []
    else
      var (ch, x) := gs[|gs| - 1];
      var cell := 8 * scale;
      Alphas(f, scale, y, gs[..|gs| - 1], px, py)
        + (if Inside(px, py, x, y, cell, cell) then [GlyphAlpha(f.atlas(ch), cell, px - x, py - y) as int] else [])
  }

  /** The corners of all set cells of the glyphs, in order. */
  function Corners(f: Font, scale: nat, y: int, gs: seq<(Byte, int)>): seq<(int, int)> {
    if gs == [] then []
    else Corners(f, scale, y, gs[..|gs| - 1]) + Cells(f, gs[|gs| - 1].0, gs[|gs| - 1].1, y, scale, 64)
  }

  /** The drawing parameters of a text are those of its glyphs. */
  ghost predicate KitFits(k: Kit, f: Font, c: Call, gs: seq<(Byte, int)>)
    requires c.Text? && c.scale >= 0 && FontOk(f, c.scale)
  {
    && k.useAtlas(c.scale) == f.useAtlas
    && (forall px, py :: k.glyphs(c, px, py) == Alphas(f, c.scale, c.y, gs, px, py))
    && k.bits(c) == Corners(f, c.scale, c.y, gs)
  }

  function Coats(al: seq<int>, c: Color): (ls: seq<Layer>)
    ensures |ls| == |al|
  {
    seq(|al|, i requires 0 <= i < |al| => Layer(c, al[i]))
  }

  /** Drawing a text in the sense of the queue is drawing its glyphs one after the other. */
  lemma TextIsGlyphs(k: Kit, w: nat, f: Font, c: Call, p: Picture)
    requires w > 0 && c.Text? && c.scale >= 0 && FontOk(f, c.scale) && 0 !in c.text
    requires var gs := Placed(Glyphs(c.text, 0, f.fold), c.x, f.adv, c.track); KitFits(k, f, c, gs)
    ensures var gs := Placed(Glyphs(c.text, 0, f.fold), c.x, f.adv, c.track);
      Inked(k, w, f, c.scale, c.y, c.c, gs, p) == Draw(k, w, c, p)
  {
    hide Glyphs, Placed, Inked, Draw, DrawAll, Corners, Alphas, Over, FontOk;
    var gs := Placed(Glyphs(c.text, 0, f.fold), c.x, f.adv, c.track);
    if f.useAtlas {
      forall i | 0 <= i < |p|
        ensures Inked(k, w, f, c.scale, c.y, c.c, gs, p)[i] == Draw(k, w, c, p)[i]
      {
        InkedAt(k, w, f, c.scale, c.y, c.c, gs, p, i);
        LeafLayers(k, c, i % w, i / w);
        assert Own(k, c, i % w, i / w) == Coats(Alphas(f, c.scale, c.y, gs, i % w, i / w), c.c);
        DrawAt(k, w, c, p, i);
      }
    } else {
      InkedSquares(k, w, f, c.scale, c.y, c.c, gs, p);
      assert Subs(k, c) == Squares(Corners(f, c.scale, c.y, gs), c.scale, c.c);
      NoCoat();
      DrawBySubs(k, w, c, p, DrawAll(k, w, Subs(k, c), p));
    }
  }

  lemma NoCoat()
    ensures forall e: Word :: Over([], e) == e
  {}

  lemma {:induction false} InkedAt(k: Kit, w: nat, f: Font, scale: nat, y: int, c: Color, gs: seq<(Byte, int)>,
                                   p: Picture, i: nat)
    requires w > 0 && FontOk(f, scale) && f.useAtlas && i < |p|
    ensures Inked(k, w, f, scale, y, c, gs, p)[i] == Over(Coats(Alphas(f, scale, y, gs, i % w, i / w), c), p[i])
  {
    hide BlendPx;
    if gs != [] {
      var front := gs[..|gs| - 1];
      var (ch, x) := gs[|gs| - 1];
      InkedAt(k, w, f, scale, y, c, front, p, i);
      var al, cell := Alphas(f, scale, y, front, i % w, i / w), 8 * scale;
      if Inside(i % w, i / w, x, y, cell, cell) {
        var a: int := GlyphAlpha(f.atlas(ch), cell, i % w - x, i / w - y);
        assert Coats(al + [a], c)[..|al|] == Coats(al, c);
      } else {
        assert al + [] == al;
      }
    }
  }

  lemma {:induction false} InkedSquares(k: Kit, w: nat, f: Font, scale: nat, y: int, c: Color, gs: seq<(Byte, int)>,
                                        p: Picture)
    requires w > 0 && FontOk(f, scale) && !f.useAtlas
    ensures Inked(k, w, f, scale, y, c, gs, p) == DrawAll(k, w, Squares(Corners(f, scale, y, gs), scale, c), p)
  {
    hide Draw, FontOk, Cells;
    if gs != [] {
      var front := gs[..|gs| - 1];
      var (ch, x) := gs[|gs| - 1];
      InkedSquares(k, w, f, scale, y, c, front, p);
      var a, b := Corners(f, scale, y, front), Cells(f, ch, x, y, scale, 64);
      DrawAllConcat(k, w, Squares(a, scale, c), Squares(b, scale, c), p);
      assert Squares(a + b, scale, c) == Squares(a, scale, c) + Squares(b, scale, c);
    }
  }

  lemma NoGlyphs(x: int, adv: Byte -> int, track: int)
    ensures Placed([], x, adv, track) == [] && Sum([], adv) == 0
  {}

  /** One glyph drawn, the rest still to be placed after it. */
  lemma DrawStep(all: seq<Byte>, k: nat, drawn: seq<(Byte, int)>, penX: int, adv: Byte -> int, track: int)
    requires k < |all|
    ensures drawn + Placed(all[k..], penX, adv, track)
         == (drawn + [(all[k], penX)]) + Placed(all[k + 1..], penX + adv(all[k]) + track, adv, track)
    ensures Sum(all[k..], adv) == adv(all[k]) + Sum(all[k + 1..], adv)
  {
    assert all[k..][1..] == all[k + 1..];
  }

  lemma NextGap(k: int, track: int)
    ensures (k + 1) * track == k * track + track
  {
  }

  lemma GlyphsEnd(s: CString, fold: nat -> Byte)
    ensures Glyphs(s, |s|, fold) == []
  {
  }
}

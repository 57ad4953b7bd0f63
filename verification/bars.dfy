/**
 The bars around a video picture, in app/src/player_ff.c over the surfaces of app/src/gfx.c.

 A picture overwrites its own rectangle only.  The border is cleared when the surface does not
 hold a clean picture, and for as many paints after a change of geometry as surfaces may still
 hold the old one.  Proved: a surface whose tag names a picture holds it with clean bars, which
 is what lets the drawing queue take a picture for the whole screen; except that of the two painters,
 each of which remembers a geometry of its own, one may come back unnoticed.
 */
module Bars {
  const BUFFERS := 3
  const CLEARS := BUFFERS + 1

  // ---- the picture's rectangle --------------------------------------------------------

  /** The largest rectangle of a picture's shape on a screen of `dw` by `dh`. */
  function Scaled(dw: nat, dh: nat, sw: nat, sh: nat): (r: (nat, nat))
    requires dw > 0 && dh > 0 && sw > 0 && sh > 0
    ensures 1 <= r.0 && 1 <= r.1
  {
    var h := dw * sh / sw;
    var (x, y) := if h > dh then (dh * sw / sh, dh) else (dw, h);
    (if x < 1 then 1 else x, if y < 1 then 1 else y)
  }

  /** It fits the screen, so its columns fit the column map of a screen as wide as the map: a paint
      that fails does so before it has written anything. */
  lemma ScaledFits(dw: nat, dh: nat, sw: nat, sh: nat)
    requires dw > 0 && dh > 0 && sw > 0 && sh > 0
    ensures Scaled(dw, dh, sw, sh).0 <= dw && Scaled(dw, dh, sw, sh).1 <= dh
  {
    var (a, b) := (dw * sh, dh * sw);
    if a / sw > dh {
      Above(a, sw, dh);
      Below(b, sh, dw);
    }
  }

  /** It is the picture's shape: one side is the screen's, and the other what the shape makes of that, to the
      pixel below and at least one. */
  lemma ScaledKeepsShape(dw: nat, dh: nat, sw: nat, sh: nat)
    requires dw > 0 && dh > 0 && sw > 0 && sh > 0
    ensures var (x, y) := Scaled(dw, dh, sw, sh);
      || (x == dw && Rounds(y, dw * sh, sw))
      || (y == dh && Rounds(x, dh * sw, sh))
  {
    RoundsDown(dw * sh, sw);
    RoundsDown(dh * sw, sh);
  }

  /** n is a / k, rounded down, or 1 where that is nothing. */
  predicate Rounds(n: nat, a: nat, k: nat) {
    (n * k <= a && a < n * k + k) || (n == 1 && a < k)
  }

  lemma RoundsDown(a: nat, k: nat)
    requires k > 0
    ensures Rounds(if a / k < 1 then 1 else a / k, a, k)
  {
    assert a == k * (a / k) + a % k;
  }

  lemma Above(a: nat, k: nat, d: nat)
    requires k > 0 && a / k > d
    ensures a >= d * k
  {
    assert a == k * (a / k) + a % k;
    Times(d, a / k, k);
  }

  lemma Below(b: nat, k: nat, d: nat)
    requires k > 0 && b <= d * k
    ensures b / k <= d
  {
    assert b == k * (b / k) + b % k;
    Cancels(b / k, d, k);
  }

  lemma Times(a: nat, b: nat, k: nat)
    requires a <= b
    ensures a * k <= b * k
  {}

  lemma Cancels(a: nat, b: nat, k: nat)
    requires k > 0 && k * a <= b * k
    ensures a <= b
  {
    if a > b { Times(b + 1, a, k); }
  }

  // ---- tags and borders -----------------------------------------------------------------

  /** What a surface's tag says: nothing, a picture and nothing over it, or some other frame. */
  datatype Tag = Unknown | Picture(v: nat) | Other(id: nat)

  /** A surface: its tag, and the geometry for which its border is clear, if any. */
  datatype Surface = Surface(tag: Tag, edge: int)

  const DIRTY := -1

  /** The two painters, for hardware and for scaled frames; each remembers a geometry of its own. */
  datatype Painter = Hw | Sw

  /** The picture of a frame: none, one offered before any drawing, or one painted after some. */
  datatype Offer = NoPicture | Early(v: nat, who: Painter) | Late(v: nat, who: Painter)

  /** A frame: its picture, whether anything is drawn, whether it is drawn at once because the queue
      overflowed, and what names the result, if anything does. */
  datatype Frame = Frame(offer: Offer, drawn: bool, direct: bool, name: Tag)

  predicate Proper(f: Frame) {
    && !f.name.Picture?
    && (f.offer.Late? ==> f.drawn) && (f.direct ==> f.drawn)
  }

  /** Where pictures stand: the geometry of each, and which geometries fill the screen. */
  datatype Layout = Layout(geom: nat -> nat, full: nat -> bool)

  /** The surface still holds a picture of another geometry than the one painted last, which leaves
      a border. */
  ghost predicate Stale(y: Layout, s: Surface, newest: int) {
    s.tag.Picture? && newest >= 0 && y.geom(s.tag.v) != y.geom(newest) && !y.full(y.geom(newest))
  }

  /** What the painters and the display go by: the surfaces, the target, the surface shown (-1 before
      the first), `g_barClearLeft`, the geometry each painter painted last, and the newest picture
      painted. */
  datatype State = State(surf: seq<Surface>, active: int, shown: int, left: nat, lastHw: int, lastSw: int,
                         newest: int)
  {
    ghost predicate Shape() {
      |surf| == BUFFERS && 0 <= active < BUFFERS && -1 <= shown < BUFFERS
    }

    function Last(who: Painter): int {
      if who.Hw? then lastHw else lastSw
    }
  }

  /** A tag that names a picture means the picture with clean bars. */
  ghost predicate Clean(y: Layout, s: State) {
    forall i | 0 <= i < |s.surf| && s.surf[i].tag.Picture? :: s.surf[i].edge == y.geom(s.surf[i].tag.v)
  }

  ghost predicate Sound(y: Layout, s: State) {
    && s.Shape() && Clean(y, s)
    && s.newest >= -1
    && (s.shown < 0 ==> forall i | 0 <= i < BUFFERS :: s.surf[i].tag.Unknown?)
    && (forall i | 0 <= i < BUFFERS && s.surf[i].tag.Picture? :: s.surf[i].tag.v <= s.newest)
    // a stale surface comes up as the target before the clearing ends
    && (Stale(y, s.surf[s.active], s.newest) ==> s.left >= 1)
    && (Stale(y, s.surf[(s.active + 1) % BUFFERS], s.newest) ==> s.left >= 2)
    && (Stale(y, s.surf[(s.active + 2) % BUFFERS], s.newest) ==> s.left >= 3)
  }

  // ---- one frame --------------------------------------------------------------------------

  /** How many clearing paints are due when a painter that painted geometry `last` paints `g`. */
  function Turns(left: nat, who: Painter, last: int, g: nat, full: bool): nat {
    if last == g then left else if who.Sw? && full then 0 else CLEARS
  }

  function TurnsAt(y: Layout, s: State, v: nat, who: Painter): nat {
    Turns(s.left, who, s.Last(who), y.geom(v), y.full(y.geom(v)))
  }

  /** After a paint: the border is clear for the picture if it was cleared or there is none; else it
      is as it was.  `clean` tells that the target is taken for a clean picture. */
  function Painted(y: Layout, s: State, v: nat, who: Painter, clean: bool): State
    requires s.Shape()
  {
    var g, n := y.geom(v), TurnsAt(y, s, v, who);
    var edge := if n > 0 || !clean || y.full(g) then g else s.surf[s.active].edge;
    State(s.surf[s.active := Surface(s.surf[s.active].tag, edge)], s.active, s.shown, if n > 0 then n - 1 else 0,
          if who.Hw? then g else s.lastHw, if who.Sw? then g else s.lastSw, v)
  }

  /** The running tag of a frame when it is presented. */
  function RunningTag(s: State, f: Frame): Tag
    requires s.Shape()
  {
    if f.drawn then f.name else if f.offer.Early? then Picture(f.offer.v) else s.surf[s.active].tag
  }

  /** The surface that holds the frame already, or -1. */
  function Held(s: State, f: Frame): int
    requires s.Shape()
  {
    var t := RunningTag(s, f);
    if f.direct || f.offer.Late? || t == Unknown then -1
    else if t == s.surf[s.active].tag then s.active
    else if s.shown >= 0 && t == s.surf[s.shown].tag && s.surf[s.active].tag != Unknown then s.shown
    else -1
  }

  predicate Idle(s: State, f: Frame) {
    !f.drawn && f.offer.NoPicture? && s.shown >= 0
  }

  /** What the target goes through: an early picture, drawing, a late picture. */
  function Drawn(y: Layout, s: State, f: Frame): State
    requires s.Shape()
  {
    var s1 := if f.offer.Early? then Painted(y, s, f.offer.v, f.offer.who, s.surf[s.active].tag.Picture?) else s;
    var s2 := if f.drawn then s1.(surf := s1.surf[s1.active := s1.surf[s1.active].(edge := DIRTY)]) else s1;
    if f.offer.Late? then Painted(y, s2, f.offer.v, f.offer.who, false) else s2
  }

  function Presented(y: Layout, s: State, f: Frame): (r: State)
    requires s.Shape()
    ensures r.Shape()
  {
    var held := Held(s, f);
    if Idle(s, f) then s
    else if held >= 0 then s.(shown := held, active := if held == s.active then (held + 1) % BUFFERS else s.active)
    else
      var d := Drawn(y, s, f);
      d.(surf := d.surf[d.active := d.surf[d.active].(tag := RunningTag(s, f))],
         shown := s.active, active := (s.active + 1) % BUFFERS)
  }

  // ---- what a frame keeps -------------------------------------------------------------------

  /** Pictures are numbered as they come, and an older one is not offered again; a painter that takes
      over with another geometry finds it new, or clearing has been asked for. */
  predicate Offered(y: Layout, s: State, o: Offer) {
    !o.NoPicture? ==>
      && o.v >= s.newest
      && (s.newest >= 0 && y.geom(o.v) != y.geom(s.newest) ==> s.Last(o.who) != y.geom(o.v) || s.left == CLEARS)
  }

  /** Whatever the frame does, surfaces named as pictures hold them with clean bars. */
  lemma PresentedSound(y: Layout, s: State, f: Frame)
    requires Sound(y, s) && Proper(f) && Offered(y, s, f.offer)
    ensures Sound(y, Presented(y, s, f))
  {
    if !Idle(s, f) && Held(s, f) < 0 { DrawnSound(y, s, f); }
    var a := s.active;
    assert a == 0 || a == 1 || a == 2;
  }

  /** A frame that no surface holds: four paints are enough. */
  lemma DrawnSound(y: Layout, s: State, f: Frame)
    requires Sound(y, s) && Proper(f) && Offered(y, s, f.offer) && !Idle(s, f) && Held(s, f) < 0
    ensures Sound(y, Presented(y, s, f))
  {
    var (a, r) := (s.active, Presented(y, s, f));
    TargetNamed(y, s, f);
    forall i | 0 <= i < BUFFERS && i != a && Stale(y, s.surf[i], r.newest)
      ensures r.left == CLEARS - 1 || (Stale(y, s.surf[i], s.newest) && r.left + 1 >= s.left)
    {
      DueClears(y, s, f, s.surf[i]);
    }
    Rotates(y, s, r);
  }

  lemma TargetNamed(y: Layout, s: State, f: Frame)
    requires Sound(y, s) && Proper(f) && Offered(y, s, f.offer) && !Idle(s, f) && Held(s, f) < 0
    ensures var (a, r) := (s.active, Presented(y, s, f));
      && r == State(s.surf[a := r.surf[a]], (a + 1) % BUFFERS, a, r.left, r.lastHw, r.lastSw, r.newest)
      && r.newest >= s.newest
      && (r.surf[a].tag.Picture? ==> r.surf[a].tag.v == r.newest && r.surf[a].edge == y.geom(r.newest))
  {
  }

  /** The target moves on over the surfaces as they were. */
  lemma Rotates(y: Layout, s: State, r: State)
    requires Sound(y, s) && r.newest >= s.newest && |r.surf| == BUFFERS
    requires r == State(s.surf[s.active := r.surf[s.active]], (s.active + 1) % BUFFERS, s.active, r.left,
                        r.lastHw, r.lastSw, r.newest)
    requires var x := r.surf[s.active]; x.tag.Picture? ==> x.tag.v == r.newest && x.edge == y.geom(r.newest)
    requires forall i | 0 <= i < BUFFERS && i != s.active && Stale(y, s.surf[i], r.newest) ::
               r.left == CLEARS - 1 || (Stale(y, s.surf[i], s.newest) && r.left + 1 >= s.left)
    ensures Sound(y, r)
  {
    hide Stale;
    var (a, b, c) := (s.active, (s.active + 1) % BUFFERS, (s.active + 2) % BUFFERS);
    assert (b + 1) % BUFFERS == c && (b + 2) % BUFFERS == a && r.surf[b] == s.surf[b] && r.surf[c] == s.surf[c];
    NamedFresh(y, r.surf[a], r.newest);
  }

  lemma NamedFresh(y: Layout, x: Surface, newest: int)
    requires x.tag.Picture? ==> x.tag.v == newest
    ensures !Stale(y, x, newest)
  {
  }

  /** What is stale after the frame was before, or all is to be cleared. */
  lemma DueClears(y: Layout, s: State, f: Frame, x: Surface)
    requires Sound(y, s) && Proper(f) && Offered(y, s, f.offer) && !Idle(s, f) && Held(s, f) < 0
    requires x in s.surf && Stale(y, x, Presented(y, s, f).newest)
    ensures var r := Presented(y, s, f);
      r.left == CLEARS - 1 || (Stale(y, x, s.newest) && r.left + (if f.offer.NoPicture? then 0 else 1) >= s.left)
  {
  }

  /** The frame is a picture with no drawing, painted into a target that holds a clean picture of another
      geometry, and its painter neither notices nor is told to clear. */
  ghost predicate Unnoticed(y: Layout, s: State, f: Frame)
    requires s.Shape()
  {
    && f.offer.Early? && !f.drawn && Held(s, f) < 0
    && TurnsAt(y, s, f.offer.v, f.offer.who) == 0 && !y.full(y.geom(f.offer.v))
    && s.surf[s.active].tag.Picture? && y.geom(s.surf[s.active].tag.v) != y.geom(f.offer.v)
  }

  /** Bars stay clean under exactly the other frames. */
  lemma CleanExactly(y: Layout, s: State, f: Frame)
    requires s.Shape() && Clean(y, s) && Proper(f)
    ensures Clean(y, Presented(y, s, f)) <==> !Unnoticed(y, s, f)
  {
    var r := Presented(y, s, f);
    if !Idle(s, f) && Held(s, f) < 0 {
      assert forall i | 0 <= i < BUFFERS && i != s.active :: r.surf[i] == s.surf[i];
      assert r.surf[s.active].tag == RunningTag(s, f);
    }
  }

  function Presents(y: Layout, s: State, fs: seq<Frame>): (r: State)
    requires s.Shape()
    ensures r.Shape()
    decreases |fs|
  {
    if fs == [] then s else Presents(y, Presented(y, s, fs[0]), fs[1..])
  }

  function Start(): State {
    State([Surface(Unknown, DIRTY), Surface(Unknown, DIRTY), Surface(Unknown, DIRTY)], 0, -1, 0, -1, -1, -1)
  }

  /** In every reachable state a tag that names a picture means the picture with clean bars, unless a
      painter came back unnoticed. */
  lemma {:induction false} RunClean(y: Layout, s: State, fs: seq<Frame>)
    requires Sound(y, s)
    requires forall i | 0 <= i < |fs| :: Proper(fs[i]) && Offered(y, Presents(y, s, fs[..i]), fs[i].offer)
    ensures Sound(y, Presents(y, s, fs)) && Clean(y, Presents(y, s, fs))
    decreases |fs|
  {
    if fs != [] {
      assert Offered(y, Presents(y, s, fs[..0]), fs[0].offer);
      PresentedSound(y, s, fs[0]);
      forall i | 0 <= i < |fs| - 1
        ensures Offered(y, Presents(y, Presented(y, s, fs[0]), fs[1..][..i]), fs[1..][i].offer)
      {
        assert fs[..i + 1][0] == fs[0] && fs[..i + 1][1..] == fs[1..][..i];
      }
      RunClean(y, Presented(y, s, fs[0]), fs[1..]);
    }
  }

  /** A picture with no drawing. */
  function Bare(v: nat, who: Painter): Frame {
    Frame(Early(v, who), false, false, Unknown)
  }

  /** Scaled frames, then four hardware frames of another geometry, then scaled frames again, as when
      hardware decoding of the next source gives up: the picture stands between the other bars. */
  lemma ComesBack(y: Layout)
    requires y.geom(0) == y.geom(5) != y.geom(1) == y.geom(2) == y.geom(3) == y.geom(4)
    requires !y.full(y.geom(1)) && !y.full(y.geom(5))
    ensures var fs := [Bare(0, Sw), Bare(1, Hw), Bare(2, Hw), Bare(3, Hw), Bare(4, Hw), Bare(5, Sw)];
      var r := Presents(y, Start(), fs);
      r.surf[r.shown] == Surface(Picture(5), y.geom(1)) && !Clean(y, r)
  {
    var (g, h) := (y.geom(0), y.geom(1));
    var u := Surface(Unknown, DIRTY);
    var s1 := State([Surface(Picture(0), g), u, u], 1, 0, 3, -1, g, 0);
    var s2 := State([Surface(Picture(0), g), Surface(Picture(1), h), u], 2, 1, 3, h, g, 1);
    var s3 := State([Surface(Picture(0), g), Surface(Picture(1), h), Surface(Picture(2), h)], 0, 2, 2, h, g, 2);
    var s4 := s3.(surf := s3.surf[0 := Surface(Picture(3), h)], active := 1, shown := 0, left := 1, newest := 3);
    var s5 := s4.(surf := s4.surf[1 := Surface(Picture(4), h)], active := 2, shown := 1, left := 0, newest := 4);
    assert Presented(y, Start(), Bare(0, Sw)) == s1;
    assert Presented(y, s1, Bare(1, Hw)) == s2;
    assert Presented(y, s2, Bare(2, Hw)) == s3;
    assert Presented(y, s3, Bare(3, Hw)) == s4;
    assert Presented(y, s4, Bare(4, Hw)) == s5;
    var s6 := Presented(y, s5, Bare(5, Sw));
    var fs := [Bare(0, Sw), Bare(1, Hw), Bare(2, Hw), Bare(3, Hw), Bare(4, Hw), Bare(5, Sw)];
    assert fs[1..][0] == Bare(1, Hw) && fs[1..][1..][0] == Bare(2, Hw) && fs[1..][1..][1..][0] == Bare(3, Hw);
    assert fs[1..][1..][1..][1..] == [Bare(4, Hw), Bare(5, Sw)];
    assert [Bare(4, Hw), Bare(5, Sw)][1..] == [Bare(5, Sw)];
    assert Presents(y, s5, [Bare(5, Sw)]) == s6;
    assert s6.shown == 2 && s6.surf[2] == Surface(Picture(5), h);
  }

  // ---- in place ------------------------------------------------------------------------------

  class Player {
    const layout: Layout

    var surf: seq<Surface>
    var active: int
    var shown: int
    /** `g_barClearLeft`, and the geometry each painter painted last. */
    var left: nat
    var lastHw: int
    var lastSw: int
    /** The newest picture painted. */
    ghost var newest: int

    ghost function View(): State
      reads this
    {
      State(surf, active, shown, left, lastHw, lastSw, newest)
    }

    ghost predicate Valid()
      reads this
    {
      Sound(layout, View())
    }

    /** Surfaces of unknown content. */
    constructor (layout: Layout)
      ensures Valid() && this.layout == layout && View() == Start()
    {
      this.layout := layout;
      surf := [Surface(Unknown, DIRTY), Surface(Unknown, DIRTY), Surface(Unknown, DIRTY)];
      active, shown, left, lastHw, lastSw, newest := 0, -1, 0, -1, -1, -1;
    }

    /** `player_request_bar_clear`, and the start of another source. */
    method RequestClear()
      modifies `left
      ensures View() == old(View()).(left := CLEARS)
      ensures old(Valid()) ==> Valid()
    {
      left := CLEARS;
    }

    /** `paint_nv12` or `paint_scaled` into the target; `clean` tells that its tag has the video bit. */
    method Paint(v: nat, who: Painter, clean: bool)
      requires View().Shape()
      modifies `surf, `left, `lastHw, `lastSw, `newest
      ensures View() == Painted(layout, old(View()), v, who, clean)
    {
      var g := layout.geom(v);
      if who.Hw? && g != lastHw {
        lastHw := g;
        left := CLEARS;
      } else if who.Sw? && g != lastSw {
        lastSw := g;
        left := if layout.full(g) then 0 else CLEARS;
      }
      if left > 0 || !clean {
        if left > 0 { left := left - 1; }
        surf := surf[active := surf[active].(edge := g)];
      }
      if layout.full(g) { surf := surf[active := surf[active].(edge := g)]; }
      newest := v;
    }

    /** One frame, painted, drawn, or found by its tag. */
    method Present(f: Frame)
      requires View().Shape()
      modifies `surf, `active, `shown, `left, `lastHw, `lastSw, `newest
      ensures View() == Presented(layout, old(View()), f)
      ensures old(Valid() && Offered(layout, View(), f.offer)) && Proper(f) ==> Valid()
    {
      hide Sound, Offered, Clean;
      ghost var was := View();
      if Sound(layout, was) && Proper(f) && Offered(layout, was, f.offer) { PresentedSound(layout, was, f); }
      var touched := f.drawn || !f.offer.NoPicture?;
      if !touched && shown >= 0 { return; }
      var t := if f.drawn then f.name
               else if f.offer.Early? then Picture(f.offer.v) else surf[active].tag;
      if !f.direct && !f.offer.Late? && t != Unknown {
        if t == surf[active].tag {
          shown, active := active, (active + 1) % BUFFERS;
          return;
        }
        if shown >= 0 && t == surf[shown].tag && surf[active].tag != Unknown { return; }
      }
      if f.offer.Early? { Paint(f.offer.v, f.offer.who, surf[active].tag.Picture?); }
      if f.drawn { surf := surf[active := surf[active].(edge := DIRTY)]; }
      if f.offer.Late? { Paint(f.offer.v, f.offer.who, false); }
      surf := surf[active := surf[active].(tag := t)];
      shown, active := active, (active + 1) % BUFFERS;
    }
  }
}

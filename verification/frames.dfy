/**
 What a frame asks for, and the naive renderer it is compared with: every call
 drawn at once, in order, as app/src/gfx.h promises the queue is equivalent to.
 */
module Frames {
  import opened Raster
  import opened Tags

  /** One request of a frame: a drawing call, or `gfx_video` with a picture whose
      `paint` succeeds or reports that it painted nothing. */
  datatype Event = Drawn(c: Call) | Shown(v: nat, ok: bool)

  function Apply(k: Kit, w: nat, e: Event, p: Picture): (r: Picture)
    requires w > 0
    ensures |r| == |p|
  {
    match e
    case Drawn(c) => Draw(k, w, c, p)
    case Shown(v, ok) => if ok then VideoPic(k, |p|, v) else p
  }

  /** The naive renderer. */
  function Naive(k: Kit, w: nat, es: seq<Event>, p: Picture): (r: Picture)
    requires w > 0
    ensures |r| == |p|
  {
    if es == [] then p else Apply(k, w, es[|es| - 1], Naive(k, w, es[..|es| - 1], p))
  }

  /** Requests that overwrite the whole screen. */
  predicate Resets(e: Event, w: nat, h: nat) {
    match e
    case Drawn(c) => Covers(c, w, h)
    case Shown(_, ok) => ok
  }

  /** A full-screen fill or a successful video picture somewhere in the frame. */
  predicate Determined(es: seq<Event>, w: nat, h: nat) {
    exists e | e in es :: Resets(e, w, h)
  }

  predicate NoDraws(es: seq<Event>) {
    forall e | e in es :: e.Shown?
  }

  // ---- what lies under the drawing ------------------------------------------------

  /** What a frame's drawing starts from: what the target held, or a video picture. */
  datatype Under = Start | Pic(v: nat)

  function UnderPic(k: Kit, u: Under, start: Picture): (p: Picture)
    ensures |p| == |start|
  {
    if u.Pic? then VideoPic(k, |start|, u.v) else start
  }

  /** For the naive renderer: the last picture before any drawing that paints. */
  function NaiveUnder(es: seq<Event>): Under {
    if es == [] then Start
    else
      var front, e := es[..|es| - 1], es[|es| - 1];
      if e.Shown? && NoDraws(front) && e.ok then Pic(e.v) else NaiveUnder(front)
  }

  /** For the queue, which keeps one picture: the last one, or nothing when that fails. */
  function RanUnder(es: seq<Event>): Under {
    if es == [] then Start
    else
      var front, e := es[..|es| - 1], es[|es| - 1];
      if e.Shown? && NoDraws(front) then (if e.ok then Pic(e.v) else Start) else RanUnder(front)
  }

  /** For the tag, which is folded before the picture is painted: the last one. */
  function AssumedUnder(es: seq<Event>): Under {
    if es == [] then Start
    else
      var front, e := es[..|es| - 1], es[|es| - 1];
      if e.Shown? && NoDraws(front) then Pic(e.v) else AssumedUnder(front)
  }

  /** The frame's drawing, and later pictures, over what lies under it. */
  function Onto(k: Kit, w: nat, es: seq<Event>, p: Picture): (r: Picture)
    requires w > 0
    ensures |r| == |p|
  {
    if es == [] then p
    else
      var front, e := es[..|es| - 1], es[|es| - 1];
      if e.Shown? && NoDraws(front) then p else Apply(k, w, e, Onto(k, w, front, p))
  }

  /** What running the queue makes of a frame, and what its tag names. */
  function RanOf(k: Kit, w: nat, es: seq<Event>, start: Picture): (r: Picture)
    requires w > 0
    ensures |r| == |start|
  {
    Onto(k, w, es, UnderPic(k, RanUnder(es), start))
  }

  function AssumedOf(k: Kit, w: nat, es: seq<Event>, start: Picture): (r: Picture)
    requires w > 0
    ensures |r| == |start|
  {
    Onto(k, w, es, UnderPic(k, AssumedUnder(es), start))
  }

  /** Once drawing has begun, something overwrites the whole screen. */
  predicate Redone(es: seq<Event>, w: nat, h: nat) {
    es != [] &&
      var front, e := es[..|es| - 1], es[|es| - 1];
      Redone(front, w, h) || (Resets(e, w, h) && (e.Shown? ==> !NoDraws(front)))
  }

  function Flat(n: nat, e: Word): (p: Picture)
    ensures |p| == n
  {
    seq<Word>(n, _ => e)
  }

  const BLACK: Word := Encode(Color(0, 0, 0))
  const WHITE: Word := Encode(Color(255, 255, 255))

  /** What lies under the drawing does not show: over black and over white it gives one picture. */
  predicate Hides(k: Kit, w: nat, h: nat, es: seq<Event>)
    requires w > 0
  {
    Onto(k, w, es, Flat(w * h, BLACK)) == Onto(k, w, es, Flat(w * h, WHITE))
  }

  /** A picture that would have painted was replaced by one that fails, and its loss shows. */
  predicate Lost(k: Kit, w: nat, h: nat, es: seq<Event>)
    requires w > 0
  {
    RanUnder(es) != NaiveUnder(es) && !Hides(k, w, h, es)
  }

  /** The picture that the tag takes to lie under the drawing does, or it does not show. */
  predicate Settled(k: Kit, w: nat, h: nat, es: seq<Event>)
    requires w > 0
  {
    AssumedUnder(es) == NaiveUnder(es) || Hides(k, w, h, es)
  }

  lemma {:induction false} NaiveIsOnto(k: Kit, w: nat, es: seq<Event>, start: Picture)
    requires w > 0
    ensures Naive(k, w, es, start) == Onto(k, w, es, UnderPic(k, NaiveUnder(es), start))
  {
    hide Draw;
    if es != [] {
      var front, e := es[..|es| - 1], es[|es| - 1];
      NaiveIsOnto(k, w, front, start);
      if e.Shown? && NoDraws(front) { OntoNothing(k, w, front, UnderPic(k, NaiveUnder(front), start)); }
    }
  }

  lemma {:induction false} OntoNothing(k: Kit, w: nat, es: seq<Event>, p: Picture)
    requires w > 0 && NoDraws(es)
    ensures Onto(k, w, es, p) == p
  {
    if es != [] {
      var front, e := es[..|es| - 1], es[|es| - 1];
      assert e in es && forall f | f in front :: f in es;
    }
  }

  lemma {:induction false} RedoneErases(k: Kit, w: nat, h: nat, es: seq<Event>, p: Picture, q: Picture)
    requires w > 0 && |p| == |q| == w * h && Redone(es, w, h)
    ensures Onto(k, w, es, p) == Onto(k, w, es, q)
  {
    hide Draw, Covers;
    var front, e := es[..|es| - 1], es[|es| - 1];
    if Redone(front, w, h) {
      RedoneErases(k, w, h, front, p, q);
      if e.Shown? && NoDraws(front) { RedoneDrew(front, w, h); }
    } else if e.Drawn? {
      CoverErases(k, w, h, e.c, Onto(k, w, front, p), Onto(k, w, front, q));
    }
  }

  lemma {:induction false} RedoneDrew(es: seq<Event>, w: nat, h: nat)
    requires Redone(es, w, h)
    ensures !NoDraws(es)
  {
    hide Covers;
    var front, e := es[..|es| - 1], es[|es| - 1];
    assert e in es && forall f | f in front :: f in es;
    if Redone(front, w, h) { RedoneDrew(front, w, h); }
  }

  /** Drawing that overwrites the screen hides what lies under it. */
  lemma RedoneHides(k: Kit, w: nat, h: nat, es: seq<Event>)
    requires w > 0 && Redone(es, w, h)
    ensures Hides(k, w, h, es)
  {
    RedoneErases(k, w, h, es, Flat(w * h, BLACK), Flat(w * h, WHITE));
  }

  // ---- black and white stand for everything ------------------------------------------

  predicate Le(a: Color, b: Color) {
    a.r <= b.r && a.g <= b.g && a.b <= b.b
  }

  predicate Encoded(e: Word) {
    e == Encode(Channels(e))
  }

  /** What a pixel became over black, over `e0` and over white: in order, and either still
      itself, or the same, or written by a blend. */
  predicate Between(b: Word, e: Word, h: Word, e0: Word) {
    && Le(Channels(b), Channels(e)) && Le(Channels(e), Channels(h))
    && ((b == BLACK && e == e0 && h == WHITE) || b == e == h || (Encoded(b) && Encoded(e) && Encoded(h)))
  }

  lemma MixMonotone(s: Byte, d: Byte, e: Byte, a: int)
    requires 0 <= a <= 255 && d <= e
    ensures Mix(s, d, a) <= Mix(s, e, a)
  {
    Scale(d, e, 255 - a);
  }

  lemma BetweenStart(e: Word)
    ensures Between(BLACK, e, WHITE, e)
  {
    EncodeRoundTrip(Color(0, 0, 0));
    EncodeRoundTrip(Color(255, 255, 255));
  }

  lemma BlendBetween(b: Word, e: Word, h: Word, e0: Word, c: Color, a: int)
    requires Between(b, e, h, e0)
    ensures Between(BlendPx(b, c, a), BlendPx(e, c, a), BlendPx(h, c, a), e0)
  {
    hide Mix;
    EncodeRoundTrip(c);
    if 0 < a < 255 {
      var x, y, z := Channels(b), Channels(e), Channels(h);
      EncodeRoundTrip(Color(Mix(c.r, x.r, a), Mix(c.g, x.g, a), Mix(c.b, x.b, a)));
      EncodeRoundTrip(Color(Mix(c.r, y.r, a), Mix(c.g, y.g, a), Mix(c.b, y.b, a)));
      EncodeRoundTrip(Color(Mix(c.r, z.r, a), Mix(c.g, z.g, a), Mix(c.b, z.b, a)));
      MixMonotone(c.r, x.r, y.r, a);
      MixMonotone(c.g, x.g, y.g, a);
      MixMonotone(c.b, x.b, y.b, a);
      MixMonotone(c.r, y.r, z.r, a);
      MixMonotone(c.g, y.g, z.g, a);
      MixMonotone(c.b, y.b, z.b, a);
    }
  }

  lemma {:induction false} OverBetween(ls: seq<Layer>, b: Word, e: Word, h: Word, e0: Word)
    requires Between(b, e, h, e0)
    ensures Between(Over(ls, b), Over(ls, e), Over(ls, h), e0)
  {
    hide Between, BlendPx;
    if ls != [] {
      var front, l := ls[..|ls| - 1], ls[|ls| - 1];
      OverBetween(front, b, e, h, e0);
      BlendBetween(Over(front, b), Over(front, e), Over(front, h), e0, l.color, l.alpha);
    }
  }

  lemma {:induction false} OntoBetween(k: Kit, w: nat, es: seq<Event>, p: Picture, i: nat)
    requires w > 0 && i < |p|
    ensures Between(Onto(k, w, es, Flat(|p|, BLACK))[i], Onto(k, w, es, p)[i], Onto(k, w, es, Flat(|p|, WHITE))[i],
      p[i])
  {
    hide Between, Layers, Over, Draw, BLACK, WHITE;
    var b, h := Flat(|p|, BLACK), Flat(|p|, WHITE);
    if es == [] {
      BetweenStart(p[i]);
    } else {
      var front, e := es[..|es| - 1], es[|es| - 1];
      if e.Shown? && NoDraws(front) {
        BetweenStart(p[i]);
      } else {
        OntoBetween(k, w, front, p, i);
        if e.Drawn? {
          DrawAt(k, w, e.c, Onto(k, w, front, b), i);
          DrawAt(k, w, e.c, Onto(k, w, front, p), i);
          DrawAt(k, w, e.c, Onto(k, w, front, h), i);
          OverBetween(Layers(k, e.c, i % w, i / w), Onto(k, w, front, b)[i], Onto(k, w, front, p)[i],
                      Onto(k, w, front, h)[i], p[i]);
        } else if e.ok {
          SameBetween(k.video(e.v, i), p[i]);
        }
      }
    }
  }

  lemma SameBetween(e: Word, e0: Word)
    ensures Between(e, e, e, e0)
  {}

  lemma PinnedBetween(b: Word, e: Word, h: Word, e0: Word)
    requires Between(b, e, h, e0) && b == h
    ensures e == b
  {
    EncodeRoundTrip(Color(0, 0, 0));
    EncodeRoundTrip(Color(255, 255, 255));
  }

  /** What hides black and white hides everything. */
  lemma HidesAll(k: Kit, w: nat, h: nat, es: seq<Event>, p: Picture)
    requires w > 0 && |p| == w * h && Hides(k, w, h, es)
    ensures Onto(k, w, es, p) == Onto(k, w, es, Flat(w * h, BLACK))
  {
    hide Between, Onto, Flat, BLACK, WHITE;
    forall i | 0 <= i < |p|
      ensures Onto(k, w, es, p)[i] == Onto(k, w, es, Flat(w * h, BLACK))[i]
    {
      OntoBetween(k, w, es, p, i);
      PinnedBetween(Onto(k, w, es, Flat(|p|, BLACK))[i], Onto(k, w, es, p)[i], Onto(k, w, es, Flat(|p|, WHITE))[i],
        p[i]);
    }
  }

  /** Where something shows through, every picture is told from black or from white. */
  lemma ShowsThrough(k: Kit, w: nat, h: nat, es: seq<Event>, p: Picture) returns (start: Picture)
    requires w > 0 && |p| == w * h && !Hides(k, w, h, es)
    ensures |start| == w * h && Onto(k, w, es, start) != Onto(k, w, es, p)
  {
    hide Onto, BLACK, WHITE;
    var b, e := Flat(w * h, BLACK), Flat(w * h, WHITE);
    start := if Onto(k, w, es, b) != Onto(k, w, es, p) then b else e;
  }

  // ---- running the queue, the tag, and naive drawing ------------------------------------

  /** Where no picture is lost, running the queue is naive drawing; where the tag is right about
      what lies under, so is what it names. */
  lemma RanIsNaive(k: Kit, w: nat, h: nat, es: seq<Event>, start: Picture)
    requires w > 0 && |start| == w * h
    ensures !Lost(k, w, h, es) ==> RanOf(k, w, es, start) == Naive(k, w, es, start)
    ensures Settled(k, w, h, es) ==> AssumedOf(k, w, es, start) == Naive(k, w, es, start)
  {
    hide Naive, Onto, RanUnder, NaiveUnder, AssumedUnder, Hides;
    NaiveIsOnto(k, w, es, start);
    if Hides(k, w, h, es) {
      HidesAll(k, w, h, es, UnderPic(k, RanUnder(es), start));
      HidesAll(k, w, h, es, UnderPic(k, AssumedUnder(es), start));
      HidesAll(k, w, h, es, UnderPic(k, NaiveUnder(es), start));
    }
  }

  /** Exactly then: running the queue is naive drawing over every surface if and only if no
      picture is lost. */
  lemma LostExactly(k: Kit, w: nat, h: nat, es: seq<Event>)
    requires w > 0
    ensures !Lost(k, w, h, es) <==>
      forall start: Picture | |start| == w * h :: RanOf(k, w, es, start) == Naive(k, w, es, start)
  {
    hide Naive, Onto, RanUnder, NaiveUnder, Hides;
    if Lost(k, w, h, es) {
      RanUnderIs(es);
      var start := ShowsThrough(k, w, h, es, VideoPic(k, w * h, NaiveUnder(es).v));
      NaiveIsOnto(k, w, es, start);
      assert RanOf(k, w, es, start) != Naive(k, w, es, start);
    } else {
      forall start: Picture | |start| == w * h
        ensures RanOf(k, w, es, start) == Naive(k, w, es, start)
      {
        RanIsNaive(k, w, h, es, start);
      }
    }
  }

  /** Exactly then, too: what the tag names is naive drawing, over every surface and whatever the
      pictures show, if and only if the tag is right about what lies under the drawing. */
  lemma SettledExactly(k: Kit, w: nat, h: nat, es: seq<Event>)
    requires w > 0
    ensures Settled(k, w, h, es) <==>
      forall f: (nat, int) -> Word, start: Picture | |start| == w * h ::
        AssumedOf(k.(video := f), w, es, start) == Naive(k.(video := f), w, es, start)
  {
    hide Naive, Onto, AssumedUnder, NaiveUnder, Hides;
    if !Settled(k, w, h, es) {
      var f, start := Unsettled(k, w, h, es);
      assert |start| == w * h;
    } else {
      forall f: (nat, int) -> Word, start: Picture | |start| == w * h
        ensures AssumedOf(k.(video := f), w, es, start) == Naive(k.(video := f), w, es, start)
      {
        if Hides(k, w, h, es) { HidesAnyway(k, w, h, es, f); }
        RanIsNaive(k.(video := f), w, h, es, start);
      }
    }
  }

  /** Pictures and a surface that tell what the tag names from naive drawing. */
  lemma Unsettled(k: Kit, w: nat, h: nat, es: seq<Event>) returns (f: (nat, int) -> Word, start: Picture)
    requires w > 0 && !Settled(k, w, h, es)
    ensures |start| == w * h
    ensures AssumedOf(k.(video := f), w, es, start) != Naive(k.(video := f), w, es, start)
  {
    hide Naive, Onto, AssumedUnder, NaiveUnder, BLACK, WHITE;
    AssumedUnderIs(es);
    var v := AssumedUnder(es).v;
    var b, e := Flat(w * h, BLACK), Flat(w * h, WHITE);
    f := (x: nat, i: int) => if x == v then BLACK else WHITE;
    start := e;
    var k' := k.(video := f);
    NaiveIsOnto(k', w, es, start);
    assert VideoPic(k', w * h, v) == b;
    assert UnderPic(k', NaiveUnder(es), start) == e;
    StillShows(k, w, h, es, f);
  }

  lemma {:induction false} AssumedUnderIs(es: seq<Event>)
    ensures AssumedUnder(es) == NaiveUnder(es) || AssumedUnder(es).Pic?
  {
    if es != [] { AssumedUnderIs(es[..|es| - 1]); }
  }

  /** Whether something shows through does not depend on what the pictures show. */
  lemma StillShows(k: Kit, w: nat, h: nat, es: seq<Event>, f: (nat, int) -> Word)
    requires w > 0 && !Hides(k, w, h, es)
    ensures !Hides(k.(video := f), w, h, es)
  {
    hide Onto, BLACK, WHITE;
    var b, e := Flat(w * h, BLACK), Flat(w * h, WHITE);
    if Hides(k.(video := f), w, h, es) {
      forall i | 0 <= i < w * h
        ensures Onto(k, w, es, b)[i] == Onto(k, w, es, e)[i]
      {
        if Onto(k, w, es, b)[i] != Onto(k, w, es, e)[i] { OtherVideo(k, w, es, b, e, i, f); }
      }
    }
  }

  lemma HidesAnyway(k: Kit, w: nat, h: nat, es: seq<Event>, f: (nat, int) -> Word)
    requires w > 0 && Hides(k, w, h, es)
    ensures Hides(k.(video := f), w, h, es)
  {
    hide Hides;
    var k' := k.(video := f);
    assert k'.(video := k.video) == k;
    if !Hides(k', w, h, es) { StillShows(k', w, h, es, k.video); }
  }

  /** Pixels that differ were never repainted, so other pictures leave them what they are. */
  lemma {:induction false} OtherVideo(k: Kit, w: nat, es: seq<Event>, p: Picture, q: Picture, i: nat,
                                      f: (nat, int) -> Word)
    requires w > 0 && |p| == |q| && i < |p| && Onto(k, w, es, p)[i] != Onto(k, w, es, q)[i]
    ensures Onto(k.(video := f), w, es, p)[i] == Onto(k, w, es, p)[i]
    ensures Onto(k.(video := f), w, es, q)[i] == Onto(k, w, es, q)[i]
  {
    hide Layers, Over, Draw;
    var k' := k.(video := f);
    if es != [] {
      var front, e := es[..|es| - 1], es[|es| - 1];
      if e.Drawn? {
        DrawAt(k, w, e.c, Onto(k, w, front, p), i);
        DrawAt(k, w, e.c, Onto(k, w, front, q), i);
        OtherVideo(k, w, front, p, q, i, f);
        DrawAt(k', w, e.c, Onto(k', w, front, p), i);
        DrawAt(k', w, e.c, Onto(k', w, front, q), i);
        SameLayers(k, k', e.c, i % w, i / w);
      } else if !NoDraws(front) && !e.ok {
        OtherVideo(k, w, front, p, q, i, f);
      }
    }
  }

  lemma SameLayers(k: Kit, k': Kit, c: Call, px: int, py: int)
    requires k' == k.(video := k'.video)
    ensures Layers(k', c, px, py) == Layers(k, c, px, py)
    decreases Depth(c)
  {
    SubsShallower(k, c);
    assert Subs(k', c) == Subs(k, c) && Own(k', c, px, py) == Own(k, c, px, py);
    SameLayersAll(k, k', Subs(k, c), px, py, Depth(c));
  }

  lemma {:induction false} SameLayersAll(k: Kit, k': Kit, cs: seq<Call>, px: int, py: int, depth: nat)
    requires k' == k.(video := k'.video) && forall c | c in cs :: Depth(c) < depth
    ensures LayersAll(k', cs, px, py, depth) == LayersAll(k, cs, px, py, depth)
    decreases depth, 0, |cs|
  {
    if cs != [] {
      SameLayersAll(k, k', cs[..|cs| - 1], px, py, depth);
      SameLayers(k, k', cs[|cs| - 1], px, py);
    }
  }

  // ---- pixels the frame leaves alone ------------------------------------------------------

  /** No call of the frame puts colour on the pixel. */
  predicate Spares(k: Kit, es: seq<Event>, px: int, py: int) {
    forall e | e in es && e.Drawn? :: Faint(Layers(k, e.c, px, py))
  }

  /** A spared pixel keeps what lies under the drawing, unless a later picture repaints it. */
  lemma {:induction false} SparedAt(k: Kit, w: nat, h: nat, es: seq<Event>, p: Picture, i: nat)
    requires w > 0 && |p| == w * h && i < |p| && Spares(k, es, i % w, i / w) && !Redone(es, w, h)
    ensures Onto(k, w, es, p)[i] == p[i]
  {
    hide Covers, Layers;
    if es != [] {
      var front, e := es[..|es| - 1], es[|es| - 1];
      assert e in es && forall f | f in front :: f in es;
      SparedAt(k, w, h, front, p, i);
      if e.Drawn? {
        DrawAt(k, w, e.c, Onto(k, w, front, p), i);
        FaintOver(Layers(k, e.c, i % w, i / w), Onto(k, w, front, p)[i]);
      }
    }
  }

  /** A frame that spares a pixel hides what lies under it only by overwriting the screen. */
  lemma HidesExactly(k: Kit, w: nat, h: nat, es: seq<Event>, i: nat)
    requires w > 0 && i < w * h && Spares(k, es, i % w, i / w)
    ensures Hides(k, w, h, es) <==> Redone(es, w, h)
  {
    hide Onto, Redone, Spares;
    if Redone(es, w, h) {
      RedoneHides(k, w, h, es);
    } else {
      SparedAt(k, w, h, es, Flat(w * h, BLACK), i);
      SparedAt(k, w, h, es, Flat(w * h, WHITE), i);
      EncodeRoundTrip(Color(0, 0, 0));
      EncodeRoundTrip(Color(255, 255, 255));
    }
  }

  /** A lost picture: a pixel nothing draws on shows what the target held, not the picture. */
  lemma LostAt(k: Kit, w: nat, h: nat, es: seq<Event>, start: Picture, i: nat)
    requires w > 0 && |start| == w * h && i < |start| && Spares(k, es, i % w, i / w)
    requires RanUnder(es) != NaiveUnder(es) && !Redone(es, w, h)
    ensures NaiveUnder(es).Pic? && Naive(k, w, es, start)[i] == k.video(NaiveUnder(es).v, i)
    ensures RanOf(k, w, es, start)[i] == start[i]
  {
    hide Naive, Onto, RanUnder, NaiveUnder, Redone, Spares;
    RanUnderIs(es);
    NaiveIsOnto(k, w, es, start);
    SparedAt(k, w, h, es, UnderPic(k, RanUnder(es), start), i);
    SparedAt(k, w, h, es, UnderPic(k, NaiveUnder(es), start), i);
  }

  lemma {:induction false} RanUnderIs(es: seq<Event>)
    ensures RanUnder(es) == NaiveUnder(es) || (RanUnder(es) == Start && NaiveUnder(es).Pic?)
  {
    if es != [] { RanUnderIs(es[..|es| - 1]); }
  }

  /** A determined frame does not depend on what the surface held before it. */
  lemma {:induction false} DeterminedIsFresh(k: Kit, w: nat, h: nat, es: seq<Event>, p: Picture, q: Picture)
    requires w > 0 && |p| == w * h && |q| == w * h && Determined(es, w, h)
    ensures Naive(k, w, es, p) == Naive(k, w, es, q)
  {
    var front, e := es[..|es| - 1], es[|es| - 1];
    if Resets(e, w, h) {
      if e.Drawn? {
        CoverErases(k, w, h, e.c, Naive(k, w, front, p), Naive(k, w, front, q));
      }
    } else {
      assert es == front + [e];
      DeterminedIsFresh(k, w, h, front, p, q);
    }
  }

  /** One more call, on the picture that running the queue gives and on the one the tag names. */
  lemma DrawnOnto(k: Kit, w: nat, es: seq<Event>, c: Call, start: Picture)
    requires w > 0
    ensures var es' := es + [Drawn(c)];
      && RanOf(k, w, es', start) == Draw(k, w, c, RanOf(k, w, es, start))
      && AssumedOf(k, w, es', start) == Draw(k, w, c, AssumedOf(k, w, es, start))
      && !NoDraws(es')
  {
    hide Draw;
    var es' := es + [Drawn(c)];
    assert es'[..|es|] == es && es'[|es|] == Drawn(c) && Drawn(c) in es';
  }

  /** One more picture: under the drawing when there is none yet, else over it. */
  lemma ShownOnto(k: Kit, w: nat, es: seq<Event>, v: nat, ok: bool, start: Picture)
    requires w > 0
    ensures var es', n := es + [Shown(v, ok)], |start|;
      && NoDraws(es') == NoDraws(es)
      && RanOf(k, w, es', start) == (
        if ok then VideoPic(k, n, v) else if NoDraws(es) then start else RanOf(k, w, es, start))
      && (NoDraws(es) ==> AssumedOf(k, w, es', start) == VideoPic(k, n, v))
  {
    hide Draw;
    var es' := es + [Shown(v, ok)];
    assert es'[..|es|] == es && es'[|es|] == Shown(v, ok);
    assert forall e | e in es :: e in es';
    assert forall e | e in es' :: e in es || e == Shown(v, ok);
  }

  // ---- whole runs ---------------------------------------------------------

  /** A presented frame: what it asked for, what its target held when it began, whether a
      surface was found to hold it already, whether the tags could be trusted, and the
      picture flipped. */
  datatype Frame = Frame(events: seq<Event>, start: Picture, held: bool, clean: bool, pic: Picture)

  /** Each flip shows what running its queue over the target gives or, from a surface found to
      hold the frame, what the tag names; a frame that asks for nothing shows the previous
      flip again. */
  ghost predicate Faithful(k: Kit, w: nat, h: nat, fs: seq<Frame>)
    requires w > 0
  {
    && (forall f | f in fs :: |f.start| == |f.pic| == w * h)
    && (forall n | 0 <= n < |fs| :: FrameFaithful(k, w, h, fs, n))
  }

  ghost predicate FrameFaithful(k: Kit, w: nat, h: nat, fs: seq<Frame>, n: nat)
    requires w > 0 && n < |fs|
  {
    if fs[n].events == [] && n > 0 then fs[n].pic == fs[n - 1].pic
    else if fs[n].held then fs[n].clean ==> fs[n].pic == AssumedOf(k, w, fs[n].events, fs[n].start)
    else fs[n].pic == RanOf(k, w, fs[n].events, fs[n].start)
  }

  /** The pictures of a run drawn from scratch, one surface, no cache. */
  function Rendered(k: Kit, w: nat, h: nat, es: seq<seq<Event>>): (ps: seq<Picture>)
    requires w > 0
    ensures |ps| == |es|
  {
    if es == [] then []
    else
      var front := Rendered(k, w, h, es[..|es| - 1]);
      var e := es[|es| - 1];
      front + [if e == [] && front != [] then front[|front| - 1] else Naive(k, w, e, Blank(w * h))]
  }

  function Asked(fs: seq<Frame>): (es: seq<seq<Event>>)
    ensures |es| == |fs|
  {
    seq(|fs|, i requires 0 <= i < |fs| => fs[i].events)
  }

  function Flipped(fs: seq<Frame>): (ps: seq<Picture>)
    ensures |ps| == |fs|
  {
    seq(|fs|, i requires 0 <= i < |fs| => fs[i].pic)
  }

  /** Frames that either ask for nothing or open a picture of their own, and are shown truly:
      drawn with no picture lost, or found by a tag that is right. */
  ghost predicate SelfContained(k: Kit, w: nat, h: nat, fs: seq<Frame>)
    requires w > 0
  {
    forall n | 0 <= n < |fs| ::
      (fs[n].events == [] && n > 0) ||
      (Determined(fs[n].events, w, h) &&
        if fs[n].held then fs[n].clean && Settled(k, w, h, fs[n].events) else !Lost(k, w, h, fs[n].events))
  }

  /** Over a whole run the flipped pictures are those of the naive renderer. */
  lemma {:induction false} RunIsRendered(k: Kit, w: nat, h: nat, fs: seq<Frame>)
    requires w > 0 && Faithful(k, w, h, fs) && SelfContained(k, w, h, fs)
    ensures Flipped(fs) == Rendered(k, w, h, Asked(fs))
  {
    hide Naive, Settled, Determined, Lost, RanOf, AssumedOf;
    if fs != [] {
      var n := |fs| - 1;
      var front := fs[..n];
      FaithfulPrefix(k, w, h, fs, n);
      RunIsRendered(k, w, h, front);
      assert Asked(fs)[..n] == Asked(front);
      assert Flipped(fs) == Flipped(front) + [fs[n].pic];
      assert FrameFaithful(k, w, h, fs, n);
      if !(fs[n].events == [] && n > 0) {
        RanIsNaive(k, w, h, fs[n].events, fs[n].start);
        DeterminedIsFresh(k, w, h, fs[n].events, fs[n].start, Blank(w * h));
      }
    }
  }

  lemma FaithfulPrefix(k: Kit, w: nat, h: nat, fs: seq<Frame>, n: nat)
    requires w > 0 && n <= |fs| && Faithful(k, w, h, fs) && SelfContained(k, w, h, fs)
    ensures Faithful(k, w, h, fs[..n]) && SelfContained(k, w, h, fs[..n])
  {
    hide Naive, Settled, Determined, Lost, RanOf, AssumedOf;
    forall i | 0 <= i < n
      ensures FrameFaithful(k, w, h, fs[..n], i)
    {
      assert FrameFaithful(k, w, h, fs, i);
    }
  }
}

/**
 Runs of the screen of app/src/gfx.c on which what it promises fails: two surfaces with one
 known tag and different pixels, a picture that is never shown, and one that is shown although
 it does not paint.
 */
module ScreenRuns {
  import opened Raster
  import opened Tags
  import opened Frames
  import opened Gfx

  /** What the three surfaces hold at first. */
  predicate Memory(memory: seq<Picture>, w: nat, h: nat) {
    |memory| == 3 && |memory[0]| == |memory[1]| == |memory[2]| == w * h
  }

  // ---- a lost picture -------------------------------------------------------------------

  /** One picture paints, a second one offered before any drawing fails: a pixel that the frame
      does not draw on shows what the surface held, not the picture. */
  method LostPicture(k: Kit, w: nat, h: nat, memory: seq<Picture>, v: nat, u: nat, c: Call, i: nat)
    returns (s: Screen)
    requires w > 0 && Memory(memory, w, h) && i < w * h && Faint(Layers(k, c, i % w, i / w))
    ensures fresh(s) && s.Valid() && s.Clean() && s.flips == [0]
    ensures |s.frames| == 1 && s.frames[0].events == [Shown(v, true), Shown(u, false), Drawn(c)]
    ensures |s.frames[0].pic| == |memory[0]| == w * h
    ensures s.frames[0].pic[i] == memory[0][i]
    ensures Naive(k, w, s.frames[0].events, memory[0])[i] == k.video(v, i)
  {
    hide Naive, RanOf, Layers, Screen.Valid;
    s := FailingPicture(k, w, h, memory, v, u, c);
    ghost var es := s.events;
    AsksOf(s);
    PresentFirst(s);
    OnlyFrame(s);
    LostFrame(w, h, v, u, c, es, k, i);
    LostAt(k, w, h, es, memory[0], i);
  }

  /** The requests of that frame. */
  method FailingPicture(k: Kit, w: nat, h: nat, memory: seq<Picture>, v: nat, u: nat, c: Call) returns (s: Screen)
    requires w > 0 && Memory(memory, w, h)
    ensures fresh(s) && s.Valid() && s.Clean() && s.kit == k && s.width == w && s.height == h
    ensures s.tag == [Unknown, Unknown, Unknown] && s.activeIdx == 0 && s.shownIdx == -1 && s.lastFlipId == -1
    ensures s.flips == [] && s.frames == [] && s.startPic == memory[0] && |memory[0]| == w * h
    ensures s.events == [Shown(v, true), Shown(u, false), Drawn(c)]
  {
    hide Screen.Valid, Screen.Ring, Screen.Queued, Screen.History, Screen.TagsHold, Screen.Pending, Screen.Ran,
         Naive, RanOf, AssumedOf, Layers, Own, Draw, DrawAll, VideoPic, Fold, FoldAll, HookedAll, Hooked, Refold,
         Holds, Faithful, Subs, FrameFaithful, FreeOf, RingOf, Covers;
    s := NewScreen(k, w, h, memory);
    s.GfxVideo(v, true, true);
    s.GfxVideo(u, true, false);
    s.DrawCall(c);
  }

  /** A screen that has shown nothing. */
  method NewScreen(k: Kit, w: nat, h: nat, memory: seq<Picture>) returns (s: Screen)
    requires w > 0 && Memory(memory, w, h)
    ensures fresh(s) && s.Valid() && s.Clean() && s.kit == k && s.width == w && s.height == h
    ensures s.tag == [Unknown, Unknown, Unknown] && s.activeIdx == 0 && s.shownIdx == -1 && s.lastFlipId == -1
    ensures s.mode == Record && s.q == [] && s.qText == 0 && s.qPaint == NoPaint && s.qTag == Unknown
    ensures s.flips == [] && s.frames == [] && s.events == [] && s.startPic == memory[0]
    ensures |s.frameBuffers| == 3
  {
    s := new Screen(k, w, h, memory);
  }

  /** The first frame of a screen is drawn. */
  method PresentFirst(s: Screen)
    requires s.Valid() && s.tag == [Unknown, Unknown, Unknown] && s.activeIdx == 0 && s.shownIdx == -1
    requires s.lastFlipId == -1 && s.flips == [] && s.frames == [] && s.Clean()
    modifies s
    ensures s.Valid() && s.Clean() && s.flips == [0]
    ensures |s.frames| == 1 && s.frames[0].events == old(s.events) && s.frames[0].start == old(s.startPic)
    ensures !s.frames[0].held
  {
    hide Screen.Valid, Screen.Ring, Screen.Queued, Screen.History, Screen.TagsHold, Screen.Pending, Screen.Ran,
         Naive, RanOf, AssumedOf, Layers, Own, Draw, DrawAll, VideoPic, Fold, FoldAll, HookedAll, Hooked, Refold,
         Holds, Faithful, Subs, FrameFaithful, FreeOf, RingOf, Covers;
    AsksOf(s);
    s.GfxPresent(0);
  }

  lemma OnlyFrame(s: Screen)
    requires s.Valid() && |s.frames| == 1 && !s.frames[0].held
    ensures |s.frames[0].start| == |s.frames[0].pic| == s.width * s.height
    ensures s.frames[0].pic == RanOf(s.kit, s.width, s.frames[0].events, s.frames[0].start)
  {
    hide Screen.Ring, Screen.Queued, Screen.TagsHold, RanOf, AssumedOf;
    assert FrameFaithful(s.kit, s.width, s.height, s.frames, 0);
  }

  lemma LostFrame(w: nat, h: nat, v: nat, u: nat, c: Call, es: seq<Event>, k: Kit, i: nat)
    requires w > 0 && i < w * h && Faint(Layers(k, c, i % w, i / w))
    requires es == [Shown(v, true), Shown(u, false), Drawn(c)]
    ensures RanUnder(es) != NaiveUnder(es) && !Redone(es, w, h) && NaiveUnder(es) == Pic(v)
      && Spares(k, es, i % w, i / w)
  {
    hide Layers;
    assert !Covers(c, w, h) by {
      PixelOnScreen(i, w, h);
      if Covers(c, w, h) { CoverLayers(k, w, h, c, i % w, i / w); }
    }
    var e1, e2 := es[..2], es[..1];
    assert e1 == [Shown(v, true), Shown(u, false)] && e1[..1] == e2 == [Shown(v, true)] && e2[..0] == [];
    assert NoDraws(e1) && NoDraws(e2) && NoDraws([]);
    assert NaiveUnder([]) == Start && NaiveUnder(e2) == Pic(v) && NaiveUnder(e1) == Pic(v);
    assert RanUnder(e1) == Start;
    assert !Redone([], w, h) && !Redone(e2, w, h) && !Redone(e1, w, h);
  }

  lemma CoverLayers(k: Kit, w: nat, h: nat, c: Call, px: int, py: int)
    requires Covers(c, w, h) && 0 <= px < w && 0 <= py < h
    ensures !Faint(Layers(k, c, px, py))
  {
    LeafLayers(k, c, px, py);
  }

  // ---- a picture found instead of painted -------------------------------------------------

  function Named(v: nat): Tag { Known(Video(v), []) }

  /** Three frames of pictures `v`, `u` and `u`, and then one that asks for `u` again, which this
      time does not paint, perhaps after a picture `x` that does.  The surface on screen carries
      the tag of `u` and is flipped; naive drawing gives `x`, or what the target held. */
  method HeldPicture(k: Kit, w: nat, h: nat, memory: seq<Picture>, v: nat, u: nat, x: nat, offered: bool)
    returns (s: Screen)
    requires w > 0 && Memory(memory, w, h) && v != u
    ensures fresh(s) && s.Valid() && s.Clean() && |s.frames| == 4 && s.frames[3].held
    ensures s.frames[3].events == if offered then [Shown(x, true), Shown(u, false)] else [Shown(u, false)]
    ensures |s.frames[3].start| == w * h && s.frames[3].pic == VideoPic(k, w * h, u)
    ensures Naive(k, w, s.frames[3].events, s.frames[3].start) == VideoPic(k, w * h, if offered then x else v)
  {
    hide Screen.Valid, Naive, VideoPic, AssumedOf;
    s := ThreePictures(k, w, h, memory, v, u);
    Carries(s, v);
    ghost var start := s.startPic;
    AskAgain(s, u, x, offered);
    HeldFrame(s, 3);
    TwoPicturesOffered(k, w, s.frames[3].events, x, u, offered, start);
  }

  method ThreePictures(k: Kit, w: nat, h: nat, memory: seq<Picture>, v: nat, u: nat) returns (s: Screen)
    requires w > 0 && Memory(memory, w, h)
    ensures fresh(s) && s.Valid() && s.Clean() && s.kit == k && s.width == w && s.height == h && |s.frames| == 3
    ensures s.mode == Record && s.q == [] && s.qPaint == NoPaint && s.events == []
    ensures s.tag == [Named(v), Named(u), Named(u)] && s.activeIdx == 0 && s.shownIdx == 2 && s.lastFlipId == 2
  {
    hide Screen.Valid;
    s := NewScreen(k, w, h, memory);
    ShowPicture(s, v);
    ShowPicture(s, u);
    ShowPicture(s, u);
  }

  /** The frame that finds its picture on screen. */
  method AskAgain(s: Screen, u: nat, x: nat, offered: bool)
    requires s.Valid() && s.Clean() && |s.frames| == 3 && s.mode == Record && s.q == [] && s.qPaint == NoPaint
      && s.events == []
    requires |s.tag| == 3 && s.tag[0].Known? && s.tag[0] != Named(u) && s.tag[2] == Named(u)
    requires s.activeIdx == 0 && s.shownIdx == 2 && s.lastFlipId == 2
    modifies s
    ensures s.Valid() && s.Clean() && |s.frames| == 4
    ensures s.frames[3].events == if offered then [Shown(x, true), Shown(u, false)] else [Shown(u, false)]
    ensures s.frames[3].held && s.frames[3].clean && s.frames[3].start == old(s.startPic)
  {
    hide Screen.Valid, Screen.Ring, Screen.Queued, Screen.History, Screen.TagsHold, Screen.Pending, Screen.Ran,
         Naive, RanOf, AssumedOf, Layers, Own, Draw, DrawAll, VideoPic, Fold, FoldAll, HookedAll, Hooked, Refold,
         Holds, Faithful, Subs, FrameFaithful, FreeOf, RingOf, Covers;
    if offered { s.GfxVideo(x, true, true); }
    s.GfxVideo(u, true, false);
    assert s.events == if offered then [Shown(x, true), Shown(u, false)] else [Shown(u, false)];
    AsksOf(s);
    s.GfxPresent(3);
  }

  /** A frame of one picture, painted into a surface of unknown content. */
  method ShowPicture(s: Screen, v: nat)
    requires s.Valid() && s.mode == Record && s.q == [] && s.qPaint == NoPaint && s.events == [] && s.lastFlipId >= -1
    requires |s.tag| == 3 && 0 <= s.activeIdx < 3 && s.tag[s.activeIdx].Unknown? && s.Clean()
    modifies s
    ensures s.Valid() && s.Clean() && s.mode == Record && s.q == [] && s.qPaint == NoPaint && s.events == []
    ensures s.tag == old(s.tag)[old(s.activeIdx) := Named(v)] && s.activeIdx == (old(s.activeIdx) + 1) % 3
    ensures s.shownIdx == old(s.activeIdx) && s.lastFlipId == old(s.lastFlipId) + 1 && |s.frames| == |old(s.frames)| + 1
  {
    hide Screen.Valid, Screen.Ring, Screen.Queued, Screen.History, Screen.TagsHold, Screen.Pending, Screen.Ran,
         Naive, RanOf, AssumedOf, Layers, Own, Draw, DrawAll, VideoPic, Fold, FoldAll, HookedAll, Hooked, Refold,
         Holds, Faithful, Subs, FrameFaithful, FreeOf, RingOf, Covers;
    s.GfxVideo(v, true, true);
    AsksOf(s);
    s.GfxPresent(s.lastFlipId + 1);
  }

  /** Between frames the target holds the picture that its tag names. */
  lemma Carries(s: Screen, v: nat)
    requires s.Valid() && s.Clean() && s.mode == Record && |s.tag| == 3 && 0 <= s.activeIdx < 3
    requires s.tag[s.activeIdx] == Named(v)
    ensures s.startPic == VideoPic(s.kit, s.width * s.height, v)
  {
    hide Screen.Ring, Screen.History, Screen.Pending, Screen.Ran, RanOf, AssumedOf, VideoPic;
  }

  lemma HeldFrame(s: Screen, n: nat)
    requires s.Valid() && n < |s.frames| && s.frames[n].held && s.frames[n].clean && s.frames[n].events != []
    ensures |s.frames[n].start| == s.width * s.height
    ensures s.frames[n].pic == AssumedOf(s.kit, s.width, s.frames[n].events, s.frames[n].start)
  {
    hide Screen.Ring, Screen.Queued, Screen.TagsHold, RanOf, AssumedOf;
    assert FrameFaithful(s.kit, s.width, s.height, s.frames, n);
    assert s.frames[n] in s.frames;
  }

  lemma TwoPicturesOffered(k: Kit, w: nat, es: seq<Event>, x: nat, u: nat, offered: bool, start: Picture)
    requires w > 0 && es == if offered then [Shown(x, true), Shown(u, false)] else [Shown(u, false)]
    ensures AssumedOf(k, w, es, start) == VideoPic(k, |start|, u)
    ensures Naive(k, w, es, start) == if offered then VideoPic(k, |start|, x) else start
  {
    hide VideoPic;
    var e1: seq<Event> := if offered then [Shown(x, true)] else [];
    assert es[..|es| - 1] == e1 && (offered ==> e1[..0] == []);
    assert Naive(k, w, [], start) == start && NoDraws(e1);
    assert Naive(k, w, e1, start) == if offered then VideoPic(k, |start|, x) else start;
    OntoNothing(k, w, es, VideoPic(k, |start|, u));
  }

  // ---- one tag, two pictures -----------------------------------------------------------------

  /**
   A frame that draws, has a picture painted late and so draws the rest directly fills the screen
   and puts a translucent rounded rectangle on it, in a colour that blends differently the second
   time.  The next frame asks for the fill, the rectangle and its three strips.  Both surfaces end
   up with the same known tag, over different pixels.
   */
  method OneTagTwoPictures(k: Kit, w: nat, h: nat, memory: seq<Picture>, v: nat, dot: Call, col: Color,
                           c: Call, ghost x: nat, ghost y: nat) returns (s: Screen)
    requires w > 0 && Memory(memory, w, h) && dot.Dot? && x < w && y < h
    requires c.RoundA? && 0 < c.a < 255 && InStrip(c, x, y) && Faint(Own(k, c, x, y)) && TwiceDiffers(col, c.c, c.a)
    ensures fresh(s) && s.Valid() && s.mode == Record
    ensures s.tag[0].Known? && s.tag[0] == s.tag[1] && s.frameBuffers[0] != s.frameBuffers[1]
  {
    hide *;
    var fill := Rect(0, 0, w, h, col);
    CoversAll(fill, w, h);
    s := DirectFrame(k, w, h, memory, v, dot, fill, c);
    ghost var under := s.frameBuffers[1];
    QueuedFrame(s, fill, c);
    TwoPictures(k, w, h, col, c, x, y, VideoPic(k, w * h, v), under);
  }

  lemma CoversAll(fill: Call, w: nat, h: nat)
    requires fill.Rect? && fill.x == fill.y == 0 && fill.w == w && fill.h == h
    ensures Covers(fill, w, h)
  {}

  /** There is such a run for every rounded rectangle that doubles, in some coverage of its corners. */
  method DoublingShows(k: Kit, w: nat, h: nat, memory: seq<Picture>, v: nat, dot: Call, c: Call) returns (s: Screen)
    requires w > 0 && Memory(memory, w, h) && dot.Dot? && c.RoundA? && Doubles(c, w, h)
    ensures fresh(s) && s.Valid() && s.mode == Record
    ensures s.tag[0].Known? && s.tag[0] == s.tag[1] && s.frameBuffers[0] != s.frameBuffers[1]
  {
    hide Screen.Valid, InStrip, Own, Faint, TwiceDiffers, Unlike, Shows;
    var bare := k.(disc := (_, _, _, _) => 0);
    ghost var x: nat, y: nat :| x < w && y < h && InStrip(c, x, y);
    NoCorners(bare, c, x, y);
    UnlikeDiffers(c.c, c.a);
    s := OneTagTwoPictures(bare, w, h, memory, v, dot, Unlike(c.c, c.a), c, x, y);
  }

  /** A frame that is drawn directly because a picture was painted late. */
  method LatePicture(k: Kit, w: nat, h: nat, memory: seq<Picture>, v: nat, dot: Call) returns (s: Screen)
    requires w > 0 && Memory(memory, w, h) && dot.Dot?
    ensures fresh(s) && s.Valid() && s.kit == k && s.width == w && s.height == h
    ensures s.mode == Direct && s.q == [] && s.qPaint == NoPaint && s.qTag == Unknown
    ensures s.tag == [Unknown, Unknown, Unknown] && s.frameBuffers[0] == VideoPic(k, w * h, v)
    ensures s.activeIdx == 0 && s.shownIdx == -1 && s.lastFlipId == -1
  {
    hide Screen.Valid, Screen.Ring, Screen.Queued, Screen.History, Screen.TagsHold, Screen.Pending, Screen.Ran,
         Naive, RanOf, AssumedOf, Layers, Own, Draw, DrawAll, VideoPic, Fold, FoldAll, HookedAll, Hooked, Refold,
         Holds, Faithful, Subs, FrameFaithful, FreeOf, RingOf, Covers;
    s := NewScreen(k, w, h, memory);
    s.DrawCall(dot);
    s.GfxVideo(v, true, true);
  }

  /** The first frame: after its late picture it is drawn directly. */
  method DirectFrame(k: Kit, w: nat, h: nat, memory: seq<Picture>, v: nat, dot: Call, fill: Call, c: Call)
    returns (s: Screen)
    requires w > 0 && Memory(memory, w, h) && dot.Dot? && fill.Rect? && Covers(fill, w, h)
    requires c.RoundA? && 0 < c.a < 255
    ensures fresh(s) && s.Valid() && s.kit == k && s.width == w && s.height == h
    ensures s.tag == [Known(Full, [fill, c] + Subs(k, c)), Unknown, Unknown]
    ensures s.frameBuffers[0] == Draw(k, w, c, Draw(k, w, fill, VideoPic(k, w * h, v)))
    ensures |s.frameBuffers| == 3 && |s.frameBuffers[1]| == w * h
    ensures s.activeIdx == 1 && s.shownIdx == 0 && s.lastFlipId == 0
    ensures s.mode == Record && s.q == [] && s.qText == 0 && s.qPaint == NoPaint && s.qTag == Unknown
  {
    hide Screen.Valid, Screen.Ring, Screen.Queued, Screen.History, Screen.TagsHold, Screen.Pending, Screen.Ran,
         Naive, RanOf, AssumedOf, Layers, Own, Draw, DrawAll, VideoPic, Fold, FoldAll, HookedAll, Hooked, Refold,
         Holds, Faithful, Subs, FrameFaithful, FreeOf, RingOf, Covers;
    s := LatePicture(k, w, h, memory, v, dot);
    DirectTags(k, w, h, fill, c);
    RanDirect(s);
    s.DrawCall(fill);
    RanDirect(s);
    s.DrawCall(c);
    RanDirect(s);
    ghost var pic, t := s.frameBuffers[0], s.qTag;
    s.GfxPresent(0);
  }

  lemma RanDirect(s: Screen)
    requires s.Valid() && s.q == [] && s.qPaint == NoPaint
    ensures s.Shape() && s.Ran() == s.Target()
  {
    hide Screen.Ring, Screen.Queued, Screen.History, Screen.TagsHold;
  }

  /** The running tag of the fill and of the rounded rectangle drawn directly. */
  lemma DirectTags(k: Kit, w: nat, h: nat, fill: Call, c: Call)
    requires w > 0 && fill.Rect? && Covers(fill, w, h) && c.RoundA? && c.a < 255
    ensures Refold(k, Fold(Unknown, fill, w, h), fill, w, h) == Known(Full, [fill])
    ensures Refold(k, Fold(Known(Full, [fill]), c, w, h), c, w, h) == Known(Full, [fill, c] + Subs(k, c))
  {
    SubsShallower(k, c);
    SubsShallower(k, fill);
    assert Subs(k, fill) == [] && HookedAll(k, [], Depth(fill)) == [];
    hide Hooked, HookedAll, Subs;
    assert [] + [fill] == [fill];
    HookedTranslucent(k, c);
    HookedIs(k, c);
    RoundRest(k, c);
    assert HookedAll(k, Subs(k, c), Depth(c)) == ([c] + Subs(k, c))[1..] == Subs(k, c);
    assert Fold(Known(Full, [fill]), c, w, h) == Known(Full, [fill, c]) by { assert [fill] + [c] == [fill, c]; }
    FoldPlain(Full, [fill, c], Subs(k, c), w, h);
  }

  lemma {:induction false} FoldPlain(b: Base, cs: seq<Call>, more: seq<Call>, w: nat, h: nat)
    requires forall s | s in more :: s.RectA?
    ensures FoldAll(Known(b, cs), more, w, h) == Known(b, cs + more)
  {
    if more == [] {
      assert cs + more == cs;
    } else {
      FoldPlain(b, cs, more[..|more| - 1], w, h);
      var s := more[|more| - 1];
      assert s in more && !Covers(s, w, h);
      assert cs + more[..|more| - 1] + [more[|more| - 1]] == cs + more;
    }
  }

  /** The second frame: everything is queued, and drawn when it is presented. */
  method QueuedFrame(s: Screen, fill: Call, c: Call)
    requires s.Valid() && fill.Rect? && Covers(fill, s.width, s.height) && c.RoundA?
    requires s.tag == [Known(Full, [fill, c] + Subs(s.kit, c)), Unknown, Unknown]
    requires s.activeIdx == 1 && s.shownIdx == 0 && s.lastFlipId == 0
    requires s.mode == Record && s.q == [] && s.qText == 0 && s.qPaint == NoPaint && s.qTag == Unknown
    modifies s
    ensures s.Valid() && s.mode == Record && s.tag[0].Known? && s.tag[1] == s.tag[0]
    ensures |old(s.frameBuffers)| == |s.frameBuffers| == BUFFERS && s.frameBuffers[0] == old(s.frameBuffers)[0]
    ensures s.frameBuffers[1] == DrawAll(s.kit, s.width, [fill, c] + Subs(s.kit, c), old(s.frameBuffers)[1])
  {
    hide Screen.Valid, Screen.Ring, Screen.Queued, Screen.History, Screen.TagsHold, Screen.Pending, Screen.Ran,
         Naive, RanOf, AssumedOf, Layers, Own, Draw, DrawAll, VideoPic, Fold, FoldAll, HookedAll, Hooked, Refold,
         Holds, Faithful, Subs, FrameFaithful, FreeOf, RingOf, Covers;
    AsksOf(s);
    var cs := [c] + Subs(s.kit, c);
    StripCalls(s.kit, c, cs);
    s.DrawCall(fill);
    QueueStep(s, fill, fill, Unknown, [], 0);
    assert [fill] + cs[..0] == [fill] == [] + [fill];
    var i := 0;
    while i < |cs|
      invariant 0 <= i <= |cs| && s.Valid() && s.mode == Record && s.events != []
      invariant s.q == [fill] + cs[..i] && s.qText == 0 && s.qPaint == NoPaint
      invariant s.qTag == Known(Full, [fill] + cs[..i])
      invariant unchanged(s`frameBuffers, s`tag, s`activeIdx, s`shownIdx, s`lastFlipId)
    {
      QueueStep(s, fill, cs[i], s.qTag, s.q, s.qText);
      assert s.q + [cs[i]] == [fill] + cs[..i + 1];
      s.DrawCall(cs[i]);
      i := i + 1;
    }
    assert cs[..i] == cs && [fill] + cs == [fill, c] + Subs(s.kit, c);
    AsksOf(s);
    RanQueued(s);
    s.GfxPresent(1);
  }

  lemma RanQueued(s: Screen)
    requires s.Valid() && s.qPaint == NoPaint
    ensures s.Shape() && s.Ran() == DrawAll(s.kit, s.width, s.q, s.frameBuffers[s.activeIdx])
  {
    hide Screen.Ring, Screen.Queued, Screen.History, Screen.TagsHold;
  }

  lemma AsksOf(s: Screen)
    requires s.Valid()
    ensures s.Shape() && (s.touched <==> s.events != [])
  {
    hide Screen.Ring, Screen.History, Screen.TagsHold, Screen.Ran, Screen.Pending, RanOf, AssumedOf;
  }

  lemma StripCalls(k: Kit, c: Call, cs: seq<Call>)
    requires c.RoundA? && cs == [c] + Subs(k, c)
    ensures |cs| == 4 && forall d | d in cs :: d.RoundA? || d.RectA?
  {}

  lemma QueueStep(s: Screen, fill: Call, d: Call, t: Tag, q: seq<Call>, qText: nat)
    requires fill.Rect? && Covers(fill, s.width, s.height)
    ensures s.Fits(fill, q, qText) && Fold(t, fill, s.width, s.height) == Known(Full, [fill]) && TextLen(fill) == 0
    ensures d.RoundA? || d.RectA? ==>
      && !Covers(d, s.width, s.height) && TextLen(d) == 0
      && (|q| < 5 && qText == 0 ==> s.Fits(d, q, qText))
      && (t.Known? ==> Fold(t, d, s.width, s.height) == Known(t.base, t.calls + [d]))
  {}

  /** The pictures: the rectangle once over the fill, and with its strips once more. */
  lemma TwoPictures(k: Kit, w: nat, h: nat, col: Color, c: Call, x: nat, y: nat, p: Picture, q: Picture)
    requires w > 0 && |p| == |q| == w * h && x < w && y < h
    requires c.RoundA? && 0 < c.a < 255 && InStrip(c, x, y) && Faint(Own(k, c, x, y)) && TwiceDiffers(col, c.c, c.a)
    ensures var fill := Rect(0, 0, w, h, col);
      Draw(k, w, c, Draw(k, w, fill, p)) != DrawAll(k, w, [fill, c] + Subs(k, c), q)
  {
    hide Own, BlendPx, Draw, DrawAll, InStrip, Hooked, Subs, Faint;
    var fill := Rect(0, 0, w, h, col);
    var flat := seq<Word>(w * h, _ => Encode(col));
    Flat(k, w, h, fill, p);
    Flat(k, w, h, fill, q);
    assert Draw(k, w, fill, p) == flat && Draw(k, w, fill, q) == flat;
    DoubledTagNamesOtherPicture(k, w, h, Unknown, c, x, y, Encode(col));
    assert [fill, c] + Subs(k, c) == [fill] + Hooked(k, c);
    DrawAllConcat(k, w, [fill], Hooked(k, c), q);
    DrawAllOne(k, w, fill, q);
  }

  lemma Flat(k: Kit, w: nat, h: nat, fill: Call, p: Picture)
    requires w > 0 && |p| == w * h && fill.Rect? && fill.x == fill.y == 0 && fill.w == w && fill.h == h
    ensures forall i | 0 <= i < w * h :: Draw(k, w, fill, p)[i] == Encode(fill.c)
  {
    hide Draw;
    forall i | 0 <= i < w * h
      ensures Draw(k, w, fill, p)[i] == Encode(fill.c)
    {
      PixelOnScreen(i, w, h);
      DrawAt(k, w, fill, p, i);
      RectAt(k, fill, i % w, i / w, p[i]);
    }
  }
}

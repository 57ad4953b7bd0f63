/**
 The queued drawing and surface reuse of app/src/gfx.c, and its three-surface
 protocol with the display.

 Pixels are only ever written by `Store`, which demands a surface the display is
 neither scanning nor about to scan.
 */
module Gfx {
  import opened Raster
  import opened Tags
  import opened Frames

  const BUFFERS := 3
  const Q_CMDS := 4096
  const Q_TEXT := 32 * 1024

  datatype Mode = Direct | Record | Replay
  datatype Paint = NoPaint | Paint(v: nat, ok: bool)

  /** Bytes a call takes in the text queue. */
  function TextLen(c: Call): nat {
    if c.Text? then |c.text| + 1 else 0
  }

  /** What the texts of the queued calls take, terminators included. */
  function TextsLen(q: seq<Call>): nat {
    if q == [] then 0 else TextsLen(q[..|q| - 1]) + TextLen(q[|q| - 1])
  }

  lemma TextsNext(q: seq<Call>, c: Call)
    ensures TextsLen([]) == 0 && TextsLen(q + [c]) == TextsLen(q) + TextLen(c)
  {
    assert (q + [c])[..|q|] == q;
  }

  /** The last flip of a surface, -1 if there was none. */
  function LastFlip(flips: seq<int>, i: int): (n: int)
    ensures -1 <= n < |flips|
    ensures n >= 0 ==> flips[n] == i
    ensures forall m | n < m < |flips| :: flips[m] != i
  {
    if flips == [] then -1
    else if flips[|flips| - 1] == i then |flips| - 1
    else LastFlip(flips[..|flips| - 1], i)
  }

  /** The display is not scanning surface `i` and has no flip of it pending. */
  ghost predicate FreeOf(flips: seq<int>, onScreen: int, i: int) {
    forall n | 0 <= n < |flips| && onScreen <= n :: flips[n] != i
  }

  /** The flip protocol: flips by frame id, the frame being scanned, each surface's
      last flip, the surface shown last and the render target. */
  ghost predicate RingOf(flips: seq<int>, onScreen: int, last: seq<int>, shown: int, active: int) {
    && -1 <= onScreen < |flips|
    && |flips| - 1 - onScreen <= (if |flips| == 2 then 2 else 1)
    && (forall n | 0 <= n < |flips| :: 0 <= flips[n] < BUFFERS)
    && |last| == BUFFERS
    && (forall i | 0 <= i < BUFFERS :: last[i] == LastFlip(flips, i))
    && shown == (if flips == [] then -1 else flips[|flips| - 1])
    && active == (shown + 1) % BUFFERS
    && FreeOf(flips, onScreen, active)
  }

  /** The next render target, and the frame that must have left the screen first. */
  function NextTarget(idx: int, active: int): int {
    if idx == active then (active + 1) % BUFFERS else active
  }

  function Retired(last: seq<int>, next: int, prevFlip: int): int
    requires 0 <= next < |last|
  {
    if prevFlip - 1 > last[next] then prevFlip - 1 else last[next]
  }

  /** One present: whichever surface is flipped, the wait is for a frame already
      submitted, and once it is over the next target is free again. */
  lemma RingNext(flips: seq<int>, onScreen: int, last: seq<int>, shown: int, active: int, idx: int, onScreen': int)
    requires RingOf(flips, onScreen, last, shown, active)
    requires idx == active || (idx == shown && 0 <= shown)
    ensures -1 <= onScreen < |flips|
    ensures flips == [] <==> shown == -1
    ensures flips != [] ==> 0 <= shown < BUFFERS && shown != active
    ensures 0 <= idx < BUFFERS && 0 <= NextTarget(idx, active) < BUFFERS && NextTarget(idx, active) != idx
    ensures var last' := last[idx := |flips|];
      var next := NextTarget(idx, active);
      var retired := Retired(last', next, |flips| - 1);
      && retired + 1 < |flips + [idx]|
      && (onScreen <= onScreen' < |flips + [idx]| && (retired >= 0 ==> onScreen' > retired) ==>
            RingOf(flips + [idx], onScreen', last', idx, next))
  {
    LastFlipNext(flips, idx);
  }

  lemma LastFlipNext(flips: seq<int>, idx: int)
    ensures forall i :: LastFlip(flips + [idx], i) == if i == idx then |flips| else LastFlip(flips, i)
  {
    assert (flips + [idx])[..|flips|] == flips;
  }

  /** The tag of a call drawn directly: `t` already has the call itself. */
  function Refold(k: Kit, t: Tag, c: Call, w: nat, h: nat): Tag {
    SubsShallower(k, c);
    FoldAll(t, HookedAll(k, Subs(k, c), Depth(c)), w, h)
  }

  /** After a direct drawing the tag names the new picture, unless the call doubles. */
  lemma RefoldHolds(k: Kit, w: nat, h: nat, t: Tag, c: Call, p: Picture)
    requires w > 0 && |p| == w * h && Holds(k, w, h, t, Draw(k, w, c, p))
    requires !Doubles(c, w, h) || Refold(k, t, c, w, h).Unknown?
    ensures Holds(k, w, h, Refold(k, t, c, w, h), Draw(k, w, c, p))
  {
    if !Doubles(c, w, h) {
      hide *;
      SubsShallower(k, c);
      RefoldIs(k, t, c, w, h);
      var rest := HookedAll(k, Subs(k, c), Depth(c));
      FoldAllHolds(k, w, h, t, rest, Draw(k, w, c, p));
      ReplayIsDraw(k, w, h, c, p);
      HookedIs(k, c);
      DrawAllConcat(k, w, [c], rest, p);
      DrawAllOne(k, w, c, p);
    }
  }

  lemma RefoldIs(k: Kit, t: Tag, c: Call, w: nat, h: nat)
    requires forall s | s in Subs(k, c) :: Depth(s) < Depth(c)
    ensures Refold(k, t, c, w, h) == FoldAll(t, HookedAll(k, Subs(k, c), Depth(c)), w, h)
  {
  }

  class Screen {
    const kit: Kit
    const width: nat
    const height: nat

    // struct Gfx
    var frameBuffers: seq<Picture>
    var tag: seq<Tag>
    var activeIdx: int
    var shownIdx: int
    var lastFlipId: int
    var lastSubmitted: seq<int>

    // the frame being queued
    var q: seq<Call>
    var qText: nat
    var mode: Mode
    var touched: bool
    var qTag: Tag
    var qPaint: Paint
    var reused: nat
    var reshown: nat

    // the display: surfaces in the order their flips were submitted, and the
    // frame it is scanning (-1 before the first)
    var flips: seq<int>
    var onScreen: int

    // history
    ghost var events: seq<Event>     // what the frame has asked for so far
    ghost var startPic: Picture      // what the target held when the frame began
    ghost var sure: seq<bool>        // whether a surface's tag can be trusted ...
    ghost var qSure: bool            // ... and the running one: no doubling call was drawn directly since
    ghost var frames: seq<Frame>     // what has been presented

    // ---- invariants -------------------------------------------------------

    ghost predicate Shape()
      reads `frameBuffers, `tag, `lastSubmitted, `activeIdx
    {
      && width > 0
      && |frameBuffers| == |tag| == |lastSubmitted| == BUFFERS
      && (forall i | 0 <= i < BUFFERS :: |frameBuffers[i]| == width * height)
      && 0 <= activeIdx < BUFFERS
    }

    /** The flip protocol between two presents. */
    ghost predicate Ring()
      reads `flips, `onScreen, `lastFlipId, `lastSubmitted, `shownIdx, `activeIdx
    {
      && lastFlipId == |flips| - 1
      && RingOf(flips, onScreen, lastSubmitted, shownIdx, activeIdx)
    }

    ghost predicate Free()
      reads `flips, `onScreen, `activeIdx
    {
      FreeOf(flips, onScreen, activeIdx)
    }

    ghost function Target(): Picture
      requires Shape()
      reads `frameBuffers, `tag, `lastSubmitted, `activeIdx
    {
      frameBuffers[activeIdx]
    }

    /** What the target will hold once the queue has run, if its paint succeeds. */
    ghost function Pending(): (p: Picture)
      requires Shape()
      reads this
      ensures |p| == width * height
    {
      DrawAll(kit, width, q, if qPaint.Paint? then VideoPic(kit, width * height, qPaint.v) else Target())
    }

    /** What running the queue leaves, whether or not its paint succeeds. */
    ghost function Ran(): (p: Picture)
      requires Shape()
      reads this
      ensures |p| == width * height
    {
      DrawAll(kit, width, q,
              if qPaint.Paint? && qPaint.ok then VideoPic(kit, width * height, qPaint.v) else Target())
    }

    ghost predicate PaintFails()
      reads this
    {
      qPaint.Paint? && !qPaint.ok
    }

    /** Every tag that can be trusted names its surface's pixels; while a frame is drawn
        directly the target's own tag is stale and the running tag speaks for it. */
    ghost predicate TagsHold()
      requires Shape()
      reads this
    {
      && |sure| == BUFFERS
      && (forall i | 0 <= i < BUFFERS && (i != activeIdx || mode == Record) && sure[i] ::
            Holds(kit, width, height, tag[i], frameBuffers[i]))
      && (qSure ==> Holds(kit, width, height, qTag, Pending()))
    }

    /** No tag is in doubt. */
    ghost predicate Clean()
      reads this
    {
      qSure && sure == [true, true, true]
    }

    /** How the queue stands to the requests of the frame. */
    ghost predicate Queued()
      requires Shape()
      reads this
    {
      && |startPic| == width * height
      && Within()
      && (touched <==> events != [])
      && mode != Replay
      && (mode == Record ==> Target() == startPic && (q == [] <==> NoDraws(events)))
      && (mode == Direct ==> q == [] && qPaint == NoPaint && !NoDraws(events))
      && (events == [] ==> qPaint == NoPaint)
      && Ran() == RanOf(kit, width, events, startPic)
      && (mode == Record ==> Pending() == AssumedOf(kit, width, events, startPic))
    }

    /** While calls are queued they keep to their room. */
    ghost predicate Within()
      reads `q, `qText, `mode
    {
      mode == Record ==> |q| <= Q_CMDS && qText == TextsLen(q) <= Q_TEXT
    }

    ghost predicate History()
      requires width > 0
      reads `frames, `flips, `shownIdx, `frameBuffers
    {
      && |frames| == |flips|
      && Faithful(kit, width, height, frames)
      && (flips != [] ==>
            0 <= shownIdx < |frameBuffers| && frames[|frames| - 1].pic == frameBuffers[shownIdx])
    }

    ghost predicate Valid()
      reads this
    {
      Shape() && Ring() && Queued() && History() && TagsHold()
    }

    // ---- pixels -------------------------------------------------------------

    /** The only writer of surfaces. */
    method Store(p: Picture)
      requires Shape() && |p| == width * height && Free()
      modifies this`frameBuffers
      ensures Shape() && frameBuffers == old(frameBuffers)[activeIdx := p]
    {
      frameBuffers := frameBuffers[activeIdx := p];
    }

    // ---- the queue ------------------------------------------------------------

    method QDrop()
      modifies this`q, this`qText, this`qPaint
      ensures q == [] && qText == 0 && qPaint == NoPaint
    {
      q, qText, qPaint := [], 0, NoPaint;
    }

    /** There is room in the queue, which a full-screen call empties first. */
    predicate Fits(c: Call, q: seq<Call>, qText: nat) {
      Covers(c, width, height) || (|q| < Q_CMDS && qText + TextLen(c) <= Q_TEXT)
    }

    /** The hook at the head of every drawing entry point; when the call was queued
        nothing is drawn now. */
    method QHook(c: Call) returns (queued: bool)
      requires Shape() && Free() && (mode == Direct ==> q == [] && qPaint == NoPaint)
      modifies this`frameBuffers, this`q, this`qText, this`mode, this`touched, this`qTag, this`qPaint
      ensures Shape() && Free()
      ensures old(mode) == Record ==> queued == Fits(c, old(q), old(qText))
      ensures old(mode) == Replay ==> !queued && unchanged(this)
      ensures old(mode) != Replay ==> touched
      ensures old(mode) == Direct ==>
        && !queued && mode == Direct && qTag == Fold(old(qTag), c, width, height)
        && unchanged(`frameBuffers, `q, `qPaint)
      ensures old(mode) == Record && queued ==>
        && mode == Record && qTag == Fold(old(qTag), c, width, height)
        && q == (if Covers(c, width, height) then [] else old(q)) + [c]
        && qText == (if Covers(c, width, height) then 0 else old(qText)) + TextLen(c)
        && qPaint == (if Covers(c, width, height) then NoPaint else old(qPaint))
        && unchanged(`frameBuffers)
      ensures old(mode) == Record && !queued ==>
        && mode == Direct && q == [] && qPaint == NoPaint && !Covers(c, width, height)
        && qTag == (if old(PaintFails()) then Unknown else Fold(old(qTag), c, width, height))
        && frameBuffers == old(frameBuffers)[activeIdx := old(Ran())]
      decreases if mode == Record then 1 else 0, Depth(c), 1
    {
      hide Draw, DrawAll, VideoPic, Fold;
      if mode == Replay { return false; }
      touched := true;
      if Covers(c, width, height) && mode == Record {
        QDrop();
      }
      qTag := Fold(qTag, c, width, height);
      if mode != Record { return false; }
      var len := TextLen(c);
      if |q| >= Q_CMDS || qText + len > Q_TEXT {
        assert !Covers(c, width, height);
        QRun();
        mode := Direct;
        return false;
      }
      q := q + [c];
      qText := qText + len;
      return true;
    }

    /** Replay the queue into the target, over its video picture if that paints. */
    method QRun()
      requires Shape() && Free() && mode == Record
      modifies this`frameBuffers, this`q, this`qText, this`mode, this`touched, this`qTag, this`qPaint
      ensures Shape() && Free()
      ensures mode == Record && touched == old(touched)
      ensures q == [] && qText == 0 && qPaint == NoPaint
      ensures qTag == (if old(PaintFails()) then Unknown else old(qTag))
      ensures frameBuffers == old(frameBuffers)[activeIdx := old(Ran())]
      decreases 1, 0, 0
    {
      hide Draw, DrawAll, VideoPic, LastFlip;
      mode := Replay;
      if qPaint.Paint? {
        var paint := qPaint;
        qPaint := NoPaint;
        if paint.ok {
          Store(VideoPic(kit, width * height, paint.v));
        } else {
          qTag := Unknown;
        }
      }
      ghost var base := Target();
      var i := 0;
      NothingYet(qTag, base, 0);
      assert q[..0] == [];
      while i < |q|
        invariant 0 <= i <= |q| && Shape() && Free() && mode == Replay
        invariant q == old(q) && qPaint == NoPaint && touched == old(touched)
        invariant qTag == (if old(PaintFails()) then Unknown else old(qTag))
        invariant frameBuffers == old(frameBuffers)[activeIdx := DrawAll(kit, width, q[..i], base)]
      {
        assert q[..i + 1] == q[..i] + [q[i]];
        DrawAllSnoc(kit, width, q[..i], q[i], base);
        Primitive(q[i]);
        i := i + 1;
      }
      assert q[..i] == q;
      q, qText := [], 0;
      mode := Record;
    }

    /** A drawing entry point: queue the call, or make its nested calls and then
        write its own pixels. */
    method Primitive(c: Call)
      requires Shape() && Free() && (mode == Direct ==> q == [] && qPaint == NoPaint)
      modifies this`frameBuffers, this`q, this`qText, this`mode, this`touched, this`qTag, this`qPaint
      ensures Shape() && Free()
      ensures old(mode) == Replay ==>
        && mode == Replay && unchanged(`q, `qText, `touched, `qTag, `qPaint)
        && frameBuffers == old(frameBuffers)[activeIdx := Draw(kit, width, c, old(Target()))]
      ensures old(mode) != Replay ==> touched
      ensures old(mode) == Direct ==>
        && mode == Direct && q == [] && qPaint == NoPaint
        && qTag == Refold(kit, Fold(old(qTag), c, width, height), c, width, height)
        && frameBuffers == old(frameBuffers)[activeIdx := Draw(kit, width, c, old(Target()))]
      ensures old(mode) == Record ==> mode == if Fits(c, old(q), old(qText)) then Record else Direct
      ensures old(mode) == Record && mode == Record ==>
        && qTag == Fold(old(qTag), c, width, height)
        && q == (if Covers(c, width, height) then [] else old(q)) + [c]
        && qText == (if Covers(c, width, height) then 0 else old(qText)) + TextLen(c)
        && qPaint == (if Covers(c, width, height) then NoPaint else old(qPaint))
        && unchanged(`frameBuffers)
      ensures old(mode) == Record && mode == Direct ==>
        && q == [] && qPaint == NoPaint && !Covers(c, width, height)
        && qTag == Refold(kit, if old(PaintFails()) then Unknown else Fold(old(qTag), c, width, height),
                          c, width, height)
        && frameBuffers == old(frameBuffers)[activeIdx := Draw(kit, width, c, old(Ran()))]
      decreases if mode == Record then 1 else 0, Depth(c), 2
    {
      hide Draw, DrawAll, Own, Over, HookedAll, Fold, FoldAll, Refold, Covers, Subs;
      var queued := QHook(c);
      if queued { return; }
      ghost var p, t := Target(), qTag;
      label Hooked:
      SubsShallower(kit, c);
      var subs := Subs(kit, c);
      NothingYet(t, p, Depth(c));
      var i := 0;
      assert subs[..0] == [];
      while i < |subs|
        invariant 0 <= i <= |subs| && Shape() && Free() && mode == old@Hooked(mode)
        invariant mode == Replay ==> unchanged@Hooked(`q, `qText, `touched, `qTag, `qPaint)
        invariant mode == Direct ==>
          touched && q == [] && qPaint == NoPaint &&
          qTag == FoldAll(t, HookedAll(kit, subs[..i], Depth(c)), width, height)
        invariant frameBuffers == old@Hooked(frameBuffers)[activeIdx := DrawAll(kit, width, subs[..i], p)]
      {
        assert subs[..i + 1] == subs[..i] + [subs[i]];
        DirectTag(subs[..i], subs[i], t, Depth(c));
        DrawAllSnoc(kit, width, subs[..i], subs[i], p);
        Primitive(subs[i]);
        i := i + 1;
      }
      assert subs[..i] == subs;
      RefoldIs(kit, t, c, width, height);
      OwnPixels(c, p);
    }

    /** The pixels a primitive writes itself, over what its nested calls left. */
    method OwnPixels(c: Call, ghost p: Picture)
      requires Shape() && Free() && |p| == width * height
      requires Target() == DrawAll(kit, width, Subs(kit, c), p)
      modifies this`frameBuffers
      ensures Shape() && frameBuffers == old(frameBuffers)[activeIdx := Draw(kit, width, c, p)]
    {
      hide Draw, DrawAll, Own, Over, Subs;
      var d := frameBuffers[activeIdx];
      var r := seq<Word>(|d|, j requires 0 <= j < |d| => Over(Own(kit, c, j % width, j / width), d[j]));
      DrawBySubs(kit, width, c, p, r);
      Store(r);
    }

    lemma NothingYet(t: Tag, p: Picture, depth: nat)
      requires width > 0
      ensures FoldAll(t, HookedAll(kit, [], depth), width, height) == t
      ensures DrawAll(kit, width, [], p) == p
    {
    }

    /** One more nested call in the running tag. */
    lemma DirectTag(front: seq<Call>, s: Call, t: Tag, depth: nat)
      requires (forall c | c in front :: Depth(c) < depth) && Depth(s) < depth
      ensures FoldAll(t, HookedAll(kit, front + [s], depth), width, height) ==
              Refold(kit, Fold(FoldAll(t, HookedAll(kit, front, depth), width, height), s, width, height),
                     s, width, height)
    {
      SubsShallower(kit, s);
      var f := HookedAll(kit, front, depth);
      var rest := HookedAll(kit, Subs(kit, s), Depth(s));
      assert (front + [s])[..|front|] == front;
      assert Hooked(kit, s) == [s] + rest;
      assert HookedAll(kit, front + [s], depth) == f + [s] + rest;
      FoldAllConcat(t, f + [s], rest, width, height);
      FoldAllConcat(t, f, [s], width, height);
      var t' := FoldAll(t, f, width, height);
      assert FoldAll(t', [], width, height) == t';
      assert FoldAll(t', [s], width, height) == Fold(t', s, width, height);
    }

    // ---- drawing ------------------------------------------------------------

    constructor (k: Kit, w: nat, h: nat, memory: seq<Picture>)
      requires w > 0 && |memory| == BUFFERS && forall i | 0 <= i < BUFFERS :: |memory[i]| == w * h
      ensures Valid() && kit == k && width == w && height == h
      ensures flips == [] && frames == [] && events == [] && Clean() && onScreen == -1 && lastFlipId == -1
      ensures mode == Record && q == [] && qText == 0 && qPaint == NoPaint && qTag == Unknown
      ensures frameBuffers == memory && tag == [Unknown, Unknown, Unknown]
      ensures activeIdx == 0 && shownIdx == -1 && startPic == memory[0]
    {
      kit, width, height := k, w, h;
      frameBuffers := memory;
      tag := [Unknown, Unknown, Unknown];
      activeIdx, shownIdx, lastFlipId := 0, -1, -1;
      lastSubmitted := [-1, -1, -1];
      q, qText, qPaint := [], 0, NoPaint;
      mode, touched, qTag := Record, false, Unknown;
      reused, reshown := 0, 0;
      flips, onScreen := [], -1;
      events, startPic, frames := [], memory[0], [];
      sure, qSure := [true, true, true], true;
    }

    /** The tag that speaks for the target: the running one while drawing is immediate. */
    function GfxTag(): (t: Tag)
      requires |tag| == BUFFERS && 0 <= activeIdx < BUFFERS
      reads this
      ensures Valid() && (if mode == Direct then qSure else sure[activeIdx]) ==>
        Holds(kit, width, height, t, frameBuffers[activeIdx])
    {
      if mode == Direct then qTag else tag[activeIdx]
    }

    /** What a drawing call does to the frame being queued or drawn. */
    twostate predicate Did(c: Call)
      requires old(Shape()) && Shape()
      reads this
    {
      && touched && activeIdx == old(activeIdx) && tag == old(tag)
      && mode == (if old(mode) == Record && Fits(c, old(q), old(qText)) then Record else Direct)
      && (mode == Record ==>
            && old(mode) == Record
            && qTag == Fold(old(qTag), c, width, height)
            && q == (if Covers(c, width, height) then [] else old(q)) + [c]
            && qText == (if Covers(c, width, height) then 0 else old(qText)) + TextLen(c)
            && qPaint == (if Covers(c, width, height) then NoPaint else old(qPaint))
            && frameBuffers == old(frameBuffers))
      && (mode == Direct ==>
            && q == [] && qPaint == NoPaint
            && (old(mode) == Record ==> !Covers(c, width, height))
            && qTag == Refold(kit, if old(PaintFails()) then Unknown else Fold(old(qTag), c, width, height),
                              c, width, height)
            && frameBuffers == old(frameBuffers)[activeIdx := Draw(kit, width, c, old(Ran()))])
    }

    /** Any drawing call of a frame: `gfx_rect` and its fellows. */
    method DrawCall(c: Call)
      requires Valid()
      modifies this`frameBuffers, this`q, this`qText, this`mode, this`touched, this`qTag, this`qPaint,
               this`events, this`qSure
      ensures Valid() && Did(c)
      ensures events == old(events) + [Drawn(c)]
      // a covering call starts a new tag; a doubling one drawn directly puts it in doubt
      ensures qSure == SureAfter(old(qSure), c)
    {
      hide Draw, DrawAll, VideoPic, Fold, Refold, Covers, Doubles, TagsHold, History, LastFlip, Pending,
           RanOf, AssumedOf, NoDraws, Fits, Within, TextsLen, TextLen;
      NothingYet(qTag, Target(), 0);
      Primitive(c);
      events := events + [Drawn(c)];
      qSure := SureAfter(qSure, c);
      HistoryKept();
      KeepsQueued(c);
      KeepsTags(c);
    }

    /** Whether the running tag can be trusted after a call, if it could before. */
    ghost predicate SureAfter(was: bool, c: Call)
      reads this
    {
      qTag.Unknown? || ((was || Covers(c, width, height)) && !(mode == Direct && Doubles(c, width, height)))
    }

    twostate lemma KeepsQueued(c: Call)
      requires old(Shape() && Queued()) && Shape() && Did(c)
      requires events == old(events) + [Drawn(c)] && startPic == old(startPic)
      ensures Queued()
    {
      KeepsWithin(c);
      hide Draw, DrawAll, VideoPic, Fold, Refold, Covers, RanOf, AssumedOf, NoDraws, Fits, TextsLen, TextLen;
      PendingAfter(c);
      DrawnOnto(kit, width, old(events), c, startPic);
    }

    twostate lemma KeepsWithin(c: Call)
      requires old(Shape() && Queued()) && Shape() && Did(c)
      ensures Within()
    {
      hide Draw, DrawAll, Fold, Refold, RanOf, AssumedOf, NoDraws;
      var before := if Covers(c, width, height) then [] else old(q);
      if mode == Record {
        TextsNext(before, c);
        assert c.Text? ==> !Covers(c, width, height);
      }
    }

    twostate lemma KeepsTags(c: Call)
      requires old(Shape() && Queued() && TagsHold()) && Shape() && Did(c)
      requires sure == old(sure) && qSure == SureAfter(old(qSure), c)
      ensures TagsHold()
    {
      hide Draw, DrawAll, VideoPic, Fold, Refold, Covers, RanOf, AssumedOf, NoDraws, Doubles, Holds, Fits;
      PendingAfter(c);
      CoverFolds(old(qTag), c, width, height);
      var t := if old(qSure) then old(qTag) else Unknown;
      UnknownHolds(kit, width, height, old(Pending()));
      UnknownHolds(kit, width, height, Pending());
      DrawnTags(kit, width, height, t, c, old(Ran()), old(Pending()), old(PaintFails()));
    }

    /** A call is drawn over the pending picture, also when a covering call drops
        the queue and the paint before it. */
    twostate lemma PendingAfter(c: Call)
      requires old(Shape() && Queued()) && Shape() && Did(c)
      ensures mode == Record ==> Pending() == Draw(kit, width, c, old(Pending()))
      ensures mode == Direct ==> Pending() == Draw(kit, width, c, old(Ran()))
      ensures Ran() == Draw(kit, width, c, old(Ran()))
      ensures old(PaintFails()) || old(Ran()) == old(Pending())
    {
      hide Draw, Covers, Fold, Refold, RanOf, AssumedOf, NoDraws, Fits;
      if mode == Record {
        if Covers(c, width, height) {
          DrawAllSnoc(kit, width, [], c, Target());
          CoverErases(kit, width, height, c, old(Pending()), Target());
          CoverErases(kit, width, height, c, old(Ran()), Target());
        } else {
          var pic := VideoPic(kit, width * height, if qPaint.Paint? then qPaint.v else 0);
          DrawAllSnoc(kit, width, old(q), c, if qPaint.Paint? then pic else Target());
          DrawAllSnoc(kit, width, old(q), c, if qPaint.Paint? && qPaint.ok then pic else Target());
        }
      }
    }

    /** Drawing into the target leaves the surface on screen, and so the history, alone. */
    twostate lemma HistoryKept()
      requires old(Shape()) && Shape() && old(History()) && Ring()
      requires unchanged(`frames, `flips, `shownIdx)
      requires forall i | 0 <= i < BUFFERS && i != activeIdx :: frameBuffers[i] == old(frameBuffers)[i]
      ensures History()
    {
    }

    /** `gfx_video`: a full-screen picture under the frame's drawing, named by a tag unless
        its tag is 0. */
    method GfxVideo(v: nat, named: bool, ok: bool)
      requires Valid()
      modifies this`frameBuffers, this`q, this`qText, this`mode, this`touched, this`qTag, this`qPaint,
               this`events, this`qSure
      ensures Valid() && qSure
      ensures events == old(events) + [Shown(v, ok)]
      // early, the picture is kept for later; late, it is painted now and what it covers is not known
      ensures old(mode) == Record && old(q) == [] ==>
        && mode == Record && q == [] && qText == old(qText) && qPaint == Paint(v, ok)
        && frameBuffers == old(frameBuffers)
        && qTag == if named then Known(Video(v), []) else Unknown
      ensures !(old(mode) == Record && old(q) == []) ==>
        && mode == Direct && qTag == Unknown && q == [] && qPaint == NoPaint
        && frameBuffers == old(frameBuffers)[activeIdx :=
             if ok then VideoPic(kit, width * height, v) else old(Ran())]
    {
      hide *;
      if mode == Record && q == [] {
        VideoUnder(v, named, ok);
      } else {
        VideoNow(v, ok);
      }
    }

    /** Before any drawing: remember the picture and take its tag for the frame's. */
    method VideoUnder(v: nat, named: bool, ok: bool)
      requires Valid() && mode == Record && q == []
      modifies this`touched, this`qTag, this`qPaint, this`events, this`qSure
      ensures Valid() && qSure
      ensures events == old(events) + [Shown(v, ok)]
      ensures qPaint == Paint(v, ok) && qTag == if named then Known(Video(v), []) else Unknown
    {
      hide Draw, DrawAll, VideoPic, Covers, Holds, RanOf, AssumedOf, Faithful, LastFlip, NoDraws;
      ShownOnto(kit, width, events, v, ok, startPic);
      VideoHolds(kit, width, height, v);
      UnknownHolds(kit, width, height, VideoPic(kit, width * height, v));
      NothingYet(qTag, VideoPic(kit, width * height, v), 0);
      NothingYet(qTag, Target(), 0);
      qPaint := Paint(v, ok);
      qTag := if named then Known(Video(v), []) else Unknown;
      qSure := true;
      touched := true;
      events := events + [Shown(v, ok)];
    }

    /** Over drawing: flush the queue, then paint at once. */
    method VideoNow(v: nat, ok: bool)
      requires Valid() && !(mode == Record && q == [])
      modifies this`frameBuffers, this`q, this`qText, this`mode, this`touched, this`qTag, this`qPaint,
               this`events, this`qSure
      ensures Valid() && qSure && mode == Direct && qTag == Unknown && q == [] && qPaint == NoPaint
      ensures events == old(events) + [Shown(v, ok)]
      ensures frameBuffers == old(frameBuffers)[activeIdx :=
        if ok then VideoPic(kit, width * height, v) else old(Ran())]
    {
      hide Draw, DrawAll, VideoPic, Covers, TagsHold, RanOf, AssumedOf, History, LastFlip, NoDraws, Pending;
      NothingYet(qTag, Target(), 0);
      if mode == Record {
        NoRequests();
        RunNow();
      }
      PaintOver(v, ok);
    }

    /** The picture need not fill the screen, so over drawn content it is named only when
        the frame is still untouched. */
    method PaintOver(v: nat, ok: bool)
      requires Valid() && mode == Direct
      modifies this`frameBuffers, this`touched, this`qTag, this`events, this`qSure
      ensures Valid() && qSure && mode == Direct && qTag == Unknown && q == [] && qPaint == NoPaint
      ensures events == old(events) + [Shown(v, ok)]
      ensures frameBuffers == if !ok then old(frameBuffers)
        else old(frameBuffers)[activeIdx := VideoPic(kit, width * height, v)]
    {
      hide Draw, DrawAll, VideoPic, Covers, Holds, RanOf, AssumedOf, History, LastFlip, NoDraws;
      NoRequests();
      ShownOnto(kit, width, events, v, ok, startPic);
      NothingYet(qTag, Target(), 0);
      var known := !touched;
      if ok {
        Store(VideoPic(kit, width * height, v));
      }
      HistoryKept();
      qTag := if known && ok then Known(Video(v), []) else Unknown;
      qSure := true;
      touched := true;
      events := events + [Shown(v, ok)];
      NothingYet(qTag, Target(), 0);
      UnknownHolds(kit, width, height, Target());
    }

    /** Run a queue that holds calls and draw directly from here on. */
    method RunNow()
      requires Valid() && mode == Record && q != []
      modifies this`frameBuffers, this`q, this`qText, this`mode, this`touched, this`qTag, this`qPaint
      ensures Valid() && mode == Direct && touched == old(touched) && q == [] && qPaint == NoPaint
      ensures frameBuffers == old(frameBuffers)[activeIdx := old(Ran())]
    {
      hide Draw, DrawAll, VideoPic, Covers, Holds, RanOf, AssumedOf, Faithful, LastFlip, NoDraws;
      NoRequests();
      QRun();
      mode := Direct;
      NothingYet(qTag, Target(), 0);
      UnknownHolds(kit, width, height, Target());
    }

    lemma NoRequests()
      ensures NoDraws([])
    {
    }

    // ---- presenting ---------------------------------------------------------

    /** Whether the frame is drawn when it is presented, if no surface holds it. */
    ghost predicate Asks()
      reads this
    {
      !(mode == Record && events == [] && shownIdx >= 0)
    }

    /** The surface whose tag is the frame's, if any: first choice the target, second the
        surface shown last, provided the target's tag is known; otherwise -1. */
    ghost function HeldBy(): (i: int)
      requires Shape()
      reads this
      ensures i == -1 || i == activeIdx || (i == shownIdx && 0 <= i)
    {
      if mode != Record || !Asks() || qTag.Unknown? then -1
      else if qTag == tag[activeIdx] then activeIdx
      else if 0 <= shownIdx < BUFFERS && qTag == tag[shownIdx] && tag[activeIdx].Known? then shownIdx
      else -1
    }

    /** What the surfaces hold, and their tags, once the frame has been resolved. */
    ghost function Surfaces(): (fb: seq<Picture>)
      requires Shape()
      reads this
    {
      if Asks() && HeldBy() < 0 then frameBuffers[activeIdx := Ran()] else frameBuffers
    }

    ghost function Names(): (t: seq<Tag>)
      requires Shape()
      reads this
    {
      if Asks() && HeldBy() < 0 then tag[activeIdx := if PaintFails() then Unknown else qTag] else tag
    }

    /** Which tags can then be trusted; a frame that was drawn hands its doubt on. */
    ghost function Trusted(): (s: seq<bool>)
      requires Shape() && |sure| == BUFFERS
      reads this
    {
      if Asks() && HeldBy() < 0 then sure[activeIdx := qSure || Names()[activeIdx].Unknown?] else sure
    }

    /** The tags by which the frame was found, if it was, can be trusted. */
    ghost predicate FoundTruly()
      requires Shape() && |sure| == BUFFERS
      reads this
    {
      HeldBy() >= 0 ==> qSure && sure[HeldBy()]
    }

    /** Draw the frame, or find a surface that holds it already: the surface to flip. */
    method QCommit() returns (idx: int)
      requires Valid()
      modifies this`frameBuffers, this`q, this`qText, this`mode, this`touched, this`qTag, this`qPaint,
               this`tag, this`sure, this`reused, this`reshown
      ensures Shape()
      ensures idx == activeIdx || (idx == shownIdx && 0 <= shownIdx)
      ensures idx == if !old(Asks()) then shownIdx else if old(HeldBy()) < 0 then activeIdx else old(HeldBy())
      ensures frameBuffers == old(Surfaces()) && tag == old(Names()) && |old(sure)| == BUFFERS && sure == old(Trusted())
      ensures SureHold()
      // a frame that asked for nothing flips the last surface once more
      ensures events == [] && shownIdx >= 0 ==> idx == shownIdx
      // otherwise the flipped surface holds what its tag names, or what running the queue gives
      ensures old(HeldBy()) >= 0 && old(FoundTruly()) ==> frameBuffers[idx] == AssumedOf(kit, width, events, startPic)
      ensures old(HeldBy()) < 0 && !(events == [] && shownIdx >= 0) ==>
        frameBuffers[idx] == RanOf(kit, width, events, startPic)
    {
      hide Draw, DrawAll, VideoPic, Covers, RanOf, AssumedOf, History, LastFlip, NoDraws, Denote;
      var a, s := activeIdx, shownIdx;
      NothingYet(qTag, Target(), 0);
      NoRequests();
      if mode == Record {
        var t := qTag;
        if !touched && s >= 0 {
          reshown := reshown + 1;
          return s;
        }
        if t.Known? && t == tag[a] {
          reused := reused + 1;
          QDrop();
          return a;
        }
        if t.Known? && s >= 0 && t == tag[s] && tag[a].Known? {
          reshown := reshown + 1;
          QDrop();
          return s;
        }
        QRun();
      }
      tag := tag[a := qTag];
      sure := sure[a := qSure || qTag.Unknown?];
      return a;
    }

    /** Tags that can be trusted are true. */
    ghost predicate SureHold()
      requires Shape()
      reads `sure, `tag, `frameBuffers, `lastSubmitted, `activeIdx
    {
      |sure| == BUFFERS && forall i | 0 <= i < BUFFERS && sure[i] :: Holds(kit, width, height, tag[i], frameBuffers[i])
    }

    /** The display moves on to the next submitted flip, if there is one. */
    method Vsync()
      requires -1 <= onScreen < |flips|
      modifies this`onScreen
      ensures onScreen == if old(onScreen) + 1 < |flips| then old(onScreen) + 1 else old(onScreen)
      ensures old(Valid()) ==> Valid()
    {
      hide Holds, RanOf, AssumedOf, DrawAll, VideoPic, NoDraws, Faithful, LastFlip;
      if onScreen + 1 < |flips| {
        onScreen := onScreen + 1;
      }
    }

    /** The next frame is described by the target's tag until it draws. */
    method QBegin()
      requires Shape() && |sure| == BUFFERS
      modifies this`q, this`qText, this`qPaint, this`touched, this`qTag, this`qSure, this`mode, this`events,
               this`startPic
      ensures mode == Record && !touched && q == [] && qText == 0 && qPaint == NoPaint
      ensures qTag == tag[activeIdx] && qSure == sure[activeIdx] && events == [] && startPic == Target()
    {
      QDrop();
      touched := false;
      qTag := tag[activeIdx];
      mode := Record;
      events, startPic, qSure := [], frameBuffers[activeIdx], sure[activeIdx];
    }

    /** `gfx_present`: flip the frame, wait until the next target is writable, and
        begin the next frame on it. */
    method GfxPresent(frameID: int)
      requires Valid() && frameID == lastFlipId + 1
      modifies this
      ensures Valid()
      ensures |old(sure)| == |sure| == BUFFERS && sure == old(Trusted()) && qSure == sure[activeIdx]
      ensures flips == old(flips) + [shownIdx] && lastFlipId == frameID
      ensures frames == old(frames)
        + [Frame(old(events), old(startPic), old(HeldBy()) >= 0, old(FoundTruly()), frameBuffers[shownIdx])]
      ensures frameBuffers == old(Surfaces()) && tag == old(Names())
      ensures shownIdx ==
        if !old(Asks()) then old(shownIdx) else if old(HeldBy()) < 0 then old(activeIdx) else old(HeldBy())
      ensures activeIdx == NextTarget(shownIdx, old(activeIdx))
      // the next frame has asked for nothing yet
      ensures mode == Record && q == [] && qText == 0 && qPaint == NoPaint && events == []
      ensures qTag == tag[activeIdx]
    {
      hide *;
      ghost var fs, screen, last, shown, active := flips, onScreen, lastSubmitted, shownIdx, activeIdx;
      RingIs();
      var idx := FlipFrame(frameID);
      RingNext(fs, screen, last, shown, active, idx, screen);
      var nextIdx := NextTarget(idx, activeIdx);
      AwaitRetired(nextIdx, frameID - 1);
      RingNext(fs, screen, last, shown, active, idx, onScreen);
      NextFrame(nextIdx);
    }

    lemma RingIs()
      requires Valid()
      ensures RingOf(flips, onScreen, lastSubmitted, shownIdx, activeIdx)
      ensures |lastSubmitted| == BUFFERS && lastFlipId == |flips| - 1
    {
    }

    /** Resolve the frame and submit its surface. */
    method FlipFrame(frameID: int) returns (idx: int)
      requires Valid() && frameID == lastFlipId + 1
      modifies this`frameBuffers, this`q, this`qText, this`mode, this`touched, this`qTag, this`qPaint,
               this`tag, this`sure, this`reused, this`reshown,
               this`flips, this`lastSubmitted, this`lastFlipId, this`shownIdx, this`frames
      ensures Shape() && History() && SureHold()
      ensures idx == activeIdx || (idx == old(shownIdx) && 0 <= idx)
      ensures flips == old(flips) + [idx] && shownIdx == idx && lastFlipId == frameID
      ensures 0 <= idx < BUFFERS && lastSubmitted == old(lastSubmitted)[idx := frameID]
      ensures frameBuffers == old(Surfaces()) && tag == old(Names()) && |old(sure)| == BUFFERS && sure == old(Trusted())
      ensures idx ==
        if !old(Asks()) then old(shownIdx) else if old(HeldBy()) < 0 then activeIdx else old(HeldBy())
      ensures frames == old(frames)
        + [Frame(events, startPic, old(HeldBy()) >= 0, old(FoundTruly()), frameBuffers[idx])]
    {
      hide Draw, DrawAll, VideoPic, RanOf, AssumedOf, NoDraws, Holds, Faithful, Pending, LastFlip, TagsHold, Ran;
      HaveSure();
      ghost var held, truly := HeldBy() >= 0, FoundTruly();
      RingNext(flips, onScreen, lastSubmitted, shownIdx, activeIdx, activeIdx, onScreen);
      idx := QCommit();
      ghost var f := Frame(events, startPic, held, truly, frameBuffers[idx]);
      FaithfulNext(kit, width, height, frames, f);
      Submit(idx, frameID, f);
    }

    /** The next frame begins on a surface that is free. */
    method NextFrame(nextIdx: int)
      requires Shape() && 0 <= nextIdx < BUFFERS && History()
      requires lastFlipId == |flips| - 1 && RingOf(flips, onScreen, lastSubmitted, shownIdx, nextIdx)
      requires SureHold()
      modifies this`activeIdx, this`q, this`qText, this`qPaint, this`touched, this`qTag, this`qSure, this`mode,
               this`events, this`startPic
      ensures Valid() && events == []
      ensures activeIdx == nextIdx && mode == Record && q == [] && qText == 0 && qPaint == NoPaint
      ensures |sure| == BUFFERS && qTag == tag[activeIdx] && qSure == sure[activeIdx]
    {
      hide Draw, DrawAll, VideoPic, NoDraws, Holds, Faithful, LastFlip, RanOf, AssumedOf;
      activeIdx := nextIdx;
      QBegin();
      NothingYet(qTag, Target(), 0);
      Fresh(startPic);
    }

    lemma HaveSure()
      requires Valid()
      ensures |sure| == BUFFERS
    {
    }

    /** Hand the surface to the display. */
    method Submit(idx: int, frameID: int, ghost f: Frame)
      requires 0 <= idx < |lastSubmitted|
      modifies this`flips, this`lastSubmitted, this`lastFlipId, this`shownIdx, this`frames
      ensures flips == old(flips) + [idx] && frames == old(frames) + [f]
      ensures lastSubmitted == old(lastSubmitted)[idx := frameID]
      ensures lastFlipId == frameID && shownIdx == idx
    {
      flips := flips + [idx];
      frames := frames + [f];
      lastSubmitted := lastSubmitted[idx := frameID];
      lastFlipId := frameID;
      shownIdx := idx;
    }

    /** Waits until the display has gone past the frame in which the next target was last
        flipped, and past the flip before the previous one.  The wait ends because a later
        frame has been submitted. */
    method AwaitRetired(nextIdx: int, prevFlip: int)
      requires 0 <= nextIdx < |lastSubmitted| && -1 <= onScreen < |flips|
      requires Retired(lastSubmitted, nextIdx, prevFlip) + 1 < |flips|
      modifies this`onScreen
      ensures old(onScreen) <= onScreen < |flips|
      ensures Retired(lastSubmitted, nextIdx, prevFlip) >= 0 ==>
        onScreen > Retired(lastSubmitted, nextIdx, prevFlip)
    {
      var retired := lastSubmitted[nextIdx];
      if prevFlip - 1 > retired { retired := prevFlip - 1; }
      if retired >= 0 {
        while !(onScreen > retired)
          invariant old(onScreen) <= onScreen < |flips|
          modifies this`onScreen
          decreases |flips| - onScreen
        {
          Vsync();
        }
      }
    }

    // ---- what a reachable screen guarantees -----------------------------------

    /** Two surfaces with equal known tags hold equal pixels, if neither tag is in doubt. */
    lemma EqualTags(i: int, j: int)
      requires Valid() && mode == Record && 0 <= i < BUFFERS && 0 <= j < BUFFERS && sure[i] && sure[j]
      requires tag[i].Known? && tag[i] == tag[j]
      ensures frameBuffers[i] == frameBuffers[j]
    {
    }

    /** If every frame so far asked for nothing, or opened a picture of its own and was shown
        truly, the pictures flipped are those a renderer without any cache would show. */
    lemma ShownAsRendered()
      requires Valid() && SelfContained(kit, width, height, frames)
      ensures Flipped(frames) == Rendered(kit, width, height, Asked(frames))
    {
      RunIsRendered(kit, width, height, frames);
    }

    /** The display never scans, nor is about to scan, the surface being drawn. */
    lemma TargetIsFree()
      requires Valid()
      ensures forall n | 0 <= n < |flips| && onScreen <= n :: flips[n] != activeIdx
      ensures |flips| - 1 - onScreen <= 2
      ensures flips != [] ==> activeIdx == (shownIdx + 1) % BUFFERS
    {
    }

    lemma Fresh(p: Picture)
      requires width > 0
      ensures NoDraws([]) && RanOf(kit, width, [], p) == AssumedOf(kit, width, [], p) == p
    {
    }
  }

  /** A faithful frame extends a faithful run. */
  lemma FaithfulNext(k: Kit, w: nat, h: nat, fs: seq<Frame>, f: Frame)
    requires w > 0 && Faithful(k, w, h, fs) && |f.start| == |f.pic| == w * h
    requires f.events == [] && fs != [] ==> f.pic == fs[|fs| - 1].pic
    requires !(f.events == [] && fs != []) && f.held && f.clean ==> f.pic == AssumedOf(k, w, f.events, f.start)
    requires !(f.events == [] && fs != []) && !f.held ==> f.pic == RanOf(k, w, f.events, f.start)
    ensures Faithful(k, w, h, fs + [f])
  {
    hide RanOf, AssumedOf;
    forall n | 0 <= n < |fs + [f]|
      ensures FrameFaithful(k, w, h, fs + [f], n)
    {
      if n < |fs| { assert FrameFaithful(k, w, h, fs, n); }
    }
  }

  /** The running tag after a call: queued, drawn directly, or drawn after an overflow. */
  lemma DrawnTags(k: Kit, w: nat, h: nat, t: Tag, c: Call, ran: Picture, pending: Picture, failing: bool)
    requires w > 0 && |ran| == |pending| == w * h
    requires failing || ran == pending
    ensures Holds(k, w, h, t, pending) ==>
      Holds(k, w, h, Fold(t, c, w, h), Draw(k, w, c, pending))
    ensures var t' := Refold(k, if failing then Unknown else Fold(t, c, w, h), c, w, h);
      Holds(k, w, h, t, pending) && (!Doubles(c, w, h) || t'.Unknown?) ==>
        Holds(k, w, h, t', Draw(k, w, c, ran))
    ensures forall p: Picture :: Holds(k, w, h, Unknown, p)
  {
    hide Draw, Fold, Refold, Doubles;
    if Holds(k, w, h, t, pending) {
      FoldHolds(k, w, h, t, c, pending);
      var f := if failing then Unknown else Fold(t, c, w, h);
      if !Doubles(c, w, h) || Refold(k, f, c, w, h).Unknown? {
        RefoldHolds(k, w, h, f, c, ran);
      }
    }
  }

  /** A covering call forgets what the tag was. */
  lemma CoverFolds(t: Tag, c: Call, w: nat, h: nat)
    ensures Covers(c, w, h) ==> Fold(t, c, w, h) == Fold(Unknown, c, w, h)
  {
  }

  lemma VideoHolds(k: Kit, w: nat, h: nat, v: nat)
    requires w > 0
    ensures Holds(k, w, h, Known(Video(v), []), VideoPic(k, w * h, v))
  {
  }

  lemma UnknownHolds(k: Kit, w: nat, h: nat, p: Picture)
    requires w > 0
    ensures Holds(k, w, h, Unknown, p)
  {
  }
}

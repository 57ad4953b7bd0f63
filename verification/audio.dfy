/**
 The audio output of app/src/audio.c: the ring between decoder and device, and the
 clock that follows the device and pays silence padding back. Times, the clock and its
 anchor are counted in frames of 1/48000 s.
 */
module Audio {
  type Sample = s: int | -0x8000 <= s < 0x8000
  datatype Frame = Frame(left: Sample, right: Sample)

  const SILENCE := Frame(0, 0)
  const GRAIN := 256
  const RATE := 48000
  const RING_FRAMES: int := RATE * 8
  const PAD_DEBT_MAX: int := RATE * 500 / 1000
  const STEP := 16

  // ---- the ledger -----------------------------------------------------------------

  /** Device frames, content heard, padding repaid, padding owed, padding lost to the cap. */
  datatype Ledger = Ledger(hw: nat, content: nat, comp: nat, debt: nat, lost: nat) {
    predicate Balanced() {
      hw == content + comp + debt + lost && debt <= PAD_DEBT_MAX
    }

    /** Where the clock stands, from its anchor: device time less what was repaid. */
    function Clock(): int { hw - comp }
  }

  /** One grain of the output thread with `avail` frames of content. */
  function Ticked(l: Ledger, avail: nat): (r: Ledger)
    requires avail <= GRAIN
    ensures l.Balanced() ==> r.Balanced()
  {
    var paid := if avail < GRAIN then 0 else if l.debt < STEP then l.debt else STEP;
    var owed := if avail < GRAIN then l.debt + (GRAIN - avail) else l.debt - paid;
    var cut := if owed > PAD_DEBT_MAX then owed - PAD_DEBT_MAX else 0;
    Ledger(l.hw + GRAIN, l.content + avail, l.comp + paid, owed - cut, l.lost + cut)
  }

  function Run(l: Ledger, grains: seq<nat>): Ledger
    requires forall i | 0 <= i < |grains| :: grains[i] <= GRAIN
    decreases |grains|
  {
    if grains == [] then l else Run(Ticked(l, grains[0]), grains[1..])
  }

  function Sum(s: seq<nat>): nat {
    if s == [] then 0 else s[0] + Sum(s[1..])
  }

  /**
   Over any run the books balance; the device plays every grain, and the clock never
   stalls: it advances by at least 240 frames a grain, and never faster than the device.
   */
  lemma {:induction false} RunBalances(l: Ledger, grains: seq<nat>)
    requires l.Balanced() && forall i | 0 <= i < |grains| :: grains[i] <= GRAIN
    ensures var r := Run(l, grains);
      && r.Balanced()
      && r.hw == l.hw + GRAIN * |grains| && r.content == l.content + Sum(grains)
      && l.Clock() + (GRAIN - STEP) * |grains| <= r.Clock() <= l.Clock() + GRAIN * |grains|
    decreases |grains|
  {
    if grains != [] {
      RunBalances(Ticked(l, grains[0]), grains[1..]);
    }
  }

  function Full(n: nat): (s: seq<nat>)
    ensures |s| == n && forall i | 0 <= i < n :: s[i] == GRAIN
  {
    seq(n, _ => GRAIN)
  }

  /** n full grains repay 16 frames each until nothing is owed; so ceil(debt / 16) of them repay it all. */
  lemma {:induction false} Repays(l: Ledger, n: nat)
    requires l.Balanced()
    ensures Run(l, Full(n)).debt == if l.debt <= STEP * n then 0 else l.debt - STEP * n
    ensures Run(l, Full(n)).comp == l.comp + (if l.debt <= STEP * n then l.debt else STEP * n)
    decreases n
  {
    if n > 0 {
      assert Full(n)[1..] == Full(n - 1);
      Repays(Ticked(l, GRAIN), n - 1);
    }
  }

  /** Short grains run up what they lack, up to half a second and no further; nothing is repaid meanwhile. */
  lemma {:induction false} Starves(l: Ledger, grains: seq<nat>)
    requires l.Balanced() && forall i | 0 <= i < |grains| :: grains[i] < GRAIN
    ensures var r, lacking := Run(l, grains), GRAIN * |grains| - Sum(grains);
      && r.debt == (if l.debt + lacking <= PAD_DEBT_MAX then l.debt + lacking else PAD_DEBT_MAX)
      && r.comp == l.comp && r.Clock() == l.Clock() + GRAIN * |grains|
    decreases |grains|
  {
    if grains != [] {
      Starves(Ticked(l, grains[0]), grains[1..]);
      Lacking(grains[1..]);
    }
  }

  lemma {:induction false} Lacking(grains: seq<nat>)
    requires forall i | 0 <= i < |grains| :: grains[i] <= GRAIN
    ensures Sum(grains) <= GRAIN * |grains|
  {
    if grains != [] { Lacking(grains[1..]); }
  }

  /** The padding of grain `i` would take the debt past half a second. */
  predicate Spills(l: Ledger, grains: seq<nat>, i: nat)
    requires i < |grains| && forall j | 0 <= j < |grains| :: grains[j] <= GRAIN
  {
    Run(l, grains[..i]).debt + (GRAIN - grains[i]) > PAD_DEBT_MAX && grains[i] < GRAIN
  }

  /** Padding is lost to the correction exactly when some grain spills. */
  lemma {:induction false} LostExactly(l: Ledger, grains: seq<nat>)
    requires l.Balanced() && forall i | 0 <= i < |grains| :: grains[i] <= GRAIN
    ensures Run(l, grains).lost >= l.lost
    ensures Run(l, grains).lost > l.lost <==> exists i: nat | i < |grains| :: Spills(l, grains, i)
    decreases |grains|
  {
    hide Ledger.Balanced, Ticked;
    if grains != [] {
      var t, rest := Ticked(l, grains[0]), grains[1..];
      LostExactly(t, rest);
      FirstSpills(l, grains);
      forall i: nat | 1 <= i < |grains|
        ensures Spills(l, grains, i) == Spills(t, rest, i - 1)
      {
        assert grains[..i][1..] == rest[..i - 1];
      }
      if i: nat :| i < |rest| && Spills(t, rest, i) { assert Spills(l, grains, i + 1); }
      if i: nat :| i < |grains| && Spills(l, grains, i) { assert i == 0 || Spills(t, rest, i - 1); }
    }
  }

  lemma FirstSpills(l: Ledger, grains: seq<nat>)
    requires l.Balanced() && grains != [] && forall i | 0 <= i < |grains| :: grains[i] <= GRAIN
    ensures Ticked(l, grains[0]).lost >= l.lost
    ensures Ticked(l, grains[0]).lost > l.lost <==> Spills(l, grains, 0)
  {
    assert Run(l, grains[..0]) == l;
  }

  /** When everything owed was repaid, the clock has moved by the content heard and the padding
      lost; it ends ahead of the content if and only if some grain spilled. */
  lemma AheadExactly(l: Ledger, grains: seq<nat>)
    requires l.Balanced() && forall i | 0 <= i < |grains| :: grains[i] <= GRAIN
    requires Run(l, grains).debt == l.debt
    ensures var r := Run(l, grains);
      && r.Clock() - l.Clock() == Sum(grains) + (r.lost - l.lost)
      && (r.Clock() - l.Clock() > Sum(grains) <==> exists i: nat | i < |grains| :: Spills(l, grains, i))
  {
    hide Ticked, Run;
    RunBalances(l, grains);
    LostExactly(l, grains);
  }

  // ---- the ring -----------------------------------------------------------------------

  function Slot(head: nat, i: nat): (k: nat)
    ensures k < RING_FRAMES
  {
    (head + i) % RING_FRAMES
  }

  lemma SlotMoves(head: nat, a: nat, i: nat)
    requires head < RING_FRAMES && a + i <= RING_FRAMES
    ensures Slot(Slot(head, a), i) == Slot(head, a + i)
  {}

  lemma SlotsDiffer(head: nat, i: nat, j: nat)
    requires head < RING_FRAMES && i < j < RING_FRAMES
    ensures Slot(head, i) != Slot(head, j)
  {}

  ghost function Queued(pcm: seq<Frame>, head: nat, fill: nat): (q: seq<Frame>)
    requires |pcm| == RING_FRAMES && fill <= RING_FRAMES
    ensures |q| == fill
  {
    seq<Frame>(fill, i requires 0 <= i < fill => pcm[Slot(head, i)])
  }

  /** First in, first out: what was accepted is what was heard, then what is queued. */
  ghost predicate InOrder(accepted: seq<Frame>, heard: seq<Frame>, queue: seq<Frame>) {
    accepted == heard + queue
  }

  lemma NothingInOrder()
    ensures InOrder([], [], []) && Ledger(0, 0, 0, 0, 0).Balanced()
  {}

  lemma HeardNext(accepted: seq<Frame>, heard: seq<Frame>, queue: seq<Frame>, n: nat)
    requires InOrder(accepted, heard, queue) && n <= |queue|
    ensures InOrder(accepted, heard + queue[..n], queue[n..])
    ensures InOrder(accepted, heard + [], queue)
  {
    assert queue == queue[..n] + queue[n..];
  }

  lemma QueuedNone(pcm: seq<Frame>)
    requires |pcm| == RING_FRAMES
    ensures Queued(pcm, 0, 0) == []
  {}

  lemma QueuedPush(pcm: seq<Frame>, head: nat, fill: nat, f: Frame)
    requires |pcm| == RING_FRAMES && head < RING_FRAMES && fill < RING_FRAMES
    ensures Queued(pcm[Slot(head, fill) := f], head, fill + 1) == Queued(pcm, head, fill) + [f]
  {
    forall i | 0 <= i < fill
      ensures Slot(head, i) != Slot(head, fill)
    {
      SlotsDiffer(head, i, fill);
    }
    hide Slot;
  }

  lemma QueuedPop(pcm: seq<Frame>, head: nat, fill: nat, n: nat)
    requires |pcm| == RING_FRAMES && head < RING_FRAMES && n <= fill <= RING_FRAMES
    ensures Queued(pcm, Slot(head, n), fill - n) == Queued(pcm, head, fill)[n..]
  {
    forall i | 0 <= i < fill - n
      ensures Slot(Slot(head, n), i) == Slot(head, n + i)
    {
      SlotMoves(head, n, i);
    }
    hide Slot;
  }

  class Output {
    const pcm: array<Frame>
    var head: nat
    var fill: nat
    var ok: bool
    var paused: bool
    var contentOut: nat
    var hwOut: nat
    var padComp: nat
    var padDebt: nat
    var base: int
    var baseSet: bool
    var written: nat
    var dropped: nat
    var underruns: nat

    ghost var lost: nat
    /** Frames accepted and frames heard since the last flush. */
    ghost var accepted: seq<Frame>
    ghost var heard: seq<Frame>
    /** Where the clock was anchored: the time stamp and the ledger of that moment. */
    ghost var anchor: int
    ghost var anchored: Ledger

    ghost function Book(): Ledger
      reads `hwOut, `contentOut, `padComp, `padDebt, `lost
    {
      Ledger(hwOut, contentOut, padComp, padDebt, lost)
    }

    ghost predicate RingOk()
      reads `head, `fill
    {
      pcm.Length == RING_FRAMES && head < RING_FRAMES && fill <= RING_FRAMES
    }

    ghost function Queue(): seq<Frame>
      requires RingOk()
      reads `head, `fill, pcm
    {
      Queued(pcm[..], head, fill)
    }

    /** `audio_clock` */
    function Clock(): int
      reads `base, `hwOut
    {
      base + hwOut
    }

    ghost predicate Valid()
      reads this, pcm
    {
      && RingOk() && Book().Balanced()
      && InOrder(accepted, heard, Queue()) && |heard| == contentOut
      && (baseSet ==> anchored.Balanced() && base == anchor - (anchored.hw + padComp - anchored.comp))
    }

    /** `audio_open`: the ring's memory comes as it is. */
    constructor (pcm: array<Frame>)
      requires pcm.Length == RING_FRAMES
      ensures Valid() && this.pcm == pcm && ok && Queue() == [] && !baseSet
    {
      NothingInOrder();
      hide Queued, InOrder, Slot, Ledger.Balanced;
      this.pcm := pcm;
      ok, paused := true, false;
      base, baseSet := 0, false;
      written, dropped, underruns := 0, 0, 0;
      new;
      FlushRing();
      FlushBook();
    }

    /** `audio_write`: as much as fits is queued, in order; the rest is counted as dropped. */
    method Write(frames: seq<Frame>)
      requires Valid()
      modifies pcm, `fill, `written, `dropped, `accepted
      ensures Valid()
      ensures !ok ==> Queue() == old(Queue()) && dropped == old(dropped)
      ensures ok ==> var n := if |frames| <= RING_FRAMES - old(fill) then |frames| else RING_FRAMES - old(fill);
        Queue() == old(Queue()) + frames[..n] && dropped == old(dropped) + |frames| - n && written == old(written) + n
    {
      if !ok { return; }
      var i := 0;
      while i < |frames|
        modifies pcm, `fill, `written, `dropped, `accepted
        invariant 0 <= i <= |frames| && RingOk() && fill == old(fill) + i
        invariant Queue() == old(Queue()) + frames[..i]
        invariant accepted == old(accepted) + frames[..i]
        invariant dropped == old(dropped) && written == old(written) + i
      {
        if fill >= RING_FRAMES {
          dropped := dropped + (|frames| - i);
          break;
        }
        Push(frames[i]);
        assert frames[..i + 1] == frames[..i] + [frames[i]];
        i := i + 1;
      }
      assert i == |frames| ==> frames[..i] == frames;
    }

    method Push(f: Frame)
      requires RingOk() && fill < RING_FRAMES
      modifies pcm, `fill, `written, `accepted
      ensures RingOk() && fill == old(fill) + 1 && written == old(written) + 1
      ensures Queue() == old(Queue()) + [f] && accepted == old(accepted) + [f]
    {
      QueuedPush(pcm[..], head, fill, f);
      ghost var was := pcm[..];
      pcm[(head + fill) % RING_FRAMES] := f;
      assert pcm[..] == was[Slot(head, fill) := f];
      fill := fill + 1;
      written := written + 1;
      accepted := accepted + [f];
    }

    /** The frames of one grain leave the ring. */
    method Take(out: array<Frame>, avail: nat)
      requires RingOk() && out.Length == GRAIN && out != pcm && avail <= fill && avail <= GRAIN
      modifies out, `head, `fill
      ensures RingOk() && fill == old(fill) - avail
      ensures out[..avail] == old(Queue())[..avail] && Queue() == old(Queue())[avail..]
    {
      QueuedPop(pcm[..], head, fill, avail);
      ghost var q := Queue();
      var i := 0;
      while i < avail
        modifies out
        invariant 0 <= i <= avail
        invariant forall j | 0 <= j < i :: out[j] == q[j]
      {
        out[i] := pcm[(head + i) % RING_FRAMES];
        i := i + 1;
      }
      head := (head + avail) % RING_FRAMES;
      fill := fill - avail;
    }

    method Pad(out: array<Frame>, avail: nat)
      requires out.Length == GRAIN && avail <= GRAIN
      modifies out
      ensures out[..avail] == old(out[..avail]) && forall i | avail <= i < GRAIN :: out[i] == SILENCE
    {
      var i := avail;
      while i < GRAIN
        invariant avail <= i <= GRAIN
        invariant out[..avail] == old(out[..avail])
        invariant forall j | avail <= j < i :: out[j] == SILENCE
      {
        out[i] := SILENCE;
        i := i + 1;
      }
    }

    /** What the device is given: queued frames as far as there are any, then silence. */
    method Fill(out: array<Frame>) returns (avail: nat)
      requires RingOk() && out.Length == GRAIN && out != pcm
      modifies out, `head, `fill
      ensures RingOk() && avail == if paused then 0 else if old(fill) < GRAIN then old(fill) else GRAIN
      ensures out[..avail] == old(Queue())[..avail] && forall i | avail <= i < GRAIN :: out[i] == SILENCE
      ensures Queue() == old(Queue())[avail..]
    {
      avail := 0;
      if !paused {
        avail := if fill < GRAIN then fill else GRAIN;
        Take(out, avail);
      }
      Pad(out, avail);
    }

    /** One turn of `audio_main`, with one look at the pause flag. */
    method Grain(out: array<Frame>)
      requires Valid() && ok && out.Length == GRAIN && out != pcm
      modifies this, out
      ensures Valid() && anchor == old(anchor) && anchored == old(anchored) && baseSet == old(baseSet)
      ensures accepted == old(accepted)
      ensures var n := if old(paused) then 0 else if old(fill) < GRAIN then old(fill) else GRAIN;
        && out[..n] == old(Queue())[..n] && (forall i | n <= i < GRAIN :: out[i] == SILENCE)
        && Queue() == old(Queue())[n..] && heard == old(heard) + out[..n]
        && Book() == if old(paused) then old(Book()) else Ticked(old(Book()), n)
      ensures old(paused) ==> Clock() == old(Clock())
      ensures !old(paused) ==> old(Clock()) + (GRAIN - STEP) <= Clock() <= old(Clock()) + GRAIN
    {
      HeardNext(accepted, heard, Queue(), if paused then 0 else if fill < GRAIN then fill else GRAIN);
      hide Queued, InOrder, Slot, Ledger.Balanced, Ticked;
      var avail := Fill(out);
      heard := heard + out[..avail];
      if !paused {
        Tick(avail);
      }
    }

    /** What a grain that was played does to the clock. */
    method Tick(avail: nat)
      requires Book().Balanced() && avail <= GRAIN
      modifies `underruns, `padDebt, `padComp, `lost, `base, `contentOut, `hwOut
      ensures Book() == Ticked(old(Book()), avail) && Book().Balanced() && contentOut == old(contentOut) + avail
      ensures base == old(base) - (padComp - old(padComp))
      ensures old(Clock()) + (GRAIN - STEP) <= Clock() <= old(Clock()) + GRAIN
    {
      var step := 0;
      if avail < GRAIN {
        underruns := underruns + 1;
        padDebt := padDebt + (GRAIN - avail);
        if padDebt > PAD_DEBT_MAX {
          lost := lost + (padDebt - PAD_DEBT_MAX);
          padDebt := PAD_DEBT_MAX;
        }
      } else if padDebt > 0 {
        step := if padDebt < 16 then padDebt else 16;
        base := base - step;
        padDebt := padDebt - step;
        padComp := padComp + step;
      }
      contentOut := contentOut + avail;
      hwOut := hwOut + GRAIN;
    }

    /** `audio_set_base` */
    method SetBase(pts: int)
      requires Valid()
      modifies `base, `baseSet, `anchor, `anchored
      ensures Valid() && baseSet
      ensures !old(baseSet) ==> Clock() == pts && anchor == pts && anchored == Book()
      ensures old(baseSet) ==> base == old(base) && anchor == old(anchor) && anchored == old(anchored)
    {
      if !baseSet {
        base := pts - hwOut;
        baseSet := true;
        anchor, anchored := pts, Book();
      }
    }

    /** `audio_flush` */
    method Flush()
      requires Valid()
      modifies this
      ensures Valid() && ok == old(ok) && paused == old(paused)
      ensures ok ==> Queue() == [] && Book() == Ledger(0, 0, 0, 0, 0) && !baseSet && Clock() == 0
      ensures !ok ==>
        Queue() == old(Queue()) && Book() == old(Book()) && Clock() == old(Clock()) && baseSet == old(baseSet)
    {
      hide Queued, InOrder, Slot, Ledger.Balanced;
      if !ok { return; }
      NothingInOrder();
      FlushRing();
      FlushBook();
      base, baseSet := 0, false;
    }

    method FlushRing()
      requires pcm.Length == RING_FRAMES
      modifies `head, `fill, `accepted, `heard
      ensures RingOk() && Queue() == [] && accepted == heard == []
    {
      head, fill := 0, 0;
      accepted, heard := [], [];
      QueuedNone(pcm[..]);
    }

    method FlushBook()
      modifies `contentOut, `hwOut, `padComp, `padDebt, `lost
      ensures Book() == Ledger(0, 0, 0, 0, 0)
    {
      contentOut, hwOut := 0, 0;
      padDebt, padComp, lost := 0, 0, 0;
    }

    /**
     While anchored, the clock is the anchor plus the content heard since, plus the padding
     owed or lost since; what was already owed at the anchor pulls it behind the content.
     */
    lemma ClockFollowsContent()
      requires Valid() && baseSet
      ensures Clock() == anchor + (contentOut - anchored.content) + (padDebt - anchored.debt) + (lost - anchored.lost)
    {}
  }
}

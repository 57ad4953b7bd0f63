/**
 Live delivery of app/src/hls.c: `hls_next_segment` over a sliding window that
 `refresh_live_playlist` replaces (section 6.2.2 of RFC 8216). A segment is known by
 its media sequence number; what the network and the clock do is a script of rounds.
 */
module Live {
  /**
   What a refresh brings: no body, a body that does not parse (with what was read of it), or a
   window of segments from `first`, each with its discontinuity flag.
   */
  datatype Answer =
    | NoBody
    | Unparsed(first: int, disc: seq<bool>, live: bool)
    | Window(first: int, disc: seq<bool>, live: bool)

  /** One pass of the retry loop: the clock and the answer to a refresh, the fetch, the answer to a
      second refresh after failed fetches, and the clock again. */
  datatype Round = Round(torn: bool, late: bool, refresh: Answer, fetched: bool, again: Answer, lateAfter: bool)

  /** The playlist and the place in it. */
  datatype Place = Place(first: int, n: nat, idx: nat, reset: nat, live: bool) {
    /** The sequence number that is next. */
    function Next(): int { first + idx }
    function End(): int { first + n }
  }

  /** The place after a refresh. */
  function Refreshed(p: Place, a: Answer): (q: Place) {
    if !p.live then p
    else
      match a
      case NoBody => p
      case Unparsed(first, disc, live) => Place(first, |disc|, 0, p.reset, live)
      case Window(first, disc, live) =>
        if p.Next() < first then Place(first, |disc|, 0, p.reset + 1, live)
        else if p.Next() > first + |disc| then Place(first, |disc|, |disc|, p.reset, live)
        else Place(first, |disc|, p.Next() - first, p.reset, live)
  }

  /**
   The place is kept by a parsed window exactly when the window does not end before it; it
   moves on only to the start of a window that begins later, and exactly then a reset tells.
   */
  lemma RefreshKeeps(p: Place, a: Answer)
    requires p.live && a.Window?
    ensures var q := Refreshed(p, a);
      && (q.Next() >= p.Next() <==> a.first + |a.disc| >= p.Next())
      && (q.reset > p.reset <==> q.Next() > p.Next())
      && (q.Next() > p.Next() ==> q.Next() == a.first)
      && q.reset <= p.reset + 1
  {}

  /** A window that ends too early replays without a reset. */
  lemma ShortWindowReplays()
    ensures var p := Place(10, 3, 3, 0, true);
      var q := Refreshed(p, Window(9, [false, false], true));
      q.Next() < p.Next() && q.reset == p.reset
  {}

  /**
   A body that does not parse, and then a window that still holds the place.  The body keeps
   the place if and only if it began with the next number.  The window then gives it back only
   where the body began outside of it on the place's side; a reset tells only that the body
   began before the window, not that the place went back.
   */
  lemma UnparsedKeeps(p: Place, a: Answer, b: Answer)
    requires p.live && a.Unparsed? && a.live && b.Window? && b.first <= p.Next() <= b.first + |b.disc|
    ensures Refreshed(p, a).Next() == p.Next() <==> a.first == p.Next()
    ensures var q := Refreshed(Refreshed(p, a), b);
      && (q.Next() == p.Next() <==>
            a.first == p.Next() || (b.first == p.Next() && a.first < b.first)
            || (b.first + |b.disc| == p.Next() && a.first > p.Next()))
      && (q.reset > p.reset <==> a.first < b.first)
  {}

  /** A refresh that neither takes the place back nor moves it on without a reset. */
  predicate Keeps(p: Place, a: Answer) {
    p.live ==>
      match a
      case NoBody => true
      case Unparsed(first, _, _) => first == p.Next()
      case Window(first, disc, _) => p.Next() <= first + |disc|
  }

  lemma KeepsExactly(p: Place, a: Answer)
    ensures Keeps(p, a) <==> Moves(p, Refreshed(p, a))
  {}

  // ---- what one request comes to ------------------------------------------------------

  /** Where the reader stands in the end, whether a segment was fetched there, and whether every
      refresh on the way kept the place. */
  datatype Fate = Fate(place: Place, delivered: bool, kept: bool)

  function Also(f: Fate, kept: bool): Fate { f.(kept := f.kept && kept) }

  /** A refresh that finds a segment at the place. */
  predicate Found(p: Place, a: Answer) {
    p.live && a.Window? && Refreshed(p, a).idx < Refreshed(p, a).n
  }

  /** The rounds of `hls_next_segment`, from a place with `streak` failed fetches. */
  function FateOf(p: Place, streak: nat, stalled: bool, script: seq<Round>): Fate
    decreases |script|
  {
    if script == [] || script[0].torn then Fate(p, false, true)
    else if p.idx < p.n then Fetching(p, streak, stalled, script)
    else if !p.live || (stalled && script[0].late) then Fate(p, false, true)
    else
      var q := Refreshed(p, script[0].refresh);
      Also(if Found(p, script[0].refresh) then Fetching(q, streak, true, script)
           else FateOf(q, streak, true, script[1..]), Keeps(p, script[0].refresh))
  }

  function Fetching(p: Place, streak: nat, stalled: bool, script: seq<Round>): Fate
    requires script != []
    decreases |script|, 0
  {
    if script[0].fetched then Fate(p, true, true)
    else
      var s := if p.live then streak + 1 else streak;
      var q := if s >= 2 then Refreshed(p, script[0].again) else p;
      Also(if stalled && script[0].lateAfter then Fate(q, false, true) else FateOf(q, s, true, script[1..]),
           s >= 2 ==> Keeps(p, script[0].again))
  }

  /** A failed fetch is tried again where it was; the second in a row on a live stream brings a refresh first,
      and on a stream that has ended nothing does. */
  lemma Misses(p: Place, streak: nat, r: Round, rest: seq<Round>)
    requires p.idx < p.n && !r.torn && !r.fetched && !r.lateAfter
    ensures FateOf(p, streak, true, [r] + rest).place ==
      if !p.live then FateOf(p, streak, true, rest).place
      else if streak == 0 then FateOf(p, 1, true, rest).place
      else FateOf(Refreshed(p, r.again), streak + 1, true, rest).place
  {
    var script := [r] + rest;
    assert script[0] == r && script[1..] == rest;
    assert FateOf(p, streak, true, script) == Fetching(p, streak, true, script);
  }

  /** A stream that has ended stays where it is until a fetch succeeds. */
  lemma {:induction false} EndedStays(p: Place, streak: nat, stalled: bool, script: seq<Round>)
    requires !p.live
    ensures FateOf(p, streak, stalled, script).place == p && FateOf(p, streak, stalled, script).kept
    decreases |script|
  {
    if script != [] {
      EndedStays(p, streak, true, script[1..]);
    }
  }

  /** A round that fetches, not after one that is torn or, once the clock runs, late when its fetch
      has failed. */
  predicate Reaches(script: seq<Round>, k: nat, stalled: bool)
    requires k < |script|
  {
    && script[k].fetched
    && (forall j | 0 <= j <= k :: !script[j].torn)
    && (forall j | 0 <= j < k && (stalled || j >= 1) :: !script[j].lateAfter)
  }

  predicate Delivers(script: seq<Round>, stalled: bool) {
    exists k: nat | k < |script| :: Reaches(script, k, stalled)
  }

  lemma DeliversStep(script: seq<Round>, stalled: bool)
    requires script != []
    ensures Delivers(script, stalled) <==>
      !script[0].torn && (script[0].fetched || (!(stalled && script[0].lateAfter) && Delivers(script[1..], true)))
  {
    var rest := script[1..];
    if Delivers(script, stalled) {
      var k: nat :| k < |script| && Reaches(script, k, stalled);
      if k > 0 {
        assert forall j | 0 <= j < k :: rest[j] == script[j + 1];
        assert Reaches(rest, k - 1, true);
      }
    }
    if !script[0].torn && script[0].fetched { assert Reaches(script, 0, stalled); }
    if !script[0].torn && !(stalled && script[0].lateAfter) && Delivers(rest, true) {
      var k: nat :| k < |rest| && Reaches(rest, k, true);
      assert forall j | 1 <= j <= k + 1 :: script[j] == rest[j - 1];
      assert Reaches(script, k + 1, stalled);
    }
  }

  lemma NoDelivery(stalled: bool)
    ensures !Delivers([], stalled)
  {}

  ghost predicate AllParse(script: seq<Round>) {
    forall r | r in script :: Parses(r.refresh) && Parses(r.again)
  }

  /** Where there is a segment to fetch, and the server keeps its promise, one is delivered if
      and only if some round fetches before one is torn or late. */
  lemma {:induction false} DeliveredExactly(p: Place, streak: nat, stalled: bool, script: seq<Round>)
    requires p.idx < p.n && AllParse(script) && (p.live ==> Onward(p.End(), Answers(script)))
    ensures FateOf(p, streak, stalled, script).delivered <==> Delivers(script, stalled)
    decreases |script|
  {
    hide Delivers, Answers, Onward, Refreshed;
    if script == [] {
      NoDelivery(stalled);
    } else {
      DeliversStep(script, stalled);
      var r, rest := script[0], script[1..];
      if !r.torn && !r.fetched && !(stalled && r.lateAfter) {
        var s := if p.live then streak + 1 else streak;
        var q := if s >= 2 then Refreshed(p, r.again) else p;
        StillThere(p, r, script, s >= 2);
        DeliveredExactly(q, s, true, rest);
      }
    }
  }

  lemma {:induction false} StillThere(p: Place, r: Round, script: seq<Round>, refreshed: bool)
    requires p.idx < p.n && script != [] && script[0] == r && AllParse(script)
    requires p.live ==> Onward(p.End(), Answers(script))
    ensures var q := if refreshed then Refreshed(p, r.again) else p;
      q.idx < q.n && AllParse(script[1..]) && (q.live ==> Onward(q.End(), Answers(script[1..])))
  {
    assert r in script;
    assert script[0..] == script;
    Unroll(script, 0);
    var rest := Answers(script);
    if p.live {
      OnwardSkips(p.End(), rest);
      OnwardSkips(p.End(), rest[1..]);
      Step(p, r.again, rest[1..]);
    }
  }

  /** The first round whose refresh brings something past the place, none before it having ended
      the stream, been torn, or come late. */
  ghost predicate Brings(p: Place, script: seq<Round>, stalled: bool, m: nat)
    requires m < |script|
  {
    && Past(p, script[m].refresh) && (forall j | 0 <= j < m :: Waits(p, script[j].refresh))
    && (forall j | 0 <= j <= m :: !script[j].torn)
    && (forall j | 0 <= j <= m && (stalled || j >= 1) :: !script[j].late)
  }

  predicate Past(p: Place, a: Answer) {
    a.Window? && a.first + |a.disc| > p.Next()
  }

  predicate Waits(p: Place, a: Answer) {
    !Past(p, a) && (a.Window? ==> a.live)
  }

  /** Where all segments were delivered, the next is delivered if and only if a refresh brings it
      and from that round on one is fetched, before a round is torn or late. */
  lemma {:induction false} DeliveredLater(p: Place, streak: nat, stalled: bool, script: seq<Round>)
    requires p.idx == p.n && p.live && AllParse(script) && Onward(p.End(), Answers(script))
    ensures FateOf(p, streak, stalled, script).delivered <==>
      exists m: nat | m < |script| :: Brings(p, script, stalled, m) && Delivers(script[m..], true)
    decreases |script|
  {
    hide Delivers, Answers, Onward, Refreshed;
    if script != [] {
      var r, rest := script[0], script[1..];
      assert script[0..] == script;
      if !r.torn && !(stalled && r.late) {
        var q := Refreshed(p, r.refresh);
        Arrives(p, r, script);
        if Past(p, r.refresh) {
          FetchingIs(q, streak, script);
          DeliveredExactly(q, streak, true, script);
          FirstBrings(p, script, stalled);
        } else if q.live {
          DeliveredLater(q, streak, true, rest);
          LaterBrings(p, q, script, stalled);
        } else {
          OverThen(q, streak, rest);
          NoneBrings(p, script, stalled);
        }
      } else {
        NoneBrings(p, script, stalled);
      }
    }
  }

  /** What the first refresh does to a place with nothing left. */
  lemma {:induction false} Arrives(p: Place, r: Round, script: seq<Round>)
    requires p.idx == p.n && p.live && script != [] && script[0] == r && AllParse(script)
    requires Onward(p.End(), Answers(script))
    ensures AllParse(script[1..]) && (Found(p, r.refresh) <==> Past(p, r.refresh))
    ensures var q := Refreshed(p, r.refresh);
      if Past(p, r.refresh) then q.idx < q.n && Onward(q.End(), Answers(script))
      else
        && q.idx == q.n && q.Next() == p.Next() && (Waits(p, r.refresh) <==> q.live)
        && Onward(q.End(), Answers(script[1..]))
  {
    assert r in script;
    assert script[0..] == script;
    Unroll(script, 0);
    var rest := Answers(script);
    var q := Refreshed(p, r.refresh);
    Step(p, r.refresh, rest);
    if !Past(p, r.refresh) { OnwardSkips(q.End(), rest[1..]); }
  }

  lemma FetchingIs(q: Place, streak: nat, script: seq<Round>)
    requires script != [] && !script[0].torn && q.idx < q.n
    ensures FateOf(q, streak, true, script) == Fetching(q, streak, true, script)
  {}

  lemma OverThen(q: Place, streak: nat, rest: seq<Round>)
    requires q.idx == q.n && !q.live
    ensures !FateOf(q, streak, true, rest).delivered
  {}

  lemma FirstBrings(p: Place, script: seq<Round>, stalled: bool)
    requires script != [] && Past(p, script[0].refresh) && !script[0].torn && !(stalled && script[0].late)
    ensures (exists m: nat | m < |script| :: Brings(p, script, stalled, m) && Delivers(script[m..], true))
      <==> Delivers(script, true)
  {
    hide Delivers;
    assert script[0..] == script;
    assert Brings(p, script, stalled, 0);
  }

  lemma NoneBrings(p: Place, script: seq<Round>, stalled: bool)
    requires script != []
    requires script[0].torn || (stalled && script[0].late)
      || (!Past(p, script[0].refresh) && !Waits(p, script[0].refresh))
    ensures !exists m: nat | m < |script| :: Brings(p, script, stalled, m) && Delivers(script[m..], true)
  {
    hide Delivers;
  }

  lemma LaterBrings(p: Place, q: Place, script: seq<Round>, stalled: bool)
    requires script != [] && q.Next() == p.Next() && Waits(p, script[0].refresh)
    requires !script[0].torn && !(stalled && script[0].late)
    ensures (exists m: nat | m < |script| :: Brings(p, script, stalled, m) && Delivers(script[m..], true))
      <==> (exists m: nat | m < |script[1..]| :: Brings(q, script[1..], true, m) && Delivers(script[1..][m..], true))
  {
    hide Delivers;
    var rest := script[1..];
    if m: nat :| m < |script| && Brings(p, script, stalled, m) && Delivers(script[m..], true) {
      assert m > 0;
      assert forall j | 0 <= j < m :: rest[j] == script[j + 1];
      assert Brings(q, rest, true, m - 1) && rest[m - 1..] == script[m..];
    }
    if m: nat :| m < |rest| && Brings(q, rest, true, m) && Delivers(rest[m..], true) {
      assert forall j | 1 <= j <= m + 1 :: script[j] == rest[j - 1];
      assert Brings(p, script, stalled, m + 1) && script[m + 1..] == rest[m..];
    }
  }

  // ---- what the server promises ---------------------------------------------------

  /** Bodies that parse, in windows whose ends never go backwards. */
  ghost predicate Onward(end: int, script: seq<Answer>)
    decreases |script|
  {
    script == [] ||
    match script[0]
    case NoBody => Onward(end, script[1..])
    case Unparsed(_, _, _) => false
    case Window(f, disc, _) => end <= f + |disc| && Onward(f + |disc|, script[1..])
  }

  function Answers(script: seq<Round>): (r: seq<Answer>) {
    if script == [] then [] else [script[0].refresh, script[0].again] + Answers(script[1..])
  }

  /** Skipping answers keeps the promise. */
  lemma {:induction false} OnwardSkips(end: int, script: seq<Answer>)
    requires script != [] && Onward(end, script)
    ensures Onward(end, script[1..])
  {
    if script[0].Window? {
      Weaken(end, script[0].first + |script[0].disc|, script[1..]);
    }
  }

  lemma {:induction false} Weaken(end: int, e: int, script: seq<Answer>)
    requires end <= e && Onward(e, script)
    ensures Onward(end, script)
    decreases |script|
  {
    if script != [] && script[0].NoBody? {
      Weaken(end, e, script[1..]);
    }
  }

  /** Under such a server every refresh of every request keeps the place. */
  lemma {:induction false} OnwardKeeps(p: Place, streak: nat, stalled: bool, script: seq<Round>)
    requires p.idx <= p.n && (p.live ==> Onward(p.End(), Answers(script)))
    ensures FateOf(p, streak, stalled, script).kept
    decreases |script|
  {
    hide Answers, Onward, Refreshed, Keeps;
    if script != [] && !script[0].torn {
      assert script[0..] == script;
      Unroll(script, 0);
      if p.idx < p.n {
        MissKeeps(p, streak, stalled, script, Answers(script));
      } else if p.live && !(stalled && script[0].late) {
        var q := Refreshed(p, script[0].refresh);
        StepKeeps(p, script[0].refresh, Answers(script));
        if Found(p, script[0].refresh) {
          NoBodyFirst(q.End(), Answers(script)[1..]);
          MissKeeps(q, streak, true, script, [NoBody] + Answers(script)[1..]);
        } else {
          SkipKept(q, Answers(script)[1..]);
          OnwardKeeps(q, streak, true, script[1..]);
        }
      }
    }
  }

  lemma {:induction false} MissKeeps(p: Place, streak: nat, stalled: bool, script: seq<Round>, rest: seq<Answer>)
    requires script != [] && p.idx <= p.n && |rest| >= 2 && rest[1..] == Answers(script)[1..]
    requires p.live ==> Onward(p.End(), rest)
    ensures Fetching(p, streak, stalled, script).kept
    decreases |script|, 0
  {
    hide Answers, Onward, Refreshed, Keeps;
    if !script[0].fetched {
      var s := if p.live then streak + 1 else streak;
      var q := if s >= 2 then Refreshed(p, script[0].again) else p;
      assert script[0..] == script;
      Unroll(script, 0);
      SkipKept(p, rest);
      assert rest[1..][1..] == Answers(script[1..]);
      if s >= 2 { StepKeeps(p, script[0].again, rest[1..]); } else { SkipKept(p, rest[1..]); }
      if !(stalled && script[0].lateAfter) { OnwardKeeps(q, s, true, script[1..]); }
    }
  }

  lemma NoBodyFirst(end: int, rest: seq<Answer>)
    ensures Onward(end, [NoBody] + rest) == Onward(end, rest)
  {
    assert ([NoBody] + rest)[1..] == rest;
  }

  lemma SkipKept(p: Place, rest: seq<Answer>)
    requires rest != [] && (p.live ==> Onward(p.End(), rest))
    ensures p.live ==> Onward(p.End(), rest[1..])
  {
    if p.live { OnwardSkips(p.End(), rest); }
  }

  lemma StepKeeps(p: Place, a: Answer, rest: seq<Answer>)
    requires rest != [] && rest[0] == a && p.idx <= p.n && (p.live ==> Onward(p.End(), rest))
    ensures var q := Refreshed(p, a);
      Keeps(p, a) && q.idx <= q.n && (q.live ==> Onward(q.End(), rest[1..]))
  {
    if p.live { Step(p, a, rest); }
  }

  // ---- the reader ------------------------------------------------------------------

  class Reader {
    var mediaSeq: int
    var segCount: nat
    var segDisc: seq<bool>
    var segIdx: nat
    var resetGen: nat
    var segGen: nat
    var isLive: bool
    var failStreak: nat
    /** The numbers delivered, each with the reset generation reported with it. */
    ghost var taken: seq<(int, nat)>
    /** No refresh so far took the place back, or moved it on without a reset. */
    ghost var kept: bool

    ghost function View(): Place
      reads `mediaSeq, `segCount, `segIdx, `resetGen, `isLive
    {
      Place(mediaSeq, segCount, segIdx, resetGen, isLive)
    }

    ghost predicate Valid()
      reads this
    {
      |segDisc| == segCount && segIdx <= segCount && (kept ==> Orderly(taken, View().Next(), resetGen))
    }

    constructor (first: int, disc: seq<bool>, live: bool)
      ensures Valid() && kept && taken == [] && View() == Place(first, |disc|, 0, 0, live)
      ensures failStreak == 0
    {
      mediaSeq, segCount, segDisc, segIdx := first, |disc|, disc, 0;
      resetGen, segGen, isLive, failStreak := 0, 0, live, 0;
      taken, kept := [], true;
    }

    /** `refresh_live_playlist` */
    method Refresh(a: Answer) returns (ok: bool)
      requires |segDisc| == segCount && segIdx <= segCount
      requires Parses(a)
      modifies `mediaSeq, `segCount, `segDisc, `segIdx, `resetGen, `isLive
      ensures View() == Refreshed(old(View()), a)
      ensures |segDisc| == segCount && segIdx <= segCount
      ensures ok == (old(isLive) && a.Window? && segIdx < segCount)
    {
      if !isLive || a.NoBody? { return false; }
      var nextSeq := mediaSeq + segIdx;
      segIdx := 0;
      mediaSeq, isLive := a.first, a.live;
      segCount, segDisc := |a.disc|, a.disc;
      if a.Unparsed? { return false; }
      var idx := nextSeq - mediaSeq;
      if idx < 0 {
        idx := 0;
        resetGen := resetGen + 1;
      }
      if idx < segCount {
        segIdx := idx;
        return true;
      }
      segIdx := segCount;
      return false;
    }

    /** The fetched segment at `segIdx` is handed out; a discontinuity shows as a reset. */
    method Take() returns (got: int, reset: nat)
      requires Valid() && segIdx < segCount
      modifies this
      ensures Valid() && taken == old(taken) + [(got, reset)] && kept == old(kept)
      ensures got == old(View().Next()) && View() == old(View()).(idx := old(segIdx) + 1, reset := reset)
      ensures reset == resetGen == old(resetGen) + (if old(segDisc[segIdx]) then 1 else 0)
      ensures failStreak == 0
    {
      failStreak := 0;
      got := mediaSeq + segIdx;
      reset := resetGen;
      var seg := segIdx;
      segIdx := segIdx + 1;
      segGen := segGen + 1;
      if segDisc[seg] {
        resetGen := resetGen + 1;
        reset := resetGen;
      }
      if kept { TakenNext(taken, got, old(resetGen), reset); }
      taken := taken + [(got, reset)];
    }

    /** A refresh, and what it keeps. */
    method RefreshKept(a: Answer) returns (ok: bool)
      requires Valid() && Parses(a)
      modifies `mediaSeq, `segCount, `segDisc, `segIdx, `resetGen, `isLive, `kept
      ensures Valid() && View() == Refreshed(old(View()), a)
      ensures kept == (old(kept) && Keeps(old(View()), a)) && (kept ==> Moves(old(View()), View()))
      ensures ok == Found(old(View()), a)
      ensures ok ==> segIdx < segCount
    {
      KeepsExactly(View(), a);
      kept := kept && Keeps(View(), a);
      if kept { Kept(taken, View(), a); }
      hide Refreshed, Orderly, Keeps;
      ok := Refresh(a);
    }

    /** A fetch that failed moves nothing by itself; from the second one on the playlist is refreshed. */
    method Missed(a: Answer)
      requires Valid() && Parses(a)
      modifies `mediaSeq, `segCount, `segDisc, `segIdx, `resetGen, `isLive, `failStreak, `kept
      ensures Valid()
      ensures failStreak == if old(isLive) then old(failStreak) + 1 else old(failStreak)
      ensures View() == if failStreak >= 2 then Refreshed(old(View()), a) else old(View())
      ensures kept == (old(kept) && (failStreak >= 2 ==> Keeps(old(View()), a)))
      ensures kept ==> Moves(old(View()), View())
    {
      hide Refreshed, Orderly, Keeps;
      if isLive { failStreak := failStreak + 1; }
      if failStreak >= 2 {
        var _ := RefreshKept(a);
      }
    }

    /** One fetch: the segment is handed out, or the miss is counted. */
    method Attempt(r: Round) returns (ok: bool, got: int)
      requires Valid() && segIdx < segCount && Parses(r.again)
      modifies this
      ensures Valid() && ok == r.fetched
      ensures ok ==> taken == old(taken) + [(got, resetGen)] && got == old(View().Next()) && failStreak == 0
      ensures ok ==> View() == old(View()).(idx := old(segIdx) + 1, reset := resetGen) && resetGen >= old(resetGen)
      ensures ok ==> kept == old(kept)
      ensures !ok ==>
        taken == old(taken) && failStreak == (if old(isLive) then old(failStreak) + 1 else old(failStreak))
      ensures !ok ==> View() == if failStreak >= 2 then Refreshed(old(View()), r.again) else old(View())
      ensures !ok ==> kept == (old(kept) && (failStreak >= 2 ==> Keeps(old(View()), r.again)))
      ensures !ok && kept ==> Moves(old(View()), View())
    {
      hide Refreshed, Orderly, Keeps;
      got := 0;
      ok := r.fetched;
      if ok {
        var reset;
        got, reset := Take();
      } else {
        Missed(r.again);
      }
    }

    /** What a request has come to. */
    ghost predicate Came(f: Fate, was: seq<(int, nat)>, ok: bool, got: int)
      reads this
    {
      && ok == f.delivered
      && if ok then
           && got == f.place.Next() && View() == f.place.(idx := f.place.idx + 1, reset := resetGen)
           && f.place.reset <= resetGen && taken == was + [(got, resetGen)] && failStreak == 0
         else View() == f.place && taken == was
    }

    /** One round of the retry loop. */
    method OneRound(r: Round, was: bool, ghost script: seq<Round>, ghost k: nat)
      returns (done: bool, ok: bool, got: int, stalled: bool)
      requires Valid() && k < |script| && r == script[k] && Parses(r.refresh) && Parses(r.again)
      modifies this
      ensures Valid()
      ensures var f := FateOf(old(View()), old(failStreak), was, script[k..]);
        if done then
          Came(f, old(taken), ok, got) && kept == (old(kept) && f.kept) && (kept ==> Moves(old(View()), f.place))
        else
          var g := FateOf(View(), failStreak, stalled, script[k + 1..]);
          && !ok && taken == old(taken) && (kept ==> old(kept)) && f.place == g.place && f.delivered == g.delivered
          && (kept && g.kept <==> old(kept) && f.kept) && (kept ==> Moves(old(View()), View()))
    {
      hide Refreshed, Orderly, FateOf, Fetching, Found, Moves, Parses, Keeps;
      ghost var p := View();
      FateStep(View(), failStreak, was, script, k);
      MovesOn(p, p, p);
      stalled, got := was, 0;
      if r.torn { return true, false, 0, stalled; }
      if segIdx >= segCount {
        if !isLive || (stalled && r.late) { return true, false, 0, stalled; }
        stalled := true;
        var found := RefreshKept(r.refresh);
        if !found { return false, false, 0, stalled; }
      }
      ghost var q := View();
      FetchStep(q, failStreak, stalled, script, k);
      ok, got := Attempt(r);
      if ok { return true, true, got, stalled; }
      MovesOn(p, q, View());
      if stalled && r.lateAfter { return true, false, 0, stalled; }
      return false, false, 0, true;
    }

    /**
     `hls_next_segment`. The script of rounds decides whether a segment is delivered, and which.
     As long as every refresh kept the place, what is delivered comes after everything
     delivered before, and a gap is told by a later reset generation.
     */
    method NextSegment(script: seq<Round>) returns (ok: bool, got: int, reset: nat)
      requires Valid() && AllParse(script)
      modifies this
      ensures Valid()
      ensures Came(FateOf(old(View()), old(failStreak), false, script), old(taken), ok, got)
      ensures kept == (old(kept) && FateOf(old(View()), old(failStreak), false, script).kept)
      ensures ok ==> taken == old(taken) + [(got, reset)] && View().Next() == got + 1 && reset == resetGen
      ensures ok && kept ==>
        got >= old(View().Next()) && (got > old(View().Next()) ==> reset > old(resetGen))
      ensures !ok ==> taken == old(taken) && (kept ==> Moves(old(View()), View()))
    {
      hide Refreshed, Orderly, FateOf, Fetching, Found, AllParse, Parses, Moves, Keeps;
      ghost var p, f := View(), FateOf(View(), failStreak, false, script);
      ok, got, reset := false, 0, resetGen;
      var k, stalled, done := 0, false, false;
      assert script[0..] == script;
      MovesOn(p, p, p);
      while k < |script| && !done
        invariant k <= |script| && Valid()
        invariant done ==> Came(f, old(taken), ok, got) && kept == (old(kept) && f.kept) && (kept ==> Moves(p, f.place))
        invariant !done ==> !ok && taken == old(taken) && (kept ==> Moves(p, View()))
        invariant !done ==>
          var g := FateOf(View(), failStreak, stalled, script[k..]);
          g.place == f.place && g.delivered == f.delivered && (kept && g.kept <==> old(kept) && f.kept)
      {
        ghost var q := View();
        ParseAt(script, k);
        done, ok, got, stalled := OneRound(script[k], stalled, script, k);
        MovesOn(p, q, if done then f.place else View());
        k := k + 1;
      }
      if !done {
        NoRounds(View(), failStreak, stalled);
        assert script[k..] == [];
      }
      if ok {
        MovedTo(p, f.place, got);
        reset := resetGen;
      }
    }
  }

  lemma ParseAt(script: seq<Round>, k: nat)
    requires AllParse(script) && k < |script|
    ensures Parses(script[k].refresh) && Parses(script[k].again)
  {
    assert script[k] in script;
  }

  lemma MovesOn(p: Place, q: Place, r: Place)
    ensures Moves(p, p) && (Moves(p, q) && Moves(q, r) ==> Moves(p, r))
  {}

  lemma MovedTo(p: Place, q: Place, got: int)
    ensures Moves(p, q) && got == q.Next() ==> got >= p.Next() && (got > p.Next() ==> q.reset > p.reset)
  {}

  lemma NoRounds(p: Place, streak: nat, stalled: bool)
    ensures FateOf(p, streak, stalled, []) == Fate(p, false, true)
  {}

  lemma FateStep(p: Place, streak: nat, stalled: bool, script: seq<Round>, k: nat)
    requires k < |script|
    ensures var r, f := script[k], FateOf(p, streak, stalled, script[k..]);
      if r.torn then f == Fate(p, false, true)
      else if p.idx < p.n then f == Fetching(p, streak, stalled, script[k..])
      else if !p.live || (stalled && r.late) then f == Fate(p, false, true)
      else
        var q := Refreshed(p, r.refresh);
        f == Also(if Found(p, r.refresh) then Fetching(q, streak, true, script[k..])
                  else FateOf(q, streak, true, script[k + 1..]), Keeps(p, r.refresh))
  {
    assert script[k..][1..] == script[k + 1..];
  }

  lemma FetchStep(p: Place, streak: nat, stalled: bool, script: seq<Round>, k: nat)
    requires k < |script|
    ensures var r, f := script[k], Fetching(p, streak, stalled, script[k..]);
      if r.fetched then f == Fate(p, true, true)
      else
        var s := if p.live then streak + 1 else streak;
        var q := if s >= 2 then Refreshed(p, r.again) else p;
        f == Also(if stalled && r.lateAfter then Fate(q, false, true) else FateOf(q, s, true, script[k + 1..]),
                  s >= 2 ==> Keeps(p, r.again))
  {
    assert script[k..][1..] == script[k + 1..];
  }

  // ---- a number delivered twice ------------------------------------------------------------

  const TEN := Window(10, [false], true)
  const Opening := [Round(false, false, NoBody, true, NoBody, false)]
  const Broken := [Round(false, false, Unparsed(0, [], true), false, NoBody, false),
                   Round(false, false, TEN, true, NoBody, false)]

  lemma TenAgain()
    ensures FateOf(Place(10, 1, 0, 0, true), 0, false, Opening) == Fate(Place(10, 1, 0, 0, true), true, true)
    ensures forall g: nat ::
      FateOf(Place(10, 1, 1, g, true), 0, false, Broken) == Fate(Place(10, 1, 0, g + 1, true), true, false)
    ensures AllParse(Opening) && AllParse(Broken)
  {
    assert Broken[1..] == [Broken[1]];
    assert forall g: nat ::
      FateOf(Place(0, 0, 0, g, true), 0, true, [Broken[1]]) == Fate(Place(10, 1, 0, g + 1, true), true, true);
  }

  /** Segment 10 is delivered; the next refresh brings a body that does not parse, the one after
      that the same window again: segment 10 is delivered once more, under a reset. */
  method DeliversTwice() returns (r: Reader)
    ensures fresh(r) && r.Valid() && |r.taken| == 2 && r.taken[0].0 == r.taken[1].0 == 10
  {
    TenAgain();
    hide Refreshed, FateOf, Fetching, Found, Onward, Orderly, Answers, AllParse, Keeps, Reader.Valid, Moves, Opening,
         Broken, TEN;
    r := new Reader(10, [false], true);
    var ok, got, reset := r.NextSegment(Opening);
    ok, got, reset := r.NextSegment(Broken);
  }

  /** A window that parsed has a segment. */
  predicate Parses(a: Answer) {
    a.Window? ==> |a.disc| > 0
  }

  lemma Unroll(script: seq<Round>, k: nat)
    requires k < |script|
    ensures var rest := Answers(script[k..]);
      && |rest| >= 2 && rest[0] == script[k].refresh && rest[1..][0] == script[k].again
      && rest[1..][1..] == Answers(script[k + 1..])
  {
    var rest := Answers(script[k..]);
    assert script[k..][1..] == script[k + 1..];
    assert rest[1..][1..] == rest[2..];
  }

  lemma TakenNext(taken: seq<(int, nat)>, next: int, was: nat, reset: nat)
    requires Orderly(taken, next, was) && was <= reset
    ensures Orderly(taken + [(next, reset)], next + 1, reset)
  {
    var t := taken + [(next, reset)];
    assert forall i | 0 <= i < |taken| :: t[i] == taken[i];
  }

  /** Numbers only grow; where one is skipped, the reset generation grew. */
  ghost predicate Orderly(taken: seq<(int, nat)>, next: int, reset: nat) {
    && (forall i | 0 <= i < |taken| - 1 :: Follows(taken[i], taken[i + 1].0, taken[i + 1].1))
    && (taken != [] ==> Follows(taken[|taken| - 1], next, reset))
  }

  predicate Follows(t: (int, nat), next: int, reset: nat) {
    t.0 < next && t.1 <= reset && (t.0 + 1 < next ==> t.1 < reset)
  }

  /** Everything delivered is strictly increasing, over the whole run. */
  lemma {:induction false} StrictlyIncreasing(taken: seq<(int, nat)>, next: int, reset: nat, i: nat, j: nat)
    requires Orderly(taken, next, reset) && i < j < |taken|
    ensures taken[i].0 < taken[j].0
    ensures taken[i].0 + (j - i) < taken[j].0 ==> taken[i].1 < taken[j].1
    ensures taken[i].1 <= taken[j].1
    decreases j - i
  {
    assert Follows(taken[i], taken[i + 1].0, taken[i + 1].1);
    if i + 1 < j {
      StrictlyIncreasing(taken, next, reset, i + 1, j);
    }
  }

  /** The place stays, or moves on with a reset. */
  ghost predicate Moves(p: Place, q: Place) {
    if q.Next() == p.Next() then q.reset == p.reset else q.Next() > p.Next() && q.reset > p.reset
  }

  /** One refresh under the promise. */
  lemma Step(p: Place, a: Answer, rest: seq<Answer>)
    requires rest != [] && rest[0] == a && Onward(p.End(), rest) && p.idx <= p.n
    ensures var q := Refreshed(p, a);
      && Onward(q.End(), rest[1..])
      && Moves(p, q)
  {
    if !p.live { OnwardSkips(p.End(), rest); }
  }

  lemma Kept(taken: seq<(int, nat)>, p: Place, a: Answer)
    requires Orderly(taken, p.Next(), p.reset)
    requires Moves(p, Refreshed(p, a))
    ensures Orderly(taken, Refreshed(p, a).Next(), Refreshed(p, a).reset)
  {}
}

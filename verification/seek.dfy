/**
 Where a seek lands, app/src/hls.c: the segment whose interval contains the wanted time,
 and the audio segment whose interval contains that segment's start.
 */
module Seek {
  import opened HlsReader

  function Dur(durs: seq<int>, target: int, i: nat): int
    requires i < |durs|
  {
    if durs[i] > 0 then durs[i] else target
  }

  /** The start of segment i. */
  function Start(durs: seq<int>, target: int, i: nat): (s: int)
    requires i <= |durs|
  {
    if i == 0 then 0 else Start(durs, target, i - 1) + Dur(durs, target, i - 1)
  }

  function End(durs: seq<int>, target: int, i: nat): (e: int)
    requires i < |durs|
    ensures e == Start(durs, target, i + 1)
  {
    Start(durs, target, i) + Dur(durs, target, i)
  }

  /** Segment i is the one at `want`, or there is none and i is their number. */
  ghost predicate Lands(durs: seq<int>, target: int, want: int, i: nat) {
    && i <= |durs|
    && (i < |durs| ==> want < End(durs, target, i))
    && forall j: nat | j < i :: End(durs, target, j) <= want
  }

  lemma {:induction false} StartGrows(durs: seq<int>, target: int, i: nat, j: nat)
    requires i <= j <= |durs| && target >= 0
    ensures Start(durs, target, i) <= Start(durs, target, j)
    decreases j - i
  {
    if i < j { StartGrows(durs, target, i, j - 1); }
  }

  /** The landing is the interval that contains the time, and it is the only one. */
  lemma LandsMeans(durs: seq<int>, target: int, want: int, i: nat)
    requires target >= 0 && want >= 0 && i < |durs|
    ensures Lands(durs, target, want, i) <==> Start(durs, target, i) <= want < End(durs, target, i)
  {
    EndBefore(durs, target, i);
    hide Start;
    if i > 0 && Lands(durs, target, want, i) {
      assert End(durs, target, i - 1) <= want;
    }
    if Start(durs, target, i) <= want {
      forall j: nat | j < i
        ensures End(durs, target, j) <= want
      {
        StartGrows(durs, target, j + 1, i);
      }
    }
  }

  lemma EndBefore(durs: seq<int>, target: int, i: nat)
    requires i < |durs|
    ensures i > 0 ==> End(durs, target, i - 1) == Start(durs, target, i)
    ensures Start(durs, target, 0) == 0
  {}

  lemma LandsOnce(durs: seq<int>, target: int, want: int, i: nat, j: nat)
    requires Lands(durs, target, want, i) && Lands(durs, target, want, j)
    ensures i == j
  {}

  /** Off the end exactly when the time is past the last end. */
  lemma LandsOff(durs: seq<int>, target: int, want: int)
    requires target >= 0 && want >= 0
    ensures Lands(durs, target, want, |durs|) <==> Start(durs, target, |durs|) <= want
  {
    forall j: nat | j < |durs|
      ensures End(durs, target, j) <= Start(durs, target, |durs|)
    {
      StartGrows(durs, target, j + 1, |durs|);
    }
    if |durs| > 0 && Lands(durs, target, want, |durs|) {
      assert End(durs, target, |durs| - 1) <= want;
    }
  }

  /** The search loop of `hls_seek_clamped`, for both renditions. */
  method Locate(durs: seq<int>, target: int, want: int) returns (i: nat, start: int)
    ensures Lands(durs, target, want, i) && start == Start(durs, target, i)
  {
    i, start := 0, 0;
    while i < |durs|
      invariant i <= |durs| && start == Start(durs, target, i)
      invariant forall j: nat | j < i :: End(durs, target, j) <= want
    {
      var dur := if durs[i] > 0 then durs[i] else target;
      if want < start + dur { return; }
      start := start + dur;
      i := i + 1;
    }
  }

  /** The requested time in milliseconds: not negative, not past the duration. */
  function WantMs(seconds: real, totalMs: int): (ms: int)
    ensures 0 <= ms && (totalMs > 0 ==> ms <= totalMs) && (totalMs <= 0 ==> ms == 0)
  {
    var dur := if totalMs > 0 then totalMs as real / 1000.0 else 0.0;
    var low := if seconds < 0.0 then 0.0 else seconds;
    var s := if low > dur then dur else low;
    (s * 1000.0).Floor
  }

  /** Before the start is the start, past the end is the end, and between them it is the time, to the
      millisecond below; of an unknown duration it is the start. */
  lemma WantedTime(seconds: real, totalMs: int)
    requires totalMs >= 0
    ensures var ms := WantMs(seconds, totalMs);
      if seconds <= 0.0 then ms == 0
      else if seconds >= totalMs as real / 1000.0 then ms == totalMs
      else ms as real <= seconds * 1000.0 < ms as real + 1.0
  {
    var t := totalMs as real / 1000.0;
    assert t * 1000.0 == totalMs as real;
  }

  /** What the playlists say: durations, target duration, total. */
  datatype Timeline = Timeline(durs: seq<int>, target: int, totalMs: int)

  /** The parser makes durations and the target positive and the total their sum (hls_parse.c). */
  ghost predicate Parsed(t: Timeline) {
    && t.target > 0 && (forall i | 0 <= i < |t.durs| :: t.durs[i] > 0)
    && t.totalMs == Start(t.durs, t.target, |t.durs|)
  }

  class Player {
    const video: Timeline
    const audioDurs: seq<int>
    const audioReady: bool
    var reader: Reader
    var audioIdx: nat
    var segGen: nat
    var resetGen: nat

    constructor (reader: Reader, video: Timeline, audioDurs: seq<int>, audioReady: bool)
      ensures this.reader == reader && this.video == video && this.audioDurs == audioDurs
        && this.audioReady == audioReady
    {
      this.reader, this.video, this.audioDurs, this.audioReady := reader, video, audioDurs, audioReady;
      audioIdx, segGen, resetGen := 0, 0, 0;
    }

    /**
     `hls_seek_clamped`: the video goes to the segment at the wanted time and reports its
     start; the audio goes to its segment at that start. The stream restarts there.
     */
    method SeekClamped(seconds: real, depth: int) returns (ok: bool, actualMs: int)
      requires reader.Sound() && |video.durs| == |reader.res.segs|
      modifies this`audioIdx, this`segGen, this`resetGen, reader, reader.pref
      ensures ok == (|video.durs| > 0)
      ensures !ok ==> audioIdx == old(audioIdx) && resetGen == old(resetGen) && reader.Sound()
      ensures ok ==>
        && reader.Valid() && Lands(video.durs, video.target, WantMs(seconds, video.totalMs), reader.segIdx)
        && actualMs == (if reader.segIdx < |video.durs| then Start(video.durs, video.target, reader.segIdx)
          else video.totalMs)
        && reader.out == [] && reader.whole == Stream(reader.res, reader.res.init.Some?, reader.segIdx)
        && segGen == old(segGen) + 1 && resetGen == old(resetGen) + 1
      ensures ok ==> if audioReady then Lands(audioDurs, video.target, actualMs, audioIdx)
        else audioIdx == old(audioIdx)
    {
      hide Lands, WantMs, Start, Stream, HlsReader.Fits, HlsReader.Left, HlsReader.Next, HlsReader.Here;
      if |video.durs| == 0 { return false, 0; }
      var want := WantMs(seconds, video.totalMs);
      var target, startMs := Locate(video.durs, video.target, want);
      if target >= |video.durs| { startMs := video.totalMs; }
      reader.SeekTo(target, depth);
      segGen := segGen + 1;
      resetGen := resetGen + 1;
      if audioReady {
        var atarget, astartMs := Locate(audioDurs, video.target, startMs);
        audioIdx := atarget;
      }
      return true, startMs;
    }
  }

  /** On a parsed playlist the reported start is never after the wanted time, and less than a segment before it. */
  lemma ReportedStart(t: Timeline, seconds: real, i: nat)
    requires Parsed(t) && |t.durs| > 0 && Lands(t.durs, t.target, WantMs(seconds, t.totalMs), i)
    ensures var want := WantMs(seconds, t.totalMs);
      Start(t.durs, t.target, i) <= want && (i < |t.durs| ==> want < Start(t.durs, t.target, i) + t.durs[i])
    ensures i == |t.durs| <==> WantMs(seconds, t.totalMs) == t.totalMs
  {
    var want := WantMs(seconds, t.totalMs);
    Positive(t, |t.durs|);
    if i < |t.durs| {
      LandsMeans(t.durs, t.target, want, i);
      StartGrows(t.durs, t.target, i + 1, |t.durs|);
    } else {
      LandsOff(t.durs, t.target, want);
    }
  }

  lemma {:induction false} Positive(t: Timeline, i: nat)
    requires t.target > 0 && i <= |t.durs|
    ensures Start(t.durs, t.target, i) >= i
  {
    if i > 0 { Positive(t, i - 1); }
  }

  /** Seeking to a reported start lands on the same segment again. */
  lemma SeekIsStable(t: Timeline, i: nat)
    requires Parsed(t) && i < |t.durs|
    ensures var ms := Start(t.durs, t.target, i);
      WantMs(ms as real / 1000.0, t.totalMs) == ms && Lands(t.durs, t.target, ms, i)
  {
    var ms := Start(t.durs, t.target, i);
    Positive(t, i);
    StartGrows(t.durs, t.target, i + 1, |t.durs|);
    LandsMeans(t.durs, t.target, ms, i);
    var s := ms as real / 1000.0;
    assert s * 1000.0 == ms as real;
    assert s <= t.totalMs as real / 1000.0;
  }
}

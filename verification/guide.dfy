/**
 The programme store of app/src/guide.c once everything is in it: `guide_finish`
 sorts, folds duplicates, indexes channels and fills open ends; `guide_at` looks
 a time up by binary search.
 */
module Guide {
  type Word32 = x: int | 0 <= x < 0x1_0000_0000

  datatype Prog = Prog(start: Word32, stop: Word32, title: nat, sub: nat, cat: nat, desc: nat, gch: nat)
  datatype Chan = Chan(id: nat, first: nat, count: nat)

  // ---- order --------------------------------------------------------------

  /** `prog_cmp`: by channel, then by start. */
  predicate Before(x: Prog, y: Prog) {
    x.gch < y.gch || (x.gch == y.gch && x.start < y.start)
  }

  predicate SameKey(x: Prog, y: Prog) {
    x.gch == y.gch && x.start == y.start
  }

  ghost predicate Sorted(s: seq<Prog>) {
    forall i, j | 0 <= i < j < |s| :: !Before(s[j], s[i])
  }

  ghost predicate Strict(s: seq<Prog>) {
    forall i, j | 0 <= i < j < |s| :: Before(s[i], s[j])
  }

  /** Some sorted arrangement; the code below relies on nothing more than
      `Sorted` and the multiset, as `qsort` promises nothing more. */
  function SortProgs(s: seq<Prog>): (r: seq<Prog>)
    ensures |r| == |s|
  {
    if s == [] then [] else Place(s[0], SortProgs(s[1..]))
  }

  function Place(x: Prog, s: seq<Prog>): (r: seq<Prog>)
    ensures |r| == |s| + 1
  {
    if s == [] || !Before(s[0], x) then [x] + s else [s[0]] + Place(x, s[1..])
  }

  lemma {:induction false} SortSorts(s: seq<Prog>)
    ensures Sorted(SortProgs(s)) && multiset(SortProgs(s)) == multiset(s)
  {
    if s != [] {
      SortSorts(s[1..]);
      PlaceSorted(s[0], SortProgs(s[1..]));
      PlaceAdds(s[0], SortProgs(s[1..]));
      assert s == [s[0]] + s[1..];
    }
  }

  lemma {:induction false} PlaceAdds(x: Prog, s: seq<Prog>)
    ensures multiset(Place(x, s)) == multiset{x} + multiset(s)
  {
    if !(s == [] || !Before(s[0], x)) {
      PlaceAdds(x, s[1..]);
      assert s == [s[0]] + s[1..];
    }
  }

  lemma {:induction false} PlaceSorted(x: Prog, s: seq<Prog>)
    requires Sorted(s)
    ensures Sorted(Place(x, s))
    ensures forall p | p in Place(x, s) :: p == x || p in s
  {
    if !(s == [] || !Before(s[0], x)) {
      var rest := Place(x, s[1..]);
      PlaceSorted(x, s[1..]);
      forall j | 0 <= j < |rest|
        ensures !Before(rest[j], s[0])
      {
        assert rest[j] in rest;
      }
    }
  }

  // ---- folding duplicates -------------------------------------------------

  /** Keep the first of each run with the same channel and start. */
  function Fold(s: seq<Prog>): (r: seq<Prog>)
    ensures |r| <= |s|
  {
    if s == [] then []
    else
      var r, p := Fold(s[..|s| - 1]), s[|s| - 1];
      if r != [] && SameKey(r[|r| - 1], p) then r else r + [p]
  }

  /** Folding a sorted list loses no (channel, start), invents nothing and leaves
      every key once. */
  lemma FoldKeeps(s: seq<Prog>)
    requires Sorted(s)
    ensures Strict(Fold(s))
    ensures forall p | p in Fold(s) :: p in s
    ensures forall p | p in s :: Kept(Fold(s), p)
  {
    FoldStrict(s);
    FoldSubset(s);
    FoldCovers(s);
  }

  lemma {:induction false} FoldSubset(s: seq<Prog>)
    ensures forall p | p in Fold(s) :: p in s
  {
    if s != [] {
      FoldSubset(s[..|s| - 1]);
      assert forall q | q in s[..|s| - 1] :: q in s;
    }
  }

  ghost predicate Kept(r: seq<Prog>, p: Prog) {
    exists q | q in r :: SameKey(p, q)
  }

  lemma {:induction false} FoldCovers(s: seq<Prog>)
    ensures forall p | p in s :: Kept(Fold(s), p)
  {
    if s != [] {
      var front, last := s[..|s| - 1], s[|s| - 1];
      FoldCovers(front);
      var f, r := Fold(front), Fold(s);
      assert forall q | q in f :: q in r;
      assert r[|r| - 1] in r && SameKey(last, r[|r| - 1]);
      forall p | p in s
        ensures Kept(r, p)
      {
        if p in front {
          assert Kept(f, p);
          var q :| q in f && SameKey(p, q);
          assert q in r;
        } else {
          assert s == front + [last];
        }
      }
    }
  }

  lemma {:induction false} FoldStrict(s: seq<Prog>)
    requires Sorted(s)
    ensures Strict(Fold(s))
    ensures s != [] ==> Fold(s) != [] && SameKey(Fold(s)[|Fold(s)| - 1], s[|s| - 1])
  {
    if s != [] {
      var front, p := s[..|s| - 1], s[|s| - 1];
      FoldStrict(front);
      var r := Fold(front);
      if r != [] {
        assert front != [];
        assert !Before(s[|s| - 1], s[|s| - 2]);
        StrictSnoc(r, p);
      }
    }
  }

  lemma StrictSnoc(r: seq<Prog>, p: Prog)
    requires Strict(r) && r != [] && !Before(p, r[|r| - 1])
    ensures SameKey(r[|r| - 1], p) || Strict(r + [p])
  {
    if !SameKey(r[|r| - 1], p) {
      assert Before(r[|r| - 1], p);
    }
  }

  // ---- open ends and channel slices ---------------------------------------

  /** The stop a programme ends up with: its own, else the next start on its
      channel, else an hour after it began (in 32 bits). */
  function StopOf(s: seq<Prog>, i: nat): (stop: Word32)
    requires i < |s|
  {
    if s[i].stop != 0 then s[i].stop
    else if i + 1 < |s| && s[i + 1].gch == s[i].gch then s[i + 1].start
    else (s[i].start + 3600) % 0x1_0000_0000
  }

  function Filled(s: seq<Prog>): (r: seq<Prog>)
    ensures |r| == |s|
  {
    seq(|s|, i requires 0 <= i < |s| => s[i].(stop := StopOf(s, i)))
  }

  /** Every channel's programmes are one slice, and it knows which. */
  ghost predicate Indexed(s: seq<Prog>, ch: seq<Chan>) {
    && (forall c | 0 <= c < |ch| :: ch[c].first + ch[c].count <= |s|)
    && (forall c, i | 0 <= c < |ch| && 0 <= i < |s| ::
          s[i].gch == c <==> ch[c].first <= i < ch[c].first + ch[c].count)
  }

  /** No programme is without an end, and every end is after its start. */
  ghost predicate Ended(s: seq<Prog>) {
    forall p | p in s :: p.stop > p.start
  }

  /** Ends are after starts: given ones by assumption, filled ones because the next
      programme starts later, as long as an hour more fits 32 bits. */
  lemma FilledEnds(s: seq<Prog>)
    requires Strict(s)
    requires forall p | p in s :: p.stop == 0 || p.stop > p.start
    requires forall p | p in s :: p.start + 3600 < 0x1_0000_0000
    ensures Ended(Filled(s)) && Strict(Filled(s))
  {
    forall i | 0 <= i < |s|
      ensures Filled(s)[i].stop > Filled(s)[i].start
    {
      assert s[i] in s;
      if i + 1 < |s| { assert Before(s[i], s[i + 1]); }
    }
  }

  lemma NothingFolded()
    ensures Fold([]) == []
  {}

  lemma FoldStep(s: seq<Prog>, i: nat)
    requires i < |s|
    ensures Fold(s[..i + 1]) ==
      var r := Fold(s[..i]);
      if r != [] && SameKey(r[|r| - 1], s[i]) then r else r + [s[i]]
  {
    assert s[..i + 1][..i] == s[..i];
  }

  class Store {
    var pg: array<Prog>
    var pgN: nat
    var ch: array<Chan>
    var finished: bool

    /** The lists as they were filled in. */
    constructor (progs: seq<Prog>, chans: seq<Chan>)
      requires forall i | 0 <= i < |progs| :: progs[i].gch < |chans|
      requires forall c | 0 <= c < |chans| :: chans[c].first == chans[c].count == 0
      ensures Collecting() && pg[..pgN] == progs && ch[..] == chans && fresh(pg) && fresh(ch)
    {
      pg := new Prog[|progs|](i requires 0 <= i < |progs| => progs[i]);
      ch := new Chan[|chans|](i requires 0 <= i < |chans| => chans[i]);
      pgN, finished := |progs|, false;
    }

    /** What holds while programmes are added: channel indices exist, slices are empty. */
    ghost predicate Collecting()
      reads this, pg, ch
    {
      && pgN <= pg.Length && !finished
      && (forall i | 0 <= i < pgN :: pg[i].gch < ch.Length)
      && (forall c | 0 <= c < ch.Length :: ch[c].first == ch[c].count == 0)
    }

    /** What holds once the guide is finished. */
    ghost predicate Ready()
      reads this, pg, ch
    {
      && pgN <= pg.Length && finished
      && Strict(pg[..pgN]) && Indexed(pg[..pgN], ch[..])
      && (forall i | 0 <= i < pgN :: pg[i].gch < ch.Length)
    }

    /** The sorted list before folding: what is known of `qsort`'s result. */
    method Sort()
      requires pgN <= pg.Length
      modifies pg
      ensures Sorted(pg[..pgN]) && multiset(pg[..pgN]) == multiset(old(pg[..pgN]))
    {
      hide Sorted, SortProgs;
      var s := SortProgs(pg[..pgN]);
      SortSorts(pg[..pgN]);
      var i := 0;
      while i < pgN
        invariant 0 <= i <= pgN && forall j | 0 <= j < i :: pg[j] == s[j]
      {
        pg[i] := s[i];
        i := i + 1;
      }
      assert pg[..pgN] == s;
    }

    /** The in-place fold: compare with the last programme kept. */
    method FoldDuplicates()
      requires pgN <= pg.Length
      modifies pg, this`pgN
      ensures pgN <= pg.Length && pg[..pgN] == Fold(old(pg[..pgN]))
    {
      hide Before, Fold, SameKey;
      ghost var s := pg[..pgN];
      NothingFolded();
      var w, i := 0, 0;
      assert s[..0] == [];
      while i < pgN
        invariant 0 <= w <= i <= pgN == |s| <= pg.Length
        invariant pg[..w] == Fold(s[..i])
        invariant forall j | i <= j < pgN :: pg[j] == s[j]
      {
        FoldStep(s, i);
        ghost var r := pg[..w];
        assert w > 0 ==> r[w - 1] == pg[w - 1];
        var same := w > 0 && SameKey(pg[w - 1], pg[i]);
        if !same {
          pg[w] := pg[i];
          w := w + 1;
          assert pg[..w] == r + [s[i]];
        }
        i := i + 1;
      }
      assert s[..i] == s;
      pgN := w;
    }

    /** Index the channels and fill the open ends. */
    method IndexAndFill()
      requires pgN <= pg.Length && Strict(pg[..pgN])
      requires forall i | 0 <= i < pgN :: pg[i].gch < ch.Length
      requires forall c | 0 <= c < ch.Length :: ch[c].first == ch[c].count == 0
      modifies pg, ch
      ensures pg[..pgN] == Filled(old(pg[..pgN]))
      ensures Indexed(pg[..pgN], ch[..])
      ensures forall c | 0 <= c < ch.Length :: ch[c].id == old(ch[c].id)
    {
      hide Strict, Slices;
      ghost var s := pg[..pgN];
      NoSlices(s, ch[..]);
      var i := 0;
      while i < pgN
        invariant 0 <= i <= pgN == |s| <= pg.Length
        invariant forall j | 0 <= j < i :: pg[j] == s[j].(stop := StopOf(s, j))
        invariant forall j | i <= j < pgN :: pg[j] == s[j]
        invariant forall c | 0 <= c < ch.Length :: ch[c].id == old(ch[c].id)
        invariant Slices(s, ch[..], i)
      {
        var q := pg[i];
        var c := ch[q.gch];
        ghost var was := ch[..];
        if c.count == 0 { c := c.(first := i); }
        ch[q.gch] := c.(count := c.count + 1);
        SliceGrows(s, was, i);
        assert ch[..] == was[q.gch := c.(count := c.count + 1)];
        if q.stop == 0 {
          var nx := if i + 1 < pgN && pg[i + 1].gch == q.gch then pg[i + 1].start
                    else (q.start + 3600) % 0x1_0000_0000;
          pg[i] := q.(stop := nx);
        }
        i := i + 1;
      }
      assert pg[..pgN] == Filled(s);
      AllSlices(s, ch[..]);
    }

    /** Sort and fold: what is left is strictly ordered. */
    method Arrange() returns (ghost sorted: seq<Prog>)
      requires pgN <= pg.Length
      modifies this`pgN, pg
      ensures pgN <= pg.Length && Sorted(sorted) && multiset(sorted) == multiset(old(pg[..pgN]))
      ensures pg[..pgN] == Fold(sorted)
    {
      hide *;
      Sort();
      sorted := pg[..pgN];
      FoldDuplicates();
    }

    /** `guide_finish`. */
    method Finish() returns (ghost sorted: seq<Prog>)
      requires Collecting() || Ready()
      modifies this`pgN, this`finished, pg, ch
      ensures Ready()
      ensures old(finished) ==> pgN == old(pgN) && pg[..] == old(pg[..]) && ch[..] == old(ch[..])
      ensures !old(finished) ==>
        && Sorted(sorted) && multiset(sorted) == multiset(old(pg[..pgN]))
        && pg[..pgN] == Filled(Fold(sorted))
    {
      hide Sorted, Strict, Fold, Filled, Indexed;
      sorted := [];
      if finished { return; }
      finished := true;
      ghost var before, n := pg[..pgN], ch.Length;
      sorted := Arrange();
      ghost var d := pg[..pgN];
      Arranged(before, sorted, n);
      assert forall i | 0 <= i < pgN :: pg[i] == d[i];
      IndexAndFill();
      FilledStrict(d);
      FilledChannels(d, n);
    }

    // ---- looking up -----------------------------------------------------------

    /** A channel's programmes; none for an index that is no channel. */
    ghost function Slice(gch: int): (s: seq<Prog>)
      requires Ready()
      reads this, pg, ch
    {
      if 0 <= gch < ch.Length then pg[ch[gch].first..ch[gch].first + ch[gch].count] else []
    }

    /** The slice of a channel is all of its programmes, by increasing start. */
    lemma SliceIsChannel(gch: int)
      requires Ready()
      ensures 0 <= gch < ch.Length ==> ch[gch].first + ch[gch].count <= pgN && |Slice(gch)| == ch[gch].count
      ensures StartsIncrease(Slice(gch))
      ensures forall p :: p in Slice(gch) <==> p in pg[..pgN] && p.gch == gch
    {
      var s := pg[..pgN];
      if 0 <= gch < ch.Length {
        SliceOf(s, ch[..], gch);
        assert Slice(gch) == s[ch[gch].first..ch[gch].first + ch[gch].count];
      } else {
        assert forall p | p in s :: exists i :: 0 <= i < pgN && s[i] == p;
      }
    }

    /** `guide_count`. */
    function Count(gch: int): (n: nat)
      reads this, ch
      ensures Ready() ==> n == |Slice(gch)|
    {
      if 0 <= gch < ch.Length then ch[gch].count else 0
    }

    /** `guide_prog`: the k-th programme of a channel. */
    method ProgAt(gch: int, k: int) returns (p: Option)
      requires Ready()
      ensures p == if 0 <= k < |Slice(gch)| then Some(Slice(gch)[k]) else None
    {
      if k < 0 || k >= Count(gch) { return None; }
      return Some(pg[ch[gch].first + k]);
    }

    /** `guide_at`: the binary search for the first start after t. */
    method At(gch: int, t: int) returns (k: int, onAir: bool)
      requires Ready()
      ensures Answer(Slice(gch), t, k, onAir)
    {
      hide *;
      SliceIsChannel(gch);
      ghost var s := Slice(gch);
      var n := Count(gch);
      if n == 0 {
        Searched(s, t, 0);
        return -1, false;
      }
      SliceAt(gch, 0);
      var first := ch[gch].first;
      var lo, hi := 0, n;
      while lo < hi
        invariant 0 <= lo <= hi <= n
        invariant lo > 0 ==> s[lo - 1].start <= t
        invariant hi < n ==> s[hi].start > t
      {
        var mid := (lo + hi) / 2;
        SliceAt(gch, mid);
        if pg[first + mid].start <= t { lo := mid + 1; } else { hi := mid; }
      }
      Searched(s, t, lo);
      if lo > 0 {
        SliceAt(gch, lo - 1);
        if pg[first + (lo - 1)].stop > t { return lo - 1, true; }
      }
      return if lo < n then lo else -1, false;
    }

    lemma SliceAt(gch: int, k: nat)
      requires Ready() && k < |Slice(gch)|
      ensures 0 <= gch < ch.Length && ch[gch].first + k < pg.Length
      ensures Slice(gch)[k] == pg[ch[gch].first + k]
    {
    }

    /** `epg_now_next`: what is on, and what begins next. */
    method NowNext(gch: int, now: int) returns (onAir: Option, next: Option)
      requires Ready()
      ensures onAir.Some? ==> exists i :: Latest(Slice(gch), now, i) && Slice(gch)[i] == onAir.p
      ensures onAir.Some? ==> onAir.p.start <= now < onAir.p.stop
      ensures onAir.None? ==> forall i | Latest(Slice(gch), now, i) :: Slice(gch)[i].stop <= now
      // next is the earliest programme that starts after now, whether or not one is on air
      ensures next.Some? ==> exists i :: Earliest(Slice(gch), now, i) && Slice(gch)[i] == next.p
      ensures next.None? ==> forall p | p in Slice(gch) :: p.start <= now
    {
      hide *;
      onAir, next := None, None;
      var k, on := At(gch, now);
      SliceIsChannel(gch);
      AnswerMeans(Slice(gch), now, k, on);
      if k >= 0 && on {
        onAir := ProgAt(gch, k);
        k := k + 1;
      }
      if k >= 0 {
        next := ProgAt(gch, k);
      }
    }

    /** `epg_schedule`: up to `max` programmes from the one on air, or the next. */
    method Schedule(gch: int, from: int, max: nat) returns (out: seq<Prog>)
      requires Ready()
      ensures forall k, on | Answer(Slice(gch), from, k, on) ::
        if 0 <= k <= |Slice(gch)| then out == Run(Slice(gch)[k..], max) else out == []
    {
      hide Ready, Slice, Strict, Indexed, StartsIncrease, Latest, Earliest, Answer, Run;
      out := [];
      var k, onAir := At(gch, from);
      ghost var k0, s := k, Slice(gch);
      SliceIsChannel(gch);
      AnswerMeans(s, from, k, onAir);
      OnlyAnswer(s, from, k, onAir);
      if k < 0 { return; }
      while |out| < max && k < Count(gch)
        invariant k0 <= k <= |s| && k - k0 == |out| <= max
        invariant out == s[k0..k]
        decreases |s| - k
      {
        var p := ProgAt(gch, k);
        assert s[k0..k + 1] == s[k0..k] + [s[k]];
        out := out + [p.p];
        k := k + 1;
      }
      RunIs(s, k0, k, max);
    }
  }

  datatype Option = None | Some(p: Prog)

  ghost predicate StartsIncrease(s: seq<Prog>) {
    forall i, j | 0 <= i < j < |s| :: s[i].start < s[j].start
  }

  /** The programme that began last, of those that have begun. */
  ghost predicate Latest(s: seq<Prog>, t: int, i: int) {
    0 <= i < |s| && s[i].start <= t && forall p | p in s && p.start <= t :: p.start <= s[i].start
  }

  /** The first programme still to begin. */
  ghost predicate Earliest(s: seq<Prog>, t: int, i: int) {
    0 <= i < |s| && s[i].start > t && forall p | p in s && p.start > t :: s[i].start <= p.start
  }

  /** What `guide_at` promises, in terms of the whole list: the programme that
      began last if it has not ended, else the next to begin, else -1. */
  ghost predicate Answer(s: seq<Prog>, t: int, k: int, onAir: bool) {
    if onAir then Latest(s, t, k) && s[k].stop > t
    else
      && (forall i | Latest(s, t, i) :: s[i].stop <= t)
      && (k == -1 || Earliest(s, t, k))
      && (k == -1 ==> forall p | p in s :: p.start <= t)
  }

  /** The answer is determined. */
  lemma AnswerUnique(s: seq<Prog>, t: int, k: int, on: bool, k': int, on': bool)
    requires StartsIncrease(s) && Answer(s, t, k, on) && Answer(s, t, k', on')
    ensures k == k' && on == on'
  {
    if on && on' {
      assert s[k] in s && s[k'] in s;
    } else if !on && !on' && k != -1 {
      assert s[k] in s;
      assert k' != -1;
      assert s[k'] in s;
    }
  }

  /** The boundary found by the search gives the answer. */
  lemma Searched(s: seq<Prog>, t: int, lo: nat)
    requires StartsIncrease(s) && lo <= |s|
    requires lo > 0 ==> s[lo - 1].start <= t
    requires lo < |s| ==> s[lo].start > t
    ensures lo > 0 && s[lo - 1].stop > t ==> Answer(s, t, lo - 1, true)
    ensures !(lo > 0 && s[lo - 1].stop > t) ==> Answer(s, t, if lo < |s| then lo else -1, false)
  {
    hide StartsIncrease;
    Boundary(s, t, lo);
  }

  lemma Boundary(s: seq<Prog>, t: int, lo: nat)
    requires StartsIncrease(s) && lo <= |s|
    requires lo > 0 ==> s[lo - 1].start <= t
    requires lo < |s| ==> s[lo].start > t
    ensures lo > 0 ==> Latest(s, t, lo - 1)
    ensures lo < |s| ==> Earliest(s, t, lo)
    ensures lo == |s| ==> forall p | p in s :: p.start <= t
    ensures forall i | Latest(s, t, i) :: lo > 0 && i == lo - 1
  {
    forall p | p in s
      ensures (lo > 0 && p.start <= s[lo - 1].start) || (lo < |s| && s[lo].start <= p.start)
    {
      var i :| 0 <= i < |s| && s[i] == p;
    }
    forall i | Latest(s, t, i)
      ensures lo > 0 && i == lo - 1
    {
      assert lo > 0 ==> s[lo - 1] in s;
    }
  }

  /** There is an answer at every time. */
  lemma SomeAnswer(s: seq<Prog>, t: int) returns (k: int, on: bool)
    requires StartsIncrease(s)
    ensures Answer(s, t, k, on)
  {
    var lo := Started(s, t, |s|);
    Searched(s, t, lo);
    hide Answer;
    if lo > 0 && s[lo - 1].stop > t {
      k, on := lo - 1, true;
    } else {
      k, on := if lo < |s| then lo else -1, false;
    }
  }

  lemma {:induction false} Started(s: seq<Prog>, t: int, n: nat) returns (lo: nat)
    requires n <= |s| && (n < |s| ==> s[n].start > t)
    ensures lo <= |s| && (lo > 0 ==> s[lo - 1].start <= t) && (lo < |s| ==> s[lo].start > t)
  {
    if n == 0 || s[n - 1].start <= t {
      lo := n;
    } else {
      lo := Started(s, t, n - 1);
    }
  }

  /** And only one. */
  lemma OnlyAnswer(s: seq<Prog>, t: int, k: int, on: bool)
    requires StartsIncrease(s) && Answer(s, t, k, on)
    ensures forall k', on' | Answer(s, t, k', on') :: k' == k && on' == on
  {
    hide Answer, StartsIncrease;
    forall k', on' | Answer(s, t, k', on')
      ensures k' == k && on' == on
    {
      AnswerUnique(s, t, k, on, k', on');
    }
  }

  /** What an answer says of the programme on air and of the one after it. */
  lemma AnswerMeans(s: seq<Prog>, t: int, k: int, on: bool)
    requires StartsIncrease(s) && Answer(s, t, k, on)
    ensures -1 <= k < |s| && (on ==> k >= 0)
    ensures on ==> k < |s| && Latest(s, t, k) && s[k].start <= t < s[k].stop
    ensures !on ==> forall i | Latest(s, t, i) :: s[i].stop <= t
    ensures var n := if on then k + 1 else k;
      if 0 <= n < |s| then Earliest(s, t, n) else forall p | p in s :: p.start <= t
  {
    if on {
      forall p | p in s && p.start > t
        ensures k + 1 < |s| && s[k + 1].start <= p.start
      {
        var i :| 0 <= i < |s| && s[i] == p;
      }
      if k + 1 < |s| { assert s[k + 1] in s; }
    }
  }

  function Run(s: seq<Prog>, max: nat): seq<Prog> {
    if max < |s| then s[..max] else s
  }

  lemma RunIs(s: seq<Prog>, i: nat, j: nat, max: nat)
    requires i <= j <= |s| && j - i <= max && (j - i == max || j == |s|)
    ensures s[i..j] == Run(s[i..], max)
  {
    assert s[i..j] == s[i..][..j - i];
  }

  // ---- is something on air? -----------------------------------------------

  ghost predicate Covered(s: seq<Prog>, t: int) {
    exists p | p in s :: p.start <= t < p.stop
  }

  /** No programme outlasts a later one that ends before its own successor begins. */
  ghost predicate NoLongTails(s: seq<Prog>) {
    forall j, k | 0 <= j < k < |s| :: !Outlasts(s, j, k)
  }

  ghost predicate Outlasts(s: seq<Prog>, j: nat, k: nat)
    requires j < k < |s|
  {
    s[j].stop > s[k].stop && !(k + 1 < |s| && s[k + 1].start <= s[k].stop)
  }

  /** "On air at t" is answered truly at all times exactly for such schedules: a
      long programme interrupted by a short one is not found again after it. */
  lemma OnAirExactly(s: seq<Prog>)
    requires StartsIncrease(s) && Ended(s)
    ensures (forall t, k, on | Answer(s, t, k, on) :: on == Covered(s, t)) <==> NoLongTails(s)
  {
    hide *;
    if NoLongTails(s) {
      forall t, k, on | Answer(s, t, k, on)
        ensures on == Covered(s, t)
      {
        AnswerOnAir(s, t, k, on);
      }
    } else {
      var t, k := TailUnseen(s);
    }
  }

  /** Some programme is on air and not found. */
  lemma TailUnseen(s: seq<Prog>) returns (t: int, k: int)
    requires StartsIncrease(s) && Ended(s) && !NoLongTails(s)
    ensures Answer(s, t, k, false) && Covered(s, t)
  {
    hide Answer, Covered, StartsIncrease, Ended, Outlasts;
    var i, j :| 0 <= i < j < |s| && Outlasts(s, i, j);
    LongTail(s, i, j);
    t, k := s[j].stop, if j + 1 < |s| then j + 1 else -1;
  }

  lemma AnswerOnAir(s: seq<Prog>, t: int, k: int, on: bool)
    requires StartsIncrease(s) && NoLongTails(s) && Answer(s, t, k, on)
    ensures on == Covered(s, t)
  {
    AnswerMeans(s, t, k, on);
    hide Answer, Latest, Earliest, StartsIncrease, NoLongTails, Covered;
    if on { LatestCovers(s, t, k); } else { LateTail(s, t, k); }
  }

  lemma LatestCovers(s: seq<Prog>, t: int, k: int)
    requires Latest(s, t, k) && t < s[k].stop
    ensures Covered(s, t)
  {
    assert s[k] in s;
  }

  /** A programme outlasting a later one is on air when that one ends, unseen. */
  lemma LongTail(s: seq<Prog>, j: nat, k: nat)
    requires StartsIncrease(s) && Ended(s) && j < k < |s| && Outlasts(s, j, k)
    ensures Covered(s, s[k].stop)
    ensures Answer(s, s[k].stop, if k + 1 < |s| then k + 1 else -1, false)
  {
    assert s[j] in s && s[k] in s;
    Searched(s, s[k].stop, k + 1);
  }

  lemma LateTail(s: seq<Prog>, t: int, k: int)
    requires StartsIncrease(s) && NoLongTails(s) && Answer(s, t, k, false)
    ensures !Covered(s, t)
  {
    AnswerMeans(s, t, k, false);
    hide Answer, StartsIncrease, Earliest, Latest, Outlasts;
    forall p | p in s && p.start <= t
      ensures p.stop <= t
    {
      var i :| 0 <= i < |s| && s[i] == p;
      var l := LatestFrom(s, t, i);
      if i < l {
        assert !Outlasts(s, i, l);
        NextIsLater(s, t, i, l);
      }
    }
  }

  lemma NextIsLater(s: seq<Prog>, t: int, i: nat, l: nat)
    requires StartsIncrease(s) && i < l < |s| && !Outlasts(s, i, l) && Latest(s, t, l) && s[l].stop <= t
    ensures s[i].stop <= t
  {
    if l + 1 < |s| { assert s[l + 1] in s && s[l].start < s[l + 1].start; }
  }

  lemma LatestFrom(s: seq<Prog>, t: int, i: nat) returns (l: nat)
    requires StartsIncrease(s) && i < |s| && s[i].start <= t
    ensures i <= l && Latest(s, t, l)
    decreases |s| - i
  {
    if i + 1 < |s| && s[i + 1].start <= t {
      l := LatestFrom(s, t, i + 1);
    } else {
      l := i;
      assert forall p | p in s :: exists j :: 0 <= j < |s| && s[j] == p;
    }
  }

  /** A channel's slice of the index holds its programmes in order of start. */
  lemma SliceOf(s: seq<Prog>, ch: seq<Chan>, gch: nat)
    requires Strict(s) && Indexed(s, ch) && gch < |ch|
    ensures ch[gch].first + ch[gch].count <= |s|
    ensures var r := s[ch[gch].first..ch[gch].first + ch[gch].count];
      StartsIncrease(r) && forall p :: p in r <==> p in s && p.gch == gch
  {
    var f, n := ch[gch].first, ch[gch].count;
    var r := s[f..f + n];
    forall i, j | 0 <= i < j < |r|
      ensures r[i].start < r[j].start
    {
      assert Before(s[f + i], s[f + j]);
    }
    forall p | p in s && p.gch == gch
      ensures p in r
    {
      var i :| 0 <= i < |s| && s[i] == p;
      assert r[i - f] == p;
    }
    forall p | p in r
      ensures p in s && p.gch == gch
    {
      var i :| 0 <= i < |r| && r[i] == p;
      assert s[f + i] == p;
    }
  }

  lemma Arranged(before: seq<Prog>, sorted: seq<Prog>, n: nat)
    requires Sorted(sorted) && multiset(sorted) == multiset(before)
    requires forall i | 0 <= i < |before| :: before[i].gch < n
    ensures Strict(Fold(sorted))
    ensures forall i | 0 <= i < |Fold(sorted)| :: Fold(sorted)[i].gch < n
  {
    hide Sorted, Strict, Fold;
    SameElements(before, sorted);
    FoldKeeps(sorted);
    forall i | 0 <= i < |Fold(sorted)|
      ensures Fold(sorted)[i].gch < n
    {
      assert Fold(sorted)[i] in Fold(sorted);
    }
  }

  lemma SameElements(a: seq<Prog>, b: seq<Prog>)
    requires multiset(a) == multiset(b)
    ensures forall p | p in b :: p in a
  {
    assert forall p | p in b :: p in multiset(b);
  }

  lemma FilledStrict(s: seq<Prog>)
    requires Strict(s)
    ensures Strict(Filled(s))
  {
  }

  lemma FilledChannels(s: seq<Prog>, n: nat)
    requires forall i | 0 <= i < |s| :: s[i].gch < n
    ensures forall i | 0 <= i < |s| :: Filled(s)[i].gch < n
  {
  }

  /** The index of the first `n` programmes. */
  ghost predicate Slices(s: seq<Prog>, ch: seq<Chan>, n: nat)
    requires n <= |s|
  {
    && (forall c | 0 <= c < |ch| :: ch[c].first + ch[c].count <= n)
    && (forall c, i | 0 <= c < |ch| && 0 <= i < n ::
          s[i].gch == c <==> ch[c].first <= i < ch[c].first + ch[c].count)
  }

  lemma NoSlices(s: seq<Prog>, ch: seq<Chan>)
    requires forall c | 0 <= c < |ch| :: ch[c].first == ch[c].count == 0
    ensures Slices(s, ch, 0)
  {
  }

  lemma AllSlices(s: seq<Prog>, ch: seq<Chan>)
    requires Slices(s, ch, |s|)
    ensures Indexed(Filled(s), ch)
  {
  }

  lemma SliceGrows(s: seq<Prog>, ch: seq<Chan>, n: nat)
    requires Strict(s) && n < |s| && s[n].gch < |ch| && Slices(s, ch, n)
    ensures var c := ch[s[n].gch];
      var c' := if c.count == 0 then c.(first := n) else c;
      Slices(s, ch[s[n].gch := c'.(count := c.count + 1)], n + 1)
  {
    var g := s[n].gch;
    var c := ch[g];
    if c.count > 0 {
      // the slice reaches up to here: everything since its first programme is on the channel
      assert s[c.first].gch == g;
      forall j | c.first <= j < n
        ensures s[j].gch == g
      {
        assert j > c.first ==> Before(s[c.first], s[j]);
        assert Before(s[j], s[n]);
      }
      assert s[n - 1].gch == g;
    }
  }
}

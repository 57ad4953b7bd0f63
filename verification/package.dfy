/**
 The package server of scripts/push-goldhen-dpi.py: which bytes a request asks for, and
 the list of completed ranges that decides when the whole package was sent.
 */
module Package {
  /** A part of a range: missing, a number, or text that is no number. */
  datatype Part = Missing | Number(n: int) | Junk

  /** The `Range` header, as far as the server looks at it. */
  datatype Request = Whole | Bytes(left: Part, right: Part)

  datatype Answer = Send(status: nat, start: int, end: int) | Unsatisfiable | BadRange

  /** The first byte asked for and the last, before clipping. */
  function Wanted(q: Request, size: nat): (w: (int, int))
    requires q.Bytes? && !q.left.Junk? && !q.right.Junk?
  {
    if q.left.Number? then (q.left.n, if q.right.Number? then q.right.n else size - 1)
    else if q.right.Number? then (if size - q.right.n > 0 then size - q.right.n else 0, size - 1)
    else (0, size - 1)
  }

  /** Of the bytes there are: from the first number to the second, both included; or from it on; or as
      many of the last as the second says; or all. */
  lemma WantedMeans(q: Request, size: nat, x: int)
    requires q.Bytes? && !q.left.Junk? && !q.right.Junk? && 0 <= x < size
    ensures var w := Wanted(q, size);
      Between(w.0, w.1, x) <==>
        match (q.left, q.right)
        case (Number(a), Number(b)) => a <= x && x <= b
        case (Number(a), Missing) => a <= x
        case (Missing, Number(n)) => size - x <= n
        case (Missing, Missing) => true
  {
  }

  predicate Between(left: int, right: int, x: int) { left <= x <= right }

  /** The answer to a request: 416 when no byte is asked for, else exactly the bytes that exist. */
  method Parse(q: Request, size: nat) returns (a: Answer)
    ensures q.Whole? ==> a == Send(200, 0, size - 1)
    ensures q.Bytes? ==> (a.BadRange? <==> q.left.Junk? || q.right.Junk?)
    ensures q.Bytes? && !a.BadRange? ==> a.Unsatisfiable? || a.Send?
    ensures a.Send? && q.Bytes? ==> a.status == 206 && 0 <= a.start <= a.end < size
    ensures q.Bytes? && !a.BadRange? ==>
      var w := Wanted(q, size);
      && (a.Send? <==> 0 <= w.0 <= w.1 && w.0 < size)
      && (a.Send? ==> forall x: int :: Between(a.start, a.end, x) <==> Between(w.0, w.1, x) && 0 <= x < size)
  {
    if q.Whole? { return Send(200, 0, size - 1); }
    var start, end := 0, size - 1;
    if !q.left.Missing? {
      if q.left.Junk? || q.right.Junk? { return BadRange; }
      start := q.left.n;
      end := if q.right.Number? then q.right.n else size - 1;
    } else if !q.right.Missing? {
      if q.right.Junk? { return BadRange; }
      start := if size - q.right.n > 0 then size - q.right.n else 0;
      end := size - 1;
    }
    if start < 0 || end < start || start >= size { return Unsatisfiable; }
    if end > size - 1 { end := size - 1; }
    return Send(206, start, end);
  }

  // ---- lists of ranges ------------------------------------------------------------

  type Range = (int, int)

  ghost predicate Covers(s: seq<Range>, x: int) {
    exists i :: 0 <= i < |s| && s[i].0 <= x <= s[i].1
  }

  ghost predicate SameCover(a: seq<Range>, b: seq<Range>) {
    forall x: int :: Covers(a, x) <==> Covers(b, x)
  }

  /** In order, with a gap between neighbours. */
  ghost predicate Canonical(s: seq<Range>) {
    && (forall i | 0 <= i < |s| :: s[i].0 <= s[i].1)
    && forall i, j | 0 <= i < j < |s| :: s[i].1 + 1 < s[j].0
  }

  /** The order of tuples. */
  predicate Before(a: Range, b: Range) {
    a.0 < b.0 || (a.0 == b.0 && a.1 <= b.1)
  }

  ghost predicate Ordered(s: seq<Range>) {
    forall i, j | 0 <= i < j < |s| :: Before(s[i], s[j])
  }

  /** `sorted` */
  function Sorted(s: seq<Range>): (r: seq<Range>) {
    if s == [] then [] else Insert(Sorted(s[1..]), s[0])
  }

  function Insert(s: seq<Range>, x: Range): (r: seq<Range>)
    ensures |r| == |s| + 1 && x in r
  {
    if s == [] || Before(x, s[0]) then [x] + s else [s[0]] + Insert(s[1..], x)
  }

  lemma {:induction false} Inserted(s: seq<Range>, x: Range)
    requires Ordered(s)
    ensures Ordered(Insert(s, x)) && multiset(Insert(s, x)) == multiset(s) + multiset{x}
    ensures forall y :: y in Insert(s, x) <==> y in s || y == x
  {
    if s == [] || Before(x, s[0]) {
    } else {
      var t := s[1..];
      Inserted(t, x);
      assert s == [s[0]] + t;
      var r := Insert(t, x);
      forall j | 0 <= j < |r|
        ensures Before(s[0], r[j])
      {
        assert r[j] in t || r[j] == x;
      }
    }
  }

  lemma {:induction false} SortedIs(s: seq<Range>)
    ensures Ordered(Sorted(s)) && multiset(Sorted(s)) == multiset(s)
  {
    if s != [] {
      SortedIs(s[1..]);
      Inserted(Sorted(s[1..]), s[0]);
      assert s == [s[0]] + s[1..];
    }
  }

  lemma SameElements(a: seq<Range>, b: seq<Range>)
    requires multiset(a) == multiset(b)
    ensures SameCover(a, b)
  {
    forall x: int
      ensures Covers(a, x) <==> Covers(b, x)
    {
      ElementsCover(a, b, x);
      ElementsCover(b, a, x);
    }
  }

  lemma ElementsCover(a: seq<Range>, b: seq<Range>, x: int)
    requires multiset(a) == multiset(b)
    ensures Covers(a, x) ==> Covers(b, x)
  {
    if i :| 0 <= i < |a| && a[i].0 <= x <= a[i].1 {
      assert a[i] in multiset(b);
      var j :| 0 <= j < |b| && b[j] == a[i];
    }
  }

  lemma CoversAppend(s: seq<Range>, r: Range, x: int)
    ensures Covers(s + [r], x) <==> Covers(s, x) || r.0 <= x <= r.1
  {
    var t := s + [r];
    assert t[|s|] == r && forall i | 0 <= i < |s| :: t[i] == s[i];
  }

  /** The last range of the list stretched to `right`. */
  lemma CoversStretch(s: seq<Range>, right: int, x: int)
    requires s != []
    ensures var last := s[|s| - 1];
      Covers(s[|s| - 1 := (last.0, if last.1 > right then last.1 else right)], x)
      <==> Covers(s, x) || (last.0 <= x <= right)
  {
    var last := s[|s| - 1];
    var t := s[..|s| - 1];
    var m := (last.0, if last.1 > right then last.1 else right);
    assert s == t + [last] && s[|s| - 1 := m] == t + [m];
    CoversAppend(t, last, x);
    CoversAppend(t, m, x);
  }

  ghost predicate NonEmpty(s: seq<Range>) {
    forall i | 0 <= i < |s| :: s[i].0 <= s[i].1
  }

  /** Only the range of an empty package, `(0, -1)`. */
  ghost predicate OnlyVoid(s: seq<Range>) {
    forall i | 0 <= i < |s| :: s[i] == (0, -1)
  }

  /** The merging loop over an ordered list. */
  method Merge(s: seq<Range>) returns (merged: seq<Range>)
    requires Ordered(s) && (NonEmpty(s) || OnlyVoid(s))
    ensures NonEmpty(s) ==> Canonical(merged) && SameCover(merged, s)
    ensures OnlyVoid(s) ==> merged == if s == [] then [] else [(0, -1)]
  {
    hide *;
    merged := [];
    var i := 0;
    NothingMerged(s);
    while i < |s|
      invariant 0 <= i <= |s|
      invariant NonEmpty(s) ==> MergedTo(merged, s, i)
      invariant OnlyVoid(s) ==> merged == if i == 0 then [] else [(0, -1)]
    {
      MergeStep(merged, s, i);
      merged := Join(merged, s[i]);
      i := i + 1;
    }
    AllMerged(merged, s);
  }

  /** The first `i` ranges, merged. */
  ghost predicate MergedTo(merged: seq<Range>, s: seq<Range>, i: nat) {
    && i <= |s| && Canonical(merged) && SameCover(merged, s[..i])
    && (merged != [] ==> i > 0 && merged[|merged| - 1].0 <= s[i - 1].0)
  }

  lemma AllMerged(merged: seq<Range>, s: seq<Range>)
    ensures MergedTo(merged, s, |s|) ==> Canonical(merged) && SameCover(merged, s)
  {
    assert s[..|s|] == s;
  }

  lemma NothingMerged(s: seq<Range>)
    ensures MergedTo([], s, 0)
  {
  }

  lemma MergeStep(merged: seq<Range>, s: seq<Range>, i: nat)
    requires Ordered(s) && i < |s|
    ensures NonEmpty(s) && MergedTo(merged, s, i) ==> MergedTo(Join(merged, s[i]), s, i + 1)
    ensures OnlyVoid(s) && merged == (if i == 0 then [] else [(0, -1)]) ==> Join(merged, s[i]) == [(0, -1)]
  {
    hide SameCover, Canonical;
    if NonEmpty(s) && MergedTo(merged, s, i) {
      assert i > 0 ==> Before(s[i - 1], s[i]);
      Joined(merged, s[i]);
      NextCover(merged, Join(merged, s[i]), s, i);
    }
  }

  /** One range into the merged list: apart, or touching the last. */
  function Join(merged: seq<Range>, r: Range): (m: seq<Range>) {
    if merged == [] || r.0 > merged[|merged| - 1].1 + 1 then merged + [r]
    else
      var last := merged[|merged| - 1];
      merged[|merged| - 1 := (last.0, if last.1 > r.1 then last.1 else r.1)]
  }

  lemma Joined(merged: seq<Range>, r: Range)
    requires Canonical(merged) && r.0 <= r.1 && (merged != [] ==> merged[|merged| - 1].0 <= r.0)
    ensures var m := Join(merged, r);
      Canonical(m) && m[|m| - 1].0 <= r.0 && forall x: int :: Covers(m, x) <==> Covers(merged, x) || r.0 <= x <= r.1
  {
    var m := Join(merged, r);
    forall x: int
      ensures Covers(m, x) <==> Covers(merged, x) || r.0 <= x <= r.1
    {
      if merged == [] || r.0 > merged[|merged| - 1].1 + 1 {
        CoversAppend(merged, r, x);
      } else {
        CoversStretch(merged, r.1, x);
        CoversLast(merged, x);
      }
    }
  }

  lemma CoversLast(s: seq<Range>, x: int)
    requires s != []
    ensures s[|s| - 1].0 <= x <= s[|s| - 1].1 ==> Covers(s, x)
  {}

  lemma NextCover(was: seq<Range>, merged: seq<Range>, s: seq<Range>, i: nat)
    requires i < |s| && SameCover(was, s[..i])
    requires forall x: int :: Covers(merged, x) <==> Covers(was, x) || s[i].0 <= x <= s[i].1
    ensures SameCover(merged, s[..i + 1])
  {
    assert s[..i + 1] == s[..i] + [s[i]];
    forall x: int
      ensures Covers(merged, x) <==> Covers(s[..i + 1], x)
    {
      CoversAppend(s[..i], s[i], x);
    }
  }

  // ---- the canonical form is unique -----------------------------------------------

  lemma {:induction false} CanonicalUnique(a: seq<Range>, b: seq<Range>)
    requires Canonical(a) && Canonical(b) && SameCover(a, b)
    ensures a == b
    decreases |a|
  {
    if a == [] {
      if b != [] {
        CoversLast(b, b[|b| - 1].0);
        assert false;
      }
    } else {
      assert Covers(a, a[0].0);
      assert Covers(b, a[0].0);
      assert Covers(b, b[0].0);
      FirstSame(a, b);
      assert a[0] == b[0];
      TailCover(a, b);
      CanonicalUnique(a[1..], b[1..]);
      assert a == [a[0]] + a[1..] && b == [b[0]] + b[1..];
    }
  }

  lemma FirstLeast(s: seq<Range>, x: int)
    requires Canonical(s) && s != [] && Covers(s, x)
    ensures s[0].0 <= x
    ensures x <= s[0].1 || s[0].1 + 1 < x
  {
    var i :| 0 <= i < |s| && s[i].0 <= x <= s[i].1;
    if i > 0 { assert s[0].1 + 1 < s[i].0; }
  }

  lemma FirstSame(a: seq<Range>, b: seq<Range>)
    requires Canonical(a) && Canonical(b) && SameCover(a, b) && a != [] && b != []
    ensures a[0] == b[0]
  {
    assert Covers(a, a[0].0) && Covers(b, b[0].0);
    FirstLeast(b, a[0].0);
    FirstLeast(a, b[0].0);
    assert Covers(a, a[0].1) && Covers(b, b[0].1);
    if a[0].1 < b[0].1 {
      assert Covers(b, a[0].1 + 1);
      FirstLeast(a, a[0].1 + 1);
    } else if b[0].1 < a[0].1 {
      assert Covers(a, b[0].1 + 1);
      FirstLeast(b, b[0].1 + 1);
    }
  }

  lemma TailCover(a: seq<Range>, b: seq<Range>)
    requires Canonical(a) && Canonical(b) && SameCover(a, b) && a != [] && b != [] && a[0] == b[0]
    ensures SameCover(a[1..], b[1..]) && Canonical(a[1..]) && Canonical(b[1..])
  {
    forall x: int
      ensures Covers(a[1..], x) <==> Covers(b[1..], x)
    {
      TailOf(a, x);
      TailOf(b, x);
      assert Covers(a, x) <==> Covers(b, x);
    }
  }

  lemma TailOf(s: seq<Range>, x: int)
    requires Canonical(s) && s != []
    ensures Covers(s[1..], x) <==> Covers(s, x) && x > s[0].1
  {
    var t := s[1..];
    if i :| 0 <= i < |t| && t[i].0 <= x <= t[i].1 {
      assert s[i + 1] == t[i];
    }
    if Covers(s, x) && x > s[0].1 {
      var i :| 0 <= i < |s| && s[i].0 <= x <= s[i].1;
      assert t[i - 1] == s[i];
    }
  }

  // ---- the server -----------------------------------------------------------------

  class Server {
    const size: nat
    var ranges: seq<Range>
    var done: bool
    var bytesSent: nat
    /** The requests completed so far, in the order of their completion. */
    ghost var completed: seq<Range>

    ghost predicate Valid()
      reads this
    {
      if size > 0 then
        && NonEmpty(completed) && Within(completed, size)
        && Canonical(ranges) && SameCover(ranges, completed)
        && (done <==> forall x | 0 <= x < size :: Covers(completed, x))
      else
        && OnlyVoid(completed)
        && ranges == (if completed == [] then [] else [(0, -1)])
        && (done <==> completed != [])
    }

    constructor (size: nat)
      ensures Valid() && completed == [] && !done && this.size == size
    {
      this.size := size;
      ranges, done, bytesSent, completed := [], false, 0, [];
      new;
      if size > 0 { assert !Covers(completed, 0); }
    }

    /** A body was sent whole: its range joins the list. */
    method Complete(start: int, end: int)
      requires Valid()
      requires 0 <= start && end < size && (if size > 0 then start <= end else end == -1 && start == 0)
      modifies `ranges, `done, `completed
      ensures Valid() && completed == old(completed) + [(start, end)]
    {
      hide Canonical, SameCover, Sorted;
      ghost var was := completed;
      var list := ranges + [(start, end)];
      SortedIs(list);
      SortedFits(list);
      if size > 0 { CanonicalIsNonEmpty(ranges); }
      ranges := Merge(Sorted(list));
      completed := completed + [(start, end)];
      if size > 0 {
        JoinsCover(was, old(ranges), list, Sorted(list), ranges, (start, end));
        WholeIsOne(ranges, completed, size);
        Keeps(was, (start, end), size);
      }
      if |ranges| == 1 && ranges[0] == (0, size - 1) {
        done := true;
      }
    }

    /**
     The body of `serve_pkg`: chunks are sent until the range is done, the file ends early or
     the connection fails; only a whole body joins the completed ranges.
     */
    method SendBody(start: int, end: int) returns (sent: nat, complete: bool)
      requires Valid()
      requires 0 <= start && end < size && (if size > 0 then start <= end else end == -1 && start == 0)
      modifies this
      ensures Valid() && sent <= end - start + 1 && bytesSent == old(bytesSent) + sent
      ensures complete <==> completed == old(completed) + [(start, end)]
      ensures complete ==> sent == end - start + 1
      ensures !complete ==> completed == old(completed) && ranges == old(ranges) && done == old(done)
    {
      var remaining: nat := end - start + 1;
      sent := 0;
      complete := false;
      var broken: bool := *;
      while remaining > 0 && !broken
        invariant sent + remaining == end - start + 1
        decreases remaining, if broken then 0 else 1
      {
        var chunk: int := *;
        if chunk <= 0 || chunk > remaining || chunk > 64 * 1024 { broken := true; break; }
        broken := *;
        if !broken {
          sent := sent + chunk;
          remaining := remaining - chunk;
        }
      }
      complete := remaining == 0 && !broken;
      bytesSent := bytesSent + sent;
      if complete {
        Complete(start, end);
      }
    }
  }

  ghost predicate Within(s: seq<Range>, size: nat) {
    forall i | 0 <= i < |s| :: 0 <= s[i].0 && s[i].1 < size
  }

  lemma CanonicalIsNonEmpty(s: seq<Range>)
    requires Canonical(s)
    ensures NonEmpty(s)
  {}

  lemma SortedFits(s: seq<Range>)
    ensures NonEmpty(s) ==> NonEmpty(Sorted(s))
    ensures OnlyVoid(s) ==> OnlyVoid(Sorted(s))
    ensures |Sorted(s)| == |s|
  {
    SortedIs(s);
    var t := Sorted(s);
    forall i | 0 <= i < |t|
      ensures t[i] in s
    {
      assert t[i] in multiset(t);
    }
    assert |multiset(t)| == |t|;
  }

  lemma JoinsCover(was: seq<Range>, ranges: seq<Range>, list: seq<Range>, sorted: seq<Range>, merged: seq<Range>,
                   r: Range)
    requires SameCover(ranges, was) && list == ranges + [r] && multiset(sorted) == multiset(list)
      && SameCover(merged, sorted)
    ensures SameCover(merged, was + [r])
  {
    SameElements(sorted, list);
    forall x: int
      ensures Covers(merged, x) <==> Covers(was + [r], x)
    {
      CoversAppend(ranges, r, x);
      CoversAppend(was, r, x);
      assert Covers(ranges, x) <==> Covers(was, x);
      assert Covers(merged, x) <==> Covers(sorted, x);
      assert Covers(sorted, x) <==> Covers(list, x);
    }
  }

  /** One range from first byte to last, exactly when every byte is covered. */
  lemma WholeIsOne(ranges: seq<Range>, completed: seq<Range>, size: nat)
    requires Canonical(ranges) && SameCover(ranges, completed) && Within(completed, size) && size > 0
    ensures ranges == [(0, size - 1)] <==> forall x | 0 <= x < size :: Covers(completed, x)
  {
    var one := [(0, size - 1)];
    assert one[0].0 <= one[0].1;
    if ranges == one {
      forall x | 0 <= x < size
        ensures Covers(completed, x)
      {
        assert one[0].0 <= x <= one[0].1;
        assert Covers(ranges, x);
      }
    }
    if forall x | 0 <= x < size :: Covers(completed, x) {
      forall x: int
        ensures Covers(ranges, x) <==> Covers(one, x)
      {
        if Covers(completed, x) {
          var i :| 0 <= i < |completed| && completed[i].0 <= x <= completed[i].1;
          assert one[0].0 <= x <= one[0].1;
        }
        assert Covers(ranges, x) <==> Covers(completed, x);
      }
      CanonicalUnique(ranges, one);
    }
  }

  /** What was covered stays covered. */
  lemma Keeps(was: seq<Range>, r: Range, size: nat)
    ensures forall x: int :: Covers(was, x) ==> Covers(was + [r], x)
  {
    forall x: int | Covers(was, x)
      ensures Covers(was + [r], x)
    {
      CoversAppend(was, r, x);
    }
  }

  /** The list does not depend on the order in which the requests were completed. */
  lemma OrderDoesNotMatter(a: Server, b: Server)
    requires a.Valid() && b.Valid() && a.size == b.size && multiset(a.completed) == multiset(b.completed)
    ensures a.ranges == b.ranges && a.done == b.done
  {
    if a.size > 0 {
      SameElements(a.completed, b.completed);
      forall x: int
        ensures Covers(a.ranges, x) <==> Covers(b.ranges, x)
      {
        assert Covers(a.ranges, x) <==> Covers(a.completed, x);
        assert Covers(b.ranges, x) <==> Covers(b.completed, x);
        assert Covers(a.completed, x) <==> Covers(b.completed, x);
      }
      CanonicalUnique(a.ranges, b.ranges);
    } else {
      assert |multiset(a.completed)| == |a.completed|;
      assert |multiset(b.completed)| == |b.completed|;
    }
  }
}

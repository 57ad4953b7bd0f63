/**
 What the programme guide answers, from the XMLTV file to `epg_now_next` of
 app/src/epg.c, in terms of the plain guide: no arena, no hash table, no order.
 */
module GuideAsk {
  import opened StrMap
  import opened Guide
  import opened GuideFill
  import opened GuideTexts

  datatype Answer = Nothing | Programme(it: Item)

  // ---- on now and on next, of a list of items ------------------------------------------

  /** The channel a playlist entry is looked up as: by its id, else by its name, else -1. */
  function ChannelOf(p: Plain, id: Text, nk: Text): int {
    if id != [] && IndexOf(p.chans, id) < |p.chans| then IndexOf(p.chans, id)
    else if nk != [] && nk in p.names then p.names[nk]
    else -1
  }

  /** No item of the channel begins after this one and by `now`. */
  ghost predicate BeganLast(items: seq<Item>, c: int, now: int, it: Item) {
    && it in items && it.gch == c && it.start <= now
    && forall o | o in items && o.gch == c && o.start <= now :: o.start <= it.start
  }

  /** The item is the first of the channel to begin after `t`. */
  ghost predicate BeginsNext(items: seq<Item>, c: int, t: int, it: Item) {
    && it in items && it.gch == c && it.start > t
    && forall o | o in items && o.gch == c && o.start > t :: it.start <= o.start
  }

  ghost predicate NoneBegins(items: seq<Item>, c: int, t: int) {
    forall o | o in items && o.gch == c :: o.start <= t
  }

  /** Where an item ends: as given, else where the channel's next begins, else an hour on. */
  ghost predicate EndsAt(items: seq<Item>, it: Item, stop: int) {
    if it.stop != 0 then stop == it.stop
    else
      || (exists n :: BeginsNext(items, it.gch, it.start, n) && stop == n.start)
      || (NoneBegins(items, it.gch, it.start) && stop == (it.start + 3600) % 0x1_0000_0000)
  }

  /** An answer shows an item with its end filled in. */
  ghost predicate Tells(items: seq<Item>, it: Item, shown: Item) {
    shown == it.(stop := shown.stop) && EndsAt(items, it, shown.stop)
  }

  /** On air is what began last, unless it is over. */
  ghost predicate OnNow(items: seq<Item>, c: int, now: int, r: Answer) {
    match r
    case Programme(x) => exists it :: BeganLast(items, c, now, it) && Tells(items, it, x) && now < x.stop
    case Nothing =>
      || (forall o | o in items && o.gch == c :: o.start > now)
      || (exists it, stop :: BeganLast(items, c, now, it) && EndsAt(items, it, stop) && stop <= now)
  }

  ghost predicate OnNext(items: seq<Item>, c: int, now: int, r: Answer) {
    match r
    case Programme(x) => exists it :: BeginsNext(items, c, now, it) && Tells(items, it, x)
    case Nothing => NoneBegins(items, c, now)
  }

  // ---- items and the programmes that stand for them ---------------------------------------

  lemma ShownOf(a: seq<Byte>, pg: seq<Prog>, q: Prog)
    requires q in pg
    ensures ShownProg(a, q) in Shown(a, pg)
  {
    var i :| 0 <= i < |pg| && pg[i] == q;
    assert Shown(a, pg)[i] == ShownProg(a, q);
  }

  lemma ProgOf(a: seq<Byte>, pg: seq<Prog>, o: Item) returns (q: Prog)
    requires o in Shown(a, pg)
    ensures q in pg && ShownProg(a, q) == o
  {
    var i :| 0 <= i < |pg| && Shown(a, pg)[i] == o;
    q := pg[i];
  }

  lemma NextShown(a: seq<Byte>, pg: seq<Prog>, c: int, t: int, n: Prog)
    requires n in pg && n.gch == c && n.start > t
    requires forall m | m in pg && m.gch == c && m.start > t :: n.start <= m.start
    ensures BeginsNext(Shown(a, pg), c, t, ShownProg(a, n))
  {
    hide CStr, Shown;
    ShownOf(a, pg, n);
    forall o | o in Shown(a, pg) && o.gch == c && o.start > t
      ensures n.start <= o.start
    {
      var m := ProgOf(a, pg, o);
    }
  }

  lemma LastShown(a: seq<Byte>, pg: seq<Prog>, c: int, now: int, q: Prog)
    requires q in pg && q.gch == c && q.start <= now
    requires forall m | m in pg && m.gch == c && m.start <= now :: m.start <= q.start
    ensures BeganLast(Shown(a, pg), c, now, ShownProg(a, q))
  {
    hide CStr, Shown;
    ShownOf(a, pg, q);
    forall o | o in Shown(a, pg) && o.gch == c && o.start <= now
      ensures o.start <= q.start
    {
      var m := ProgOf(a, pg, o);
    }
  }

  lemma NoneShown(a: seq<Byte>, pg: seq<Prog>, c: int, t: int)
    requires forall m | m in pg && m.gch == c :: m.start <= t
    ensures NoneBegins(Shown(a, pg), c, t)
  {
    hide CStr, Shown;
    forall o | o in Shown(a, pg) && o.gch == c
      ensures o.start <= t
    {
      var m := ProgOf(a, pg, o);
    }
  }

  lemma EndShown(a: seq<Byte>, pg: seq<Prog>, q: Prog, stop: int)
    requires StopIn(pg, q, stop)
    ensures EndsAt(Shown(a, pg), ShownProg(a, q), stop)
  {
    hide CStr, Shown, BeginsNext, NoneBegins;
    if q.stop == 0 {
      if n :| Follows(pg, q, n) && stop == n.start {
        NextShown(a, pg, q.gch, q.start, n);
      } else {
        forall m | m in pg && m.gch == q.gch
          ensures m.start <= q.start
        {
          assert !After(q, m);
        }
        NoneShown(a, pg, q.gch, q.start);
      }
    }
  }

  // ---- the finished store -------------------------------------------------------------------

  /** The finished programmes are those filled in, ended, and stand for all of them. */
  ghost predicate Closes(all: seq<Prog>, closed: seq<Prog>) {
    (forall p | p in closed :: From(all, p)) && (forall q | q in all :: Kept(closed, q))
  }

  /** A channel's slice. */
  ghost predicate IsSlice(closed: seq<Prog>, c: int, s: seq<Prog>) {
    forall p :: p in s <==> p in closed && p.gch == c
  }

  lemma Source(all: seq<Prog>, closed: seq<Prog>, c: int, s: seq<Prog>, p: Prog) returns (q: Prog)
    requires Closes(all, closed) && IsSlice(closed, c, s) && p in s
    ensures q in all && q.gch == c && p == q.(stop := p.stop) && StopIn(all, q, p.stop)
  {
    assert From(all, p);
    hide StopIn;
    q :| q in all && p == q.(stop := p.stop) && StopIn(all, q, p.stop);
  }

  lemma InSlice(all: seq<Prog>, closed: seq<Prog>, c: int, s: seq<Prog>, m: Prog) returns (p: Prog)
    requires Closes(all, closed) && IsSlice(closed, c, s) && m in all && m.gch == c
    ensures p in s && p.start == m.start
  {
    assert Kept(closed, m);
    hide From;
    p :| p in closed && SameKey(m, p);
  }

  lemma LatestBegan(a: seq<Byte>, all: seq<Prog>, closed: seq<Prog>, c: int, s: seq<Prog>, now: int, i: int)
    returns (q: Prog)
    requires Closes(all, closed) && IsSlice(closed, c, s) && Latest(s, now, i)
    ensures BeganLast(Shown(a, all), c, now, ShownProg(a, q))
    ensures s[i] == q.(stop := s[i].stop) && EndsAt(Shown(a, all), ShownProg(a, q), s[i].stop)
  {
    hide CStr, Shown, BeganLast, EndsAt, Closes, IsSlice, StopIn;
    q := Source(all, closed, c, s, s[i]);
    EndShown(a, all, q, s[i].stop);
    forall m | m in all && m.gch == c && m.start <= now
      ensures m.start <= q.start
    {
      var p := InSlice(all, closed, c, s, m);
    }
    LastShown(a, all, c, now, q);
  }

  lemma EarliestNext(a: seq<Byte>, all: seq<Prog>, closed: seq<Prog>, c: int, s: seq<Prog>, now: int, p: Prog)
    requires Closes(all, closed) && IsSlice(closed, c, s) && exists i :: Earliest(s, now, i) && s[i] == p
    ensures OnNext(Shown(a, all), c, now, Programme(ShownProg(a, p)))
  {
    hide CStr, Shown, BeginsNext, EndsAt, Closes, IsSlice, StopIn;
    var i :| Earliest(s, now, i) && s[i] == p;
    var q := Source(all, closed, c, s, p);
    EndShown(a, all, q, p.stop);
    forall m | m in all && m.gch == c && m.start > now
      ensures q.start <= m.start
    {
      var o := InSlice(all, closed, c, s, m);
    }
    NextShown(a, all, c, now, q);
    assert Tells(Shown(a, all), ShownProg(a, q), ShownProg(a, p));
  }

  lemma NothingNext(a: seq<Byte>, all: seq<Prog>, closed: seq<Prog>, c: int, s: seq<Prog>, now: int)
    requires Closes(all, closed) && IsSlice(closed, c, s) && forall p | p in s :: p.start <= now
    ensures OnNext(Shown(a, all), c, now, Nothing)
  {
    hide CStr, Shown, NoneBegins, Closes, IsSlice;
    forall m | m in all && m.gch == c
      ensures m.start <= now
    {
      var p := InSlice(all, closed, c, s, m);
    }
    NoneShown(a, all, c, now);
  }

  lemma LatestIn(s: seq<Prog>, now: int, i: int)
    requires Latest(s, now, i)
    ensures 0 <= i < |s|
  {}

  lemma OnAirNow(a: seq<Byte>, all: seq<Prog>, closed: seq<Prog>, c: int, s: seq<Prog>, now: int, p: Prog)
    requires Closes(all, closed) && IsSlice(closed, c, s) && now < p.stop
    requires exists i :: Latest(s, now, i) && s[i] == p
    ensures OnNow(Shown(a, all), c, now, Programme(ShownProg(a, p)))
  {
    hide CStr, Shown, BeganLast, EndsAt, Closes, IsSlice;
    var i :| Latest(s, now, i) && s[i] == p;
    hide Latest;
    LatestIn(s, now, i);
    var q := LatestBegan(a, all, closed, c, s, now, i);
    assert Tells(Shown(a, all), ShownProg(a, q), ShownProg(a, s[i]));
  }

  lemma NothingNow(a: seq<Byte>, all: seq<Prog>, closed: seq<Prog>, c: int, s: seq<Prog>, now: int)
    requires Closes(all, closed) && IsSlice(closed, c, s) && StartsIncrease(s)
    requires forall i | Latest(s, now, i) :: s[i].stop <= now
    ensures OnNow(Shown(a, all), c, now, Nothing)
  {
    hide CStr, Shown, BeganLast, EndsAt, Closes, IsSlice, Latest, StartsIncrease;
    var lo := Started(s, now, |s|);
    Boundary(s, now, lo);
    if lo > 0 {
      var q := LatestBegan(a, all, closed, c, s, now, lo - 1);
    } else {
      forall o | o in Shown(a, all) && o.gch == c
        ensures o.start > now
      {
        var m := ProgOf(a, all, o);
        var p := InSlice(all, closed, c, s, m);
        NotBegun(s, now, p);
      }
    }
  }

  lemma NotBegun(s: seq<Prog>, now: int, p: Prog)
    requires StartsIncrease(s) && (s != [] ==> s[0].start > now) && p in s
    ensures p.start > now
  {
    var i :| 0 <= i < |s| && s[i] == p;
  }

  // ---- from the file to the answer -------------------------------------------------------------

  /** `epg_now_next` on a finished guide, with the texts of what it finds. */
  method NowNextOf(f: Filler, g: Store, tvgId: Text, name: Text, now: int) returns (on: Answer, next: Answer)
    requires f.Valid() && g.Ready() && Closes(f.pg, Finished(g))
    ensures var c := ChannelOf(f.View(), Lower(tvgId), f.nameKey(name));
      OnNow(f.View().items, c, now, on) && OnNext(f.View().items, c, now, next)
  {
    hide *;
    var c := FindChannel(f, tvgId, name);
    var p, q := g.NowNext(c, now);
    g.SliceIsChannel(c);
    ghost var a, all, closed, s := f.ar.a, f.pg, Finished(g), g.Slice(c);
    ViewShows(f);
    SliceIs(closed, c, s);
    on, next := Nothing, Nothing;
    if p.Some? {
      on := Programme(ShownProg(f.ar.a, p.p));
      OnAirNow(a, all, closed, c, s, now, p.p);
    } else {
      NothingNow(a, all, closed, c, s, now);
    }
    if q.Some? {
      next := Programme(ShownProg(f.ar.a, q.p));
      EarliestNext(a, all, closed, c, s, now, q.p);
    } else {
      NothingNext(a, all, closed, c, s, now);
    }
  }

  ghost function Finished(g: Store): (s: seq<Prog>)
    requires g.Ready()
    reads g, g.pg, g.ch
    ensures g.pgN <= g.pg.Length && s == g.pg[..g.pgN]
  {
    g.pg[..g.pgN]
  }

  lemma ViewShows(f: Filler)
    ensures f.View().items == Shown(f.ar.a, f.pg)
  {}

  lemma SliceIs(closed: seq<Prog>, c: int, s: seq<Prog>)
    requires forall p :: p in s <==> p in closed && p.gch == c
    ensures IsSlice(closed, c, s)
  {}

  lemma ClosesIs(all: seq<Prog>, closed: seq<Prog>)
    requires (forall p | p in closed :: From(all, p)) && (forall q | q in all :: Kept(closed, q))
    ensures Closes(all, closed)
  {}

  method FindChannel(f: Filler, tvgId: Text, name: Text) returns (c: int)
    requires f.Valid()
    ensures c == ChannelOf(f.View(), Lower(tvgId), f.nameKey(name))
  {
    hide Filler.Valid, Filler.View, Lower;
    c := f.Find(tvgId, name);
  }

  /** The item is a programme of the file, with its start and texts, on the channel asked for: the one of this
      id, or where there is none of this name. */
  ghost predicate FromFile(es: seq<Event>, p: Plain, id: Text, nk: Text, it: Item) {
    && (exists e :: e in es && e.OfProgramme? && StandsFor(it, e.q, p.chans))
    && it.gch < |p.chans|
    && if id != [] && id in p.chans then p.chans[it.gch] == id else nk != [] && nk in p.names && p.names[nk] == it.gch
  }

  lemma StandsShown(it: Item, x: Item, q: Parsed, chans: seq<Text>)
    requires StandsFor(it, q, chans) && x == it.(stop := x.stop)
    ensures StandsFor(x, q, chans)
  {
  }

  lemma AnswerFromFile(f: Filling, w: Want, nameKey: Text -> Text, es: seq<Event>, id: Text, nk: Text, it: Item,
                       x: Item)
    requires f.p.items == [] && it in FedTo(f, w, nameKey, es).p.items && x == it.(stop := x.stop)
    requires it.gch == ChannelOf(FedTo(f, w, nameKey, es).p, id, nk)
    ensures FromFile(es, FedTo(f, w, nameKey, es).p, id, nk, x)
  {
    hide FedTo, Shows, Names;
    var p := FedTo(f, w, nameKey, es).p;
    ItemsStand(f, w, nameKey, es, it);
    KnownIndex(p.chans, id);
    var e :| e in es && e.OfProgramme? && StandsFor(it, e.q, p.chans);
    StandsShown(it, x, e.q, p.chans);
  }

  lemma AnswersFromFile(f: Filling, w: Want, nameKey: Text -> Text, es: seq<Event>, id: Text, nk: Text, now: int,
                        on: Answer, next: Answer)
    requires f.p.items == []
    requires var p := FedTo(f, w, nameKey, es).p;
      OnNow(p.items, ChannelOf(p, id, nk), now, on) && OnNext(p.items, ChannelOf(p, id, nk), now, next)
    ensures var p := FedTo(f, w, nameKey, es).p;
      (on.Programme? ==> FromFile(es, p, id, nk, on.it)) && (next.Programme? ==> FromFile(es, p, id, nk, next.it))
  {
    hide FedTo, FromFile, EndsAt, ChannelOf;
    var p := FedTo(f, w, nameKey, es).p;
    var c := ChannelOf(p, id, nk);
    if on.Programme? {
      var it :| BeganLast(p.items, c, now, it) && Tells(p.items, it, on.it);
      AnswerFromFile(f, w, nameKey, es, id, nk, it, on.it);
    }
    if next.Programme? {
      var it :| BeginsNext(p.items, c, now, it) && Tells(p.items, it, next.it);
      AnswerFromFile(f, w, nameKey, es, id, nk, it, next.it);
    }
  }

  /**
   A file is read, the guide is finished and asked.  Where memory does not fail and the texts
   fit the arena, the answers are those of the plain guide of the file, descriptions kept as
   long as three quarters were not taken, and what they show is programmes of the file; where the
   texts fit three quarters, with every description.
   */
  method Ask(f: Filler, es: seq<Event>, tvgId: Text, name: Text, now: int)
    returns (on: Answer, next: Answer)
    requires f.Valid() && f.View() == Plain([], map[], [])
    modifies f, f.ar, f.ids, f.ids.key, f.ids.val, f.strs, f.strs.key, f.strs.val, f.names, f.names.key, f.names.val
    ensures var r := FedTo(Filling(Plain([], map[], []), old(f.Taken())), f.want, f.nameKey, es);
      !f.ar.mayFail && r.shelf.size <= MAX_ARENA ==>
      var c := ChannelOf(r.p, Lower(tvgId), f.nameKey(name));
      OnNow(r.p.items, c, now, on) && OnNext(r.p.items, c, now, next)
    ensures var r := FedTo(Filling(Plain([], map[], []), old(f.Taken())), f.want, f.nameKey, es);
      !f.ar.mayFail && r.shelf.size <= MAX_ARENA ==>
      && (on.Programme? ==> FromFile(es, r.p, Lower(tvgId), f.nameKey(name), on.it))
      && (next.Programme? ==> FromFile(es, r.p, Lower(tvgId), f.nameKey(name), next.it))
    ensures !f.ar.mayFail && |old(f.ar.a)| + FileRoom(f.nameKey, es) < MAX_ARENA / 4 * 3 ==>
      var p := Fed(Plain([], map[], []), f.want, f.nameKey, es, seq(|es|, i => true));
      var c := ChannelOf(p, Lower(tvgId), f.nameKey(name));
      OnNow(p.items, c, now, on) && OnNext(p.items, c, now, next)
  {
    hide *;
    ghost var hurt, keeps := f.Feed(es);
    ghost var p := f.View();
    var g := Close(f);
    ClosesIs(f.pg, Finished(g));
    on, next := NowNextOf(f, g, tvgId, name, now);
    if !hurt {
      ghost var empty := Filling(Plain([], map[], []), old(f.Taken()));
      AnswersFromFile(empty, f.want, f.nameKey, es, Lower(tvgId), f.nameKey(name), now, on, next);
    }
    assert !hurt && (forall i | 0 <= i < |es| :: keeps[i]) ==> keeps == seq(|es|, i => true);
  }
}

/**
 Whose texts the programme guide shows: every item of a guide filled from a file is a
 programme of that file, under its own channel, with its own start and texts, and every
 programme that is on air or begins within 36 hours has one while there is room.
 */
module GuideTexts {
  import opened StrMap
  import opened Guide
  import opened GuideFill

  // ---- ids ------------------------------------------------------------------------------

  predicate IsUpper(b: Byte) { 'A' as int <= b <= 'Z' as int }

  /** The same byte, or the same letter in the other case. */
  predicate SameLetter(a: Byte, b: Byte) {
    a == b || (IsUpper(a) && b == a + 32) || (IsUpper(b) && a == b + 32)
  }

  predicate SameLetters(s: Text, t: Text) {
    |s| == |t| && forall i | 0 <= i < |s| :: SameLetter(s[i], t[i])
  }

  /** Ids are one channel if and only if they differ in letter case at most. */
  lemma LowerSame(s: Text, t: Text)
    requires |s| < 256 && |t| < 256
    ensures Lower(s) == Lower(t) <==> SameLetters(s, t)
  {
    if Lower(s) == Lower(t) {
      forall i | 0 <= i < |s|
        ensures SameLetter(s[i], t[i])
      {
        assert Lower(s)[i] == LowerByte(s[i]) && Lower(t)[i] == LowerByte(t[i]);
      }
    }
    if SameLetters(s, t) {
      assert forall i | 0 <= i < |s| :: SameLetter(s[i], t[i]) && LowerByte(s[i]) == LowerByte(t[i]);
    }
  }

  /** An id is the lower case of a longer one's first 255 bytes. */
  ghost predicate Names(id: Text, raw: Text) {
    && |id| == (if |raw| < 256 then |raw| else 255)
    && SameLetters(id, raw[..|id|]) && forall b | b in id :: !IsUpper(b)
  }

  lemma LowerNames(raw: Text)
    ensures Names(Lower(raw), raw)
  {
    var id := Lower(raw);
    assert forall i | 0 <= i < |id| :: id[i] == LowerByte(raw[i]) && SameLetter(id[i], raw[..|id|][i]);
  }

  // ---- texts ----------------------------------------------------------------------------

  predicate Begins(b: Byte) { b < 0x80 || b >= 0xC0 }

  /** The text itself, or as much of a longer one as fits and ends where a character begins. */
  ghost predicate Shows(t: Text, s: Text, max: nat) {
    if |s| <= max then t == s
    else
      && |t| <= max && t <= s && (t != [] ==> Begins(s[|t|]))
      && forall j | |t| < j <= max :: !Begins(s[j])
  }

  lemma ClipShows(s: Text, max: nat)
    ensures Shows(Clip(s, max), s, max)
  {
  }

  /** An item stands for a programme, whatever end it was given. */
  ghost predicate StandsFor(it: Item, q: Parsed, chans: seq<Text>) {
    && it.start == q.start
    && Shows(it.title, q.title, 256) && Shows(it.sub, q.sub, 256) && Shows(it.cat, q.cat, 64)
    && (it.desc == [] || Shows(it.desc, q.desc, 400))
    && it.gch < |chans| && Names(chans[it.gch], q.channel)
  }

  /** The end as given, if it is one; 0 is filled in later. */
  predicate EndGiven(it: Item, q: Parsed) {
    it.stop == if q.start < q.stop < 0x1_0000_0000 then q.stop else 0
  }

  // ---- one programme ---------------------------------------------------------------------

  /** Its channel is there, or the playlist asks for it by this id. */
  predicate Known(p: Plain, w: Want, q: Parsed) {
    Lower(q.channel) in p.chans || (Lower(q.channel) != [] && Lower(q.channel) in w.ids)
  }

  /** It is on air, begins within 36 hours, or was over less than three hours ago; without an end of its own it
      is taken to last four hours. */
  predicate Timely(now: int, q: Parsed) {
    && q.start - now < 36 * 3600
    && now - (if q.start < q.stop then q.stop else q.start + 4 * 3600) < 3 * 3600
  }

  predicate Stored(q: Parsed) { 1 <= q.start < 0x1_0000_0000 }

  lemma OnAirTimely(now: int, q: Parsed)
    requires q.start <= now < q.stop || now <= q.start < now + 36 * 3600
    ensures Timely(now, q)
  {
  }

  lemma KnownIndex(chans: seq<Text>, id: Text)
    ensures IndexOf(chans, id) < |chans| <==> id in chans
  {
  }

  /** A programme is entered, last, if and only if it is known, timely and there is room; and nothing else changes
      but that its channel may be new. */
  lemma Enters(f: Filling, w: Want, q: Parsed)
    ensures var (p, p') := (f.p, OnProgrammeFilling(f, w, q).p);
      && p.chans <= p'.chans && p.names == p'.names
      && (if Known(p, w, q) && Timely(w.now, q) && Stored(q) && |p.items| < 200000
          then |p'.items| == |p.items| + 1 && p.items <= p'.items
            && StandsFor(p'.items[|p.items|], q, p'.chans) && EndGiven(p'.items[|p.items|], q)
          else p'.items == p.items)
  {
    hide Lower, Clip, Names, Shows;
    KnownIndex(f.p.chans, Lower(q.channel));
    LowerNames(q.channel);
    ClipShows(q.title, TEXT_MAX);
    ClipShows(q.sub, TEXT_MAX);
    ClipShows(q.cat, 64);
    ClipShows(q.desc, DESC_KEEP);
  }

  // ---- one channel ------------------------------------------------------------------------

  /** The playlist asks for a channel by its id or by one of its names. */
  ghost predicate AskedFor(w: Want, nameKey: Text -> Text, id: Text, rawNames: seq<Text>) {
    id in w.ids || exists n :: n in rawNames && nameKey(n) != [] && nameKey(n) in w.names
  }

  ghost predicate HasName(nameKey: Text -> Text, rawNames: seq<Text>, k: seq<Byte>) {
    k != [] && exists n :: n in rawNames && nameKey(n) == k
  }

  /** A channel is entered, last, if and only if it has an id, is new and asked for; its names then lead to it,
      but for those that lead to another already. */
  lemma ChannelEnters(f: Filling, w: Want, nameKey: Text -> Text, id: Text, rawNames: seq<Text>)
    ensures var (p, p', low) := (f.p, OnEventFilling(f, w, nameKey, OfChannel(id, rawNames)).p, Lower(id));
      if low != [] && low !in p.chans && AskedFor(w, nameKey, low, rawNames)
      then p'.chans == p.chans + [low] && p'.items == p.items
        && (forall k :: k in p'.names <==> k in p.names || HasName(nameKey, rawNames, k))
        && (forall k | k in p'.names :: p'.names[k] == if k in p.names then p.names[k] else |p.chans|)
      else p' == p
  {
    hide Lower;
    var keys := KeysOf(nameKey, rawNames);
    KnownIndex(f.p.chans, Lower(id));
    KeysAre(nameKey, rawNames);
    WantedIs(w, nameKey, Lower(id), rawNames);
    NamedIs(f.p.names, keys, |f.p.chans|);
    hide KeysOf, Named, Wanted;
    assert forall k :: HasName(nameKey, rawNames, k) <==> k != [] && k in keys;
  }

  lemma KeysAre(nameKey: Text -> Text, rawNames: seq<Text>)
    ensures forall k :: k in KeysOf(nameKey, rawNames) <==> exists n :: n in rawNames && nameKey(n) == k
  {
    var keys := KeysOf(nameKey, rawNames);
    assert forall i | 0 <= i < |keys| :: rawNames[i] in rawNames && keys[i] in keys;
  }

  lemma WantedIs(w: Want, nameKey: Text -> Text, id: Text, rawNames: seq<Text>)
    ensures Wanted(w, id, KeysOf(nameKey, rawNames)) <==> AskedFor(w, nameKey, id, rawNames)
  {
    var keys := KeysOf(nameKey, rawNames);
    if n :| n in rawNames && nameKey(n) != [] && nameKey(n) in w.names {
      var i :| 0 <= i < |rawNames| && rawNames[i] == n;
      assert keys[i] == nameKey(n);
    }
  }

  lemma {:induction false} NamedIs(m: map<seq<Byte>, nat>, keys: seq<Text>, c: nat)
    ensures forall k :: k in Named(m, keys, c) <==> k in m || (k != [] && k in keys)
    ensures forall k | k in Named(m, keys, c) :: Named(m, keys, c)[k] == if k in m then m[k] else c
  {
    if keys != [] {
      NamedIs(m, keys[..|keys| - 1], c);
      assert keys == keys[..|keys| - 1] + [keys[|keys| - 1]];
    }
  }

  // ---- a whole file -----------------------------------------------------------------------

  lemma EventGrows(f: Filling, w: Want, nameKey: Text -> Text, e: Event)
    ensures var (p, p') := (f.p, OnEventFilling(f, w, nameKey, e).p);
      && p.chans <= p'.chans && p.items <= p'.items && (e.OfChannel? ==> p'.items == p.items)
  {
    hide Lower, ItemOf, Named, KeysOf;
    if e.OfProgramme? { Enters(f, w, e.q); }
  }

  lemma {:induction false} FileGrows(f: Filling, w: Want, nameKey: Text -> Text, es: seq<Event>, j: nat)
    requires j <= |es|
    ensures var (p, p') := (FedTo(f, w, nameKey, es[..j]).p, FedTo(f, w, nameKey, es).p);
      p.chans <= p'.chans && p.items <= p'.items
    decreases |es|
  {
    if j == |es| {
      assert es[..j] == es;
    } else {
      var front := es[..|es| - 1];
      assert front[..j] == es[..j];
      FileGrows(f, w, nameKey, front, j);
      EventGrows(FedTo(f, w, nameKey, front), w, nameKey, es[|es| - 1]);
    }
  }

  lemma StandsLater(it: Item, q: Parsed, chans: seq<Text>, more: seq<Text>)
    requires StandsFor(it, q, chans) && chans <= more
    ensures StandsFor(it, q, more)
  {
  }

  /** Every item of a filled guide stands for a programme of the file, or was there before. */
  lemma {:induction false} ItemsStand(f: Filling, w: Want, nameKey: Text -> Text, es: seq<Event>, it: Item)
    requires it in FedTo(f, w, nameKey, es).p.items
    ensures it in f.p.items || exists e ::
      e in es && e.OfProgramme? && EndGiven(it, e.q) && StandsFor(it, e.q, FedTo(f, w, nameKey, es).p.chans)
    decreases |es|
  {
    hide OnEventFilling, StandsFor, EndGiven, Timely, Known, Stored;
    if es != [] {
      var front, e := es[..|es| - 1], es[|es| - 1];
      var g := FedTo(f, w, nameKey, front);
      var g' := OnEventFilling(g, w, nameKey, e);
      assert g' == FedTo(f, w, nameKey, es);
      EventGrows(g, w, nameKey, e);
      if it in g.p.items {
        ItemsStand(f, w, nameKey, front, it);
        if it !in f.p.items {
          var o :| o in front && o.OfProgramme? && EndGiven(it, o.q) && StandsFor(it, o.q, g.p.chans);
          StandsLater(it, o.q, g.p.chans, g'.p.chans);
          assert o in es;
        }
      } else {
        ProgrammeOnly(g, w, nameKey, e);
        Enters(g, w, e.q);
        LastIs(g.p.items, g'.p.items, it);
        assert e in es;
      }
    }
  }

  lemma ProgrammeOnly(f: Filling, w: Want, nameKey: Text -> Text, e: Event)
    ensures e.OfProgramme? ==> OnEventFilling(f, w, nameKey, e) == OnProgrammeFilling(f, w, e.q)
  {
  }

  lemma LastIs(a: seq<Item>, b: seq<Item>, it: Item)
    requires a <= b && |b| <= |a| + 1 && it in b && it !in a
    ensures |b| == |a| + 1 && it == b[|a|]
  {
    var i :| 0 <= i < |b| && b[i] == it;
    assert b[..|a|] == a;
  }

  lemma FedNext(f: Filling, w: Want, nameKey: Text -> Text, es: seq<Event>, j: nat)
    requires j < |es|
    ensures FedTo(f, w, nameKey, es[..j + 1]) == OnEventFilling(FedTo(f, w, nameKey, es[..j]), w, nameKey, es[j])
  {
    hide OnEventFilling;
    assert es[..j + 1][..j] == es[..j];
  }

  /** Every programme of a known channel that is on air or soon to begin has its item, while there is room. */
  lemma ProgrammeShown(f: Filling, w: Want, nameKey: Text -> Text, es: seq<Event>, j: nat) returns (it: Item)
    requires j < |es| && es[j].OfProgramme?
    requires var (q, p) := (es[j].q, FedTo(f, w, nameKey, es[..j]).p);
      && Known(p, w, q) && Stored(q) && |p.items| < 200000
      && (q.start <= w.now < q.stop || w.now <= q.start < w.now + 36 * 3600)
    ensures var p := FedTo(f, w, nameKey, es).p;
      it in p.items && StandsFor(it, es[j].q, p.chans) && EndGiven(it, es[j].q)
  {
    hide OnEventFilling, OnProgrammeFilling, StandsFor, EndGiven, Known, Stored, Timely, FedTo;
    var q, g := es[j].q, FedTo(f, w, nameKey, es[..j]);
    OnAirTimely(w.now, q);
    Enters(g, w, q);
    ProgrammeOnly(g, w, nameKey, es[j]);
    FedNext(f, w, nameKey, es, j);
    FileGrows(f, w, nameKey, es, j + 1);
    var p1, p := FedTo(f, w, nameKey, es[..j + 1]).p, FedTo(f, w, nameKey, es).p;
    it := p1.items[|g.p.items|];
    assert p.items[|g.p.items|] == it;
    StandsLater(it, q, p1.chans, p.chans);
  }
}

/**
 Filling the programme store of app/src/guide.c: channels and programmes as the XMLTV
 parser hands them over, kept as arena offsets and two string maps, against a plain
 mathematical guide of texts.
 */
module GuideFill {
  import opened StrMap
  import opened Guide

  const MAX_PROGS := 200000
  const MAX_ARENA := 0x100_0000
  const DESC_KEEP := 400
  const TEXT_MAX := 256
  const BACK_SEC := 3 * 3600
  const AHEAD_SEC := 36 * 3600

  // ---- texts ------------------------------------------------------------------------

  function LowerByte(b: Byte): Byte {
    if 'A' as int <= b <= 'Z' as int then b + 32 else b
  }

  /** `lower_copy` into 256 bytes: at most 255 of them, in lower case. */
  function Lower(s: Text): (r: Text)
    ensures |r| == if |s| < 256 then |s| else 255
  {
    var n := if |s| < 256 then |s| else 255;
    var r := seq<Byte>(n, i requires 0 <= i < n => LowerByte(s[i]));
    assert forall i | 0 <= i < n :: s[i] in s && r[i] != 0;
    r
  }

  /** A byte inside a UTF-8 sequence. */
  predicate Inside(b: Byte) { 0x80 <= b < 0xC0 }

  function Back(s: Text, n: nat): (m: nat)
    requires n < |s|
    ensures m <= n && (m > 0 ==> !Inside(s[m])) && forall j | m < j <= n :: Inside(s[j])
  {
    if n > 0 && Inside(s[n]) then Back(s, n - 1) else n
  }

  /** At most `max` bytes of a text, cut where a character begins. */
  function Clip(s: Text, max: nat): (r: Text)
    ensures |r| <= max && r <= s && (|s| <= max ==> r == s)
    ensures |s| > max ==> (|r| > 0 ==> !Inside(s[|r|])) && forall j | |r| < j <= max :: Inside(s[j])
  {
    if |s| <= max then s else s[..Back(s, max)]
  }

  // ---- the plain guide -------------------------------------------------------------------

  datatype Item = Item(start: Word32, stop: Word32, title: Text, sub: Text, cat: Text, desc: Text, gch: nat)

  /** Channels by their lower-case ids, name keys with their channel, and programmes. */
  datatype Plain = Plain(chans: seq<Text>, names: map<seq<Byte>, nat>, items: seq<Item>)

  function IndexOf(s: seq<Text>, x: Text): (i: nat)
    ensures i <= |s| && (i < |s| ==> s[i] == x) && forall j | 0 <= j < i :: s[j] != x
  {
    if s == [] || s[0] == x then 0 else 1 + IndexOf(s[1..], x)
  }

  /** What the playlist wants, and the window of time. */
  datatype Want = Want(ids: set<seq<Byte>>, names: set<seq<Byte>>, now: int)

  /** The first channel of a name keeps it. */
  function Named(m: map<seq<Byte>, nat>, keys: seq<Text>, c: nat): map<seq<Byte>, nat> {
    if keys == [] then m
    else
      var front := Named(m, keys[..|keys| - 1], c);
      var k := keys[|keys| - 1];
      if k == [] || k in front then front else front[k := c]
  }

  predicate Wanted(w: Want, id: Text, keys: seq<Text>) {
    id in w.ids || exists i :: 0 <= i < |keys| && keys[i] != [] && keys[i] in w.names
  }

  /** A channel is entered once, if the playlist wants it by id or by name. */
  function OnChannelPlain(p: Plain, w: Want, id: Text, keys: seq<Text>): Plain {
    if id == [] || IndexOf(p.chans, id) < |p.chans| || !Wanted(w, id, keys) then p
    else Plain(p.chans + [id], Named(p.names, keys, |p.chans|), p.items)
  }

  /** A programme as parsed. */
  datatype Parsed = Parsed(channel: Text, start: int, stop: int, title: Text, sub: Text, cat: Text, desc: Text)

  predicate InWindow(w: Want, q: Parsed) {
    var stop := if q.stop > q.start then q.stop else q.start + 4 * 3600;
    q.start < w.now + AHEAD_SEC && stop > w.now - BACK_SEC && 0 < q.start <= 0xFFFF_FFFF
  }

  /** The item for a programme of the window; the description only while there is room for descriptions. */
  function ItemOf(q: Parsed, gch: nat, keepDesc: bool): (i: Item)
    requires 0 < q.start <= 0xFFFF_FFFF
  {
    Item(q.start, if q.stop > q.start && q.stop <= 0xFFFF_FFFF then q.stop else 0,
         Clip(q.title, TEXT_MAX), Clip(q.sub, TEXT_MAX), Clip(q.cat, 64),
         if keepDesc then Clip(q.desc, DESC_KEEP) else [], gch)
  }

  /** A programme's channel is known, or its id is wanted and it becomes a channel of its own. */
  function OnProgrammePlain(p: Plain, w: Want, q: Parsed, keepDesc: bool): Plain {
    var id := Lower(q.channel);
    var c := IndexOf(p.chans, id);
    if c == |p.chans| && (id == [] || id !in w.ids) then p
    else
      var p1 := if c == |p.chans| then p.(chans := p.chans + [id]) else p;
      EnterPlain(p1, w, q, c, keepDesc)
  }

  function EnterPlain(p: Plain, w: Want, q: Parsed, c: nat, keepDesc: bool): Plain {
    if !InWindow(w, q) || |p.items| >= MAX_PROGS then p
    else p.(items := p.items + [ItemOf(q, c, keepDesc)])
  }

  function KeysOf(nameKey: Text -> Text, rawNames: seq<Text>): (keys: seq<Text>)
    ensures |keys| == |rawNames| && forall i | 0 <= i < |keys| :: keys[i] == nameKey(rawNames[i])
  {
    seq<Text>(|rawNames|, i requires 0 <= i < |rawNames| => nameKey(rawNames[i]))
  }

  /** What the parser hands over, in the order of the file. */
  datatype Event = OfChannel(id: Text, rawNames: seq<Text>) | OfProgramme(q: Parsed)

  function OnEventPlain(p: Plain, w: Want, nameKey: Text -> Text, e: Event, keepDesc: bool): Plain {
    match e
    case OfChannel(id, rawNames) => OnChannelPlain(p, w, Lower(id), KeysOf(nameKey, rawNames))
    case OfProgramme(q) => OnProgrammePlain(p, w, q, keepDesc)
  }

  /** The plain guide of a whole file; `keeps` says where there was room for descriptions. */
  function Fed(p: Plain, w: Want, nameKey: Text -> Text, es: seq<Event>, keeps: seq<bool>): Plain
    requires |keeps| == |es|
  {
    if es == [] then p
    else
      var n := |es| - 1;
      OnEventPlain(Fed(p, w, nameKey, es[..n], keeps[..n]), w, nameKey, es[n], keeps[n])
  }

  // ---- what is taken of the arena ----------------------------------------------------------

  /** The texts interned so far, and the length of the arena. */
  datatype Shelf = Shelf(texts: set<seq<Byte>>, size: nat)

  /** A text is put in unless it is empty or there. */
  function Shelve(h: Shelf, s: Text, max: nat): (r: Shelf)
    ensures h.size <= r.size <= h.size + Room(s, max)
  {
    if s == [] || Clip(s, max) in h.texts then h else Shelf(h.texts + {Clip(s, max)}, h.size + |Clip(s, max)| + 1)
  }

  /** Category and description; none of the latter once three quarters are taken. */
  function ShelveRest(h: Shelf, q: Parsed): (r: Shelf)
    ensures h.size <= r.size <= h.size + Room(q.cat, 64) + Room(q.desc, DESC_KEEP)
  {
    var c := Shelve(h, q.cat, 64);
    if c.size < MAX_ARENA / 4 * 3 then Shelve(c, q.desc, DESC_KEEP) else c
  }

  function ShelveFirst(h: Shelf, q: Parsed): (r: Shelf)
    ensures h.size <= r.size <= h.size + Room(q.title, TEXT_MAX) + Room(q.sub, TEXT_MAX)
  {
    Shelve(Shelve(h, q.title, TEXT_MAX), q.sub, TEXT_MAX)
  }

  function ShelveItem(h: Shelf, q: Parsed): (r: Shelf)
    ensures h.size <= r.size <= h.size + ItemRoom(q)
  {
    ShelveRest(ShelveFirst(h, q), q)
  }

  /** Whether a programme keeps its description. */
  predicate KeepsDesc(h: Shelf, q: Parsed) {
    Shelve(ShelveFirst(h, q), q.cat, 64).size < MAX_ARENA / 4 * 3
  }

  /** What new name keys take. */
  function NamesTake(m: map<seq<Byte>, nat>, keys: seq<Text>, c: nat): (n: nat)
    ensures n <= KeysRoom(keys)
  {
    if keys == [] then 0
    else
      var front, k := keys[..|keys| - 1], keys[|keys| - 1];
      NamesTake(m, front, c) + (if k == [] || k in Named(m, front, c) then 0 else |k| + 1)
  }

  function ChannelTakes(p: Plain, w: Want, id: Text, keys: seq<Text>): (n: nat)
    ensures n <= |id| + 1 + KeysRoom(keys)
  {
    if id == [] || IndexOf(p.chans, id) < |p.chans| || !Wanted(w, id, keys) then 0
    else |id| + 1 + NamesTake(p.names, keys, |p.chans|)
  }

  /** A guide with what it has taken of the arena. */
  datatype Filling = Filling(p: Plain, shelf: Shelf)

  /** The shelf once a programme's channel is there. */
  function WithChannel(f: Filling, w: Want, id: Text): (h: Shelf)
    ensures f.shelf.size <= h.size <= f.shelf.size + |id| + 1
  {
    if IndexOf(f.p.chans, id) == |f.p.chans| && id != [] && id in w.ids then f.shelf.(size := f.shelf.size + |id| + 1)
    else f.shelf
  }

  predicate Entered(p: Plain, w: Want, q: Parsed) {
    var id := Lower(q.channel);
    && (IndexOf(p.chans, id) < |p.chans| || (id != [] && id in w.ids))
    && InWindow(w, q) && |p.items| < MAX_PROGS
  }

  function OnProgrammeFilling(f: Filling, w: Want, q: Parsed): (r: Filling)
    ensures f.shelf.size <= r.shelf.size <= f.shelf.size + |Lower(q.channel)| + 1 + ItemRoom(q)
  {
    var h := WithChannel(f, w, Lower(q.channel));
    Filling(OnProgrammePlain(f.p, w, q, KeepsDesc(h, q)), if Entered(f.p, w, q) then ShelveItem(h, q) else h)
  }

  function OnEventFilling(f: Filling, w: Want, nameKey: Text -> Text, e: Event): (r: Filling)
    ensures f.shelf.size <= r.shelf.size <= f.shelf.size + EventRoom(nameKey, e)
  {
    match e
    case OfChannel(id, rawNames) =>
      var keys := KeysOf(nameKey, rawNames);
      Filling(OnChannelPlain(f.p, w, Lower(id), keys),
              f.shelf.(size := f.shelf.size + ChannelTakes(f.p, w, Lower(id), keys)))
    case OfProgramme(q) => OnProgrammeFilling(f, w, q)
  }

  /** The guide of a whole file, and what it takes: what there is room for follows from the file. */
  function FedTo(f: Filling, w: Want, nameKey: Text -> Text, es: seq<Event>): (r: Filling)
    ensures f.shelf.size <= r.shelf.size <= f.shelf.size + FileRoom(nameKey, es)
  {
    if es == [] then f
    else OnEventFilling(FedTo(f, w, nameKey, es[..|es| - 1]), w, nameKey, es[|es| - 1])
  }

  // ---- the room it takes ------------------------------------------------------------------

  /** Room in the arena for a text clipped to `max`. */
  function Room(s: Text, max: nat): nat { |Clip(s, max)| + 1 }

  /** Room for the texts of a programme, and for its channel. */
  function ItemRoom(q: Parsed): nat {
    Room(q.title, TEXT_MAX) + Room(q.sub, TEXT_MAX) + Room(q.cat, 64) + Room(q.desc, DESC_KEEP)
  }

  function KeysRoom(keys: seq<Text>): nat {
    if keys == [] then 0 else KeysRoom(keys[..|keys| - 1]) + |keys[|keys| - 1]| + 1
  }

  function EventRoom(nameKey: Text -> Text, e: Event): nat {
    match e
    case OfChannel(id, rawNames) => |Lower(id)| + 1 + KeysRoom(KeysOf(nameKey, rawNames))
    case OfProgramme(q) => |Lower(q.channel)| + 1 + ItemRoom(q)
  }

  /** Room enough for a file, were no text shared. */
  function FileRoom(nameKey: Text -> Text, es: seq<Event>): nat {
    if es == [] then 0 else FileRoom(nameKey, es[..|es| - 1]) + EventRoom(nameKey, es[|es| - 1])
  }

  /** The programme would be entered, but for the number of programmes. */
  predicate Full(p: Plain, w: Want, q: Parsed) {
    var id := Lower(q.channel);
    && (IndexOf(p.chans, id) < |p.chans| || (id != [] && id in w.ids))
    && InWindow(w, q) && |p.items| >= MAX_PROGS
  }

  // ---- offsets and what they stand for ------------------------------------------------

  function ShownProg(a: seq<Byte>, p: Prog): Item {
    Item(p.start, p.stop, CStr(a, p.title), CStr(a, p.sub), CStr(a, p.cat), CStr(a, p.desc), p.gch)
  }

  function Shown(a: seq<Byte>, pg: seq<Prog>): (r: seq<Item>)
    ensures |r| == |pg|
  {
    seq<Item>(|pg|, i requires 0 <= i < |pg| => ShownProg(a, pg[i]))
  }

  function ChanIds(a: seq<Byte>, ch: seq<Chan>): (r: seq<Text>)
    ensures |r| == |ch|
  {
    seq<Text>(|ch|, i requires 0 <= i < |ch| => CStr(a, ch[i].id))
  }

  function NamesOf(m: map<seq<Byte>, StrMap.Entry>): map<seq<Byte>, nat> {
    map k | k in m :: m[k].val
  }

  ghost predicate OffsetsIn(n: nat, ch: seq<Chan>, pg: seq<Prog>) {
    && |ch| < n
    && (forall i | 0 <= i < |ch| :: ch[i].id < n && ch[i].first == ch[i].count == 0)
    && (forall i | 0 <= i < |pg| ::
          pg[i].title < n && pg[i].sub < n && pg[i].cat < n && pg[i].desc < n && pg[i].gch < |ch|
          && (pg[i].stop == 0 || pg[i].stop > pg[i].start))
  }

  /** The id map and the channel list are two views of the same numbering. */
  ghost predicate Numbered(ids: map<seq<Byte>, StrMap.Entry>, chans: seq<Text>) {
    && (forall i | 0 <= i < |chans| :: chans[i] in ids && ids[chans[i]].val == i)
    && (forall k | k in ids :: ids[k].val < |chans| && chans[ids[k].val] == k)
  }

  lemma NumberedIndex(ids: map<seq<Byte>, StrMap.Entry>, chans: seq<Text>, id: Text)
    requires Numbered(ids, chans)
    ensures IndexOf(chans, id) == if id in ids then ids[id].val else |chans|
  {}

  lemma NumberedNext(ids: map<seq<Byte>, StrMap.Entry>, chans: seq<Text>, id: Text, o: nat)
    requires Numbered(ids, chans) && id !in ids
    ensures Numbered(ids[id := StrMap.Entry(o, |chans|)], chans + [id])
  {
    var ids', chans' := ids[id := StrMap.Entry(o, |chans|)], chans + [id];
    forall i | 0 <= i < |chans'|
      ensures chans'[i] in ids' && ids'[chans'[i]].val == i
    {
      if i < |chans| { assert chans'[i] == chans[i]; }
    }
  }

  /** One more channel. */
  lemma ChanAdded(a: seq<Byte>, ids: map<seq<Byte>, StrMap.Entry>, ch: seq<Chan>, pg: seq<Prog>, id: Text, o: nat)
    requires OffsetsIn(|a|, ch, pg) && Numbered(ids, ChanIds(a, ch)) && id !in ids
    requires o < |a| && CStr(a, o) == id && |ch| + 1 < |a|
    ensures var ch' := ch + [Chan(o, 0, 0)];
      && OffsetsIn(|a|, ch', pg) && ChanIds(a, ch') == ChanIds(a, ch) + [id]
      && Numbered(ids[id := StrMap.Entry(o, |ch|)], ChanIds(a, ch'))
  {
    var ch' := ch + [Chan(o, 0, 0)];
    NumberedNext(ids, ChanIds(a, ch), id, o);
    hide CStr, Numbered;
    assert ChanIds(a, ch') == ChanIds(a, ch) + [id];
  }

  /** One more programme. */
  lemma ProgAdded(a: seq<Byte>, ch: seq<Chan>, pg: seq<Prog>, p: Prog)
    requires OffsetsIn(|a|, ch, pg) && p.gch < |ch|
    requires p.title < |a| && p.sub < |a| && p.cat < |a| && p.desc < |a| && (p.stop == 0 || p.stop > p.start)
    ensures OffsetsIn(|a|, ch, pg + [p]) && Shown(a, pg + [p]) == Shown(a, pg) + [ShownProg(a, p)]
  {
    hide CStr;
  }

  lemma ShownGrows(a: seq<Byte>, x: seq<Byte>, ch: seq<Chan>, pg: seq<Prog>)
    requires Terminated(a) && OffsetsIn(|a|, ch, pg)
    ensures Shown(a + x, pg) == Shown(a, pg) && ChanIds(a + x, ch) == ChanIds(a, ch)
    ensures OffsetsIn(|a + x|, ch, pg)
  {
    forall i | 0 <= i < |pg|
      ensures ShownProg(a + x, pg[i]) == ShownProg(a, pg[i])
    {
      CStrAppend(a, x, pg[i].title);
      CStrAppend(a, x, pg[i].sub);
      CStrAppend(a, x, pg[i].cat);
      CStrAppend(a, x, pg[i].desc);
    }
    forall i | 0 <= i < |ch|
      ensures CStr(a + x, ch[i].id) == CStr(a, ch[i].id)
    {
      CStrAppend(a, x, ch[i].id);
    }
    hide CStr;
  }

  /** Maps that share no table. */
  ghost predicate Apart(m: StrMap.Map, o: StrMap.Map)
    reads m`key, m`val, o`key, o`val
  {
    m != o && m.key != o.key && m.key != o.val && m.val != o.key && m.val != o.val
  }

  /** What a map is, apart from the arena's own validity. */
  ghost predicate MapOver(m: StrMap.Map, a: seq<Byte>)
    reads m, m.key, m.val
  {
    && m.key != m.val && m.key.Length == m.val.Length && TableSize(m.key.Length)
    && m.n == Count(m.key[..]) && m.n * 2 <= m.key.Length
    && Table(m.key[..], m.val[..], a, m.model)
  }

  /** A map stays what it is while the arena grows under it. */
  lemma Undisturbed(m: StrMap.Map, ar: Arena, a: seq<Byte>, x: seq<Byte>)
    requires MapOver(m, a) && Terminated(a) && ar.Valid() && ar.a == a + x
    ensures m.Valid(ar)
  {
    TableAppend(m.key[..], m.val[..], a, x, m.model);
  }

  /** What the map says of a key is an offset where the key stands. */
  lemma KeyStands(m: StrMap.Map, ar: Arena, k: seq<Byte>)
    requires m.Valid(ar) && k in m.model
    ensures 0 < m.model[k].off < |ar.a| && CStr(ar.a, m.model[k].off) == k
  {
    var key := m.key[..];
    var j :| 0 <= j < |key| && key[j] != 0 && CStr(ar.a, key[j]) == k;
  }

  lemma ArenaOf(m: StrMap.Map, ar: Arena)
    requires m.Valid(ar)
    ensures ar.Valid()
  {}

  method PutOne(ar: Arena, m: StrMap.Map, k: Text, v: nat) returns (stored: nat, off: nat)
    requires m.Valid(ar)
    modifies ar, m, m.key, m.val
    ensures m.Valid(ar) && ar.Valid()
    ensures (m.key == old(m.key) && m.val == old(m.val)) || (fresh(m.key) && fresh(m.val))
    ensures ar.a == old(ar.a) || ar.a == old(ar.a) + (k + [0])
    ensures off == 0 ==> stored == NONE && m.model == old(m.model) && ar.a == old(ar.a)
    ensures off != 0 ==> off < |ar.a| && CStr(ar.a, off) == k
    ensures off != 0 && k in old(m.model) ==>
      stored == old(m.model)[k].val && m.model == old(m.model) && ar.a == old(ar.a)
    ensures off != 0 && k !in old(m.model) ==>
      stored == v && m.model == old(m.model)[k := StrMap.Entry(off, v)] && off == |old(ar.a)|
    ensures off == 0 ==> ar.mayFail || (k !in old(m.model) && |old(ar.a)| + |k| + 1 > ar.max)
  {
    hide CStr, StrMap.Map.Valid;
    ghost var a := ar.a;
    stored, off := m.Put(ar, k, v);
    ArenaOf(m, ar);
    assert a + k + [0] == a + (k + [0]);
    if off != 0 { KeyStands(m, ar, k); }
  }

  /** `map_put` into one of three maps over the same arena; the other two stand. */
  method PutIn(ar: Arena, m: StrMap.Map, o1: StrMap.Map, o2: StrMap.Map, k: Text, v: nat)
    returns (stored: nat, off: nat)
    requires m.Valid(ar) && o1.Valid(ar) && o2.Valid(ar) && Apart(m, o1) && Apart(m, o2)
    modifies ar, m, m.key, m.val
    ensures m.Valid(ar) && o1.Valid(ar) && o2.Valid(ar) && Apart(m, o1) && Apart(m, o2) && ar.Valid()
    ensures (m.key == old(m.key) && m.val == old(m.val)) || (fresh(m.key) && fresh(m.val))
    ensures ar.a == old(ar.a) || ar.a == old(ar.a) + (k + [0])
    ensures off == 0 ==> stored == NONE && m.model == old(m.model) && ar.a == old(ar.a)
    ensures off != 0 ==> off < |ar.a| && CStr(ar.a, off) == k
    ensures off != 0 && k in old(m.model) ==>
      stored == old(m.model)[k].val && m.model == old(m.model) && ar.a == old(ar.a)
    ensures off != 0 && k !in old(m.model) ==>
      stored == v && m.model == old(m.model)[k := StrMap.Entry(off, v)] && off == |old(ar.a)|
    ensures off == 0 ==> ar.mayFail || (k !in old(m.model) && |old(ar.a)| + |k| + 1 > ar.max)
  {
    ghost var a := ar.a;
    assert MapOver(o1, a) && MapOver(o2, a);
    hide CStr, MapOver, StrMap.Map.Valid;
    stored, off := PutOne(ar, m, k, v);
    ghost var x: seq<Byte> := if ar.a == a then [] else k + [0];
    assert ar.a == a + x;
    Undisturbed(o1, ar, a, x);
    Undisturbed(o2, ar, a, x);
  }

  /** Offsets stand as the arena grows. */
  lemma Stays(a: seq<Byte>, b: seq<Byte>, o: nat)
    requires a <= b && Terminated(a) && o < |a|
    ensures CStr(b, o) == CStr(a, o)
  {
    assert b == a + b[|a|..];
    CStrAppend(a, b[|a|..], o);
  }

  /** Descriptions stop when three quarters of the arena are taken, somewhere between its
      lengths before and after. */
  predicate DescsUntil(before: nat, after: nat, keepDesc: bool) {
    (keepDesc ==> before < MAX_ARENA / 4 * 3) && (!keepDesc ==> after >= MAX_ARENA / 4 * 3)
  }

  /** A text is at an offset, or found no room. */
  ghost predicate Stands(a: seq<Byte>, off: nat, s: Text) {
    off != NONE ==> off < |a| && CStr(a, off) == s
  }

  lemma StandsOn(a: seq<Byte>, b: seq<Byte>, off: nat, s: Text)
    requires Terminated(a) && a <= b && Stands(a, off, s)
    ensures Stands(b, off, s)
  {
    if off != NONE { Stays(a, b, off); }
  }

  lemma Blank(a: seq<Byte>)
    ensures a == [0] ==> CStr(a, 0) == []
    ensures |a| > 0 ==> OffsetsIn(|a|, [], [])
    ensures Numbered(map[], ChanIds(a, [])) && ChanIds(a, []) == [] && Shown(a, []) == [] && NamesOf(map[]) == map[]
  {}

  class Filler {
    const ar: Arena
    const strs: StrMap.Map
    const ids: StrMap.Map
    const names: StrMap.Map
    const want: Want
    /** `guide_name_key` */
    const nameKey: Text -> Text
    var ch: seq<Chan>
    var pg: seq<Prog>
    var truncated: bool

    /** Three maps with tables of their own over one arena. */
    ghost predicate Maps()
      reads ar, strs, strs.key, strs.val, ids, ids.key, ids.val, names, names.key, names.val
    {
      && Apart(strs, ids) && Apart(strs, names) && Apart(ids, names)
      && strs.Valid(ar) && ids.Valid(ar) && names.Valid(ar)
      && ar.Valid() && ar.max == MAX_ARENA && CStr(ar.a, 0) == []
      && forall k | k in strs.model :: strs.model[k].val == 0
    }

    ghost predicate Valid()
      reads this, ar, strs, strs.key, strs.val, ids, ids.key, ids.val, names, names.key, names.val
    {
      && Maps()
      && OffsetsIn(|ar.a|, ch, pg) && |pg| <= MAX_PROGS
      && Numbered(ids.model, ChanIds(ar.a, ch))
      && (forall k | k in names.model :: names.model[k].val < |ch|)
    }

    /** The guide as texts. */
    ghost function View(): Plain
      reads this, ar, ids, names
    {
      Plain(ChanIds(ar.a, ch), NamesOf(names.model), Shown(ar.a, pg))
    }

    /** What is taken of the arena. */
    ghost function Taken(): Shelf
      reads ar, strs
    {
      Shelf(strs.model.Keys, |ar.a|)
    }

    /** `guide_new`, with its arena and its three empty maps. */
    constructor (want: Want, nameKey: Text -> Text, ar: Arena, strs: StrMap.Map, ids: StrMap.Map, names: StrMap.Map)
      requires ar.Valid() && ar.a == [0] && ar.max == MAX_ARENA && strs.Valid(ar) && ids.Valid(ar) && names.Valid(ar)
      requires Apart(strs, ids) && Apart(strs, names) && Apart(ids, names)
      requires strs.model == ids.model == names.model == map[]
      ensures Valid() && View() == Plain([], map[], []) && !truncated
      ensures this.want == want && this.nameKey == nameKey
      ensures this.ar == ar && this.strs == strs && this.ids == ids && this.names == names
    {
      hide StrMap.Map.Valid, OffsetsIn, Numbered, ChanIds, Shown, NamesOf, CStr;
      this.want, this.nameKey := want, nameKey;
      this.ar, this.strs, this.ids, this.names := ar, strs, ids, names;
      ch, pg, truncated := [], [], false;
      Blank(ar.a);
    }

    /** `intern`: the offset of the clipped text, 0 for an empty one, NONE when there is no room. */
    method Intern(s: Text, max: nat) returns (off: nat)
      requires Valid()
      modifies ar, strs, strs.key, strs.val
      ensures Valid() && View() == old(View()) && old(ar.a) <= ar.a
      ensures Stands(ar.a, off, Clip(s, max)) && |ar.a| <= |old(ar.a)| + Room(s, max)
      ensures off != NONE ==> Taken() == Shelve(old(Taken()), s, max)
      ensures off == NONE ==> ar.mayFail || Shelve(old(Taken()), s, max).size > MAX_ARENA
      ensures (strs.key == old(strs.key) && strs.val == old(strs.val)) || (fresh(strs.key) && fresh(strs.val))
    {
      hide StrMap.Map.Valid, OffsetsIn, Numbered, ChanIds, Shown, NamesOf, Back, CStr;
      if s == [] { return 0; }
      var stored;
      ghost var a := ar.a;
      stored, off := PutIn(ar, strs, ids, names, Clip(s, max), 0);
      ghost var x: seq<Byte> := if ar.a == a then [] else Clip(s, max) + [0];
      assert ar.a == a + x;
      ShownGrows(a, x, ch, pg);
      Stays(a, ar.a, 0);
      if stored == NONE { off := NONE; }
      assert off != NONE && Clip(s, max) !in old(strs.model) ==> |ar.a| == |a| + |Clip(s, max)| + 1;
    }

    /** `add_chan`: a channel at the end of the list, or -1. */
    method AddChan(id: Text) returns (c: int)
      requires Valid() && id !in ids.model
      modifies `ch, ar, ids, ids.key, ids.val
      ensures Valid() && old(ar.a) <= ar.a
      ensures c == -1 || (c == |old(ch)| && |ch| == c + 1)
      ensures c == -1 ==> ar.mayFail || |old(ar.a)| + |id| + 1 > MAX_ARENA
      ensures |ar.a| <= |old(ar.a)| + |id| + 1
      ensures c >= 0 ==> Taken() == old(Taken()).(size := old(|ar.a|) + |id| + 1)
      ensures View() == if c < 0 then old(View()) else old(View()).(chans := old(View()).chans + [id])
      ensures (ids.key == old(ids.key) && ids.val == old(ids.val)) || (fresh(ids.key) && fresh(ids.val))
    {
      hide StrMap.Map.Valid, OffsetsIn, Numbered, ChanIds, Shown, NamesOf, CStr;
      ghost var a, m := ar.a, ids.model;
      FewerChannels(|a|, ch, pg);
      var stored, off := PutIn(ar, ids, strs, names, id, |ch|);
      ghost var x: seq<Byte> := if ar.a == a then [] else id + [0];
      assert ar.a == a + x;
      ShownGrows(a, x, ch, pg);
      Stays(a, ar.a, 0);
      if stored != |ch| { return -1; }
      ChanAdded(ar.a, m, ch, pg, id, off);
      c := |ch|;
      ch := ch + [Chan(off, 0, 0)];
    }

    /** A name key for a channel, unless an earlier channel has it. */
    method PutName(k: Text, c: nat) returns (ghost hurt: bool)
      requires Valid() && c < |ch|
      modifies ar, names, names.key, names.val
      ensures Valid() && old(ar.a) <= ar.a
      ensures View() == old(View()).(names := View().names)
      ensures View().names ==
        if hurt || k in old(View()).names then old(View()).names else old(View()).names[k := c]
      ensures hurt ==> ar.mayFail || (k !in old(View()).names && |old(ar.a)| + |k| + 1 > MAX_ARENA)
      ensures !hurt ==> Taken() == old(Taken()).(size := old(|ar.a|) + if k in old(View()).names then 0 else |k| + 1)
      ensures |ar.a| <= |old(ar.a)| + |k| + 1
      ensures (names.key == old(names.key) && names.val == old(names.val)) || (fresh(names.key) && fresh(names.val))
    {
      hide StrMap.Map.Valid, OffsetsIn, Numbered, ChanIds, Shown, CStr;
      ghost var a := ar.a;
      var stored, off := PutIn(ar, names, strs, ids, k, c);
      ghost var x: seq<Byte> := if ar.a == a then [] else k + [0];
      assert ar.a == a + x;
      ShownGrows(a, x, ch, pg);
      Stays(a, ar.a, 0);
      hurt := off == 0;
      assert !hurt && k !in old(View()).names ==> |ar.a| == |a| + |k| + 1;
    }

    /** Whether the playlist wants a channel. */
    method IsWanted(id: Text, rawNames: seq<Text>) returns (wanted: bool)
      ensures wanted == Wanted(want, id, Keys(rawNames))
    {
      wanted := id in want.ids;
      var i := 0;
      while i < |rawNames| && !wanted
        invariant 0 <= i <= |rawNames|
        invariant wanted ==> Wanted(want, id, Keys(rawNames))
        invariant !wanted ==> id !in want.ids
        invariant !wanted ==>
          forall j | 0 <= j < i :: !(nameKey(rawNames[j]) != [] && nameKey(rawNames[j]) in want.names)
      {
        var nk := nameKey(rawNames[i]);
        if nk != [] && nk in want.names {
          assert Keys(rawNames)[i] == nk;
          wanted := true;
        }
        i := i + 1;
      }
    }

    function Keys(rawNames: seq<Text>): (keys: seq<Text>)
      ensures |keys| == |rawNames| && forall i | 0 <= i < |keys| :: keys[i] == nameKey(rawNames[i])
    {
      KeysOf(nameKey, rawNames)
    }

    /** `guide_on_channel`; `hurt` says that memory or the arena ran out on the way. */
    method OnChannel(rawId: Text, rawNames: seq<Text>) returns (ghost hurt: bool)
      requires Valid()
      modifies `ch, `truncated, ar, ids, ids.key, ids.val, names, names.key, names.val
      ensures Valid()
      ensures !hurt ==> View() == OnChannelPlain(old(View()), want, Lower(rawId), Keys(rawNames))
      ensures var n := |old(ar.a)| + ChannelTakes(old(View()), want, Lower(rawId), Keys(rawNames));
        if hurt then ar.mayFail || n > MAX_ARENA else Taken() == old(Taken()).(size := n)
      ensures old(ar.a) <= ar.a && |ar.a| <= |old(ar.a)| + |Lower(rawId)| + 1 + KeysRoom(Keys(rawNames))
      ensures !hurt ==> truncated == old(truncated)
      ensures View().items == old(View()).items
      ensures View().chans == OnChannelPlain(old(View()), want, Lower(rawId), Keys(rawNames)).chans
           || (View() == old(View()) && truncated)
      ensures (ids.key == old(ids.key) && ids.val == old(ids.val)) || (fresh(ids.key) && fresh(ids.val))
      ensures (names.key == old(names.key) && names.val == old(names.val)) || (fresh(names.key) && fresh(names.val))
    {
      hide StrMap.Map.Valid, OffsetsIn, Numbered, ChanIds, Shown, NamesOf, CStr, Lower, Wanted, NamesTake, Named,
           KeysRoom;
      hurt := false;
      var id := Lower(rawId);
      Known(id);
      if id == [] { return; }
      var v := ids.Get(ar, id);
      if v != NONE { return; }
      var wanted := IsWanted(id, rawNames);
      if !wanted { return; }
      ghost var before := View();
      var c := AddChan(id);
      if c < 0 {
        truncated := true;
        hurt := true;
        return;
      }
      hurt := PutNames(rawNames, c);
    }

    /** The channel's names, the first channel of each winning. */
    method PutNames(rawNames: seq<Text>, c: nat) returns (ghost hurt: bool)
      requires Valid() && c < |ch|
      modifies ar, names, names.key, names.val
      ensures Valid()
      ensures View() == old(View()).(names := View().names)
      ensures !hurt ==> View().names == Named(old(View()).names, Keys(rawNames), c)
      ensures var n := |old(ar.a)| + NamesTake(old(View()).names, Keys(rawNames), c);
        if hurt then ar.mayFail || n > MAX_ARENA else Taken() == old(Taken()).(size := n)
      ensures old(ar.a) <= ar.a && |ar.a| <= |old(ar.a)| + KeysRoom(Keys(rawNames))
      ensures (names.key == old(names.key) && names.val == old(names.val)) || (fresh(names.key) && fresh(names.val))
    {
      hide StrMap.Map.Valid, OffsetsIn, Numbered, ChanIds, Shown, NamesOf, CStr;
      hurt := false;
      ghost var keys, m := Keys(rawNames), View().names;
      var i := 0;
      while i < |rawNames|
        modifies ar, names, names.key, names.val
        invariant 0 <= i <= |rawNames| && Valid()
        invariant (names.key == old(names.key) && names.val == old(names.val)) || (fresh(names.key) && fresh(names.val))
        invariant View() == old(View()).(names := View().names)
        invariant !hurt ==> View().names == Named(m, keys[..i], c)
        invariant var n := |old(ar.a)| + NamesTake(m, keys[..i], c);
          if hurt then ar.mayFail || n > MAX_ARENA else Taken() == old(Taken()).(size := n)
        invariant old(ar.a) <= ar.a && |ar.a| <= |old(ar.a)| + KeysRoom(keys[..i])
      {
        var nk := nameKey(rawNames[i]);
        assert keys[..i + 1][..i] == keys[..i] && keys[..i + 1][i] == nk;
        if nk != [] {
          ghost var lost := PutName(nk, c);
          hurt := hurt || lost;
        }
        i := i + 1;
      }
      assert keys[..i] == keys;
    }

    /** The four texts of a programme; a text that found no room is NONE. */
    method InternAll(q: Parsed) returns (t: nat, s: nat, c: nat, d: nat, ghost keepDesc: bool)
      requires Valid()
      modifies ar, strs, strs.key, strs.val
      ensures Valid() && View() == old(View()) && old(ar.a) <= ar.a
      ensures if t == NONE || s == NONE || c == NONE || d == NONE
        then ar.mayFail || ShelveItem(old(Taken()), q).size > MAX_ARENA
        else Taken() == ShelveItem(old(Taken()), q) && keepDesc == KeepsDesc(old(Taken()), q)
      ensures |ar.a| <= |old(ar.a)| + ItemRoom(q)
      ensures DescsUntil(|old(ar.a)|, |ar.a|, keepDesc)
      ensures Stands(ar.a, t, Clip(q.title, TEXT_MAX)) && Stands(ar.a, s, Clip(q.sub, TEXT_MAX))
      ensures Stands(ar.a, c, Clip(q.cat, 64)) && Stands(ar.a, d, if keepDesc then Clip(q.desc, DESC_KEEP) else [])
      ensures (strs.key == old(strs.key) && strs.val == old(strs.val)) || (fresh(strs.key) && fresh(strs.val))
    {
      hide StrMap.Map.Valid, OffsetsIn, Numbered, ChanIds, Shown, NamesOf, Clip, Stands, CStr, Shelve, ShelveRest;
      t, s := InternTwo(q.title, TEXT_MAX, q.sub, TEXT_MAX);
      ghost var a := ar.a;
      c, d, keepDesc := InternRest(q);
      StandsOn(a, ar.a, t, Clip(q.title, TEXT_MAX));
      StandsOn(a, ar.a, s, Clip(q.sub, TEXT_MAX));
    }

    /** Descriptions are the bulk: beyond three quarters of the arena there are none. */
    method InternRest(q: Parsed) returns (c: nat, d: nat, ghost keepDesc: bool)
      requires Valid()
      modifies ar, strs, strs.key, strs.val
      ensures if c == NONE || d == NONE then ar.mayFail || ShelveRest(old(Taken()), q).size > MAX_ARENA
        else
          && Taken() == ShelveRest(old(Taken()), q)
          && keepDesc == (Shelve(old(Taken()), q.cat, 64).size < MAX_ARENA / 4 * 3)
      ensures |ar.a| <= |old(ar.a)| + Room(q.cat, 64) + Room(q.desc, DESC_KEEP)
      ensures DescsUntil(|old(ar.a)|, |ar.a|, keepDesc)
      ensures Valid() && View() == old(View()) && old(ar.a) <= ar.a
      ensures Stands(ar.a, c, Clip(q.cat, 64)) && Stands(ar.a, d, if keepDesc then Clip(q.desc, DESC_KEEP) else [])
      ensures (strs.key == old(strs.key) && strs.val == old(strs.val)) || (fresh(strs.key) && fresh(strs.val))
    {
      hide StrMap.Map.Valid, OffsetsIn, Numbered, ChanIds, Shown, NamesOf, Clip, Stands, CStr, Shelve;
      c := Intern(q.cat, 64);
      ghost var a := ar.a;
      keepDesc := |ar.a| < MAX_ARENA / 4 * 3;
      if |ar.a| < MAX_ARENA / 4 * 3 {
        d := Intern(q.desc, DESC_KEEP);
        StandsOn(a, ar.a, c, Clip(q.cat, 64));
      } else {
        d := 0;
        EmptyStands(ar.a);
      }
    }

    lemma EmptyStands(a: seq<Byte>)
      requires |a| > 0 && CStr(a, 0) == []
      ensures Stands(a, 0, [])
    {}

    method InternTwo(x: Text, xMax: nat, y: Text, yMax: nat) returns (i: nat, j: nat)
      requires Valid()
      modifies ar, strs, strs.key, strs.val
      ensures Valid() && View() == old(View()) && old(ar.a) <= ar.a
      ensures var h := Shelve(Shelve(old(Taken()), x, xMax), y, yMax);
        if i == NONE || j == NONE then ar.mayFail || h.size > MAX_ARENA else Taken() == h
      ensures |ar.a| <= |old(ar.a)| + Room(x, xMax) + Room(y, yMax)
      ensures Stands(ar.a, i, Clip(x, xMax)) && Stands(ar.a, j, Clip(y, yMax))
      ensures (strs.key == old(strs.key) && strs.val == old(strs.val)) || (fresh(strs.key) && fresh(strs.val))
    {
      hide StrMap.Map.Valid, OffsetsIn, Numbered, ChanIds, Shown, NamesOf, Clip, Stands, CStr, Shelve;
      i := Intern(x, xMax);
      ghost var a := ar.a;
      j := Intern(y, yMax);
      StandsOn(a, ar.a, i, Clip(x, xMax));
    }

    /** The record of a programme of the window. */
    method Enter(q: Parsed, gch: nat) returns (ghost hurt: bool, ghost keepDesc: bool)
      requires Valid() && gch < |ch| && |pg| < MAX_PROGS && 0 < q.start <= 0xFFFF_FFFF
      modifies `pg, `truncated, ar, strs, strs.key, strs.val
      ensures Valid()
      ensures if hurt then ar.mayFail || ShelveItem(old(Taken()), q).size > MAX_ARENA
        else Taken() == ShelveItem(old(Taken()), q) && keepDesc == KeepsDesc(old(Taken()), q)
      ensures old(ar.a) <= ar.a && |ar.a| <= |old(ar.a)| + ItemRoom(q)
      ensures DescsUntil(|old(ar.a)|, |ar.a|, keepDesc)
      ensures !hurt ==> truncated == old(truncated)
      ensures !hurt ==> View() == old(View()).(items := old(View()).items + [ItemOf(q, gch, keepDesc)])
      ensures hurt ==> truncated || |View().items| == |old(View()).items| + 1
      ensures View().chans == old(View()).chans && View().names == old(View()).names
      ensures (strs.key == old(strs.key) && strs.val == old(strs.val)) || (fresh(strs.key) && fresh(strs.val))
    {
      hide StrMap.Map.Valid, OffsetsIn, Numbered, ChanIds, Shown, NamesOf, CStr, Clip, ShelveItem, KeepsDesc;
      var t, s, c, d;
      t, s, c, d, keepDesc := InternAll(q);
      hurt := t == NONE || s == NONE || c == NONE || d == NONE;
      if t == NONE {
        truncated := true;
        return;
      }
      if s == NONE { s := 0; }
      if c == NONE { c := 0; }
      if d == NONE {
        d := 0;
        truncated := true;
      }
      Append(q, gch, t, s, c, d);
    }

    method Append(q: Parsed, gch: nat, t: nat, s: nat, c: nat, d: nat)
      requires Valid() && gch < |ch| && |pg| < MAX_PROGS && 0 < q.start <= 0xFFFF_FFFF
      requires t < |ar.a| && s < |ar.a| && c < |ar.a| && d < |ar.a|
      modifies `pg
      ensures Valid()
      ensures var stop := if q.stop > q.start && q.stop <= 0xFFFF_FFFF then q.stop else 0;
        View() == old(View()).(items := old(View()).items
          + [Item(q.start, stop, CStr(ar.a, t), CStr(ar.a, s), CStr(ar.a, c), CStr(ar.a, d), gch)])
    {
      hide StrMap.Map.Valid, OffsetsIn, Numbered, ChanIds, Shown, NamesOf, CStr;
      var stop := if q.stop > q.start && q.stop <= 0xFFFF_FFFF then q.stop else 0;
      var p := Prog(q.start, stop, t, s, c, d, gch);
      ProgAdded(ar.a, ch, pg, p);
      pg := pg + [p];
    }

    /** The channel of a programme: known, or new because the playlist wants its id. */
    method ChannelFor(id: Text) returns (c: int, ghost hurt: bool)
      requires Valid()
      modifies `ch, `truncated, ar, ids, ids.key, ids.val
      ensures Valid()
      ensures id in old(ids.model) ==> c == old(ids.model)[id].val && !hurt && View() == old(View())
      ensures id !in old(ids.model) && (id == [] || id !in want.ids) ==> c == -1 && !hurt && View() == old(View())
      ensures id !in old(ids.model) && id != [] && id in want.ids && !hurt ==>
        c == |old(ch)| && View() == old(View()).(chans := old(View()).chans + [id])
      ensures hurt ==> c == -1 && View() == old(View()) && truncated
      ensures var h := WithChannel(Filling(old(View()), old(Taken())), want, id);
        if hurt then ar.mayFail || h.size > MAX_ARENA else Taken() == h
      ensures old(ar.a) <= ar.a && |ar.a| <= |old(ar.a)| + |id| + 1
      ensures !hurt ==> truncated == old(truncated)
      ensures c >= 0 ==> c < |ch|
      ensures (ids.key == old(ids.key) && ids.val == old(ids.val)) || (fresh(ids.key) && fresh(ids.val))
    {
      Known(id);
      hide StrMap.Map.Valid, OffsetsIn, Numbered, ChanIds, Shown, NamesOf, CStr, IndexOf;
      c := ids.Get(ar, id);
      if c != NONE { return c, false; }
      if id == [] || id !in want.ids { return -1, false; }
      c, hurt := NewChannel(id);
    }

    method NewChannel(id: Text) returns (c: int, ghost hurt: bool)
      requires Valid() && id !in ids.model
      modifies `ch, `truncated, ar, ids, ids.key, ids.val
      ensures Valid()
      ensures hurt ==> c == -1 && View() == old(View()) && truncated
      ensures if hurt then ar.mayFail || |old(ar.a)| + |id| + 1 > MAX_ARENA
        else Taken() == old(Taken()).(size := old(|ar.a|) + |id| + 1)
      ensures old(ar.a) <= ar.a && |ar.a| <= |old(ar.a)| + |id| + 1
      ensures !hurt ==> c == |old(ch)| && |ch| == c + 1 && truncated == old(truncated)
      ensures !hurt ==> View() == old(View()).(chans := old(View()).chans + [id])
      ensures (ids.key == old(ids.key) && ids.val == old(ids.val)) || (fresh(ids.key) && fresh(ids.val))
    {
      hide StrMap.Map.Valid, OffsetsIn, Numbered, ChanIds, Shown, NamesOf, CStr;
      c := AddChan(id);
      hurt := c < 0;
      if c < 0 { truncated := true; }
    }

    /**
     `guide_on_programme`; `hurt` says that memory or the arena ran out on the way. A
     programme that should be entered is entered, or the guide is marked truncated. It keeps
     its description unless three quarters of the arena are taken.
     */
    method OnProgramme(q: Parsed) returns (ghost hurt: bool, ghost keepDesc: bool)
      requires Valid()
      modifies `ch, `pg, `truncated, ar, ids, ids.key, ids.val, strs, strs.key, strs.val
      ensures Valid()
      ensures !hurt ==> View() == OnProgrammePlain(old(View()), want, q, keepDesc)
      ensures !hurt ==> truncated == (old(truncated) || Full(old(View()), want, q))
      ensures var r := OnProgrammeFilling(Filling(old(View()), old(Taken())), want, q);
        if hurt then ar.mayFail || r.shelf.size > MAX_ARENA else Filling(View(), Taken()) == r
      ensures old(ar.a) <= ar.a && |ar.a| <= |old(ar.a)| + |Lower(q.channel)| + 1 + ItemRoom(q)
      ensures DescsUntil(|old(ar.a)|, |ar.a|, keepDesc)
      ensures |View().items| == |OnProgrammePlain(old(View()), want, q, keepDesc).items| || truncated
      ensures View().names == old(View()).names
      ensures (ids.key == old(ids.key) && ids.val == old(ids.val)) || (fresh(ids.key) && fresh(ids.val))
      ensures (strs.key == old(strs.key) && strs.val == old(strs.val)) || (fresh(strs.key) && fresh(strs.val))
    {
      hide StrMap.Map.Valid, OffsetsIn, Numbered, ChanIds, Shown, NamesOf, CStr, Lower, EnterPlain, InWindow, ItemRoom,
           ShelveItem, KeepsDesc;
      hurt, keepDesc := false, |ar.a| < MAX_ARENA / 4 * 3;
      var id := Lower(q.channel);
      Known(id);
      var gch;
      gch, hurt := ChannelFor(id);
      if gch < 0 { return; }
      ghost var p := View();
      NoDescNeeded(p, want, q, gch);
      hurt, keepDesc := InChannel(q, gch);
    }

    /** A programme that is not entered has no description to keep. */
    lemma NoDescNeeded(p: Plain, w: Want, q: Parsed, c: nat)
      ensures !InWindow(w, q) || |p.items| >= MAX_PROGS ==>
        forall k, l :: EnterPlain(p, w, q, c, k) == EnterPlain(p, w, q, c, l)
    {}

    /** A programme of a known channel. */
    method InChannel(q: Parsed, gch: nat) returns (ghost hurt: bool, ghost keepDesc: bool)
      requires Valid() && gch < |ch|
      modifies `pg, `truncated, ar, strs, strs.key, strs.val
      ensures Valid()
      ensures !hurt ==> View() == EnterPlain(old(View()), want, q, gch, keepDesc)
      ensures !hurt ==> truncated == (old(truncated) || (InWindow(want, q) && |old(View()).items| >= MAX_PROGS))
      ensures if InWindow(want, q) && |old(View()).items| < MAX_PROGS then
          if hurt then ar.mayFail || ShelveItem(old(Taken()), q).size > MAX_ARENA
          else Taken() == ShelveItem(old(Taken()), q) && keepDesc == KeepsDesc(old(Taken()), q)
        else !hurt && Taken() == old(Taken())
      ensures old(ar.a) <= ar.a && |ar.a| <= |old(ar.a)| + ItemRoom(q)
      ensures DescsUntil(|old(ar.a)|, |ar.a|, keepDesc)
      ensures |View().items| == |EnterPlain(old(View()), want, q, gch, keepDesc).items| || truncated
      ensures View().chans == old(View()).chans && View().names == old(View()).names
      ensures (strs.key == old(strs.key) && strs.val == old(strs.val)) || (fresh(strs.key) && fresh(strs.val))
    {
      hide StrMap.Map.Valid, OffsetsIn, Numbered, ChanIds, NamesOf, CStr, Clip, ItemOf, ItemRoom, ShelveItem, KeepsDesc;
      hurt, keepDesc := false, |ar.a| < MAX_ARENA / 4 * 3;
      var stop := if q.stop > q.start then q.stop else q.start + 4 * 3600;
      if q.start >= want.now + AHEAD_SEC || stop <= want.now - BACK_SEC || q.start <= 0 || q.start > 0xFFFF_FFFF {
        return;
      }
      if |pg| >= MAX_PROGS {
        truncated := true;
        return;
      }
      var denied := ar.Denied();
      if denied {
        truncated := true;
        hurt := true;
        return;
      }
      hurt, keepDesc := Enter(q, gch);
    }

    /**
     A whole file: where memory does not fail and the texts fit the arena, the store shows
     exactly the plain guide of it; where they fit three quarters, with every description.
     */
    method Feed(es: seq<Event>) returns (ghost hurt: bool, ghost keeps: seq<bool>)
      requires Valid()
      modifies `ch, `pg, `truncated, ar, ids, ids.key, ids.val, strs, strs.key, strs.val, names, names.key, names.val
      ensures Valid() && |keeps| == |es|
      ensures !hurt ==> View() == Fed(old(View()), want, nameKey, es, keeps)
      // what there is room for follows from the file, to the byte
      ensures var r := FedTo(Filling(old(View()), old(Taken())), want, nameKey, es);
        if hurt then ar.mayFail || r.shelf.size > MAX_ARENA
        else Filling(View(), Taken()) == r && r.shelf.size <= MAX_ARENA
      ensures hurt ==> ar.mayFail || |old(ar.a)| + FileRoom(nameKey, es) > MAX_ARENA
      ensures |ar.a| <= |old(ar.a)| + FileRoom(nameKey, es)
      ensures |ar.a| < MAX_ARENA / 4 * 3 ==> forall i | 0 <= i < |es| :: keeps[i]
      ensures |old(ar.a)| >= MAX_ARENA / 4 * 3 ==> forall i | 0 <= i < |es| :: !keeps[i]
    {
      hide Filler.Valid, Filler.View, EventRoom, OnEventFilling, OnEventPlain, OnChannelPlain, OnProgrammePlain;
      hurt, keeps := false, [];
      var i := 0;
      while i < |es|
        modifies `ch, `pg, `truncated, ar, ids, ids.key, ids.val, strs, strs.key, strs.val, names, names.key, names.val
        invariant 0 <= i <= |es| && |keeps| == i && Valid()
        invariant !hurt ==> View() == Fed(old(View()), want, nameKey, es[..i], keeps)
        invariant var r := FedTo(Filling(old(View()), old(Taken())), want, nameKey, es[..i]);
          if hurt then ar.mayFail || r.shelf.size > MAX_ARENA else Filling(View(), Taken()) == r
        invariant old(ar.a) <= ar.a && |ar.a| <= |old(ar.a)| + FileRoom(nameKey, es[..i])
        invariant |ar.a| < MAX_ARENA / 4 * 3 ==> forall j | 0 <= j < i :: keeps[j]
        invariant |old(ar.a)| >= MAX_ARENA / 4 * 3 ==> forall j | 0 <= j < i :: !keeps[j]
        invariant (ids.key == old(ids.key) && ids.val == old(ids.val)) || (fresh(ids.key) && fresh(ids.val))
        invariant (strs.key == old(strs.key) && strs.val == old(strs.val)) || (fresh(strs.key) && fresh(strs.val))
        invariant (names.key == old(names.key) && names.val == old(names.val)) || (fresh(names.key) && fresh(names.val))
      {
        ghost var lost, keep := OnEvent(es[i]);
        hurt := hurt || lost;
        assert es[..i + 1][..i] == es[..i] && (keeps + [keep])[..i] == keeps;
        keeps := keeps + [keep];
        i := i + 1;
      }
      assert es[..i] == es;
      if !hurt { Fits(); }
    }

    lemma Fits()
      requires Valid()
      ensures Taken().size <= MAX_ARENA
    {
    }

    method OnEvent(e: Event) returns (ghost hurt: bool, ghost keepDesc: bool)
      requires Valid()
      modifies `ch, `pg, `truncated, ar, ids, ids.key, ids.val, strs, strs.key, strs.val, names, names.key, names.val
      ensures Valid()
      ensures !hurt ==> View() == OnEventPlain(old(View()), want, nameKey, e, keepDesc)
      ensures var r := OnEventFilling(Filling(old(View()), old(Taken())), want, nameKey, e);
        if hurt then ar.mayFail || r.shelf.size > MAX_ARENA else Filling(View(), Taken()) == r
      ensures old(ar.a) <= ar.a && |ar.a| <= |old(ar.a)| + EventRoom(nameKey, e)
      ensures DescsUntil(|old(ar.a)|, |ar.a|, keepDesc)
      ensures (ids.key == old(ids.key) && ids.val == old(ids.val)) || (fresh(ids.key) && fresh(ids.val))
      ensures (strs.key == old(strs.key) && strs.val == old(strs.val)) || (fresh(strs.key) && fresh(strs.val))
      ensures (names.key == old(names.key) && names.val == old(names.val)) || (fresh(names.key) && fresh(names.val))
    {
      hide StrMap.Map.Valid, OffsetsIn, Numbered, ChanIds, Shown, NamesOf, CStr, Lower, OnChannelPlain,
           OnProgrammePlain, KeysOf, OnProgrammeFilling, ChannelTakes;
      keepDesc := |ar.a| < MAX_ARENA / 4 * 3;
      match e
      case OfChannel(id, rawNames) => hurt := OnChannel(id, rawNames);
      case OfProgramme(q) => hurt, keepDesc := OnProgramme(q);
    }

    lemma Known(id: Text)
      requires Valid()
      ensures ids.Valid(ar) && names.Valid(ar)
      ensures IndexOf(View().chans, id) == if id in ids.model then ids.model[id].val else |View().chans|
      ensures id in ids.model ==> ids.model[id].val < |ch| < NONE
      ensures |View().chans| == |ch| && |View().items| == |pg|
      ensures forall k | k in names.model :: names.model[k].val < NONE
    {
      NumberedIndex(ids.model, ChanIds(ar.a, ch), id);
    }

    /** `guide_find`: by id, else by name, else -1. */
    method Find(tvgId: Text, name: Text) returns (r: int)
      requires Valid()
      ensures var id, nk, p := Lower(tvgId), nameKey(name), View();
        r == if id != [] && IndexOf(p.chans, id) < |p.chans| then IndexOf(p.chans, id)
             else if nk != [] && nk in p.names then p.names[nk]
             else -1
    {
      var key := Lower(tvgId);
      Known(key);
      hide StrMap.Map.Valid, OffsetsIn, Numbered, ChanIds, Shown, CStr, Lower;
      var v := NONE;
      if key != [] { v := ids.Get(ar, key); }
      if v == NONE {
        key := nameKey(name);
        if key != [] { v := names.Get(ar, key); }
      }
      return if v == NONE then -1 else v;
    }
  }

  lemma FewerChannels(n: nat, ch: seq<Chan>, pg: seq<Prog>)
    requires OffsetsIn(n, ch, pg)
    ensures |ch| < n
  {}

  // ---- the finished guide ------------------------------------------------------------------

  /** `guide_finish` on what was filled in: nothing is invented, no (channel, start) is lost. */
  method Close(f: Filler) returns (g: Store)
    requires f.Valid()
    ensures fresh(g) && g.Ready() && g.ch.Length == |f.ch|
    ensures forall p | p in g.pg[..g.pgN] :: From(f.pg, p)
    ensures forall q | q in f.pg :: Kept(g.pg[..g.pgN], q)
    ensures (forall q | q in f.pg :: q.start + 3600 < 0x1_0000_0000) ==> Ended(g.pg[..g.pgN])
  {
    FilledIn(f);
    hide StrMap.Map.Valid, Numbered, ChanIds, Shown, NamesOf, CStr, OffsetsIn, From, Kept, Fold, Filled, Sorted,
         Strict, Indexed;
    g := new Store(f.pg, f.ch);
    ghost var sorted := g.Finish();
    ClosedKeeps(f.pg, sorted);
  }

  lemma FilledIn(f: Filler)
    requires f.Valid()
    ensures forall i | 0 <= i < |f.pg| :: f.pg[i].gch < |f.ch|
    ensures forall c | 0 <= c < |f.ch| :: f.ch[c].first == f.ch[c].count == 0
    ensures forall p | p in f.pg :: p.stop == 0 || p.stop > p.start
  {}

  predicate After(q: Prog, n: Prog) { n.gch == q.gch && n.start > q.start }

  /** The first programme after one, on its channel. */
  ghost predicate Follows(s: seq<Prog>, q: Prog, n: Prog) {
    n in s && After(q, n) && forall m | m in s && After(q, m) :: n.start <= m.start
  }

  /** Where a programme ends: as given, else where the next begins, else an hour on. */
  ghost predicate StopIn(s: seq<Prog>, q: Prog, stop: int) {
    if q.stop != 0 then stop == q.stop
    else
      || (exists n :: Follows(s, q, n) && stop == n.start)
      || ((forall m | m in s :: !After(q, m)) && stop == (q.start + 3600) % 0x1_0000_0000)
  }

  /** The programme is one of those, with its end filled in. */
  ghost predicate From(s: seq<Prog>, p: Prog) {
    exists q | q in s :: p == q.(stop := p.stop) && StopIn(s, q, p.stop)
  }

  /** Ends given are after starts, and an hour after the start still fits 32 bits. */
  ghost predicate AllClosable(s: seq<Prog>) {
    forall p | p in s :: (p.stop == 0 || p.stop > p.start) && p.start + 3600 < 0x1_0000_0000
  }

  lemma ClosedKeeps(all: seq<Prog>, sorted: seq<Prog>)
    requires Sorted(sorted) && multiset(sorted) == multiset(all)
    ensures var r := Filled(Fold(sorted));
      && (forall p | p in r :: From(all, p))
      && (forall q | q in all :: Kept(r, q))
      && (AllClosable(all) ==> Ended(r))
  {
    hide *;
    SameElements(sorted, all);
    SameElements(all, sorted);
    ClosedFrom(all, sorted);
    ClosedKept(all, sorted);
    if AllClosable(all) { ClosedEnds(all, sorted); }
  }

  lemma ClosedFrom(all: seq<Prog>, sorted: seq<Prog>)
    requires Sorted(sorted) && multiset(sorted) == multiset(all)
    ensures forall p | p in Filled(Fold(sorted)) :: From(all, p)
  {
    FoldKeeps(sorted);
    SameElements(sorted, all);
    SameElements(all, sorted);
    FilledFrom(Fold(sorted));
    hide *;
    forall p | p in Filled(Fold(sorted))
      ensures From(all, p)
    {
      FromFolded(all, Fold(sorted), p);
    }
  }

  lemma FromFolded(all: seq<Prog>, f: seq<Prog>, p: Prog)
    requires (forall q | q in f :: q in all) && (forall q | q in all :: Kept(f, q)) && From(f, p)
    ensures From(all, p)
  {
    var q :| q in f && p == q.(stop := p.stop) && StopIn(f, q, p.stop);
    hide Follows, After, Kept, StopIn;
    StopFolded(all, f, q, p.stop);
  }

  /** Folding duplicates away moves no end: what follows a programme still begins where it did. */
  lemma StopFolded(all: seq<Prog>, f: seq<Prog>, q: Prog, stop: int)
    requires (forall m | m in f :: m in all) && (forall m | m in all :: Kept(f, m)) && StopIn(f, q, stop)
    ensures StopIn(all, q, stop)
  {
    hide Follows, After, Kept;
    if q.stop == 0 {
      if n :| Follows(f, q, n) && stop == n.start {
        FollowsAll(all, f, q, n);
      } else {
        forall m | m in all
          ensures !After(q, m)
        {
          var k := KeptAs(f, m);
          AfterKey(q, m, k);
        }
      }
    }
  }

  lemma KeptAs(f: seq<Prog>, m: Prog) returns (k: Prog)
    requires Kept(f, m)
    ensures k in f && SameKey(m, k)
  {
    k :| k in f && SameKey(m, k);
  }

  lemma AfterKey(q: Prog, m: Prog, k: Prog)
    requires SameKey(m, k)
    ensures After(q, m) == After(q, k)
  {}

  lemma FollowsAll(all: seq<Prog>, f: seq<Prog>, q: Prog, n: Prog)
    requires (forall m | m in f :: m in all) && (forall m | m in all :: Kept(f, m)) && Follows(f, q, n)
    ensures Follows(all, q, n)
  {
    hide Kept;
    forall m | m in all && After(q, m)
      ensures n.start <= m.start
    {
      var k := KeptAs(f, m);
      AfterKey(q, m, k);
    }
  }

  lemma ClosedKept(all: seq<Prog>, sorted: seq<Prog>)
    requires Sorted(sorted) && forall p | p in all :: p in sorted
    ensures forall q | q in all :: Kept(Filled(Fold(sorted)), q)
  {
    FoldKeeps(sorted);
    FilledKept(Fold(sorted));
    hide *;
  }

  lemma ClosedEnds(all: seq<Prog>, sorted: seq<Prog>)
    requires Sorted(sorted) && AllClosable(all) && forall p | p in sorted :: p in all
    ensures Ended(Filled(Fold(sorted)))
  {
    FoldKeeps(sorted);
    hide Fold, Filled, Sorted, Strict, Kept, Ended;
    FilledEnds(Fold(sorted));
  }

  lemma FilledFrom(f: seq<Prog>)
    requires Strict(f)
    ensures forall p | p in Filled(f) :: From(f, p)
  {
    var r := Filled(f);
    forall p | p in r
      ensures From(f, p)
    {
      var i :| 0 <= i < |r| && r[i] == p;
      StopFilled(f, i);
      assert f[i] in f && p == f[i].(stop := p.stop);
    }
  }

  lemma StopFilled(f: seq<Prog>, i: nat)
    requires Strict(f) && i < |f|
    ensures StopIn(f, f[i], StopOf(f, i))
  {
    var q := f[i];
    if i + 1 < |f| && f[i + 1].gch == q.gch {
      assert Before(q, f[i + 1]);
      assert Follows(f, q, f[i + 1]);
    } else {
      forall m | m in f
        ensures !After(q, m)
      {
        var j :| 0 <= j < |f| && f[j] == m;
        if i + 1 < |f| { assert Before(q, f[i + 1]); }
        if j > i + 1 { assert Before(f[i + 1], f[j]); }
        if j < i { assert Before(f[j], q); }
      }
    }
  }

  lemma FilledKept(f: seq<Prog>)
    ensures forall q :: Kept(f, q) ==> Kept(Filled(f), q)
  {
    var r := Filled(f);
    forall q | Kept(f, q)
      ensures Kept(r, q)
    {
      var k :| k in f && SameKey(q, k);
      var i :| 0 <= i < |f| && f[i] == k;
      assert r[i] in r && SameKey(q, r[i]);
    }
  }
}

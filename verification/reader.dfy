/**
 The reader of a finite playlist, app/src/hls.c: init segment and media segments, read
 through the prefetch worker's slots, a segment held in memory, or the streaming source,
 as one concatenated stream. The worker's critical sections run between the reader's.
 Buffers live in an explicit heap, each with one owner.
 */
module HlsReader {
  type Byte = b: int | 0 <= b < 256

  datatype Option<+T> = None | Some(value: T)

  const SEG_INIT := -2
  const PREFETCH_MAX := 10
  const MEM_SEG_CAP := 16 * 1024 * 1024

  datatype Slot = Slot(seg: int, buf: Option<nat>, ready: bool, fetching: bool) {
    predicate Busy() { ready || fetching }
  }

  const FREE := Slot(-1, None, false, false)

  /** Where the worker is between its critical sections. */
  datatype Job = Idle | Fetching(slot: nat, seg: nat) | Fetched(slot: nat, seg: nat, got: Option<nat>)

  /** The segment in memory. */
  datatype Mem = NoMem | Mem(seg: int, id: nat)

  /** What one pass of `hls_read` meets: a stream closed meanwhile, and what an open of the
      streaming source and a fetch into memory would come to. */
  datatype Opening = Opens | Refused | Aborted
  datatype Pass = Pass(torn: bool, open: Opening, fetched: bool)

  predicate Good(e: Pass) { !e.torn && !e.open.Aborted? && e.fetched }

  datatype Owner = OfSlot(i: nat) | OfReader | OfWorker

  /** What the resources hold: the init segment, if any, and the media segments. */
  datatype Resources = Resources(init: Option<seq<Byte>>, segs: seq<seq<Byte>>) {
    function Content(seg: int): seq<Byte> {
      if seg == SEG_INIT then (if init.Some? then init.value else [])
      else if 0 <= seg < |segs| then segs[seg] else []
    }
  }

  // ---- slots and buffers -------------------------------------------------------------

  /** Everything worker and reader share, with the live buffers and the owner of each. */
  datatype Pool = Pool(slots: seq<Slot>, job: Job, mem: Mem,
                       heap: map<nat, seq<Byte>>, owner: map<nat, Owner>, next: nat)

  ghost predicate Fits(q: Pool, r: Resources) {
    && SlotsFit(q.slots, q.job, |r.segs|) && OwnersFit(q) && SlotBytes(q, r)
    && (q.job.Fetched? && q.job.got.Some? ==>
          q.job.got.value in q.heap && q.owner[q.job.got.value] == OfWorker
          && q.heap[q.job.got.value] == r.Content(q.job.seg))
    && (q.mem.Mem? ==>
          q.mem.id in q.heap && q.owner[q.mem.id] == OfReader && q.heap[q.mem.id] == r.Content(q.mem.seg))
  }

  /** A slot is ready or being fetched, not both; no two of them for one segment. */
  ghost predicate SlotsFit(p: seq<Slot>, job: Job, n: nat) {
    && |p| == PREFETCH_MAX
    && (forall i | 0 <= i < |p| ::
          && (p[i].ready <==> p[i].buf.Some?) && !(p[i].ready && p[i].fetching)
          && (p[i].Busy() ==> 0 <= p[i].seg < n)
          && (p[i].fetching ==> !job.Idle? && job.slot == i && job.seg == p[i].seg))
    && (forall i, j | 0 <= i < j < |p| && p[i].Busy() && p[j].Busy() :: p[i].seg != p[j].seg)
    && (!job.Idle? ==> job.slot < |p| && p[job.slot].fetching)
  }

  /** Every live buffer is held by its owner. */
  ghost predicate OwnersFit(q: Pool) {
    && q.owner.Keys == q.heap.Keys
    && forall id | id in q.heap :: id < q.next &&
         match q.owner[id]
         case OfSlot(i) => i < |q.slots| && q.slots[i].buf == Some(id)
         case OfReader => q.mem.Mem? && q.mem.id == id
         case OfWorker => q.job.Fetched? && q.job.got == Some(id)
  }

  /** A ready slot holds exactly its segment, which is not empty. */
  ghost predicate SlotBytes(q: Pool, r: Resources)
    requires OwnersFit(q)
  {
    forall i | 0 <= i < |q.slots| && q.slots[i].buf.Some? ::
      var id := q.slots[i].buf.value;
      id in q.heap && q.owner[id] == OfSlot(i) && q.heap[id] == r.Content(q.slots[i].seg) != []
  }

  predicate Has(p: seq<Slot>, seg: int) {
    exists i :: 0 <= i < |p| && p[i].Busy() && p[i].seg == seg
  }

  predicate HasReady(p: seq<Slot>, seg: int) {
    exists i :: 0 <= i < |p| && p[i].ready && p[i].seg == seg
  }

  predicate AllBusy(p: seq<Slot>) {
    forall i | 0 <= i < |p| :: p[i].Busy()
  }

  lemma NotAllBusy(p: seq<Slot>, i: nat)
    requires i < |p| && !p[i].Busy()
    ensures !AllBusy(p)
  {}

  predicate Holds(q: Pool, o: Owner, id: nat) {
    match o
    case OfSlot(i) => i < |q.slots| && q.slots[i].buf == Some(id)
    case OfReader => q.mem.Mem? && q.mem.id == id
    case OfWorker => q.job.Fetched? && q.job.got == Some(id)
  }

  /** A buffer is live exactly when someone holds it, and only one does. */
  lemma OneOwner(q: Pool, r: Resources, id: nat)
    requires Fits(q, r)
    ensures id in q.heap <==> exists o :: Holds(q, o, id)
    ensures forall o, o' | Holds(q, o, id) && Holds(q, o', id) :: o == o'
  {
    hide SlotsFit;
    if id in q.heap {
      assert Holds(q, q.owner[id], id);
    }
  }

  // ---- the steps ------------------------------------------------------------------------

  /** A slot is claimed for a segment that has none. */
  function Claim(q: Pool, s: nat, seg: nat): Pool
    requires s < |q.slots|
  {
    q.(slots := q.slots[s := q.slots[s].(seg := seg, fetching := true)], job := Fetching(s, seg))
  }

  lemma Claimed(q: Pool, r: Resources, s: nat, seg: nat)
    requires Fits(q, r) && q.job.Idle? && s < |q.slots| && !q.slots[s].Busy()
    requires seg < |r.segs| && !Has(q.slots, seg)
    ensures Fits(Claim(q, s, seg), r)
  {
    var p := Claim(q, s, seg).slots;
    assert forall i | 0 <= i < |p| && i != s :: p[i] == q.slots[i];
  }

  /** The fetch ended without a buffer, or with a fresh one. */
  function Miss(q: Pool): Pool
    requires q.job.Fetching?
  {
    q.(job := Fetched(q.job.slot, q.job.seg, None))
  }

  function Hit(q: Pool, b: seq<Byte>): Pool
    requires q.job.Fetching?
  {
    q.(job := Fetched(q.job.slot, q.job.seg, Some(q.next)),
       heap := q.heap[q.next := b], owner := q.owner[q.next := OfWorker], next := q.next + 1)
  }

  lemma Missed(q: Pool, r: Resources)
    requires Fits(q, r) && q.job.Fetching?
    ensures Fits(Miss(q), r)
  {}

  lemma HitFits(q: Pool, r: Resources)
    requires Fits(q, r) && q.job.Fetching?
    ensures Fits(Hit(q, r.Content(q.job.seg)), r)
  {}

  /** The worker's buffer goes to its slot. */
  function Publish(q: Pool): Pool
    requires q.job.Fetched? && q.job.got.Some? && q.job.slot < |q.slots|
  {
    q.(slots := q.slots[q.job.slot := Slot(q.job.seg, q.job.got, true, false)], job := Idle,
       owner := q.owner[q.job.got.value := OfSlot(q.job.slot)])
  }

  lemma Published(q: Pool, r: Resources)
    requires Fits(q, r) && q.job.Fetched? && q.job.got.Some? && r.Content(q.job.seg) != []
    ensures Fits(Publish(q), r)
  {
    PublishedSlots(q, |r.segs|);
    PublishedOwners(q, r);
    hide SlotsFit, OwnersFit, SlotBytes;
  }

  lemma PublishedSlots(q: Pool, n: nat)
    requires SlotsFit(q.slots, q.job, n) && q.job.Fetched? && q.job.got.Some?
    ensures SlotsFit(Publish(q).slots, Idle, n)
  {
    var p := Publish(q).slots;
    assert forall i | 0 <= i < |p| && i != q.job.slot :: p[i] == q.slots[i];
  }

  lemma PublishedOwners(q: Pool, r: Resources)
    requires OwnersFit(q) && SlotBytes(q, r) && q.job.Fetched? && q.job.slot < |q.slots|
    requires q.slots[q.job.slot].buf.None?
    requires q.job.got.Some? && q.job.got.value in q.heap && q.owner[q.job.got.value] == OfWorker
    requires q.heap[q.job.got.value] == r.Content(q.job.seg) != []
    ensures OwnersFit(Publish(q)) && SlotBytes(Publish(q), r)
  {
    var p := Publish(q).slots;
    assert forall i | 0 <= i < |p| && i != q.job.slot :: p[i] == q.slots[i];
  }

  /** The worker's buffer is freed. */
  function Drop(q: Pool, id: nat): Pool {
    q.(heap := q.heap - {id}, owner := q.owner - {id})
  }

  lemma Dropped(q: Pool, r: Resources)
    requires Fits(q, r) && q.job.Fetched? && q.job.got.Some?
    ensures Fits(Drop(q, q.job.got.value).(job := q.job.(got := None)), r)
  {}

  /** The slot is given back. */
  lemma GivenBack(q: Pool, r: Resources)
    requires Fits(q, r) && q.job.Fetched? && q.job.got.None?
    ensures Fits(q.(slots := q.slots[q.job.slot := FREE], job := Idle), r)
  {
    var p := q.slots[q.job.slot := FREE];
    assert forall i | 0 <= i < |p| && i != q.job.slot :: p[i] == q.slots[i];
  }

  lemma OwnersOf(q: Pool, r: Resources)
    requires Fits(q, r)
    ensures OwnersFit(q) && SlotBytes(q, r) && MemLive(q)
  {}

  lemma MemHolds(q: Pool, r: Resources)
    requires Fits(q, r) && q.mem.Mem?
    ensures q.mem.id in q.heap && q.heap[q.mem.id] == r.Content(q.mem.seg)
  {}

  /** What every state gives to a caller. */
  lemma Shape(q: Pool, r: Resources)
    requires Fits(q, r)
    ensures |q.slots| == PREFETCH_MAX
    ensures forall i | 0 <= i < |q.slots| && q.slots[i].ready :: q.slots[i].buf.Some?
    ensures !q.job.Idle? ==>
      q.job.slot < |q.slots| && q.slots[q.job.slot].fetching && q.slots[q.job.slot].seg == q.job.seg < |r.segs|
    ensures q.job.Fetched? && q.job.got.Some? ==>
      q.job.got.value in q.heap && q.heap[q.job.got.value] == r.Content(q.job.seg)
    ensures q.mem.Mem? ==> q.mem.id in q.heap && q.heap[q.mem.id] == r.Content(q.mem.seg)
  {}

  /** The reader takes a ready slot's buffer; it must hold none. */
  function TakeSlot(q: Pool, i: nat): Pool
    requires i < |q.slots| && q.slots[i].buf.Some?
  {
    var id := q.slots[i].buf.value;
    q.(slots := q.slots[i := FREE], mem := Mem(q.slots[i].seg, id), owner := q.owner[id := OfReader])
  }

  lemma Taken(q: Pool, r: Resources, i: nat)
    requires Fits(q, r) && q.mem.NoMem? && i < |q.slots| && q.slots[i].ready
    ensures q.slots[i].buf.Some? && Fits(TakeSlot(q, i), r)
  {
    TakenSlots(q.slots, q.job, |r.segs|, i);
    TakenOwners(q, r, i);
    hide SlotsFit, OwnersFit, SlotBytes;
  }

  lemma TakenSlots(p: seq<Slot>, job: Job, n: nat, i: nat)
    requires SlotsFit(p, job, n) && i < |p| && p[i].ready
    ensures SlotsFit(p[i := FREE], job, n)
  {
    assert forall j | 0 <= j < |p| && j != i :: p[i := FREE][j] == p[j];
  }

  lemma TakenOwners(q: Pool, r: Resources, i: nat)
    requires OwnersFit(q) && SlotBytes(q, r) && q.mem.NoMem? && i < |q.slots| && q.slots[i].buf.Some?
    ensures OwnersFit(TakeSlot(q, i)) && SlotBytes(TakeSlot(q, i), r)
    ensures var id := q.slots[i].buf.value;
      id in q.heap && q.owner[id] == OfSlot(i) && q.heap[id] == r.Content(q.slots[i].seg)
  {
    var p := q.slots[i := FREE];
    assert forall j | 0 <= j < |p| && j != i :: p[j] == q.slots[j];
  }

  /** The reader's buffer is freed. */
  lemma Released(q: Pool, r: Resources)
    requires Fits(q, r) && q.mem.Mem?
    ensures Fits(Drop(q, q.mem.id).(mem := NoMem), r)
  {}

  /** The reader gets a buffer of its own. */
  function Hold(q: Pool, seg: int, b: seq<Byte>): Pool {
    q.(mem := Mem(seg, q.next), heap := q.heap[q.next := b], owner := q.owner[q.next := OfReader], next := q.next + 1)
  }

  lemma Held(q: Pool, r: Resources, seg: int)
    requires Fits(q, r) && q.mem.NoMem?
    ensures Fits(Hold(q, seg, r.Content(seg)), r)
  {}

  /** The reader's buffer is live. */
  ghost predicate MemLive(q: Pool) {
    q.mem.Mem? ==> q.mem.id in q.heap && q.mem.id in q.owner && q.owner[q.mem.id] == OfReader
  }

  /** A slot emptied, its buffer freed. */
  function Empty(q: Pool, i: nat): Pool
    requires i < |q.slots|
  {
    var d := if q.slots[i].buf.Some? then Drop(q, q.slots[i].buf.value) else q;
    d.(slots := q.slots[i := FREE])
  }

  lemma Emptied(q: Pool, r: Resources, i: nat)
    requires OwnersFit(q) && SlotBytes(q, r) && i < |q.slots|
    ensures q.slots[i].buf.Some? ==> q.slots[i].buf.value in q.heap
    ensures OwnersFit(Empty(q, i)) && SlotBytes(Empty(q, i), r)
    ensures MemLive(q) ==> MemLive(Empty(q, i))
  {
    var p := q.slots[i := FREE];
    assert forall j | 0 <= j < |p| && j != i :: p[j] == q.slots[j];
  }

  /** With no owner left there is no buffer left. */
  lemma NoneLeft(q: Pool, r: Resources)
    requires OwnersFit(q) && forall i | 0 <= i < |q.slots| :: q.slots[i] == FREE
    requires q.mem.NoMem? && !(q.job.Fetched? && q.job.got.Some?)
    ensures q.heap == map[]
    ensures |q.slots| == PREFETCH_MAX ==> Fits(q.(job := Idle), r)
  {
    if id :| id in q.heap {
      assert false;
    }
  }

  // ---- the stream ------------------------------------------------------------------------

  function Concat(s: seq<seq<Byte>>): (r: seq<Byte>) {
    if s == [] then [] else s[0] + Concat(s[1..])
  }

  /** Everything from a place on: the init segment if it is pending, then the segments. */
  function Stream(r: Resources, initPending: bool, segIdx: nat): seq<Byte>
    requires segIdx <= |r.segs|
  {
    (if initPending then r.Content(SEG_INIT) else []) + Concat(r.segs[segIdx..])
  }

  /** The current resource, and what follows it. */
  function Here(r: Resources, initPending: bool, segIdx: nat): seq<Byte> {
    r.Content(if initPending then SEG_INIT else segIdx)
  }

  function Next(r: Resources, initPending: bool, segIdx: nat): seq<Byte>
    requires segIdx <= |r.segs|
  {
    if initPending then Stream(r, false, segIdx)
    else if segIdx < |r.segs| then Stream(r, false, segIdx + 1)
    else []
  }

  /** What is left at byte `pos` of the current resource. */
  function Left(r: Resources, initPending: bool, segIdx: nat, pos: nat): seq<Byte>
    requires segIdx <= |r.segs| && pos <= |Here(r, initPending, segIdx)|
  {
    Here(r, initPending, segIdx)[pos..] + Next(r, initPending, segIdx)
  }

  /** From the start of a place everything is left; at the end of a resource, what follows it. */
  lemma LeftStart(r: Resources, initPending: bool, segIdx: nat)
    requires segIdx <= |r.segs| && (initPending ==> r.init.Some?)
    ensures Left(r, initPending, segIdx, 0) == Stream(r, initPending, segIdx)
  {
    if segIdx < |r.segs| { StreamStep(r, segIdx); }
  }

  lemma LeftEnd(r: Resources, initPending: bool, segIdx: nat)
    requires segIdx <= |r.segs| && (initPending || segIdx < |r.segs|)
    ensures Left(r, initPending, segIdx, |Here(r, initPending, segIdx)|)
         == Left(r, false, if initPending then segIdx else segIdx + 1, 0)
  {
    LeftStart(r, false, if initPending then segIdx else segIdx + 1);
    hide Stream;
  }

  lemma LeftSplit(r: Resources, initPending: bool, segIdx: nat, pos: nat, n: nat)
    requires segIdx <= |r.segs| && pos + n <= |Here(r, initPending, segIdx)|
    ensures Left(r, initPending, segIdx, pos)
         == Here(r, initPending, segIdx)[pos..pos + n] + Left(r, initPending, segIdx, pos + n)
  {
    hide Here, Next;
    var c := Here(r, initPending, segIdx);
    assert c[pos..] == c[pos..pos + n] + c[pos + n..];
  }

  /** Bytes handed out are the front of what was left. */
  lemma Delivered(out: seq<Byte>, r: Resources, initPending: bool, segIdx: nat, pos: nat, n: nat)
    requires segIdx <= |r.segs| && pos + n <= |Here(r, initPending, segIdx)|
    ensures out + Left(r, initPending, segIdx, pos)
         == out + Here(r, initPending, segIdx)[pos..pos + n] + Left(r, initPending, segIdx, pos + n)
  {
    LeftSplit(r, initPending, segIdx, pos, n);
    hide Here, Left;
  }

  lemma StreamStep(r: Resources, segIdx: nat)
    requires segIdx < |r.segs|
    ensures Stream(r, false, segIdx) == r.segs[segIdx] + Stream(r, false, segIdx + 1)
    ensures Stream(r, true, segIdx) == r.Content(SEG_INIT) + Stream(r, false, segIdx)
  {
    assert r.segs[segIdx..][1..] == r.segs[segIdx + 1..];
  }

  /** The network: whole fetches, and a streaming source over one opened resource. */
  class Net {
    const content: Resources

    constructor (content: Resources)
      ensures this.content == content
    {
      this.content := content;
    }

    /** A fetch that succeeds brings the whole resource. */
    method Fetch(seg: int) returns (body: seq<Byte>)
      ensures body == content.Content(seg)
    {
      body := content.Content(seg);
    }

    /** `httpsrc_read`: some of the bytes at a position, none only at the end of the resource. */
    method Recv(seg: int, pos: nat, len: nat) returns (got: seq<Byte>)
      requires pos <= |content.Content(seg)| && len > 0
      ensures |got| <= len && pos + |got| <= |content.Content(seg)|
      ensures got == content.Content(seg)[pos..pos + |got|]
      ensures got == [] <==> pos == |content.Content(seg)|
    {
      var left := |content.Content(seg)| - pos;
      if left == 0 { return []; }
      var n: int := *;
      if n <= 0 || n > len || n > left { n := 1; }
      got := content.Content(seg)[pos..pos + n];
    }
  }

  class Reader {
    const net: Net
    /** What the resources hold; the reader itself sees only what it fetched or received. */
    ghost const res: Resources := net.content
    /** How many segments the playlist lists, and whether it names an init segment. */
    const segCount: nat := |net.content.segs|
    const hasInit: bool := net.content.init.Some?
    /** Which resources need neither range nor key. */
    const plainInit: bool
    const plain: seq<bool>

    var heap: map<nat, seq<Byte>>
    var nextId: nat
    ghost var owner: map<nat, Owner>

    const pref: array<Slot>
    var prefUp: bool
    var prefDepth: nat
    var job: Job

    var mem: Mem
    var memPos: nat
    var segIdx: nat
    var initPending: bool
    /** The streaming source: whether it is open, on which resource, and how far it was read. */
    var open: bool
    var src: int
    var segPos: nat
    var forceAseg: bool

    /** Delivered since the place was last set, and all there was from there. */
    ghost var out: seq<Byte>
    ghost var whole: seq<Byte>

    ghost function Shared(): Pool
      reads pref, `job, `mem, `heap, `owner, `nextId
    {
      Pool(pref[..], job, mem, heap, owner, nextId)
    }

    ghost predicate Placed()
      reads `mem, `memPos, `segIdx, `initPending, `open, `src, `segPos
    {
      && segIdx <= |res.segs| == |plain|
      && (initPending ==> res.init.Some?)
      && (mem.Mem? || open ==> initPending || segIdx < |res.segs|)
      && (mem.Mem? ==> !open && mem.seg == Cur() && memPos <= |Here(res, initPending, segIdx)|)
      && (open ==> src == Cur() && segPos <= |Here(res, initPending, segIdx)|)
    }

    function Cur(): int
      reads `initPending, `segIdx
    {
      if initPending then SEG_INIT else segIdx
    }

    /** How far into the current resource. */
    function At(): nat
      reads `mem, `memPos, `open, `segPos
    {
      if mem.Mem? then memPos else if open then segPos else 0
    }

    /** What is still to come. */
    ghost function Remaining(): (r: seq<Byte>)
      requires Placed()
      reads `mem, `memPos, `segIdx, `initPending, `open, `src, `segPos
    {
      Left(res, initPending, segIdx, At())
    }

    ghost predicate Sound()
      reads pref, `job, `mem, `heap, `owner, `nextId, `memPos, `segIdx, `initPending, `open, `src, `segPos, `prefUp
    {
      Placed() && Fits(Shared(), res) && (!prefUp ==> job.Idle?)
    }

    ghost predicate Valid()
      reads this, pref
    {
      Sound() && out + Remaining() == whole
    }

    // ---- the heap ---------------------------------------------------------------

    method Malloc(b: seq<Byte>, ghost o: Owner) returns (id: nat)
      modifies `heap, `nextId, `owner
      ensures id == old(nextId) && nextId == id + 1
      ensures heap == old(heap)[id := b] && owner == old(owner)[id := o]
    {
      id := nextId;
      heap, owner := heap[id := b], owner[id := o];
      nextId := nextId + 1;
    }

    /** A buffer is freed once: it must be live. */
    method Free(id: nat)
      requires id in heap
      modifies `heap, `owner
      ensures heap == old(heap) - {id} && owner == old(owner) - {id}
    {
      heap, owner := heap - {id}, owner - {id};
    }

    // ---- the worker, `prefetch_main` ---------------------------------------------

    method PrefetchHas(seg: int) returns (has: bool)
      ensures has == Has(pref[..], seg)
    {
      var i := 0;
      while i < pref.Length
        invariant 0 <= i <= pref.Length
        invariant forall j | 0 <= j < i :: !(pref[j].Busy() && pref[j].seg == seg)
      {
        if pref[i].Busy() && pref[i].seg == seg {
          assert pref[..][i].seg == seg;
          return true;
        }
        i := i + 1;
      }
      return false;
    }

    method FreeSlot() returns (i: nat)
      ensures i <= pref.Length
      ensures if i < pref.Length then !pref[i].Busy() else AllBusy(pref[..])
    {
      i := 0;
      while i < pref.Length && pref[i].Busy()
        invariant 0 <= i <= pref.Length
        invariant forall j | 0 <= j < i :: pref[j].Busy()
      {
        i := i + 1;
      }
    }

    /** The first segment of the window ahead without a slot, and a free slot for it. */
    method Choose() returns (slot: nat, seg: nat)
      ensures slot < pref.Length ==>
        && segIdx < seg < segIdx + 1 + prefDepth && seg < |res.segs| && !pref[slot].Busy()
        && !Has(pref[..], seg) && forall s | segIdx < s < seg :: Has(pref[..], s)
      ensures slot >= pref.Length ==>
        AllBusy(pref[..]) || forall s | segIdx < s < segIdx + 1 + prefDepth && s < |res.segs| :: Has(pref[..], s)
    {
      hide Has, AllBusy;
      seg := segIdx + 1;
      while seg < segIdx + 1 + prefDepth && seg < segCount
        invariant segIdx + 1 <= seg
        invariant AllBusy(pref[..]) || forall s | segIdx < s < seg :: Has(pref[..], s)
      {
        var has := PrefetchHas(seg);
        if !has {
          slot := FreeSlot();
          if slot < pref.Length {
            NotAllBusy(pref[..], slot);
            return;
          }
        }
        seg := seg + 1;
      }
      slot := pref.Length;
    }

    /** First critical section: claim a slot for the first segment ahead that has none. */
    method WorkerPick()
      requires Fits(Shared(), res) && prefUp && job.Idle?
      modifies pref, `job
      ensures Fits(Shared(), res) && !job.Fetched?
      ensures job.Fetching? ==>
        && segIdx < job.seg < segIdx + 1 + prefDepth && !Has(old(pref[..]), job.seg)
        && (forall s | segIdx < s < job.seg :: Has(old(pref[..]), s))
        && job.slot < pref.Length && Shared() == Claim(old(Shared()), job.slot, job.seg)
      ensures job.Idle? ==>
        && pref[..] == old(pref[..])
        && (AllBusy(pref[..]) || forall s | segIdx < s < segIdx + 1 + prefDepth && s < |res.segs| :: Has(pref[..], s))
    {
      hide Fits, Has, AllBusy;
      ghost var q := Shared();
      var slot, seg := Choose();
      if slot < pref.Length {
        Claimed(q, res, slot, seg);
        pref[slot] := pref[slot].(seg := seg, fetching := true);
        job := Fetching(slot, seg);
        assert Shared() == Claim(q, slot, seg);
      }
    }

    /** Outside the lock: the segment is fetched whole, or not. */
    method WorkerFetch(ok: bool)
      requires Fits(Shared(), res) && job.Fetching?
      modifies `heap, `nextId, `owner, `job
      ensures Fits(Shared(), res)
      ensures Shared() == if ok then Hit(old(Shared()), res.Content(old(job.seg))) else Miss(old(Shared()))
    {
      hide Fits;
      ghost var q := Shared();
      if ok {
        HitFits(q, res);
        var body := net.Fetch(job.seg);
        var id := Malloc(body, OfWorker);
        job := Fetched(job.slot, job.seg, Some(id));
        assert Shared() == Hit(q, res.Content(q.job.seg));
      } else {
        Missed(q, res);
        job := Fetched(job.slot, job.seg, None);
      }
    }

    /** Second critical section: publish the segment, or give the slot back. */
    method WorkerStore()
      requires Fits(Shared(), res) && prefUp && job.Fetched?
      modifies pref, `heap, `owner, `job
      ensures Fits(Shared(), res) && job.Idle?
      ensures var s, seg := old(job.slot), old(job.seg);
        && s < pref.Length && pref[..] == old(pref[..])[s := pref[s]]
        && pref[s] == if old(job).got.Some? && res.Content(seg) != [] then Slot(seg, old(job).got, true, false)
          else FREE
    {
      Shape(Shared(), res);
      hide Fits;
      var s := job.slot;
      assert Shared().slots[s] == pref[s];
      if pref[s].seg == job.seg && pref[s].fetching {
        if job.got.Some? && |heap[job.got.value]| > 0 {
          StoreReady();
        } else {
          StoreNothing();
        }
      } else {
        assert false;
      }
    }

    method StoreReady()
      requires Fits(Shared(), res) && job.Fetched? && job.got.Some? && res.Content(job.seg) != []
      requires job.slot < pref.Length && pref[job.slot].seg == job.seg
      modifies pref, `owner, `job
      ensures Fits(Shared(), res) && Shared() == Publish(old(Shared()))
    {
      ghost var q := Shared();
      Published(q, res);
      hide Fits;
      var s := job.slot;
      pref[s] := Slot(pref[s].seg, job.got, true, false);
      owner := owner[job.got.value := OfSlot(s)];
      job := Idle;
      assert pref[..] == q.slots[s := pref[s]];
    }

    method StoreNothing()
      requires Fits(Shared(), res) && job.Fetched? && job.slot < pref.Length
      modifies pref, `heap, `owner, `job
      ensures Fits(Shared(), res) && job.Idle?
      ensures pref[..] == old(pref[..])[old(job.slot) := FREE]
    {
      ghost var q := Shared();
      Shape(q, res);
      if job.got.Some? { Dropped(q, res); }
      hide Fits;
      var s := job.slot;
      if job.got.Some? { Free(job.got.value); }
      job := job.(got := None);
      ghost var d := Shared();
      GivenBack(d, res);
      pref[s] := FREE;
      job := Idle;
      assert pref[..] == d.slots[s := FREE];
    }

    /** Any number of steps of the worker, while the reader does not hold the lock. */
    method Interleave()
      requires Sound()
      modifies pref, `heap, `owner, `job, `nextId
      ensures Sound()
    {
      hide Fits, Left, Next, Here, HasReady;
      var n: nat := *;
      while n > 0
        modifies pref, `heap, `owner, `job, `nextId
        invariant Sound()
      {
        if prefUp {
          if job.Idle? {
            WorkerPick();
          } else if job.Fetching? {
            var ok: bool := *;
            WorkerFetch(ok);
          } else {
            WorkerStore();
          }
        }
        n := n - 1;
      }
    }

    // ---- the reader ------------------------------------------------------------------

    /** `prefetch_take`: the ready slot of a segment becomes the reader's buffer. */
    method PrefetchTake(seg: nat) returns (got: bool)
      requires Sound() && mem.NoMem? && !open && !initPending && seg == segIdx < |res.segs|
      modifies pref, `owner, `mem, `memPos
      ensures Sound() && Remaining() == old(Remaining())
      ensures got ==> mem.Mem? && mem.seg == seg && memPos == 0
      ensures !got ==> mem.NoMem? && pref[..] == old(pref[..])
      ensures prefUp && HasReady(old(pref[..]), seg) ==> got
    {
      hide Fits, Left, Next, Here, HasReady;
      if !prefUp { return false; }
      var i := FindReady(seg);
      if i == pref.Length { return false; }
      TakeFrom(i);
      return true;
    }

    method FindReady(seg: nat) returns (i: nat)
      ensures i <= pref.Length
      ensures i < pref.Length ==> pref[i].ready && pref[i].seg == seg
      ensures i == pref.Length ==> !HasReady(pref[..], seg)
    {
      i := 0;
      while i < pref.Length && !(pref[i].ready && pref[i].seg == seg)
        invariant 0 <= i <= pref.Length
        invariant forall j | 0 <= j < i :: !(pref[j].ready && pref[j].seg == seg)
      {
        i := i + 1;
      }
    }

    method TakeFrom(i: nat)
      requires Fits(Shared(), res) && mem.NoMem? && i < pref.Length && pref[i].ready
      modifies pref, `owner, `mem, `memPos
      ensures Fits(Shared(), res) && mem.Mem? && mem.seg == old(pref[i].seg) && memPos == 0
    {
      ghost var q := Shared();
      Shape(q, res);
      Taken(q, res, i);
      hide Fits;
      assert q.slots[i] == pref[i];
      var id := pref[i].buf.value;
      mem, memPos := Mem(pref[i].seg, id), 0;
      owner := owner[id := OfReader];
      pref[i] := FREE;
      assert pref[..] == q.slots[i := FREE];
    }

    method FreeMem()
      requires Fits(Shared(), res) && mem.Mem?
      modifies `heap, `owner, `mem, `memPos
      ensures Fits(Shared(), res) && mem.NoMem? && memPos == 0
    {
      Shape(Shared(), res);
      Released(Shared(), res);
      hide Fits;
      ghost var q := Shared();
      Free(mem.id);
      mem, memPos := NoMem, 0;
      assert Shared() == Drop(q, q.mem.id).(mem := NoMem);
    }

    /** `open_mem_segment`: the current resource fetched whole into memory. */
    method OpenMem(fetched: bool) returns (ok: bool)
      requires Sound() && mem.NoMem? && !open && (initPending || segIdx < |res.segs|)
      modifies `heap, `owner, `nextId, `mem, `memPos
      ensures Sound() && Remaining() == old(Remaining())
      ensures ok == (fetched && 0 < |res.Content(Cur())| <= MEM_SEG_CAP)
      ensures if ok then mem.Mem? && memPos == 0 else mem.NoMem?
    {
      hide Fits, Left, Next, Here, HasReady;
      if !fetched { return false; }
      HoldBody();
      if |heap[mem.id]| > MEM_SEG_CAP || |heap[mem.id]| == 0 {
        FreeMem();
        return false;
      }
      return true;
    }

    method HoldBody()
      requires Fits(Shared(), res) && mem.NoMem?
      modifies `heap, `owner, `nextId, `mem, `memPos
      ensures Fits(Shared(), res) && mem.Mem? && mem.seg == Cur() && memPos == 0
      ensures mem.id in heap && heap[mem.id] == res.Content(Cur())
    {
      ghost var q := Shared();
      Held(q, res, Cur());
      hide Fits;
      var body := net.Fetch(Cur());
      var id := Malloc(body, OfReader);
      mem, memPos := Mem(Cur(), id), 0;
      assert Shared() == Hold(q, Cur(), res.Content(Cur()));
    }

    /** Whether the current resource needs neither range nor key. */
    predicate IsPlain()
      requires !initPending ==> segIdx < |plain|
      reads `initPending, `segIdx
    {
      if initPending then plainInit else plain[segIdx]
    }

    ghost predicate AtEnd()
      reads `initPending, `segIdx
    {
      !initPending && segIdx >= |res.segs|
    }

    /** The current resource cannot be had: its open is aborted, or where it is not streamed its
        fetch fails, or it is empty or too large for memory. */
    ghost predicate Stuck(e: Pass)
      requires !AtEnd() ==> initPending || segIdx < |plain|
      reads `initPending, `segIdx, `forceAseg
    {
      && !AtEnd()
      && if IsPlain() && !forceAseg && !e.open.Refused? then e.open.Aborted?
         else !(e.fetched && 0 < |res.Content(Cur())| <= MEM_SEG_CAP)
    }

    /** `ensure_segment`: something to read is at hand, or the end, or the resource cannot be had. */
    method EnsureSegment(e: Pass) returns (ok: bool)
      requires Sound()
      modifies pref, `job, `mem, `heap, `owner, `nextId, `memPos, `open, `src, `segPos, `forceAseg
      ensures Sound() && Remaining() == old(Remaining())
      ensures ok ==> mem.Mem? || (open && src == Cur())
      ensures !ok ==> mem.NoMem? && !open && forceAseg == old(forceAseg) && (AtEnd() || Stuck(e))
    {
      hide Fits, Left, Next, Here, HasReady, Resources.Content;
      if mem.Mem? || open { return true; }
      if !initPending {
        if segIdx >= segCount { return false; }
        Interleave();
        var got := PrefetchTake(segIdx);
        if got { return true; }
      }
      if !forceAseg && IsPlain() {
        if e.open.Opens? {
          open, src, segPos := true, Cur(), 0;
          return true;
        }
        if e.open.Aborted? { return false; }
      }
      ok := OpenMem(e.fetched);
      if ok && IsPlain() { forceAseg := true; }
    }

    /** The drained resource is left behind. */
    method Advance(wasInit: bool)
      requires Placed() && mem.NoMem? && !open && At() == 0
      requires wasInit == initPending && (initPending || segIdx < |res.segs|)
      modifies `initPending, `segIdx
      ensures Placed() && At() == 0
      ensures Remaining() == Left(res, old(initPending), old(segIdx), |Here(res, old(initPending), old(segIdx))|)
      ensures !initPending && segIdx == if wasInit then old(segIdx) else old(segIdx) + 1
    {
      LeftEnd(res, initPending, segIdx);
      hide Fits, Left, Next, Here, HasReady;
      if wasInit {
        initPending := false;
      } else {
        segIdx := segIdx + 1;
      }
    }

    /** One pass over the segment in memory: bytes of it, or its end. */
    method ReadMem(len: nat) returns (n: nat, bytes: seq<Byte>)
      requires Valid() && mem.Mem? && len > 0
      modifies `memPos, `mem, `heap, `owner, `initPending, `segIdx, `out
      ensures Valid() && out == old(out) + bytes && |bytes| == n <= len
      ensures Units() == if n == 0 then old(Units()) - 1 else old(Units())
    {
      hide Fits, Left, Next, Here, Resources.Content, Shared;
      var avail := InMemory();
      if avail > 0 {
        n := if len < avail then len else avail;
        bytes := CopyOut(n);
        return n, bytes;
      }
      DrainMem();
      return 0, [];
    }

    /** Bytes left of the segment in memory. */
    method InMemory() returns (avail: nat)
      requires Valid() && mem.Mem?
      ensures memPos + avail == |Here(res, initPending, segIdx)|
    {
      BufferIsHere();
      hide Fits, Left, Next, Here, Resources.Content;
      avail := |heap[mem.id]| - memPos;
    }

    /** The reader's buffer is live and holds the current resource. */
    lemma BufferIsHere()
      requires Sound() && mem.Mem?
      ensures mem.id in heap && heap[mem.id] == Here(res, initPending, segIdx)
    {
      MemHolds(Shared(), res);
      hide Fits, Left, Next, Resources.Content;
    }

    method CopyOut(n: nat) returns (bytes: seq<Byte>)
      requires Valid() && mem.Mem? && memPos + n <= |Here(res, initPending, segIdx)|
      modifies `memPos, `out
      ensures Valid() && out == old(out) + bytes && |bytes| == n
    {
      BufferIsHere();
      hide Fits, Left, Next, Here, Resources.Content;
      bytes := heap[mem.id][memPos..memPos + n];
      Delivered(out, res, initPending, segIdx, memPos, n);
      out := out + bytes;
      memPos := memPos + n;
    }

    method DrainMem()
      requires Sound() && mem.Mem? && memPos == |Here(res, initPending, segIdx)|
      modifies `memPos, `mem, `heap, `owner, `initPending, `segIdx
      ensures Sound() && Remaining() == old(Remaining()) && Units() == old(Units()) - 1
    {
      hide Fits, Left, Next, Here;
      var wasInit := mem.seg == SEG_INIT;
      FreeMem();
      Advance(wasInit);
    }

    /** One pass over the streaming source. */
    method ReadHttp(len: nat) returns (n: nat, bytes: seq<Byte>)
      requires Valid() && mem.NoMem? && open && len > 0
      modifies `open, `segPos, `initPending, `segIdx, `out
      ensures Valid() && out == old(out) + bytes && |bytes| == n <= len
      ensures Units() == if n == 0 then old(Units()) - 1 else old(Units())
    {
      hide Fits, Left, Next, Here, Resources.Content, Shared;
      bytes := Receive(len);
      if |bytes| > 0 {
        PassOn(bytes);
        return |bytes|, bytes;
      }
      open, segPos := false, 0;
      Advance(initPending);
      return 0, [];
    }

    /** Some of the opened source, which is the current resource. */
    method Receive(len: nat) returns (bytes: seq<Byte>)
      requires Placed() && open && len > 0
      ensures var here := Here(res, initPending, segIdx);
        && |bytes| <= len && segPos + |bytes| <= |here| && bytes == here[segPos..segPos + |bytes|]
        && (bytes == [] <==> segPos == |here|)
    {
      assert net.content.Content(src) == Here(res, initPending, segIdx);
      bytes := net.Recv(src, segPos, len);
    }

    /** What the source gave is handed on. */
    method PassOn(bytes: seq<Byte>)
      requires Valid() && mem.NoMem? && open && segPos + |bytes| <= |Here(res, initPending, segIdx)|
      requires bytes == Here(res, initPending, segIdx)[segPos..segPos + |bytes|]
      modifies `segPos, `out
      ensures Valid() && out == old(out) + bytes
    {
      hide Fits, Left, Next, Here, Resources.Content;
      Delivered(out, res, initPending, segIdx, segPos, |bytes|);
      out := out + bytes;
      segPos := segPos + |bytes|;
    }

    /** Resources not yet left behind. */
    ghost function Units(): int
      reads `initPending, `segIdx
    {
      (if initPending then 1 else 0) + |res.segs| - segIdx
    }

    /**
     `hls_read`: the next bytes of the stream, never more than asked for. Each pass leaves a
     drained resource behind, until one gives bytes or fails: without bytes the stream was
     closed, is at its end, or the resource it came to cannot be had.
     */
    method Read(len: nat, env: seq<Pass>) returns (n: int, bytes: seq<Byte>)
      requires Valid() && len > 0
      modifies this, pref
      ensures Valid() && whole == old(whole)
      ensures out == old(out) + bytes && (if n > 0 then |bytes| == n <= len else bytes == [])
      ensures 0 <= old(Units()) - Units() && forall j | 0 <= j < old(Units()) - Units() :: j < |env| && !env[j].torn
      ensures n <= 0 ==>
        var k := old(Units()) - Units();
        if k >= |env| || env[k].torn then n == -1 else n == 0 && (out == whole || Stuck(env[k]))
      // with nothing going wrong there are bytes exactly while any are left
      ensures (forall e | e in env :: Good(e)) && |env| > old(Units()) && Loadable() ==> (n > 0 <==> old(out) != whole)
    {
      LeftNothing(res);
      hide Fits, Left, Next, Here, Resources.Content;
      ghost var units := Units();
      var k := 0;
      while true
        invariant Valid() && out == old(out) && whole == old(whole)
        invariant 0 <= k == units - Units()
        invariant forall j | 0 <= j < k :: j < |env| && !env[j].torn
        decreases Units()
      {
        assert k < |env| ==> env[k] in env;
        if k >= |env| || env[k].torn { return -1, []; }
        var ok := EnsureSegment(env[k]);
        if !ok { return 0, []; }
        if mem.Mem? {
          n, bytes := ReadMem(len);
        } else {
          n, bytes := ReadHttp(len);
        }
        if n > 0 { return n, bytes; }
        k := k + 1;
      }
    }

    /** Every resource can be held in memory. */
    ghost predicate Loadable() {
      && (res.init.Some? ==> 0 < |res.Content(SEG_INIT)| <= MEM_SEG_CAP)
      && forall i | 0 <= i < |res.segs| :: 0 < |res.Content(i)| <= MEM_SEG_CAP
    }

    /** The worker ends: whatever it was fetching is dropped. */
    method JoinWorker()
      requires Sound()
      modifies pref, `heap, `owner, `nextId, `job
      ensures OwnersFit(Shared()) && SlotBytes(Shared(), res) && MemLive(Shared()) && (job.Fetched? ==> job.got.None?)
    {
      hide Fits, Left, Next, Here;
      Interleave();
      if job.Fetching? {
        var ok: bool := *;
        WorkerFetch(ok);
      }
      OwnersOf(Shared(), res);
      if job.Fetched? && job.got.Some? {
        ghost var q := Shared();
        Dropped(q, res);
        Shape(q, res);
        Free(job.got.value);
        job := job.(got := None);
        assert Shared() == Drop(q, q.job.got.value).(job := q.job.(got := None));
        OwnersOf(Shared(), res);
      }
    }

    /** `prefetch_stop`: afterwards no buffer is live. */
    method Stop()
      requires Sound()
      modifies pref, `heap, `owner, `nextId, `job, `mem, `memPos, `prefUp
      ensures Fits(Shared(), res) && mem.NoMem? && !prefUp && job.Idle?
      ensures heap == map[] && forall i | 0 <= i < pref.Length :: pref[i] == FREE
    {
      Shape(Shared(), res);
      hide Fits, OwnersFit, SlotBytes, MemLive;
      JoinWorker();
      prefUp := false;
      ClearSlots();
      Vacate();
    }

    method Vacate()
      requires OwnersFit(Shared()) && MemLive(Shared()) && (job.Fetched? ==> job.got.None?)
      requires pref.Length == PREFETCH_MAX && forall j | 0 <= j < |Shared().slots| :: Shared().slots[j] == FREE
      modifies `heap, `owner, `job, `mem, `memPos
      ensures Fits(Shared(), res) && mem.NoMem? && job.Idle? && heap == map[]
    {
      hide Fits, OwnersFit, MemLive;
      if mem.Mem? {
        FreeLast();
      }
      memPos := 0;
      NoneLeft(Shared(), res);
      job := Idle;
    }

    /** `prefetch_clear_locked` */
    method ClearSlots()
      requires OwnersFit(Shared()) && SlotBytes(Shared(), res) && MemLive(Shared())
      modifies pref, `heap, `owner
      ensures OwnersFit(Shared()) && MemLive(Shared())
      ensures forall j | 0 <= j < pref.Length :: pref[j] == FREE
      ensures forall j | 0 <= j < |Shared().slots| :: Shared().slots[j] == FREE
    {
      hide Fits, OwnersFit, SlotBytes, MemLive;
      var i := 0;
      while i < pref.Length
        modifies pref, `heap, `owner
        invariant 0 <= i <= pref.Length
        invariant OwnersFit(Shared()) && SlotBytes(Shared(), res) && MemLive(Shared())
        invariant forall j | 0 <= j < i :: pref[j] == FREE
      {
        ClearSlot(i);
        i := i + 1;
      }
    }

    method ClearSlot(i: nat)
      requires OwnersFit(Shared()) && SlotBytes(Shared(), res) && MemLive(Shared()) && i < pref.Length
      modifies pref, `heap, `owner
      ensures OwnersFit(Shared()) && SlotBytes(Shared(), res) && MemLive(Shared())
      ensures pref[..] == old(pref[..])[i := FREE]
    {
      ghost var q := Shared();
      assert q.slots[i] == pref[i];
      Emptied(q, res, i);
      hide OwnersFit, SlotBytes, MemLive;
      if pref[i].buf.Some? { Free(pref[i].buf.value); }
      pref[i] := FREE;
      assert pref[..] == q.slots[i := FREE];
      assert Shared() == Empty(q, i);
    }

    method FreeLast()
      requires OwnersFit(Shared()) && MemLive(Shared()) && mem.Mem?
      modifies `heap, `owner, `mem
      ensures OwnersFit(Shared()) && mem.NoMem?
    {
      Free(mem.id);
      mem := NoMem;
    }

    /** `prefetch_start`: the thread may fail to start. */
    method Start(depth: int)
      requires Sound() && (!prefUp ==> forall i | 0 <= i < pref.Length :: pref[i] == FREE)
      modifies `prefUp, `prefDepth
      ensures Sound() && Remaining() == old(Remaining())
    {
      hide Fits, Left;
      if prefUp { return; }
      prefDepth := if depth < 1 then 1 else if depth > PREFETCH_MAX then PREFETCH_MAX else depth;
      prefUp := *;
    }

    /** The repositioning of `hls_seek_clamped`: everything from the target segment on, the init segment first. */
    method SeekTo(target: nat, depth: int)
      requires Sound() && target <= |res.segs|
      modifies this, pref
      ensures Valid() && out == [] && whole == Stream(res, res.init.Some?, target)
      ensures segIdx == target
    {
      hide Fits, Left, Next, Stream;
      Stop();
      open := false;
      Place(target);
      Start(depth);
    }

    method Place(target: nat)
      requires Fits(Shared(), res) && mem.NoMem? && !prefUp && job.Idle? && !open && target <= |res.segs| == |plain|
      modifies `segIdx, `segPos, `initPending, `out, `whole
      ensures Valid() && out == [] && whole == Stream(res, res.init.Some?, target) && segIdx == target
    {
      LeftStart(res, res.init.Some?, target);
      hide Fits, Left, Next, Stream;
      segIdx, segPos, initPending := target, 0, hasInit;
      out, whole := [], Stream(res, res.init.Some?, target);
    }

    constructor (net: Net, plainInit: bool, plain: seq<bool>)
      requires |plain| == |net.content.segs|
      ensures Valid() && out == [] && whole == Stream(net.content, net.content.init.Some?, 0)
      ensures this.net == net && this.plainInit == plainInit && this.plain == plain
    {
      this.net, this.plainInit, this.plain := net, plainInit, plain;
      heap, nextId, owner := map[], 0, map[];
      pref := new Slot[PREFETCH_MAX](_ => FREE);
      prefUp, prefDepth, job := false, 3, Idle;
      mem, memPos, segIdx, initPending := NoMem, 0, 0, net.content.init.Some?;
      open, src, segPos, forceAseg := false, SEG_INIT, 0, false;
      out, whole := [], Stream(net.content, net.content.init.Some?, 0);
      new;
      NoneLeft(Shared(), res);
      LeftStart(res, initPending, 0);
    }
  }

  lemma LeftNothing(r: Resources)
    ensures Left(r, false, |r.segs|, 0) == []
  {}
}

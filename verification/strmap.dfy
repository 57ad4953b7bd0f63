/**
 The string arena and the open-addressing string map of app/src/guide.c.

 Strings live NUL-terminated in one growing arena and the map's keys are arena
 offsets, 0 marking an empty slot.  The map is proved to behave as a mathematical
 map from strings to (offset, value) in which the first insertion wins.
 */
module StrMap {
  type Byte = x: int | 0 <= x < 256
  type Text = s: seq<Byte> | forall b | b in s :: b != 0

  const NONE := 0xFFFF_FFFF

  /** FNV-1a over 64 bits, `hash_n`. */
  function HashFrom(h: bv64, s: seq<Byte>): bv64
    decreases |s|
  {
    if s == [] then h else HashFrom((h ^ (s[0] as bv64)) * 1099511628211, s[1..])
  }

  /** The slot a string is first looked for in: the hash masked to the table size. */
  function Home(s: seq<Byte>, cap: nat): (i: nat)
    requires cap > 0
    ensures i < cap
  {
    (HashFrom(1469598103934665603, s) as int) % cap
  }

  // ---- strings in the arena ----------------------------------------------

  /** The C string at an offset. */
  function CStr(a: seq<Byte>, o: nat): (s: Text)
    decreases |a| - o
  {
    if o >= |a| || a[o] == 0 then [] else [a[o]] + CStr(a, o + 1)
  }

  predicate Terminated(a: seq<Byte>) {
    |a| > 0 && a[|a| - 1] == 0
  }

  /** What is appended to the arena does not disturb the strings in it. */
  lemma {:induction false} CStrAppend(a: seq<Byte>, b: seq<Byte>, o: nat)
    requires Terminated(a) && o < |a|
    ensures CStr(a + b, o) == CStr(a, o)
    decreases |a| - o
  {
    if a[o] != 0 {
      CStrAppend(a, b, o + 1);
    }
  }

  /** A stored string reads back. */
  lemma {:induction false} CStrStored(a: seq<Byte>, s: Text, i: nat)
    requires i <= |s|
    ensures CStr(a + s + [0], |a| + i) == s[i..]
    decreases |s| - i
  {
    var b := a + s + [0];
    if i < |s| {
      CStrStored(a, s, i + 1);
      assert b[|a| + i] == s[i] && s[i] in s;
      assert s[i..] == [s[i]] + s[i + 1..];
    } else {
      assert b[|a| + i] == 0;
    }
  }

  /** The test a probe makes on a slot: the bytes of `k` stand at `o`, then a terminator. */
  predicate Matches(a: seq<Byte>, o: nat, k: seq<Byte>) {
    o + |k| < |a| && a[o..o + |k|] == k && a[o + |k|] == 0
  }

  lemma {:induction false} MatchIsEqual(a: seq<Byte>, o: nat, k: Text)
    requires Terminated(a) && o < |a|
    ensures Matches(a, o, k) <==> CStr(a, o) == k
    decreases |k|
  {
    if k == [] {
      assert a[o..o] == [];
    } else if a[o] == 0 {
      if o + |k| < |a| {
        assert a[o..o + |k|][0] == a[o];
        assert k[0] in k;
      }
    } else {
      var rest: Text := k[1..];
      MatchIsEqual(a, o + 1, rest);
      if o + |k| < |a| {
        assert a[o..o + |k|] == [a[o]] + a[o + 1..o + 1 + |rest|];
      }
      assert k == [k[0]] + rest;
    }
  }

  class Arena {
    var a: seq<Byte>
    var cap: nat
    const max: nat
    /** Whether an allocation may fail; how much fits is certain either way. */
    const mayFail: bool

    ghost predicate Valid()
      reads this
    {
      Terminated(a) && |a| <= cap <= max < NONE
    }

    /** `arena_init`: offset 0 is the empty string. */
    constructor (max: nat, mayFail: bool)
      requires 0 < max < NONE
      ensures Valid() && this.max == max && this.mayFail == mayFail && a == [0]
    {
      this.max, this.mayFail := max, mayFail;
      a := [0];
      cap := if 65536 > max then max else 65536;
    }

    /** `arena_put`: refused exactly when the string does not fit, or memory runs out. */
    method Put(s: Text) returns (off: nat)
      requires Valid()
      modifies this
      ensures Valid()
      ensures off == NONE ==> a == old(a) && cap == old(cap)
      ensures off != NONE ==> off == |old(a)| && a == old(a) + s + [0] && CStr(a, off) == s
      ensures |old(a)| + |s| + 1 > max ==> off == NONE
      ensures off == NONE ==> mayFail || |old(a)| + |s| + 1 > max
    {
      var need := |a| + |s| + 1;
      if need > max { return NONE; }
      if need > cap {
        var c := cap * 2;
        while c < need
          invariant c > 0
          decreases need - c
        {
          c := c * 2;
        }
        if c > max { c := max; }
        var denied := Denied();
        if denied { return NONE; }
        cap := c;
      }
      off := |a|;
      CStrStored(a, s, 0);
      a := a + s + [0];
    }

    /** An allocation. */
    method Denied() returns (denied: bool)
      ensures denied ==> mayFail
    {
      denied := *;
      denied := denied && mayFail;
    }
  }

  // ---- the table ------------------------------------------------------------

  datatype Entry = Entry(off: nat, val: nat)

  /** `d` slots after `i`, around the end of the table. */
  function Hop(i: nat, d: nat, cap: nat): (j: nat)
    requires i < cap && d <= cap
    ensures j < cap
  {
    if i + d < cap then i + d else i + d - cap
  }

  function Dist(i: nat, j: nat, cap: nat): (d: nat)
    requires i < cap && j < cap
    ensures d < cap && Hop(i, d, cap) == j
  {
    if i <= j then j - i else j + cap - i
  }

  /** Tables are empty or 1024 slots doubled: `hash & (cap - 1)` is `hash % cap`. */
  predicate TableSize(cap: nat) {
    cap == 0 || cap == 1024 || (cap > 1024 && cap % 2 == 0 && TableSize(cap / 2))
  }

  lemma Doubled(cap: nat)
    requires TableSize(cap)
    ensures TableSize(if cap > 0 then cap * 2 else 1024)
  {
  }

  function Count(key: seq<nat>): (n: nat)
    ensures n <= |key|
  {
    if key == [] then 0 else (if key[|key| - 1] != 0 then 1 else 0) + Count(key[..|key| - 1])
  }

  lemma {:induction false} EmptySlot(key: seq<nat>) returns (j: nat)
    requires Count(key) < |key|
    ensures j < |key| && key[j] == 0
  {
    if key[|key| - 1] == 0 {
      j := |key| - 1;
    } else {
      j := EmptySlot(key[..|key| - 1]);
    }
  }

  lemma {:induction false} CountUpdate(key: seq<nat>, i: nat, o: nat)
    requires i < |key| && key[i] == 0 && o != 0
    ensures Count(key[i := o]) == Count(key) + 1
  {
    var front := key[..|key| - 1];
    if i == |key| - 1 {
      assert key[i := o][..|key| - 1] == front;
    } else {
      CountUpdate(front, i, o);
      assert key[i := o][..|key| - 1] == front[i := o];
    }
  }

  lemma {:induction false} CountZero(key: seq<nat>)
    requires forall j | 0 <= j < |key| :: key[j] == 0
    ensures Count(key) == 0
  {
    if key != [] {
      CountZero(key[..|key| - 1]);
    }
  }

  /** Every occupied slot is reached from its string's home past occupied slots only. */
  ghost predicate Reachable(key: seq<nat>, a: seq<Byte>, j: nat)
    requires j < |key|
  {
    var h := Home(CStr(a, key[j]), |key|);
    forall d | 0 <= d < Dist(h, j, |key|) :: key[Hop(h, d, |key|)] != 0
  }

  /** The table represents the map `m`. */
  ghost predicate Table(key: seq<nat>, val: seq<nat>, a: seq<Byte>, m: map<seq<Byte>, Entry>) {
    && |key| == |val|
    && (forall j | 0 <= j < |key| && key[j] != 0 ::
          && key[j] < |a|
          && CStr(a, key[j]) in m && m[CStr(a, key[j])] == Entry(key[j], val[j])
          && Reachable(key, a, j))
    && (forall i, j | 0 <= i < |key| && 0 <= j < |key| && key[i] != 0 && key[j] != 0 ::
          CStr(a, key[i]) == CStr(a, key[j]) ==> i == j)
    && (forall k | k in m :: exists j :: 0 <= j < |key| && key[j] != 0 && CStr(a, key[j]) == k)
  }

  /** The probe has passed `d` occupied slots that hold other strings. */
  ghost predicate Probed(key: seq<nat>, a: seq<Byte>, k: seq<Byte>, d: nat)
    requires |key| > 0 && d <= |key|
  {
    var h := Home(k, |key|);
    forall e | 0 <= e < d :: key[Hop(h, e, |key|)] != 0 && CStr(a, key[Hop(h, e, |key|)]) != k
  }

  /** A probe that meets an empty slot has shown the string absent. */
  lemma ProbeMisses(key: seq<nat>, val: seq<nat>, a: seq<Byte>, m: map<seq<Byte>, Entry>, k: seq<Byte>, d: nat)
    requires Table(key, val, a, m) && |key| > 0 && d < |key|
    requires Probed(key, a, k, d) && key[Hop(Home(k, |key|), d, |key|)] == 0
    ensures k !in m
  {
    hide Home, CStr;
    forall j | 0 <= j < |key| && key[j] != 0
      ensures CStr(a, key[j]) != k
    {
      NotAt(key, a, k, d, j);
    }
  }

  /** A string that stands at j is met before the first empty slot after its home. */
  lemma NotAt(key: seq<nat>, a: seq<Byte>, k: seq<Byte>, d: nat, j: nat)
    requires j < |key| && key[j] != 0 && Reachable(key, a, j) && d < |key|
    requires Probed(key, a, k, d) && key[Hop(Home(k, |key|), d, |key|)] == 0
    ensures CStr(a, key[j]) != k
  {
    hide Home, CStr;
    var h := Home(k, |key|);
    var e := Dist(h, j, |key|);
    assert Hop(h, e, |key|) == j;
  }

  /** Filling the slot a probe stopped at adds the entry and nothing else. */
  lemma Inserted(key: seq<nat>, val: seq<nat>, a: seq<Byte>, m: map<seq<Byte>, Entry>,
                 k: seq<Byte>, o: nat, v: nat, d: nat)
    requires Table(key, val, a, m) && |key| > 0 && d < |key|
    requires Probed(key, a, k, d) && key[Hop(Home(k, |key|), d, |key|)] == 0
    requires k !in m && 0 < o < |a| && CStr(a, o) == k
    ensures var i := Hop(Home(k, |key|), d, |key|);
      Table(key[i := o], val[i := v], a, m[k := Entry(o, v)])
  {
    hide Home, CStr;
    var h := Home(k, |key|);
    var i := Hop(h, d, |key|);
    var key', val', m' := key[i := o], val[i := v], m[k := Entry(o, v)];
    forall j | 0 <= j < |key'| && key'[j] != 0
      ensures Reachable(key', a, j)
    {
      if j != i { assert Reachable(key, a, j); }
    }
    forall s | s in m'
      ensures exists j :: 0 <= j < |key'| && key'[j] != 0 && CStr(a, key'[j]) == s
    {
      if s == k {
        assert key'[i] != 0;
      } else {
        var j :| 0 <= j < |key| && key[j] != 0 && CStr(a, key[j]) == s;
        assert key'[j] != 0 && CStr(a, key'[j]) == s;
      }
    }
  }

  /** The arena may grow under a table. */
  lemma TableAppend(key: seq<nat>, val: seq<nat>, a: seq<Byte>, b: seq<Byte>, m: map<seq<Byte>, Entry>)
    requires Terminated(a) && Table(key, val, a, m)
    ensures Table(key, val, a + b, m)
  {
    hide Home, CStr;
    forall j | 0 <= j < |key| && key[j] != 0
      ensures CStr(a + b, key[j]) == CStr(a, key[j])
    {
      CStrAppend(a, b, key[j]);
    }
    forall j | 0 <= j < |key| && key[j] != 0
      ensures Reachable(key, a + b, j)
    {
      assert Reachable(key, a, j);
    }
  }

  class Map {
    var key: array<nat>
    var val: array<nat>
    var n: nat
    ghost var model: map<seq<Byte>, Entry>

    ghost predicate Valid(ar: Arena)
      reads this, key, val, ar
    {
      && ar.Valid()
      && key != val
      && key.Length == val.Length
      && TableSize(key.Length)
      && n == Count(key[..]) && n * 2 <= key.Length
      && Table(key[..], val[..], ar.a, model)
    }

    constructor ()
      ensures model == map[] && key.Length == 0 && fresh(key) && fresh(val)
      ensures forall ar: Arena | ar.Valid() :: Valid(ar)
    {
      key, val := new nat[0], new nat[0];
      n := 0;
      model := map[];
    }

    /** The probe loop of `map_get` and `map_put`: the slot of k, or the empty slot
        where it belongs. */
    method Probe(ar: Arena, k: Text) returns (i: nat, ghost d: nat)
      requires Valid(ar) && key.Length > 0
      ensures i < key.Length
      ensures key[i] != 0 ==> k in model && model[k] == Entry(key[i], val[i])
      ensures key[i] == 0 ==>
        && k !in model && d < key.Length
        && i == Hop(Home(k, key.Length), d, key.Length) && Probed(key[..], ar.a, k, d)
    {
      hide Home, CStr, Count, Table;
      i := Home(k, key.Length);
      d := 0;
      ghost var e := EmptySlot(key[..]);
      while true
        invariant 0 <= d < key.Length && i == Hop(Home(k, key.Length), d, key.Length)
        invariant Probed(key[..], ar.a, k, d)
        decreases key.Length - d
      {
        if key[i] == 0 {
          ProbeMisses(key[..], val[..], ar.a, model, k, d);
          return;
        }
        Stored(key[..], val[..], ar.a, model, k, i);
        if Matches(ar.a, key[i], k) { return; }
        ProbeOn(key[..], ar.a, k, d, e);
        i := if i + 1 == key.Length then 0 else i + 1;
        d := d + 1;
      }
    }

    /** `map_get`. */
    method Get(ar: Arena, k: Text) returns (v: nat)
      requires Valid(ar)
      ensures v == if k in model then model[k].val else NONE
    {
      if key.Length == 0 {
        EmptyTable(key[..], val[..], ar.a, model);
        return NONE;
      }
      var i, _ := Probe(ar, k);
      return if key[i] == 0 then NONE else val[i];
    }

    /** `map_grow`: rehash into a table twice the size. */
    method Grow(ar: Arena) returns (ok: bool)
      requires Valid(ar)
      modifies this`key, this`val
      ensures Valid(ar) && model == old(model)
      ensures ok ==> (n + 1) * 2 <= key.Length && fresh(key) && fresh(val)
      ensures !ok ==> key == old(key) && val == old(val) && ar.mayFail
    {
      hide Home, CStr, Count, TableSize, Table, Moved;
      Doubled(key.Length);
      var cap := if key.Length > 0 then key.Length * 2 else 1024;
      var denied := ar.Denied();
      if denied { return false; }
      var k2, v2 := new nat[cap](_ => 0), new nat[cap](_ => 0);
      ghost var m: map<seq<Byte>, Entry> := map[];
      CountZero(k2[..]);
      CountNone(key[..]);
      NewTable(k2[..], v2[..], ar.a);
      MovedNone(key[..], val[..], ar.a);
      var j := 0;
      while j < key.Length
        invariant 0 <= j <= key.Length && k2.Length == v2.Length == cap
        invariant Table(k2[..], v2[..], ar.a, m)
        invariant Count(k2[..]) == Count(key[..j])
        invariant Moved(key[..], val[..], ar.a, m, j)
        modifies k2, v2
      {
        var o := key[j];
        CountPrefix(key[..], j);
        if o != 0 {
          MovedNew(key[..], val[..], ar.a, model, m, j);
          Rehash(ar, k2, v2, m, o, val[j]);
          MovedNext(key[..], val[..], ar.a, model, m, j);
          m := m[CStr(ar.a, o) := Entry(o, val[j])];
        } else {
          MovedSkip(key[..], val[..], ar.a, m, j);
        }
        j := j + 1;
      }
      MovedAll(key[..], val[..], ar.a, model, m);
      assert key[..key.Length] == key[..];
      key, val := k2, v2;
      return true;
    }

    /** The inner loop of `map_grow`: the next free slot from the string's home. */
    static method Rehash(ar: Arena, k2: array<nat>, v2: array<nat>, ghost m: map<seq<Byte>, Entry>, o: nat, v: nat)
      requires ar.Valid() && k2 != v2 && k2.Length == v2.Length && Table(k2[..], v2[..], ar.a, m)
      requires Count(k2[..]) < k2.Length && 0 < o < |ar.a| && CStr(ar.a, o) !in m
      modifies k2, v2
      ensures Table(k2[..], v2[..], ar.a, m[CStr(ar.a, o) := Entry(o, v)])
      ensures Count(k2[..]) == Count(old(k2[..])) + 1
    {
      hide Home, CStr, Count, Table;
      var s := CStr(ar.a, o);
      var i := Home(s, k2.Length);
      ghost var before, vals := k2[..], v2[..];
      ghost var d := 0;
      ghost var e := EmptySlot(before);
      while k2[i] != 0
        invariant 0 <= d < k2.Length && i == Hop(Home(s, k2.Length), d, k2.Length)
        invariant Probed(before, ar.a, s, d) && k2[..] == before
        modifies {}
        decreases k2.Length - d
      {
        Absent(before, vals, ar.a, m, s, i);
        ProbeOn(before, ar.a, s, d, e);
        i := if i + 1 == k2.Length then 0 else i + 1;
        d := d + 1;
      }
      Inserted(before, vals, ar.a, m, s, o, v, d);
      CountUpdate(before, i, o);
      k2[i], v2[i] := o, v;
      assert k2[..] == before[i := o] && v2[..] == vals[i := v];
    }

    /** `map_put`: the first value put for a string stays.  Gives that value and the
        string's offset; offset 0 means that memory ran out, or that the string is
        new and does not fit the arena. */
    method Put(ar: Arena, k: Text, v: nat) returns (stored: nat, keyOff: nat)
      requires Valid(ar)
      modifies this, key, val, ar
      ensures Valid(ar)
      ensures (key == old(key) && val == old(val)) || (fresh(key) && fresh(val))
      ensures ar.a == old(ar.a) || ar.a == old(ar.a) + k + [0]
      ensures keyOff == 0 ==> stored == NONE && model == old(model) && ar.a == old(ar.a)
      ensures k !in old(model) && |old(ar.a)| + |k| + 1 > ar.max ==> keyOff == 0
      ensures keyOff == 0 ==> ar.mayFail || (k !in old(model) && |old(ar.a)| + |k| + 1 > ar.max)
      ensures keyOff != 0 ==> k in model && model[k] == Entry(keyOff, stored)
      ensures keyOff != 0 && k in old(model) ==> model == old(model) && ar.a == old(ar.a)
      ensures keyOff != 0 && k !in old(model) ==>
        model == old(model)[k := Entry(keyOff, v)] && keyOff == |old(ar.a)|
    {
      hide Home, CStr, Count, Table;
      if (n + 1) * 2 > key.Length {
        var ok := Grow(ar);
        if !ok { return NONE, 0; }
      }
      ghost var before, vals, a := key[..], val[..], ar.a;
      var i, d := Probe(ar, k);
      if key[i] != 0 { return val[i], key[i]; }
      var o := ar.Put(k);
      assert key[..] == before && val[..] == vals;
      if o == NONE { return NONE, 0; }
      InsertedNew(before, vals, a, model, k, v, d, ar.a);
      CountUpdate(before, i, o);
      key[i], val[i] := o, v;
      assert key[..] == before[i := o] && val[..] == vals[i := v];
      n := n + 1;
      model := model[k := Entry(o, v)];
      return v, o;
    }
  }

  /** An occupied slot matches exactly the string it stands for. */
  lemma Stored(key: seq<nat>, val: seq<nat>, a: seq<Byte>, m: map<seq<Byte>, Entry>, k: Text, i: nat)
    requires Terminated(a) && Table(key, val, a, m) && i < |key| == |val| && key[i] != 0
    ensures Matches(a, key[i], k) ==> k in m && m[k] == Entry(key[i], val[i])
    ensures !Matches(a, key[i], k) ==> CStr(a, key[i]) != k
  {
    hide Home, CStr;
    MatchIsEqual(a, key[i], k);
  }

  lemma CountNone(key: seq<nat>)
    ensures Count(key[..0]) == 0
  {
  }

  lemma CountPrefix(key: seq<nat>, j: nat)
    requires j < |key|
    ensures Count(key[..j + 1]) == (if key[j] != 0 then 1 else 0) + Count(key[..j])
    ensures Count(key[..j + 1]) <= Count(key)
  {
    assert key[..j + 1][..j] == key[..j];
    CountGrows(key, j + 1);
  }

  lemma {:induction false} CountGrows(key: seq<nat>, j: nat)
    requires j <= |key|
    ensures Count(key[..j]) <= Count(key)
  {
    if j < |key| {
      CountGrows(key[..|key| - 1], j);
      assert key[..|key| - 1][..j] == key[..j];
    } else {
      assert key[..j] == key;
    }
  }

  lemma NewTable(key: seq<nat>, val: seq<nat>, a: seq<Byte>)
    requires |key| == |val| && forall j | 0 <= j < |key| :: key[j] == 0
    ensures Table(key, val, a, map[])
  {
  }

  /** `m` holds exactly the entries of the first `j` slots. */
  ghost predicate Moved(key: seq<nat>, val: seq<nat>, a: seq<Byte>, m: map<seq<Byte>, Entry>, j: nat)
    requires |key| == |val|
  {
    && (forall i | 0 <= i < j && i < |key| && key[i] != 0 ::
          CStr(a, key[i]) in m && m[CStr(a, key[i])] == Entry(key[i], val[i]))
    && (forall k | k in m :: Among(key, a, j, k))
  }

  /** `k` is the string of one of the first `j` slots. */
  ghost predicate Among(key: seq<nat>, a: seq<Byte>, j: nat, k: seq<Byte>) {
    exists i :: 0 <= i < j && i < |key| && key[i] != 0 && CStr(a, key[i]) == k
  }

  lemma AmongMore(key: seq<nat>, a: seq<Byte>, j: nat, k: seq<Byte>)
    ensures Among(key, a, j, k) ==> Among(key, a, j + 1, k)
    ensures j < |key| && key[j] != 0 ==> Among(key, a, j + 1, CStr(a, key[j]))
  {}

  lemma MovedNone(key: seq<nat>, val: seq<nat>, a: seq<Byte>)
    requires |key| == |val|
    ensures Moved(key, val, a, map[], 0)
  {
  }

  lemma MovedSkip(key: seq<nat>, val: seq<nat>, a: seq<Byte>, m: map<seq<Byte>, Entry>, j: nat)
    requires |key| == |val| && j < |key| && key[j] == 0 && Moved(key, val, a, m, j)
    ensures Moved(key, val, a, m, j + 1)
  {
    hide Home, CStr, Among;
    forall k | k in m
      ensures Among(key, a, j + 1, k)
    {
      AmongMore(key, a, j, k);
    }
  }

  lemma MovedNew(key: seq<nat>, val: seq<nat>, a: seq<Byte>, model: map<seq<Byte>, Entry>,
                 m: map<seq<Byte>, Entry>, j: nat)
    requires Table(key, val, a, model) && j < |key| && key[j] != 0
    requires Moved(key, val, a, m, j)
    ensures CStr(a, key[j]) !in m && key[j] < |a|
  {
  }

  lemma MovedNext(key: seq<nat>, val: seq<nat>, a: seq<Byte>, model: map<seq<Byte>, Entry>,
                  m: map<seq<Byte>, Entry>, j: nat)
    requires Table(key, val, a, model) && j < |key| && key[j] != 0
    requires Moved(key, val, a, m, j)
    ensures Moved(key, val, a, m[CStr(a, key[j]) := Entry(key[j], val[j])], j + 1)
  {
    MovedNew(key, val, a, model, m, j);
    var s := CStr(a, key[j]);
    var m' := m[s := Entry(key[j], val[j])];
    hide *;
    assert Moved(key, val, a, m', j + 1) by {
      MovedAdd(key, val, a, m, s, j);
    }
  }

  lemma MovedAdd(key: seq<nat>, val: seq<nat>, a: seq<Byte>, m: map<seq<Byte>, Entry>, s: seq<Byte>, j: nat)
    requires |key| == |val| && j < |key| && key[j] != 0 && Moved(key, val, a, m, j)
    requires s == CStr(a, key[j]) && s !in m
    ensures Moved(key, val, a, m[s := Entry(key[j], val[j])], j + 1)
  {
    hide Home, CStr, Among;
    var m' := m[s := Entry(key[j], val[j])];
    forall i | 0 <= i < j + 1 && i < |key| && key[i] != 0
      ensures CStr(a, key[i]) in m' && m'[CStr(a, key[i])] == Entry(key[i], val[i])
    {
      if i < j { assert CStr(a, key[i]) in m; }
    }
    forall k | k in m'
      ensures Among(key, a, j + 1, k)
    {
      AmongMore(key, a, j, k);
    }
  }

  lemma MovedAll(key: seq<nat>, val: seq<nat>, a: seq<Byte>, model: map<seq<Byte>, Entry>, m: map<seq<Byte>, Entry>)
    requires Table(key, val, a, model) && Moved(key, val, a, m, |key|)
    ensures m == model
  {
    hide Home, CStr;
    forall k | k in model
      ensures k in m && m[k] == model[k]
    {
      var i :| 0 <= i < |key| && key[i] != 0 && CStr(a, key[i]) == k;
    }
    forall k | k in m
      ensures k in model
    {
      var i :| 0 <= i < |key| && key[i] != 0 && CStr(a, key[i]) == k;
    }
  }

  lemma Absent(key: seq<nat>, val: seq<nat>, a: seq<Byte>, m: map<seq<Byte>, Entry>, s: seq<Byte>, i: nat)
    requires Table(key, val, a, m) && s !in m && i < |key| && key[i] != 0
    ensures CStr(a, key[i]) != s
  {
  }

  /** Inserting a string that was just appended to the arena. */
  lemma InsertedNew(key: seq<nat>, val: seq<nat>, a: seq<Byte>, m: map<seq<Byte>, Entry>,
                    k: Text, v: nat, d: nat, a': seq<Byte>)
    requires Terminated(a) && Table(key, val, a, m) && |key| > 0 && d < |key|
    requires Probed(key, a, k, d) && key[Hop(Home(k, |key|), d, |key|)] == 0
    requires k !in m && a' == a + k + [0]
    ensures var i := Hop(Home(k, |key|), d, |key|);
      Table(key[i := |a|], val[i := v], a', m[k := Entry(|a|, v)])
  {
    hide Home, CStr;
    assert a + (k + [0]) == a';
    TableAppend(key, val, a, k + [0], m);
    CStrStored(a, k, 0);
    forall e | 0 <= e < d
      ensures CStr(a', key[Hop(Home(k, |key|), e, |key|)]) != k
    {
      Absent(key, val, a', m, k, Hop(Home(k, |key|), e, |key|));
    }
    Inserted(key, val, a', m, k, |a|, v, d);
  }

  lemma EmptyTable(key: seq<nat>, val: seq<nat>, a: seq<Byte>, m: map<seq<Byte>, Entry>)
    requires Table(key, val, a, m) && key == []
    ensures m == map[]
  {
    assert forall k :: k !in m;
  }

  /** A probe past an occupied slot of another string: it has not gone round,
      because the table has an empty slot. */
  lemma ProbeOn(key: seq<nat>, a: seq<Byte>, k: seq<Byte>, d: nat, empty: nat)
    requires d < |key| && empty < |key| && key[empty] == 0
    requires Probed(key, a, k, d)
    requires var i := Hop(Home(k, |key|), d, |key|); key[i] != 0 && CStr(a, key[i]) != k
    ensures d + 1 < |key| && Probed(key, a, k, d + 1)
  {
    hide Home, CStr;
    var h := Home(k, |key|);
    var at := Dist(h, empty, |key|);
    assert Hop(h, at, |key|) == empty;
  }
}

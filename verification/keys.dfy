/**
 Keys of encrypted segments, app/src/hls.c: the cache of eight keys by URI, one
 key by cache, inline URI or network, and the fetch of one segment with its key.
 */
module Keys {
  import opened Crypt
  import opened InlineKey

  type Key = Block

  datatype Slot = Slot(uri: string, key: Key, age: nat)

  const SLOTS := 8

  // ---- what the slots mean ------------------------------------------------------

  /** The slots in use have their own URI and their own age. */
  ghost predicate Proper(s: seq<Slot>) {
    && |s| == SLOTS
    && forall i, j | 0 <= i < j < SLOTS && s[i].uri != "" && s[j].uri != "" ::
         s[i].uri != s[j].uri && s[i].age != s[j].age
  }

  ghost predicate Has(s: seq<Slot>, uri: string, key: Key) {
    exists k :: 0 <= k < |s| && s[k].uri == uri && s[k].key == key
  }

  ghost predicate Caches(s: seq<Slot>, uri: string) {
    exists k :: 0 <= k < |s| && s[k].uri == uri
  }

  ghost predicate Full(s: seq<Slot>) {
    forall k | 0 <= k < |s| :: s[k].uri != ""
  }

  /** `uri` was used longer ago than any other. */
  ghost predicate LeastRecent(s: seq<Slot>, uri: string) {
    exists k :: 0 <= k < |s| && s[k].uri == uri && forall m | 0 <= m < |s| && m != k :: s[k].age < s[m].age
  }

  /** And `uri` last. */
  ghost predicate MostRecent(s: seq<Slot>, uri: string) {
    exists k :: 0 <= k < |s| && s[k].uri == uri && forall m | 0 <= m < |s| && m != k :: s[m].age < s[k].age
  }

  /** Storing a key loses at most one other: the least recently used of a full cache that lacked the new one. */
  ghost predicate StoredIn(s: seq<Slot>, s': seq<Slot>, uri: string, key: Key) {
    && Has(s', uri, key)
    && (forall k | 0 <= k < |s'| && s'[k].uri != "" && s'[k].uri != uri :: s'[k] in s)
    && forall k | 0 <= k < |s| && s[k].uri != "" && s[k].uri != uri && s[k] !in s' ::
         Full(s) && !Caches(s, uri) && LeastRecent(s, s[k].uri)
  }

  /** A cached key has one value. */
  lemma HoldsOne(s: seq<Slot>, uri: string, a: Key, b: Key)
    requires Proper(s) && uri != "" && Has(s, uri, a) && Has(s, uri, b)
    ensures a == b
  {
    var i :| 0 <= i < |s| && s[i].uri == uri && s[i].key == a;
    var j :| 0 <= j < |s| && s[j].uri == uri && s[j].key == b;
    if i != j {
      assert false;
    }
  }

  class Cache {
    var slots: array<Slot>
    var age: nat

    ghost predicate Valid()
      reads this, slots
    {
      Proper(slots[..]) && forall k | 0 <= k < slots.Length :: slots[k].age <= age
    }

    constructor ()
      ensures Valid() && fresh(slots) && forall uri | uri != "" :: !Caches(slots[..], uri)
    {
      slots := new Slot[SLOTS](_ => Slot("", seq(16, _ => 0), 0));
      age := 0;
    }

    /** The slot of a URI, or SLOTS. */
    method SlotOf(uri: string) returns (k: nat)
      requires Valid() && uri != ""
      ensures k <= SLOTS
      ensures if k < SLOTS then slots[k].uri == uri else !Caches(slots[..], uri)
    {
      k := 0;
      while k < SLOTS && slots[k].uri != uri
        invariant k <= SLOTS
        invariant forall j | 0 <= j < k :: slots[j].uri != uri
      {
        k := k + 1;
      }
    }

    /** Writes one slot and makes it the youngest. */
    method Put(k: nat, uri: string, key: Key)
      requires Valid() && k < SLOTS && uri != ""
      requires slots[k].uri == uri || !Caches(slots[..], uri)
      modifies this`age, slots
      ensures Valid() && slots == old(slots)
      ensures slots[..] == old(slots[..])[k := Slot(uri, key, age)] && age == old(age) + 1
      ensures MostRecent(slots[..], uri)
    {
      ghost var was := slots[..];
      age := age + 1;
      slots[k] := Slot(uri, key, age);
      PutKeeps(was, k, slots[k]);
      assert slots[..][k].uri == uri;
    }

    /** The cached key of a URI, now the most recently used. */
    method Get(uri: string) returns (key: Option<Key>)
      requires Valid()
      modifies this`age, slots
      ensures Valid() && slots == old(slots)
      ensures key.None? ==> slots[..] == old(slots[..]) && (uri == "" || !Caches(old(slots[..]), uri))
      ensures key.Some? ==>
        && uri != "" && Has(old(slots[..]), uri, key.value)
        && StoredIn(old(slots[..]), slots[..], uri, key.value) && MostRecent(slots[..], uri)
    {
      if uri == "" { return None; }
      var k := SlotOf(uri);
      if k == SLOTS { return None; }
      ghost var was := slots[..];
      key := Some(slots[k].key);
      assert was[k].uri == uri && was[k].key == slots[k].key;
      Put(k, uri, slots[k].key);
      PutStores(was, k, slots[k]);
    }

    /** Stores a key: in the slot of its URI, else an empty one, else the least recently used. */
    method Set(uri: string, key: Key)
      requires Valid() && uri != ""
      modifies this`age, slots
      ensures Valid() && slots == old(slots)
      ensures StoredIn(old(slots[..]), slots[..], uri, key) && MostRecent(slots[..], uri)
    {
      ghost var was := slots[..];
      var k := SlotOf(uri);
      if k == SLOTS {
        k := EmptySlot();
        if k == SLOTS { k := Oldest(); }
      }
      Put(k, uri, key);
      PutStores(was, k, slots[k]);
    }

    method EmptySlot() returns (k: nat)
      requires Valid()
      ensures k <= SLOTS
      ensures if k < SLOTS then slots[k].uri == "" else Full(slots[..])
    {
      k := 0;
      while k < SLOTS && slots[k].uri != ""
        invariant k <= SLOTS
        invariant forall j | 0 <= j < k :: slots[j].uri != ""
      {
        k := k + 1;
      }
    }

    method Oldest() returns (lru: nat)
      requires Valid()
      ensures lru < SLOTS && forall m | 0 <= m < SLOTS :: slots[lru].age <= slots[m].age
    {
      lru := 0;
      var i := 1;
      while i < SLOTS
        invariant lru < SLOTS && i <= SLOTS
        invariant forall m | 0 <= m < i :: slots[lru].age <= slots[m].age
      {
        if slots[i].age < slots[lru].age { lru := i; }
        i := i + 1;
      }
    }
  }

  lemma PutKeeps(s: seq<Slot>, k: nat, e: Slot)
    requires Proper(s) && k < SLOTS && e.uri != "" && (s[k].uri == e.uri || !Caches(s, e.uri))
    requires forall m | 0 <= m < SLOTS :: s[m].age < e.age
    ensures Proper(s[k := e])
  {
    forall m | 0 <= m < SLOTS && m != k && s[m].uri != ""
      ensures s[m].uri != e.uri
    {
      if s[k].uri == e.uri {
        assert if m < k then s[m].uri != s[k].uri else s[k].uri != s[m].uri;
      }
    }
  }

  lemma PutStores(s: seq<Slot>, k: nat, e: Slot)
    requires Proper(s) && k < SLOTS && e.uri != ""
    requires
      || s[k].uri == e.uri
      || (s[k].uri == "" && !Caches(s, e.uri))
      || (Full(s) && !Caches(s, e.uri) && forall m | 0 <= m < SLOTS :: s[k].age <= s[m].age)
    ensures StoredIn(s, s[k := e], e.uri, e.key)
  {
    var s' := s[k := e];
    assert s'[k].uri == e.uri && s'[k].key == e.key;
    forall m | 0 <= m < SLOTS && m != k
      ensures s'[m] in s && s[m] in s'
    {
      assert s'[m] == s[m];
    }
    if Full(s) && !Caches(s, e.uri) {
      forall m | 0 <= m < SLOTS && m != k
        ensures s[k].age != s[m].age
      {
        assert if m < k then s[m].age != s[k].age else s[k].age != s[m].age;
      }
    }
  }

  // ---- one key -------------------------------------------------------------------

  /** The key without the cache: inline, or the 16 bytes the network answered. */
  function Fresh(uri: string, net: Option<seq<Byte>>): (key: Option<Key>) {
    var inl := InlineKeyOf(uri);
    if inl.Key? then Some(inl.key)
    else if inl.NotData? && net.Some? && |net.value| == 16 then Some(net.value)
    else None
  }

  /** `key_get`: None stands for the return of -31. */
  method KeyGet(c: Cache, uri: string, net: Option<seq<Byte>>, refetch: bool) returns (key: Option<Key>)
    requires c.Valid() && uri != ""
    modifies c`age, c.slots
    ensures c.Valid() && c.slots == old(c.slots)
    ensures !refetch && Caches(old(c.slots[..]), uri) ==> key.Some? && Has(old(c.slots[..]), uri, key.value)
    ensures refetch || !Caches(old(c.slots[..]), uri) ==> key == Fresh(uri, net)
    ensures key.None? ==> c.slots[..] == old(c.slots[..])
    ensures key.Some? ==> StoredIn(old(c.slots[..]), c.slots[..], uri, key.value)
  {
    hide InlineKeyOf;
    if !refetch {
      key := c.Get(uri);
      if key.Some? {
        return;
      }
    }
    var inl := KeyFromDataUri(uri);
    if inl.BadData? { return None; }
    if inl.Key? {
      key := Some(inl.key);
    } else {
      if net.None? || |net.value| != 16 { return None; }
      key := Some(net.value);
    }
    c.Set(uri, key.value);
  }

  // ---- one segment ----------------------------------------------------------------

  const KEY_UNUSABLE := -31
  const DECRYPT_FAILED := -32

  /** What a fetch of an encrypted segment gives, from the first key and the one fetched again. */
  datatype Outcome = Clear(plain: seq<Byte>) | Refused(rc: int)

  function Decrypted(aes: Key -> Cipher, iv: Block, e: seq<Byte>,
                     first: Option<Key>, again: Option<Key>): (o: Outcome)
  {
    if first.None? then Refused(KEY_UNUSABLE)
    else if Decryptable(aes(first.value), iv, e) then Clear(Plain(aes(first.value), iv, e))
    else if again.None? then Refused(KEY_UNUSABLE)
    else if Decryptable(aes(again.value), iv, e) then Clear(Plain(aes(again.value), iv, e))
    else Refused(DECRYPT_FAILED)
  }

  /** A segment encrypted under the key at hand is decrypted to its message. */
  lemma UnderCurrentKey(aes: Key -> Cipher, iv: Block, m: seq<Byte>, key: Key, again: Option<Key>)
    requires Invertible(aes(key))
    ensures Decrypted(aes, iv, CbcEnc(aes(key), iv, Padded(m)), Some(key), again) == Clear(m)
  {
    hide CbcEnc, Padded, Decryptable, Plain;
    DecryptEncrypt(aes(key), iv, m);
  }

  /** And one under a key that was rotated behind its URI, if and only if the stale key is refused by the
      padding, or gives that message too. */
  lemma UnderRotatedKey(aes: Key -> Cipher, iv: Block, m: seq<Byte>, stale: Key, key: Key)
    requires Invertible(aes(key))
    ensures var e := CbcEnc(aes(key), iv, Padded(m));
      Decrypted(aes, iv, e, Some(stale), Some(key)) == Clear(m) <==>
        (Decryptable(aes(stale), iv, e) ==> Plain(aes(stale), iv, e) == m)
  {
    hide CbcEnc, Padded, Decryptable, Plain;
    DecryptEncrypt(aes(key), iv, m);
  }

  /** The network's answer is used where the URI holds no data, if it is 16 bytes. */
  lemma NetworkKey(uri: string, net: Option<seq<Byte>>)
    requires !At(uri, 0, "data:")
    ensures Fresh(uri, net).Some? <==> net.Some? && |net.value| == 16
    ensures Fresh(uri, net).Some? ==> Fresh(uri, net).value == net.value
  {
  }

  /** And never where it holds a key. */
  lemma InlineBeatsNetwork(uri: string, i: nat, key: seq<Octet>, url: bool, tail: string, net: Option<seq<Byte>>)
    requires |key| == 16 && (tail == [] || tail[0] == '=')
    requires At(uri, 0, "data:") && At(uri, i, MARK) && forall j: nat | j < i :: !At(uri, j, MARK)
    requires uri[i + 8..] == Spelled(Sixes(key), url) + tail
    ensures Fresh(uri, net) == Some(Ints(key))
  {
    hide Spelled, Sixes, Ints, InlineKeyOf, At;
    InlineRoundTrip(uri, i, key, url, tail);
  }

  /**
   `fetch_job` after its body came: `buf[..len]` is the ciphertext. On any failure
   the buffer still holds it, so it was never decrypted under a key that did not fit.
   */
  method FetchJob(c: Cache, aes: Key -> Cipher, uri: string, iv: Block, buf: array<Byte>, len: nat,
                  net: Option<seq<Byte>>, netAgain: Option<seq<Byte>>)
    returns (rc: int, len': int, ghost first: Option<Key>)
    requires c.Valid() && uri != "" && len <= buf.Length && (c.slots as object) != buf
    modifies c`age, c.slots, buf
    ensures c.Valid() && c.slots == old(c.slots)
    ensures if Caches(old(c.slots[..]), uri) then first.Some? && Has(old(c.slots[..]), uri, first.value)
            else first == Fresh(uri, net)
    ensures var o := Decrypted(aes, iv, old(buf[..len]), first, Fresh(uri, netAgain));
      match o
      case Clear(plain) => rc == 0 && 0 <= len' <= len && buf[..len'] == plain
      case Refused(why) => rc == why && len' == 0 && buf[..] == old(buf[..])
  {
    hide InlineKeyOf, Decryptable, Plain, StoredIn;
    ghost var e := buf[..len];
    var key := KeyGet(c, uri, net, false);
    first := key;
    len' := 0;
    if key.None? { return KEY_UNUSABLE, 0, first; }
    var ok := PaddingOk(aes(key.value), iv, buf, len);
    if !ok {
      EmptyIsNot(aes(key.value), iv, e);
      key := KeyGet(c, uri, netAgain, true);
      if key.None? { return KEY_UNUSABLE, 0, first; }
      ok := PaddingOk(aes(key.value), iv, buf, len);
      EmptyIsNot(aes(key.value), iv, e);
      if !ok { return DECRYPT_FAILED, 0, first; }
    }
    assert buf[..len] == e;
    rc, len' := Decrypt(aes(key.value), iv, buf, len);
    assert rc == 0;
  }

  lemma EmptyIsNot(c: Cipher, iv: Block, e: seq<Byte>)
    ensures Decryptable(c, iv, e) ==> |e| > 0
  {}
}

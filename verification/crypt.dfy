/**
 Segment decryption of app/src/hls_crypt.c (section 4.3.2.4 of RFC 8216): CBC over
 an abstract block cipher with the padding of section 6.3 of RFC 5652.
 */
module Crypt {
  type Byte = b: int | 0 <= b < 256
  type Block = b: seq<Byte> | |b| == 16 witness seq(16, _ => 0)

  function Pow2(n: nat): (r: nat)
    ensures r > 0
  {
    if n == 0 then 1 else 2 * Pow2(n - 1)
  }

  /** Exclusive or of two n-bit numbers, bit by bit. */
  function XorBits(n: nat, a: nat, b: nat): (r: nat)
    requires a < Pow2(n) && b < Pow2(n)
    ensures r < Pow2(n)
  {
    if n == 0 then 0 else 2 * XorBits(n - 1, a / 2, b / 2) + (if a % 2 == b % 2 then 0 else 1)
  }

  lemma {:induction false} XorBitsTwice(n: nat, a: nat, b: nat)
    requires a < Pow2(n) && b < Pow2(n)
    ensures XorBits(n, XorBits(n, a, b), b) == a
  {
    if n > 0 {
      var x, bit := XorBits(n - 1, a / 2, b / 2), if a % 2 == b % 2 then 0 else 1;
      HalfOf(x, bit);
      XorBitsTwice(n - 1, a / 2, b / 2);
    }
  }

  lemma HalfOf(x: nat, bit: nat)
    requires bit < 2
    ensures (2 * x + bit) / 2 == x && (2 * x + bit) % 2 == bit
  {}

  lemma EightBits()
    ensures Pow2(8) == 256
  {
    assert Pow2(4) == 16;
  }

  function ByteXor(a: Byte, b: Byte): Byte {
    EightBits();
    XorBits(8, a, b)
  }

  lemma ByteXorTwice(a: Byte, b: Byte)
    ensures ByteXor(ByteXor(a, b), b) == a
  {
    EightBits();
    XorBitsTwice(8, a, b);
  }

  /** Bit i of a number. */
  function Bit(a: nat, i: nat): nat {
    (a / Pow2(i)) % 2
  }

  lemma BitNext(a: nat, i: nat)
    ensures Bit(a, 0) == a % 2 && Bit(a, i + 1) == Bit(a / 2, i)
  {
    var p := Pow2(i);
    assert a == 2 * (a / 2) + a % 2;
    var q, r := (a / 2) / p, (a / 2) % p;
    assert a / 2 == p * q + r;
    assert a == (2 * p) * q + (2 * r + a % 2);
    QuotientIs(a, 2 * p, q, 2 * r + a % 2);
  }

  lemma QuotientIs(a: nat, d: nat, q: nat, r: nat)
    requires d > 0 && a == d * q + r && r < d
    ensures a / d == q
  {
    var z := a / d;
    assert a == d * z + a % d;
    if z > q { Times(q + 1, z, d); }
    if z < q { Times(z + 1, q, d); }
  }

  lemma Times(a: nat, b: nat, k: nat)
    requires a <= b
    ensures a * k <= b * k
  {
  }

  /** The exclusive or of two bytes has exactly the bits in which they differ. */
  lemma ByteXorBits(a: Byte, b: Byte, i: nat)
    requires i < 8
    ensures Bit(ByteXor(a, b), i) == if Bit(a, i) == Bit(b, i) then 0 else 1
  {
    EightBits();
    XorBitsAt(8, a, b, i);
  }

  lemma {:induction false} XorBitsAt(n: nat, a: nat, b: nat, i: nat)
    requires i < n && a < Pow2(n) && b < Pow2(n)
    ensures Bit(XorBits(n, a, b), i) == if Bit(a, i) == Bit(b, i) then 0 else 1
  {
    hide Bit;
    var x, bit := XorBits(n - 1, a / 2, b / 2), if a % 2 == b % 2 then 0 else 1;
    HalfOf(x, bit);
    if i == 0 {
      BitNext(a, 0);
      BitNext(b, 0);
      BitNext(2 * x + bit, 0);
    } else {
      BitNext(a, i - 1);
      BitNext(b, i - 1);
      BitNext(2 * x + bit, i - 1);
      XorBitsAt(n - 1, a / 2, b / 2, i - 1);
    }
  }

  /** A block cipher under one key: `dec` undoes `enc`. */
  datatype Cipher = Cipher(enc: Block -> Block, dec: Block -> Block)

  ghost predicate Invertible(c: Cipher) {
    forall b: Block :: c.dec(c.enc(b)) == b
  }

  function Xor(a: Block, b: Block): (r: Block) {
    seq<Byte>(16, i requires 0 <= i < 16 => ByteXor(a[i], b[i]))
  }

  lemma XorTwice(a: Block, b: Block)
    ensures Xor(Xor(a, b), b) == a
  {
    hide ByteXor;
    forall i | 0 <= i < 16
      ensures Xor(Xor(a, b), b)[i] == a[i]
    {
      ByteXorTwice(a[i], b[i]);
    }
  }

  /** CBC: each block is chained to the ciphertext of the one before. */
  function CbcEnc(c: Cipher, iv: Block, p: seq<Byte>): (r: seq<Byte>)
    requires |p| % 16 == 0
    ensures |r| == |p|
    decreases |p|
  {
    if p == [] then []
    else
      var b := c.enc(Xor(p[..16], iv));
      b + CbcEnc(c, b, p[16..])
  }

  function CbcDec(c: Cipher, iv: Block, e: seq<Byte>): (r: seq<Byte>)
    requires |e| % 16 == 0
    ensures |r| == |e|
    decreases |e|
  {
    if e == [] then [] else Xor(c.dec(e[..16]), iv) + CbcDec(c, e[..16], e[16..])
  }

  lemma {:induction false} CbcRoundTrip(c: Cipher, iv: Block, p: seq<Byte>)
    requires Invertible(c) && |p| % 16 == 0
    ensures CbcDec(c, iv, CbcEnc(c, iv, p)) == p
    decreases |p|
  {
    hide Xor;
    if p != [] {
      var b := c.enc(Xor(p[..16], iv));
      var e := CbcEnc(c, iv, p);
      assert e[..16] == b && e[16..] == CbcEnc(c, b, p[16..]);
      XorTwice(p[..16], iv);
      CbcRoundTrip(c, b, p[16..]);
    }
  }

  /** Byte k of the decryption: its bits are those in which the decrypted block differs from the block
      before it in the ciphertext, or from the IV. */
  lemma {:induction false} DecryptedBits(c: Cipher, iv: Block, e: seq<Byte>, k: nat, i: nat)
    requires |e| % 16 == 0 && k < |e| && i < 8
    ensures var n := k / 16 * 16;
      var d := c.dec(e[n..n + 16])[k % 16];
      var before := if n == 0 then iv[k] else e[k - 16];
      Bit(CbcDec(c, iv, e)[k], i) == 1 <==> Bit(d, i) != Bit(before, i)
    decreases |e|
  {
    hide Bit, ByteXor;
    if k < 16 {
      ByteXorBits(c.dec(e[..16])[k], iv[k], i);
    } else {
      var rest := e[16..];
      var n := k / 16 * 16;
      assert (k - 16) / 16 * 16 == n - 16 && (k - 16) % 16 == k % 16;
      assert rest[n - 16..n] == e[n..n + 16];
      DecryptedBits(c, e[..16], rest, k - 16, i);
    }
  }

  /** What precedes the last block in the chain. */
  function Prev(iv: Block, e: seq<Byte>): Block
    requires |e| >= 16 && |e| % 16 == 0
  {
    if |e| >= 32 then e[|e| - 32..|e| - 16] else iv
  }

  /** The last block decrypts on its own. */
  lemma {:induction false} LastBlock(c: Cipher, iv: Block, e: seq<Byte>)
    requires |e| >= 16 && |e| % 16 == 0
    ensures CbcDec(c, iv, e)[|e| - 16..] == Xor(c.dec(e[|e| - 16..]), Prev(iv, e))
    decreases |e|
  {
    hide Xor;
    if |e| == 16 {
      assert e[..16] == e == e[0..];
    } else {
      var first, rest := e[..16], e[16..];
      LastBlock(c, first, rest);
      DecSplit(c, iv, first, rest);
      hide CbcDec, Prev;
      LastOf(first, rest);
      PrevOf(iv, first, rest);
      assert e == first + rest;
    }
  }

  lemma DecSplit(c: Cipher, iv: Block, first: Block, rest: seq<Byte>)
    requires |rest| % 16 == 0 && |rest| >= 16
    ensures CbcDec(c, iv, first + rest)[|rest|..] == CbcDec(c, first, rest)[|rest| - 16..]
  {
    hide Xor;
    var e := first + rest;
    assert e[..16] == first && e[16..] == rest;
    DropAcross(Xor(c.dec(first), iv), CbcDec(c, first, rest), |rest|);
  }

  lemma LastOf(first: Block, rest: seq<Byte>)
    requires |rest| >= 16
    ensures (first + rest)[|rest|..] == rest[|rest| - 16..]
  {}

  lemma PrevOf(iv: Block, first: Block, rest: seq<Byte>)
    requires |rest| >= 16 && |rest| % 16 == 0
    ensures Prev(iv, first + rest) == Prev(first, rest)
  {
    var e := first + rest;
    if |rest| >= 32 {
      assert e[|e| - 32..|e| - 16] == rest[|rest| - 32..|rest| - 16];
    } else {
      assert e[0..16] == first;
    }
  }

  lemma DropAcross<T>(a: seq<T>, b: seq<T>, k: nat)
    requires |a| <= k <= |a| + |b|
    ensures (a + b)[k..] == b[k - |a|..]
  {}

  // ---- padding --------------------------------------------------------------

  /** `pad_valid`: the last byte p is 1..16 and repeats p times. */
  predicate PadOk(b: Block) {
    var p := b[15];
    1 <= p <= 16 && forall i | 16 - p <= i < 16 :: b[i] == b[15]
  }

  method PadValid(b: Block) returns (ok: bool)
    ensures ok == PadOk(b)
  {
    var p := b[15];
    if p < 1 || p > 16 { return false; }
    var i := 16 - p;
    while i < 16
      invariant 16 - p <= i <= 16
      invariant forall j | 16 - p <= j < i :: b[j] == b[15]
    {
      if b[i] != b[15] { return false; }
      i := i + 1;
    }
    return true;
  }

  /** What a buffer must be for its decryption to end in valid padding. */
  predicate Decryptable(c: Cipher, iv: Block, e: seq<Byte>) {
    |e| > 0 && |e| % 16 == 0 && PadOk(CbcDec(c, iv, e)[|e| - 16..])
  }

  /** The message under the padding. */
  function Plain(c: Cipher, iv: Block, e: seq<Byte>): (m: seq<Byte>)
    requires Decryptable(c, iv, e)
    ensures |e| - 16 <= |m| < |e| && m <= CbcDec(c, iv, e)
  {
    var p := CbcDec(c, iv, e);
    p[..|p| - p[|p| - 1]]
  }

  /** PKCS#7: always pad, up to the next block boundary. */
  function Padded(m: seq<Byte>): (r: seq<Byte>)
    ensures |r| % 16 == 0 && |r| > |m|
  {
    var p := 16 - |m| % 16;
    m + seq<Byte>(p, _ => p)
  }

  lemma PaddedEnds(m: seq<Byte>)
    ensures var r := Padded(m); PadOk(r[|r| - 16..]) && |m| == |r| - r[|r| - 1]
  {
    var r := Padded(m);
    var p := 16 - |m| % 16;
    var last := r[|r| - 16..];
    assert forall i | 16 - p <= i < 16 :: last[i] == p;
  }

  lemma PaddedKeeps(m: seq<Byte>)
    ensures Padded(m)[..|m|] == m
  {}

  /** The padding test accepts padded messages only, and what is cut off is the padding. */
  lemma PaddedOnly(p: seq<Byte>)
    requires |p| > 0 && |p| % 16 == 0
    ensures PadOk(p[|p| - 16..]) <==> exists m :: p == Padded(m)
    ensures PadOk(p[|p| - 16..]) ==> p == Padded(p[..|p| - p[|p| - 1]])
  {
    if PadOk(p[|p| - 16..]) {
      var last, n := p[|p| - 16..], p[|p| - 1];
      var m := p[..|p| - n];
      assert (|p| - n) % 16 == (16 - n) % 16;
      assert forall i | |m| <= i < |p| :: p[i] == last[i - (|p| - 16)];
      assert p == Padded(m);
    }
    if m :| p == Padded(m) { PaddedEnds(m); }
  }

  /** Decrypting the padded encryption of any message gives the message. */
  lemma DecryptEncrypt(c: Cipher, iv: Block, m: seq<Byte>)
    requires Invertible(c)
    ensures var e := CbcEnc(c, iv, Padded(m));
      Decryptable(c, iv, e) && Plain(c, iv, e) == m
  {
    hide CbcEnc, CbcDec, Padded, PadOk;
    var pm := Padded(m);
    CbcRoundTrip(c, iv, pm);
    PaddedEnds(m);
    PaddedKeeps(m);
  }

  // ---- the two entry points ---------------------------------------------------

  method Store(buf: array<Byte>, at: nat, d: Block)
    requires at + 16 <= buf.Length
    modifies buf
    ensures buf[..at] == old(buf[..at]) && buf[at + 16..] == old(buf[at + 16..])
    ensures buf[..at + 16] == old(buf[..at]) + d
  {
    var j := 0;
    while j < 16
      invariant 0 <= j <= 16
      invariant buf[..at] == old(buf[..at]) && buf[at + 16..] == old(buf[at + 16..])
      invariant forall k | 0 <= k < j :: buf[at + k] == d[k]
    {
      buf[at + j] := d[j];
      j := j + 1;
    }
    assert forall k | 0 <= k < 16 :: buf[..at + 16][at + k] == d[k];
  }

  /** The first i bytes are decrypted, the rest is as it was. */
  ghost predicate Halfway(c: Cipher, iv: Block, was: seq<Byte>, cur: seq<Byte>, n: nat, i: nat, prev: Block) {
    && i <= n <= |was| == |cur| && i % 16 == 0 && n % 16 == 0 && cur[i..] == was[i..]
    && cur[..i] + CbcDec(c, prev, was[i..n]) == CbcDec(c, iv, was[..n])
  }

  lemma HalfwayStart(c: Cipher, iv: Block, was: seq<Byte>, n: nat)
    requires n <= |was| && n % 16 == 0
    ensures Halfway(c, iv, was, was, n, 0, iv)
  {
    assert was[0..n] == was[..n];
  }

  lemma HalfwayNext(c: Cipher, iv: Block, was: seq<Byte>, cur: seq<Byte>, cur': seq<Byte>, n: nat, i: nat,
                    prev: Block, b: Block)
    requires Halfway(c, iv, was, cur, n, i, prev) && i + 16 <= n
    requires b == cur[i..i + 16] && cur' == cur[..i] + Xor(c.dec(b), prev) + cur[i + 16..]
    ensures Halfway(c, iv, was, cur', n, i + 16, b)
  {
    hide Xor;
    var e := was[i..n];
    assert b == e[..16] by {
      assert cur[i..][..16] == cur[i..i + 16] && was[i..][..16] == e[..16];
    }
    assert e[16..] == was[i + 16..n];
    var d := Xor(c.dec(b), prev);
    assert cur'[..i + 16] == cur[..i] + d;
    assert cur'[i + 16..] == cur[i + 16..] == cur[i..][16..];
    assert was[i..][16..] == was[i + 16..];
    var rest := CbcDec(c, b, was[i + 16..n]);
    assert (cur[..i] + d) + rest == cur[..i] + (d + rest);
  }

  lemma HalfwayEnd(c: Cipher, iv: Block, was: seq<Byte>, cur: seq<Byte>, n: nat, prev: Block)
    requires Halfway(c, iv, was, cur, n, n, prev)
    ensures cur[..n] == CbcDec(c, iv, was[..n]) && cur[n..] == was[n..]
  {
    assert was[n..n] == [];
    assert cur[..n] + [] == cur[..n];
  }

  /** Decrypts one block in place and keeps its ciphertext for the next. */
  method CbcStep(c: Cipher, prev: Block, buf: array<Byte>, i: nat) returns (b: Block)
    requires i + 16 <= buf.Length
    modifies buf
    ensures b == old(buf[..])[i..i + 16]
    ensures buf[..] == old(buf[..])[..i] + Xor(c.dec(b), prev) + old(buf[..])[i + 16..]
  {
    hide Xor;
    b := buf[i..i + 16];
    Store(buf, i, Xor(c.dec(b), prev));
    assert buf[..] == buf[..i + 16] + buf[i + 16..];
  }

  /** The library's CBC decryption, block after block in place. */
  method CbcRun(c: Cipher, iv: Block, buf: array<Byte>, n: nat)
    requires n <= buf.Length && n % 16 == 0
    modifies buf
    ensures buf[..n] == CbcDec(c, iv, old(buf[..n]))
    ensures buf[n..] == old(buf[n..])
  {
    hide Xor, CbcDec, Halfway;
    ghost var was := buf[..];
    var prev: Block := iv;
    var i := 0;
    HalfwayStart(c, iv, was, n);
    while i < n
      invariant 0 <= i <= n && i % 16 == 0
      invariant Halfway(c, iv, was, buf[..], n, i, prev)
    {
      ghost var cur, before := buf[..], prev;
      prev := CbcStep(c, prev, buf, i);
      HalfwayNext(c, iv, was, cur, buf[..], n, i, before, prev);
      i := i + 16;
    }
    HalfwayEnd(c, iv, was, buf[..], n, prev);
    assert was[..n] == old(buf[..n]) && was[n..] == old(buf[n..]);
  }

  /** `hls_aes128_padding_ok`: looks at one decrypted block, and leaves the buffer alone. */
  method PaddingOk(c: Cipher, iv: Block, buf: array<Byte>, len: int) returns (ok: bool)
    requires len <= buf.Length
    ensures ok == (len > 0 && Decryptable(c, iv, buf[..len]))
  {
    hide Xor, PadOk, CbcDec;
    if len <= 0 || len % 16 != 0 { return false; }
    ghost var e := buf[..len];
    var prev: Block := if len >= 32 then buf[len - 32..len - 16] else iv;
    var tail: Block := buf[len - 16..len];
    assert prev == Prev(iv, e) && tail == e[len - 16..];
    var last := new Byte[16](i requires 0 <= i < 16 => tail[i]);
    assert last[..16] == tail;
    CbcRun(c, prev, last, 16);
    LastBlock(c, iv, e);
    LastBlock(c, prev, tail);
    assert tail[0..] == tail && Prev(prev, tail) == prev;
    assert last[..16] == CbcDec(c, prev, tail)[0..];
    ok := PadValid(last[..16]);
  }

  /** `hls_aes128_cbc_decrypt`: in place; the length of the message on success. */
  method Decrypt(c: Cipher, iv: Block, buf: array<Byte>, len: int) returns (rc: int, len': int)
    requires len <= buf.Length
    modifies buf
    ensures rc == 0 <==> len > 0 && Decryptable(c, iv, old(buf[..len]))
    ensures rc == 0 ==> 0 <= len' <= len && buf[..len'] == Plain(c, iv, old(buf[..len]))
    ensures rc != 0 ==> len' == len
    ensures rc == -1 <==> len <= 0 || len % 16 != 0
    ensures rc == -1 ==> buf[..] == old(buf[..])
    ensures 0 <= len ==> buf[len..] == old(buf[len..])
    ensures rc == 0 || rc == -1 || rc == -2
  {
    if len <= 0 || len % 16 != 0 { return -1, len; }
    CbcRun(c, iv, buf, len);
    ghost var p := buf[..len];
    assert buf[len - 16..len] == p[len - 16..];
    var ok := PadValid(buf[len - 16..len]);
    if !ok { return -2, len; }
    len' := len - buf[len - 1];
    assert buf[..len'] == p[..len'];
    return 0, len';
  }
}

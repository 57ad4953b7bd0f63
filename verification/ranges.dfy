/**
 Unchunked bodies and byte ranges of app/src/aseg.c: the known-length and
 read-to-end loops, `range_fixup`, and a ranged fetch as a whole.
 */
module Ranges {
  import opened Chunked
  import opened Body

  function Min(a: int, b: int): int {
    if a < b then a else b
  }

  // ---- Content-Length ---------------------------------------------------------

  /** What the known-length loop keeps: the first bytes it needs, or all that came with
      the headers when that is more than Content-Length and nothing is cut off. */
  function KnownOf(all: seq<Byte>, lead: nat, clen: nat, maxBytes: nat): seq<Byte>
    requires lead <= |all|
  {
    if lead > clen && clen <= maxBytes then all[..lead]
    else all[..Min(|all|, Min(clen, maxBytes))]
  }

  /** The known-length loop of `aseg_fetch_inner`: Content-Length bytes, or the head of
      them when truncation is asked for, and never fewer. */
  method ReadKnown(conn: Conn, lead: seq<Byte>, clen: nat, maxBytes: nat, truncate: bool)
    returns (rc: int, out: seq<Byte>, cut: bool)
    requires |lead| <= 4096
    modifies conn
    ensures rc == 0 ==>
      var all, need := lead + old(conn.rest), Min(clen, maxBytes);
      && out != [] && |all| >= need && out == KnownOf(all, |lead|, clen, maxBytes)
      && cut == (clen > maxBytes) && (cut ==> truncate)
      && (!cut ==> conn.rest == all[|out|..])
    ensures !conn.tight ==>
      var all := lead + old(conn.rest);
      (rc == 0 <==>
        && (clen > maxBytes ==> truncate)
        && |all| >= Min(clen, maxBytes) && KnownOf(all, |lead|, clen, maxBytes) != [])
  {
    ghost var all := lead + conn.rest;
    var cap := FIRST_CAP;
    var oom: bool := *;
    if conn.tight && oom { return -6, [], false; }
    var buf := lead;
    var need := clen;
    cut := false;
    if need > maxBytes {
      if !truncate { return -10, [], false; }
      need := maxBytes;
      cut := true;
    }
    while |buf| < need
      invariant |buf| <= cap && all == buf + conn.rest
      invariant |buf| <= need || (buf == lead && conn.rest == old(conn.rest))
      decreases need - |buf|
    {
      var late: bool := *;
      if conn.tight && late { return -12, [], false; }
      if |buf| + PIECE > cap {
        var ncap := cap * 2;
        if ncap < need { ncap := need; }
        var lim := if maxBytes > FETCH_CAP then maxBytes else FETCH_CAP;
        if ncap > lim { ncap := lim; }
        oom := *;
        if conn.tight && oom { return -7, [], false; }
        assert need <= ncap;
        cap := ncap;
      }
      var want := need - |buf|;
      if want > cap - |buf| { want := cap - |buf|; }
      assert 0 < want && |buf| + want <= cap;
      var r, got := conn.Read(want);
      if r <= 0 { return -11, [], false; }
      assert all == (buf + got) + conn.rest;
      buf := buf + got;
    }
    assert all[..need] == buf[..need] && all[..|buf|] == buf;
    if cut && |buf| > need { buf := buf[..need]; }
    if |buf| == 0 { return -8, [], cut; }
    return 0, buf, cut;
  }

  // ---- no length ----------------------------------------------------------------

  /** The read-to-end loop: everything that arrives, or the head of it.  A failed read ends
      it like a close, so nothing tells whether the body was whole. */
  method ReadToEnd(conn: Conn, lead: seq<Byte>, maxBytes: nat, truncate: bool)
    returns (rc: int, out: seq<Byte>)
    requires |lead| <= 4096
    modifies conn
    ensures rc == 0 ==>
      var all := lead + old(conn.rest);
      out != [] && out == if truncate then all[..Min(|all|, maxBytes)] else all
    ensures !conn.tight && truncate ==>
      (rc == 0 <==> Min(|lead + old(conn.rest)|, maxBytes) > 0)
    ensures !conn.tight && !truncate && rc != 0 ==>
      lead + old(conn.rest) == [] || |lead + old(conn.rest)| + PIECE > maxBytes
  {
    ghost var all := lead + conn.rest;
    var cap := FIRST_CAP;
    var oom: bool := *;
    if conn.tight && oom { return -6, []; }
    var buf := lead;
    while true
      invariant 0 < cap && |buf| <= cap && all == buf + conn.rest && |buf| <= |all|
      invariant truncate ==> |buf| <= maxBytes || (buf == lead && conn.rest == old(conn.rest))
      decreases |conn.rest|
    {
      var late: bool := *;
      if conn.tight && late { return -12, []; }
      if truncate && |buf| >= maxBytes {
        assert all[..maxBytes] == buf[..maxBytes];
        buf := buf[..maxBytes];
        assert Min(|all|, maxBytes) == maxBytes;
        break;
      }
      if |buf| + PIECE > cap {
        var ncap := cap * 2;
        if ncap > maxBytes { ncap := maxBytes; }
        if ncap <= cap && !truncate { return -10, []; }
        if ncap > cap {
          oom := *;
          if conn.tight && oom { return -7, []; }
          cap := ncap;
        }
      }
      var want := cap - |buf|;
      if truncate && want > maxBytes - |buf| { want := maxBytes - |buf|; }
      assert 0 < want && |buf| + want <= cap;
      var r, got := conn.Read(want);
      if r <= 0 {
        assert all[..|all|] == all;
        break;
      }
      assert all == (buf + got) + conn.rest;
      buf := buf + got;
    }
    if |buf| == 0 { return -8, []; }
    return 0, buf;
  }

  // ---- ranges -------------------------------------------------------------------

  /** The bytes a range names in a resource. */
  function Slice(resource: seq<Byte>, off: nat, len: nat): seq<Byte> {
    if off >= |resource| then []
    else if off + len < |resource| then resource[off..off + len]
    else resource[off..]
  }

  /** It is the bytes from `off` on, as many as asked for while there are any. */
  lemma SliceMeans(resource: seq<Byte>, off: nat, len: nat, i: nat)
    ensures i < |Slice(resource, off, len)| <==> i < len && off + i < |resource|
    ensures i < |Slice(resource, off, len)| ==> Slice(resource, off, len)[i] == resource[off + i]
  {
  }

  /** `range_fixup`: cut a response to the range, or refuse it. */
  method RangeFixup(body: seq<Byte>, status: int, native: bool, crStart: int, off: nat, len: nat, maxBytes: nat)
    returns (rc: int, out: seq<Byte>)
    requires len > 0
    ensures rc == 0 || rc == -13
    ensures status == 206 ==>
      (rc == 0 <==> (crStart < 0 || crStart == off) && (native ==> |body| >= len))
    ensures status == 206 && rc == 0 ==> out == body[..Min(|body|, len)]
    ensures status != 206 ==>
      (rc == 0 <==> |body| > off && (|body| < off + len ==> !native && |body| < maxBytes))
    ensures status != 206 && rc == 0 ==> out == Slice(body, off, len)
  {
    var have := |body|;
    if status == 206 {
      if crStart >= 0 && crStart != off { return -13, body; }
      if native && have < len { return -13, body; }
      if have > len { return 0, body[..len]; }
      assert body[..have] == body;
      return 0, body;
    }
    if have <= off { return -13, body; }
    if have < off + len {
      if native || have >= maxBytes { return -13, body; }
    }
    var keep := have - off;
    if keep > len { keep := len; }
    return 0, body[off..off + keep];
  }

  datatype Framing = Known(clen: nat) | ChunkedBody | UntilClose

  /** A server that answers a range request as it should: 206 with the range, or 200
      with the whole resource. */
  ghost predicate Conforming(resource: seq<Byte>, off: nat, len: nat, status: int, crStart: int, body: seq<Byte>) {
    || (status == 206 && off < |resource| && body == Slice(resource, off, len)
        && (crStart == -1 || crStart == off))
    || (status == 200 && body == resource)
  }

  /** The stream after the headers carries the body in its framing. */
  ghost predicate Carries(stream: seq<Byte>, framing: Framing, body: seq<Byte>) {
    match framing
    case Known(n) => n == |body| && body <= stream
    case ChunkedBody => exists rest :: Decode(stream, Unlimited) == Done(body, rest)
    case UntilClose => stream == body
  }

  /** Capping a decodable body keeps it, or its head. */
  lemma {:induction false} DecodeCapped(s: seq<Byte>, room: Room)
    requires room.Upto? && room.truncate && Decode(s, Unlimited).Done?
    ensures var d := Decode(s, Unlimited).data;
      if |d| <= room.n then Decode(s, room) == Decode(s, Unlimited)
      else Decode(s, room) == Cut(d[..room.n])
    decreases |s|
  {
    hide ReadLine, ParseSize, Trailers;
    var l := ReadLine(s).value;
    var n := ParseSize(l.0).value;
    var s1 := s[l.1..];
    if n != 0 {
      var d := Decode(s, Unlimited).data;
      assert d == s1[..n] + Decode(s1[n + 2..], Unlimited).data;
      if n <= room.n {
        DecodeCapped(s1[n + 2..], Less(room, n));
        if |d| > room.n {
          assert d[..room.n] == s1[..n] + Decode(s1[n + 2..], Unlimited).data[..room.n - n];
        }
      } else {
        assert d[..room.n] == s1[..room.n];
      }
    }
  }

  /** What the body readers keep under a truncating cap: the head of the body, except where
      the source cannot know the body's end, or has more at hand than the announced length. */
  function Raw(lead: seq<Byte>, rest: seq<Byte>, framing: Framing, maxBytes: nat, body: seq<Byte>): seq<Byte> {
    match framing
    case Known(clen) => if |lead| > clen && clen <= maxBytes then lead else body[..Min(|body|, maxBytes)]
    case ChunkedBody => body[..Min(|body|, maxBytes)]
    case UntilClose => (lead + rest)[..Min(|lead + rest|, maxBytes)]
  }

  /** The body readers under a truncating cap, whatever the framing.  `lost` is what a
      connection that breaks never brings. */
  method ReadCapped(conn: Conn, lead: seq<Byte>, framing: Framing, maxBytes: nat,
                    ghost body: seq<Byte>, ghost lost: seq<Byte>)
    returns (rc: int, out: seq<Byte>)
    requires |lead| <= 4096 && Carries(lead + conn.rest + lost, framing, body)
    modifies conn
    ensures rc == 0 ==> out == Raw(lead, old(conn.rest), framing, maxBytes, body) && out != []
    ensures !conn.tight && (lost == [] || framing.UntilClose? || (framing.Known? && |lead| >= framing.clen)) ==>
      (rc == 0 <==> Raw(lead, old(conn.rest), framing, maxBytes, body) != [])
  {
    hide Decode, ReadLine;
    ghost var all := lead + conn.rest;
    match framing {
      case Known(clen) =>
        var cut;
        rc, out, cut := ReadKnown(conn, lead, clen, maxBytes, true);
        KnownHead(all, lost, lead, clen, maxBytes, body);
      case ChunkedBody =>
        var rd := new ChunkReader(conn, lead);
        assert lost == [] ==> all + lost == all;
        DecodeCapped(all + lost, Upto(maxBytes, true));
        DecodeMore(all, lost, Upto(maxBytes, true));
        var cut;
        rc, out, cut := ReadChunkedBody(rd, maxBytes, true);
        assert body[..|body|] == body;
      case UntilClose =>
        rc, out := ReadToEnd(conn, lead, maxBytes, true);
    }
  }

  lemma KnownHead(all: seq<Byte>, lost: seq<Byte>, lead: seq<Byte>, clen: nat, maxBytes: nat, body: seq<Byte>)
    requires lead <= all && body <= all + lost && clen == |body|
    ensures |all| >= Min(clen, maxBytes) ==>
      KnownOf(all, |lead|, clen, maxBytes)
        == if |lead| > clen && clen <= maxBytes then lead else body[..Min(|body|, maxBytes)]
    ensures lost == [] ==> |all| >= clen
  {
    if |all| >= Min(clen, maxBytes) {
      var m := Min(clen, maxBytes);
      assert (all + lost)[..m] == all[..m] == body[..m];
    }
  }

  /** The end of the range in the body: a 206 body begins at the range, a 200 body at 0. */
  function WantedEnd(status: int, off: nat, len: nat): nat {
    if status == 206 then len else off + len
  }

  /** When a successful ranged fetch is the range: a body read to the end must have arrived up
      to the end of the range or of the body, and bytes that came with the headers past
      Content-Length must lie past the range. */
  predicate Exact(framing: Framing, lead: nat, arrived: nat, body: nat, end: nat) {
    match framing
    case Known(_) => lead <= body || body >= end
    case ChunkedBody => true
    case UntilClose => arrived >= Min(body, end)
  }

  /**
   A ranged fetch (`aseg_fetch_opts` with `rangeLen` > 0, BearSSL path) from a conforming
   server, over a connection that may break anywhere: when it succeeds it yields exactly
   the requested part of the resource if and only if `Exact` holds, so always for chunked
   bodies and for bodies of the announced length.
   */
  method FetchRange(conn: Conn, lead: seq<Byte>, framing: Framing, status: int, crStart: int, off: nat, len: nat,
                    ghost resource: seq<Byte>, ghost body: seq<Byte>, ghost lost: seq<Byte>)
    returns (rc: int, out: seq<Byte>)
    requires 0 < len <= FETCH_CAP && |lead| <= 4096
    requires Conforming(resource, off, len, status, crStart, body)
    requires Carries(lead + conn.rest + lost, framing, body)
    modifies conn
    ensures rc == 0 ==> out != []
    ensures rc == 0 ==>
      (out == Slice(resource, off, len) <==>
        Exact(framing, |lead|, |lead + old(conn.rest)|, |body|, WantedEnd(status, off, len)))
    // a read to the end takes what arrived for the body
    ensures rc == 0 && framing.UntilClose? && off + len <= FETCH_CAP ==>
      out == Slice(lead + old(conn.rest), if status == 206 then 0 else off, len)
    // nothing lost: it fails only for a range past the resource's end, or one the cap cuts
    ensures !conn.tight && lost == [] && (framing.Known? ==> |lead| <= |body|) ==>
      (rc == 0 <==> off < |resource| && (status == 206 || off + len <= FETCH_CAP || |resource| < FETCH_CAP))
    // more than announced came with the headers: that is taken, whatever the connection does
    ensures !conn.tight && framing.Known? && |lead| > |body| ==>
      (rc == 0 <==> |lead| > (if status == 206 then 0 else off))
    ensures rc == 0 && framing.Known? && |lead| > |body| ==>
      out == Slice(lead, if status == 206 then 0 else off, len)
    // something lost: a read to the end fails only if nothing of the range arrived
    ensures !conn.tight && framing.UntilClose? && off + len <= FETCH_CAP ==>
      (rc == 0 <==> |lead + old(conn.rest)| > (if status == 206 then 0 else off))
  {
    hide Decode, Carries, Raw, Exact, Slice;
    var need := off + len;
    var maxBytes := if need < FETCH_CAP then need else FETCH_CAP;
    Ranged(lead, conn.rest, lost, framing, status, off, len, maxBytes, resource, body);
    rc, out := ReadCapped(conn, lead, framing, maxBytes, body, lost);
    if rc != 0 { return; }
    var raw := out;
    rc, out := RangeFixup(raw, status, false, crStart, off, len, maxBytes);
    if rc != 0 { return -13, []; }
  }

  /** What `range_fixup` keeps of what was read, and when it keeps it. */
  function Fixed(raw: seq<Byte>, status: int, off: nat, len: nat): seq<Byte> {
    if status == 206 then raw[..Min(|raw|, len)] else Slice(raw, off, len)
  }

  predicate Kept(raw: seq<Byte>, status: int, off: nat, len: nat, maxBytes: nat) {
    raw != [] && (status != 206 ==> |raw| > off && (|raw| < off + len ==> |raw| < maxBytes))
  }

  lemma Ranged(lead: seq<Byte>, rest: seq<Byte>, lost: seq<Byte>, framing: Framing, status: int,
               off: nat, len: nat, maxBytes: nat, resource: seq<Byte>, body: seq<Byte>)
    requires 0 < len <= FETCH_CAP && |lead| <= 4096 && maxBytes == Min(off + len, FETCH_CAP)
    requires Carries(lead + rest + lost, framing, body)
    requires (status == 206 && off < |resource| && body == Slice(resource, off, len))
          || (status == 200 && body == resource)
    ensures var raw := Raw(lead, rest, framing, maxBytes, body);
      var kept, all := Kept(raw, status, off, len, maxBytes), lead + rest;
      var from := if status == 206 then 0 else off;
      && (kept ==> Fixed(raw, status, off, len) != [])
      && (kept ==> (Fixed(raw, status, off, len) == Slice(resource, off, len)
                    <==> Exact(framing, |lead|, |all|, |body|, WantedEnd(status, off, len))))
      && (lost == [] && (framing.Known? ==> |lead| <= |body|) ==>
          (kept <==> off < |resource| && (status == 206 || off + len <= FETCH_CAP || |resource| < FETCH_CAP)))
      && (framing.Known? ==> framing.clen == |body|)
      && (framing.Known? && |lead| > |body| ==>
          (kept <==> |lead| > from) && Fixed(raw, status, off, len) == Slice(lead, from, len))
      && (framing.UntilClose? && off + len <= FETCH_CAP ==>
          Fixed(raw, status, off, len) == Slice(all, from, len) && (kept <==> |all| > from))
  {
    hide Decode;
    var all := lead + rest;
    match framing
    case UntilClose =>
      assert body == all + lost;
      HeadKept(all, status, off, len, maxBytes);
      assert all == body[..|all|];
      ArrivedKept(body, |all|, status, off, len, maxBytes, resource);
    case ChunkedBody =>
      HeadSlice(body, status, off, len, maxBytes, resource);
    case Known(clen) =>
      if |lead| > clen && clen <= maxBytes {
        assert lead[..|lead|] == lead;
        assert body == (all + lost)[..clen] == lead[..clen];
        OverKept(lead, clen, status, off, len, maxBytes, resource);
        OverFixed(lead, status, off, len);
      } else {
        HeadSlice(body, status, off, len, maxBytes, resource);
      }
  }

  /** The head of the body: kept, it gives the slice. */
  lemma HeadSlice(body: seq<Byte>, status: int, off: nat, len: nat, maxBytes: nat, resource: seq<Byte>)
    requires 0 < len <= FETCH_CAP && maxBytes == Min(off + len, FETCH_CAP)
    requires (status == 206 && off < |resource| && body == Slice(resource, off, len))
          || (status == 200 && body == resource)
    ensures var raw := body[..Min(|body|, maxBytes)];
      && (Kept(raw, status, off, len, maxBytes) <==>
          off < |resource| && (status == 206 || off + len <= FETCH_CAP || |resource| < FETCH_CAP))
      && (Kept(raw, status, off, len, maxBytes) ==> Fixed(raw, status, off, len) == Slice(resource, off, len) != [])
  {
  }

  /** Of a body read to the end, `n` bytes arrived. */
  lemma ArrivedKept(body: seq<Byte>, n: nat, status: int, off: nat, len: nat, maxBytes: nat, resource: seq<Byte>)
    requires 0 < len <= FETCH_CAP && maxBytes == Min(off + len, FETCH_CAP) && n <= |body|
    requires (status == 206 && off < |resource| && body == Slice(resource, off, len))
          || (status == 200 && body == resource)
    ensures var raw := body[..n][..Min(n, maxBytes)];
      && (Kept(raw, status, off, len, maxBytes) ==> Fixed(raw, status, off, len) != [])
      && (Kept(raw, status, off, len, maxBytes) ==>
          (Fixed(raw, status, off, len) == Slice(resource, off, len) <==>
            n >= Min(|body|, WantedEnd(status, off, len))))
      && (n == |body| ==> (Kept(raw, status, off, len, maxBytes) <==>
          off < |resource| && (status == 206 || off + len <= FETCH_CAP || |resource| < FETCH_CAP)))
  {
    var raw := body[..n][..Min(n, maxBytes)];
    assert raw == body[..Min(n, maxBytes)];
    if n == |body| { HeadSlice(body, status, off, len, maxBytes, resource); }
    if Kept(raw, status, off, len, maxBytes) && n < Min(|body|, WantedEnd(status, off, len)) {
      assert |Fixed(raw, status, off, len)| < |Slice(resource, off, len)|;
    }
  }

  lemma HeadKept(all: seq<Byte>, status: int, off: nat, len: nat, maxBytes: nat)
    requires 0 < len && maxBytes == Min(off + len, FETCH_CAP)
    ensures var raw, from := all[..Min(|all|, maxBytes)], if status == 206 then 0 else off;
      off + len <= FETCH_CAP ==>
      Fixed(raw, status, off, len) == Slice(all, from, len) && (Kept(raw, status, off, len, maxBytes) <==> |all| > from)
  {
  }

  lemma OverFixed(lead: seq<Byte>, status: int, off: nat, len: nat)
    ensures Fixed(lead, status, off, len) == Slice(lead, if status == 206 then 0 else off, len)
  {}

  /** More came with the headers than the announced `n` bytes. */
  lemma OverKept(lead: seq<Byte>, n: nat, status: int, off: nat, len: nat, maxBytes: nat, resource: seq<Byte>)
    requires 0 < len <= FETCH_CAP && maxBytes == Min(off + len, FETCH_CAP) && n < |lead| <= 4096
    requires (status == 206 && off < |resource| && lead[..n] == Slice(resource, off, len))
          || (status == 200 && lead[..n] == resource)
    ensures n <= maxBytes ==>
      (Kept(lead, status, off, len, maxBytes) <==> |lead| > if status == 206 then 0 else off)
    ensures Kept(lead, status, off, len, maxBytes) ==>
      && Fixed(lead, status, off, len) != []
      && (Fixed(lead, status, off, len) == Slice(resource, off, len) <==> n >= WantedEnd(status, off, len))
  {
    if Kept(lead, status, off, len, maxBytes) && n < WantedEnd(status, off, len) {
      assert |Fixed(lead, status, off, len)| > |Slice(resource, off, len)|;
    } else if status == 200 {
      assert n >= off + len ==> lead[..n][off..off + len] == lead[off..off + len];
    }
  }

  // ---- a short range taken for the range ----------------------------------------------

  /** The resource has two bytes and the response no length; one byte arrives before a read
      fails.  The fetch of both bytes succeeds with that one. */
  method ShortRange(status: int, x: Byte, y: Byte) returns (rc: int, out: seq<Byte>)
    requires status == 206 || status == 200
    ensures rc == 0 && out == [x] && out != Slice([x, y], 0, 2)
  {
    var conn := new Conn([x], true, false);
    assert [] + [x] + [y] == [x, y] == Slice([x, y], 0, 2);
    assert [] + [x] == [x] == Slice([x], 0, 2);
    rc, out := FetchRange(conn, [], UntilClose, status, -1, 0, 2, [x, y], [x, y], [y]);
  }

  /** The resource and the announced length are one byte; two bytes come with the headers.  The fetch
      of a range of two succeeds with both. */
  method LongLead(x: Byte, y: Byte) returns (rc: int, out: seq<Byte>)
    ensures rc == 0 && out == [x, y] && out != Slice([x], 0, 2)
  {
    var conn := new Conn([], false, false);
    assert [x, y] + [] + [] == [x, y] && Slice([x], 0, 2) == [x] <= [x, y];
    rc, out := FetchRange(conn, [x, y], Known(1), 206, -1, 0, 2, [x], [x], []);
  }
}

/**
 The body readers of app/src/aseg.c: the two chunk decoders, the known-length and
 read-to-end loops and the range repair.

 A connection is the bytes that will still arrive, delivered in fragments of any
 size; then the peer closes or, where the connection `breaks`, reads fail.  On a
 `tight` one the time budget or memory may run out, or an abort come, at any point.
 */
module Body {
  import opened Chunked

  const FETCH_CAP := 16 * 1024 * 1024
  const FIRST_CAP := 256 * 1024
  const PIECE := 64 * 1024

  class Conn {
    var rest: seq<Byte>
    const breaks: bool
    const tight: bool

    constructor (bytes: seq<Byte>, breaks: bool, tight: bool)
      ensures rest == bytes && this.breaks == breaks && this.tight == tight
    {
      rest, this.breaks, this.tight := bytes, breaks, tight;
    }

    /** `conn_read`: some of the next bytes; when no more arrive, 0 for a close and -1 for
        a failure. */
    method Read(len: nat) returns (r: int, got: seq<Byte>)
      requires len > 0
      modifies this
      ensures r <= 0 <==> old(rest) == []
      ensures r <= 0 ==> got == [] && rest == [] && r == if breaks then -1 else 0
      ensures r > 0 ==> |got| == r <= len && old(rest) == got + rest
    {
      if rest == [] { return if breaks then -1 else 0, []; }
      var n :| 1 <= n <= len && n <= |rest|;
      got := rest[..n];
      rest := rest[n..];
      return n, got;
    }
  }

  /** Bytes read next to the headers, then the socket. */
  class ChunkReader {
    const conn: Conn
    const lead: seq<Byte>
    var leadPos: nat

    ghost predicate Valid()
      reads this
    {
      leadPos <= |lead|
    }

    ghost function Remaining(): seq<Byte>
      requires Valid()
      reads this, conn
    {
      lead[leadPos..] + conn.rest
    }

    constructor (conn: Conn, lead: seq<Byte>)
      ensures Valid() && this.conn == conn && this.lead == lead && Remaining() == lead + conn.rest
    {
      this.conn, this.lead, leadPos := conn, lead, 0;
    }

    /** `chunk_read_some`. */
    method Some(len: nat) returns (r: int, got: seq<Byte>)
      requires Valid() && len > 0
      modifies this, conn
      ensures Valid()
      ensures r <= 0 <==> old(Remaining()) == []
      ensures r <= 0 ==> Remaining() == []
      ensures r > 0 ==> |got| == r <= len && old(Remaining()) == got + Remaining()
    {
      if leadPos < |lead| {
        var n := |lead| - leadPos;
        if n > len { n := len; }
        got := lead[leadPos..leadPos + n];
        assert lead[leadPos..] == got + lead[leadPos + n..];
        leadPos := leadPos + n;
        return n, got;
      }
      r, got := conn.Read(len);
    }

    /** `chunk_read_exact`. */
    method Exact(len: nat) returns (ok: bool, out: seq<Byte>)
      requires Valid()
      modifies this, conn
      ensures Valid()
      ensures ok ==> |out| == len && old(Remaining()) == out + Remaining()
      ensures !ok ==> conn.tight || |old(Remaining())| < len
    {
      out := [];
      while |out| < len
        invariant Valid() && |out| <= len && old(Remaining()) == out + Remaining()
        decreases len - |out|
      {
        var late: bool := *;
        if conn.tight && late { return false, out; }
        ghost var before := out;
        var r, got := Some(len - |out|);
        if r <= 0 { return false, out; }
        Associates(before, got, Remaining());
        out := out + got;
      }
      return true, out;
    }

    /** `chunk_read_line`. */
    method Line() returns (ok: bool, line: seq<Byte>)
      requires Valid()
      modifies this, conn
      ensures Valid()
      ensures ok ==>
        var l := ReadLine(old(Remaining()));
        l.Some? && l.value.0 == line && Remaining() == old(Remaining())[l.value.1..]
      ensures !ok ==> conn.tight || ReadLine(old(Remaining())).None?
    {
      ghost var s := Remaining();
      var raw: seq<Byte> := [];
      while true
        invariant Valid() && |raw| <= LINE_CAP - 1 && LF !in raw
        invariant s == raw + Remaining()
        decreases LINE_CAP - |raw|
      {
        ghost var here := Remaining();
        var got, c := Exact(1);
        if !got {
          if !conn.tight { NoLine(s, raw); }
          return false, raw;
        }
        assert here == c + Remaining() && c == [c[0]];
        if c[0] == LF {
          LineEnds(s, raw, Remaining());
          return true, Stripped(raw);
        }
        if |raw| >= LINE_CAP - 1 {
          LineTooLong(s, raw + c, Remaining());
          return false, raw;
        }
        raw := raw + c;
      }
    }
  }

  lemma LineEnds(s: seq<Byte>, raw: seq<Byte>, rest: seq<Byte>)
    requires s == raw + ([LF] + rest) && LF !in raw && |raw| <= LINE_CAP - 1
    ensures ReadLine(s) == Option.Some((Stripped(raw), |raw| + 1)) && s[|raw| + 1..] == rest
  {
    var p := LineFeed(s);
    assert s[|raw|] == LF;
    assert forall i | 0 <= i < |raw| :: s[i] == raw[i] && raw[i] in raw;
    assert forall i | 0 <= i < p.value :: s[..p.value][i] == s[i];
    assert s[..|raw|] == raw;
  }

  lemma NoLine(s: seq<Byte>, raw: seq<Byte>)
    requires s == raw && LF !in raw
    ensures ReadLine(s).None?
  {
  }

  lemma LineTooLong(s: seq<Byte>, raw: seq<Byte>, rest: seq<Byte>)
    requires s == raw + rest && LF !in raw && |raw| >= LINE_CAP
    ensures ReadLine(s).None?
  {
    var p := LineFeed(s);
    assert forall i | 0 <= i < |raw| :: s[i] == raw[i] && raw[i] in raw;
  }

  // ---- collecting a chunked body ------------------------------------------

  /** The decoded value of a stream whose first chunks, `buf`, have been read. */
  lemma PrependConcat(a: seq<Byte>, b: seq<Byte>, r: Decoded)
    ensures Prepend(a, Prepend(b, r)) == Prepend(a + b, r)
  {
    match r
    case Fail(_) =>
    case Done(d, _) => assert a + (b + d) == a + b + d;
    case Cut(d) => assert a + (b + d) == a + b + d;
  }

  /** `read_chunked_body`. */
  method ReadChunkedBody(rd: ChunkReader, maxBytes: nat, truncate: bool)
    returns (rc: int, out: seq<Byte>, cut: bool)
    requires rd.Valid()
    modifies rd, rd.conn
    ensures rd.Valid()
    ensures rc == 0 && !cut ==>
      out != [] && Decode(old(rd.Remaining()), Upto(maxBytes, truncate)) == Done(out, rd.Remaining())
    ensures rc == 0 && cut ==>
      out != [] && truncate && Decode(old(rd.Remaining()), Upto(maxBytes, truncate)) == Cut(out)
    // without failures the outcome is the one the stream calls for
    ensures rc != 0 && !rd.conn.tight ==>
      match Decode(old(rd.Remaining()), Upto(maxBytes, truncate))
      case Fail(code) => rc == code
      case Done(data, _) => rc == -8 && data == []
      case Cut(data) => rc == -8 && data == []
  {
    hide Decode, ReadLine, ParseSize, Prepend, Trailers;
    cut := false;
    ghost var s := rd.Remaining();
    var lim := maxBytes;
    var cap := FIRST_CAP;
    var oom: bool := *;
    if rd.conn.tight && oom { return -6, [], false; }
    var buf: seq<Byte> := [];
    PrependNothing(Decode(s, Upto(lim, truncate)));
    while true
      invariant rd.Valid() && |buf| <= lim && |buf| <= cap && cap > 0
      invariant Decode(s, Upto(lim, truncate)) ==
                Prepend(buf, Decode(rd.Remaining(), Upto(lim - |buf|, truncate)))
      decreases |rd.Remaining()|
    {
      ghost var here := rd.Remaining();
      ghost var room := Upto(lim - |buf|, truncate);
      Prepends(buf, room, here);
      var got, line := rd.Line();
      if !got { return -11, [], false; }
      ghost var s1 := rd.Remaining();
      var size := ParseSize(line);
      if size.None? { return -13, [], false; }
      var chunk := size.value;
      if chunk == 0 {
        var t := ReadTrailers(rd);
        if !t { return -11, [], false; }
        if |buf| == 0 { return -8, [], false; }
        return 0, buf, false;
      }
      var take := chunk;
      if chunk > lim || |buf| > lim - chunk {
        if !truncate { return -10, [], false; }
        take := lim - |buf|;
        cut := true;
      }
      var grown;
      grown, cap := Grow(cap, |buf| + take, lim, rd.conn.tight);
      if !grown { return -7, [], false; }
      var ok, data := rd.Exact(take);
      if !ok { return -11, [], false; }
      ghost var s2 := rd.Remaining();
      Halves(data, s2);
      if cut {
        if |buf + data| == 0 { return -8, [], true; }
        return 0, buf + data, true;
      }
      var end, crlf := rd.Exact(2);
      if end { Halves(crlf, rd.Remaining()); }
      AfterData(s1, take, s2);
      if !end || crlf != CRLF { return -13, [], false; }
      PrependConcat(buf, data, Decode(rd.Remaining(), Upto(lim - |buf| - take, truncate)));
      buf := buf + data;
    }
  }

  /** The buffer growth of the collecting decoder: doubling, but never past the cap
      nor short of what is needed. */
  method Grow(cap: nat, need: nat, lim: nat, tight: bool) returns (ok: bool, cap': nat)
    requires cap > 0 && need <= lim
    ensures cap' >= cap && (ok ==> need <= cap')
    ensures cap' <= cap || cap' <= lim
    ensures !ok ==> tight
  {
    if need <= cap { return true, cap; }
    var next := cap;
    while next < need && next < lim
      invariant next >= cap && (next == cap || next <= lim)
      decreases lim - next
    {
      var grown := next * 2;
      next := if grown > lim then lim else grown;
    }
    assert next >= need;                 // so the source's last -10 cannot happen
    var oom: bool := *;
    if tight && oom { return false, cap; }
    return true, next;
  }

  /** One step of decoding, with `buf` already decoded before it. */
  lemma Prepends(buf: seq<Byte>, room: Room, s: seq<Byte>)
    requires room.Upto?
    ensures var r := Prepend(buf, Decode(s, room));
      var l := ReadLine(s);
      if l.None? then r == Fail(-11)
      else
        var size := ParseSize(l.value.0);
        var s1 := s[l.value.1..];
        if size.None? then r == Fail(-13)
        else if size.value == 0 then
          var t := Trailers(s1);
          if t.None? then r == Fail(-11) else r == Done(buf, t.value)
        else
          var n := size.value;
          if n > room.n then
            if !room.truncate then r == Fail(-10)
            else if |s1| < room.n then r == Fail(-11)
            else r == Cut(buf + s1[..room.n])
          else if |s1| < n then r == Fail(-11)
          else if |s1| < n + 2 || s1[n..n + 2] != CRLF then r == Fail(-13)
          else r == Prepend(buf, Prepend(s1[..n], Decode(s1[n + 2..], Upto(room.n - n, room.truncate))))
  {
    hide ReadLine, ParseSize, Trailers;
    assert buf + [] == buf;
  }

  lemma PrependNothing(r: Decoded)
    ensures Prepend([], r) == r
  {
    assert forall d: seq<Byte> :: [] + d == d;
  }

  /** The trailer loop of both decoders. */
  method ReadTrailers(rd: ChunkReader) returns (ok: bool)
    requires rd.Valid()
    modifies rd, rd.conn
    ensures rd.Valid()
    ensures ok ==> Trailers(old(rd.Remaining())) == Option.Some(rd.Remaining())
    ensures !ok ==> rd.conn.tight || Trailers(old(rd.Remaining())).None?
  {
    hide ReadLine;
    while true
      invariant rd.Valid() && Trailers(old(rd.Remaining())) == Trailers(rd.Remaining())
      decreases |rd.Remaining()|
    {
      var got, line := rd.Line();
      if !got { return false; }
      if line == [] { return true; }
    }
  }

  // ---- streaming a body -----------------------------------------------------

  /** `AsegOpts.sink`: takes the body in pieces and may ask to stop. */
  class Sink {
    var taken: seq<Byte>
    const mayStop: bool

    constructor (mayStop: bool)
      ensures taken == [] && this.mayStop == mayStop
    {
      taken, this.mayStop := [], mayStop;
    }

    method Take(p: seq<Byte>) returns (stop: bool)
      modifies this
      ensures taken == old(taken) + p
      ensures stop ==> mayStop
    {
      taken := taken + p;
      var s: bool := *;
      return s && mayStop;
    }
  }

  const STOPPED := 1

  /** `stream_body` on chunked framing: the sink gets exactly the decoded bytes. */
  method StreamChunked(rd: ChunkReader, sink: Sink) returns (rc: int)
    requires rd.Valid() && sink.taken == []
    modifies rd, rd.conn, sink
    ensures rd.Valid()
    ensures rc == 0 ==> Decode(old(rd.Remaining()), Unlimited) == Done(sink.taken, rd.Remaining())
    ensures rc == STOPPED ==> sink.mayStop
    // whatever happens, and wherever the connection broke, the sink has seen chunk data in order
    ensures sink.taken <= Partial(old(rd.Remaining()))
    ensures rc != 0 && rc != STOPPED && !rd.conn.tight ==>
      Decode(old(rd.Remaining()), Unlimited) == Fail(rc)
  {
    hide Decode, Partial, ReadLine, ParseSize, Prepend, Trailers;
    ghost var s := rd.Remaining();
    PrependNothing(Decode(s, Unlimited));
    while true
      invariant rd.Valid()
      invariant Partial(s) == sink.taken + Partial(rd.Remaining())
      invariant Decode(s, Unlimited) == Prepend(sink.taken, Decode(rd.Remaining(), Unlimited))
      decreases |rd.Remaining()|
    {
      ghost var done, here := sink.taken, rd.Remaining();
      Streams(done, here);
      var got, line := rd.Line();
      if !got { return -11; }
      ghost var s1 := rd.Remaining();
      var size := ParseSize(line);
      if size.None? { return -13; }
      var chunk := size.value;
      if chunk == 0 {
        var t := ReadTrailers(rd);
        return if t then 0 else -11;
      }
      ChunkStep(done, here, s1, chunk);
      ghost var n, given := chunk, 0;
      rc, given := Pieces(rd, sink, chunk);
      if rc != 0 { return; }
      ghost var s2 := rd.Remaining();
      var end, crlf := rd.Exact(2);
      if end { Halves(crlf, rd.Remaining()); }
      AfterData(s1, n, s2);
      if !end || crlf != CRLF { return -13; }
    }
  }

  /** The data of one chunk goes to the sink, a bounded piece at a time. */
  method Pieces(rd: ChunkReader, sink: Sink, size: nat) returns (rc: int, ghost given: nat)
    requires rd.Valid()
    modifies rd, rd.conn, sink
    ensures rd.Valid() && given <= size && given <= |old(rd.Remaining())|
    ensures sink.taken == old(sink.taken) + old(rd.Remaining())[..given]
    ensures rc == 0 ==> given == size && rd.Remaining() == old(rd.Remaining())[given..]
    ensures rc == 0 || (rc == STOPPED && sink.mayStop) || (rc == -11 || (rc == -9 && rd.conn.tight))
    ensures rc == -11 && !rd.conn.tight ==> |old(rd.Remaining())| < size
  {
    ghost var done, s1 := sink.taken, rd.Remaining();
    var chunk := size;
    rc, given := 0, 0;
    while chunk > 0 && rc == 0
      invariant rd.Valid() && 0 <= chunk && size == given + chunk
      invariant |s1| >= given && sink.taken == done + s1[..given] && rd.Remaining() == s1[given..]
      invariant rc == 0 || (rc == STOPPED && sink.mayStop)
      decreases chunk
    {
      var piece := if chunk > PIECE then PIECE else chunk;
      var ok, buf := rd.Exact(piece);
      if !ok {
        var aborted: bool := *;
        rc := if rd.conn.tight && aborted then -9 else -11;
        return;
      }
      assert s1[given..] == buf + rd.Remaining();
      assert s1[..given + piece] == s1[..given] + buf && s1[given + piece..] == rd.Remaining();
      chunk := chunk - piece;
      given := given + piece;
      var stop := sink.Take(buf);
      if stop { rc := STOPPED; }
    }
  }

  /** What a body without chunks may hold: the announced length, or any number of bytes. */
  function Limit(clen: Option<nat>): nat {
    if clen.Some? then clen.value else ULLONG_MAX
  }

  function Head(all: seq<Byte>, n: nat): (h: seq<Byte>)
    ensures h <= all && |h| == if |all| <= n then |all| else n
  {
    if |all| <= n then all else all[..n]
  }

  /** `stream_body` on a body of known length, or one that ends with the connection: the sink gets
      the body, and a front part of it whatever happens; a break ends a body without length like
      a close. */
  method StreamPlain(conn: Conn, lead: seq<Byte>, clen: Option<nat>, sink: Sink) returns (rc: int)
    requires sink.taken == []
    modifies conn, sink
    ensures sink.taken <= Head(lead + old(conn.rest), Limit(clen))
    ensures rc == 0 ==> sink.taken == Head(lead + old(conn.rest), Limit(clen)) != []
    ensures rc == 0 && clen.Some? ==> |sink.taken| == clen.value
    ensures rc == STOPPED ==> sink.mayStop
    ensures !conn.tight && rc != STOPPED ==>
      var all := lead + old(conn.rest);
      rc == if clen.Some? && |all| < clen.value then -11 else if Head(all, Limit(clen)) == [] then -8 else 0
  {
    ghost var all := lead + conn.rest;
    var oom: bool := *;
    if conn.tight && oom { return -6; }
    rc := 0;
    var left := Limit(clen);
    var streamed := 0;
    if |lead| > 0 {
      var n := if |lead| > left then left else |lead|;
      left := left - n;
      streamed := n;
      if n > 0 {
        var stop := sink.Take(lead[..n]);
        if stop { rc := STOPPED; }
      }
    }
    Streamed(lead, conn.rest, Limit(clen));
    while rc == 0 && left > 0
      invariant 0 <= left && streamed == |sink.taken| == Limit(clen) - left && sink.taken <= all
      invariant left > 0 ==> sink.taken + conn.rest == all
      invariant rc == 0 || (rc == STOPPED && sink.mayStop)
      decreases left, if rc == 0 then 1 else 0
    {
      var late: bool := *;
      if conn.tight && late { return -12; }
      var want := if left < PIECE then left else PIECE;
      ghost var was, before := sink.taken, conn.rest;
      var r, got := conn.Read(want);
      if r <= 0 {
        if clen.Some? { rc := -11; }
        assert sink.taken == all;
        break;
      }
      Associates(was, got, conn.rest);
      left := left - r;
      streamed := streamed + r;
      var stop := sink.Take(got);
      if stop { rc := STOPPED; }
    }
    if rc == 0 && streamed == 0 { rc := -8; }
  }

  lemma Streamed(lead: seq<Byte>, rest: seq<Byte>, limit: nat)
    ensures var n := if |lead| > limit then limit else |lead|;
      lead[..n] <= lead + rest && (n < limit ==> lead[..n] + rest == lead + rest)
  {
    var n := if |lead| > limit then limit else |lead|;
    assert (lead + rest)[..n] == lead[..n];
    if n < limit { assert lead[..n] == lead; }
  }

  /** One step of unlimited decoding. */
  lemma Streams(buf: seq<Byte>, s: seq<Byte>)
    ensures var r := Prepend(buf, Decode(s, Unlimited));
      var l := ReadLine(s);
      if l.None? then r == Fail(-11)
      else
        var size := ParseSize(l.value.0);
        var s1 := s[l.value.1..];
        if size.None? then r == Fail(-13)
        else if size.value == 0 then
          var t := Trailers(s1);
          if t.None? then r == Fail(-11) else r == Done(buf, t.value)
        else
          var n := size.value;
          if |s1| < n then r == Fail(-11)
          else if |s1| < n + 2 || s1[n..n + 2] != CRLF then r == Fail(-13)
          else r == Prepend(buf, Prepend(s1[..n], Decode(s1[n + 2..], Unlimited)))
  {
    hide ReadLine, ParseSize, Trailers;
    assert buf + [] == buf;
  }

  lemma AfterData(s1: seq<Byte>, n: nat, s2: seq<Byte>)
    requires n <= |s1| && s2 == s1[n..]
    ensures |s1| >= n + 2 ==> s1[n..n + 2] == s2[..2] && s1[n + 2..] == s2[2..]
  {}

  /** One chunk of a stream that may stop anywhere, after `done` was handed on. */
  lemma ChunkStep(done: seq<Byte>, s: seq<Byte>, s1: seq<Byte>, n: nat)
    requires ReadLine(s).Some? && s1 == s[ReadLine(s).value.1..]
    requires ParseSize(ReadLine(s).value.0) == Option.Some(n) && n > 0
    ensures var r := Prepend(done, Decode(s, Unlimited));
      if |s1| < n then r == Fail(-11)
      else if |s1| < n + 2 || s1[n..n + 2] != CRLF then r == Fail(-13)
      else
        && r == Prepend(done + s1[..n], Decode(s1[n + 2..], Unlimited))
        && done + Partial(s) == done + s1[..n] + Partial(s1[n + 2..])
    ensures forall k: nat | k <= n && k <= |s1| :: done + s1[..k] <= done + Partial(s)
  {
    hide ReadLine, ParseSize, Decode, Prepend, Trailers, Partial;
    Streams(done, s);
    PartialStep(s, s1, n);
    if |s1| >= n + 2 && s1[n..n + 2] == CRLF {
      PrependConcat(done, s1[..n], Decode(s1[n + 2..], Unlimited));
      Associates(done, s1[..n], Partial(s1[n + 2..]));
    }
    forall k: nat | k <= n && k <= |s1|
      ensures done + s1[..k] <= done + Partial(s)
    {
      After(done, s1[..k], Partial(s));
    }
  }

  lemma After(done: seq<Byte>, x: seq<Byte>, y: seq<Byte>)
    requires x <= y
    ensures done + x <= done + y
  {}

  /** One step through a stream that may stop anywhere. */
  lemma PartialStep(s: seq<Byte>, s1: seq<Byte>, n: nat)
    requires ReadLine(s).Some? && s1 == s[ReadLine(s).value.1..]
    requires ParseSize(ReadLine(s).value.0) == Option.Some(n) && n > 0
    ensures forall k: nat | k <= n && k <= |s1| :: s1[..k] <= Partial(s)
    ensures |s1| >= n + 2 && s1[n..n + 2] == CRLF ==> Partial(s) == s1[..n] + Partial(s1[n + 2..])
  {
    hide ReadLine, ParseSize;
    forall k: nat | k <= n && k <= |s1|
      ensures s1[..k] <= Partial(s)
    {
      if |s1| >= n { assert s1[..n][..k] == s1[..k]; }
    }
  }
}

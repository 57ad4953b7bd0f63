/**
 HTTP chunk framing (section 4.1 of RFC 7230) as app/src/aseg.c reads it: what a
 byte stream decodes to, and that an encoded body decodes to its chunk data.
 */
module Chunked {
  type Byte = x: int | 0 <= x < 256

  const LF: Byte := 10
  const CR: Byte := 13
  const CRLF: seq<Byte> := [CR, LF]
  const LINE_CAP := 128
  const ULLONG_MAX := 0xFFFF_FFFF_FFFF_FFFF

  datatype Option<+T> = None | Some(value: T)

  // ---- lines ----------------------------------------------------------------

  /** Where the first line feed is, if there is one. */
  function LineFeed(s: seq<Byte>): (p: Option<nat>)
    ensures p.Some? ==> p.value < |s| && s[p.value] == LF && LF !in s[..p.value]
    ensures p.None? ==> LF !in s
  {
    if s == [] then None
    else if s[0] == LF then Some(0)
    else
      var p := LineFeed(s[1..]);
      assert s == [s[0]] + s[1..];
      assert p.Some? ==> s[..p.value + 1] == [s[0]] + s[1..][..p.value];
      if p.Some? then Some(p.value + 1) else None
  }

  /** A line without its line feed and one carriage return before it. */
  function Stripped(raw: seq<Byte>): seq<Byte> {
    if raw != [] && raw[|raw| - 1] == CR then raw[..|raw| - 1] else raw
  }

  /** `chunk_read_line` on a stream that holds everything: the line, and how many
      bytes it takes; nothing when it does not end or does not fit the buffer. */
  function ReadLine(s: seq<Byte>): (r: Option<(seq<Byte>, nat)>)
    ensures r.Some? ==> 0 < r.value.1 <= |s|
  {
    var p := LineFeed(s);
    if p.Some? && p.value <= LINE_CAP - 1 then Some((Stripped(s[..p.value]), p.value + 1)) else None
  }

  // ---- chunk sizes ------------------------------------------------------------

  function HexVal(c: Byte): (v: Option<nat>)
    ensures v.Some? ==> v.value < 16
  {
    if '0' as int <= c <= '9' as int then Some(c - '0' as int)
    else if 'a' as int <= c <= 'f' as int then Some(c - 'a' as int + 10)
    else if 'A' as int <= c <= 'F' as int then Some(c - 'A' as int + 10)
    else None
  }

  predicate IsHex(c: Byte) {
    HexVal(c).Some?
  }

  predicate Blank(c: Byte) {
    c == 32 || c == 9
  }

  /** `isspace` in the C locale. */
  predicate Space(c: Byte) {
    c == 32 || 9 <= c <= 13
  }

  function Skip(s: seq<Byte>, f: Byte -> bool): (r: seq<Byte>)
    ensures |r| <= |s|
    ensures r != [] ==> !f(r[0])
  {
    if s != [] && f(s[0]) then Skip(s[1..], f) else s
  }

  /** The digits at the front of a string, and the value they add to `acc`. */
  function Digits(s: seq<Byte>): (d: seq<Byte>)
    ensures |d| <= |s|
    ensures d == s[..|d|]
  {
    if s != [] && IsHex(s[0]) then [s[0]] + Digits(s[1..]) else []
  }

  /** Positional value of a string of hex digits. */
  function HexValue(d: seq<Byte>): nat {
    if d == [] then 0
    else HexValue(d[..|d| - 1]) * 16 + (if IsHex(d[|d| - 1]) then HexVal(d[|d| - 1]).value else 0)
  }

  /** What a value becomes in 64 bits: too large it stays at the largest, and a sign turns it round. */
  function Wrapped(v: nat, neg: bool): nat {
    if v > ULLONG_MAX then ULLONG_MAX else if neg && v > 0 then ULLONG_MAX + 1 - v else v
  }

  /** `strtoull(p, &end, 16)`: the value and what is left at `end`, or nothing
      when no digit was read. */
  function Strtoull(p: seq<Byte>): Option<(nat, seq<Byte>)> {
    var s := Skip(p, Space);
    var neg := s != [] && s[0] == '-' as int;
    var s := if s != [] && (s[0] == '-' as int || s[0] == '+' as int) then s[1..] else s;
    var s := if |s| > 2 && s[0] == '0' as int && (s[1] == 'x' as int || s[1] == 'X' as int) && IsHex(s[2])
             then s[2..] else s;
    var d := Digits(s);
    if d == [] then None
    else
      Some((Wrapped(HexValue(d), neg), s[|d|..]))
  }

  /** The C string a line is read as. */
  function UpToNul(s: seq<Byte>): seq<Byte> {
    if s == [] || s[0] == 0 then [] else [s[0]] + UpToNul(s[1..])
  }

  /** The size a chunk-size line announces. */
  function ParseSize(line: seq<Byte>): Option<nat> {
    var r := Strtoull(Skip(UpToNul(line), Blank));
    if r.None? then None
    else
      var rest := Skip(r.value.1, Blank);
      if rest != [] && rest[0] != ';' as int then None else Some(r.value.0)
  }

  // ---- bodies -----------------------------------------------------------------

  /** What a stream decodes to: an error code, the whole body and what follows its
      trailers, or the head of a body cut at the cap. */
  datatype Decoded =
    | Fail(rc: int)
    | Done(data: seq<Byte>, rest: seq<Byte>)
    | Cut(data: seq<Byte>)

  function Prepend(d: seq<Byte>, r: Decoded): Decoded {
    match r
    case Fail(rc) => Fail(rc)
    case Done(data, rest) => Done(d + data, rest)
    case Cut(data) => Cut(d + data)
  }

  /** Trailer lines up to the first blank one. */
  function Trailers(s: seq<Byte>): (r: Option<seq<Byte>>)
    ensures r.Some? ==> |r.value| < |s|
  {
    var l := ReadLine(s);
    if l.None? then None
    else if l.value.0 == [] then Some(s[l.value.1..])
    else Trailers(s[l.value.1..])
  }

  /** How much more body may be kept: unlimited, or a cap that fails or truncates. */
  datatype Room = Unlimited | Upto(n: nat, truncate: bool)

  function Less(room: Room, k: nat): Room
    requires room.Upto? ==> k <= room.n
  {
    if room.Unlimited? then room else Upto(room.n - k, room.truncate)
  }

  function Decode(s: seq<Byte>, room: Room): Decoded
    decreases |s|
  {
    var l := ReadLine(s);
    if l.None? then Fail(-11)
    else
      var size := ParseSize(l.value.0);
      var s1 := s[l.value.1..];
      if size.None? then Fail(-13)
      else if size.value == 0 then
        var t := Trailers(s1);
        if t.None? then Fail(-11) else Done([], t.value)
      else
        var n := size.value;
        if room.Upto? && n > room.n then
          if !room.truncate then Fail(-10)
          else if |s1| < room.n then Fail(-11)
          else Cut(s1[..room.n])
        else if |s1| < n then Fail(-11)
        else if |s1| < n + 2 || s1[n..n + 2] != CRLF then Fail(-13)
        else Prepend(s1[..n], Decode(s1[n + 2..], Less(room, n)))
  }

  // ---- encoding -----------------------------------------------------------------

  /** A chunk: its size in hex digits, an extension, and its data. */
  datatype Chunk = Chunk(digits: seq<Byte>, ext: seq<Byte>, data: seq<Byte>)

  predicate LineOk(l: seq<Byte>) {
    LF !in l && |l| <= LINE_CAP - 2
  }

  /** What follows the size digits: nothing, or optional blanks and a `;` part. */
  predicate ExtOk(ext: seq<Byte>) {
    0 !in ext && var r := Skip(ext, Blank); r == [] || r[0] == ';' as int
  }

  const LOWER := "0123456789abcdef"
  const UPPER := "0123456789ABCDEF"

  /** Digits of base sixteen for a number, in either case, with any number of leading zeros. */
  predicate Writes(d: seq<Byte>, n: nat) {
    && d != []
    && (d[|d| - 1] == LOWER[n % 16] as int || d[|d| - 1] == UPPER[n % 16] as int)
    && (if |d| == 1 then n < 16 else Writes(d[..|d| - 1], n / 16))
  }

  predicate SizeLineOk(digits: seq<Byte>, ext: seq<Byte>, n: nat) {
    Writes(digits, n) && n <= ULLONG_MAX && ExtOk(ext) && LineOk(digits + ext)
  }

  /** The digits of a number without leading zeros. */
  function Hex(n: nat): (d: seq<Byte>)
    ensures d != []
  {
    (if n < 16 then [] else Hex(n / 16)) + [LOWER[n % 16] as int]
  }

  lemma {:induction false} HexWrites(n: nat)
    ensures Writes(Hex(n), n)
  {
    var d := Hex(n);
    if n >= 16 {
      HexWrites(n / 16);
      assert d[..|d| - 1] == Hex(n / 16);
    }
  }

  /** What is written so is read so. */
  lemma {:induction false} WritesReads(d: seq<Byte>, n: nat)
    requires Writes(d, n)
    ensures HexValue(d) == n && forall c | c in d :: IsHex(c)
    decreases |d|
  {
    DigitReads(n % 16);
    var c := d[|d| - 1];
    if |d| == 1 {
      assert HexValue(d[..0]) == 0;
    } else {
      WritesReads(d[..|d| - 1], n / 16);
    }
    assert d == d[..|d| - 1] + [c];
  }

  lemma DigitReads(v: nat)
    requires v < 16
    ensures HexVal(LOWER[v] as int) == HexVal(UPPER[v] as int) == Some(v)
  {
  }

  /** And nothing else is read as that number. */
  lemma {:induction false} ReadsWrites(d: seq<Byte>)
    requires d != [] && forall c | c in d :: IsHex(c)
    ensures Writes(d, HexValue(d))
    decreases |d|
  {
    var c := d[|d| - 1];
    assert c in d;
    DigitWrites(c);
    SplitDigit(HexValue(d[..|d| - 1]), HexVal(c).value);
    hide HexVal;
    if |d| == 1 {
      assert HexValue(d[..0]) == 0;
    } else {
      ReadsWrites(d[..|d| - 1]);
    }
  }

  lemma SplitDigit(m: nat, v: nat)
    requires v < 16
    ensures (m * 16 + v) / 16 == m && (m * 16 + v) % 16 == v
  {
  }

  lemma DigitWrites(c: Byte)
    requires IsHex(c)
    ensures var v := HexVal(c).value; c == LOWER[v] as int || c == UPPER[v] as int
  {
  }

  /** Every size that fits is read back from its digits. */
  lemma ParseHex(n: nat)
    requires n <= ULLONG_MAX
    ensures ParseSize(Hex(n)) == Some(n)
  {
    HexWrites(n);
    WritesReads(Hex(n), n);
    ParseDigits(Hex(n), []);
    assert Hex(n) + [] == Hex(n);
  }

  predicate ChunkOk(c: Chunk) {
    c.data != [] && SizeLineOk(c.digits, c.ext, |c.data|)
  }

  function EncodeChunk(c: Chunk): seq<Byte> {
    c.digits + c.ext + CRLF + c.data + CRLF
  }

  function EncodeTrailers(ts: seq<seq<Byte>>): seq<Byte> {
    if ts == [] then CRLF else ts[0] + CRLF + EncodeTrailers(ts[1..])
  }

  function Encode(cs: seq<Chunk>, last: (seq<Byte>, seq<Byte>), ts: seq<seq<Byte>>): seq<Byte> {
    if cs == [] then last.0 + last.1 + CRLF + EncodeTrailers(ts)
    else EncodeChunk(cs[0]) + Encode(cs[1..], last, ts)
  }

  function Data(cs: seq<Chunk>): seq<Byte> {
    if cs == [] then [] else cs[0].data + Data(cs[1..])
  }

  predicate BodyOk(cs: seq<Chunk>, last: (seq<Byte>, seq<Byte>), ts: seq<seq<Byte>>) {
    && (forall c | c in cs :: ChunkOk(c))
    && SizeLineOk(last.0, last.1, 0)
    && (forall t | t in ts :: LineOk(t) && t != [])
  }

  lemma {:induction false} LineFeedAt(s: seq<Byte>, l: seq<Byte>)
    requires LF !in l && l + CRLF <= s
    ensures LineFeed(s) == Some(|l| + 1)
  {
    var p := LineFeed(s);
    assert s[|l| + 1] == LF && s[|l| + 1] in s;
    assert forall i | 0 <= i < |l| :: s[i] == l[i] && l[i] in l;
    assert s[|l|] == CR;
    assert forall i | 0 <= i < p.value :: s[..p.value][i] == s[i];
  }

  /** A line that fits is read back, whatever follows it. */
  lemma LineReads(l: seq<Byte>, rest: seq<Byte>)
    requires LineOk(l)
    ensures ReadLine(l + CRLF + rest) == Some((l, |l| + 2))
    ensures (l + CRLF + rest)[|l| + 2..] == rest
  {
    var s := l + CRLF + rest;
    LineFeedAt(s, l);
    assert s[..|l| + 1] == l + [CR];
    assert (l + [CR])[..|l|] == l;
  }

  lemma {:induction false} DigitsRead(d: seq<Byte>, ext: seq<Byte>)
    requires (forall c | c in d :: IsHex(c)) && (ext == [] || !IsHex(ext[0]))
    ensures Digits(d + ext) == d
  {
    if d == [] {
      assert d + ext == ext;
    } else {
      assert (d + ext)[1..] == d[1..] + ext;
      DigitsRead(d[1..], ext);
    }
  }

  lemma {:induction false} NoNul(s: seq<Byte>)
    requires 0 !in s
    ensures UpToNul(s) == s
  {
    if s != [] { NoNul(s[1..]); }
  }

  lemma SizeLineFits(digits: seq<Byte>, ext: seq<Byte>, n: nat)
    requires SizeLineOk(digits, ext, n)
    ensures LineOk(digits + ext)
  {
  }

  /** A size line means its digits. */
  lemma SizeReads(digits: seq<Byte>, ext: seq<Byte>, n: nat)
    requires SizeLineOk(digits, ext, n)
    ensures ParseSize(digits + ext) == Some(n)
  {
    WritesReads(digits, n);
    ParseDigits(digits, ext);
  }

  lemma ParseDigits(digits: seq<Byte>, ext: seq<Byte>)
    requires digits != [] && (forall d | d in digits :: IsHex(d)) && HexValue(digits) <= ULLONG_MAX && ExtOk(ext)
    ensures ParseSize(digits + ext) == Some(HexValue(digits))
  {
    hide Strtoull, HexValue, UpToNul, LineOk;
    var s := digits + ext;
    assert forall d | d in digits :: d != 0 && !Blank(d);
    NoNul(s);
    assert s[0] == digits[0] && digits[0] in digits;
    assert Skip(s, Blank) == s;
    ExtStarts(ext);
    StrtoullReads(digits, ext);
  }

  /** What else `strtoull` takes: a base, a sign that turns the number round 2^64, and numbers past it. */
  lemma OddSizes(d: seq<Byte>, n: nat)
    requires Writes(d, n)
    ensures n <= ULLONG_MAX ==> ParseSize(['0' as int, 'x' as int] + d) == Some(n)
    ensures n <= ULLONG_MAX ==> ParseSize(['-' as int] + d) == Some(if n == 0 then 0 else ULLONG_MAX + 1 - n)
    ensures n > ULLONG_MAX ==> ParseSize(d) == Some(ULLONG_MAX)
  {
    WritesReads(d, n);
    assert d[0] in d;
    assert |d| > 1 ==> d[1] in d;
    hide HexValue, Writes, ParseSize, HexVal, Digits;
    OnlyDigits(d);
    BasedReads(d);
    SignedReads(d);
    BareReads(d);
  }

  lemma OnlyDigits(d: seq<Byte>)
    requires d != [] && forall c | c in d :: IsHex(c)
    ensures Digits(d) == d && 0 !in d && !Space(d[0])
  {
    DigitsRead(d, []);
    assert d + [] == d && d[0] in d;
  }

  lemma LineOf(s: seq<Byte>, v: nat)
    requires s != [] && 0 !in s && !Space(s[0]) && Strtoull(s) == Some((v, []))
    ensures ParseSize(s) == Some(v)
  {
    hide Strtoull;
    NoNul(s);
  }

  lemma BasedReads(d: seq<Byte>)
    requires d != [] && Digits(d) == d && 0 !in d && IsHex(d[0])
    ensures ParseSize(['0' as int, 'x' as int] + d) == Some(Wrapped(HexValue(d), false))
  {
    hide Digits, HexValue;
    var x := ['0' as int, 'x' as int] + d;
    assert x[2..] == d && d[|d|..] == [];
    assert Skip(x, Space) == x;
    LineOf(x, Wrapped(HexValue(d), false));
  }

  lemma SignedReads(d: seq<Byte>)
    requires d != [] && Digits(d) == d && 0 !in d && IsHex(d[0]) && (|d| > 1 ==> IsHex(d[1]))
    ensures ParseSize(['-' as int] + d) == Some(Wrapped(HexValue(d), true))
  {
    hide Digits, HexValue;
    var x := ['-' as int] + d;
    assert x[1..] == d && d[|d|..] == [];
    assert Skip(x, Space) == x;
    LineOf(x, Wrapped(HexValue(d), true));
  }

  lemma BareReads(d: seq<Byte>)
    requires d != [] && Digits(d) == d && 0 !in d && IsHex(d[0]) && (|d| > 1 ==> IsHex(d[1]))
    ensures ParseSize(d) == Some(Wrapped(HexValue(d), false))
  {
    hide Digits, HexValue;
    assert d[|d|..] == [];
    assert Skip(d, Space) == d;
    LineOf(d, Wrapped(HexValue(d), false));
  }

  lemma StrtoullReads(digits: seq<Byte>, ext: seq<Byte>)
    requires digits != [] && (forall d | d in digits :: IsHex(d)) && HexValue(digits) <= ULLONG_MAX
    requires ext == [] || ext[0] == ';' as int || Blank(ext[0])
    ensures Strtoull(digits + ext) == Some((HexValue(digits), ext))
  {
    hide HexValue, Digits;
    var s := digits + ext;
    assert s[0] == digits[0] && digits[0] in digits;
    assert Skip(s, Space) == s;
    if |s| > 1 {
      assert s[1] == if |digits| > 1 then digits[1] else ext[0];
      assert |digits| > 1 ==> digits[1] in digits;
    }
    DigitsRead(digits, ext);
    assert s[|digits|..] == ext;
  }

  lemma ExtStarts(ext: seq<Byte>)
    requires ExtOk(ext)
    ensures ext == [] || ext[0] == ';' as int || Blank(ext[0])
  {
  }

  lemma {:induction false} TrailersRead(ts: seq<seq<Byte>>, tail: seq<Byte>)
    requires forall t | t in ts :: LineOk(t) && t != []
    ensures Trailers(EncodeTrailers(ts) + tail) == Some(tail)
  {
    if ts == [] {
      LineReads([], tail);
      assert [] + CRLF + tail == EncodeTrailers(ts) + tail;
    } else {
      var rest := EncodeTrailers(ts[1..]) + tail;
      assert EncodeTrailers(ts) + tail == ts[0] + CRLF + rest;
      LineReads(ts[0], rest);
      TrailersRead(ts[1..], tail);
    }
  }

  lemma Associates(a: seq<Byte>, b: seq<Byte>, c: seq<Byte>)
    ensures a + (b + c) == a + b + c
  {}

  lemma Halves(a: seq<Byte>, b: seq<Byte>)
    ensures (a + b)[..|a|] == a && (a + b)[|a|..] == b
  {}

  lemma ChunkParts(data: seq<Byte>, more: seq<Byte>)
    ensures var rest, n := data + (CRLF + more), |data|;
      |rest| >= n + 2 && rest[..n] == data && rest[n..n + 2] == CRLF && rest[n + 2..] == more
  {
    Halves(data, CRLF + more);
    Halves(CRLF, more);
    var rest := data + (CRLF + more);
    assert rest[|data| + 2..] == rest[|data|..][2..];
    assert rest[|data|..|data| + 2] == rest[|data|..][..2];
  }

  /** One chunk of a stream. */
  lemma DecodeChunk(s: seq<Byte>, line: seq<Byte>, data: seq<Byte>, more: seq<Byte>, room: Room)
    requires ReadLine(s) == Some((line, |line| + 2)) && s[|line| + 2..] == data + (CRLF + more)
    requires ParseSize(line) == Some(|data|) && data != []
    ensures Decode(s, room) ==
      if room.Unlimited? || |data| <= room.n then Prepend(data, Decode(more, Less(room, |data|)))
      else if room.truncate then Cut(data[..room.n])
      else Fail(-10)
  {
    hide ReadLine, ParseSize, Trailers;
    ChunkParts(data, more);
    if room.Upto? && room.n < |data| {
      assert (data + (CRLF + more))[..room.n] == data[..room.n];
    }
  }

  /** The last chunk and the trailers. */
  lemma DecodeLast(s: seq<Byte>, line: seq<Byte>, tail: seq<Byte>, room: Room)
    requires ReadLine(s) == Some((line, |line| + 2)) && ParseSize(line) == Some(0)
    requires Trailers(s[|line| + 2..]) == Some(tail)
    ensures Decode(s, room) == Done([], tail)
  {
    hide ReadLine, ParseSize, Trailers;
  }

  /** The stream of an encoded body, cut after its first line. */
  lemma EncodeStarts(cs: seq<Chunk>, last: (seq<Byte>, seq<Byte>), ts: seq<seq<Byte>>, tail: seq<Byte>)
    ensures var s := Encode(cs, last, ts) + tail;
      if cs == [] then s == (last.0 + last.1) + CRLF + (EncodeTrailers(ts) + tail)
      else s == (cs[0].digits + cs[0].ext) + CRLF
                + (cs[0].data + (CRLF + (Encode(cs[1..], last, ts) + tail)))
  {
    hide EncodeTrailers;
    if cs == [] {
      Associates(last.0 + last.1 + CRLF, EncodeTrailers(ts), tail);
    } else {
      var c, e := cs[0], Encode(cs[1..], last, ts);
      var head := c.digits + c.ext + CRLF;
      Associates(head + c.data + CRLF, e, tail);
      Associates(head + c.data, CRLF, e + tail);
      Associates(head, c.data, CRLF + (e + tail));
    }
  }

  /** An encoded body decodes to its data and leaves exactly what follows it; with a
      cap it decodes to the same when the data fits, and to its first bytes when
      it does not and truncation is asked for. */
  lemma {:induction false} DecodeEncode(cs: seq<Chunk>, last: (seq<Byte>, seq<Byte>), ts: seq<seq<Byte>>,
                                        tail: seq<Byte>, room: Room)
    requires BodyOk(cs, last, ts)
    ensures var r := Decode(Encode(cs, last, ts) + tail, room);
      if room.Unlimited? || |Data(cs)| <= room.n then r == Done(Data(cs), tail)
      else if room.truncate then r == Cut(Data(cs)[..room.n])
      else r == Fail(-10)
  {
    hide ReadLine, ParseSize, Trailers, EncodeTrailers, SizeLineOk, LineOk, Encode, Decode;
    var s := Encode(cs, last, ts) + tail;
    EncodeStarts(cs, last, ts, tail);
    if cs == [] {
      SizeLineFits(last.0, last.1, 0);
      LineReads(last.0 + last.1, EncodeTrailers(ts) + tail);
      SizeReads(last.0, last.1, 0);
      TrailersRead(ts, tail);
      DecodeLast(s, last.0 + last.1, tail, room);
    } else {
      var c, more := cs[0], Encode(cs[1..], last, ts) + tail;
      assert c in cs;
      SizeLineFits(c.digits, c.ext, |c.data|);
      LineReads(c.digits + c.ext, c.data + (CRLF + more));
      SizeReads(c.digits, c.ext, |c.data|);
      DecodeChunk(s, c.digits + c.ext, c.data, more, room);
      if room.Unlimited? || |c.data| <= room.n {
        DecodeEncode(cs[1..], last, ts, tail, Less(room, |c.data|));
        HeadOf(c.data, Data(cs[1..]), room);
      } else {
        assert Data(cs)[..room.n] == c.data[..room.n];
      }
    }
  }

  lemma HeadOf(d: seq<Byte>, more: seq<Byte>, room: Room)
    requires room.Upto? ==> |d| <= room.n
    ensures room.Upto? && |d + more| > room.n ==> (d + more)[..room.n] == d + more[..room.n - |d|]
  {}

  // ---- nothing else decodes ---------------------------------------------------------

  /** A line as it came, what it says, and the data after it. */
  datatype Piece = Piece(raw: seq<Byte>, line: seq<Byte>, data: seq<Byte>)

  /** It ends with its first line feed, or with a carriage return and that, and fits the buffer. */
  predicate IsLine(p: Piece) {
    LF !in p.line && |p.raw| <= LINE_CAP && (p.raw == p.line + [LF] || p.raw == p.line + CRLF)
  }

  predicate IsChunk(p: Piece) {
    IsLine(p) && p.data != [] && ParseSize(p.line) == Some(|p.data|)
  }

  function Wire(ps: seq<Piece>): seq<Byte> {
    if ps == [] then [] else ps[0].raw + ps[0].data + CRLF + Wire(ps[1..])
  }

  function WireData(ps: seq<Piece>): seq<Byte> {
    if ps == [] then [] else ps[0].data + WireData(ps[1..])
  }

  function Lines(ps: seq<Piece>): seq<Byte> {
    if ps == [] then [] else ps[0].raw + Lines(ps[1..])
  }

  predicate IsTrailer(ts: seq<Piece>) {
    && ts != [] && ts[|ts| - 1].line == []
    && forall i | 0 <= i < |ts| :: IsLine(ts[i]) && (i < |ts| - 1 ==> ts[i].line != [])
  }

  lemma LineOnly(s: seq<Byte>) returns (p: Piece)
    requires ReadLine(s).Some?
    ensures var (line, n) := ReadLine(s).value;
      IsLine(p) && p.line == line && p.data == [] && s == p.raw + s[n..] && |p.raw| == n
  {
    var (line, n) := ReadLine(s).value;
    p := Piece(s[..n], line, []);
    var raw := s[..n - 1];
    assert s[..n] == raw + [LF];
    if raw != [] && raw[|raw| - 1] == CR {
      assert raw == line + [CR];
      assert line + [CR] + [LF] == line + CRLF;
      assert forall c | c in line :: c in raw;
    }
  }

  lemma TrailersOnly(s: seq<Byte>) returns (ts: seq<Piece>)
    requires Trailers(s).Some?
    ensures IsTrailer(ts) && s == Lines(ts) + Trailers(s).value
    decreases |s|
  {
    hide ReadLine;
    var p := LineOnly(s);
    var rest := s[ReadLine(s).value.1..];
    if p.line == [] {
      ts := [p];
      assert Lines(ts[1..]) == [];
    } else {
      var more := TrailersOnly(rest);
      ts := [p] + more;
      assert ts[1..] == more;
      Associates(p.raw, Lines(more), Trailers(s).value);
    }
  }

  /** A stream decodes only if it is framed: chunks whose lines announce their data and which end as
      they must, a line that announces none, trailer lines and a blank one. */
  lemma DecodeOnly(s: seq<Byte>) returns (ps: seq<Piece>, last: Piece, ts: seq<Piece>)
    requires Decode(s, Unlimited).Done?
    ensures var d := Decode(s, Unlimited);
      s == Wire(ps) + (last.raw + Lines(ts) + d.rest) && d.data == WireData(ps)
    ensures forall p | p in ps :: IsChunk(p)
    ensures IsLine(last) && ParseSize(last.line) == Some(0) && IsTrailer(ts)
    decreases |s|
  {
    hide ReadLine, ParseSize, Trailers, IsLine, IsTrailer, Wire, WireData, Lines;
    WireNone();
    var p := LineOnly(s);
    var (line, k) := ReadLine(s).value;
    var (n, s1) := (ParseSize(line).value, s[k..]);
    if n == 0 {
      ps, last := [], p;
      ts := TrailersOnly(s1);
      Associates(p.raw, Lines(ts), Trailers(s1).value);
    } else {
      var more: seq<Piece>;
      more, last, ts := DecodeOnly(s1[n + 2..]);
      var q := Piece(p.raw, line, s1[..n]);
      ps := [q] + more;
      WireNext(q, more);
      IsLineOf(p, q);
      var end := last.raw + Lines(ts) + Decode(s, Unlimited).rest;
      assert s1 == s1[..n] + CRLF + s1[n + 2..] by { assert s1[n..n + 2] + s1[n + 2..] == s1[n..]; }
      Framed(p.raw, s1[..n], Wire(more), end);
    }
  }

  lemma WireNone()
    ensures Wire([]) == [] && WireData([]) == [] && forall s: seq<Byte> :: [] + s == s
  {
  }

  lemma WireNext(q: Piece, more: seq<Piece>)
    ensures Wire([q] + more) == q.raw + q.data + CRLF + Wire(more) && WireData([q] + more) == q.data + WireData(more)
  {
    assert ([q] + more)[1..] == more;
  }

  lemma IsLineOf(p: Piece, q: Piece)
    requires IsLine(p) && q.raw == p.raw && q.line == p.line
    ensures IsLine(q)
  {
  }

  lemma Framed(raw: seq<Byte>, data: seq<Byte>, more: seq<Byte>, end: seq<Byte>)
    ensures raw + (data + CRLF + (more + end)) == (raw + data + CRLF + more) + end
  {
  }

  // ---- streams that stop early ----------------------------------------------------

  lemma {:induction false} LineFeedMore(s: seq<Byte>, more: seq<Byte>)
    requires LineFeed(s).Some?
    ensures LineFeed(s + more) == LineFeed(s)
  {
    if s[0] != LF {
      assert (s + more)[1..] == s[1..] + more;
      LineFeedMore(s[1..], more);
    }
  }

  /** A line that was read is read whatever more arrives. */
  lemma ReadLineMore(s: seq<Byte>, more: seq<Byte>)
    requires ReadLine(s).Some?
    ensures ReadLine(s + more) == ReadLine(s)
    ensures (s + more)[ReadLine(s).value.1..] == s[ReadLine(s).value.1..] + more
  {
    LineFeedMore(s, more);
    var p := LineFeed(s).value;
    assert (s + more)[..p] == s[..p];
  }

  lemma {:induction false} TrailersMore(s: seq<Byte>, more: seq<Byte>)
    requires Trailers(s).Some?
    ensures Trailers(s + more) == Some(Trailers(s).value + more)
    decreases |s|
  {
    hide ReadLine;
    ReadLineMore(s, more);
    var l := ReadLine(s).value;
    if l.0 != [] { TrailersMore(s[l.1..], more); }
  }

  lemma SplitMore(s1: seq<Byte>, more: seq<Byte>, n: nat)
    requires n <= |s1|
    ensures (s1 + more)[..n] == s1[..n] && (s1 + more)[n..] == s1[n..] + more
    ensures n + 2 <= |s1| ==> (s1 + more)[n..n + 2] == s1[n..n + 2] && (s1 + more)[n + 2..] == s1[n + 2..] + more
  {}

  /** What was decoded from the part that arrived is what the whole stream decodes to. */
  lemma {:induction false} DecodeMore(s: seq<Byte>, more: seq<Byte>, room: Room)
    ensures Decode(s, room).Done? ==>
      Decode(s + more, room) == Done(Decode(s, room).data, Decode(s, room).rest + more)
    ensures Decode(s, room).Cut? ==> Decode(s + more, room) == Decode(s, room)
    decreases |s|
  {
    hide ReadLine, ParseSize, Trailers;
    var d := Decode(s, room);
    if d.Done? || d.Cut? {
      var l := ReadLine(s).value;
      ReadLineMore(s, more);
      var n := ParseSize(l.0).value;
      var s1 := s[l.1..];
      if n == 0 {
        TrailersMore(s1, more);
      } else if room.Upto? && n > room.n {
        SplitMore(s1, more, room.n);
      } else {
        SplitMore(s1, more, n);
        DecodeMore(s1[n + 2..], more, Less(room, n));
      }
    }
  }

  /** The stream stopped within the line end after a chunk: what is to come begins with it or its line feed. */
  predicate StoppedInLineEnd(s: seq<Byte>, more: seq<Byte>) {
    CRLF <= more || (s != [] && s[|s| - 1] == CR && [LF] <= more)
  }

  /** A stream that would have decoded, cut anywhere, fails as cut short; only one cut within the line end
      after a chunk fails as malformed. */
  lemma {:induction false} CutShort(s: seq<Byte>, more: seq<Byte>)
    requires Decode(s + more, Unlimited).Done?
    ensures var d := Decode(s, Unlimited);
      d.Done? || d == Fail(-11) || (d == Fail(-13) && StoppedInLineEnd(s, more))
    decreases |s|
  {
    hide ReadLine, ParseSize, Trailers;
    if ReadLine(s).Some? {
      var l := ReadLine(s).value;
      ReadLineMore(s, more);
      var n, s1 := ParseSize(l.0).value, s[l.1..];
      if n > 0 && |s1| >= n {
        var t := s1 + more;
        if |s1| >= n + 2 {
          SplitMore(s1, more, n);
          CutShort(s1[n + 2..], more);
          SameEnd(s, s1[n + 2..], more);
        } else {
          assert t[n..n + 2] == CRLF;
          EndOfChunk(s, l.1, n, more);
        }
      }
    }
  }

  lemma SameEnd(s: seq<Byte>, tail: seq<Byte>, more: seq<Byte>)
    requires |tail| <= |s| && tail == s[|s| - |tail|..]
    ensures StoppedInLineEnd(tail, more) ==> StoppedInLineEnd(s, more)
  {
  }

  lemma EndOfChunk(s: seq<Byte>, k: nat, n: nat, more: seq<Byte>)
    requires k + n <= |s| < k + n + 2 && n + 2 <= |s[k..] + more| && (s[k..] + more)[n..n + 2] == CRLF
    ensures StoppedInLineEnd(s, more)
  {
    var t := s[k..] + more;
    assert t[n..n + 2][0] == t[n] == CR && t[n..n + 2][1] == t[n + 1] == LF;
    if |s| == k + n {
      assert more[0] == t[n] && more[1] == t[n + 1];
    } else {
      assert s[|s| - 1] == s[k..][n] == t[n] && more[0] == t[n + 1];
    }
  }

  /** The data of all chunks in a stream that may stop anywhere. */
  function Partial(s: seq<Byte>): seq<Byte>
    decreases |s|
  {
    var l := ReadLine(s);
    if l.None? || ParseSize(l.value.0).None? then []
    else
      var n, s1 := ParseSize(l.value.0).value, s[l.value.1..];
      if |s1| < n then s1
      else if |s1| < n + 2 || s1[n..n + 2] != CRLF || n == 0 then s1[..n]
      else s1[..n] + Partial(s1[n + 2..])
  }

  /** It is a front part of the body that the whole stream decodes to. */
  lemma {:induction false} PartialPrefix(s: seq<Byte>, more: seq<Byte>)
    requires Decode(s + more, Unlimited).Done?
    ensures Partial(s) <= Decode(s + more, Unlimited).data
    decreases |s|
  {
    hide ReadLine, ParseSize, Trailers;
    if ReadLine(s).Some? {
      var l := ReadLine(s).value;
      ReadLineMore(s, more);
      var n, s1 := ParseSize(l.0).value, s[l.1..];
      if n > 0 {
        var t := (s1 + more)[n + 2..];
        assert Decode(s + more, Unlimited).data == (s1 + more)[..n] + Decode(t, Unlimited).data;
        if |s1| >= n { assert (s1 + more)[..n] == s1[..n]; }
        if |s1| >= n + 2 {
          assert (s1 + more)[n..n + 2] == s1[n..n + 2];
          assert t == s1[n + 2..] + more;
          PartialPrefix(s1[n + 2..], more);
        }
      }
    }
  }
}

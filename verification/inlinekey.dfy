/**
 Keys given inline as a data: URI, hls_crypt.c: the base64 decoder with its bit
 accumulator, against the groups of four characters of section 4 of RFC 4648.
 */
module InlineKey {
  import opened Crypt

  datatype Option<+T> = None | Some(value: T)

  /** Six bits and eight bits, in the fourteen that the accumulator keeps. */
  type Six = v: bv14 | v < 64
  type Octet = v: bv14 | v < 256

  // ---- the alphabet ---------------------------------------------------------

  /** `b64val`: the standard and the URL alphabet at once; -1 for anything else. */
  function Value(c: char): (v: int)
    ensures -1 <= v < 64
  {
    if 'A' <= c <= 'Z' then c as int - 'A' as int
    else if 'a' <= c <= 'z' then c as int - 'a' as int + 26
    else if '0' <= c <= '9' then c as int - '0' as int + 52
    else if c == '+' || c == '-' then 62
    else if c == '/' || c == '_' then 63
    else -1
  }

  function Letter(v: int, url: bool): (c: char)
    requires 0 <= v < 64
  {
    if v < 26 then ('A' as int + v) as char
    else if v < 52 then ('a' as int + v - 26) as char
    else if v < 62 then ('0' as int + v - 52) as char
    else if v == 62 then if url then '-' else '+'
    else if url then '_' else '/'
  }

  lemma LetterValue(v: int, url: bool)
    requires 0 <= v < 64
    ensures Value(Letter(v, url)) == v && Letter(v, url) != '='
  {}

  /** The two alphabets: A to Z, a to z, 0 to 9 in a row, then two signs. */
  lemma Alphabets(v: int, url: bool)
    requires 0 <= v < 61 && v != 25 && v != 51
    ensures Value('A') == 0 && Value('Z') == 25 && Value('a') == 26 && Value('z') == 51
    ensures Value('0') == 52 && Value('9') == 61
    ensures Value('+') == Value('-') == 62 && Value('/') == Value('_') == 63
    ensures Letter(v + 1, url) as int == Letter(v, url) as int + 1
  {}

  function ToSix(v: int): Six
    requires 0 <= v < 64
  {
    SmallBits(v);
    v as bv14
  }

  function FromSix(v: Six): (r: int)
    ensures 0 <= r < 64
  {
    v as int
  }

  lemma SmallBits(v: int)
    requires 0 <= v < 64
    ensures v as bv14 < 64
  {}

  lemma SixBack(v: Six)
    ensures ToSix(FromSix(v)) == v
  {}

  /** The decoder reads up to the padding sign. */
  function Text(s: string): string {
    if s == [] || s[0] == '=' then [] else [s[0]] + Text(s[1..])
  }

  predicate Valid(s: string) {
    forall i | 0 <= i < |s| :: Value(s[i]) >= 0
  }

  function Values(s: string): (v: seq<Six>)
    requires Valid(s)
    ensures |v| == |s|
  {
    seq<Six>(|s|, i requires 0 <= i < |s| => ToSix(Value(s[i])))
  }

  function Spelled(v: seq<Six>, url: bool): (s: string)
    ensures |s| == |v|
  {
    seq<char>(|v|, i requires 0 <= i < |v| => Letter(FromSix(v[i]), url))
  }

  lemma SpelledValues(v: seq<Six>, url: bool, tail: string)
    requires tail == [] || tail[0] == '='
    ensures var s := Spelled(v, url); Valid(s) && Values(s) == v && Text(s + tail) == s
  {
    var s := Spelled(v, url);
    forall i | 0 <= i < |v|
      ensures Value(s[i]) == FromSix(v[i]) && s[i] != '=' && ToSix(Value(s[i])) == v[i]
    {
      LetterValue(FromSix(v[i]), url);
      SixBack(v[i]);
    }
    hide ToSix, FromSix;
    TextStops(s, tail);
  }

  lemma {:induction false} TextStops(s: string, tail: string)
    requires forall i | 0 <= i < |s| :: s[i] != '='
    requires tail == [] || tail[0] == '='
    ensures Text(s + tail) == s
  {
    if s == [] {
      assert s + tail == tail;
    } else {
      assert (s + tail)[1..] == s[1..] + tail;
      TextStops(s[1..], tail);
    }
  }

  // ---- groups of four ---------------------------------------------------------

  /** Four characters are three bytes; a rest of two or three characters is one or two. */
  function Bytes(v: seq<Six>): (r: seq<Octet>)
    ensures |r| == |v| * 6 / 8
  {
    if |v| < 2 then []
    else if |v| == 2 then [First(v[0], v[1])]
    else if |v| == 3 then [First(v[0], v[1]), Second(v[1], v[2])]
    else [First(v[0], v[1]), Second(v[1], v[2]), Third(v[2], v[3])] + Bytes(v[4..])
  }

  function First(a: Six, b: Six): Octet { (a << 2) | (b >> 4) }
  function Second(a: Six, b: Six): Octet { ((a & 15) << 4) | (b >> 2) }
  function Third(a: Six, b: Six): Octet { ((a & 3) << 6) | b }

  /** The groups of six bits of section 4 of RFC 4648. */
  function Sixes(b: seq<Octet>): (v: seq<Six>)
    ensures |v| == (|b| * 4 + 2) / 3
  {
    if |b| == 0 then []
    else if |b| == 1 then [Six0(b[0]), Six1(b[0], 0)]
    else if |b| == 2 then [Six0(b[0]), Six1(b[0], b[1]), Six2(b[1], 0)]
    else [Six0(b[0]), Six1(b[0], b[1]), Six2(b[1], b[2]), Six3(b[2])] + Sixes(b[3..])
  }

  function Six0(a: Octet): Six { a >> 2 }
  function Six1(a: Octet, b: Octet): Six { ((a & 3) << 4) | (b >> 4) }
  function Six2(b: Octet, c: Octet): Six { ((b & 15) << 2) | (c >> 6) }
  function Six3(c: Octet): Six { c & 63 }

  /** Decoding what was encoded gives the bytes back. */
  lemma {:induction false} BytesOfSixes(b: seq<Octet>)
    ensures Bytes(Sixes(b)) == b
  {
    hide First, Second, Third, Six0, Six1, Six2, Six3;
    if |b| == 1 {
      GroupBack(b[0], 0, 0);
    } else if |b| == 2 {
      GroupBack(b[0], b[1], 0);
    } else if |b| >= 3 {
      BytesOfSixes(b[3..]);
      GroupBack(b[0], b[1], b[2]);
      assert Sixes(b)[4..] == Sixes(b[3..]);
    }
  }

  lemma GroupBack(a: Octet, b: Octet, c: Octet)
    ensures First(Six0(a), Six1(a, b)) == a
    ensures Second(Six1(a, b), Six2(b, c)) == b
    ensures Third(Six2(b, c), Six3(c)) == c
  {}

  /** Four characters are the three bytes, most significant first. */
  lemma GroupIsNumber(a: Six, b: Six, c: Six, d: Six)
    ensures (Wide(First(a, b)) << 16) | (Wide(Second(b, c)) << 8) | Wide(Third(c, d))
      == (Wide(a) << 18) | (Wide(b) << 12) | (Wide(c) << 6) | Wide(d)
  {}

  function Wide(v: bv14): bv24 { v as bv24 }

  // ---- one character at a time ---------------------------------------------------

  /** The byte the last character completes, if it completes one. */
  function Completed(v: seq<Six>): (r: seq<Octet>)
    requires v != []
  {
    var n := |v|;
    if n % 4 == 1 then []
    else if n % 4 == 2 then [First(v[n - 2], v[n - 1])]
    else if n % 4 == 3 then [Second(v[n - 2], v[n - 1])]
    else [Third(v[n - 2], v[n - 1])]
  }

  lemma {:induction false} BytesGrow(v: seq<Six>, x: Six)
    ensures Bytes(v + [x]) == Bytes(v) + Completed(v + [x])
  {
    hide First, Second, Third;
    if |v| >= 4 {
      BytesGrow(v[4..], x);
      assert (v + [x])[4..] == v[4..] + [x];
      GroupGrow(v, x);
    }
  }

  lemma GroupGrow(v: seq<Six>, x: Six)
    requires |v| >= 4
    ensures Completed(v[4..] + [x]) == Completed(v + [x])
  {
    hide First, Second, Third;
  }

  /** How many bits wait for the next character after n of them. */
  function Waiting(n: nat): (bits: nat)
    ensures bits <= 6
  {
    if n % 4 == 1 then 6 else if n % 4 == 2 then 4 else if n % 4 == 3 then 2 else 0
  }

  function Low(acc: bv14, bits: nat): bv14 {
    if bits == 6 then acc & 63 else if bits == 4 then acc & 15 else if bits == 2 then acc & 3 else 0
  }

  /** The low bits of the accumulator that matter: the last ones of the last character. */
  predicate Holds(acc: bv14, v: seq<Six>) {
    v == [] || Low(acc, Waiting(|v|)) == Low(v[|v| - 1], Waiting(|v|))
  }

  function Shift(acc: bv14, x: Six): bv14 { (acc << 6) | x }

  /** The byte that a shift by `bits` takes out. */
  function Top(acc: bv14, bits: nat): Octet
    requires bits <= 14
  {
    (acc >> bits) & 255
  }

  /** `acc` after one more character, and the byte its shift gives. */
  lemma Shifted(v: seq<Six>, x: Six, acc: bv14)
    requires Holds(acc, v)
    ensures var a := Shift(acc, x);
      var bits := Waiting(|v|) + 6;
      && Waiting(|v| + 1) == (if bits >= 8 then bits - 8 else bits)
      && Completed(v + [x]) == (if bits >= 8 then [Top(a, bits - 8)] else [])
      && Holds(a, v + [x])
  {
    hide Low, Shift, Top, First, Second, Third;
    var n := |v|;
    var vx := v + [x];
    NextLow(acc, x, Waiting(n + 1));
    assert vx[n] == x;
    if n % 4 != 0 {
      var w := v[n - 1];
      assert vx[n - 1] == w;
      if n % 4 == 1 {
        ShiftFirst(acc, w, x);
      } else if n % 4 == 2 {
        ShiftSecond(acc, w, x);
      } else {
        ShiftThird(acc, w, x);
      }
    }
  }

  lemma NextLow(acc: bv14, x: Six, bits: nat)
    ensures Low(Shift(acc, x), bits) == Low(x, bits)
  {}

  lemma ShiftFirst(acc: bv14, w: Six, x: Six)
    requires Low(acc, 6) == Low(w, 6)
    ensures Top(Shift(acc, x), 4) == First(w, x)
  {}

  lemma ShiftSecond(acc: bv14, w: Six, x: Six)
    requires Low(acc, 4) == Low(w, 4)
    ensures Top(Shift(acc, x), 2) == Second(w, x)
  {}

  lemma ShiftThird(acc: bv14, w: Six, x: Six)
    requires Low(acc, 2) == Low(w, 2)
    ensures Top(Shift(acc, x), 0) == Third(w, x)
  {}

  lemma TextStep(s: string, i: nat)
    requires i < |s| && s[i] != '='
    ensures s[..i] + Text(s[i..]) == s[..i + 1] + Text(s[i + 1..])
  {
    var rest := Text(s[i + 1..]);
    assert s[i..][1..] == s[i + 1..];
    assert s[..i] + ([s[i]] + rest) == (s[..i] + [s[i]]) + rest;
    assert s[..i] + [s[i]] == s[..i + 1];
  }

  lemma ValuesStep(s: string, i: nat)
    requires i < |s| && Valid(s[..i]) && Value(s[i]) >= 0
    ensures Valid(s[..i + 1]) && Values(s[..i + 1]) == Values(s[..i]) + [ToSix(Value(s[i]))]
  {
    assert forall j | 0 <= j < i :: s[..i + 1][j] == s[..i][j];
  }

  /** What the decoder makes of the text after the marker; 18 bytes fit its buffer. */
  function Decoded(s: string): (r: Option<seq<Octet>>) {
    var t := Text(s);
    if Valid(t) && |Bytes(Values(t))| <= 18 then Some(Bytes(Values(t))) else None
  }

  /** The decoding loop of `hls_key_from_data_uri`. */
  method DecodeText(s: string) returns (out: Option<seq<Octet>>)
    ensures out == Decoded(s)
  {
    hide Value, ToSix, Bytes, Completed, Waiting, Holds, Shift, Top, Values, Text;
    var r: seq<Octet>, acc: bv14, bits: nat, i := [], 0, 0, 0;
    Started(s);
    while i < |s| && s[i] != '='
      invariant 0 <= i <= |s|
      invariant Text(s) == s[..i] + Text(s[i..])
      invariant Valid(s[..i]) && r == Bytes(Values(s[..i])) && |r| <= 18
      invariant bits == Waiting(i) && Holds(acc, Values(s[..i]))
    {
      TextStep(s, i);
      var v := Value(s[i]);
      if v < 0 {
        assert Text(s)[i] == s[i];
        return None;
      }
      ValuesStep(s, i);
      BytesGrow(Values(s[..i]), ToSix(v));
      Shifted(Values(s[..i]), ToSix(v), acc);
      acc, bits := Shift(acc, ToSix(v)), bits + 6;
      if bits >= 8 {
        bits := bits - 8;
        if |r| >= 18 {
          assert |Text(s)| >= i + 1 && |Bytes(Values(s[..i + 1]))| > 18;
          return None;
        }
        r := r + [Top(acc, bits)];
      }
      i := i + 1;
    }
    TextEnd(s, i);
    return Some(r);
  }

  lemma Started(s: string)
    ensures Valid(s[..0]) && Bytes(Values(s[..0])) == [] && Waiting(0) == 0 && Holds(0, Values(s[..0]))
    ensures Text(s) == s[..0] + Text(s[0..])
  {
    assert s[0..] == s;
  }

  lemma TextEnd(s: string, i: nat)
    requires i <= |s| && (i == |s| || s[i] == '=') && Text(s) == s[..i] + Text(s[i..])
    ensures Text(s) == s[..i]
  {}

  // ---- the whole URI ------------------------------------------------------------

  predicate At(s: string, i: nat, t: string) {
    i + |t| <= |s| && s[i..i + |t|] == t
  }

  const MARK := ";base64,"

  /** The first place of the marker at or after i, or the length of the URI. */
  function MarkFrom(uri: string, i: nat): (r: nat)
    requires i <= |uri|
    ensures i <= r <= |uri| && (r < |uri| <==> At(uri, r, MARK))
    ensures forall j: nat | i <= j < r :: !At(uri, j, MARK)
    decreases |uri| - i
  {
    if i == |uri| || At(uri, i, MARK) then i else MarkFrom(uri, i + 1)
  }

  datatype KeyResult = Key(key: seq<Byte>) | NotData | BadData

  /** The key is what the text after the first marker decodes to, if that is 16 bytes. */
  function InlineKeyOf(uri: string): (r: KeyResult)
    ensures r.Key? ==> |r.key| == 16
  {
    if !At(uri, 0, "data:") then NotData
    else
      var i := MarkFrom(uri, 0);
      if i == |uri| then BadData else KeyOfText(uri[i + 8..])
  }

  function KeyOfText(s: string): (r: KeyResult)
    ensures r.Key? ==> |r.key| == 16
  {
    var d := Decoded(s);
    if d.Some? && |d.value| == 16 then Key(Ints(d.value)) else BadData
  }

  function Ints(o: seq<Octet>): (r: seq<Byte>)
    ensures |r| == |o|
  {
    seq<Byte>(|o|, i requires 0 <= i < |o| => ToByte(o[i]))
  }

  function ToByte(o: Octet): Byte {
    o as int
  }

  /** `hls_key_from_data_uri` */
  method KeyFromDataUri(uri: string) returns (r: KeyResult)
    ensures r == InlineKeyOf(uri)
  {
    hide Decoded;
    if !(|uri| >= 5 && uri[0..5] == "data:") { return NotData; }
    var i := 0;
    while i + 8 <= |uri| && uri[i..i + 8] != MARK
      invariant 0 <= i <= |uri|
      invariant forall j: nat | j < i :: !At(uri, j, MARK)
    {
      i := i + 1;
    }
    if i + 8 > |uri| {
      assert MarkFrom(uri, 0) == |uri|;
      return BadData;
    }
    assert At(uri, i, MARK);
    assert MarkFrom(uri, 0) == i;
    var d := DecodeText(uri[i + 8..]);
    return if d.Some? && |d.value| == 16 then Key(Ints(d.value)) else BadData;
  }

  /** A key is accepted exactly when 22 characters of the two alphabets stand before the padding. */
  lemma KeyNeeds22(s: string)
    ensures KeyOfText(s).Key? <==> Valid(Text(s)) && |Text(s)| == 22
  {}

  /** Every 16-byte key written in base64, in either alphabet, padded or not, is read back. */
  lemma InlineRoundTrip(uri: string, i: nat, key: seq<Octet>, url: bool, tail: string)
    requires |key| == 16 && (tail == [] || tail[0] == '=')
    requires At(uri, 0, "data:") && At(uri, i, MARK) && forall j: nat | j < i :: !At(uri, j, MARK)
    requires uri[i + 8..] == Spelled(Sixes(key), url) + tail
    ensures InlineKeyOf(uri) == Key(Ints(key))
  {
    hide Bytes, Sixes, Text, Valid, Values, Spelled;
    BytesOfSixes(key);
    SpelledValues(Sixes(key), url, tail);
    var m := MarkFrom(uri, 0);
    assert At(uri, m, MARK) && m == i;
  }
}

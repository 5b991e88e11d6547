/** The application/x-www-form-urlencoded serializer of the WHATWG URL
    Standard (section 5.2), which `URLSearchParams` applies when it is turned
    into a query string, and the matching decoder that reads such a query
    back. Characters are Unicode scalar values; each is written as UTF-8,
    byte by byte, as `%XY` with upper-case hex digits, except the characters
    left as they are and the space, which becomes `+`. */
module FormEncoding {
  import opened Wrappers

  type Byte = b: int | 0 <= b < 256

  /** ASCII alphanumerics and `*`, `-`, `.`, `_`: written unchanged. */
  predicate Unreserved(c: char) {
    || ('A' <= c <= 'Z') || ('a' <= c <= 'z') || ('0' <= c <= '9')
    || c == '*' || c == '-' || c == '.' || c == '_'
  }

  /** The UTF-8 encoding of one scalar value. */
  function Utf8(c: char): (bs: seq<Byte>)
    ensures 1 <= |bs| <= 4
  {
    var n := c as int;
    if n < 0x80 then [n]
    else if n < 0x800 then [0xC0 + n / 64, 0x80 + n % 64]
    else if n < 0x1_0000 then [0xE0 + n / 4096, 0x80 + (n / 64) % 64, 0x80 + n % 64]
    else [0xF0 + n / 262144, 0x80 + (n / 4096) % 64, 0x80 + (n / 64) % 64, 0x80 + n % 64]
  }

  function HexDigit(d: int): (c: char)
    requires 0 <= d < 16
    ensures Unreserved(c)
  {
    if d < 10 then ('0' as int + d) as char else ('A' as int + d - 10) as char
  }

  /** The value of a hex digit of either case. */
  function HexValue(c: char): (r: Option<int>)
    ensures r.Some? ==> 0 <= r.value < 16
  {
    if '0' <= c <= '9' then Some(c as int - '0' as int)
    else if 'A' <= c <= 'F' then Some(c as int - 'A' as int + 10)
    else if 'a' <= c <= 'f' then Some(c as int - 'a' as int + 10)
    else None
  }

  /** `%XY` for one byte. */
  function Percent(b: Byte): string {
    ['%', HexDigit(b / 16), HexDigit(b % 16)]
  }

  function PercentAll(bs: seq<Byte>): (t: string)
    ensures |t| == 3 * |bs|
    decreases |bs|
  {
    if bs == [] then [] else Percent(bs[0]) + PercentAll(bs[1..])
  }

  function EncodeChar(c: char): string {
    if Unreserved(c) then [c]
    else if c == ' ' then ['+']
    else PercentAll(Utf8(c))
  }

  /** The serializer applied to one name or value. No character is dropped
      and none grows beyond four escaped bytes. */
  function Encode(s: string): (t: string)
    ensures |s| <= |t| <= 12 * |s|
    decreases |s|
  {
    if s == [] then [] else EncodeChar(s[0]) + Encode(s[1..])
  }

  /** `name=value` pairs joined by `&`, as `URLSearchParams` prints them. */
  function Serialize(pairs: seq<(string, string)>): string
    decreases |pairs|
  {
    if pairs == [] then []
    else
      var first := Encode(pairs[0].0) + "=" + Encode(pairs[0].1);
      if |pairs| == 1 then first else first + "&" + Serialize(pairs[1..])
  }

  /** The byte a `%XY` triplet at position `i` spells, if there is one. */
  function ByteAt(t: string, i: nat): (r: Option<Byte>)
    ensures r.Some? ==> i + 3 <= |t|
  {
    if i + 3 <= |t| && t[i] == '%' && HexValue(t[i + 1]).Some? && HexValue(t[i + 2]).Some?
    then Some(HexValue(t[i + 1]).value * 16 + HexValue(t[i + 2]).value)
    else None
  }

  /** The six payload bits of a continuation byte at triplet `i`. */
  function Continuation(t: string, i: nat): (r: Option<int>)
    ensures r.Some? ==> i + 3 <= |t| && 0 <= r.value < 64
  {
    match ByteAt(t, i)
    case Some(b) => if 0x80 <= b < 0xC0 then Some(b - 0x80) else None
    case None => None
  }

  function ScalarOf(n: int): Option<char> {
    if 0 <= n < 0xD800 || 0xE000 <= n < 0x11_0000 then Some(n as char) else None
  }

  function Pack(c: Option<char>, used: nat): Option<(char, nat)> {
    if c.Some? then Some((c.value, used)) else None
  }

  /** The character a run of escapes at the start of `t` spells, with the
      number of characters the run takes. */
  function DecodeEscape(t: string): (r: Option<(char, nat)>)
    ensures r.Some? ==> 3 <= r.value.1 <= |t|
  {
    match ByteAt(t, 0)
    case None => None
    case Some(b0) =>
      var c1 := Continuation(t, 3);
      var c2 := Continuation(t, 6);
      var c3 := Continuation(t, 9);
      if b0 < 0x80 then Pack(ScalarOf(b0), 3)
      else if b0 < 0xC0 then None
      else if b0 < 0xE0 then
        if c1.None? then None
        else Pack(ScalarOf((b0 - 0xC0) * 64 + c1.value), 6)
      else if b0 < 0xF0 then
        if c1.None? || c2.None? then None
        else Pack(ScalarOf(((b0 - 0xE0) * 64 + c1.value) * 64 + c2.value), 9)
      else if b0 < 0xF8 then
        if c1.None? || c2.None? || c3.None? then None
        else Pack(ScalarOf((((b0 - 0xF0) * 64 + c1.value) * 64 + c2.value) * 64 + c3.value), 12)
      else None
  }

  function Prepend(c: char, r: Option<string>): Option<string> {
    if r.Some? then Some([c] + r.value) else None
  }

  /** Reads a serialized name or value back: `+` is a space, escapes are
      UTF-8 bytes, anything else stands for itself. A malformed escape, which
      the serializer never writes, gives None. */
  function Decode(t: string): Option<string>
    decreases |t|
  {
    if t == [] then Some([])
    else if t[0] == '+' then Prepend(' ', Decode(t[1..]))
    else if t[0] == '%' then
      match DecodeEscape(t)
      case None => None
      case Some((c, used)) => Prepend(c, Decode(t[used..]))
    else Prepend(t[0], Decode(t[1..]))
  }

  lemma HexRoundTrip(b: Byte)
    ensures HexValue(HexDigit(b / 16)) == Some(b / 16)
    ensures HexValue(HexDigit(b % 16)) == Some(b % 16)
  {
  }

  /** Triplet `k` of the escapes of `bs` spells `bs[k]`. */
  lemma {:induction false} PercentAllAt(bs: seq<Byte>, rest: string, k: nat)
    requires k < |bs|
    ensures ByteAt(PercentAll(bs) + rest, 3 * k) == Some(bs[k])
    decreases |bs|
  {
    var t := PercentAll(bs) + rest;
    if k == 0 {
      assert t[..3] == Percent(bs[0]);
      HexRoundTrip(bs[0]);
    } else {
      PercentAllAt(bs[1..], rest, k - 1);
      assert t[3..] == PercentAll(bs[1..]) + rest;
    }
  }

  /** Splitting off six bits and putting them back gives the number back. */
  lemma SixBits(n: nat)
    ensures (n / 64) * 64 + n % 64 == n
    ensures n / 64 / 64 == n / 4096 && n / 4096 / 64 == n / 262144
  {
  }

  lemma Utf8Bits(n: nat)
    ensures ((n / 4096) * 64 + (n / 64) % 64) * 64 + n % 64 == n
    ensures (((n / 262144) * 64 + (n / 4096) % 64) * 64 + (n / 64) % 64) * 64 + n % 64 == n
  {
    SixBits(n);
    SixBits(n / 64);
    SixBits(n / 4096);
  }

  lemma EscapeOfTwoBytes(c: char, rest: string)
    requires 0x80 <= c as int < 0x800
    ensures DecodeEscape(PercentAll(Utf8(c)) + rest) == Some((c, 6))
  {
    var n := c as int;
    var bs := Utf8(c);
    var t := PercentAll(bs) + rest;
    PercentAllAt(bs, rest, 0);
    PercentAllAt(bs, rest, 1);
    assert Continuation(t, 3) == Some(n % 64);
    SixBits(n);
  }

  lemma EscapeOfThreeBytes(c: char, rest: string)
    requires 0x800 <= c as int < 0x1_0000
    ensures DecodeEscape(PercentAll(Utf8(c)) + rest) == Some((c, 9))
  {
    var n := c as int;
    var bs := Utf8(c);
    var t := PercentAll(bs) + rest;
    PercentAllAt(bs, rest, 0);
    PercentAllAt(bs, rest, 1);
    PercentAllAt(bs, rest, 2);
    assert Continuation(t, 3) == Some((n / 64) % 64);
    assert Continuation(t, 6) == Some(n % 64);
    Utf8Bits(n);
  }

  lemma EscapeOfFourBytes(c: char, rest: string)
    requires 0x1_0000 <= c as int
    ensures DecodeEscape(PercentAll(Utf8(c)) + rest) == Some((c, 12))
  {
    var n := c as int;
    var bs := Utf8(c);
    var t := PercentAll(bs) + rest;
    PercentAllAt(bs, rest, 0);
    PercentAllAt(bs, rest, 1);
    PercentAllAt(bs, rest, 2);
    PercentAllAt(bs, rest, 3);
    assert Continuation(t, 3) == Some((n / 4096) % 64);
    assert Continuation(t, 6) == Some((n / 64) % 64);
    assert Continuation(t, 9) == Some(n % 64);
    Utf8Bits(n);
  }

  /** Reading back the escapes of one character's UTF-8 bytes. */
  lemma EscapeOfChar(c: char, rest: string)
    ensures DecodeEscape(PercentAll(Utf8(c)) + rest) == Some((c, 3 * |Utf8(c)|))
  {
    if c as int < 0x80 {
      PercentAllAt(Utf8(c), rest, 0);
    } else if c as int < 0x800 {
      EscapeOfTwoBytes(c, rest);
    } else if c as int < 0x1_0000 {
      EscapeOfThreeBytes(c, rest);
    } else {
      EscapeOfFourBytes(c, rest);
    }
  }

  /** Reading back one encoded character. */
  lemma DecodeEncodedChar(c: char, rest: string)
    ensures Decode(EncodeChar(c) + rest) == Prepend(c, Decode(rest))
  {
    var t := EncodeChar(c) + rest;
    if Unreserved(c) {
      assert t[1..] == rest;
    } else if c == ' ' {
      assert t[1..] == rest;
    } else {
      EscapeOfChar(c, rest);
      assert t[3 * |Utf8(c)|..] == rest;
    }
  }

  /** Decoding undoes encoding. */
  lemma {:induction false} DecodeEncode(s: string)
    ensures Decode(Encode(s)) == Some(s)
    decreases |s|
  {
    if s != [] {
      DecodeEncode(s[1..]);
      DecodeEncodedChar(s[0], Encode(s[1..]));
      assert [s[0]] + s[1..] == s;
    }
  }

  /** Encoding is one-to-one: different texts never serialize alike. */
  lemma EncodeInjective(a: string, b: string)
    requires Encode(a) == Encode(b)
    ensures a == b
  {
    DecodeEncode(a);
    DecodeEncode(b);
  }

  /** The serialized text holds only unreserved characters, `+` and `%`; in
      particular no `&`, `=`, `#` or space, so it stays one query value. */
  lemma {:induction false} EncodeAlphabet(s: string)
    ensures forall i | 0 <= i < |Encode(s)| :: Unreserved(Encode(s)[i]) || Encode(s)[i] in "+%"
    decreases |s|
  {
    if s != [] {
      EncodeAlphabet(s[1..]);
      var head := EncodeChar(s[0]);
      if !Unreserved(s[0]) && s[0] != ' ' {
        PercentAllAlphabet(Utf8(s[0]));
      }
      var t := Encode(s);
      forall i | 0 <= i < |t| ensures Unreserved(t[i]) || t[i] in "+%" {
        if i >= |head| {
          assert t[i] == Encode(s[1..])[i - |head|];
        }
      }
    }
  }

  lemma {:induction false} PercentAllAlphabet(bs: seq<Byte>)
    ensures forall i | 0 <= i < |PercentAll(bs)| :: Unreserved(PercentAll(bs)[i]) || PercentAll(bs)[i] == '%'
    decreases |bs|
  {
    if bs != [] {
      PercentAllAlphabet(bs[1..]);
      var t := PercentAll(bs);
      forall i | 0 <= i < |t| ensures Unreserved(t[i]) || t[i] == '%' {
        if i >= 3 {
          assert t[i] == PercentAll(bs[1..])[i - 3];
        }
      }
    }
  }

  /** The characters that end a value in a query string. */
  predicate QuerySeparator(c: char) {
    c == '&' || c == '=' || c == '#'
  }

  /** An encoded value never holds a separator, so it stays one value. */
  lemma EncodeAvoidsSeparators(s: string)
    ensures forall i | 0 <= i < |Encode(s)| :: !QuerySeparator(Encode(s)[i])
  {
    EncodeAlphabet(s);
  }

  /** Text made only of unreserved characters is written unchanged. */
  lemma {:induction false} EncodeUnreserved(s: string)
    requires forall i | 0 <= i < |s| :: Unreserved(s[i])
    ensures Encode(s) == s
    decreases |s|
  {
    if s != [] {
      EncodeUnreserved(s[1..]);
      assert [s[0]] + s[1..] == s;
    }
  }

  /** A single pair prints as `name=value`. */
  lemma SerializeOnePair(name: string, value: string)
    ensures Serialize([(name, value)]) == Encode(name) + "=" + Encode(value)
  {
  }
}

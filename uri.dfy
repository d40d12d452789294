/**
 * `encodeURIComponent` and `decodeURIComponent` (section 19.2.6 of
 * ECMA-262, the Encode and Decode operations with the empty reserved set),
 * over strings of Unicode scalar values: every character outside the
 * unreserved set is written as the `%XX` escapes of its UTF-8 bytes, and
 * decoding reads them back, failing (a URIError) on a malformed escape or
 * an invalid UTF-8 sequence.
 */
module Uri {
  import opened Strings

  type Byte = b: nat | b < 256

  /** The characters `encodeURIComponent` leaves as they are. */
  predicate IsUnreserved(c: char)
  {
    || ('A' <= c <= 'Z') || ('a' <= c <= 'z') || ('0' <= c <= '9')
    || c == '-' || c == '_' || c == '.' || c == '!' || c == '~'
    || c == '*' || c == '\'' || c == '(' || c == ')'
  }

  /** An upper-case hexadecimal digit. */
  function HexDigit(d: nat): char
    requires d < 16
  {
    if d < 10 then ('0' as int + d) as char else ('A' as int + d - 10) as char
  }

  /** The value of a hexadecimal digit in either case. */
  function HexValue(c: char): (r: Option<nat>)
    ensures r.Some? ==> r.value < 16
  {
    if '0' <= c <= '9' then Some(c as int - '0' as int)
    else if 'A' <= c <= 'F' then Some(c as int - 'A' as int + 10)
    else if 'a' <= c <= 'f' then Some(c as int - 'a' as int + 10)
    else None
  }

  lemma HexRoundTrip(d: nat)
    requires d < 16
    ensures HexValue(HexDigit(d)) == Some(d)
  {
  }

  /** `%XX` for one byte. */
  function Escape(b: Byte): string
  {
    ['%', HexDigit(b / 16), HexDigit(b % 16)]
  }

  function EscapeBytes(bs: seq<Byte>): (s: string)
    ensures |s| == 3 * |bs|
  {
    if bs == [] then [] else Escape(bs[0]) + EscapeBytes(bs[1..])
  }

  /** The UTF-8 encoding of a Unicode scalar value. */
  function Utf8(c: char): (bs: seq<Byte>)
    ensures 1 <= |bs| <= 4
  {
    var cp := c as int;
    if cp < 0x80 then [cp]
    else if cp < 0x800 then [0xC0 + cp / 64, 0x80 + cp % 64]
    else if cp < 0x10000 then [0xE0 + cp / 4096, 0x80 + (cp / 64) % 64, 0x80 + cp % 64]
    else [0xF0 + cp / 262144, 0x80 + (cp / 4096) % 64, 0x80 + (cp / 64) % 64, 0x80 + cp % 64]
  }

  function EncodeChar(c: char): string
  {
    if IsUnreserved(c) then [c] else EscapeBytes(Utf8(c))
  }

  /** `encodeURIComponent`. */
  function Encode(s: string): string
  {
    if s == [] then [] else EncodeChar(s[0]) + Encode(s[1..])
  }

  // ---------------------------------------------------------------------------
  // Decoding
  // ---------------------------------------------------------------------------

  /** The byte of a `%XX` escape starting at `k`, if there is one. */
  function EscapedByte(s: string, k: nat): (r: Option<Byte>)
  {
    if k + 3 <= |s| && s[k] == '%' && HexValue(s[k + 1]).Some? && HexValue(s[k + 2]).Some? then
      Some(HexValue(s[k + 1]).value * 16 + HexValue(s[k + 2]).value)
    else None
  }

  /** The low six bits of a continuation byte escaped at `k`, if it is one. */
  function Continuation(s: string, k: nat): (r: Option<nat>)
    ensures r.Some? ==> r.value < 64
  {
    match EscapedByte(s, k)
    case Some(b) => if 0x80 <= b < 0xC0 then Some(b - 0x80) else None
    case None => None
  }

  /** A Unicode scalar value: not a surrogate, at most 0x10FFFF. */
  predicate IsScalar(cp: int)
  {
    0 <= cp < 0xD800 || 0xE000 <= cp <= 0x10FFFF
  }

  /**
   * The character a run of escapes starting with `%` encodes, and how many
   * characters of `s` the run takes; None for a URIError: a malformed
   * escape, a byte that cannot start a sequence, a missing continuation
   * byte, an overlong encoding, a surrogate or a value above 0x10FFFF.
   */
  function DecodeSequence(s: string): (r: Option<(char, nat)>)
    ensures r.Some? ==> 3 <= r.value.1 <= |s|
  {
    match EscapedByte(s, 0)
    case None => None
    case Some(b0) =>
      if b0 < 0x80 then Some((b0 as char, 3))
      else if 0xC0 <= b0 < 0xE0 then
        match Continuation(s, 3)
        case None => None
        case Some(c1) =>
          var cp := (b0 - 0xC0) * 64 + c1;
          if cp < 0x80 then None else Some((cp as char, 6))
      else if 0xE0 <= b0 < 0xF0 then
        match (Continuation(s, 3), Continuation(s, 6))
        case (Some(c1), Some(c2)) =>
          var cp := (b0 - 0xE0) * 4096 + c1 * 64 + c2;
          if cp < 0x800 || !IsScalar(cp) then None else Some((cp as char, 9))
        case _ => None
      else if 0xF0 <= b0 < 0xF8 then
        match (Continuation(s, 3), Continuation(s, 6), Continuation(s, 9))
        case (Some(c1), Some(c2), Some(c3)) =>
          var cp := (b0 - 0xF0) * 262144 + c1 * 4096 + c2 * 64 + c3;
          if cp < 0x10000 || !IsScalar(cp) then None else Some((cp as char, 12))
        case _ => None
      else None
  }

  /** `decodeURIComponent`: None where it throws a URIError. */
  function Decode(s: string): Option<string>
    decreases |s|
  {
    if s == [] then Some([])
    else if s[0] != '%' then
      match Decode(s[1..])
      case Some(t) => Some([s[0]] + t)
      case None => None
    else
      match DecodeSequence(s)
      case None => None
      case Some((c, n)) =>
        match Decode(s[n..])
        case Some(t) => Some([c] + t)
        case None => None
  }

  // ---------------------------------------------------------------------------
  // Properties
  // ---------------------------------------------------------------------------

  /** The characters of the escape of the j-th byte. */
  lemma {:induction false} EscapeBytesAt(bs: seq<Byte>, j: nat)
    requires j < |bs|
    ensures EscapeBytes(bs)[3 * j] == '%'
    ensures EscapeBytes(bs)[3 * j + 1] == HexDigit(bs[j] / 16)
    ensures EscapeBytes(bs)[3 * j + 2] == HexDigit(bs[j] % 16)
    decreases j
  {
    if j > 0 {
      EscapeBytesAt(bs[1..], j - 1);
      assert EscapeBytes(bs)[3 * j..] == EscapeBytes(bs[1..])[3 * (j - 1)..];
    }
  }

  /** The two digits of a byte's escape read back as the byte. */
  lemma HexPair(b: Byte)
    ensures HexValue(HexDigit(b / 16)) == Some(b / 16)
    ensures HexValue(HexDigit(b % 16)) == Some(b % 16)
    ensures (b / 16) * 16 + b % 16 == b
  {
    HexRoundTrip(b / 16);
    HexRoundTrip(b % 16);
  }

  /** A `%XX` escape written by Escape reads back as its byte. */
  lemma {:induction false} EscapedByteOf(s: string, k: nat, b: Byte)
    requires k + 3 <= |s| && s[k..k + 3] == Escape(b)
    ensures EscapedByte(s, k) == Some(b)
  {
    assert s[k] == '%' && s[k + 1] == HexDigit(b / 16) && s[k + 2] == HexDigit(b % 16) by {
      assert s[k..k + 3][0] == s[k] && s[k..k + 3][1] == s[k + 1] && s[k..k + 3][2] == s[k + 2];
    }
    HexPair(b);
  }

  /** Each escape of an encoded byte sequence reads back as its byte. */
  lemma {:induction false} EscapedByteAt(bs: seq<Byte>, rest: string, j: nat)
    requires j < |bs|
    ensures EscapedByte(EscapeBytes(bs) + rest, 3 * j) == Some(bs[j])
  {
    var e := EscapeBytes(bs);
    var s := e + rest;
    EscapeBytesAt(bs, j);
    assert s[3 * j..3 * j + 3] == Escape(bs[j]) by {
      assert s[3 * j] == e[3 * j] && s[3 * j + 1] == e[3 * j + 1] && s[3 * j + 2] == e[3 * j + 2];
    }
    EscapedByteOf(s, 3 * j, bs[j]);
  }

  /** Decoding the UTF-8 escapes of a reserved character gives the character back. */
  lemma {:induction false} DecodeSequenceUtf8(c: char, rest: string)
    requires !IsUnreserved(c)
    ensures DecodeSequence(EscapeBytes(Utf8(c)) + rest) == Some((c, |EscapeBytes(Utf8(c))|))
  {
    var bs := Utf8(c);
    var s := EscapeBytes(bs) + rest;
    var cp := c as int;
    EscapedByteAt(bs, rest, 0);
    if cp < 0x80 {
      OneByte(s, c);
    } else if cp < 0x800 {
      EscapedByteAt(bs, rest, 1);
      TwoBytes(s, c);
    } else if cp < 0x10000 {
      EscapedByteAt(bs, rest, 1);
      EscapedByteAt(bs, rest, 2);
      ThreeBytes(s, c);
    } else {
      EscapedByteAt(bs, rest, 1);
      EscapedByteAt(bs, rest, 2);
      EscapedByteAt(bs, rest, 3);
      FourBytes(s, c);
    }
  }

  lemma {:induction false} OneByte(s: string, c: char)
    requires c as int < 0x80 && EscapedByte(s, 0) == Some(c as int)
    ensures DecodeSequence(s) == Some((c, 3))
  {
  }

  lemma {:induction false} TwoBytes(s: string, c: char)
    requires 0x80 <= c as int < 0x800
    requires EscapedByte(s, 0) == Some(0xC0 + c as int / 64)
    requires EscapedByte(s, 3) == Some(0x80 + c as int % 64)
    ensures DecodeSequence(s) == Some((c, 6))
  {
    var cp := c as int;
    assert Continuation(s, 3) == Some(cp % 64);
    assert (cp / 64) * 64 + cp % 64 == cp;
  }

  lemma {:induction false} ThreeBytes(s: string, c: char)
    requires 0x800 <= c as int < 0x10000
    requires EscapedByte(s, 0) == Some(0xE0 + c as int / 4096)
    requires EscapedByte(s, 3) == Some(0x80 + (c as int / 64) % 64)
    requires EscapedByte(s, 6) == Some(0x80 + c as int % 64)
    ensures DecodeSequence(s) == Some((c, 9))
  {
    var cp := c as int;
    assert Continuation(s, 3) == Some((cp / 64) % 64);
    assert Continuation(s, 6) == Some(cp % 64);
    Split3(cp);
  }

  lemma {:induction false} FourBytes(s: string, c: char)
    requires 0x10000 <= c as int
    requires EscapedByte(s, 0) == Some(0xF0 + c as int / 262144)
    requires EscapedByte(s, 3) == Some(0x80 + (c as int / 4096) % 64)
    requires EscapedByte(s, 6) == Some(0x80 + (c as int / 64) % 64)
    requires EscapedByte(s, 9) == Some(0x80 + c as int % 64)
    ensures DecodeSequence(s) == Some((c, 12))
  {
    var cp := c as int;
    assert Continuation(s, 3) == Some((cp / 4096) % 64);
    assert Continuation(s, 6) == Some((cp / 64) % 64);
    assert Continuation(s, 9) == Some(cp % 64);
    Split4(cp);
  }

  lemma {:induction false} Split3(cp: nat)
    requires cp < 0x10000
    ensures (cp / 4096) * 4096 + ((cp / 64) % 64) * 64 + cp % 64 == cp
    ensures cp / 4096 < 16
  {
    var q := cp / 64;
    assert q * 64 + cp % 64 == cp;
    assert (q / 64) * 64 + q % 64 == q;
    assert q / 64 == cp / 4096;
  }

  lemma {:induction false} Split4(cp: nat)
    requires cp <= 0x10FFFF
    ensures (cp / 262144) * 262144 + ((cp / 4096) % 64) * 4096 + ((cp / 64) % 64) * 64 + cp % 64 == cp
    ensures cp / 262144 < 8
  {
    var q := cp / 64;
    var p := q / 64;
    assert q * 64 + cp % 64 == cp;
    assert p * 64 + q % 64 == q;
    assert (p / 64) * 64 + p % 64 == p;
    assert p == cp / 4096;
    assert p / 64 == cp / 262144;
  }

  /** Decoding one encoded character in front of the rest. */
  lemma {:induction false} DecodeEncodeChar(c: char, rest: string)
    ensures Decode(EncodeChar(c) + rest) ==
      match Decode(rest) case Some(t) => Some([c] + t) case None => None
  {
    var s := EncodeChar(c) + rest;
    if IsUnreserved(c) {
      assert s[0] == c && s[1..] == rest;
    } else {
      DecodeSequenceUtf8(c, rest);
      EscapeBytesAt(Utf8(c), 0);
      assert s[0] == '%';
      assert s[|EncodeChar(c)|..] == rest;
    }
  }

  /** `decodeURIComponent(encodeURIComponent(s)) === s`. */
  lemma {:induction false} DecodeEncode(s: string)
    ensures Decode(Encode(s)) == Some(s)
    decreases |s|
  {
    if s != [] {
      DecodeEncode(s[1..]);
      DecodeEncodeChar(s[0], Encode(s[1..]));
      assert [s[0]] + s[1..] == s;
    }
  }

  /** An encoded string holds only unreserved characters, `%` and hexadecimal digits. */
  predicate EncodedChar(c: char)
  {
    IsUnreserved(c) || c == '%' || ('A' <= c <= 'F')
  }

  lemma {:induction false} EncodeAlphabet(s: string)
    ensures forall k :: 0 <= k < |Encode(s)| ==> EncodedChar(Encode(s)[k])
    decreases |s|
  {
    if s != [] {
      EncodeAlphabet(s[1..]);
      var e, t := EncodeChar(s[0]), Encode(s[1..]);
      EncodeCharAlphabet(s[0]);
      assert Encode(s) == e + t;
      forall k | 0 <= k < |Encode(s)| ensures EncodedChar(Encode(s)[k]) {
        if k >= |e| {
          assert Encode(s)[k] == t[k - |e|];
        }
      }
    }
  }

  /** One character's encoding uses only the encoding alphabet. */
  lemma {:induction false} EncodeCharAlphabet(c: char)
    ensures forall k :: 0 <= k < |EncodeChar(c)| ==> EncodedChar(EncodeChar(c)[k])
  {
    var e := EncodeChar(c);
    forall k | 0 <= k < |e| ensures EncodedChar(e[k]) {
      if !IsUnreserved(c) {
        var j := k / 3;
        EscapeBytesAt(Utf8(c), j);
        assert k == 3 * j || k == 3 * j + 1 || k == 3 * j + 2;
      }
    }
  }

  /** None of the characters an encoding uses is a separator or whitespace. */
  lemma EncodedCharShape(c: char)
    requires EncodedChar(c)
    ensures c != ';' && c != '=' && c != ',' && !IsJsSpace(c)
  {
  }

  /**
   * The output never holds the characters that would break a cookie
   * string: no ";", no "=", no comma, no whitespace.
   */
  lemma EncodeHasNoSeparators(s: string)
    ensures ';' !in Encode(s) && '=' !in Encode(s) && ',' !in Encode(s)
    ensures forall k :: 0 <= k < |Encode(s)| ==> !IsJsSpace(Encode(s)[k])
  {
    var e := Encode(s);
    EncodeAlphabet(s);
    forall k | 0 <= k < |e| ensures e[k] != ';' && e[k] != '=' && e[k] != ',' && !IsJsSpace(e[k]) {
      EncodedCharShape(e[k]);
    }
  }

  /** Malformed escapes are URIErrors. */
  lemma DecodeErrors()
    ensures Decode("%") == None
    ensures Decode("%G0") == None
    ensures Decode("%C0%80") == None
    ensures Decode("%ED%A0%80") == None
  {
    assert EscapedByte("%C0%80", 0) == Some(0xC0);
    assert EscapedByte("%C0%80", 3) == Some(0x80);
    assert EscapedByte("%ED%A0%80", 0) == Some(0xED);
    assert EscapedByte("%ED%A0%80", 3) == Some(0xA0);
    assert EscapedByte("%ED%A0%80", 6) == Some(0x80);
  }
}

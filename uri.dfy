/** Percent-decoding as JavaScript's decodeURIComponent performs it
    (section 2.1 of RFC 3986 for the `%XX` triplets, with the octets read as
    UTF-8 per RFC 3629), and the matching encoder, encodeURIComponent.
    A `+` is an ordinary character: it is never turned into a space. */
module Uri {
  import opened Results
  import opened Text

  /** A well-formed `%XX` triplet starts at index `3 * j` of `s`. */
  predicate EscapeAt(s: string, j: nat) {
    3 * j + 2 < |s| && s[3 * j] == '%' && DigitVal(s[3 * j + 1]) < 16 && DigitVal(s[3 * j + 2]) < 16
  }

  /** The octet written by the triplet at index `3 * j`. */
  function ByteAt(s: string, j: nat): (b: nat)
    requires EscapeAt(s, j)
    ensures b < 256
  {
    DigitVal(s[3 * j + 1]) * 16 + DigitVal(s[3 * j + 2])
  }

  /** The number of octets of a UTF-8 sequence led by `b`; 0 when `b`
      cannot lead one (a continuation octet, or five or more leading ones). */
  function SequenceLength(b: nat): nat {
    if b < 0x80 then 1
    else if 0xC0 <= b < 0xE0 then 2
    else if 0xE0 <= b < 0xF0 then 3
    else if 0xF0 <= b < 0xF8 then 4
    else 0
  }

  predicate IsContinuation(b: nat) {
    0x80 <= b < 0xC0
  }

  /** The code point that the first `n` triplets of `s` encode. */
  function CodePoint(s: string, n: nat): int
    requires 1 <= n <= 4 && forall j :: 0 <= j < n ==> EscapeAt(s, j)
  {
    if n == 1 then ByteAt(s, 0)
    else if n == 2 then (ByteAt(s, 0) - 0xC0) * 64 + (ByteAt(s, 1) - 0x80)
    else if n == 3 then
      (ByteAt(s, 0) - 0xE0) * 4096 + (ByteAt(s, 1) - 0x80) * 64 + (ByteAt(s, 2) - 0x80)
    else
      (ByteAt(s, 0) - 0xF0) * 262144 + (ByteAt(s, 1) - 0x80) * 4096
        + (ByteAt(s, 2) - 0x80) * 64 + (ByteAt(s, 3) - 0x80)
  }

  /** An `n`-octet sequence is the shortest encoding of `cp` and `cp` is a
      Unicode scalar value (no overlong forms, no surrogates, nothing above
      U+10FFFF). */
  predicate ValidCodePoint(cp: int, n: nat) {
    match n
    case 1 => true
    case 2 => 0x80 <= cp
    case 3 => 0x800 <= cp && !(0xD800 <= cp <= 0xDFFF)
    case 4 => 0x10000 <= cp <= 0x10FFFF
    case _ => false
  }

  /** Decodes the escape sequence at the start of `s` into one character and
      the number of input characters it spans; `None` is a URIError. */
  function DecodeEscape(s: string): (r: Option<(char, nat)>)
    ensures r.Some? ==> 3 <= r.value.1 <= |s|
  {
    if !EscapeAt(s, 0) then None
    else
      var n := SequenceLength(ByteAt(s, 0));
      if n == 0 then None
      else if !(forall j :: 1 <= j < n ==> EscapeAt(s, j) && IsContinuation(ByteAt(s, j))) then None
      else
        var cp := CodePoint(s, n);
        if ValidCodePoint(cp, n) then Some((cp as char, 3 * n)) else None
  }

  /** decodeURIComponent: `None` is a URIError ("URI malformed"). */
  function PercentDecode(s: string): (r: Option<string>)
    ensures '%' !in s ==> r == Some(s)
    decreases |s|
  {
    if s == [] then Some([])
    else if s[0] != '%' then
      assert s == [s[0]] + s[1..];
      assert '%' !in s ==> '%' !in s[1..];
      match PercentDecode(s[1..])
      case None => None
      case Some(t) => Some([s[0]] + t)
    else
      match DecodeEscape(s)
      case None => None
      case Some(e) =>
        match PercentDecode(s[e.1..])
        case None => None
        case Some(t) => Some([e.0] + t)
  }

  // ---------------------------------------------------------------------
  // The encoder

  /** The characters encodeURIComponent leaves alone. */
  predicate Unreserved(c: char) {
    ('A' <= c <= 'Z') || ('a' <= c <= 'z') || ('0' <= c <= '9') || c in "-_.!~*'()"
  }

  function HexChar(d: nat): (c: char)
    requires d < 16
    ensures DigitVal(c) == d
  {
    if d < 10 then DigitChar(d) else (55 + d) as char
  }

  /** The UTF-8 octets of a character. */
  function Utf8(c: char): (bs: seq<nat>)
    ensures 1 <= |bs| <= 4
    ensures forall k :: 0 <= k < |bs| ==> bs[k] < 256
  {
    var v := c as int;
    if v < 0x80 then [v]
    else if v < 0x800 then [0xC0 + v / 64, 0x80 + v % 64]
    else if v < 0x10000 then [0xE0 + v / 4096, 0x80 + (v / 64) % 64, 0x80 + v % 64]
    else [0xF0 + v / 262144, 0x80 + (v / 4096) % 64, 0x80 + (v / 64) % 64, 0x80 + v % 64]
  }

  /** `%XX` triplets, upper-case hex, one per octet. */
  function EscapeAll(bs: seq<nat>): (s: string)
    requires forall k :: 0 <= k < |bs| ==> bs[k] < 256
    ensures |s| == 3 * |bs|
  {
    if bs == [] then []
    else ['%', HexChar(bs[0] / 16), HexChar(bs[0] % 16)] + EscapeAll(bs[1..])
  }

  function EncodeChar(c: char): string {
    if Unreserved(c) then [c] else EscapeAll(Utf8(c))
  }

  /** encodeURIComponent. */
  function PercentEncode(s: string): (r: string)
    ensures |s| <= |r|
    ensures forall k :: 0 <= k < |r| ==> Unreserved(r[k]) || r[k] == '%'
    ensures (forall k :: 0 <= k < |s| ==> Unreserved(s[k])) ==> r == s
  {
    if s == [] then []
    else
      EncodedAlphabet(s[0]);
      EncodeChar(s[0]) + PercentEncode(s[1..])
  }

  /** An encoded character is unreserved characters and `%` only: the hex
      digits of an escape are unreserved. */
  lemma EncodedAlphabet(c: char)
    ensures forall k :: 0 <= k < |EncodeChar(c)| ==> Unreserved(EncodeChar(c)[k]) || EncodeChar(c)[k] == '%'
  {
    if !Unreserved(c) {
      EscapedAlphabet(Utf8(c));
    }
  }

  lemma {:induction false} EscapedAlphabet(bs: seq<nat>)
    requires forall k :: 0 <= k < |bs| ==> bs[k] < 256
    ensures forall k :: 0 <= k < |EscapeAll(bs)| ==> Unreserved(EscapeAll(bs)[k]) || EscapeAll(bs)[k] == '%'
  {
    if bs != [] {
      EscapedAlphabet(bs[1..]);
      var hi, lo := HexChar(bs[0] / 16), HexChar(bs[0] % 16);
      assert Unreserved(hi) && Unreserved(lo);
      assert EscapeAll(bs) == ['%', hi, lo] + EscapeAll(bs[1..]);
    }
  }

  lemma {:induction false} EscapeAllAt(bs: seq<nat>, rest: string, j: nat)
    requires forall k :: 0 <= k < |bs| ==> bs[k] < 256
    requires j < |bs|
    ensures EscapeAt(EscapeAll(bs) + rest, j) && ByteAt(EscapeAll(bs) + rest, j) == bs[j]
  {
    var s := EscapeAll(bs) + rest;
    if j == 0 {
      assert s[0] == '%' && s[1] == HexChar(bs[0] / 16) && s[2] == HexChar(bs[0] % 16);
    } else {
      EscapeAllAt(bs[1..], rest, j - 1);
      var t := EscapeAll(bs[1..]) + rest;
      assert s == ['%', HexChar(bs[0] / 16), HexChar(bs[0] % 16)] + t;
      assert s[3 * j] == t[3 * (j - 1)];
      assert s[3 * j + 1] == t[3 * (j - 1) + 1];
      assert s[3 * j + 2] == t[3 * (j - 1) + 2];
    }
  }

  /** The escapes of a character's UTF-8 octets decode to that character. */
  lemma DecodeEscapedChar(c: char, rest: string)
    ensures DecodeEscape(EscapeAll(Utf8(c)) + rest) == Some((c, 3 * |Utf8(c)|))
  {
    var v := c as int;
    if v < 0x80 {
      DecodeOneOctet(c, rest);
    } else if v < 0x800 {
      DecodeTwoOctets(c, rest);
    } else if v < 0x10000 {
      DecodeThreeOctets(c, rest);
    } else {
      DecodeFourOctets(c, rest);
    }
  }

  lemma DecodeOneOctet(c: char, rest: string)
    requires c as int < 0x80
    ensures DecodeEscape(EscapeAll(Utf8(c)) + rest) == Some((c, 3))
  {
    var s := EscapeAll(Utf8(c)) + rest;
    EscapeAllAt(Utf8(c), rest, 0);
    assert ByteAt(s, 0) == c as int;
    assert SequenceLength(ByteAt(s, 0)) == 1;
  }

  lemma DecodeTwoOctets(c: char, rest: string)
    requires 0x80 <= c as int < 0x800
    ensures DecodeEscape(EscapeAll(Utf8(c)) + rest) == Some((c, 6))
  {
    var v := c as int;
    var bs := Utf8(c);
    assert bs == [0xC0 + v / 64, 0x80 + v % 64];
    var s := EscapeAll(bs) + rest;
    EscapeAllAt(bs, rest, 0);
    EscapeAllAt(bs, rest, 1);
    assert SequenceLength(ByteAt(s, 0)) == 2;
    assert IsContinuation(ByteAt(s, 1));
    assert CodePoint(s, 2) == v;
  }

  lemma DecodeThreeOctets(c: char, rest: string)
    requires 0x800 <= c as int < 0x10000
    ensures DecodeEscape(EscapeAll(Utf8(c)) + rest) == Some((c, 9))
  {
    var v := c as int;
    var bs := Utf8(c);
    assert bs == [0xE0 + v / 4096, 0x80 + (v / 64) % 64, 0x80 + v % 64];
    EscapeAllBytes(bs, rest);
    ThreeOctetValues(v);
    DecodeValid(EscapeAll(bs) + rest, 3, c);
  }

  lemma DecodeFourOctets(c: char, rest: string)
    requires 0x10000 <= c as int
    ensures DecodeEscape(EscapeAll(Utf8(c)) + rest) == Some((c, 12))
  {
    var v := c as int;
    var bs := Utf8(c);
    assert bs == [0xF0 + v / 262144, 0x80 + (v / 4096) % 64, 0x80 + (v / 64) % 64, 0x80 + v % 64];
    EscapeAllBytes(bs, rest);
    FourOctetValues(v);
    DecodeValid(EscapeAll(bs) + rest, 4, c);
  }

  /** Every octet of `bs` is read back from its triplet. */
  lemma EscapeAllBytes(bs: seq<nat>, rest: string)
    requires forall k :: 0 <= k < |bs| ==> bs[k] < 256
    ensures forall j :: 0 <= j < |bs| ==>
      EscapeAt(EscapeAll(bs) + rest, j) && ByteAt(EscapeAll(bs) + rest, j) == bs[j]
  {
    forall j | 0 <= j < |bs|
      ensures EscapeAt(EscapeAll(bs) + rest, j) && ByteAt(EscapeAll(bs) + rest, j) == bs[j]
    {
      EscapeAllAt(bs, rest, j);
    }
  }

  /** Triplets that form a valid sequence for `c` decode to `c`. */
  lemma DecodeValid(s: string, n: nat, c: char)
    requires 1 <= n <= 4 && forall j :: 0 <= j < n ==> EscapeAt(s, j)
    requires SequenceLength(ByteAt(s, 0)) == n
    requires forall j :: 1 <= j < n ==> IsContinuation(ByteAt(s, j))
    requires CodePoint(s, n) == c as int && ValidCodePoint(c as int, n)
    ensures DecodeEscape(s) == Some((c, 3 * n))
  {
  }

  /** The octets of a three-octet character lead and continue a sequence
      whose code point is the character's. */
  lemma ThreeOctetValues(v: int)
    requires 0x800 <= v < 0x10000
    ensures SequenceLength(0xE0 + v / 4096) == 3
    ensures IsContinuation(0x80 + (v / 64) % 64) && IsContinuation(0x80 + v % 64)
    ensures (v / 4096) * 4096 + ((v / 64) % 64) * 64 + v % 64 == v
  {
    Div64Twice(v);
  }

  /** The octets of a four-octet character lead and continue a sequence
      whose code point is the character's. */
  lemma FourOctetValues(v: int)
    requires 0x10000 <= v <= 0x10FFFF
    ensures SequenceLength(0xF0 + v / 262144) == 4
    ensures IsContinuation(0x80 + (v / 4096) % 64) && IsContinuation(0x80 + (v / 64) % 64)
      && IsContinuation(0x80 + v % 64)
    ensures (v / 262144) * 262144 + ((v / 4096) % 64) * 4096 + ((v / 64) % 64) * 64 + v % 64 == v
  {
    Div64Thrice(v);
  }

  lemma Div64Twice(v: nat)
    ensures v / 4096 == (v / 64) / 64
    ensures v == (v / 4096) * 4096 + ((v / 64) % 64) * 64 + v % 64
  {
  }

  lemma Div64Thrice(v: nat)
    requires v <= 0x10FFFF
    ensures v / 262144 <= 4
    ensures v == (v / 262144) * 262144 + ((v / 4096) % 64) * 4096 + ((v / 64) % 64) * 64 + v % 64
  {
    var a := v / 64;
    var b := a / 64;
    Div64Twice(v);
    assert v / 4096 == b;
    assert b / 64 == v / 262144;
    assert b == (b / 64) * 64 + b % 64;
  }

  /** decodeURIComponent undoes encodeURIComponent. */
  lemma {:induction false} DecodeEncode(s: string)
    ensures PercentDecode(PercentEncode(s)) == Some(s)
  {
    if s != [] {
      DecodeEncode(s[1..]);
      assert PercentEncode(s) == EncodeChar(s[0]) + PercentEncode(s[1..]);
      DecodeEncodeStep(s[0], PercentEncode(s[1..]), s[1..]);
      assert s == [s[0]] + s[1..];
    }
  }

  /** Decoding an encoded character followed by text that decodes. */
  lemma DecodeEncodeStep(c: char, tail: string, rest: string)
    requires PercentDecode(tail) == Some(rest)
    ensures PercentDecode(EncodeChar(c) + tail) == Some([c] + rest)
  {
    var e := EncodeChar(c) + tail;
    if Unreserved(c) {
      assert e == [c] + tail;
      assert e[1..] == tail;
    } else {
      var prefix := EscapeAll(Utf8(c));
      DecodeEscapedChar(c, tail);
      assert e[|prefix|..] == tail;
    }
  }
}

/** The JavaScript string primitives the tool relies on, over `string`
    (a sequence of Unicode scalar values): `includes`, `indexOf`,
    `startsWith`, `split` with a string separator, `join`, `toLowerCase`,
    `parseInt` and `Number.prototype.toString` on integers. */
module Text {
  import opened Results

  predicate StartsWith(s: string, prefix: string) {
    |prefix| <= |s| && s[..|prefix|] == prefix
  }

  /** A string whose first character differs from the prefix's does not
      start with it. */
  lemma FirstCharMismatch(s: string, prefix: string)
    requires 0 < |prefix| && 0 < |s| && s[0] != prefix[0]
    ensures !StartsWith(s, prefix)
  {
    if |prefix| <= |s| {
      assert s[..|prefix|][0] == s[0];
    }
  }

  /** `sub` occurs in `s` starting at index `i`. */
  predicate OccursAt(s: string, sub: string, i: int) {
    0 <= i && i + |sub| <= |s| && s[i..i + |sub|] == sub
  }

  /** String.prototype.indexOf(sub, from): the least index at or after
      `from` where `sub` occurs. */
  function IndexOf(s: string, sub: string, from: nat): (r: Option<nat>)
    requires from <= |s|
    ensures r.Some? ==> from <= r.value && OccursAt(s, sub, r.value)
    ensures forall j :: from <= j && (r.None? || j < r.value) ==> !OccursAt(s, sub, j)
    decreases |s| - from
  {
    if OccursAt(s, sub, from) then Some(from)
    else if from == |s| then None
    else IndexOf(s, sub, from + 1)
  }

  /** String.prototype.includes. */
  predicate Contains(s: string, sub: string)
    ensures Contains(s, sub) ==> |sub| <= |s|
    ensures StartsWith(s, sub) ==> Contains(s, sub)
  {
    assert |sub| <= |s| ==> s[0..|sub|] == s[..|sub|];
    IndexOf(s, sub, 0).Some?
  }

  /** Whatever a suffix includes, the whole string includes. */
  lemma ContainsInSuffix(s: string, sub: string, d: nat)
    requires d <= |s| && Contains(s[d..], sub)
    ensures Contains(s, sub)
  {
    ContainsIff(s[d..], sub);
    var i :| OccursAt(s[d..], sub, i);
    assert s[d..][i..i + |sub|] == s[d + i..d + i + |sub|];
    assert OccursAt(s, sub, d + i);
    ContainsIff(s, sub);
  }

  /** Whatever a prefix includes, the whole string includes. */
  lemma ContainsInPrefix(s: string, sub: string, d: nat)
    requires d <= |s| && Contains(s[..d], sub)
    ensures Contains(s, sub)
  {
    ContainsIff(s[..d], sub);
    var i :| OccursAt(s[..d], sub, i);
    PrefixOccurrence(s, sub, d, i);
    ContainsIff(s, sub);
  }

  /** `includes` holds exactly when `sub` occurs at some index. */
  lemma ContainsIff(s: string, sub: string)
    ensures Contains(s, sub) <==> exists i :: OccursAt(s, sub, i)
  {
  }

  lemma PrefixOccurrence(s: string, sub: string, i: nat, j: int)
    requires i <= |s| && OccursAt(s[..i], sub, j)
    ensures OccursAt(s, sub, j) && j + |sub| <= i
  {
    assert s[..i][j..j + |sub|] == s[j..j + |sub|];
  }

  /** A string that lacks the first character of `sub` cannot contain `sub`. */
  lemma MissingFirstChar(s: string, sub: string)
    requires |sub| > 0 && sub[0] !in s
    ensures !Contains(s, sub)
  {
    ContainsIff(s, sub);
    forall i | OccursAt(s, sub, i)
      ensures false
    {
    }
  }

  /** Array.prototype.join. */
  function Join(parts: seq<string>, sep: string): string {
    if |parts| == 0 then ""
    else if |parts| == 1 then parts[0]
    else parts[0] + sep + Join(parts[1..], sep)
  }

  /** Every piece of a join is included in the joined text. */
  lemma {:induction false} JoinContains(parts: seq<string>, sep: string, k: nat)
    requires k < |parts|
    ensures Contains(Join(parts, sep), parts[k])
  {
    var s := Join(parts, sep);
    if k == 0 {
      assert s[..|parts[0]|] == parts[0];
    } else {
      JoinContains(parts[1..], sep, k - 1);
      assert s[|parts[0] + sep|..] == Join(parts[1..], sep);
      ContainsInSuffix(s, parts[k], |parts[0] + sep|);
    }
  }

  /** String.prototype.split with a non-empty string separator: the pieces
      between the non-overlapping occurrences of `sep`, found left to right.
      Joining the pieces back with `sep` gives the input again. */
  function Split(s: string, sep: string): (parts: seq<string>)
    requires |sep| > 0
    ensures |parts| >= 1
    ensures |parts| == 1 <==> !Contains(s, sep)
    decreases |s|
  {
    match IndexOf(s, sep, 0)
    case None => [s]
    case Some(i) => [s[..i]] + Split(s[i + |sep|..], sep)
  }

  /** No piece of a split contains the separator, and joining the pieces
      with the separator gives back the input. */
  lemma {:induction false} SplitJoin(s: string, sep: string)
    requires |sep| > 0
    ensures forall k :: 0 <= k < |Split(s, sep)| ==> !Contains(Split(s, sep)[k], sep)
    ensures Join(Split(s, sep), sep) == s
    decreases |s|
  {
    match IndexOf(s, sep, 0)
    case None =>
    case Some(i) =>
      ContainsIff(s[..i], sep);
      forall j | OccursAt(s[..i], sep, j)
        ensures false
      {
        PrefixOccurrence(s, sep, i, j);
      }
      assert s == s[..i] + sep + s[i + |sep|..] by {
        assert s[i..i + |sep|] == sep;
      }
      SplitJoin(s[i + |sep|..], sep);
  }

  /** Splitting at a first occurrence of `sep` that follows `a`. */
  lemma SplitAt(a: string, sep: string, b: string)
    requires |sep| > 0 && sep[0] !in a
    ensures Split(a + sep + b, sep) == [a] + Split(b, sep)
  {
    var s := a + sep + b;
    assert forall j :: 0 <= j < |a| ==> s[j] == a[j];
    assert OccursAt(s, sep, |a|) by {
      assert s[|a|..|a| + |sep|] == sep;
    }
    var r := IndexOf(s, sep, 0);
    assert r.Some?;
    assert r.value == |a|;
    assert s[..|a|] == a;
    assert s[|a| + |sep|..] == b;
  }

  /** A string without the first character of `sep` splits into itself. */
  lemma SplitNone(a: string, sep: string)
    requires |sep| > 0 && sep[0] !in a
    ensures Split(a, sep) == [a]
  {
    MissingFirstChar(a, sep);
  }

  // ---------------------------------------------------------------------
  // Characters and case

  predicate IsDigit(c: char) {
    '0' <= c <= '9'
  }

  /** One character of `toLowerCase`, for the ASCII capitals. */
  function LowerChar(c: char): char {
    if 'A' <= c <= 'Z' then (c as int + 32) as char else c
  }

  /** String.prototype.toLowerCase, for the ASCII letters. */
  function ToLowerAscii(s: string): (r: string)
    ensures |r| == |s|
    ensures forall k :: 0 <= k < |s| ==> r[k] == LowerChar(s[k])
  {
    if s == [] then [] else [LowerChar(s[0])] + ToLowerAscii(s[1..])
  }

  // ---------------------------------------------------------------------
  // Numbers

  /** The value of `c` as a digit of a radix up to 36; 36 when it is none. */
  function DigitVal(c: char): (d: nat)
    ensures d <= 36
  {
    if '0' <= c <= '9' then c as int - '0' as int
    else if 'a' <= c <= 'z' then c as int - 'a' as int + 10
    else if 'A' <= c <= 'Z' then c as int - 'A' as int + 10
    else 36
  }

  function DigitChar(d: nat): (c: char)
    requires d < 10
    ensures IsDigit(c) && DigitVal(c) == d
  {
    (48 + d) as char
  }

  /** The decimal rendering of a natural number, without leading zeros. */
  function NatToString(n: nat): (s: string)
    ensures |s| >= 1
    ensures forall k :: 0 <= k < |s| ==> IsDigit(s[k])
    ensures |s| > 1 ==> s[0] != '0'
  {
    if n < 10 then [DigitChar(n)] else NatToString(n / 10) + [DigitChar(n % 10)]
  }

  /** Number.prototype.toString for an integer value. */
  function IntToString(n: int): (s: string)
    ensures |s| >= 1 && forall k :: 0 <= k < |s| ==> s[k] == '-' || IsDigit(s[k])
  {
    if n < 0 then "-" + NatToString(-n) else NatToString(n)
  }

  /** The value of a digit string in the given radix, most significant first. */
  function DigitsValue(ds: string, radix: nat): nat {
    if ds == [] then 0
    else DigitsValue(ds[..|ds| - 1], radix) * radix + DigitVal(ds[|ds| - 1])
  }

  lemma {:induction false} NatToStringValue(n: nat)
    ensures DigitsValue(NatToString(n), 10) == n
  {
    if n >= 10 {
      var s := NatToString(n);
      assert s[..|s| - 1] == NatToString(n / 10);
      NatToStringValue(n / 10);
    }
  }

  /** The characters that parseInt skips before the number: WhiteSpace and
      LineTerminator of ECMA-262. */
  predicate IsJsWhitespace(c: char) {
    var v := c as int;
    v == 0x09 || v == 0x0A || v == 0x0B || v == 0x0C || v == 0x0D || v == 0x20 ||
    v == 0xA0 || v == 0x1680 || (0x2000 <= v <= 0x200A) || v == 0x2028 || v == 0x2029 ||
    v == 0x202F || v == 0x205F || v == 0x3000 || v == 0xFEFF
  }

  function TrimStart(s: string): (r: string)
    ensures |r| <= |s| && r == s[|s| - |r|..]
    ensures r == [] || !IsJsWhitespace(r[0])
    ensures forall k :: 0 <= k < |s| - |r| ==> IsJsWhitespace(s[k])
  {
    if s != [] && IsJsWhitespace(s[0]) then TrimStart(s[1..]) else s
  }

  /** The longest prefix of `s` made of digits of `radix`. */
  function DigitPrefix(s: string, radix: nat): (ds: string)
    ensures |ds| <= |s| && ds == s[..|ds|]
    ensures forall k :: 0 <= k < |ds| ==> DigitVal(ds[k]) < radix
    ensures |ds| < |s| ==> DigitVal(s[|ds|]) >= radix
  {
    if s != [] && DigitVal(s[0]) < radix then [s[0]] + DigitPrefix(s[1..], radix) else []
  }

  lemma {:induction false} DigitPrefixOfDigits(s: string)
    requires forall k :: 0 <= k < |s| ==> IsDigit(s[k])
    ensures DigitPrefix(s, 10) == s
  {
    if s != [] {
      DigitPrefixOfDigits(s[1..]);
    }
  }

  /** The unsigned part of parseInt: a `0x`/`0X` prefix selects radix 16,
      and the longest run of digits that follows is read; `None` when the run
      is empty. */
  function ReadMagnitude(u: string): Option<nat> {
    if |u| >= 2 && u[0] == '0' && (u[1] == 'x' || u[1] == 'X') then
      var ds := DigitPrefix(u[2..], 16);
      if ds == [] then None else Some(DigitsValue(ds, 16))
    else
      var ds := DigitPrefix(u, 10);
      if ds == [] then None else Some(DigitsValue(ds, 10))
  }

  /** parseInt(s) with no radix argument: `None` is NaN. Leading white
      space is skipped and one sign is accepted before the magnitude. */
  function ParseInt(s: string): (r: Option<int>)
    ensures TrimStart(s) == [] ==> r.None?
    ensures |s| > 0 && !IsJsWhitespace(s[0]) && s[0] != '-' && s[0] != '+' && DigitVal(s[0]) >= 10 ==> r.None?
  {
    ParseSigned(TrimStart(s))
  }

  /** parseInt after the white space: one optional sign, then the magnitude. */
  function ParseSigned(t: string): Option<int> {
    var negative := |t| > 0 && t[0] == '-';
    var u := if |t| > 0 && (t[0] == '-' || t[0] == '+') then t[1..] else t;
    match ReadMagnitude(u)
    case None => None
    case Some(m) => Some(if negative then 0 - (m as int) else m as int)
  }

  lemma NoLeadingSpace(s: string)
    requires |s| > 0 && !IsJsWhitespace(s[0])
    ensures TrimStart(s) == s
  {
  }

  /** parseInt reads back what Number.prototype.toString writes. */
  lemma ParseIntOfIntToString(n: int)
    ensures ParseInt(IntToString(n)) == Some(n)
  {
    if n >= 0 {
      ParseIntOfDigits(n, IntToString(n));
    } else {
      var digits := NatToString(-n);
      ReadDecimal(digits);
      NatToStringValue(-n);
      ParseSignedNegative(digits, -n);
      assert IntToString(n) == "-" + digits;
      NoLeadingSpace("-" + digits);
    }
  }

  /** A minus sign before a magnitude negates it. */
  lemma ParseSignedNegative(u: string, m: nat)
    requires ReadMagnitude(u) == Some(m)
    ensures ParseSigned("-" + u) == Some(0 - m)
  {
    assert ("-" + u)[1..] == u;
  }

  lemma ParseIntOfDigits(m: nat, s: string)
    requires s == NatToString(m)
    ensures ParseInt(s) == Some(m)
  {
    NoLeadingSpace(s);
    ReadDecimal(s);
    NatToStringValue(m);
  }

  lemma ReadDecimal(digits: string)
    requires |digits| >= 1 && forall k :: 0 <= k < |digits| ==> IsDigit(digits[k])
    ensures ReadMagnitude(digits) == Some(DigitsValue(digits, 10))
  {
    DigitPrefixOfDigits(digits);
    assert |digits| >= 2 ==> IsDigit(digits[1]);
  }
}

/** The Google Fonts CSS2 request parser (src/parser.js): validating the
    request URL, extracting and percent-decoding the family, expanding the
    `ital,wght@` axis list into variants, and scraping the fonts.gstatic.com
    `.woff2` URLs out of the stylesheet the request returns. The HTTP GET is
    not modelled: its outcome is the `response` argument. */
module Parser {
  import opened Results
  import opened Text
  import Uri

  datatype Style = Normal | Italic

  function StyleName(style: Style): string {
    match style
    case Normal => "normal"
    case Italic => "italic"
  }

  /** One requested cut; the weight is kept as the text it was written as. */
  datatype Variant = Variant(weight: string, style: Style)

  /** What the request URL alone determines. */
  datatype Request = Request(family: string, variants: seq<Variant>)

  /** The value parseGoogleFontUrl resolves to. */
  datatype FontData = FontData(family: string, urls: seq<string>, variants: seq<Variant>)

  const ErrorPrefix := "Failed to parse Google Font URL: "
  const Endpoint := "fonts.googleapis.com/css2"
  const InvalidUrl := "Invalid Google Fonts URL"
  const NoFamily := "Could not find font family in URL"
  /** The message of the URIError that decodeURIComponent throws. */
  const UriMalformed := "URI malformed"
  /** The message of the TypeError raised when a variant set has no comma. */
  const WeightsUndefined := "Cannot read properties of undefined (reading 'includes')"
  const NoWoff2 := "No WOFF2 files found"
  const FamilyKey := "family="
  const AxisPrefix := "ital,wght@"

  // ---------------------------------------------------------------------
  // Family extraction: url.match(/family=([^&]+)/)

  /** The longest prefix of `s` without `c`. */
  function TakeUntil(s: string, c: char): (r: string)
    ensures |r| <= |s| && r == s[..|r|] && c !in r
    ensures |r| < |s| ==> s[|r|] == c
  {
    if s == [] || s[0] == c then [] else [s[0]] + TakeUntil(s[1..], c)
  }

  /** The run takes all of `a` when `a` lacks `c` and is followed by `c` or
      nothing. */
  lemma TakeUntilAll(a: string, c: char, b: string)
    requires c !in a && (b == [] || b[0] == c)
    ensures TakeUntil(a + b, c) == a
  {
    if b == [] {
      assert a + b == a;
    } else {
      assert a + b == a + [c] + b[1..];
      TakeUntilStops(a, c, b[1..]);
    }
  }

  lemma {:induction false} TakeUntilStops(a: string, c: char, b: string)
    requires c !in a
    ensures TakeUntil(a + [c] + b, c) == a
  {
    if a != [] {
      assert (a + [c] + b)[1..] == a[1..] + [c] + b;
      TakeUntilStops(a[1..], c, b);
    }
  }

  /** The capture group when a match of /family=([^&]+)/ starts at index 0. */
  function FamilyAt(s: string): Option<string> {
    if StartsWith(s, FamilyKey) && |s| > |FamilyKey| && s[|FamilyKey|] != '&'
    then Some(TakeUntil(s[|FamilyKey|..], '&'))
    else None
  }

  /** The leftmost index at or after `from` where the family pattern matches. */
  function FamilyMatch(url: string, from: nat): (r: Option<nat>)
    requires from <= |url|
    ensures r.Some? ==> from <= r.value <= |url| && FamilyAt(url[r.value..]).Some?
    ensures forall j :: from <= j <= |url| && (r.None? || j < r.value) ==> FamilyAt(url[j..]).None?
    decreases |url| - from
  {
    if FamilyAt(url[from..]).Some? then Some(from)
    else if from == |url| then None
    else FamilyMatch(url, from + 1)
  }

  /** The capture of the leftmost match: the non-empty run of non-`&`
      characters after the first `family=` that is followed by one. */
  function FamilyCapture(url: string): (r: Option<string>)
    ensures r.None? <==> forall j :: 0 <= j <= |url| ==> FamilyAt(url[j..]).None?
    ensures r.Some? ==> |r.value| > 0 && '&' !in r.value && Contains(url, FamilyKey + r.value)
    ensures r.Some? ==> FamilyMatch(url, 0).Some? && OccursAt(url, FamilyKey + r.value, FamilyMatch(url, 0).value)
    ensures r.Some? ==>
      var e := FamilyMatch(url, 0).value + |FamilyKey| + |r.value|;
      e == |url| || url[e] == '&'
  {
    match FamilyMatch(url, 0)
    case None => None
    case Some(i) =>
      var s := url[i..];
      var capture := TakeUntil(s[|FamilyKey|..], '&');
      assert OccursAt(url, FamilyKey + capture, i) by {
        assert s[..|FamilyKey|] == FamilyKey;
        assert s[|FamilyKey|..][..|capture|] == capture;
        assert url[i..i + |FamilyKey + capture|] == s[..|FamilyKey| + |capture|]
          == FamilyKey + capture;
      }
      Some(capture)
  }

  /** `familyMatch[1].split(':')`, destructured into its first two pieces. */
  function SplitFamily(capture: string): (r: (string, Option<string>))
    ensures !Contains(capture, ":") ==> r == (capture, None)
    ensures Contains(capture, ":") <==> r.1.Some?
    ensures r.1.Some? ==> StartsWith(capture, r.0 + ":" + r.1.value)
    ensures !Contains(r.0, ":") && (r.1.Some? ==> !Contains(r.1.value, ":"))
  {
    SplitJoin(capture, ":");
    var parts := Split(capture, ":");
    (parts[0], if |parts| > 1 then Some(parts[1]) else None)
  }

  lemma SplitFamilyPlain(family: string)
    requires ':' !in family
    ensures SplitFamily(family) == (family, None)
  {
    SplitNone(family, ":");
  }

  /** The settings are the text after the first colon. */
  lemma SplitFamilySettings(family: string, settings: string)
    requires ':' !in family && ':' !in settings
    ensures SplitFamily(family + ":" + settings) == (family, Some(settings))
  {
    SplitAt(family, ":", settings);
    SplitNone(settings, ":");
  }

  /** Anything after a second colon is ignored. */
  lemma SplitFamilyIgnoresRest(family: string, settings: string, rest: string)
    requires ':' !in family && ':' !in settings
    ensures SplitFamily(family + ":" + settings + ":" + rest) == (family, Some(settings))
  {
    assert family + ":" + settings + ":" + rest == family + ":" + (settings + ":" + rest);
    SplitAt(family, ":", settings + ":" + rest);
    SplitAt(settings, ":", rest);
  }

  // ---------------------------------------------------------------------
  // Variant expansion

  function StyleOfFlag(flag: string): Style {
    if flag == "1" then Italic else Normal
  }

  /** The variants of a range `start..end`: weights start, start + 100, …
      up to and including `end`, all of one style. */
  function RangeVariants(start: int, end: int, style: Style): (r: seq<Variant>)
    ensures r == [] <==> start > end
    ensures forall k :: 0 <= k < |r| ==> r[k].style == style
    decreases end - start
  {
    if start > end then [] else [Variant(IntToString(start), style)] + RangeVariants(start + 100, end, style)
  }

  /** One variant per weight, in order. */
  function Tag(weights: seq<string>, style: Style): (r: seq<Variant>)
    ensures |r| == |weights|
    ensures forall k :: 0 <= k < |r| ==> r[k] == Variant(weights[k], style)
  {
    if weights == [] then [] else Tag(weights[..|weights| - 1], style) + [Variant(weights[|weights| - 1], style)]
  }

  /** The variants of one `;`-separated set `flag,weights`. */
  function SetVariants(variantSet: string): (r: Result<seq<Variant>>)
    ensures r.Err? ==> r.msg == WeightsUndefined
  {
    var parts := Split(variantSet, ",");
    if |parts| < 2 then Err(WeightsUndefined)
    else Ok(WeightVariants(parts[1], StyleOfFlag(parts[0])))
  }

  /** The variants of the `weights` part of a set: a range when it holds
      `..`, otherwise its comma-separated entries. */
  function WeightVariants(weights: string, style: Style): (r: seq<Variant>)
    ensures forall k :: 0 <= k < |r| ==> r[k].style == style
    ensures !Contains(weights, "..") ==> r != [] && |r| == |Split(weights, ",")|
    ensures !Contains(weights, "..") ==> forall k :: 0 <= k < |r| ==> r[k].weight == Split(weights, ",")[k]
  {
    if Contains(weights, "..") then
      var bounds := Split(weights, "..");
      match (ParseInt(bounds[0]), ParseInt(bounds[1]))
      case (Some(start), Some(end)) => RangeVariants(start, end, style)
      case _ => []
    else Tag(Split(weights, ","), style)
  }

  /** The variants of a list of sets, concatenated in order; the first set
      that fails fails the whole list. */
  function ExpandSets(sets: seq<string>): (r: Result<seq<Variant>>)
    ensures r.Err? ==> r.msg == WeightsUndefined
  {
    if sets == [] then Ok([])
    else Concat(ExpandSets(sets[..|sets| - 1]), SetVariants(sets[|sets| - 1]))
  }

  /** The variants of `x` followed by those of `y`; the first failure wins. */
  function Concat(x: Result<seq<Variant>>, y: Result<seq<Variant>>): Result<seq<Variant>> {
    match x
    case Err(m) => Err(m)
    case Ok(vs) =>
      match y
      case Err(m) => Err(m)
      case Ok(ws) => Ok(vs + ws)
  }

  lemma ConcatAssoc(x: Result<seq<Variant>>, y: Result<seq<Variant>>, z: Result<seq<Variant>>)
    ensures Concat(Concat(x, y), z) == Concat(x, Concat(y, z))
  {
    if x.Ok? && y.Ok? && z.Ok? {
      assert x.value + y.value + z.value == x.value + (y.value + z.value);
    }
  }

  /** The variant list of the settings part (the text after the first colon). */
  function VariantsOf(settings: Option<string>): (r: Result<seq<Variant>>)
    ensures r.Err? ==> r.msg == WeightsUndefined
    ensures !(settings.Some? && StartsWith(settings.value, AxisPrefix)) ==> r == Ok([])
  {
    if settings.Some? && StartsWith(settings.value, AxisPrefix) then
      ExpandSets(Split(settings.value[|AxisPrefix|..], ";"))
    else Ok([])
  }

  /** The variant expansion as the source performs it: a `variants` list
      that a walk over the sets appends to. */
  method ExpandVariants(settings: Option<string>) returns (r: Result<seq<Variant>>)
    ensures r == VariantsOf(settings)
  {
    var variants: seq<Variant> := [];
    if settings.Some? && StartsWith(settings.value, AxisPrefix) {
      var sets := Split(settings.value[|AxisPrefix|..], ";");
      var i := 0;
      while i < |sets|
        invariant 0 <= i <= |sets|
        invariant ExpandSets(sets[..i]) == Ok(variants)
      {
        var next := ExpandSet(variants, sets[i]);
        ExpandSetsStep(sets, i);
        if next.Err? {
          ExpandSetsStops(sets, i + 1);
          return next;
        }
        variants := next.value;
        i := i + 1;
      }
      assert sets[..i] == sets;
    }
    return Ok(variants);
  }

  /** The body of the walk for one set: the set's variants are appended to
      `variants`, a range by a loop that steps the weight by 100, a plain
      weight list one entry at a time. */
  method ExpandSet(variants: seq<Variant>, variantSet: string) returns (r: Result<seq<Variant>>)
    ensures r == Concat(Ok(variants), SetVariants(variantSet))
  {
    var parts := Split(variantSet, ",");
    if |parts| < 2 {
      return Err(WeightsUndefined);
    }
    var style := StyleOfFlag(parts[0]);
    var weights := parts[1];
    if Contains(weights, "..") {
      var bounds := Split(weights, "..");
      var start, end := ParseInt(bounds[0]), ParseInt(bounds[1]);
      if start.Some? && end.Some? {
        var acc := AppendRange(variants, start.value, end.value, style);
        return Ok(acc);
      }
      assert variants + [] == variants;
      return Ok(variants);
    }
    var acc := AppendWeights(variants, Split(weights, ","), style);
    return Ok(acc);
  }

  /** The `for` loop over a range: one variant per weight, stepping by 100
      while the weight does not exceed `end`. */
  method AppendRange(variants: seq<Variant>, start: int, end: int, style: Style) returns (acc: seq<Variant>)
    ensures acc == variants + RangeVariants(start, end, style)
  {
    acc := variants;
    var weight := start;
    while weight <= end
      invariant acc + RangeVariants(weight, end, style) == variants + RangeVariants(start, end, style)
      decreases end - weight
    {
      acc := acc + [Variant(IntToString(weight), style)];
      weight := weight + 100;
    }
  }

  /** The `forEach` over a weight list: one variant per entry, in order. */
  method AppendWeights(variants: seq<Variant>, ws: seq<string>, style: Style) returns (acc: seq<Variant>)
    ensures acc == variants + Tag(ws, style)
  {
    acc := variants;
    var j := 0;
    while j < |ws|
      invariant 0 <= j <= |ws|
      invariant acc == variants + Tag(ws[..j], style)
    {
      assert ws[..j + 1][..j] == ws[..j];
      acc := acc + [Variant(ws[j], style)];
      j := j + 1;
    }
    assert ws[..j] == ws;
  }

  /** Sets are expanded left to right and their variants concatenated:
      no sorting and no de-duplication. */
  lemma {:induction false} ExpandSetsAppend(a: seq<string>, b: seq<string>)
    ensures ExpandSets(a + b) == Concat(ExpandSets(a), ExpandSets(b))
  {
    if b == [] {
      assert a + b == a;
      if ExpandSets(a).Ok? {
        assert ExpandSets(a).value + [] == ExpandSets(a).value;
      }
    } else {
      var init, last := b[..|b| - 1], b[|b| - 1];
      assert b == init + [last];
      assert a + b == (a + init) + [last];
      ExpandSetsSnoc(a + init, last);
      ExpandSetsSnoc(init, last);
      ExpandSetsAppend(a, init);
      ConcatAssoc(ExpandSets(a), ExpandSets(init), SetVariants(last));
    }
  }

  lemma ExpandSetsSnoc(sets: seq<string>, last: string)
    ensures ExpandSets(sets + [last]) == Concat(ExpandSets(sets), SetVariants(last))
  {
    assert (sets + [last])[..|sets|] == sets;
  }

  /** Once a set fails, the sets after it do not matter. */
  lemma ExpandSetsFailure(a: seq<string>, b: seq<string>)
    requires ExpandSets(a).Err?
    ensures ExpandSets(a + b) == ExpandSets(a)
  {
    ExpandSetsAppend(a, b);
  }

  lemma ExpandSetsStep(sets: seq<string>, i: nat)
    requires i < |sets|
    ensures ExpandSets(sets[..i + 1]) == Concat(ExpandSets(sets[..i]), SetVariants(sets[i]))
  {
    assert sets[..i + 1][..i] == sets[..i];
  }

  lemma ExpandSetsStops(sets: seq<string>, n: nat)
    requires n <= |sets| && ExpandSets(sets[..n]).Err?
    ensures ExpandSets(sets) == ExpandSets(sets[..n])
  {
    ExpandSetsFailure(sets[..n], sets[n..]);
    assert sets[..n] + sets[n..] == sets;
  }

  lemma {:induction false} RangeVariantsCount(start: int, end: int, style: Style)
    ensures |RangeVariants(start, end, style)| == if start <= end then (end - start) / 100 + 1 else 0
    decreases end - start
  {
    if start <= end {
      RangeVariantsCount(start + 100, end, style);
    }
  }

  /** The k-th variant of a range has weight start + 100 k, which is at most
      `end`, and the range's style. */
  lemma {:induction false} RangeVariantsAt(start: int, end: int, style: Style, k: nat)
    requires k < |RangeVariants(start, end, style)|
    ensures RangeVariants(start, end, style)[k] == Variant(IntToString(start + 100 * k), style)
    ensures start + 100 * k <= end
    decreases end - start
  {
    if k > 0 {
      RangeVariantsAt(start + 100, end, style, k - 1);
    }
  }

  /** A set `flag,weight` yields exactly one variant: the weight verbatim,
      italic exactly when the flag is `1`. */
  lemma SingleSet(flag: string, weight: string)
    requires ',' !in flag && ',' !in weight && !Contains(weight, "..")
    ensures SetVariants(flag + "," + weight) == Ok([Variant(weight, StyleOfFlag(flag))])
  {
    SplitAt(flag, ",", weight);
    SplitNone(weight, ",");
    assert Split(flag + "," + weight, ",") == [flag, weight];
    assert Tag([weight], StyleOfFlag(flag)) == [Variant(weight, StyleOfFlag(flag))];
  }

  /** Only the text between the first and the second comma of a set is read. */
  lemma SetIgnoresAfterSecondComma(flag: string, weights: string, rest: string)
    requires ',' !in flag && ',' !in weights
    ensures SetVariants(flag + "," + weights + "," + rest) == SetVariants(flag + "," + weights)
  {
    SecondCommaSplit(flag, weights, rest);
    SetText(flag, weights);
  }

  lemma SecondCommaSplit(flag: string, weights: string, rest: string)
    requires ',' !in flag && ',' !in weights
    ensures var parts := Split(flag + "," + weights + "," + rest, ",");
      |parts| >= 2 && parts[0] == flag && parts[1] == weights
  {
    assert flag + "," + weights + "," + rest == flag + "," + (weights + "," + rest);
    SplitAt(flag, ",", weights + "," + rest);
    SplitAt(weights, ",", rest);
  }

  /** A set without a comma leaves `weights` undefined: the parse fails. */
  lemma SetWithoutComma(variantSet: string)
    requires ',' !in variantSet
    ensures SetVariants(variantSet) == Err(WeightsUndefined)
  {
    SplitNone(variantSet, ",");
  }

  /** A set `flag,start..end` with numeric bounds yields the range. */
  lemma RangeSet(flag: string, start: int, end: int)
    requires ',' !in flag
    ensures SetVariants(flag + "," + IntToString(start) + ".." + IntToString(end))
      == Ok(RangeVariants(start, end, StyleOfFlag(flag)))
  {
    var a, b := IntToString(start), IntToString(end);
    NumberText(start);
    NumberText(end);
    RangeText(a, b);
    var weights := a + ".." + b;
    assert flag + "," + a + ".." + b == flag + "," + weights;
    SetText(flag, weights);
    ParseIntOfIntToString(start);
    ParseIntOfIntToString(end);
    RangeWeights(a, b, start, end, StyleOfFlag(flag));
  }

  lemma RangeWeights(a: string, b: string, start: int, end: int, style: Style)
    requires Contains(a + ".." + b, "..") && Split(a + ".." + b, "..") == [a, b]
    requires ParseInt(a) == Some(start) && ParseInt(b) == Some(end)
    ensures WeightVariants(a + ".." + b, style) == RangeVariants(start, end, style)
  {
  }

  lemma NumberText(n: int)
    ensures ',' !in IntToString(n) && '.' !in IntToString(n)
  {
    var s := IntToString(n);
    assert forall k :: 0 <= k < |s| ==> s[k] != ',' && s[k] != '.';
  }

  /** `start..end` splits at its `..` when neither bound holds a comma or
      a dot. */
  lemma RangeText(a: string, b: string)
    requires ',' !in a && ',' !in b && '.' !in a && '.' !in b
    ensures ',' !in a + ".." + b
    ensures Contains(a + ".." + b, "..") && Split(a + ".." + b, "..") == [a, b]
  {
    var weights := a + ".." + b;
    assert OccursAt(weights, "..", |a|) by {
      assert weights[|a|..|a| + 2] == "..";
    }
    ContainsIff(weights, "..");
    SplitAt(a, "..", b);
    SplitNone(b, "..");
  }

  /** A set `flag,weights` splits into its flag and its weights. */
  lemma SetText(flag: string, weights: string)
    requires ',' !in flag && ',' !in weights
    ensures Split(flag + "," + weights, ",") == [flag, weights]
  {
    SplitAt(flag, ",", weights);
    SplitNone(weights, ",");
  }

  lemma ParseIntOfLetter(s: string)
    requires |s| > 0 && ('a' <= s[0] <= 'z' || 'A' <= s[0] <= 'Z')
    ensures ParseInt(s) == None
  {
    NoLeadingSpace(s);
    assert DigitPrefix(s, 10) == [];
  }

  /** A range one of whose bounds is not a number yields no variant and
      no error. */
  lemma NonNumericRange(flag: string, weights: string)
    requires ',' !in flag && ',' !in weights && Contains(weights, "..")
    requires ParseInt(Split(weights, "..")[0]).None? || ParseInt(Split(weights, "..")[1]).None?
    ensures SetVariants(flag + "," + weights) == Ok([])
  {
    SetText(flag, weights);
  }

  /** In particular a range whose start begins with a letter. */
  lemma LetterRange(flag: string, start: string, end: string)
    requires ',' !in flag && ',' !in start && ',' !in end && '.' !in start
    requires |start| > 0 && ('a' <= start[0] <= 'z' || 'A' <= start[0] <= 'Z')
    ensures SetVariants(flag + "," + start + ".." + end) == Ok([])
  {
    var weights := start + ".." + end;
    assert ',' !in weights;
    assert flag + "," + start + ".." + end == flag + "," + weights;
    assert OccursAt(weights, "..", |start|) by {
      assert weights[|start|..|start| + 2] == "..";
    }
    ContainsIff(weights, "..");
    SplitAt(start, "..", end);
    ParseIntOfLetter(start);
    NonNumericRange(flag, weights);
  }

  /** An axis list of one set yields that set's variants. */
  lemma OneSet(variantSet: string)
    requires ';' !in variantSet
    ensures VariantsOf(Some(AxisPrefix + variantSet)) == SetVariants(variantSet)
  {
    var settings := AxisPrefix + variantSet;
    assert settings[..|AxisPrefix|] == AxisPrefix;
    assert settings[|AxisPrefix|..] == variantSet;
    SplitNone(variantSet, ";");
    assert VariantsOf(Some(settings)) == ExpandSets([variantSet]);
    assert [variantSet][..0] == [];
    assert ExpandSets([]) == Ok([]);
    match SetVariants(variantSet)
    case Ok(ws) =>
      assert [] + ws == ws;
    case Err(m) =>
  }

  /** The set `1,700` is weight 700, italic. */
  lemma ItalicBoldSet()
    ensures SetVariants("1,700") == Ok([Variant("700", Italic)])
  {
    assert "1,700" == "1" + "," + "700";
    MissingFirstChar("700", "..");
    SingleSet("1", "700");
  }

  /** `ital,wght@1,700` requests exactly one cut: weight 700, italic. */
  lemma ItalicBoldExample()
    ensures VariantsOf(Some("ital,wght@1,700")) == Ok([Variant("700", Italic)])
  {
    assert ';' !in "1,700";
    assert "ital,wght@1,700" == AxisPrefix + "1,700";
    OneSet("1,700");
    ItalicBoldSet();
  }

  /** The plain `wght@` axis is not read: it yields no variants. */
  lemma PlainWeightAxis(spec: string)
    ensures VariantsOf(Some("wght@" + spec)) == Ok([])
  {
    var s := "wght@" + spec;
    assert s[0] == 'w';
    FirstCharMismatch(s, AxisPrefix);
  }

  // ---------------------------------------------------------------------
  // The whole request

  /** Validation, family extraction and variant expansion. */
  function ParseRequest(url: string): (r: Result<Request>)
    ensures r.Err? ==> r.msg in {InvalidUrl, NoFamily, UriMalformed, WeightsUndefined}
    ensures !Contains(url, Endpoint) ==> r == Err(InvalidUrl)
    ensures Contains(url, Endpoint) && FamilyCapture(url).None? ==> r == Err(NoFamily)
    ensures r == Err(UriMalformed) <==>
      Contains(url, Endpoint) && FamilyCapture(url).Some?
      && Uri.PercentDecode(SplitFamily(FamilyCapture(url).value).0).None?
  {
    if !Contains(url, Endpoint) then Err(InvalidUrl)
    else
      match FamilyCapture(url)
      case None => Err(NoFamily)
      case Some(capture) =>
        var (familyPart, settings) := SplitFamily(capture);
        match Uri.PercentDecode(familyPart)
        case None => Err(UriMalformed)
        case Some(family) =>
          match VariantsOf(settings)
          case Err(m) => Err(m)
          case Ok(vs) => Ok(Request(family, vs))
  }

  /** A request URL: any text holding the endpoint, then `family=`, the
      encoded family, `:` and the settings, then nothing or `&…`. */
  function RequestUrl(base: string, family: string, settings: string, rest: string): string {
    base + (FamilyKey + (Uri.PercentEncode(family) + ":" + settings) + rest)
  }

  /** Parsing gives back the family that was encoded into the URL, and the
      variants of its settings. */
  lemma RequestRoundTrip(base: string, family: string, settings: string, rest: string)
    requires Contains(base, Endpoint) && family != []
    requires forall j :: 0 <= j < |base| ==> FamilyAt(RequestUrl(base, family, settings, rest)[j..]).None?
    requires '&' !in settings && ':' !in settings
    requires rest == [] || rest[0] == '&'
    ensures VariantsOf(Some(settings)).Ok? ==>
      ParseRequest(RequestUrl(base, family, settings, rest)) == Ok(Request(family, VariantsOf(Some(settings)).value))
    ensures VariantsOf(Some(settings)).Err? ==>
      ParseRequest(RequestUrl(base, family, settings, rest)) == Err(WeightsUndefined)
  {
    var url := RequestUrl(base, family, settings, rest);
    var encoded := Uri.PercentEncode(family);
    RequestCapture(base, family, settings, rest);
    EncodedFamily(family);
    SplitFamilySettings(encoded, settings);
    Uri.DecodeEncode(family);
    ParseRequestParts(url, encoded, family, settings);
  }

  /** A request URL without settings: any text holding the endpoint, then
      `family=` and the encoded family, then nothing or `&…`. */
  function PlainRequestUrl(base: string, family: string, rest: string): string {
    base + (FamilyKey + Uri.PercentEncode(family) + rest)
  }

  /** Without `:`, the family runs up to the next `&` or the end, and the
      request asks for no particular variants. */
  lemma PlainRequestRoundTrip(base: string, family: string, rest: string)
    requires Contains(base, Endpoint) && family != []
    requires forall j :: 0 <= j < |base| ==> FamilyAt(PlainRequestUrl(base, family, rest)[j..]).None?
    requires rest == [] || rest[0] == '&'
    ensures ParseRequest(PlainRequestUrl(base, family, rest)) == Ok(Request(family, []))
  {
    var url := PlainRequestUrl(base, family, rest);
    var encoded := Uri.PercentEncode(family);
    EndpointKept(base, FamilyKey + encoded + rest);
    EncodedFamily(family);
    CaptureAt(url, base, encoded, rest);
    SplitFamilyPlain(encoded);
    Uri.DecodeEncode(family);
  }

  /** Such a URL holds the endpoint, and its capture is the encoded family,
      `:` and the settings. */
  lemma RequestCapture(base: string, family: string, settings: string, rest: string)
    requires Contains(base, Endpoint) && family != []
    requires forall j :: 0 <= j < |base| ==> FamilyAt(RequestUrl(base, family, settings, rest)[j..]).None?
    requires '&' !in settings && ':' !in settings
    requires rest == [] || rest[0] == '&'
    ensures Contains(RequestUrl(base, family, settings, rest), Endpoint)
    ensures FamilyCapture(RequestUrl(base, family, settings, rest)) == Some(Uri.PercentEncode(family) + ":" + settings)
  {
    var url := RequestUrl(base, family, settings, rest);
    var capture := Uri.PercentEncode(family) + ":" + settings;
    EndpointKept(base, FamilyKey + capture + rest);
    EncodedFamily(family);
    CaptureAt(url, base, capture, rest);
  }

  lemma EndpointKept(base: string, tail: string)
    requires Contains(base, Endpoint)
    ensures Contains(base + tail, Endpoint)
  {
    assert (base + tail)[..|base|] == base;
    ContainsInPrefix(base + tail, Endpoint, |base|);
  }

  /** An encoded family is non-empty and holds neither `&` nor `:`. */
  lemma EncodedFamily(family: string)
    requires family != []
    ensures Uri.PercentEncode(family) != []
    ensures '&' !in Uri.PercentEncode(family) && ':' !in Uri.PercentEncode(family)
  {
    var e := Uri.PercentEncode(family);
    assert !Uri.Unreserved('&') && !Uri.Unreserved(':');
    assert forall k :: 0 <= k < |e| ==> e[k] != '&' && e[k] != ':';
  }

  /** A request whose capture splits into an encoded family and settings. */
  lemma ParseRequestParts(url: string, encoded: string, family: string, settings: string)
    requires Contains(url, Endpoint) && FamilyCapture(url).Some?
    requires SplitFamily(FamilyCapture(url).value) == (encoded, Some(settings))
    requires Uri.PercentDecode(encoded) == Some(family)
    ensures VariantsOf(Some(settings)).Ok? ==>
      ParseRequest(url) == Ok(Request(family, VariantsOf(Some(settings)).value))
    ensures VariantsOf(Some(settings)).Err? ==> ParseRequest(url) == Err(WeightsUndefined)
  {
  }

  /** The capture of a URL whose first match follows `base`. */
  lemma CaptureAt(url: string, base: string, capture: string, rest: string)
    requires url == base + (FamilyKey + capture + rest)
    requires capture != [] && '&' !in capture && (rest == [] || rest[0] == '&')
    requires forall j :: 0 <= j < |base| ==> FamilyAt(url[j..]).None?
    ensures FamilyCapture(url) == Some(capture)
  {
    var s := url[|base|..];
    assert s == FamilyKey + capture + rest;
    assert s[..|FamilyKey|] == FamilyKey;
    assert s[|FamilyKey|..] == capture + rest;
    TakeUntilAll(capture, '&', rest);
    assert FamilyAt(s) == Some(capture);
    assert FamilyMatch(url, 0) == Some(|base|);
  }

  // ---------------------------------------------------------------------
  // Scraping the stylesheet

  const UrlOpen := "url("
  const Gstatic := "https://fonts.gstatic.com"
  const Woff2Ext := ".woff2"

  /** What the pattern accepts between `url(` and `)`: the fonts.gstatic.com
      prefix, at least one character, `.woff2`, then anything but `)`. */
  predicate IsWoff2Url(u: string) {
    StartsWith(u, Gstatic) && ')' !in u && |u| > |Gstatic|
    && IndexOf(u, Woff2Ext, |Gstatic| + 1).Some?
  }

  /** The text between `url(` and `)` when a match of
      /url\((https:\/\/fonts\.gstatic\.com[^)]+\.woff2[^)]*)\)/ starts at
      index 0 of `s`. */
  function Woff2At(s: string): (r: Option<string>)
    ensures r.Some? ==> IsWoff2Url(r.value) && |r.value| + 5 <= |s|
    ensures r.Some? ==> StartsWith(s, UrlOpen) && s[|UrlOpen|..|UrlOpen| + |r.value|] == r.value
    ensures r.Some? ==> s[|UrlOpen| + |r.value|] == ')'
  {
    if !StartsWith(s, UrlOpen + Gstatic) then None
    else
      var inner := TakeUntil(s[|UrlOpen|..], ')');
      if |inner| == |s| - |UrlOpen| then None
      else if IsWoff2Url(inner) then Some(inner)
      else None
  }

  /** The contents of the successive non-overlapping matches, left to right. */
  function ExtractWoff2Urls(css: string): (urls: seq<string>)
    ensures forall k :: 0 <= k < |urls| ==> IsWoff2Url(urls[k])
    decreases |css|
  {
    if css == [] then []
    else
      match Woff2At(css)
      case Some(u) => [u] + ExtractWoff2Urls(css[|u| + 5..])
      case None => ExtractWoff2Urls(css[1..])
  }

  /** Every scraped URL comes from a `url(…)` call the stylesheet includes. */
  lemma {:induction false} ExtractProvenance(css: string)
    ensures forall k :: 0 <= k < |ExtractWoff2Urls(css)| ==>
      Contains(css, UrlOpen + ExtractWoff2Urls(css)[k] + ")")
    decreases |css|
  {
    if css != [] {
      match Woff2At(css)
      case Some(u) =>
        var rest := ExtractWoff2Urls(css[|u| + 5..]);
        ExtractProvenance(css[|u| + 5..]);
        assert ExtractWoff2Urls(css) == [u] + rest;
        FoundInText(css, u, rest);
      case None =>
        ExtractProvenance(css[1..]);
        assert ExtractWoff2Urls(css) == ExtractWoff2Urls(css[1..]);
        UrlsInSuffix(css, 1, ExtractWoff2Urls(css[1..]));
    }
  }

  lemma FoundInText(css: string, u: string, rest: seq<string>)
    requires Woff2At(css) == Some(u)
    requires forall k :: 0 <= k < |rest| ==> Contains(css[|u| + 5..], UrlOpen + rest[k] + ")")
    ensures forall k :: 0 <= k < |[u] + rest| ==> Contains(css, UrlOpen + ([u] + rest)[k] + ")")
  {
    MatchInText(css, u);
    UrlsInSuffix(css, |u| + 5, rest);
  }

  /** A match at the start of `css` is a `url(…)` call that `css` includes. */
  lemma MatchInText(css: string, u: string)
    requires Woff2At(css) == Some(u)
    ensures Contains(css, UrlOpen + u + ")")
  {
    assert css[..|UrlOpen + u + ")"|] == UrlOpen + u + ")" by {
      assert css[..|UrlOpen|] == UrlOpen;
    }
  }

  /** The `url(…)` calls a suffix of `css` includes, `css` includes too. */
  lemma UrlsInSuffix(css: string, d: nat, urls: seq<string>)
    requires d <= |css|
    requires forall k :: 0 <= k < |urls| ==> Contains(css[d..], UrlOpen + urls[k] + ")")
    ensures forall k :: 0 <= k < |urls| ==> Contains(css, UrlOpen + urls[k] + ")")
  {
    forall k | 0 <= k < |urls|
      ensures Contains(css, UrlOpen + urls[k] + ")")
    {
      ContainsInSuffix(css, UrlOpen + urls[k] + ")", d);
    }
  }

  /** No match of the pattern starts inside `p` when `p` is followed by
      `rest`. */
  predicate NoMatchIn(p: string, rest: string) {
    forall j :: 0 <= j < |p| ==> Woff2At((p + rest)[j..]).None?
  }

  /** Text in which no match starts is skipped. */
  lemma {:induction false} ExtractSkips(p: string, rest: string)
    requires NoMatchIn(p, rest)
    ensures ExtractWoff2Urls(p + rest) == ExtractWoff2Urls(rest)
  {
    if p != [] {
      var s := p + rest;
      assert s[0..] == s;
      assert ExtractWoff2Urls(s) == ExtractWoff2Urls(s[1..]);
      assert s[1..] == p[1..] + rest;
      assert NoMatchIn(p[1..], rest) by {
        forall j | 0 <= j < |p[1..]|
          ensures Woff2At((p[1..] + rest)[j..]).None?
        {
          assert (p[1..] + rest)[j..] == s[j + 1..];
        }
      }
      ExtractSkips(p[1..], rest);
    } else {
      assert p + rest == rest;
    }
  }

  /** Only a `u` followed by `r` can start a match: text in which every `u`
      is followed by another letter holds none. */
  lemma NoUrlStart(p: string, rest: string)
    requires forall j :: 0 <= j < |p| && p[j] == 'u' ==> j + 1 < |p| && p[j + 1] != 'r'
    ensures NoMatchIn(p, rest)
  {
    forall j | 0 <= j < |p|
      ensures Woff2At((p + rest)[j..]).None?
    {
      var t := (p + rest)[j..];
      assert t[0] == p[j];
      if p[j] == 'u' {
        assert t[1] == p[j + 1];
      } else {
        FirstCharMismatch(t, UrlOpen + Gstatic);
      }
    }
  }

  /** A `url(…)` whose contents the pattern accepts is scraped whole. */
  lemma ExtractOne(u: string, rest: string)
    requires IsWoff2Url(u)
    ensures ExtractWoff2Urls(UrlOpen + u + ")" + rest) == [u] + ExtractWoff2Urls(rest)
  {
    var s := UrlOpen + u + ")" + rest;
    MatchAtUrl(u, rest);
    assert s[|u| + 5..] == rest;
  }

  /** The pattern matches a `url(…)` whose contents it accepts. */
  lemma MatchAtUrl(u: string, rest: string)
    requires IsWoff2Url(u)
    ensures Woff2At(UrlOpen + u + ")" + rest) == Some(u)
  {
    var s := UrlOpen + u + ")" + rest;
    assert s[|UrlOpen|..] == u + [')'] + rest;
    TakeUntilStops(u, ')', rest);
    assert s[..|UrlOpen + Gstatic|] == UrlOpen + Gstatic by {
      assert u[..|Gstatic|] == Gstatic;
    }
  }

  const SrcOpen := "src: "
  const FormatTail := " format('woff2');\n"

  /** The `src` line that declares one URL. */
  function SrcLine(u: string): string {
    SrcOpen + UrlOpen + u + ")" + FormatTail
  }

  lemma NoMatchOutsideUrl(call: string, rest: string)
    ensures NoMatchIn(SrcOpen, call) && NoMatchIn(FormatTail, rest)
  {
    NoUrlStart(SrcOpen, call);
    NoUrlStart(FormatTail, rest);
  }

  /** A stylesheet that declares the given URLs, one `src` line each. */
  function SrcLines(urls: seq<string>): string {
    if urls == [] then "" else SrcLine(urls[0]) + SrcLines(urls[1..])
  }

  lemma ExtractSrcLine(u: string, rest: string)
    requires IsWoff2Url(u)
    ensures ExtractWoff2Urls(SrcLine(u) + rest) == [u] + ExtractWoff2Urls(rest)
  {
    var tail := FormatTail + rest;
    var call := UrlOpen + u + ")" + tail;
    NoMatchOutsideUrl(call, rest);
    assert SrcLine(u) + rest == SrcOpen + call;
    assert ExtractWoff2Urls(SrcOpen + call) == ExtractWoff2Urls(call) by {
      ExtractSkips(SrcOpen, call);
    }
    assert ExtractWoff2Urls(call) == [u] + ExtractWoff2Urls(tail) by {
      ExtractOne(u, tail);
    }
    assert ExtractWoff2Urls(tail) == ExtractWoff2Urls(rest) by {
      ExtractSkips(FormatTail, rest);
    }
  }

  /** The scraper finds exactly the URLs a stylesheet declares, in order. */
  lemma {:induction false} ExtractSrcLines(urls: seq<string>)
    requires forall k :: 0 <= k < |urls| ==> IsWoff2Url(urls[k])
    ensures ExtractWoff2Urls(SrcLines(urls)) == urls
  {
    if urls != [] {
      ExtractSrcLines(urls[1..]);
      ExtractSrcLinesStep(urls);
    }
  }

  lemma ExtractSrcLinesStep(urls: seq<string>)
    requires urls != [] && IsWoff2Url(urls[0])
    requires ExtractWoff2Urls(SrcLines(urls[1..])) == urls[1..]
    ensures ExtractWoff2Urls(SrcLines(urls)) == urls
  {
    ExtractSrcLine(urls[0], SrcLines(urls[1..]));
  }

  /** Any stylesheet: the free text `gaps[0]`, then `url(urls[0])`, then
      `gaps[1]`, and so on, ending with the last gap. */
  function Sheet(gaps: seq<string>, urls: seq<string>): string
    requires |gaps| == |urls| + 1
    decreases |urls|
  {
    if urls == [] then gaps[0]
    else gaps[0] + UrlOpen + urls[0] + ")" + Sheet(gaps[1..], urls[1..])
  }

  /** No match starts inside any gap of the stylesheet. */
  predicate Quiet(gaps: seq<string>, urls: seq<string>)
    requires |gaps| == |urls| + 1
    decreases |urls|
  {
    if urls == [] then NoMatchIn(gaps[0], [])
    else NoMatchIn(gaps[0], UrlOpen + urls[0] + ")" + Sheet(gaps[1..], urls[1..])) && Quiet(gaps[1..], urls[1..])
  }

  /** The scraper returns exactly the accepted `url(…)` calls of a
      stylesheet whose other text starts no match, in order. */
  lemma {:induction false} ExtractSheet(gaps: seq<string>, urls: seq<string>)
    requires |gaps| == |urls| + 1 && Quiet(gaps, urls)
    requires forall k :: 0 <= k < |urls| ==> IsWoff2Url(urls[k])
    ensures ExtractWoff2Urls(Sheet(gaps, urls)) == urls
    decreases |urls|
  {
    if urls == [] {
      ExtractSkips(gaps[0], []);
      assert gaps[0] + [] == gaps[0];
    } else {
      var tail := Sheet(gaps[1..], urls[1..]);
      ExtractSheet(gaps[1..], urls[1..]);
      ExtractSheetStep(gaps[0], urls[0], tail, urls[1..]);
    }
  }

  lemma ExtractSheetStep(gap: string, u: string, tail: string, us: seq<string>)
    requires IsWoff2Url(u) && NoMatchIn(gap, UrlOpen + u + ")" + tail)
    requires ExtractWoff2Urls(tail) == us
    ensures ExtractWoff2Urls(gap + UrlOpen + u + ")" + tail) == [u] + us
  {
    assert gap + UrlOpen + u + ")" + tail == gap + (UrlOpen + u + ")" + tail);
    ExtractSkips(gap, UrlOpen + u + ")" + tail);
    ExtractOne(u, tail);
  }

  /** The message parseGoogleFontUrl's failure carries after its prefix. */
  function FailureMessage(url: string, response: Result<string>): string {
    if ParseRequest(url).Err? then ParseRequest(url).msg
    else if response.Err? then response.msg
    else NoWoff2
  }

  /** parseGoogleFontUrl with the stylesheet fetch given as `response`:
      every failure carries the prefix, and a success holds the decoded
      family, the scraped URLs (at least one) and the expanded variants. */
  method ParseGoogleFontUrl(url: string, response: Result<string>) returns (r: Result<FontData>)
    ensures r.Ok? <==> ParseRequest(url).Ok? && response.Ok? && ExtractWoff2Urls(response.value) != []
    ensures r.Ok? ==> r.value == FontData(ParseRequest(url).value.family,
                                          ExtractWoff2Urls(response.value),
                                          ParseRequest(url).value.variants)
    ensures r.Err? ==> r.msg == ErrorPrefix + FailureMessage(url, response)
  {
    if !Contains(url, Endpoint) {
      return Err(ErrorPrefix + InvalidUrl);
    }
    var capture := FamilyCapture(url);
    if capture.None? {
      return Err(ErrorPrefix + NoFamily);
    }
    var (familyPart, settings) := SplitFamily(capture.value);
    var family := Uri.PercentDecode(familyPart);
    if family.None? {
      return Err(ErrorPrefix + UriMalformed);
    }
    var variants := ExpandVariants(settings);
    if variants.Err? {
      return Err(ErrorPrefix + variants.msg);
    }
    if response.Err? {
      return Err(ErrorPrefix + response.msg);
    }
    var urls := ExtractWoff2Urls(response.value);
    if |urls| == 0 {
      return Err(ErrorPrefix + NoWoff2);
    }
    return Ok(FontData(family.value, urls, variants.value));
  }
}

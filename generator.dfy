/** The `@font-face` emitter (src/generator.js): one rule per downloaded
    file, in the order of the files, joined by a blank line. Each rule takes
    its style from an `italic` substring test on the file's URL and its weight
    from the first `[,.]digits[,.]` run in the URL; the requested variants
    are only consulted for a warning. `path.relative('styles', …)` is the
    `relative` argument, and the warnings that go to the console are returned
    beside the text. */
module Generator {
  import opened Results
  import opened Text
  import opened Parser

  /** What the downloader reports for one font file. */
  datatype DownloadedFile = DownloadedFile(url: string, filepath: string)

  /** A file for which no requested variant has the derived weight and style. */
  datatype Warning = Warning(weight: string, style: Style)

  /** The stylesheet text and the warnings raised while producing it. */
  datatype Css = Css(text: string, warnings: seq<Warning>)

  const DefaultWeight := "400"

  /** `italic` when the URL contains that word, `normal` otherwise. */
  function StyleOf(url: string): Style {
    if Contains(url, "italic") then Italic else Normal
  }

  predicate IsSeparator(c: char) {
    c == ',' || c == '.'
  }

  /** The capture of /[,.](\d+)[,.]/ when a match starts at index 0 of `s`.
      `\d+` is greedy and backing off a digit leaves a digit before the
      closing `[,.]`, so the capture is the whole digit run. */
  function WeightAt(s: string): (r: Option<string>)
    ensures r.Some? ==> |r.value| > 0 && forall k :: 0 <= k < |r.value| ==> IsDigit(r.value[k])
  {
    if |s| == 0 || !IsSeparator(s[0]) then None
    else
      var ds := DigitPrefix(s[1..], 10);
      if |ds| > 0 && |ds| + 1 < |s| && IsSeparator(s[|ds| + 1]) then
        assert forall k :: 0 <= k < |ds| ==> IsDigit(ds[k]) by {
          forall k | 0 <= k < |ds| ensures IsDigit(ds[k]) {
            DigitBelowTen(ds[k]);
          }
        }
        Some(ds)
      else None
  }

  lemma DigitBelowTen(c: char)
    requires DigitVal(c) < 10
    ensures IsDigit(c)
  {
  }

  /** The leftmost index at or after `from` where the weight pattern matches. */
  function WeightMatch(url: string, from: nat): (r: Option<nat>)
    requires from <= |url|
    ensures r.Some? ==> from <= r.value <= |url| && WeightAt(url[r.value..]).Some?
    ensures forall j :: from <= j <= |url| && (r.None? || j < r.value) ==> WeightAt(url[j..]).None?
    decreases |url| - from
  {
    if WeightAt(url[from..]).Some? then Some(from)
    else if from == |url| then None
    else WeightMatch(url, from + 1)
  }

  /** The weight a file's URL names: the digits of the leftmost match, or
      `400` when nothing matches. */
  function WeightOf(url: string): (w: string)
    ensures |w| > 0 && forall k :: 0 <= k < |w| ==> IsDigit(w[k])
  {
    match WeightMatch(url, 0)
    case Some(i) => WeightAt(url[i..]).value
    case None => DefaultWeight
  }

  /** `variants.find(...)`: the first variant with the given weight and style. */
  function FindVariant(variants: seq<Variant>, weight: string, style: Style): (r: Option<Variant>)
    ensures r.None? <==> forall k :: 0 <= k < |variants| ==> variants[k] != Variant(weight, style)
    ensures r.Some? ==> r.value == Variant(weight, style)
  {
    if variants == [] then None
    else if variants[0].weight == weight && variants[0].style == style then Some(variants[0])
    else FindVariant(variants[1..], weight, style)
  }

  /** The text of one rule. */
  function Rule(family: string, style: string, weight: string, relativePath: string): string {
    "@font-face {\n"
    + "    font-family: '" + family + "';\n"
    + "    font-style: " + style + ";\n"
    + "    font-weight: " + weight + ";\n"
    + "    font-display: swap;\n"
    + "    src: url('../" + relativePath + "') format('woff2');\n"
    + "}"
  }

  /** `a || b` on two strings. */
  function OrElse(a: string, b: string): string {
    if a != "" then a else b
  }

  /** The rule of one file; the found variant, if any, supplies the style
      and weight (`variant?.style || …`, `variant?.weight || …`). */
  function FileRule(fd: FontData, file: DownloadedFile, relative: string -> string): string {
    var style := StyleOf(file.url);
    var weight := WeightOf(file.url);
    var found := FindVariant(fd.variants, weight, style);
    var styleText := if found.Some? then OrElse(StyleName(found.value.style), StyleName(style)) else StyleName(style);
    var weightText := if found.Some? then OrElse(found.value.weight, weight) else weight;
    Rule(fd.family, styleText, weightText, relative(file.filepath))
  }

  /** The warning a file raises, if any. */
  function FileWarning(fd: FontData, file: DownloadedFile): Option<Warning> {
    var style := StyleOf(file.url);
    var weight := WeightOf(file.url);
    if FindVariant(fd.variants, weight, style).None? then Some(Warning(weight, style)) else None
  }

  function Rules(fd: FontData, files: seq<DownloadedFile>, relative: string -> string): (rules: seq<string>)
    ensures |rules| == |files|
    ensures forall k :: 0 <= k < |files| ==> rules[k] == FileRule(fd, files[k], relative)
  {
    if files == [] then [] else [FileRule(fd, files[0], relative)] + Rules(fd, files[1..], relative)
  }

  function Warnings(fd: FontData, files: seq<DownloadedFile>): seq<Warning> {
    if files == [] then []
    else
      match FileWarning(fd, files[0])
      case Some(w) => [w] + Warnings(fd, files[1..])
      case None => Warnings(fd, files[1..])
  }

  /** The stylesheet for the downloaded files: one `@font-face` rule per file,
      in file order and separated by a blank line, and one warning per file
      whose weight and style no requested variant has. */
  function GenerateCss(fd: FontData, files: seq<DownloadedFile>, relative: string -> string): (r: Css)
    ensures files == [] ==> r.text == ""
    ensures r.text == Join(Templates(fd.family, files, relative), "\n\n")
    ensures forall k :: 0 <= k < |files| ==>
      Contains(r.text, Rule(fd.family, StyleName(StyleOf(files[k].url)), WeightOf(files[k].url), relative(files[k].filepath)))
    ensures |r.warnings| <= |files|
    ensures r.warnings == [] <==>
      forall k :: 0 <= k < |files| ==>
        exists j :: 0 <= j < |fd.variants| && fd.variants[j] == Variant(WeightOf(files[k].url), StyleOf(files[k].url))
  {
    WarningsExact(fd, files);
    RulesInText(fd, files, relative);
    RulesAreTemplates(fd, files, relative);
    Css(Join(Rules(fd, files, relative), "\n\n"), Warnings(fd, files))
  }

  /** The rules as the template filled from each file alone: the family,
      the style and weight its URL names, and its relative path, in file
      order. */
  function Templates(family: string, files: seq<DownloadedFile>, relative: string -> string): (ts: seq<string>)
    ensures |ts| == |files|
  {
    seq(|files|, k requires 0 <= k < |files| =>
      Rule(family, StyleName(StyleOf(files[k].url)), WeightOf(files[k].url), relative(files[k].filepath)))
  }

  /** The emitted rules are the templates: whatever variants were requested,
      none is dropped, merged, reordered or added. */
  lemma RulesAreTemplates(fd: FontData, files: seq<DownloadedFile>, relative: string -> string)
    ensures Rules(fd, files, relative) == Templates(fd.family, files, relative)
  {
    forall k | 0 <= k < |files|
      ensures Rules(fd, files, relative)[k] == Templates(fd.family, files, relative)[k]
    {
      FileRuleIgnoresVariants(fd, files[k], relative);
    }
  }

  /** The stylesheet text holds the rule of every file, whatever the
      requested variants. */
  lemma RulesInText(fd: FontData, files: seq<DownloadedFile>, relative: string -> string)
    ensures forall k :: 0 <= k < |files| ==>
      Contains(Join(Rules(fd, files, relative), "\n\n"),
        Rule(fd.family, StyleName(StyleOf(files[k].url)), WeightOf(files[k].url), relative(files[k].filepath)))
  {
    forall k | 0 <= k < |files|
      ensures Contains(Join(Rules(fd, files, relative), "\n\n"),
        Rule(fd.family, StyleName(StyleOf(files[k].url)), WeightOf(files[k].url), relative(files[k].filepath)))
    {
      FileRuleIgnoresVariants(fd, files[k], relative);
      JoinContains(Rules(fd, files, relative), "\n\n", k);
    }
  }

  // ---------------------------------------------------------------------
  // Properties

  /** No files, no text and no warnings. */
  lemma NoFiles(fd: FontData, relative: string -> string)
    ensures GenerateCss(fd, [], relative) == Css("", [])
  {
  }

  /** A rule is the template filled with the family, the derived style and
      weight, and the relative path: the variants never change its text. */
  lemma FileRuleIgnoresVariants(fd: FontData, file: DownloadedFile, relative: string -> string)
    ensures FileRule(fd, file, relative)
      == Rule(fd.family, StyleName(StyleOf(file.url)), WeightOf(file.url), relative(file.filepath))
  {
    var style := StyleOf(file.url);
    var weight := WeightOf(file.url);
    var found := FindVariant(fd.variants, weight, style);
    if found.Some? {
      assert found.value == Variant(weight, style);
      assert StyleName(style) != "";
    }
  }

  /** The text depends on the family and the files only, not on the
      requested variants (nor on the scraped URLs). */
  lemma TextIgnoresVariants(fd1: FontData, fd2: FontData, files: seq<DownloadedFile>, relative: string -> string)
    requires fd1.family == fd2.family
    ensures GenerateCss(fd1, files, relative).text == GenerateCss(fd2, files, relative).text
  {
    var r1, r2 := Rules(fd1, files, relative), Rules(fd2, files, relative);
    forall k | 0 <= k < |files|
      ensures r1[k] == r2[k]
    {
      FileRuleIgnoresVariants(fd1, files[k], relative);
      FileRuleIgnoresVariants(fd2, files[k], relative);
    }
    assert r1 == r2;
  }

  /** There are never more warnings than files, and none exactly when every
      file has a requested variant of its weight and style. */
  lemma {:induction false} WarningsExact(fd: FontData, files: seq<DownloadedFile>)
    ensures |Warnings(fd, files)| <= |files|
    ensures Warnings(fd, files) == [] <==>
      forall k :: 0 <= k < |files| ==>
        exists j :: 0 <= j < |fd.variants| && fd.variants[j] == Variant(WeightOf(files[k].url), StyleOf(files[k].url))
  {
    if files != [] {
      WarningsExact(fd, files[1..]);
      var f := files[0];
      var found := FindVariant(fd.variants, WeightOf(f.url), StyleOf(f.url));
      if found.None? {
        assert !exists j :: 0 <= j < |fd.variants| && fd.variants[j] == Variant(WeightOf(f.url), StyleOf(f.url));
      } else {
        assert forall k :: 1 <= k < |files| ==> files[k] == files[1..][k - 1];
        assert forall k :: 0 <= k < |files| - 1 ==> files[1..][k] == files[k + 1];
      }
    }
  }

  /** A file raises a warning exactly when no requested variant has the
      weight and the style its URL names. */
  lemma FileWarningIff(fd: FontData, file: DownloadedFile)
    ensures FileWarning(fd, file).Some? <==>
      forall j :: 0 <= j < |fd.variants| ==> fd.variants[j] != Variant(WeightOf(file.url), StyleOf(file.url))
    ensures FileWarning(fd, file).Some? ==>
      FileWarning(fd, file).value == Warning(WeightOf(file.url), StyleOf(file.url))
  {
  }

  /** The weight is the digit run of the leftmost `[,.]digits[,.]`. */
  lemma WeightOfMatch(p: string, digits: string, open: char, close: char, q: string)
    requires forall j :: 0 <= j < |p| ==> WeightAt((p + [open] + digits + [close] + q)[j..]).None?
    requires IsSeparator(open) && IsSeparator(close)
    requires |digits| > 0 && forall k :: 0 <= k < |digits| ==> IsDigit(digits[k])
    ensures WeightOf(p + [open] + digits + [close] + q) == digits
  {
    var url := p + [open] + digits + [close] + q;
    var s := url[|p|..];
    assert s == [open] + digits + [close] + q;
    assert s[1..] == digits + [close] + q;
    DigitPrefixStops(digits, close, q);
    assert WeightAt(s) == Some(digits);
  }

  lemma {:induction false} DigitPrefixStops(digits: string, c: char, rest: string)
    requires forall k :: 0 <= k < |digits| ==> IsDigit(digits[k])
    requires !IsDigit(c)
    ensures DigitPrefix(digits + [c] + rest, 10) == digits
  {
    if digits == [] {
      assert (digits + [c] + rest)[0] == c;
    } else {
      assert (digits + [c] + rest)[1..] == digits[1..] + [c] + rest;
      DigitPrefixStops(digits[1..], c, rest);
    }
  }

  /** A URL without `,` or `.` names the default weight, 400. */
  lemma DefaultWeightWithoutSeparator(url: string)
    requires ',' !in url && '.' !in url
    ensures WeightOf(url) == DefaultWeight
  {
    forall j | 0 <= j <= |url|
      ensures WeightAt(url[j..]).None?
    {
      if j < |url| {
        assert url[j..][0] == url[j];
      }
    }
  }
}

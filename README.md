# fastfont: a verified model of the font-installation core

fastfont is a command-line tool. It takes a Google Fonts CSS2 request URL and downloads the `.woff2` files of the requested family. It then writes an `@font-face` stylesheet for them and registers the family in a Tailwind config. This project models the four pieces of decision and string logic at its core, and proves properties of them in Dafny:

- **The request parser** (`Parser`, with `Uri` and `Text`):
  - checks that the URL names the `fonts.googleapis.com/css2` endpoint;
  - extracts the family after `family=` and percent-decodes it the way `decodeURIComponent` does (`+` stays a `+`);
  - expands the `ital,wght@` axis list into an ordered list of `{weight, style}` variants, with `start..end` ranges stepped by 100;
  - scrapes the `fonts.gstatic.com` `.woff2` URLs out of the stylesheet the request returns.

  The variant expansion is a method with loops, proved against a function that specifies it.
- **The stylesheet emitter** (`Generator`):
  - writes one `@font-face` rule per downloaded file, in order;
  - takes the style from an `italic` substring test and the weight from the first `[,.]digits[,.]` run of the file URL;
  - returns, beside the text, the warnings for files that match no requested variant.
- **The project-type classifier and path table** (`Paths`):
  - picks the first framework in the order next, gatsby, vite, angular, react, vue that a config file or a dependency signals;
  - falls back to `node`, or to `unknown` without `package.json`;
  - maps the type to the default font directory, stylesheet and config file.
- **The Tailwind config update** (`Config`, with `Js`):
  - skips a config file whose text already mentions the family;
  - otherwise loads the config, or starts from a fixed default;
  - creates whichever of `theme`, `theme.extend` and `theme.extend.fontFamily` is missing;
  - sets the family's entry and returns the text to write.

  `Js` gives JavaScript values, truthiness and the property reads and writes of a sloppy-mode script, including the TypeErrors of `null` and `undefined`. The update is a method that reassigns the config statement by statement, proved equal to a level-by-level specification `Install`.

Everything outside the process is an argument: the stylesheet response, the existing files, the loaded `package.json` and config, `path.relative` and `JSON.stringify`. A thrown error is an `Err` carrying its message. Each operation's error message is the one the program produces, including its `Failed to … : ` prefix.

Four behaviours of the code that the model keeps:
- A request without an axis list gets no variants; there is no default 400.
- A plain `wght@` axis yields no variants.
- A range with a non-numeric bound yields nothing rather than an error.
- The emitter neither groups the rules nor falls back to other formats.

## Model

| member | source | states |
|---|---|---|
| Text.IndexOf | src/parser.js:6 | `indexOf`: the result is an occurrence at or after `from`, and no occurrence lies before it; none means none at all |
| Text.ContainsIff | src/parser.js:6 | `includes` holds exactly when the substring occurs at some index |
| Text.MissingFirstChar | src/generator.js:8 | a string lacking the first character of `sub` does not include `sub` |
| Text.Split | src/parser.js:16 | `split` gives at least one piece, and exactly one when the separator does not occur |
| Text.SplitJoin | src/parser.js:23 | no piece of a split contains the separator, and joining the pieces with it gives the input back |
| Text.SplitAt | src/parser.js:26 | a string splits at the first occurrence of the separator |
| Text.SplitNone | src/parser.js:26 | a string without the separator's first character splits into itself |
| Text.FirstCharMismatch | src/parser.js:22 | a string whose first character differs from a prefix's does not start with that prefix |
| Text.ToLowerAscii | src/config.js:36 | `toLowerCase` keeps the length and maps each character by itself: an ASCII capital to its small letter, any other character unchanged (the ASCII part of JavaScript's mapping) |
| Text.NatToString | src/parser.js:33 | `toString` of a natural number is a non-empty run of decimal digits without a leading zero |
| Text.IntToString | src/parser.js:33 | `toString` of an integer is made of digits and a minus sign |
| Text.NatToStringValue | src/parser.js:33 | the digits `toString` writes have the number's value |
| Text.TrimStart | src/parser.js:31 | `parseInt`'s white-space skip drops a prefix made only of white space and yields the suffix after it, which starts with no white space |
| Text.DigitPrefix | src/parser.js:31 | the digit run `parseInt` reads is the longest prefix of its input made only of digits of the radix |
| Text.DigitPrefixOfDigits | src/parser.js:31 | a string of decimal digits is read whole |
| Text.ParseInt | src/parser.js:31 | `parseInt` of blank text, or of text that starts with neither white space, a sign nor a digit, is NaN |
| Text.Contains | src/parser.js:6 | `includes` needs the substring to be no longer than the text, and holds for any prefix |
| Text.ContainsInPrefix | src/parser.js:6 | what a prefix includes, the whole text includes |
| Text.ContainsInSuffix | src/parser.js:56 | what a suffix includes, the whole text includes |
| Text.JoinContains | src/generator.js:29 | `join` keeps every piece in the joined text |
| Text.ReadDecimal | src/parser.js:31 | a non-empty digit string reads as its decimal value |
| Text.ParseIntOfDigits | src/parser.js:31-33 | `parseInt` of the rendering of a natural number gives that number |
| Text.ParseSignedNegative | src/parser.js:31 | a minus sign before a readable magnitude negates it |
| Text.ParseIntOfIntToString | src/parser.js:31-33 | `parseInt` reads back what integer `toString` writes, negative numbers included |
| Uri.PercentDecode | src/parser.js:17 | `decodeURIComponent` leaves a string without `%` unchanged |
| Uri.DecodeEscape | src/parser.js:17 | one decoded escape sequence consumes between 3 characters and the rest of the input |
| Uri.Utf8 | src/parser.js:17 | a character's UTF-8 encoding is one to four octets |
| Uri.EscapeAll | src/parser.js:17 | each octet becomes one three-character `%XX` triplet |
| Uri.DecodeEscapedChar | src/parser.js:17 | the `%XX` escapes of a character's UTF-8 octets decode to that character, consuming all of them |
| Uri.DecodeValid | src/parser.js:17 | triplets forming a valid shortest UTF-8 sequence for a character decode to that character |
| Uri.PercentEncode | src/parser.js:17 | `encodeURIComponent`, the inverse `decodeURIComponent` undoes, never shortens its input, writes only unreserved characters and `%`, and leaves text of unreserved characters unchanged |
| Uri.EncodedAlphabet | src/parser.js:17 | an encoded character is made of unreserved characters and `%` only |
| Uri.EscapedAlphabet | src/parser.js:17 | `%XX` triplets are made of `%` and upper-case hex digits, which are unreserved |
| Uri.DecodeEncodeStep | src/parser.js:17 | an encoded character followed by decodable text decodes to the character followed by that text's decoding |
| Uri.DecodeEncode | src/parser.js:17 | `decodeURIComponent` undoes `encodeURIComponent` for every string, so the decoded family is never altered beyond its escapes |
| Parser.TakeUntil | src/parser.js:11 | `[^&]+` stops before the first `&` or at the end |
| Parser.TakeUntilAll | src/parser.js:11 | the run takes all of a text without `&` that is followed by `&` or nothing |
| Parser.TakeUntilStops | src/parser.js:11 | the run stops exactly at the first `&` |
| Parser.FamilyMatch | src/parser.js:11 | the family pattern's match is the leftmost one |
| Parser.FamilyCapture | src/parser.js:11-14 | no capture exactly when `family=` is never followed by a non-`&` character; a capture is non-empty, holds no `&`, follows the `family=` of the leftmost match, and runs up to the next `&` or the end of the URL |
| Parser.SplitFamily | src/parser.js:16 | a capture without `:` is all family; with a `:` there are settings, the capture starts with family, `:` and settings, and neither piece holds a `:` |
| Parser.SplitFamilyPlain | src/parser.js:16-17 | a capture without `:` is all family and has no settings |
| Parser.SplitFamilySettings | src/parser.js:16 | the settings are the text after the first `:` |
| Parser.SplitFamilyIgnoresRest | src/parser.js:16 | nothing after a second `:` is used |
| Parser.RangeVariants | src/parser.js:31-35 | a range is empty exactly when its start exceeds its end, and every variant has the set's style |
| Parser.WeightVariants | src/parser.js:29-43 | every variant has the set's style; without `..` there is one variant per comma-separated weight, in order, so never none |
| Parser.VariantsOf | src/parser.js:20-25 | without settings or with settings not starting `ital,wght@` there are no variants; the only failure is the TypeError of a set without comma |
| Parser.Tag | src/parser.js:38-43 | one variant per weight, in order, all of the set's style |
| Parser.SetVariants | src/parser.js:26-44 | a set fails only with the TypeError of reading `includes` of undefined |
| Parser.ExpandSets | src/parser.js:25-45 | a list of sets fails only with that same TypeError |
| Parser.ExpandVariants | src/parser.js:20-46 | the loop over the sets produces exactly the specified variant list, or the error of the first bad set |
| Parser.ExpandSet | src/parser.js:26-44 | the range loop and the weight loop append exactly the set's variants to the list, or fail with the set's error |
| Parser.AppendRange | src/parser.js:31-36 | the `for` loop appends exactly the range from start to end, stepped by 100, to the list it is given |
| Parser.AppendWeights | src/parser.js:38-43 | the `forEach` appends exactly one variant per listed weight, in order, to the list it is given |
| Parser.ExpandSetsAppend | src/parser.js:25-45 | sets are expanded left to right and their variants concatenated in input order, with no sorting or deduplication |
| Parser.ExpandSetsFailure | src/parser.js:25-45 | once a set fails, later sets do not matter |
| Parser.ExpandSetsStep | src/parser.js:25-45 | the variants of the first i + 1 sets extend those of the first i by set i's |
| Parser.ExpandSetsStops | src/parser.js:25-45 | a failure among the first n sets is the failure of the whole list |
| Parser.RangeVariantsCount | src/parser.js:31 | a range `s..e` has floor((e - s) / 100) + 1 variants when s <= e, and none otherwise |
| Parser.RangeVariantsAt | src/parser.js:31-35 | the k-th variant of a range has weight s + 100k rendered in decimal, which is at most e |
| Parser.SingleSet | src/parser.js:26-43 | a set `f,w` yields exactly one variant, with weight `w` verbatim and style italic iff `f` is `1` |
| Parser.SetIgnoresAfterSecondComma | src/parser.js:26 | only the text between the first and second comma of a set is read |
| Parser.SetWithoutComma | src/parser.js:26-29 | a set without a comma leaves `weights` undefined, and the parse fails |
| Parser.RangeSet | src/parser.js:29-36 | a set `f,s..e` with numeric bounds yields the range from s to e |
| Parser.RangeWeights | src/parser.js:29-31 | weights `a..b` whose bounds parse as s and e give the range from s to e |
| Parser.NumberText | src/parser.js:33 | a rendered integer holds neither `,` nor `.` |
| Parser.RangeText | src/parser.js:30 | `s..e` splits at its `..` into its two bounds |
| Parser.SetText | src/parser.js:26 | `f,w` splits into its flag and its weights |
| Parser.ParseIntOfLetter | src/parser.js:31 | `parseInt` of text starting with a letter is NaN |
| Parser.NonNumericRange | src/parser.js:29-31 | a range either of whose bounds `parseInt` reads as NaN yields no variant and no error |
| Parser.LetterRange | src/parser.js:29-31 | in particular a range whose start begins with a letter |
| Parser.OneSet | src/parser.js:22-25 | an axis list of one set yields that set's variants |
| Parser.ItalicBoldExample | src/parser.js:22-43 | `ital,wght@1,700` requests exactly the italic cut of weight 700 |
| Parser.PlainWeightAxis | src/parser.js:22 | a `wght@` axis list is not read and yields no variants |
| Parser.ParseRequest | src/parser.js:6-46 | without the endpoint the parse fails as an invalid URL; without a family match it fails as missing a family; it fails as a malformed URI exactly when the family text before the first `:` does not decode; no other errors than those and a set without comma |
| Parser.RequestRoundTrip | src/parser.js:6-46 | a URL holding the endpoint, then `family=` with an encoded family, `:` and settings, then nothing or `&…`, parses to exactly that family and the variants of those settings, or fails with the set-without-comma error those settings give |
| Parser.PlainRequestRoundTrip | src/parser.js:6-22 | a URL holding the endpoint, then `family=` and an encoded family, then nothing or `&…` (as in `family=Inter&display=swap`), parses to exactly that family with no requested variants |
| Parser.RequestCapture | src/parser.js:6-16 | such a URL passes the endpoint test, and its capture is the encoded family, `:` and the settings |
| Parser.CaptureAt | src/parser.js:11 | when the first match follows a given prefix, the capture is the `&`-free text after its `family=` |
| Parser.EndpointKept | src/parser.js:6 | text after the endpoint does not hide it |
| Parser.EncodedFamily | src/parser.js:11-17 | an encoded family is non-empty and holds neither `&` nor `:` |
| Parser.ParseRequestParts | src/parser.js:6-46 | a URL with the endpoint whose capture splits into a decodable family and settings parses to that family and those settings' variants |
| Parser.Woff2At | src/parser.js:56-57 | a match at a position yields URL text the pattern accepts, which is exactly the text between the leading `url(` and the next `)` |
| Parser.ExtractWoff2Urls | src/parser.js:56-57 | every scraped URL starts with `https://fonts.gstatic.com`, contains `.woff2` and holds no `)`; that each comes from the stylesheet is ExtractProvenance, and that none is missed is ExtractSheet |
| Parser.ExtractProvenance | src/parser.js:56-57 | every scraped URL comes from a `url(…)` call the stylesheet includes |
| Parser.MatchInText | src/parser.js:56-57 | a match is a `url(…)` call the stylesheet includes |
| Parser.UrlsInSuffix | src/parser.js:56 | calls included in a suffix are included in the stylesheet |
| Parser.FoundInText | src/parser.js:56-57 | a match followed by calls of the rest of the stylesheet are all calls the stylesheet includes |
| Parser.ExtractSkips | src/parser.js:56 | text in which no match starts is skipped |
| Parser.NoUrlStart | src/parser.js:56 | text in which every `u` is followed by a character other than `r` starts no match |
| Parser.ExtractOne | src/parser.js:56-57 | a `url(…)` whose content the pattern accepts is scraped whole, with `url(` and `)` stripped |
| Parser.NoMatchOutsideUrl | src/parser.js:56 | the text around a `src` line's URL starts no match |
| Parser.ExtractSrcLine | src/parser.js:56-57 | a `src` line yields its URL and nothing else |
| Parser.ExtractSrcLines | src/parser.js:56-57 | a stylesheet of `src` lines yields exactly the URLs it declares, in order |
| Parser.ExtractSheet | src/parser.js:56-57 | for any stylesheet whose text outside its accepted `url(…)` calls starts no match, the scraper returns exactly those calls' URLs, in order |
| Parser.ExtractSheetStep | src/parser.js:56-57 | text starting no match, then an accepted call, then the rest, scrapes to the call's URL and then the rest's URLs |
| Parser.ParseGoogleFontUrl | src/parser.js:3-72 | success iff the request parses, the fetch succeeds and a URL is scraped; the result holds the decoded family, the URLs and the variants; every failure carries `Failed to parse Google Font URL: ` and the first failing step's message, `No WOFF2 files found` included |
| Generator.WeightAt | src/generator.js:9 | a match at a position captures a non-empty digit run |
| Generator.DigitBelowTen | src/generator.js:9 | a character of decimal value below ten is a digit |
| Generator.WeightMatch | src/generator.js:9 | the weight pattern's match is the leftmost one |
| Generator.WeightOf | src/generator.js:9-10 | the weight is always a non-empty digit string |
| Generator.FindVariant | src/generator.js:13-16 | `find` gives nothing exactly when no variant has the derived weight and style, and otherwise a variant equal to them |
| Generator.Rules | src/generator.js:4-28 | one rule per file, the k-th rule from the k-th file |
| Generator.GenerateCss | src/generator.js:3-32 | the text is exactly the rules of the files, each the template filled with the family, its URL's style and weight and its relative path, joined by a blank line in file order, so no files give empty text;  there are never more warnings than files, and none exactly when every file has a requested variant |
| Generator.RulesAreTemplates | src/generator.js:4-29 | the emitted rules are the file-by-file templates: none is dropped, merged, reordered or added, whatever the variants |
| Generator.RulesInText | src/generator.js:4-29 | the joined text holds the rule of every file, whatever the variants |
| Generator.NoFiles | src/generator.js:29 | no files give the empty text and no warning |
| Generator.FileRuleIgnoresVariants | src/generator.js:22-28 | a rule is the template filled with the quoted family, the URL's style and weight, `swap` and `url('../' + relative path) format('woff2')` |
| Generator.TextIgnoresVariants | src/generator.js:13-29 | the emitted text does not depend on the requested variants |
| Generator.WarningsExact | src/generator.js:18-20 | there are no warnings exactly when every file has a matching variant, and never more warnings than files |
| Generator.FileWarningIff | src/generator.js:18-20 | a file warns exactly when no variant has its weight and style, and the warning names them |
| Generator.WeightOfMatch | src/generator.js:9-10 | the weight is the digit run of the leftmost `[,.]digits[,.]` |
| Generator.DigitPrefixStops | src/generator.js:9 | the greedy digit run ends at the first non-digit |
| Generator.DefaultWeightWithoutSeparator | src/generator.js:10 | a URL without `,` or `.` gets weight `400` |
| Js.Get | src/config.js:32-34 | reading a property throws exactly on null and undefined, with V8's message; an object or array gives its own property or undefined, any other value undefined |
| Js.OptGet | bin/paths.js:13 | `?.[key]` gives undefined on null and undefined, and the plain read otherwise |
| Js.Put | src/config.js:32-36 | writing throws exactly on null and undefined; an object or array gets the key set and keeps everything else; any other value is left as it was |
| Js.GetAfterPut | src/config.js:36 | reading back a written key of an object gives the written value |
| Js.PutOwn | src/config.js:32-34 | writing back a key's own value changes nothing |
| Js.PutTwice | src/config.js:32-36 | a second write to a key replaces the first |
| Paths.Depends | bin/paths.js:13-18 | the dependency test throws exactly when the package is null or undefined, and otherwise holds iff `dependencies` or `devDependencies` has a truthy entry |
| Paths.DetectProjectType | bin/paths.js:4-22 | the type is `unknown` exactly without `package.json`; a `require` failure is detection's failure; with a loadable non-null package detection does not throw (stated in Paths.DetectIsFirstSignalled) |
| Paths.FirstSignalled | bin/paths.js:13-19 | the reference rule returns a type from the priority order, or `node` |
| Paths.StepSignalled | bin/paths.js:13-18 | one test of the chain is exactly whether the type is signalled |
| Paths.NoPackageJson | bin/paths.js:10-21 | without `package.json` the type is `unknown`, whatever config files exist |
| Paths.DetectIsFirstSignalled | bin/paths.js:13-19 | with a loadable non-null package, the type is the first signalled one of next, gatsby, vite, angular, react, vue, else `node` |
| Paths.NextConfigWins | bin/paths.js:6-13 | a next config file gives `next` without reading the package |
| Paths.DependencyOnly | bin/paths.js:16-18 | angular, react and vue are detected only through a dependency |
| Paths.NullPackage | bin/paths.js:11-13 | a `package.json` that is `null` makes detection throw, unless a next config answers first |
| Paths.UnloadablePackage | bin/paths.js:11 | a `require` failure of `package.json` is detection's failure |
| Paths.PathsFor | bin/paths.js:26-54 | every type's config file is `tailwind.config.js`, and exactly `node` and `unknown` keep the default paths |
| Paths.DefaultPathsOf | bin/paths.js:26-54 | the field overwrites of the switch give the table's paths, and the config file is always `tailwind.config.js` |
| Paths.GetDefaultPaths | bin/paths.js:24-57 | the paths are the table's entry for the detected type, and a detection error propagates unchanged |
| Paths.ConfigFileFixed | bin/paths.js:29 | every type's config file is `tailwind.config.js` |
| Paths.FallbackTypesKeepDefaults | bin/paths.js:26-54 | the defaults `fonts` and `styles/fonts.css` are kept exactly for `node` and `unknown` |
| Paths.PublicFonts | bin/paths.js:33-49 | exactly next, react, vite and vue use `public/fonts`, and react and vite share every path |
| Config.Install | src/config.js:32-36 | the level-by-level update keeps an object an object and leaves any other value unchanged |
| Config.Prepare | src/config.js:32-34 | `if (!v[p]) v[p] = {}` leaves a readable value readable, gives an object a truthy `p`, and leaves any other value as it was |
| Config.ConfigUpdate | src/config.js:9-19 | the update skips exactly when the file exists and its text includes the family; a `require` failure is its failure |
| Config.EnsureLevel | src/config.js:32-34 | `if (!v.p1…pn) v.p1…pn = {}` throws exactly when the chain cannot be read, with the read's message; a truthy level leaves the config unchanged; when the last parent is an object, the level is truthy afterwards |
| Config.ReadLast | src/config.js:32-34 | reading a member chain is reading its last member from the object the rest reaches |
| Config.WriteAfterRead | src/config.js:32-36 | an assignment to a chain that can be read succeeds, and when the last parent is an object the chain then reads the assigned value |
| Config.EnsureExtend | src/config.js:33 | the statement creating `theme.extend` throws exactly when `theme` cannot be read from, and otherwise changes `theme` at most by giving it a truthy `extend` |
| Config.EnsureFontFamily | src/config.js:34 | the statement creating `fontFamily` throws exactly when `theme.extend` cannot be read from, and otherwise changes `extend` at most by giving it a truthy `fontFamily` |
| Config.AddFontFamily | src/config.js:32-36 | the three statements and the assignment, run on the reassigned config, are exactly `Install` along `theme.extend.fontFamily` |
| Config.SequentialIsInstall | src/config.js:32-36 | running the statements one after another equals `Install`, errors included |
| Config.Fresh | src/config.js:32-36 | a created level is an object |
| Config.InstallFresh | src/config.js:32-36 | from an empty object the update builds a chain of new objects holding only the entry |
| Config.ReadFresh | src/config.js:36 | that chain holds the entry under the path and the key |
| Config.ReadThroughContainer | src/config.js:32-34 | a chain reaching an object passes only through objects |
| Config.InstallThroughTruthy | src/config.js:32-36 | a truthy level of an object is kept and the updated level is written back into it |
| Config.InstallSetsKey | src/config.js:36 | after a successful update the entry is under `theme.extend.fontFamily[key]`, unless that level was a truthy primitive |
| Config.InstallIgnoredOnPrimitive | src/config.js:34-36 | when that level is a truthy primitive, the update changes nothing |
| Config.InstallKeepsOthers | src/config.js:32-36 | every other key of an existing level keeps its value |
| Config.InstallCreatesMissing | src/config.js:32-34 | a missing (falsy) level is replaced by a chain of new objects holding only the entry |
| Config.InstallIdempotent | src/config.js:32-36 | running the update again on its result changes nothing |
| Config.AbsentFile | src/config.js:20-36 | without a file, the result is the default config with the entry as the only key of a new `fontFamily` |
| Config.UpdateSetsEntry | src/config.js:19-36 | a loaded config ends up with `["'" + family + "'", "sans-serif"]` under the lower-cased family |
| Config.FamilyKeyExample | src/config.js:36 | no decoding happens: `Fira+Code` gets the key `fira+code` |
| Config.UpdateTailwindConfig | src/config.js:4-45 | the result is `Ok(None)` on a skip; otherwise it is `module.exports = ` followed by the rendering of the updated config, or the failure with the prefix `Failed to update Tailwind config: ` |

## Left out

- src/downloader.js, src/index.js and bin/cli.js are not part of this model. The downloader's `{url, filepath}` records are the emitter's input.
- The HTTP GET of the stylesheet is not modelled. Its outcome (the CSS text or the request error's message) is the `response` argument of `Parser.ParseGoogleFontUrl`.
- `console.log` and `console.warn` are not modelled. The emitter returns its warnings beside the text.
- `path.relative`, `JSON.stringify(…, null, 2)` and `require` run code outside this model:
  - the first two are function arguments;
  - `require`'s outcome (the loaded value or its error message) is an input;
  - the module cache of `require` is not modelled.
- The filesystem is modelled only through arguments: existence checks, `readFile` and `writeFile`.
  - Existence is the set of present file names, or the `Absent` config file.
  - The config's text is an input. Read errors are not modelled.
  - The write is the returned text. Write errors are not modelled.
  - `configPath` is the file the input describes.
- `async`/`await` is not modelled: every step runs in sequence.
- Config.FamilyKey: lower-cases ASCII letters only, because full Unicode case mapping has no counterpart in Dafny's `char`. Families outside ASCII may get a different key than `toLowerCase` gives.
- Text.ParseInt: reads integers exactly. Numbers beyond 2^53, where JavaScript loses precision, are not modelled, and neither is the exponent notation `toString` uses from 1e21 on.
- Js.Get: keys that name built-in properties are not modelled. Examples are `length` or `constructor`, or keys inherited through the prototype. Array elements are not reachable by index key. The keys the program reads name no such property.
- `JSON.stringify`'s key order is not modelled. It is insertion order, with integer-like keys first: a created `theme` goes last, and an overwritten entry keeps its place. Objects here are maps without order, and the rendering is the `stringify` argument.
- Function values in a loaded config (such as `plugins: [require(…)]`, or a function-valued `theme.extend`) are not modelled. `Js.Value` has no functions, and `JSON.stringify` would drop them.
- Parser.AppendRange: the `for` loop of the range runs over unbounded integers. In JavaScript, once `weight` passes 2^53, adding 100 no longer changes it, and a range ending beyond that never terminates. The model always stops at `end`.
- Text.ToLowerAscii: maps ASCII capitals only. The other case mappings of `toLowerCase` (non-ASCII letters, and the few that change length) have no counterpart here.
- Js.Put: objects are values, so the model cannot express aliasing. In a loaded config where two levels are the same object (for example `theme.extend` being `theme` itself), a write through one path would also show through the other in JavaScript; the model shows it only at the path written. The family key written at src/config.js:36 comes from the user; a key that lower-cases to `__proto__` would replace the level's prototype in JavaScript rather than add an own key, so `JSON.stringify` would not show it, while the model adds it as an ordinary key.
- Numbers in a loaded config or `package.json` are integers. JSON floats, NaN and infinities are not modelled.

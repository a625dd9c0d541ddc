# svg-foreignobject-screenshot: the resource-inlining core in Dafny

This project models the part of `svg-foreignobject-screenshot` that turns an
HTML fragment and the page's stylesheets into a self-contained SVG data URI.
It then proves properties of that model.

- `src/lib.ts` is modelled as pure functions.
  - The entity decoder `descape`.
  - The quote stripper `removeQuotes`.
  - The URL classifier (`isDataUrl`, `isEmptyString`, `filterer`).
  - The two regex extractors `getUrlsFromCss` and `getImageUrlsFromHtml`, both built on `take`.
- The deterministic steps of `buildSvgDataURI` in `src/index.ts`.
  - The same-origin stylesheet filter.
  - The nested loops that gather CSS text and CSS URLs.
  - The fetch-target choice (image proxy or direct) and the empty result on any failure.
  - The order-preserving fetch of a list of URLs.
  - The `replaceAll` substitution loops.
  - The SVG template and its data URI.

Files:

- `wrappers.dfy` (module `Wrappers`): the `Option` type.
- `lib.dfy` (module `Lib`): `src/lib.ts`.
  - The regexes are modelled as an explicit scanner.
  - `MatchHere` decides whether the lazy regex matches at the start of a text, and what it captures.
  - `FindAll` collects the leftmost non-overlapping matches, as `matchAll` does.
  - `/url\((.*?)\)/gi` is case-insensitive `url(`, then everything up to the first `)` on the same line.
  - `/<(?:img|image).*?(?:href|src)=(["|'])(.*?)(\1)/gm` is `<img` or `<image`, then the first `href=` or `src=` on the same line, then a quote from `"`, `|` or `'`, then everything up to the same character on that line.
  - `.` never matches `\n`, `\r`, U+2028 or U+2029.
- `string_ops.dfy` (module `StringOps`): `String.prototype.replaceAll` with two string arguments, as ECMA-262 defines it.
  - Search resumes after each occurrence, or one character later for an empty search value.
  - `$$`, `$&`, `` $` `` and `$'` are expanded in the replacement text.
  - This is proved equal to literal left-to-right replacement whenever the replacement text has no `$`.
- `inliner.dfy` (module `Inliner`): `src/index.ts`.
  - Everything the browser supplies is a field of the datatype `Host`: the page origin, `fetch` with its `FileReader` conversion, `encodeURIComponent`, the two `XMLSerializer` calls and `base64encode`.
  - The model is therefore a function of those capabilities.
- `lib_examples.dfy` (module `LibExamples`): the cases of `tests/main.ts`, proved as lemmas.

Some behaviours of the code that the model keeps:

- URLs are not deduplicated before fetching (src/index.ts:80-89). A URL found twice is fetched twice and substituted twice.
- `buildSvgDataURI` takes only the markup, the width and the height (src/index.ts:67-71). No `filterer` option and no hooks are applied.
- URLs found in the CSS are substituted only into the CSS text (src/index.ts:91-93). URLs found in the markup are substituted only into the markup (src/index.ts:95-100).
- The markup is never scanned with the CSS extractor (src/index.ts:95-97).
- The proxy choice looks only at the `http://`, `https://` and `//` prefixes (src/index.ts:33-38). No image-extension list is involved.
- The same-origin test is a text prefix test (src/index.ts:75-78). A sheet from `https://a.com.evil.net` passes it on the page `https://a.com`, and reading the rules of such a sheet throws, which rejects `buildSvgDataURI` (`Inliner.LookalikeOriginKept`, `Inliner.UnreadableKept`, `Inliner.BuildSvgDataUri`).
- The substitution is not idempotent (`StringOps.ReplaceAllNotIdempotent`). Deleting `ab` from `aabb` leaves `ab`, which a second pass deletes.

`src/index.ts:3-4` imports `getImageUrlsFromFromHtml` and `getUrlsFromCssString`. These are older names of `getImageUrlsFromHtml` and `getUrlsFromCss` in `src/lib.ts`, and the model treats them as the same functions.

## Model

| member | source | states |
|---|---|---|
| Lib.EntityAt | src/lib.ts:1-10 | which of the five entities of the table begins the text, with its length and character; none of them when the result is None |
| Lib.Descape | src/lib.ts:9-10 | the decoded text is never longer than the input |
| Lib.DescapeEntity | src/lib.ts:1-10 | each of `&quot;`, `&#39;`, `&amp;`, `&lt;`, `&gt;` becomes its character, and the text after it is decoded afresh |
| Lib.DescapePlain | src/lib.ts:9-10 | a character other than `&` is copied and decoding goes on after it |
| Lib.DescapePlainPrefix | src/lib.ts:9-10 | a prefix without `&` passes through unchanged |
| Lib.DescapeEntityWrapped | src/lib.ts:9-10 | text without `&` between two copies of an entity decodes to that text between two copies of its character |
| Lib.DescapeNoAmpersand | src/lib.ts:9-10 | a string without `&` is a fixed point |
| Lib.DescapeEscapeChar | src/lib.ts:1-10 | the HTML escape of any one character decodes to that character |
| Lib.DescapeEscape | src/lib.ts:1-10 | decoding inverts HTML escaping of the five characters, on every string |
| Lib.DescapeShrinks | src/lib.ts:9-10 | when some entity occurs, the output is strictly shorter |
| Lib.DescapeNoEntity | src/lib.ts:9-10 | without an entity the input is copied |
| Lib.DescapeFixedPoint | src/lib.ts:9-10 | decoding leaves a string unchanged if and only if no entity occurs in it |
| Lib.DescapePrefix | src/lib.ts:9-10 | a prefix made of characters no entity decodes to begins the decoded text only if it began the input |
| Lib.FindOnLine | src/lib.ts:32 | the lazy `.*?` followed by a character: a found index holds that character |
| Lib.FindOnLineFirst | src/lib.ts:32 | the found index is the first occurrence on the line; when none is found, every later occurrence is past a line terminator |
| Lib.FindOnLineFinds | src/lib.ts:32 | the first occurrence on the line is the one found |
| Lib.RemoveQuotes | src/lib.ts:37-41 | the result is the input, or the input with its first and last characters removed |
| Lib.RemoveQuotesLine | src/lib.ts:37-41 | on a string without line terminators, the quotes are removed if and only if the string has length at least 2 and starts and ends with the same quote `'` or `"` |
| Lib.RemoveQuotesWrapped | src/lib.ts:37-41 | a line-free text between two equal quotes comes back unquoted |
| Lib.FiltererChars | src/lib.ts:12-17 | `filterer` keeps a URL if and only if it is non-empty, does not start with `#` and does not start with `data:` |
| Lib.IsDataUrl | src/lib.ts:12-13 | defines `isDataUrl`: the URL starts with `data:` or `#`; `Lib.FiltererChars` states it on characters |
| Lib.IsEmptyString | src/lib.ts:15 | defines `isEmptyString`: the URL is the empty string |
| Lib.Filterer | src/lib.ts:17 | defines `filterer` as neither a data URL nor empty; `Lib.FiltererChars` states what it keeps |
| Lib.FilterUrls | src/lib.ts:22 | the kept URLs are exactly the input URLs that pass `filterer`, never more of them than there were |
| Lib.FilterUrlsCount | src/lib.ts:22 | each URL that passes `filterer` is kept as many times as it occurs, and one that fails is kept no times |
| Lib.FilterUrlsSubsequence | src/lib.ts:22 | the filter keeps input order |
| Lib.FilterUrlsAppend | src/lib.ts:22 | the filter distributes over concatenation |
| Lib.FilterUrlsHead | src/lib.ts:22 | the filter keeps or drops the first URL by `filterer` and goes on with the rest |
| Lib.CssMatchHere | src/lib.ts:32 | a CSS match begins with `url(` in any case, captures from after it up to a `)`, and consumes that `)` |
| Lib.TagEnd | src/lib.ts:26 | the tag name ends at index 4 exactly when the text starts with `<img` and at index 6 exactly when it starts with `<image`; there is no image match when it starts with neither |
| Lib.AttrValueStart | src/lib.ts:26 | a value starts after `href=` at `j` and one character of `["\|']`, 6 characters on, or after `src=` at `j` and such a character, 5 characters on |
| Lib.AttrAttempt | src/lib.ts:26 | a successful attempt has a value start and a closing quote inside the text |
| Lib.AttrSearch | src/lib.ts:26 | the position found is one where the attribute attempt succeeds |
| Lib.HtmlMatchHere | src/lib.ts:26 | an image match starts with `<img` or `<image` |
| Lib.MatchHere | src/lib.ts:26-32 | a match is non-empty and its capture lies inside it |
| Lib.FindAll | src/lib.ts:19-20 | `matchAll` yields at most one capture per input character |
| Lib.MapRemoveQuotes | src/lib.ts:22 | one unquoted capture per capture, in order |
| Lib.Take | src/lib.ts:19-23 | at most one URL per match; each URL passes `filterer` and is the unquoted capture of one match |
| Lib.TakeOrder | src/lib.ts:19-23 | the result is the filtered subsequence of the unquoted captures, in match order |
| Lib.GetImageUrlsFromHtml | src/lib.ts:25-29 | every image URL is non-empty and starts with neither `data:` nor `#` |
| Lib.GetUrlsFromCss | src/lib.ts:31-35 | every CSS URL is non-empty and starts with neither `data:` nor `#` |
| Lib.FindAllSkip | src/lib.ts:20 | positions where no match starts are passed over |
| Lib.TakeSkip | src/lib.ts:19-23 | text in which no match starts contributes no URL |
| Lib.CssNoMatchIn | src/lib.ts:32 | no CSS match starts in text without `(` whose last three characters are not `u` or `U` |
| Lib.CssSkip | src/lib.ts:31-35 | `getUrlsFromCss` passes over such text |
| Lib.HtmlNoMatchIn | src/lib.ts:26 | no image match starts in text with no `<` after its first character and no `<i` at its start |
| Lib.HtmlNoMatchAt | src/lib.ts:26 | no image match starts at text that does not begin with `<i` |
| Lib.HtmlSkip | src/lib.ts:25-29 | `getImageUrlsFromHtml` passes over such text |
| Lib.FindAllNone | src/lib.ts:20 | text in which no match starts yields no capture |
| Lib.AttrSearchFirst | src/lib.ts:26 | the lazy `.*?` after the tag name stops at the first position on the line where the attribute part succeeds, and fails only when no position on the line would do |
| Lib.AttrSearchFound | src/lib.ts:26 | a position the lazy search finds is on the line of the search start, and the attribute part fails at every earlier position |
| Lib.LineFreeCons | src/lib.ts:26 | a stretch with no line terminator stays so when extended on the left by a character that is not one |
| Lib.AttrSearchNone | src/lib.ts:26 | when the lazy search fails, the attribute part fails at every position on the line |
| Lib.CssMatchShape | src/lib.ts:32 | a CSS capture holds no `)` and no line terminator |
| Lib.CssCaptureShape | src/lib.ts:32 | no CSS capture holds a `)` or a line terminator |
| Lib.HtmlMatchShape | src/lib.ts:26 | an image capture lies between two equal quote characters from `["\|']`, holds no such quote and no line terminator |
| Lib.HtmlCaptureShape | src/lib.ts:26 | no image capture holds a line terminator |
| Lib.HtmlWithoutImageTag | src/lib.ts:25-29 | markup without `<img` or `<image` yields no URL, for instance an `<a href=...>` alone |
| Lib.FindAllStep | src/lib.ts:20 | a match at the start is reported first, and the search goes on right after it |
| Lib.TakeLeading | src/lib.ts:19-23 | a leading match contributes its unquoted capture if it passes the filter, followed by the URLs of the rest: left to right, duplicates kept |
| Lib.CssUrlTokenMatch | src/lib.ts:32 | `url(w)` is one whole match capturing `w` when `w` has no `)` and no line end |
| Lib.CssUrlToken | src/lib.ts:31-35 | `url(w)` followed by `t` yields the unquoted `w` (if it passes the filter) and then the URLs of `t` |
| Lib.CssQuotedToken | src/lib.ts:31-35 | `url('w')` and `url("w")` yield `w` without its quotes |
| Lib.CssQuoteStyles | src/lib.ts:31-35 | single, double or no quotes give the same result |
| Lib.TagEndAt | src/lib.ts:26 | the tag name ends after `<img` or `<image` |
| Lib.AttrValueStartAt | src/lib.ts:26 | `src=` or `href=` followed by a quote starts the value after the quote |
| Lib.AttrAttemptAt | src/lib.ts:26 | the attribute attempt succeeds with the first matching quote on the line |
| Lib.GapAttemptFails | src/lib.ts:26 | the attribute attempt fails at every position of a gap in which neither `src=` nor `href=` begins |
| Lib.AttrSearchGap | src/lib.ts:26 | the lazy search passes over such a gap without line terminators and goes on at its end |
| Lib.AttrFreeGapWithoutR | src/lib.ts:26 | gap text on one line without the letter `r` holds no `src=` and no `href=`, as both names have `r` second |
| Lib.GapOfText | src/lib.ts:26 | gap text holding no `src=` or `href=`, followed by `src=` or `href=`, gives no attribute start in the whole text either |
| Lib.GapPositionFree | src/lib.ts:26 | the same for one attribute name at one position of the gap |
| Lib.ImageTokenMatch | src/lib.ts:26 | a tag, a gap in which no attribute name begins, an attribute and a quoted value form one image match capturing the value |
| Lib.HtmlMatchAt | src/lib.ts:26 | an image tag name ending at `a` and an attribute search from `a` that stops at a value give one image match at the start of the text |
| Lib.ImageTagMatch | src/lib.ts:26 | the match of the image token, with its capture and the rest of the text |
| Lib.HtmlImageToken | src/lib.ts:25-29 | `<img`/`<image`, a gap without `src=` or `href=` on one line, `src=`/`href=` and a quoted value yield the unquoted value (if it passes the filter) and then the URLs of the rest; the gap may hold other attributes, such as `class="…"`, and other names that end in `src=` or `href=`, such as `data-src=` and `xlink:href=` |
| LibExamples.RemoveQuotesSingleAroundDouble | tests/main.ts:13 | `removeQuotes('""')` is `""` |
| LibExamples.RemoveQuotesDoubleAroundSingle | tests/main.ts:14 | `removeQuotes("''")` is `''` |
| LibExamples.RemoveQuotesFourDouble | tests/main.ts:15 | `removeQuotes("""")` is `""` |
| LibExamples.RemoveQuotesFourSingle | tests/main.ts:16 | `removeQuotes('''')` is `''` |
| LibExamples.DescapeQuot | tests/main.ts:88 | `&quot;` decodes to `"` |
| LibExamples.DescapeApos | tests/main.ts:89 | `&#39;` decodes to `'` |
| LibExamples.DescapeAmp | tests/main.ts:90 | `&amp;` decodes to `&` |
| LibExamples.DescapeLt | tests/main.ts:91 | `&lt;` decodes to `<` |
| LibExamples.DescapeGt | tests/main.ts:92 | `&gt;` decodes to `>` |
| LibExamples.DescapeSinglePass | src/lib.ts:9-10 | `&amp;lt;` decodes to `&lt;`: replaced text is not re-examined |
| LibExamples.EmptyStringCase | tests/main.ts:96 | `isEmptyString('')` holds |
| LibExamples.DataUrlCases | tests/main.ts:100-101 | `data:image/svg+xml,<svg></svg>` and `#path` are data URLs |
| LibExamples.DescapeThenRemoveQuotes | tests/main.ts:104-106 | `removeQuotes(descape('&quot;stars.jpg&quot;'))` is `stars.jpg` |
| LibExamples.DeclarationUrl | src/lib.ts:31-35 | a declaration ending in `url(v)`, with `w` in any of the three quote styles, yields the filtered `[w]` |
| LibExamples.DeclarationDropped | src/lib.ts:31-35 | such a declaration whose value `filterer` drops yields no URL |
| LibExamples.DeclarationKept | src/lib.ts:31-35 | such a declaration whose value `filterer` keeps yields exactly that value |
| LibExamples.CssDataUrlSingleQuoted | tests/main.ts:74 | `background: url('data:image/svg+xml,')` yields no URL |
| LibExamples.CssDataUrlDoubleQuoted | tests/main.ts:75 | `background: url("data:image/svg+xml,")` yields no URL |
| LibExamples.CssDataUrlBare | tests/main.ts:76 | `background: url(data:image/svg+xml,)` yields no URL |
| LibExamples.CssGrapeSingleQuoted | tests/main.ts:77-79 | `background: url('./grape.jpg')` yields `['./grape.jpg']` |
| LibExamples.CssGrapeDoubleQuoted | tests/main.ts:80-82 | `background: url("./grape.jpg")` yields `['./grape.jpg']` |
| LibExamples.CssGrapeBare | tests/main.ts:83 | `background: url(./grape.jpg)` yields `['./grape.jpg']` |
| LibExamples.CssFragment | tests/main.ts:84 | `clip-path:url(#B)` yields no URL |
| LibExamples.ImageUrl | src/lib.ts:25-29 | one image tag with a double-quoted value, followed by text without URLs, yields the filtered value |
| LibExamples.SvgImageUrl | src/lib.ts:25-29 | the same for an `<image>` tag inside an `<svg>` element spread over several lines |
| LibExamples.HtmlFirst | tests/main.ts:20-23 | `<img src="https://example.com/first.jpg"/>` yields that URL |
| LibExamples.HtmlSecond | tests/main.ts:24-29 | `<img class="max-h-10" src="https://example.com/second.jpg" alt="Sunny Cactus"/>` yields that URL: the `class` attribute before `src=` is passed over |
| LibExamples.HtmlDataSrc | tests/main.ts:31-36 | `<img data-src="https://cactus-shop.com/cactus.webp" src="" alt="cactus" />` yields the `data-src` URL, the first `src=` on the line |
| LibExamples.HtmlXlinkHref | tests/main.ts:38-45 | `<image xlink:href="https://example.com/buldge.jpg" />` inside `<svg>` yields that URL |
| LibExamples.HtmlImageHref | tests/main.ts:47-54 | `<image href="https://example.com/concave.jpg" />` inside `<svg>` yields that URL |
| LibExamples.HtmlDataUrl | tests/main.ts:56 | `<img src="data:image/svg+xml,..." />` yields no URL |
| LibExamples.HtmlFragment | tests/main.ts:57-64 | `<image href="#cute-face" />` inside `<svg>` yields no URL |
| LibExamples.HtmlLink | tests/main.ts:65-70 | `<a href="https://artemiys-toolbox.pages.dev/">Do not click me</a>` yields no URL |
| StringOps.IndexOf | src/index.ts:92 | the result is -1 (nothing found) or a position at or after the search start at which the search value fits inside the text |
| StringOps.IndexOfFound | src/index.ts:92 | the found index is an occurrence, and no occurrence lies between the search start and it |
| StringOps.IndexOfNone | src/index.ts:92 | when nothing is found, no occurrence starts at or after the search start |
| StringOps.IndexOfEmpty | src/index.ts:92 | the empty search value is found at the search start |
| StringOps.Substitution | src/index.ts:92 | defines GetSubstitution of section 22.1.3.19.1 of ECMA-262 for a string search value; `StringOps.SubstitutionPatterns` and `StringOps.SubstitutionPlain` state what it inserts |
| StringOps.ReplaceFrom | src/index.ts:92 | defines the loop of section 22.1.3.20 of ECMA-262 from a search position; `StringOps.ReplaceFromLiteral` relates it to literal replacement |
| StringOps.ReplaceAll | src/index.ts:92 | defines `String.prototype.replaceAll` for two strings; `StringOps.ReplaceAllLiteral` states it is literal replacement for a non-empty search value and a replacement without `$` |
| StringOps.SubstitutionPlain | src/index.ts:92 | a replacement text without `$` is inserted as it is |
| StringOps.SubstitutionPatterns | src/index.ts:92 | `$&` is the matched text, `$$` one dollar sign, `` $` `` the text before and `$'` the text after; `$1` stays literal because there are no capture groups |
| StringOps.PatternMatched | src/index.ts:92 | `$&` inserts the matched text |
| StringOps.PatternDollar | src/index.ts:92 | `$$` inserts one `$` |
| StringOps.PatternBefore | src/index.ts:92 | `` $` `` inserts the text before the match |
| StringOps.PatternAfter | src/index.ts:92 | `$'` inserts the text after the match |
| StringOps.PatternDigit | src/index.ts:92 | `$1` stays literal, as there is no capture group |
| StringOps.ReplaceLiteralCopies | src/index.ts:92 | a stretch without occurrences is copied by literal replacement |
| StringOps.ReplaceLiteralShort | src/index.ts:92 | a text shorter than the search value is left as it is |
| StringOps.ReplaceLiteralCopy | src/index.ts:92 | a character at which no occurrence starts is copied |
| StringOps.ReplaceFromUnfold | src/index.ts:92 | one step of the standard's loop: the text since the last match up to the found occurrence, its substitution, then the search from the larger of 1 and the search value's length further on |
| StringOps.ReplaceFromStep | src/index.ts:92 | for a non-empty search value and a replacement without `$`, the result is the text up to the occurrence, the replacement, then the result for the text after the occurrence |
| StringOps.ReplaceFromLiteral | src/index.ts:92 | the standard's algorithm, from any search position, agrees with literal replacement of the rest |
| StringOps.ReplaceFromLiteralNone | src/index.ts:92 | with no occurrence left, the standard's algorithm copies the rest, as literal replacement does |
| StringOps.ReplaceFromLiteralFound | src/index.ts:92 | at a found occurrence, the standard's algorithm and literal replacement agree on the rest |
| StringOps.ReplaceFromHead | src/index.ts:92 | the standard's algorithm, at a found occurrence, gives the text up to it, the replacement and the literal replacement of what follows |
| StringOps.LiteralFound | src/index.ts:92 | literal replacement, at the first occurrence after a position, gives the text up to it, the replacement and the replacement of what follows |
| StringOps.ReplaceAllLiteral | src/index.ts:92 | for a non-empty search value and a replacement without `$`, `replaceAll` replaces each non-overlapping occurrence found left to right by the replacement text |
| StringOps.ReplaceAllAbsent | src/index.ts:92 | a search value that does not occur leaves the text unchanged, whatever the replacement |
| StringOps.ReplaceLiteralSelf | src/index.ts:92 | replacing a text by itself changes nothing |
| StringOps.ReplaceAllSelf | src/index.ts:92 | `s.replaceAll(p, p)` is `s` for non-empty `p` without `$` |
| StringOps.ReplaceLiteralLength | src/index.ts:92 | each replaced occurrence changes the length by the difference of the two lengths |
| StringOps.DeleteLength | src/index.ts:92 | replacing with the empty string shortens the text by the search value's length per occurrence |
| StringOps.OccurrencesPositive | src/index.ts:92 | some occurrence is replaced if and only if the search value occurs somewhere |
| StringOps.ReplaceFromEmptyStep | src/index.ts:92 | the empty search value matches at the current position and the search goes on one character later |
| StringOps.SpreadCons | src/index.ts:92 | the replacement is put before the first character and then spread over the rest |
| StringOps.ReplaceFromEmpty | src/index.ts:92 | after the empty search value matches at a position, one character is copied and the next substitution follows |
| StringOps.ReplaceAllEmpty | src/index.ts:92 | an empty search value puts the replacement before every character and at the end |
| StringOps.ReplaceAllEmptyFirst | src/index.ts:92 | an empty search value puts the replacement at the very start and resumes the search one character later |
| StringOps.ReplaceAllNotIdempotent | src/index.ts:92 | deleting `ab` from `aabb` gives `ab`, and deleting it again gives the empty string |
| Inliner.SameOriginSheets | src/index.ts:75-78 | a stylesheet is kept if and only if its `href` is missing or empty, or starts with the page origin |
| Inliner.SameOriginSheetsCount | src/index.ts:75-78 | each kept stylesheet is kept as many times as it occurs, so equal sheets are all inlined |
| Inliner.SameOriginSheetsOrder | src/index.ts:75-78 | the kept stylesheets keep their document order |
| Inliner.SameOrigin | src/index.ts:75-78 | defines the filter test: no `href`, an empty one, or one starting with the origin text |
| Inliner.UnreadableKept | src/index.ts:75-81 | a kept sheet whose rules cannot be read makes the kept list unreadable, which rejects `buildSvgDataURI` |
| Inliner.LookalikeOriginKept | src/index.ts:77 | a sheet from `https://a.com.evil.net/x.css` passes the test on the origin `https://a.com` |
| Inliner.CollectStyles | src/index.ts:80-85 | the loops fail exactly when some sheet's rules cannot be read; otherwise they leave `cssStyles` as the text of every rule of every sheet in order, and `urlsFoundInCss` as the URLs of every rule in order |
| Inliner.CollectStep | src/index.ts:80-85 | one more readable sheet extends the readable prefix, its CSS text and its URLs by that sheet's rules |
| Inliner.CollectRules | src/index.ts:81-84 | the inner loop appends one sheet's rule texts, and the URLs found in them, to what was gathered before |
| Inliner.CssTextAppend | src/index.ts:80-85 | the CSS text of two lists of sheets is the concatenation of their texts |
| Inliner.CssUrlsAppend | src/index.ts:80-85 | the URL lists are concatenated with no deduplication |
| Inliner.RulesUrlsFiltered | src/index.ts:82 | every URL gathered from a sheet passes `filterer` |
| Inliner.CssUrlsFiltered | src/index.ts:80-85 | every URL gathered from the CSS passes `filterer` |
| Inliner.RulesUrlsFound | src/index.ts:81-82 | every URL gathered from a sheet was found by `getUrlsFromCss` in one of its rules |
| Inliner.FetchTarget | src/index.ts:33-38 | a URL that is not remote is fetched as decoded; the target is missing only for a remote URL whose decoded form cannot be percent-encoded |
| Inliner.FetchTargetRemote | src/index.ts:33-37 | a remote URL is fetched as the proxy endpoint followed by the percent-encoding of its decoded form |
| Inliner.FetchTargetProxied | src/index.ts:33-38 | the target starts with the proxy endpoint if and only if the URL starts with `http://`, `https://` or `//` |
| Inliner.IsRemote | src/index.ts:34-36 | defines the proxy test: the URL starts with `http://`, `https://` or `//` |
| Inliner.GetResourceAsBase64 | src/index.ts:26-55 | the result carries the original, undecoded URL; when the target exists and reading it succeeds, `base64` is exactly the data read, and a non-empty `base64` always comes from such a read |
| Inliner.GetResourceFailure | src/index.ts:49-54 | when encoding, fetching or reading fails, the result pairs the URL with `""` |
| Inliner.GetResourceSuccess | src/index.ts:31-48 | when the target exists and reading it yields data, the result pairs the URL with that data |
| Inliner.FetchAll | src/index.ts:57-65 | one result per URL |
| Inliner.GetMultipleResourcesAsBase64 | src/index.ts:57-65 | exactly one result per input URL, in input order, duplicates included, each carrying its URL |
| Inliner.SubstituteAll | src/index.ts:91-100 | the loop leaves the text with each resource's URL replaced by its `base64`, one resource after the other in list order |
| Inliner.Substituted | src/index.ts:91-100 | defines one `replaceAll` per resource, in list order; `Inliner.SubstituteAll` is the loop proved equal to it |
| Inliner.SubstitutedAbsent | src/index.ts:91-100 | URLs that do not occur in the text leave it unchanged |
| Inliner.SubstitutedAppend | src/index.ts:91-93 | substituting two lists one after the other is substituting their concatenation |
| Inliner.SubstitutedOne | src/index.ts:92 | substituting one resource is one `replaceAll` |
| Inliner.FailedResourceDeletes | src/index.ts:49-54 | a failed resource deletes each occurrence of its URL that the scan finds, shortening the text by the URL length per occurrence |
| Inliner.ReadTemplateRoundTrip | src/index.ts:111 | width, height and content can be read back from the template when width and height hold no `'`, and the width and height repeat in the embedded object |
| Inliner.SvgDocumentFields | src/index.ts:111 | the SVG document carries `width` and `height` verbatim in both the `<svg>` root and the `<foreignObject>`, around the serialised content |
| Inliner.SvgDocument | src/index.ts:111 | defines the template literal; `Inliner.SvgDocumentFields` states that width, height and content can be read back from it |
| Inliner.DataUriIsDataUrl | src/index.ts:113 | the result is a `data:` URL, which `filterer` would never fetch |
| Inliner.DataUri | src/index.ts:113 | defines the data URI; `Inliner.DataUriIsDataUrl` states that it is a data URL |
| Inliner.BuildSvgDataUri | src/index.ts:67-116 | the promise rejects exactly when a kept sheet's rules cannot be read. Otherwise the data URI wraps the `base64encode` of the SVG document. The document holds the serialised style element with the substituted CSS, then the substituted markup. CSS URLs are substituted only into the CSS and image URLs only into the markup |
| Inliner.InlinedCss | src/index.ts:75-93 | defines the CSS of readable kept sheets with their URLs substituted; `Inliner.BuildSvgDataUri` is proved to compute it |
| Inliner.InlinedHtml | src/index.ts:95-100 | defines the markup with its image URLs substituted; `Inliner.InlinedHtmlWithoutImages` states that markup without image URLs is unchanged |
| Inliner.InlinedHtmlWithoutImages | src/index.ts:95-100 | markup without image URLs is embedded unchanged |

## Left out

- Browser and network capabilities are parameters, not models. The origin, `fetch` with `res.blob()` and the `FileReader` conversion, `encodeURIComponent`, `XMLSerializer`, `document.createElement`, `innerHTML` parsing, and `base64encode` with its `btoa` are all fields of `Host`. What they compute is not modelled.
- `binaryStringToBase64` (src/index.ts:18-24) never settles when the `FileReader` fails, because it installs no error handler. The model treats every failure of fetching or reading as a settled failure.
- `renderToImage`, `renderToCanvas` and `renderToBase64Png` (src/index.ts:118-153) load images and draw on a canvas. They are not modelled.
- `Host.fetchAsDataUrl` is a function, so the model treats fetching as deterministic in its target. The code fetches a repeated URL once per occurrence, and a URL found in both the CSS and the markup once for each (src/index.ts:87-97). In the browser one of those fetches can fail while another succeeds, so the CSS copy can be inlined while the markup copy is deleted. The model cannot express that.
- `Promise.all` concurrency is not modelled. The fetches run one after another, which gives the same results in the same order.
- `width` and `height` are numbers in the source. Here they are the text that the template literal renders for them. JavaScript number formatting is not modelled.
- JavaScript strings are UTF-16 code units, while Dafny characters are Unicode scalar values. Lone surrogates are not modelled, beyond `encodeURIComponent` being allowed to fail.
- `src/fetcher.ts` is not part of this model. It is an I/O wrapper that `buildSvgDataURI` does not call.
- `src/types.ts` is not part of this model. It only declares types: its `filterer` option and hooks are used neither by `src/index.ts` nor by `src/lib.ts`.
- `tests/main.js` is not part of this model. It imports `shouldProxy` from the build output `dist/lib.js`, together with the four functions that `tests/main.ts` also tests, and tests `shouldProxy` on URLs with image extensions. `shouldProxy` is not defined in `src/lib.ts`.
- `tsup.config.ts` holds build configuration only.
- StringOps: the `$n` and `$<name>` forms are modelled only for a string search value, where they stay literal. Regex search values are never used by the source.

## Findings

None.

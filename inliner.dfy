/**
 * The deterministic steps of `buildSvgDataURI` in src/index.ts: keeping the
 * same-origin stylesheets, collecting their CSS text and the URLs found in
 * it, choosing what to fetch for each URL, fetching every URL of a list in
 * order, substituting each URL by its fetched data URL with `replaceAll`, and
 * wrapping the result in the SVG document and its data URI.
 *
 * Everything the browser provides (the page origin, `fetch` with the
 * `FileReader` data-URL conversion, `encodeURIComponent`, `XMLSerializer`,
 * `btoa`) is a field of `Host`, so the model is a function of those
 * capabilities.
 */
module Inliner {
  import opened Wrappers
  import opened Lib
  import opened StringOps

  /**
   * An entry of `document.styleSheets`: its `href` (None for null) and the
   * `cssText` of each of its rules, None when reading `cssRules` throws, as it
   * does for a sheet from another origin.
   */
  datatype StyleSheet = StyleSheet(href: Option<string>, cssRules: Option<seq<string>>)

  /** The record `getResourceAsBase64` resolves to: the URL as found and its embedded form. */
  datatype Resource = Resource(url: string, base64: string)

  /**
   * The browser capabilities that `buildSvgDataURI` uses. `fetchAsDataUrl` is `fetch`,
   * `res.blob()` and the `FileReader` conversion together, None when any of
   * them rejects; `encodeUriComponent` is None where `encodeURIComponent`
   * throws; `serializeStyle` serialises a `<style>` element holding the given
   * CSS and `serializeRoot` a `<div>` whose markup is the given text;
   * `base64Encode` is `base64encode`.
   */
  datatype Host = Host(
    origin: string,
    fetchAsDataUrl: string -> Option<string>,
    encodeUriComponent: string -> Option<string>,
    serializeStyle: string -> string,
    serializeRoot: string -> string,
    base64Encode: string -> string)

  // ---------------------------------------------------------------------------
  // Same-origin stylesheets
  // ---------------------------------------------------------------------------

  /** `!styleSheet.href || styleSheet.href.startsWith(origin)`: a missing or empty href counts as same-origin. */
  predicate SameOrigin(sheet: StyleSheet, origin: string) {
    match sheet.href
    case None => true
    case Some(h) => h == "" || StartsWith(h, origin)
  }

  /** `Array.from(document.styleSheets).filter(...)`. */
  function SameOriginSheets(sheets: seq<StyleSheet>, origin: string): (r: seq<StyleSheet>)
    ensures |r| <= |sheets|
    ensures forall x :: x in r <==> x in sheets && SameOrigin(x, origin)
  {
    if sheets == [] then []
    else (if SameOrigin(sheets[0], origin) then [sheets[0]] else []) + SameOriginSheets(sheets[1..], origin)
  }

  /** Every copy of a kept sheet stays, so two sheets with the same text are both inlined. */
  lemma {:induction false} SameOriginSheetsCount(sheets: seq<StyleSheet>, origin: string)
    ensures forall x :: multiset(SameOriginSheets(sheets, origin))[x] == if SameOrigin(x, origin) then multiset(sheets)[x] else 0
  {
    if sheets != [] {
      SameOriginSheetsCount(sheets[1..], origin);
      assert sheets == [sheets[0]] + sheets[1..];
    }
  }

  /** The kept sheets are in document order. */
  lemma {:induction false} SameOriginSheetsOrder(sheets: seq<StyleSheet>, origin: string)
    ensures IsSubsequence(SameOriginSheets(sheets, origin), sheets)
  {
    if sheets != [] {
      SameOriginSheetsOrder(sheets[1..], origin);
      var r := SameOriginSheets(sheets, origin);
      if SameOrigin(sheets[0], origin) {
        assert r[0] == sheets[0] && r[1..] == SameOriginSheets(sheets[1..], origin);
      } else {
        assert r == SameOriginSheets(sheets[1..], origin);
        if r != [] { SubsequenceDrop(r, sheets); }
      }
    }
  }

  /** A kept sheet whose rules cannot be read makes the kept list unreadable, so `buildSvgDataURI` rejects. */
  lemma UnreadableKept(sheets: seq<StyleSheet>, origin: string, i: nat)
    requires i < |sheets| && SameOrigin(sheets[i], origin) && sheets[i].cssRules.None?
    ensures !Readable(SameOriginSheets(sheets, origin))
  {
    var r := SameOriginSheets(sheets, origin);
    assert sheets[i] in sheets;
    var j :| 0 <= j < |r| && r[j] == sheets[i];
    assert !r[j].cssRules.Some?;
  }

  /**
   * The test is a text prefix, not an origin comparison: a sheet served from
   * another host whose name extends the origin's passes it.
   */
  lemma LookalikeOriginKept()
    ensures SameOrigin(StyleSheet(Some("https://a.com.evil.net/x.css"), None), "https://a.com")
  {
    assert "https://a.com.evil.net/x.css"[..13] == "https://a.com";
  }

  // ---------------------------------------------------------------------------
  // CSS text and the URLs found in it
  // ---------------------------------------------------------------------------

  /** The `cssText` of the rules, concatenated in order. */
  function RulesText(rules: seq<string>): string {
    if rules == [] then "" else RulesText(rules[..|rules| - 1]) + rules[|rules| - 1]
  }

  /** `getUrlsFromCss` of each rule, concatenated in order. */
  function RulesUrls(rules: seq<string>): seq<string> {
    if rules == [] then [] else RulesUrls(rules[..|rules| - 1]) + GetUrlsFromCss(rules[|rules| - 1])
  }

  /** The rules of every sheet can be read. */
  predicate Readable(sheets: seq<StyleSheet>) {
    forall i :: 0 <= i < |sheets| ==> sheets[i].cssRules.Some?
  }

  /** `cssStyles` after the accumulation loops: the text of every rule of every sheet. */
  function CssText(sheets: seq<StyleSheet>): string
    requires Readable(sheets)
  {
    if sheets == [] then "" else CssText(sheets[..|sheets| - 1]) + RulesText(sheets[|sheets| - 1].cssRules.value)
  }

  /** `urlsFoundInCss` after the accumulation loops. */
  function CssUrls(sheets: seq<StyleSheet>): seq<string>
    requires Readable(sheets)
  {
    if sheets == [] then [] else CssUrls(sheets[..|sheets| - 1]) + RulesUrls(sheets[|sheets| - 1].cssRules.value)
  }

  /**
   * The nested loops of `buildSvgDataURI` that gather the CSS text and the
   * URLs in it, rule by rule.  Reading the rules of a sheet that does not
   * allow it throws, which is None here.
   */
  method CollectStyles(sheets: seq<StyleSheet>) returns (collected: Option<(string, seq<string>)>)
    ensures collected.Some? <==> Readable(sheets)
    ensures collected.Some? ==> collected.value == (CssText(sheets), CssUrls(sheets))
  {
    var cssStyles := "";
    var urlsFoundInCss := [];
    var i := 0;
    while i < |sheets|
      invariant 0 <= i <= |sheets| && Readable(sheets[..i])
      invariant cssStyles == CssText(sheets[..i])
      invariant urlsFoundInCss == CssUrls(sheets[..i])
    {
      match sheets[i].cssRules {
        case None =>
          assert !sheets[i].cssRules.Some?;
          return None;
        case Some(rules) =>
          cssStyles, urlsFoundInCss := CollectRules(rules, cssStyles, urlsFoundInCss);
          CollectStep(sheets, i, rules);
      }
      i := i + 1;
    }
    assert sheets[..|sheets|] == sheets;
    collected := Some((cssStyles, urlsFoundInCss));
  }

  /** One more readable sheet extends the readable prefix, its text and its URLs. */
  lemma CollectStep(sheets: seq<StyleSheet>, i: nat, rules: seq<string>)
    requires i < |sheets| && Readable(sheets[..i]) && sheets[i].cssRules == Some(rules)
    ensures Readable(sheets[..i + 1])
    ensures CssText(sheets[..i + 1]) == CssText(sheets[..i]) + RulesText(rules)
    ensures CssUrls(sheets[..i + 1]) == CssUrls(sheets[..i]) + RulesUrls(rules)
  {
    assert sheets[..i + 1][..i] == sheets[..i];
  }

  /** The inner loop, over the rules of one sheet. */
  method CollectRules(rules: seq<string>, cssIn: string, urlsIn: seq<string>) returns (cssStyles: string, urlsFoundInCss: seq<string>)
    ensures cssStyles == cssIn + RulesText(rules)
    ensures urlsFoundInCss == urlsIn + RulesUrls(rules)
  {
    cssStyles, urlsFoundInCss := cssIn, urlsIn;
    var j := 0;
    while j < |rules|
      invariant 0 <= j <= |rules|
      invariant cssStyles == cssIn + RulesText(rules[..j])
      invariant urlsFoundInCss == urlsIn + RulesUrls(rules[..j])
    {
      ExtendText(cssIn, RulesText(rules[..j]), rules[j]);
      ExtendUrls(urlsIn, RulesUrls(rules[..j]), GetUrlsFromCss(rules[j]));
      assert rules[..j + 1][..j] == rules[..j];
      urlsFoundInCss := urlsFoundInCss + GetUrlsFromCss(rules[j]);
      cssStyles := cssStyles + rules[j];
      j := j + 1;
    }
    assert rules[..|rules|] == rules;
  }

  lemma ExtendText(a: string, b: string, c: string)
    ensures a + b + c == a + (b + c)
  {
  }

  lemma ExtendUrls(a: seq<string>, b: seq<string>, c: seq<string>)
    ensures a + b + c == a + (b + c)
  {
  }

  /** A later sheet's rules come after an earlier sheet's, for the CSS text. */
  lemma {:induction false} CssTextAppend(a: seq<StyleSheet>, b: seq<StyleSheet>)
    requires Readable(a) && Readable(b)
    ensures CssText(a + b) == CssText(a) + CssText(b)
    decreases |b|
  {
    if b == [] {
      assert a + b == a;
    } else {
      var b' := b[..|b| - 1];
      assert (a + b)[..|a + b| - 1] == a + b';
      CssTextAppend(a, b');
      ExtendText(CssText(a), CssText(b'), RulesText(b[|b| - 1].cssRules.value));
    }
  }

  /** ... and for the URLs: the lists are concatenated, so a URL found twice is listed twice. */
  lemma {:induction false} CssUrlsAppend(a: seq<StyleSheet>, b: seq<StyleSheet>)
    requires Readable(a) && Readable(b)
    ensures CssUrls(a + b) == CssUrls(a) + CssUrls(b)
    decreases |b|
  {
    if b == [] {
      assert a + b == a;
    } else {
      var b' := b[..|b| - 1];
      assert (a + b)[..|a + b| - 1] == a + b';
      CssUrlsAppend(a, b');
      ExtendUrls(CssUrls(a), CssUrls(b'), RulesUrls(b[|b| - 1].cssRules.value));
    }
  }

  /** Every URL found in a rule is kept by `filterer`. */
  lemma {:induction false} RulesUrlsFiltered(rules: seq<string>)
    ensures forall u :: u in RulesUrls(rules) ==> Filterer(u)
  {
    if rules != [] {
      RulesUrlsFiltered(rules[..|rules| - 1]);
    }
  }

  lemma {:induction false} CssUrlsFiltered(sheets: seq<StyleSheet>)
    requires Readable(sheets)
    ensures forall u :: u in CssUrls(sheets) ==> Filterer(u)
  {
    if sheets != [] {
      CssUrlsFiltered(sheets[..|sheets| - 1]);
      RulesUrlsFiltered(sheets[|sheets| - 1].cssRules.value);
    }
  }

  /** Every URL gathered from the CSS was found by `getUrlsFromCss` in one rule. */
  lemma {:induction false} RulesUrlsFound(rules: seq<string>)
    ensures forall u :: u in RulesUrls(rules) ==> exists j :: 0 <= j < |rules| && u in GetUrlsFromCss(rules[j])
  {
    if rules != [] {
      var init := rules[..|rules| - 1];
      RulesUrlsFound(init);
      forall u | u in RulesUrls(rules) ensures exists j :: 0 <= j < |rules| && u in GetUrlsFromCss(rules[j]) {
        if u in RulesUrls(init) {
          var j :| 0 <= j < |init| && u in GetUrlsFromCss(init[j]);
          assert rules[j] == init[j];
        } else {
          assert u in GetUrlsFromCss(rules[|rules| - 1]);
        }
      }
    }
  }

  // ---------------------------------------------------------------------------
  // Fetching
  // ---------------------------------------------------------------------------

  const ProxyEndpoint := "https://images.weserv.nl/?url="

  /** The URL is absolute (`http://`, `https://`) or protocol-relative (`//`). */
  predicate IsRemote(url: string) {
    StartsWith(url, "http://") || StartsWith(url, "https://") || StartsWith(url, "//")
  }

  /**
   * The argument of `fetch` in `getResourceAsBase64`: a remote URL goes through
   * the image proxy with its decoded form percent-encoded, any other URL is
   * fetched as decoded. None when `encodeURIComponent` throws.
   */
  function FetchTarget(url: string, encode: string -> Option<string>): (r: Option<string>)
    ensures !IsRemote(url) ==> r == Some(Descape(url))
    ensures r.None? ==> IsRemote(url) && encode(Descape(url)).None?
  {
    if IsRemote(url) then
      match encode(Descape(url))
      case None => None
      case Some(e) => Some(ProxyEndpoint + e)
    else Some(Descape(url))
  }

  /** A remote URL is fetched through the proxy, with `encodeURIComponent` of its decoded form. */
  lemma FetchTargetRemote(url: string, encode: string -> Option<string>, e: string)
    requires IsRemote(url) && encode(Descape(url)) == Some(e)
    ensures FetchTarget(url, encode) == Some(ProxyEndpoint + e)
  {
  }

  /** The target goes through the proxy exactly when the URL is remote. */
  lemma FetchTargetProxied(url: string, encode: string -> Option<string>)
    requires FetchTarget(url, encode).Some?
    ensures StartsWith(FetchTarget(url, encode).value, ProxyEndpoint) <==> IsRemote(url)
  {
    var t := FetchTarget(url, encode).value;
    if IsRemote(url) {
      var e := encode(Descape(url)).value;
      assert t == ProxyEndpoint + e;
      assert t[..|ProxyEndpoint|] == ProxyEndpoint;
    } else if StartsWith(t, ProxyEndpoint) {
      HttpsPrefix(t);
      DescapePrefix(url, "https://");
      assert false;
    }
  }

  /** The proxy endpoint starts with "https://", a prefix no entity can produce. */
  lemma HttpsPrefix(t: string)
    requires StartsWith(t, ProxyEndpoint)
    ensures StartsWith(t, "https://")
    ensures forall i :: 0 <= i < |"https://"| ==> !DecodedChar("https://"[i])
  {
    assert ProxyEndpoint[..8] == "https://";
    assert t[..8] == t[..|ProxyEndpoint|][..8];
  }

  /**
   * `getResourceAsBase64`: the URL it was given, with the data URL read from
   * the response, or "" when encoding, fetching or reading fails.
   */
  function GetResourceAsBase64(url: string, host: Host): (r: Resource)
    ensures r.url == url
    ensures r.base64 != "" ==>
      FetchTarget(url, host.encodeUriComponent).Some? &&
      host.fetchAsDataUrl(FetchTarget(url, host.encodeUriComponent).value) == Some(r.base64)
    ensures FetchTarget(url, host.encodeUriComponent).Some? &&
            host.fetchAsDataUrl(FetchTarget(url, host.encodeUriComponent).value).Some? ==>
      r.base64 == host.fetchAsDataUrl(FetchTarget(url, host.encodeUriComponent).value).value
  {
    match FetchTarget(url, host.encodeUriComponent)
    case None => Resource(url, "")
    case Some(target) =>
      match host.fetchAsDataUrl(target)
      case None => Resource(url, "")
      case Some(data) => Resource(url, data)
  }

  /** Any failure gives the empty embedding, for the URL unchanged. */
  lemma GetResourceFailure(url: string, host: Host)
    requires FetchTarget(url, host.encodeUriComponent).None? ||
             host.fetchAsDataUrl(FetchTarget(url, host.encodeUriComponent).value).None?
    ensures GetResourceAsBase64(url, host) == Resource(url, "")
  {
  }

  /** A fetch that succeeds embeds the data it read, for the URL unchanged. */
  lemma GetResourceSuccess(url: string, host: Host, target: string, data: string)
    requires FetchTarget(url, host.encodeUriComponent) == Some(target)
    requires host.fetchAsDataUrl(target) == Some(data)
    ensures GetResourceAsBase64(url, host) == Resource(url, data)
  {
  }

  /** The fetched resources of a list of URLs, one per URL and in order. */
  function FetchAll(urls: seq<string>, host: Host): (r: seq<Resource>)
    ensures |r| == |urls|
  {
    seq(|urls|, i requires 0 <= i < |urls| => GetResourceAsBase64(urls[i], host))
  }

  /** `getMultipleResourcesAsBase64`, with the promises awaited in turn. */
  method GetMultipleResourcesAsBase64(urls: seq<string>, host: Host) returns (resources: seq<Resource>)
    ensures |resources| == |urls|
    ensures forall i :: 0 <= i < |urls| ==> resources[i] == GetResourceAsBase64(urls[i], host)
    ensures forall i :: 0 <= i < |urls| ==> resources[i].url == urls[i]
  {
    resources := [];
    for i := 0 to |urls|
      invariant |resources| == i
      invariant forall k :: 0 <= k < i ==> resources[k] == GetResourceAsBase64(urls[k], host)
    {
      resources := resources + [GetResourceAsBase64(urls[i], host)];
    }
  }

  // ---------------------------------------------------------------------------
  // Substitution
  // ---------------------------------------------------------------------------

  /** `text` after `text = text.replaceAll(resource.url, resource.base64)` for each resource in turn. */
  function Substituted(text: string, resources: seq<Resource>): string
    decreases |resources|
  {
    if resources == [] then text
    else Substituted(ReplaceAll(text, resources[0].url, resources[0].base64), resources[1..])
  }

  /** The substitution loops over `cssStyles` and `contentHtml`. */
  method SubstituteAll(text: string, resources: seq<Resource>) returns (out: string)
    ensures out == Substituted(text, resources)
  {
    out := text;
    var i := 0;
    while i < |resources|
      invariant 0 <= i <= |resources|
      invariant Substituted(out, resources[i..]) == Substituted(text, resources)
    {
      assert resources[i..][1..] == resources[i + 1..];
      out := ReplaceAll(out, resources[i].url, resources[i].base64);
      i := i + 1;
    }
  }

  /** `p` occurs nowhere in `s`. */
  predicate Absent(s: string, p: string) {
    forall k :: 0 <= k <= |s| ==> !StartsAt(s, k, p)
  }

  /** URLs that do not occur in the text leave it unchanged. */
  lemma {:induction false} SubstitutedAbsent(text: string, resources: seq<Resource>)
    requires forall i :: 0 <= i < |resources| ==> Absent(text, resources[i].url)
    ensures Substituted(text, resources) == text
    decreases |resources|
  {
    if resources != [] {
      ReplaceAllAbsent(text, resources[0].url, resources[0].base64);
      SubstitutedAbsent(text, resources[1..]);
    }
  }

  /** Substituting two lists one after the other is substituting their concatenation. */
  lemma {:induction false} SubstitutedAppend(text: string, a: seq<Resource>, b: seq<Resource>)
    ensures Substituted(text, a + b) == Substituted(Substituted(text, a), b)
    decreases |a|
  {
    if a == [] {
      assert a + b == b;
    } else {
      assert (a + b)[1..] == a[1..] + b;
      SubstitutedAppend(ReplaceAll(text, a[0].url, a[0].base64), a[1..], b);
    }
  }

  /** A single resource is one `replaceAll`. */
  lemma SubstitutedOne(text: string, resource: Resource)
    ensures Substituted(text, [resource]) == ReplaceAll(text, resource.url, resource.base64)
  {
    assert [resource][1..] == [];
  }

  /**
   * A resource whose fetch failed deletes every occurrence of its URL that
   * the left-to-right scan finds.
   */
  lemma FailedResourceDeletes(text: string, url: string)
    requires url != []
    ensures Substituted(text, [Resource(url, "")]) == ReplaceLiteral(text, url, "")
    ensures |Substituted(text, [Resource(url, "")])| == |text| - Occurrences(text, url) * |url|
  {
    var deleted := Substituted(text, [Resource(url, "")]);
    SubstitutedOne(text, Resource(url, ""));
    ReplaceAllLiteral(text, url, "");
    assert deleted == ReplaceLiteral(text, url, "");
    DeleteLength(text, url);
  }

  // ---------------------------------------------------------------------------
  // The SVG document
  // ---------------------------------------------------------------------------

  const SvgOpen := "<svg xmlns='http://www.w3.org/2000/svg' width='"
  const HeightAttr := "'" + " height='"
  const ForeignOpen := "'" + "><g transform='translate(0, 0) rotate(0)'><foreignObject x='0' y='0' width='"
  const ForeignBody := "'>"
  const SvgClose := "</foreignObject></g></svg>"

  /**
   * The shape of the SVG template: width and height each appear in the root
   * and again in the embedded object, around the content.
   */
  function Template(open: string, attr: string, foreign: string, body: string, close: string,
                    width: string, height: string, content: string): string {
    open + width + attr + height + foreign + width + attr + height + body + content + close
  }

  /** The template literal of `buildSvgDataURI`, with `width` and `height` as their text. */
  function SvgDocument(width: string, height: string, content: string): string {
    Template(SvgOpen, HeightAttr, ForeignOpen, ForeignBody, SvgClose, width, height, content)
  }

  /** `s` up to its first `'`, and the rest from that `'` on. */
  function SplitAtQuote(s: string): (r: (string, string))
    ensures r.0 + r.1 == s && '\'' !in r.0
    ensures r.1 != [] ==> r.1[0] == '\''
  {
    if s == [] then ([], [])
    else if s[0] == '\'' then ([], s)
    else
      var (a, b) := SplitAtQuote(s[1..]);
      assert [s[0]] + a + b == [s[0]] + (a + b);
      ([s[0]] + a, b)
  }

  /**
   * Reads a document of the template's shape back into width, height and
   * content, checking that the second width and height repeat the first.
   */
  function ReadTemplate(open: string, attr: string, foreign: string, body: string, close: string,
                        doc: string): Option<(string, string, string)> {
    if !StartsWith(doc, open) then None
    else
      var (width, r1) := SplitAtQuote(doc[|open|..]);
      if !StartsWith(r1, attr) then None
      else
        var (height, r2) := SplitAtQuote(r1[|attr|..]);
        var middle := foreign + width + attr + height + body;
        if !StartsWith(r2, middle) || |r2| < |middle| + |close| || r2[|r2| - |close|..] != close then None
        else Some((width, height, r2[|middle|..|r2| - |close|]))
  }

  /** Width, height and content of an SVG document. */
  function SvgFields(doc: string): Option<(string, string, string)> {
    ReadTemplate(SvgOpen, HeightAttr, ForeignOpen, ForeignBody, SvgClose, doc)
  }

  /** `a + b + c` starts with `a`, and `b + c` follows it. */
  lemma Unprefix(a: string, b: string, c: string)
    ensures StartsWith(a + b + c, a) && (a + b + c)[|a|..] == b + c
  {
    assert (a + b + c)[..|a|] == a;
  }

  /** The parts of `m + c + z`. */
  lemma ThreeParts(m: string, c: string, z: string)
    ensures StartsWith(m + c + z, m) && |m + c + z| >= |m| + |z|
    ensures (m + c + z)[|m + c + z| - |z|..] == z
    ensures (m + c + z)[|m|..|m + c + z| - |z|] == c
  {
    assert (m + c + z)[..|m|] == m;
  }

  /** Splitting a quote-free text followed by a text that starts with a quote. */
  lemma {:induction false} SplitPlain(a: string, b: string)
    requires '\'' !in a && b != [] && b[0] == '\''
    ensures SplitAtQuote(a + b) == (a, b)
  {
    if a != [] {
      assert (a + b)[1..] == a[1..] + b;
      SplitPlain(a[1..], b);
      assert [a[0]] + a[1..] == a;
    } else {
      assert a + b == b;
    }
  }

  /** The template regrouped at the points where ReadTemplate cuts it. */
  lemma TemplateLayout(open: string, attr: string, foreign: string, body: string, close: string,
                       width: string, height: string, content: string, middle: string, tail: string)
    requires middle == foreign + width + attr + height + body && tail == middle + content + close
    ensures Template(open, attr, foreign, body, close, width, height, content) == open + width + (attr + height + tail)
  {
  }

  /** Reading the template back recovers what was written into it, when width and height hold no `'`. */
  lemma ReadTemplateRoundTrip(open: string, attr: string, foreign: string, body: string, close: string,
                              width: string, height: string, content: string)
    requires attr != [] && attr[0] == '\'' && foreign != [] && foreign[0] == '\''
    requires '\'' !in width && '\'' !in height
    ensures ReadTemplate(open, attr, foreign, body, close, Template(open, attr, foreign, body, close, width, height, content))
      == Some((width, height, content))
  {
    var middle := foreign + width + attr + height + body;
    var tail := middle + content + close;
    var r1 := attr + height + tail;
    TemplateLayout(open, attr, foreign, body, close, width, height, content, middle, tail);
    Unprefix(open, width, r1);
    assert r1[0] == attr[0];
    SplitPlain(width, r1);
    Unprefix(attr, height, tail);
    assert tail[0] == foreign[0];
    SplitPlain(height, tail);
    ThreeParts(middle, content, close);
  }

  /** Width, height and content can be read back from the SVG document when width and height hold no `'`. */
  lemma SvgDocumentFields(width: string, height: string, content: string)
    requires '\'' !in width && '\'' !in height
    ensures SvgFields(SvgDocument(width, height, content)) == Some((width, height, content))
  {
    ReadTemplateRoundTrip(SvgOpen, HeightAttr, ForeignOpen, ForeignBody, SvgClose, width, height, content);
  }

  /** `data:image/svg+xml;base64,` followed by `base64encode` of the document. */
  function DataUri(svg: string, host: Host): string {
    "data:image/svg+xml;base64," + host.base64Encode(svg)
  }

  /** The result is a data URL, which `filterer` would never fetch. */
  lemma DataUriIsDataUrl(svg: string, host: Host)
    ensures IsDataUrl(DataUri(svg, host)) && !Filterer(DataUri(svg, host))
  {
    assert DataUri(svg, host)[..5] == "data:";
  }

  // ---------------------------------------------------------------------------
  // buildSvgDataURI
  // ---------------------------------------------------------------------------

  /** `cssStyles` once every URL found in the same-origin CSS has been substituted. */
  function InlinedCss(sheets: seq<StyleSheet>, host: Host): string
    requires Readable(SameOriginSheets(sheets, host.origin))
  {
    var kept := SameOriginSheets(sheets, host.origin);
    Substituted(CssText(kept), FetchAll(CssUrls(kept), host))
  }

  /** `contentHtml` once every image URL found in it has been substituted. */
  function InlinedHtml(contentHtml: string, host: Host): string {
    Substituted(contentHtml, FetchAll(GetImageUrlsFromHtml(contentHtml), host))
  }

  /**
   * `buildSvgDataURI`: the CSS URLs are substituted into the CSS only and
   * the image URLs of the markup into the markup only, then the two are
   * serialised inside the SVG document.  The promise rejects (None) exactly
   * when a kept sheet's rules cannot be read.
   */
  method BuildSvgDataUri(sheets: seq<StyleSheet>, contentHtml: string, width: string, height: string, host: Host)
    returns (dataUri: Option<string>)
    ensures dataUri.Some? <==> Readable(SameOriginSheets(sheets, host.origin))
    ensures dataUri.Some? ==> dataUri.value == DataUri(SvgDocument(width, height,
      host.serializeRoot(host.serializeStyle(InlinedCss(sheets, host)) + InlinedHtml(contentHtml, host))), host)
  {
    var styleSheets := SameOriginSheets(sheets, host.origin);
    var collected := CollectStyles(styleSheets);
    if collected.None? {
      return None;
    }
    var cssStyles, urlsFoundInCss := collected.value.0, collected.value.1;
    var fetchedFromStylesheets := GetMultipleResourcesAsBase64(urlsFoundInCss, host);
    assert fetchedFromStylesheets == FetchAll(urlsFoundInCss, host);
    cssStyles := SubstituteAll(cssStyles, fetchedFromStylesheets);
    var fetched := GetMultipleResourcesAsBase64(GetImageUrlsFromHtml(contentHtml), host);
    assert fetched == FetchAll(GetImageUrlsFromHtml(contentHtml), host);
    var html := SubstituteAll(contentHtml, fetched);
    var contentRoot := host.serializeRoot(host.serializeStyle(cssStyles) + html);
    var svg := SvgDocument(width, height, contentRoot);
    dataUri := Some(DataUri(svg, host));
  }

  /** Markup without image tags is embedded as it is. */
  lemma InlinedHtmlWithoutImages(contentHtml: string, host: Host)
    requires GetImageUrlsFromHtml(contentHtml) == []
    ensures InlinedHtml(contentHtml, host) == contentHtml
  {
  }
}

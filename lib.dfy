/**
 * The URL-extraction library of src/lib.ts: entity decoding (`descape`), quote
 * stripping (`removeQuotes`), URL classification (`isDataUrl`, `isEmptyString`,
 * `filterer`) and the two regex-driven extractors (`getUrlsFromCss`,
 * `getImageUrlsFromHtml`, both through `take`).
 *
 * The two global regexes are modelled as one left-to-right scanner
 * (`FindAll`) over a `Pattern`: at each position the pattern's matcher
 * (`MatchHere`) says whether a match starts there, exactly as the JavaScript
 * regex engine decides it for a lazy pattern, and the scanner collects the
 * leftmost non-overlapping matches as `String.prototype.matchAll` does.
 */
module Lib {
  import opened Wrappers

  /** `s` contains `prefix` starting at index `p`. */
  predicate StartsAt(s: string, p: nat, prefix: string) {
    p + |prefix| <= |s| && s[p..p + |prefix|] == prefix
  }

  predicate StartsWith(s: string, prefix: string) {
    StartsAt(s, 0, prefix)
  }

  lemma StartsWithRest(s: string, p: nat, prefix: string)
    requires p <= |s|
    ensures StartsWith(s[p..], prefix) <==> StartsAt(s, p, prefix)
  {
    if p + |prefix| <= |s| {
      assert s[p..][0..|prefix|] == s[p..p + |prefix|];
    }
  }

  // ---------------------------------------------------------------------------
  // descape
  // ---------------------------------------------------------------------------

  /** The lookup table `escaped`: each entity with the character it stands for. */
  const Entities: seq<(string, char)> :=
    [("&quot;", '"'), ("&#39;", '\''), ("&amp;", '&'), ("&lt;", '<'), ("&gt;", '>')]

  /**
   * The entity that /&(quot|#39|amp|lt|gt);/ matches at the start of `s`, as
   * the length of the matched text and the character that replaces it.
   */
  function EntityAt(s: string): (r: Option<(nat, char)>)
    ensures r.Some? ==> 4 <= r.value.0 <= |s| && s[0] == '&'
    ensures r.Some? ==> exists i :: 0 <= i < |Entities| && r.value == (|Entities[i].0|, Entities[i].1)
                                     && StartsWith(s, Entities[i].0)
    ensures r.None? ==> forall i :: 0 <= i < |Entities| ==> !StartsWith(s, Entities[i].0)
  {
    if StartsWith(s, "&quot;") then
      assert StartsWith(s, Entities[0].0); Some((6, '"'))
    else if StartsWith(s, "&#39;") then
      assert StartsWith(s, Entities[1].0); Some((5, '\''))
    else if StartsWith(s, "&amp;") then
      assert StartsWith(s, Entities[2].0); Some((5, '&'))
    else if StartsWith(s, "&lt;") then
      assert StartsWith(s, Entities[3].0); Some((4, '<'))
    else if StartsWith(s, "&gt;") then
      assert StartsWith(s, Entities[4].0); Some((4, '>'))
    else
      None
  }

  /**
   * `string.replace(/&(quot|#39|amp|lt|gt);/g, ...)`: one left-to-right pass
   * that replaces each entity by its character and copies everything else.
   */
  function Descape(s: string): (r: string)
    ensures |r| <= |s|
    decreases |s|
  {
    if s == [] then []
    else match EntityAt(s)
      case Some((n, c)) => [c] + Descape(s[n..])
      case None => [s[0]] + Descape(s[1..])
  }

  /** HTML escaping of the five characters of the table; `Descape` undoes it. */
  function EscapeChar(c: char): string {
    if c == '"' then "&quot;"
    else if c == '\'' then "&#39;"
    else if c == '&' then "&amp;"
    else if c == '<' then "&lt;"
    else if c == '>' then "&gt;"
    else [c]
  }

  function Escape(s: string): string {
    if s == [] then [] else EscapeChar(s[0]) + Escape(s[1..])
  }

  /** Some entity of the table occurs somewhere in `s`. */
  predicate HasEntity(s: string) {
    exists i :: 0 <= i < |s| && EntityAt(s[i..]).Some?
  }

  /** An entity is replaced by its character and the text after it is scanned afresh. */
  lemma DescapeEntity(i: nat, t: string)
    requires i < |Entities|
    ensures Descape(Entities[i].0 + t) == [Entities[i].1] + Descape(t)
  {
    var s := Entities[i].0 + t;
    assert StartsWith(s, Entities[i].0);
    var r := EntityAt(s);
    assert r.Some?;
    var j :| 0 <= j < |Entities| && r.value == (|Entities[j].0|, Entities[j].1) && StartsWith(s, Entities[j].0);
    // The five entities differ in their second character, so j is i.
    assert s[1] == Entities[i].0[1] == Entities[j].0[1];
    assert j == i;
    assert s[|Entities[i].0|..] == t;
  }

  /** A character that does not begin an entity is copied unchanged. */
  lemma DescapePlain(c: char, t: string)
    requires c != '&'
    ensures Descape([c] + t) == [c] + Descape(t)
  {
    assert ([c] + t)[1..] == t;
  }

  /** A prefix without '&' passes through unchanged. */
  lemma {:induction false} DescapePlainPrefix(a: string, b: string)
    requires '&' !in a
    ensures Descape(a + b) == a + Descape(b)
  {
    if a != [] {
      assert a == [a[0]] + a[1..];
      assert a + b == [a[0]] + (a[1..] + b);
      DescapePlain(a[0], a[1..] + b);
      DescapePlainPrefix(a[1..], b);
      assert [a[0]] + (a[1..] + Descape(b)) == a + Descape(b);
    } else {
      assert a + b == b;
    }
  }

  /** Text without '&' between two copies of an entity decodes to that text between two copies of its character. */
  lemma DescapeEntityWrapped(i: nat, w: string)
    requires i < |Entities| && '&' !in w
    ensures Descape(Entities[i].0 + w + Entities[i].0) == [Entities[i].1] + w + [Entities[i].1]
  {
    var e, c := Entities[i].0, Entities[i].1;
    calc {
      Descape(e + w + e);
    == { AppendAssoc(e, w, e); }
      Descape(e + (w + e));
    == { DescapeEntity(i, w + e); }
      [c] + Descape(w + e);
    == { DescapePlainPrefix(w, e); }
      [c] + (w + Descape(e));
    == { DescapeEntity(i, []); assert e + [] == e; }
      [c] + (w + ([c] + Descape([])));
    == { AppendAssoc([c], w, [c]); }
      [c] + w + [c];
    }
  }

  /** A string without '&' is a fixed point of `Descape`. */
  lemma DescapeNoAmpersand(s: string)
    requires '&' !in s
    ensures Descape(s) == s
  {
    DescapePlainPrefix(s, []);
    assert s + [] == s;
  }

  /** The escape of one character, decoded, is that character. */
  lemma DescapeEscapeChar(c: char, t: string)
    ensures Descape(EscapeChar(c) + t) == [c] + Descape(t)
  {
    if c == '"' { DescapeEscapeEntity(0, c, t); }
    else if c == '\'' { DescapeEscapeEntity(1, c, t); }
    else if c == '&' { DescapeEscapeEntity(2, c, t); }
    else if c == '<' { DescapeEscapeEntity(3, c, t); }
    else if c == '>' { DescapeEscapeEntity(4, c, t); }
    else { DescapePlain(c, t); }
  }

  lemma DescapeEscapeEntity(i: nat, c: char, t: string)
    requires i < |Entities| && c == Entities[i].1
    ensures Descape(EscapeChar(c) + t) == [c] + Descape(t)
  {
    assert EscapeChar(c) == Entities[i].0;
    DescapeEntity(i, t);
  }

  /** `Descape` inverts HTML escaping of the five characters, on every string. */
  lemma {:induction false} DescapeEscape(s: string)
    ensures Descape(Escape(s)) == s
  {
    if s != [] {
      DescapeEscapeChar(s[0], Escape(s[1..]));
      DescapeEscape(s[1..]);
    }
  }

  /** Every entity occurrence makes the output strictly shorter. */
  lemma {:induction false} DescapeShrinks(s: string)
    requires HasEntity(s)
    ensures |Descape(s)| < |s|
    decreases |s|
  {
    var i :| 0 <= i < |s| && EntityAt(s[i..]).Some?;
    if EntityAt(s).None? {
      assert i != 0 by { assert s[0..] == s; }
      assert s[1..][i - 1..] == s[i..];
      DescapeShrinks(s[1..]);
    }
  }

  /** Without any entity occurrence the pass copies its input. */
  lemma {:induction false} DescapeNoEntity(s: string)
    requires !HasEntity(s)
    ensures Descape(s) == s
    decreases |s|
  {
    if s != [] {
      assert s[0..] == s;
      assert EntityAt(s).None?;
      forall i | 0 <= i < |s| - 1 ensures EntityAt(s[1..][i..]).None? {
        assert s[1..][i..] == s[i + 1..];
      }
      DescapeNoEntity(s[1..]);
    }
  }

  /** `Descape` leaves `s` unchanged exactly when no entity occurs in it. */
  lemma DescapeFixedPoint(s: string)
    ensures Descape(s) == s <==> !HasEntity(s)
  {
    if HasEntity(s) { DescapeShrinks(s); } else { DescapeNoEntity(s); }
  }

  /** The characters an entity decodes to. */
  predicate DecodedChar(c: char) {
    c == '"' || c == '\'' || c == '&' || c == '<' || c == '>'
  }

  /**
   * A prefix made of characters no entity decodes to can only appear at the
   * start of the decoded text if the input started with it already.
   */
  lemma {:induction false} DescapePrefix(u: string, p: string)
    requires forall i :: 0 <= i < |p| ==> !DecodedChar(p[i])
    requires StartsWith(Descape(u), p)
    ensures StartsWith(u, p)
    decreases |u|
  {
    if p != [] {
      assert Descape(u)[0] == p[0];
      match EntityAt(u)
      case Some(_) =>
        // The decoded text would start with a character that `p` does not start with.
        assert false;
      case None =>
        assert Descape(u) == [u[0]] + Descape(u[1..]);
        assert Descape(u)[1..] == Descape(u[1..]);
        assert Descape(u[1..])[..|p| - 1] == p[1..];
        DescapePrefix(u[1..], p[1..]);
        assert u[..|p|] == [u[0]] + u[1..][..|p| - 1];
    }
  }

  // ---------------------------------------------------------------------------
  // Line terminators and lazy `.*?`
  // ---------------------------------------------------------------------------

  /** The characters that `.` never matches and `^`/`$` see as line ends under `m`. */
  predicate IsLineTerminator(c: char) {
    c == '\n' || c == '\r' || c == '\U{2028}' || c == '\U{2029}'
  }

  /** `s[i..j]` holds no line terminator, so `.*` can span it. */
  predicate LineFree(s: string, i: nat, j: nat)
    requires i <= j <= |s|
  {
    forall k :: i <= k < j ==> !IsLineTerminator(s[k])
  }

  /** A text that contains none of the four line terminators is free of them throughout. */
  lemma LineFreeChars(s: string)
    requires '\n' !in s && '\r' !in s && '\U{2028}' !in s && '\U{2029}' !in s
    ensures LineFree(s, 0, |s|)
  {
    forall k | 0 <= k < |s| ensures !IsLineTerminator(s[k]) {
      assert s[k] in s;
    }
  }

  /** `s[k]` is where a lazy `.*?c` started at `i` stops: the first `c` on the line. */
  predicate FirstOnLine(s: string, i: nat, k: nat, c: char) {
    i <= k < |s| && s[k] == c && LineFree(s, i, k) && forall m :: i <= m < k ==> s[m] != c
  }

  function FindOnLine(s: string, i: nat, c: char): (r: Option<nat>)
    requires i <= |s| && !IsLineTerminator(c)
    ensures r.Some? ==> i <= r.value < |s| && s[r.value] == c
    decreases |s| - i
  {
    if i == |s| || IsLineTerminator(s[i]) then None
    else if s[i] == c then Some(i)
    else FindOnLine(s, i + 1, c)
  }

  /**
   * A lazy `.*?c` started at `i` stops at the first `c` on the line, and fails
   * exactly when a line terminator or the end of the text comes first.
   */
  lemma {:induction false} FindOnLineFirst(s: string, i: nat, c: char)
    requires i <= |s| && !IsLineTerminator(c)
    ensures FindOnLine(s, i, c).Some? ==> FirstOnLine(s, i, FindOnLine(s, i, c).value, c)
    ensures FindOnLine(s, i, c).None? ==> forall k :: i <= k < |s| && s[k] == c ==> !LineFree(s, i, k)
    decreases |s| - i
  {
    if i < |s| && !IsLineTerminator(s[i]) && s[i] != c {
      FindOnLineFirst(s, i + 1, c);
    }
  }

  /** The stopping point of a lazy `.*?c` is unique, so any first `c` is the one found. */
  lemma FindOnLineFinds(s: string, i: nat, k: nat, c: char)
    requires i <= |s| && !IsLineTerminator(c) && FirstOnLine(s, i, k, c)
    ensures FindOnLine(s, i, c) == Some(k)
  {
    FindOnLineFirst(s, i, c);
  }

  // ---------------------------------------------------------------------------
  // removeQuotes
  // ---------------------------------------------------------------------------

  predicate IsQuote(c: char) {
    c == '"' || c == '\''
  }

  /** `s[p..e+1]` is a whole line that /^("|').*?(\1)$/m matches. */
  predicate QuotedLine(s: string, p: int, e: int) {
    0 <= p < e < |s|
    && (p == 0 || IsLineTerminator(s[p - 1]))
    && (e + 1 == |s| || IsLineTerminator(s[e + 1]))
    && IsQuote(s[p]) && s[e] == s[p]
    && LineFree(s, p, e + 1)
  }

  /** `s` is wrapped in one matching pair of quotes. */
  predicate Quoted(s: string) {
    |s| >= 2 && IsQuote(s[0]) && s[|s| - 1] == s[0]
  }

  /**
   * `removeQuotes`: when the multiline test succeeds on some line of `s`, the
   * first and last characters of the whole string are sliced off.
   */
  function RemoveQuotes(s: string): (r: string)
    ensures r == s || (|s| >= 2 && r == s[1..|s| - 1])
  {
    if exists p, e | 0 <= p < e < |s| :: QuotedLine(s, p, e) then s[1..|s| - 1] else s
  }

  /** On a single line, one pair of wrapping quotes is removed exactly when it is there. */
  lemma RemoveQuotesLine(s: string)
    requires LineFree(s, 0, |s|)
    ensures RemoveQuotes(s) != s <==> Quoted(s)
    ensures Quoted(s) ==> RemoveQuotes(s) == s[1..|s| - 1]
  {
    if Quoted(s) {
      assert QuotedLine(s, 0, |s| - 1);
      assert |RemoveQuotes(s)| == |s| - 2;
    } else {
      forall p, e | 0 <= p < e < |s| ensures !QuotedLine(s, p, e) {
      }
    }
  }

  /** Quoting a one-line string and removing the quotes again gives it back. */
  lemma RemoveQuotesWrapped(q: char, u: string)
    requires IsQuote(q) && LineFree(u, 0, |u|)
    ensures RemoveQuotes([q] + u + [q]) == u
  {
    var s := [q] + u + [q];
    assert LineFree(s, 0, |s|) by {
      forall k | 0 <= k < |s| ensures !IsLineTerminator(s[k]) {
        if 0 < k < |s| - 1 { assert s[k] == u[k - 1]; }
      }
    }
    RemoveQuotesLine(s);
    assert s[1..|s| - 1] == u;
  }

  // ---------------------------------------------------------------------------
  // isDataUrl, isEmptyString, filterer
  // ---------------------------------------------------------------------------

  /** `isDataUrl`: already embedded (`data:`) or an in-document fragment (`#`). */
  predicate IsDataUrl(url: string) {
    StartsWith(url, "data:") || StartsWith(url, "#")
  }

  predicate IsEmptyString(url: string) {
    url == ""
  }

  /** `filterer`: keep what is neither embedded, a fragment nor empty. */
  predicate Filterer(url: string) {
    !IsDataUrl(url) && !IsEmptyString(url)
  }

  /** What `filterer` keeps, stated on characters. */
  lemma FiltererChars(url: string)
    ensures Filterer(url) <==>
      |url| > 0 && url[0] != '#' && !(|url| >= 5 && url[..5] == "data:")
  {
    if |url| > 0 {
      assert StartsWith(url, "#") <==> url[0] == '#' by { assert url[0..1] == [url[0]]; }
    }
  }

  /** `Array.prototype.filter(filterer)`. */
  function FilterUrls(urls: seq<string>): (r: seq<string>)
    ensures |r| <= |urls|
    ensures forall u :: u in r ==> u in urls && Filterer(u)
    ensures forall u :: u in urls && Filterer(u) ==> u in r
  {
    if urls == [] then []
    else (if Filterer(urls[0]) then [urls[0]] else []) + FilterUrls(urls[1..])
  }

  /** The filter keeps every copy of a URL that passes it, duplicates included, and no copy of one that fails. */
  lemma {:induction false} FilterUrlsCount(urls: seq<string>)
    ensures forall u :: multiset(FilterUrls(urls))[u] == if Filterer(u) then multiset(urls)[u] else 0
  {
    if urls != [] {
      FilterUrlsCount(urls[1..]);
      assert urls == [urls[0]] + urls[1..];
    }
  }

  /** `a` is `b` with some elements dropped and the rest in their order. */
  predicate IsSubsequence<T(==)>(a: seq<T>, b: seq<T>)
    decreases |b|
  {
    if a == [] then true
    else if b == [] then false
    else if a[0] == b[0] then IsSubsequence(a[1..], b[1..])
    else IsSubsequence(a, b[1..])
  }

  /** The filter keeps its input order. */
  lemma {:induction false} FilterUrlsSubsequence(urls: seq<string>)
    ensures IsSubsequence(FilterUrls(urls), urls)
  {
    if urls != [] {
      FilterUrlsSubsequence(urls[1..]);
      var r := FilterUrls(urls);
      if Filterer(urls[0]) {
        assert r[0] == urls[0] && r[1..] == FilterUrls(urls[1..]);
      } else {
        assert r == FilterUrls(urls[1..]);
        if r != [] { SubsequenceDrop(r, urls); }
      }
    }
  }

  /** A subsequence of the tail is a subsequence of the whole. */
  lemma {:induction false} SubsequenceDrop<T>(a: seq<T>, b: seq<T>)
    requires b != [] && IsSubsequence(a, b[1..])
    ensures IsSubsequence(a, b)
    decreases |a| + |b|
  {
    if a != [] && a[0] == b[0] {
      SubsequenceTailLeft(a, b[1..]);
    }
  }

  /** Dropping the head of a subsequence keeps it a subsequence. */
  lemma {:induction false} SubsequenceTailLeft<T>(a: seq<T>, b: seq<T>)
    requires a != [] && IsSubsequence(a, b)
    ensures IsSubsequence(a[1..], b)
    decreases |a| + |b|
  {
    if a[0] == b[0] {
      if a[1..] != [] { SubsequenceDrop(a[1..], b); }
    } else {
      SubsequenceTailLeft(a, b[1..]);
      if a[1..] != [] { SubsequenceDrop(a[1..], b); }
    }
  }

  /** The filter works element by element: it distributes over concatenation. */
  lemma {:induction false} FilterUrlsAppend(a: seq<string>, b: seq<string>)
    ensures FilterUrls(a + b) == FilterUrls(a) + FilterUrls(b)
  {
    if a != [] {
      FilterUrlsAppend(a[1..], b);
      FilterUrlsHead(a + b);
      assert (a + b)[0] == a[0] && (a + b)[1..] == a[1..] + b;
      AppendAssoc(if Filterer(a[0]) then [a[0]] else [], FilterUrls(a[1..]), FilterUrls(b));
    } else {
      assert a + b == b;
    }
  }

  /** The filter looks at the first URL, then at the rest. */
  lemma FilterUrlsHead(t: seq<string>)
    requires t != []
    ensures FilterUrls(t) == (if Filterer(t[0]) then [t[0]] else []) + FilterUrls(t[1..])
  {
  }

  lemma AppendAssoc<T>(a: seq<T>, b: seq<T>, c: seq<T>)
    ensures a + b + c == a + (b + c)
  {
  }

  // ---------------------------------------------------------------------------
  // The two regexes and matchAll
  // ---------------------------------------------------------------------------

  /** The two global regexes of the library. */
  datatype Pattern =
    | CssUrl      // /url\((.*?)\)/gi, capture group 1
    | HtmlImage   // /<(?:img|image).*?(?:href|src)=(["|'])(.*?)(\1)/gm, capture group 2

  /**
   * A match at the start of a text `u` covers `u[..end]`; the capture group
   * used by `take` is `u[capStart..capEnd]`.
   */
  datatype Match = Match(end: nat, capStart: nat, capEnd: nat)

  /** `url(` with the letters in either case, at the start of `u`. */
  predicate UrlOpen(u: string) {
    |u| >= 4
    && (u[0] == 'u' || u[0] == 'U')
    && (u[1] == 'r' || u[1] == 'R')
    && (u[2] == 'l' || u[2] == 'L')
    && u[3] == '('
  }

  /*
   * The regexes have no lookbehind, so whether one matches at a position
   * depends only on the text from that position on.  Each matcher below is
   * therefore stated on that rest of the input, `u`, with positions relative
   * to it.
   */

  /** /url\((.*?)\)/i tried at the start of `u`: `url(` and then up to the first `)` on the same line. */
  function CssMatchHere(u: string): (r: Option<Match>)
    ensures r.Some? ==> r.value == Match(r.value.capEnd + 1, 4, r.value.capEnd) && 4 <= r.value.capEnd < |u|
    ensures r.Some? ==> UrlOpen(u) && u[r.value.capEnd] == ')'
  {
    if UrlOpen(u) then
      match FindOnLine(u, 4, ')')
      case Some(k) => Some(Match(k + 1, 4, k))
      case None => None
    else None
  }

  /** `<img` or `<image` at the start of `u`, and where the tag name ends. */
  function TagEnd(u: string): (r: Option<nat>)
    ensures r.Some? ==> 4 <= r.value <= |u|
    ensures r == Some(4) <==> StartsWith(u, "<img")
    ensures r == Some(6) <==> StartsWith(u, "<image")
    ensures r.None? <==> !StartsWith(u, "<img") && !StartsWith(u, "<image")
  {
    if StartsWith(u, "<img") then
      assert !StartsWith(u, "<image") by {
        if |u| >= 6 { assert u[0..6][3] == u[0..4][3] == 'g'; }
      }
      Some(4)
    else if StartsWith(u, "<image") then Some(6)
    else None
  }

  /** The quote class `["|']`, which also admits `|`. */
  predicate IsAttrQuote(c: char) {
    c == '"' || c == '|' || c == '\''
  }

  /** `(?:href|src)=(["|'])` at `j`, and where the attribute value begins. */
  function AttrValueStart(u: string, j: nat): (r: Option<nat>)
    ensures r.Some? ==> j + 5 <= r.value <= |u| && IsAttrQuote(u[r.value - 1])
    ensures r.Some? ==> (StartsAt(u, j, "href=") && r.value == j + 6) || (StartsAt(u, j, "src=") && r.value == j + 5)
  {
    if StartsAt(u, j, "href=") && j + 5 < |u| && IsAttrQuote(u[j + 5]) then Some(j + 6)
    else if StartsAt(u, j, "src=") && j + 4 < |u| && IsAttrQuote(u[j + 4]) then Some(j + 5)
    else None
  }

  /**
   * The rest of the image regex tried at `j`: the attribute, its quote and the
   * lazy value closed by the same quote on the same line, as the value start
   * and the index of the closing quote.
   */
  function AttrAttempt(u: string, j: nat): (r: Option<(nat, nat)>)
    ensures r.Some? ==> j + 5 <= r.value.0 <= r.value.1 < |u|
  {
    match AttrValueStart(u, j)
    case None => None
    case Some(v) =>
      match FindOnLine(u, v, u[v - 1])
      case None => None
      case Some(k) => Some((v, k))
  }

  /**
   * The lazy `.*?` between the tag name and the attribute: the attempt at
   * `from`, then at `from + 1`, and so on while the line goes on.  The result
   * gives the position where the attempt succeeded, the value start and the
   * closing quote.
   */
  function AttrSearch(u: string, from: nat): (r: Option<(nat, nat, nat)>)
    requires from <= |u|
    ensures r.Some? ==> from <= r.value.0 <= |u| && AttrAttempt(u, r.value.0) == Some((r.value.1, r.value.2))
    decreases |u| - from
  {
    match AttrAttempt(u, from)
    case Some((v, k)) => Some((from, v, k))
    case None =>
      if from < |u| && !IsLineTerminator(u[from]) then AttrSearch(u, from + 1) else None
  }

  /** /<(?:img|image).*?(?:href|src)=(["|'])(.*?)(\1)/ tried at the start of `u`. */
  function HtmlMatchHere(u: string): (r: Option<Match>)
    ensures r.Some? ==> TagEnd(u).Some?
  {
    match TagEnd(u)
    case None => None
    case Some(a) =>
      match AttrSearch(u, a)
      case None => None
      case Some((j, v, k)) => Some(Match(k + 1, v, k))
  }

  /** The match of `pat` at the start of `u`, if any: never empty, its capture inside it. */
  function MatchHere(pat: Pattern, u: string): (r: Option<Match>)
    ensures r.Some? ==> 0 < r.value.capStart <= r.value.capEnd < r.value.end <= |u|
  {
    match pat
    case CssUrl => CssMatchHere(u)
    case HtmlImage => HtmlMatchHere(u)
  }

  /**
   * `Array.from(str.matchAll(regex))` reduced to the capture group `take`
   * reads: the match at the start if there is one, and the search goes on
   * where it ended; otherwise the search goes on one character later.  So the
   * captures of the leftmost non-overlapping matches, in order, duplicates
   * included.
   */
  function FindAll(pat: Pattern, u: string): (r: seq<string>)
    ensures |r| <= |u|
    decreases |u|
  {
    if u == [] then []
    else match MatchHere(pat, u)
      case Some(m) => [u[m.capStart..m.capEnd]] + FindAll(pat, u[m.end..])
      case None => FindAll(pat, u[1..])
  }

  /** `.map(removeQuotes)`. */
  function MapRemoveQuotes(caps: seq<string>): (r: seq<string>)
    ensures |r| == |caps| && forall i :: 0 <= i < |caps| ==> r[i] == RemoveQuotes(caps[i])
  {
    seq(|caps|, i requires 0 <= i < |caps| => RemoveQuotes(caps[i]))
  }

  /**
   * `take`: the captures of every match, unquoted, with embedded, fragment and
   * empty URLs dropped.
   */
  function Take(s: string, pat: Pattern): (r: seq<string>)
    ensures |r| <= |FindAll(pat, s)|
    ensures forall u :: u in r ==> Filterer(u)
    ensures forall u :: u in r ==> exists i :: 0 <= i < |FindAll(pat, s)| && u == RemoveQuotes(FindAll(pat, s)[i])
  {
    var mapped := MapRemoveQuotes(FindAll(pat, s));
    var r := FilterUrls(mapped);
    assert forall u :: u in r ==> u in mapped;
    r
  }

  /** The URLs `take` returns are the unquoted captures that pass the filter, in match order. */
  lemma TakeOrder(s: string, pat: Pattern)
    ensures IsSubsequence(Take(s, pat), MapRemoveQuotes(FindAll(pat, s)))
  {
    FilterUrlsSubsequence(MapRemoveQuotes(FindAll(pat, s)));
  }

  /** `getImageUrlsFromHtml`. */
  function GetImageUrlsFromHtml(html: string): (r: seq<string>)
    ensures forall u :: u in r ==> u != "" && !StartsWith(u, "data:") && !StartsWith(u, "#")
  {
    Take(html, HtmlImage)
  }

  /** `getUrlsFromCss`. */
  function GetUrlsFromCss(cssRuleString: string): (r: seq<string>)
    ensures forall u :: u in r ==> u != "" && !StartsWith(u, "data:") && !StartsWith(u, "#")
  {
    Take(cssRuleString, CssUrl)
  }

  // ---------------------------------------------------------------------------
  // Properties of the extractors
  // ---------------------------------------------------------------------------

  /** No match of `pat` starts anywhere in `u[..k]`. */
  predicate NoMatchBefore(pat: Pattern, u: string, k: nat)
    requires k <= |u|
  {
    forall p :: 0 <= p < k ==> MatchHere(pat, u[p..]).None?
  }

  /**
   * The search for the leftmost match: text in which no match starts is
   * passed over, and the captures are those found from the first position
   * where one does.
   */
  lemma {:induction false} FindAllSkip(pat: Pattern, u: string, k: nat)
    requires k <= |u| && NoMatchBefore(pat, u, k)
    ensures FindAll(pat, u) == FindAll(pat, u[k..])
    decreases k
  {
    if k > 0 {
      assert u[0..] == u;
      assert MatchHere(pat, u[0..]).None?;
      forall p | 0 <= p < k - 1 ensures MatchHere(pat, u[1..][p..]).None? {
        assert u[1..][p..] == u[p + 1..];
      }
      FindAllSkip(pat, u[1..], k - 1);
      assert u[1..][k - 1..] == u[k..];
    } else {
      assert u[0..] == u;
    }
  }

  /** `take` passes over text in which no match starts. */
  lemma TakeSkip(pat: Pattern, x: string, t: string)
    requires NoMatchBefore(pat, x + t, |x|)
    ensures Take(x + t, pat) == Take(t, pat)
  {
    FindAllSkip(pat, x + t, |x|);
    assert (x + t)[|x|..] == t;
  }

  /**
   * No CSS match starts in a text `x` without `(` whose last three characters
   * hold no `u`: the `url(` opener needs both.
   */
  lemma CssNoMatchIn(x: string, t: string)
    requires |x| >= 3 && forall i :: 0 <= i < |x| ==> x[i] != '(' && (i >= |x| - 3 ==> x[i] != 'u' && x[i] != 'U')
    ensures NoMatchBefore(CssUrl, x + t, |x|)
  {
    var s := x + t;
    forall p | 0 <= p < |x| ensures MatchHere(CssUrl, s[p..]).None? {
      if p + 3 < |x| {
        assert s[p..][3] == x[p + 3];
      } else {
        assert s[p..][0] == x[p];
      }
    }
  }

  /** `getUrlsFromCss` passes over such a text. */
  lemma CssSkip(x: string, t: string)
    requires |x| >= 3 && forall i :: 0 <= i < |x| ==> x[i] != '(' && (i >= |x| - 3 ==> x[i] != 'u' && x[i] != 'U')
    ensures GetUrlsFromCss(x + t) == GetUrlsFromCss(t)
  {
    CssNoMatchIn(x, t);
    TakeSkip(CssUrl, x, t);
  }

  /**
   * No image match starts in a text `x` that has `<` at most at its start,
   * and there not followed by `i`: both openers begin with `<i`.
   */
  lemma HtmlNoMatchIn(x: string, t: string)
    requires |x| > 0 && (x[0] == '<' ==> |x| > 1 && x[1] != 'i') && forall i :: 0 < i < |x| ==> x[i] != '<'
    ensures NoMatchBefore(HtmlImage, x + t, |x|)
  {
    var s := x + t;
    forall p | 0 <= p < |x| ensures MatchHere(HtmlImage, s[p..]).None? {
      if p > 0 {
        assert s[p..][0] == x[p];
      } else {
        assert s[p..][0] == x[0];
        if x[0] == '<' { assert s[p..][1] == x[1]; }
      }
      HtmlNoMatchAt(s[p..]);
    }
  }

  /** A text that does not begin with `<i` does not begin with an image match. */
  lemma HtmlNoMatchAt(u: string)
    requires |u| > 0 && (u[0] == '<' ==> |u| > 1 && u[1] != 'i')
    ensures MatchHere(HtmlImage, u).None?
  {
    if |u| >= 4 { assert u[..4][0] == u[0] && u[..4][1] == u[1]; }
    if |u| >= 6 { assert u[..6][0] == u[0] && u[..6][1] == u[1]; }
  }

  /** `getImageUrlsFromHtml` passes over such a text. */
  lemma HtmlSkip(x: string, t: string)
    requires |x| > 0 && (x[0] == '<' ==> |x| > 1 && x[1] != 'i') && forall i :: 0 < i < |x| ==> x[i] != '<'
    ensures GetImageUrlsFromHtml(x + t) == GetImageUrlsFromHtml(t)
  {
    HtmlNoMatchIn(x, t);
    TakeSkip(HtmlImage, x, t);
  }

  /** Text in which no match starts at all yields no capture. */
  lemma FindAllNone(pat: Pattern, u: string)
    requires NoMatchBefore(pat, u, |u|)
    ensures FindAll(pat, u) == []
  {
    FindAllSkip(pat, u, |u|);
  }

  /**
   * The lazy `.*?` of the image regex stops at the first position on the line
   * where the rest of the regex succeeds, and fails only when no position on
   * the line would do.
   */
  lemma {:induction false} AttrSearchFirst(u: string, from: nat)
    requires from <= |u|
    ensures AttrSearch(u, from).Some? ==>
      LineFree(u, from, AttrSearch(u, from).value.0)
      && forall j :: from <= j < AttrSearch(u, from).value.0 ==> AttrAttempt(u, j).None?
    ensures AttrSearch(u, from).None? ==>
      forall j :: from <= j <= |u| && LineFree(u, from, j) ==> AttrAttempt(u, j).None?
  {
    if AttrSearch(u, from).Some? {
      AttrSearchFound(u, from);
    } else {
      AttrSearchNone(u, from);
    }
  }

  lemma {:induction false} AttrSearchFound(u: string, from: nat)
    requires from <= |u| && AttrSearch(u, from).Some?
    ensures LineFree(u, from, AttrSearch(u, from).value.0)
    ensures forall j :: from <= j < AttrSearch(u, from).value.0 ==> AttrAttempt(u, j).None?
    decreases |u| - from
  {
    if AttrAttempt(u, from).None? {
      assert from < |u| && !IsLineTerminator(u[from]);
      assert AttrSearch(u, from) == AttrSearch(u, from + 1);
      AttrSearchFound(u, from + 1);
      var p := AttrSearch(u, from + 1).value.0;
      LineFreeCons(u, from, p);
      forall j | from <= j < p ensures AttrAttempt(u, j).None? {
        if j > from { assert from + 1 <= j < p; }
      }
    }
  }

  /** A line-free stretch extended by one character that is not a line terminator. */
  lemma LineFreeCons(u: string, from: nat, p: nat)
    requires from < |u| && !IsLineTerminator(u[from]) && from + 1 <= p <= |u| && LineFree(u, from + 1, p)
    ensures LineFree(u, from, p)
  {
  }

  lemma {:induction false} AttrSearchNone(u: string, from: nat)
    requires from <= |u| && AttrSearch(u, from).None?
    ensures forall j :: from <= j <= |u| && LineFree(u, from, j) ==> AttrAttempt(u, j).None?
    decreases |u| - from
  {
    if from < |u| && !IsLineTerminator(u[from]) {
      assert AttrSearch(u, from) == AttrSearch(u, from + 1);
      AttrSearchNone(u, from + 1);
      forall j | from < j <= |u| && LineFree(u, from, j) ensures LineFree(u, from + 1, j) {
      }
    }
  }

  /** A capture of the CSS regex stops before the first `)` on its line. */
  lemma CssMatchShape(u: string)
    requires CssMatchHere(u).Some?
    ensures var c := u[4..CssMatchHere(u).value.capEnd]; ')' !in c && LineFree(c, 0, |c|)
  {
    var k := CssMatchHere(u).value.capEnd;
    FindOnLineFirst(u, 4, ')');
    var c := u[4..k];
    forall j | 0 <= j < |c| ensures c[j] != ')' && !IsLineTerminator(c[j]) {
      assert c[j] == u[4 + j];
    }
  }

  /** No CSS capture holds a `)` or a line terminator. */
  lemma {:induction false} CssCaptureShape(u: string)
    ensures forall c :: c in FindAll(CssUrl, u) ==> ')' !in c && LineFree(c, 0, |c|)
    decreases |u|
  {
    if u != [] {
      match CssMatchHere(u)
      case Some(m) =>
        CssMatchShape(u);
        CssCaptureShape(u[m.end..]);
        assert FindAll(CssUrl, u) == [u[4..m.capEnd]] + FindAll(CssUrl, u[m.end..]);
      case None =>
        CssCaptureShape(u[1..]);
    }
  }

  /** A capture of the image regex is the text between two equal quotes on one line. */
  lemma HtmlMatchShape(u: string)
    requires HtmlMatchHere(u).Some?
    ensures var m := HtmlMatchHere(u).value;
      IsAttrQuote(u[m.capStart - 1]) && u[m.capEnd] == u[m.capStart - 1]
      && u[m.capStart - 1] !in u[m.capStart..m.capEnd] && LineFree(u, m.capStart, m.capEnd)
  {
    var m := HtmlMatchHere(u).value;
    var j := AttrSearch(u, TagEnd(u).value).value.0;
    var v := AttrValueStart(u, j).value;
    FindOnLineFirst(u, v, u[v - 1]);
  }

  /** No image capture holds a line terminator. */
  lemma {:induction false} HtmlCaptureShape(u: string)
    ensures forall c :: c in FindAll(HtmlImage, u) ==> LineFree(c, 0, |c|)
    decreases |u|
  {
    if u != [] {
      match HtmlMatchHere(u)
      case Some(m) =>
        HtmlMatchShape(u);
        var c := u[m.capStart..m.capEnd];
        forall j | 0 <= j < |c| ensures !IsLineTerminator(c[j]) {
          assert c[j] == u[m.capStart + j];
        }
        HtmlCaptureShape(u[m.end..]);
        assert FindAll(HtmlImage, u) == [c] + FindAll(HtmlImage, u[m.end..]);
      case None =>
        HtmlCaptureShape(u[1..]);
    }
  }

  /** Markup without an `<img` or `<image` opener yields no image URL, whatever else it holds. */
  lemma HtmlWithoutImageTag(html: string)
    requires forall p :: 0 <= p < |html| ==> !StartsAt(html, p, "<img") && !StartsAt(html, p, "<image")
    ensures GetImageUrlsFromHtml(html) == []
  {
    forall p | 0 <= p < |html| ensures MatchHere(HtmlImage, html[p..]).None? {
      StartsWithRest(html, p, "<img");
      StartsWithRest(html, p, "<image");
    }
    FindAllNone(HtmlImage, html);
  }

  /** A match at the start of `s` is reported first, and the search goes on right after it. */
  lemma FindAllStep(pat: Pattern, s: string, m: Match)
    requires MatchHere(pat, s) == Some(m)
    ensures FindAll(pat, s) == [s[m.capStart..m.capEnd]] + FindAll(pat, s[m.end..])
  {
  }

  lemma MapRemoveQuotesCons(c: string, rest: seq<string>)
    ensures MapRemoveQuotes([c] + rest) == [RemoveQuotes(c)] + MapRemoveQuotes(rest)
  {
  }

  /**
   * `take` over a text that starts with a match capturing `w` and goes on
   * with `t`: the unquoted `w` if it passes the filter, then the URLs of `t`.
   * Matches are reported left to right, one by one, duplicates included.
   */
  lemma TakeLeading(pat: Pattern, s: string, m: Match, w: string, t: string)
    requires MatchHere(pat, s) == Some(m) && s[m.capStart..m.capEnd] == w && s[m.end..] == t
    ensures Take(s, pat) == FilterUrls([RemoveQuotes(w)]) + Take(t, pat)
  {
    FindAllStep(pat, s, m);
    MapRemoveQuotesCons(w, FindAll(pat, t));
    FilterUrlsAppend([RemoveQuotes(w)], MapRemoveQuotes(FindAll(pat, t)));
  }

  /** The CSS token `url(w)`. */
  function CssUrlText(w: string): string {
    "url(" + w + ")"
  }

  /** The regex matches the whole token `url(w)` when `w` has no `)` and no line end. */
  lemma CssUrlTokenMatch(w: string, t: string)
    requires ')' !in w && LineFree(w, 0, |w|)
    ensures MatchHere(CssUrl, CssUrlText(w) + t) == Some(Match(|w| + 5, 4, |w| + 4))
    ensures (CssUrlText(w) + t)[4..|w| + 4] == w && (CssUrlText(w) + t)[|w| + 5..] == t
  {
    var a := CssUrlText(w);
    var s := a + t;
    assert s[..4] == "url(";
    assert UrlOpen(s);
    forall k | 4 <= k < |a| - 1 ensures s[k] != ')' && !IsLineTerminator(s[k]) {
      assert s[k] == w[k - 4];
    }
    FindOnLineFinds(s, 4, |a| - 1, ')');
    assert s[4..|a| - 1] == w;
    assert s[|a|..] == t;
  }

  /** `getUrlsFromCss` over `url(w)` and then `t`: the unquoted `w` if it passes the filter, then the URLs of `t`. */
  lemma CssUrlToken(w: string, t: string)
    requires ')' !in w && LineFree(w, 0, |w|)
    ensures GetUrlsFromCss(CssUrlText(w) + t) == FilterUrls([RemoveQuotes(w)]) + GetUrlsFromCss(t)
  {
    CssUrlTokenMatch(w, t);
    TakeLeading(CssUrl, CssUrlText(w) + t, Match(|w| + 5, 4, |w| + 4), w, t);
  }

  /** `url(qwq)` for a quote `q`: the URL `w` without its quotes. */
  lemma CssQuotedToken(q: char, w: string, t: string)
    requires IsQuote(q) && ')' !in w && LineFree(w, 0, |w|)
    ensures GetUrlsFromCss(CssUrlText([q] + w + [q]) + t) == FilterUrls([w]) + GetUrlsFromCss(t)
  {
    var v := [q] + w + [q];
    forall k | 0 <= k < |v| ensures v[k] != ')' && !IsLineTerminator(v[k]) {
      if 0 < k < |v| - 1 { assert v[k] == w[k - 1]; }
    }
    RemoveQuotesWrapped(q, w);
    CssUrlToken(v, t);
  }

  /**
   * Single, double or no quotes inside `url(...)` give the same result: the
   * bare URL when it passes the filter, nothing otherwise.
   */
  lemma CssQuoteStyles(w: string, t: string)
    requires ')' !in w && LineFree(w, 0, |w|) && !Quoted(w)
    ensures GetUrlsFromCss(CssUrlText("'" + w + "'") + t) == FilterUrls([w]) + GetUrlsFromCss(t)
    ensures GetUrlsFromCss(CssUrlText("\"" + w + "\"") + t) == FilterUrls([w]) + GetUrlsFromCss(t)
    ensures GetUrlsFromCss(CssUrlText(w) + t) == FilterUrls([w]) + GetUrlsFromCss(t)
  {
    RemoveQuotesLine(w);
    CssUrlToken(w, t);
    CssQuotedToken('\'', w, t);
    CssQuotedToken('"', w, t);
  }

  /**
   * The markup token `tag gap attr q w q`, for instance `<img src="w"` (gap
   * `" "`) or `<image xlink:href="w"` (gap `" xlink:"`).
   */
  function ImageTagText(tag: string, gap: string, attr: string, q: char, w: string): (r: string)
    ensures |r| == |tag| + |gap| + |attr| + |w| + 2
  {
    tag + gap + attr + [q] + w + [q]
  }

  /** An `<img`/`<image` opener at the start of `s`: the tag name ends after it. */
  lemma TagEndAt(tag: string, s: string)
    requires tag == "<img" || tag == "<image"
    requires |tag| <= |s| && s[..|tag|] == tag
    ensures TagEnd(s) == Some(|tag|)
  {
    if tag == "<image" {
      assert s[..6][3] == 'a';
      assert s[..4][3] == s[..6][3];
    } else {
      assert s[0..4] == s[..4];
    }
  }

  /** `src=`/`href=` and a quote at `j`: the value starts after the quote. */
  lemma AttrValueStartAt(attr: string, q: char, s: string, j: nat)
    requires attr == "src=" || attr == "href="
    requires IsAttrQuote(q) && j + |attr| < |s| && s[j..j + |attr|] == attr && s[j + |attr|] == q
    ensures AttrValueStart(s, j) == Some(j + |attr| + 1)
  {
    if attr == "src=" {
      assert s[j..j + 4][0] == 's';
    }
  }

  /**
   * `attr q` at `j`, then a value closed by the first `q` on the line at `k`:
   * the attribute attempt there succeeds with that value.
   */
  lemma AttrAttemptAt(attr: string, q: char, s: string, j: nat, k: nat)
    requires attr == "src=" || attr == "href="
    requires IsAttrQuote(q) && j + |attr| < |s| && s[j..j + |attr|] == attr && s[j + |attr|] == q
    requires FirstOnLine(s, j + |attr| + 1, k, q)
    ensures AttrAttempt(s, j) == Some((j + |attr| + 1, k))
  {
    AttrValueStartAt(attr, q, s, j);
    FindOnLineFinds(s, j + |attr| + 1, k, q);
  }

  /** No position of `s[b..e]` begins `src=` or `href=`, and none holds a line terminator. */
  predicate GapAt(s: string, b: nat, e: nat)
    requires b <= e <= |s|
  {
    forall i :: b <= i < e ==> !StartsAt(s, i, "src=") && !StartsAt(s, i, "href=") && !IsLineTerminator(s[i])
  }

  /** Inside such a gap, every attempt of the attribute part fails. */
  lemma GapAttemptFails(s: string, b: nat, e: nat, i: nat)
    requires b <= i < e <= |s| && GapAt(s, b, e)
    ensures AttrAttempt(s, i).None?
  {
    assert !StartsAt(s, i, "src=") && !StartsAt(s, i, "href=");
  }

  /** The lazy search passes over such a gap, on the same line, and goes on at its end. */
  lemma {:induction false} AttrSearchGap(s: string, b: nat, e: nat, i: nat)
    requires b <= i <= e <= |s| && GapAt(s, b, e)
    ensures AttrSearch(s, i) == AttrSearch(s, e)
    decreases e - i
  {
    if i < e {
      GapAttemptFails(s, b, e, i);
      assert !IsLineTerminator(s[i]);
      AttrSearchGap(s, b, e, i + 1);
    }
  }

  /**
   * A text that opens with an image tag name, then a gap, then `attr q` at
   * `e` and a value closed by the first `q` on the line at `k`, starts with an
   * image match capturing that value.
   */
  lemma ImageTokenMatch(tag: string, attr: string, q: char, s: string, e: nat, m: Match)
    requires tag == "<img" || tag == "<image"
    requires attr == "src=" || attr == "href="
    requires |tag| <= e && e + |attr| < |s| && s[..|tag|] == tag && GapAt(s, |tag|, e)
    requires IsAttrQuote(q) && s[e..e + |attr|] == attr && s[e + |attr|] == q
    requires m.capStart == e + |attr| + 1 && m.end == m.capEnd + 1 && FirstOnLine(s, m.capStart, m.capEnd, q)
    ensures MatchHere(HtmlImage, s) == Some(m)
  {
    AttrAttemptAt(attr, q, s, e, m.capEnd);
    assert AttrSearch(s, e) == Some((e, m.capStart, m.capEnd));
    AttrSearchGap(s, |tag|, e, |tag|);
    TagEndAt(tag, s);
    HtmlMatchAt(s, |tag|, e, m);
  }

  /** The image match assembled from where the tag name ends and where the attribute search stops. */
  lemma HtmlMatchAt(s: string, a: nat, e: nat, m: Match)
    requires a <= |s| && TagEnd(s) == Some(a) && AttrSearch(s, a) == Some((e, m.capStart, m.capEnd)) && m.end == m.capEnd + 1
    ensures MatchHere(HtmlImage, s) == Some(m)
  {
  }

  /** Where the parts of the token `tag gap attr q w q` lie in a text `s` that begins with it. */
  lemma ImageTagParts(tag: string, gap: string, attr: string, q: char, w: string, t: string, s: string, v: nat)
    requires s == ImageTagText(tag, gap, attr, q, w) + t && v == |tag| + |gap| + |attr| + 1
    ensures |s| == v + |w| + 1 + |t|
    ensures s[..|tag|] == tag && s[|tag|..|tag| + |gap|] == gap && s[|tag| + |gap|..v - 1] == attr
    ensures s[v - 1] == q && s[v..v + |w|] == w && s[v + |w|] == q && s[v + |w| + 1..] == t
  {
    assert s == tag + gap + attr + [q] + w + [q] + t;
  }

  /** Gap text on one line in which neither `src=` nor `href=` begins. */
  predicate AttrFreeGap(gap: string) {
    LineFree(gap, 0, |gap|) && forall i :: 0 <= i < |gap| ==> !StartsAt(gap, i, "src=") && !StartsAt(gap, i, "href=")
  }

  /** Both attribute names have `r` second, so gap text on one line without `r` is such a gap. */
  lemma AttrFreeGapWithoutR(gap: string)
    requires 'r' !in gap && LineFree(gap, 0, |gap|)
    ensures AttrFreeGap(gap)
  {
    forall i | 0 <= i < |gap| ensures !StartsAt(gap, i, "src=") && !StartsAt(gap, i, "href=") {
      if i + 1 < |gap| {
        assert gap[i + 1] != 'r';
        if i + 4 <= |gap| { assert gap[i..i + 4][1] == gap[i + 1]; }
        if i + 5 <= |gap| { assert gap[i..i + 5][1] == gap[i + 1]; }
      }
    }
  }

  /**
   * Such a gap text placed at `b` and followed by `src=` or `href=`: no
   * position of the gap begins an attribute name in `s` either, since no
   * proper suffix of one name begins another.
   */
  lemma GapOfText(gap: string, attr: string, s: string, b: nat)
    requires attr == "src=" || attr == "href="
    requires AttrFreeGap(gap)
    requires b + |gap| + |attr| <= |s| && s[b..b + |gap|] == gap && s[b + |gap|..b + |gap| + |attr|] == attr
    ensures GapAt(s, b, b + |gap|)
  {
    var e := b + |gap|;
    assert s[e] == 's' || s[e] == 'h' by { assert s[e] == s[e..e + |attr|][0]; }
    forall i | b <= i < e ensures !StartsAt(s, i, "src=") && !StartsAt(s, i, "href=") && !IsLineTerminator(s[i]) {
      assert s[i] == gap[i - b];
      GapPositionFree(gap, s, b, i, "src=");
      GapPositionFree(gap, s, b, i, "href=");
    }
  }

  /** One attribute name `a` at one gap position `i`. */
  lemma GapPositionFree(gap: string, s: string, b: nat, i: nat, a: string)
    requires a == "src=" || a == "href="
    requires AttrFreeGap(gap) && b <= i < b + |gap| <= |s| && s[b..b + |gap|] == gap
    requires b + |gap| < |s| && (s[b + |gap|] == 's' || s[b + |gap|] == 'h')
    ensures !StartsAt(s, i, a)
  {
    var e := b + |gap|;
    if i + |a| <= e {
      if StartsAt(s, i, a) {
        assert gap[i - b..i - b + |a|] == s[i..i + |a|];
        assert StartsAt(gap, i - b, a);
        assert false;
      }
    } else if i + |a| <= |s| {
      assert s[i..i + |a|][e - i] == s[e];
    }
  }

  /** A value `w` without `q` on one line, placed at `v` and followed by `q`: that `q` is the first on the line. */
  lemma FirstOnLineOfText(w: string, q: char, s: string, v: nat)
    requires q !in w && LineFree(w, 0, |w|)
    requires v + |w| < |s| && s[v..v + |w|] == w && s[v + |w|] == q
    ensures FirstOnLine(s, v, v + |w|, q)
  {
    forall m | v <= m < v + |w| ensures s[m] != q && !IsLineTerminator(s[m]) {
      assert s[m] == w[m - v];
    }
  }

  /** The layout of `tag gap attr q w q` at the start of `s`, in the positional terms of `ImageTokenMatch`. */
  lemma ImageTagLayout(tag: string, gap: string, attr: string, q: char, w: string, t: string, s: string, v: nat)
    requires attr == "src=" || attr == "href="
    requires AttrFreeGap(gap) && q !in w && LineFree(w, 0, |w|)
    requires s == ImageTagText(tag, gap, attr, q, w) + t && v == |tag| + |gap| + |attr| + 1
    ensures |tag| + |gap| + |attr| < |s| && s[..|tag|] == tag && GapAt(s, |tag|, |tag| + |gap|)
    ensures s[|tag| + |gap|..v - 1] == attr && s[v - 1] == q && FirstOnLine(s, v, v + |w|, q)
    ensures s[v..v + |w|] == w && s[v + |w| + 1..] == t
  {
    ImageTagParts(tag, gap, attr, q, w, t, s, v);
    GapOfText(gap, attr, s, |tag|);
    FirstOnLineOfText(w, q, s, v);
  }

  /** The token `tag gap attr q w q` opens an image match capturing `w`, after which `t` follows. */
  lemma ImageTagMatch(tag: string, gap: string, attr: string, q: char, w: string, t: string, s: string, m: Match)
    requires tag == "<img" || tag == "<image"
    requires attr == "src=" || attr == "href="
    requires AttrFreeGap(gap)
    requires IsAttrQuote(q) && q !in w && LineFree(w, 0, |w|)
    requires s == ImageTagText(tag, gap, attr, q, w) + t
    requires m == Match(|tag| + |gap| + |attr| + |w| + 2, |tag| + |gap| + |attr| + 1, |tag| + |gap| + |attr| + |w| + 1)
    ensures MatchHere(HtmlImage, s) == Some(m)
    ensures s[m.capStart..m.capEnd] == w && s[m.end..] == t
  {
    ImageTagLayout(tag, gap, attr, q, w, t, s, m.capStart);
    ImageTokenMatch(tag, attr, q, s, |tag| + |gap|, m);
  }

  /**
   * `getImageUrlsFromHtml` over the token `tag gap attr q w q` and then `t`:
   * the unquoted `w` if it passes the filter, then the URLs of `t`.  The gap
   * may hold other attributes, as in `<img class="c" src="w"`, and other
   * attribute names that end in `src=`, as in `<img data-src="w"` (gap `" data-"`).
   */
  lemma HtmlImageToken(tag: string, gap: string, attr: string, q: char, w: string, t: string)
    requires tag == "<img" || tag == "<image"
    requires attr == "src=" || attr == "href="
    requires AttrFreeGap(gap)
    requires IsAttrQuote(q) && q !in w && LineFree(w, 0, |w|)
    ensures GetImageUrlsFromHtml(ImageTagText(tag, gap, attr, q, w) + t)
            == FilterUrls([RemoveQuotes(w)]) + GetImageUrlsFromHtml(t)
  {
    var s := ImageTagText(tag, gap, attr, q, w) + t;
    var j := |tag| + |gap| + |attr|;
    var m := Match(j + |w| + 2, j + 1, j + |w| + 1);
    ImageTagMatch(tag, gap, attr, q, w, t, s, m);
    TakeLeading(HtmlImage, s, m, w, t);
  }
}

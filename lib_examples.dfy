/**
 * The cases of the library's own test suite (tests/main.ts), stated as
 * lemmas about the model of src/lib.ts.
 */
module LibExamples {
  import opened Lib

  // ---------------------------------------------------------------------------
  // removeQuotes, descape, isEmptyString, isDataUrl
  // ---------------------------------------------------------------------------

  lemma RemoveQuotesSingleAroundDouble()
    ensures RemoveQuotes("'\"\"'") == "\"\""
  {
    LineFreeChars("\"\"");
    RemoveQuotesWrapped('\'', "\"\"");
    assert "'\"\"'" == ['\''] + "\"\"" + ['\''];
  }

  lemma RemoveQuotesDoubleAroundSingle()
    ensures RemoveQuotes("\"''\"") == "''"
  {
    LineFreeChars("''");
    RemoveQuotesWrapped('"', "''");
    assert "\"''\"" == ['"'] + "''" + ['"'];
  }

  lemma RemoveQuotesFourDouble()
    ensures RemoveQuotes("\"\"\"\"") == "\"\""
  {
    LineFreeChars("\"\"");
    RemoveQuotesWrapped('"', "\"\"");
    assert "\"\"\"\"" == ['"'] + "\"\"" + ['"'];
  }

  lemma RemoveQuotesFourSingle()
    ensures RemoveQuotes("''''") == "''"
  {
    LineFreeChars("''");
    RemoveQuotesWrapped('\'', "''");
    assert "''''" == ['\''] + "''" + ['\''];
  }

  lemma DescapeQuot()
    ensures Descape("&quot;") == "\""
  {
    DescapeEntity(0, "");
    assert Entities[0].0 + "" == "&quot;";
  }

  lemma DescapeApos()
    ensures Descape("&#39;") == "'"
  {
    DescapeEntity(1, "");
    assert Entities[1].0 + "" == "&#39;";
  }

  lemma DescapeAmp()
    ensures Descape("&amp;") == "&"
  {
    DescapeEntity(2, "");
    assert Entities[2].0 + "" == "&amp;";
  }

  lemma DescapeLt()
    ensures Descape("&lt;") == "<"
  {
    DescapeEntity(3, "");
    assert Entities[3].0 + "" == "&lt;";
  }

  lemma DescapeGt()
    ensures Descape("&gt;") == ">"
  {
    DescapeEntity(4, "");
    assert Entities[4].0 + "" == "&gt;";
  }

  /** One pass only: the `&` produced from `&amp;` does not start a new entity. */
  lemma DescapeSinglePass()
    ensures Descape("&amp;lt;") == "&lt;"
  {
    DescapeEntity(2, "lt;");
    DescapeNoAmpersand("lt;");
    assert Entities[2].0 + "lt;" == "&amp;lt;";
  }

  lemma EmptyStringCase()
    ensures IsEmptyString("")
  {
  }

  lemma DataUrlCases()
    ensures IsDataUrl("data:image/svg+xml,<svg></svg>")
    ensures IsDataUrl("#path")
  {
    assert "data:image/svg+xml,<svg></svg>"[..5] == "data:";
  }

  /** The test input `&quot;stars.jpg&quot;`, written as its three parts. */
  lemma DescapeThenRemoveQuotes()
    ensures RemoveQuotes(Descape("&quot;" + "stars.jpg" + "&quot;")) == "stars.jpg"
  {
    var w := "stars.jpg";
    assert "&quot;" == Entities[0].0;
    DescapeEntityWrapped(0, w);
    LineFreeChars(w);
    RemoveQuotesWrapped('"', w);
  }

  // ---------------------------------------------------------------------------
  // getUrlsFromCss
  // ---------------------------------------------------------------------------

  /** Text before `url(` in which no CSS match starts. */
  predicate CssInert(x: string) {
    |x| >= 3 && forall i :: 0 <= i < |x| ==> x[i] != '(' && (i >= |x| - 3 ==> x[i] != 'u' && x[i] != 'U')
  }

  /** A value on one line, without `)` and not itself quoted. */
  predicate PlainValue(w: string) {
    ')' !in w && LineFree(w, 0, |w|) && !Quoted(w)
  }

  /**
   * A declaration `x url(v)` whose text before `url(` has no match of its own,
   * for a value `v` that is `w` in single, double or no quotes.
   */
  lemma DeclarationUrl(x: string, v: string, w: string)
    requires CssInert(x) && PlainValue(w)
    requires v == "'" + w + "'" || v == "\"" + w + "\"" || v == w
    ensures GetUrlsFromCss(x + CssUrlText(v)) == FilterUrls([w])
  {
    CssQuoteStyles(w, "");
    assert CssUrlText(v) + "" == CssUrlText(v);
    CssSkip(x, CssUrlText(v));
  }

  /** Such a declaration whose value `filterer` drops yields no URL. */
  lemma DeclarationDropped(x: string, v: string, w: string)
    requires CssInert(x) && PlainValue(w) && !Filterer(w)
    requires v == "'" + w + "'" || v == "\"" + w + "\"" || v == w
    ensures GetUrlsFromCss(x + CssUrlText(v)) == []
  {
    DeclarationUrl(x, v, w);
    FilterUrlsHead([w]);
    assert [w][1..] == [];
  }

  /** Such a declaration whose value `filterer` keeps yields exactly that value. */
  lemma DeclarationKept(x: string, v: string, w: string)
    requires CssInert(x) && PlainValue(w) && Filterer(w)
    requires v == "'" + w + "'" || v == "\"" + w + "\"" || v == w
    ensures GetUrlsFromCss(x + CssUrlText(v)) == [w]
  {
    DeclarationUrl(x, v, w);
    FilterUrlsHead([w]);
    assert [w][1..] == [];
  }

  /** The URL values of the CSS tests. */
  const DataUrl := "data:image/svg+xml,"
  const Grape := "./grape.jpg"

  lemma BackgroundInert()
    ensures CssInert("background: ")
  {
  }

  lemma DataUrlValue()
    ensures PlainValue(DataUrl)
  {
    var w := DataUrl;
    assert ')' !in w;
    assert LineFree(w, 0, |w|);
    assert !Quoted(w);
  }

  lemma DataUrlDropped()
    ensures !Filterer(DataUrl)
  {
    assert DataUrl[..5] == "data:";
  }

  lemma GrapeValue()
    ensures PlainValue(Grape)
  {
  }

  lemma GrapeKept()
    ensures Filterer(Grape)
  {
    FiltererChars(Grape);
  }

  /** `background: url('data:image/svg+xml,')` */
  lemma CssDataUrlSingleQuoted()
    ensures GetUrlsFromCss("background: " + CssUrlText("'" + DataUrl + "'")) == []
  {
    BackgroundInert();
    DataUrlValue();
    DataUrlDropped();
    DeclarationDropped("background: ", "'" + DataUrl + "'", DataUrl);
  }

  /** `background: url("data:image/svg+xml,")` */
  lemma CssDataUrlDoubleQuoted()
    ensures GetUrlsFromCss("background: " + CssUrlText("\"" + DataUrl + "\"")) == []
  {
    BackgroundInert();
    DataUrlValue();
    DataUrlDropped();
    DeclarationDropped("background: ", "\"" + DataUrl + "\"", DataUrl);
  }

  /** `background: url(data:image/svg+xml,)` */
  lemma CssDataUrlBare()
    ensures GetUrlsFromCss("background: " + CssUrlText(DataUrl)) == []
  {
    BackgroundInert();
    DataUrlValue();
    DataUrlDropped();
    DeclarationDropped("background: ", DataUrl, DataUrl);
  }

  /** `background: url('./grape.jpg')` */
  lemma CssGrapeSingleQuoted()
    ensures GetUrlsFromCss("background: " + CssUrlText("'" + Grape + "'")) == [Grape]
  {
    BackgroundInert();
    GrapeValue();
    GrapeKept();
    DeclarationKept("background: ", "'" + Grape + "'", Grape);
  }

  /** `background: url("./grape.jpg")` */
  lemma CssGrapeDoubleQuoted()
    ensures GetUrlsFromCss("background: " + CssUrlText("\"" + Grape + "\"")) == [Grape]
  {
    BackgroundInert();
    GrapeValue();
    GrapeKept();
    DeclarationKept("background: ", "\"" + Grape + "\"", Grape);
  }

  /** `background: url(./grape.jpg)` */
  lemma CssGrapeBare()
    ensures GetUrlsFromCss("background: " + CssUrlText(Grape)) == [Grape]
  {
    BackgroundInert();
    GrapeValue();
    GrapeKept();
    DeclarationKept("background: ", Grape, Grape);
  }

  /** `clip-path:url(#B)` */
  lemma CssFragment()
    ensures GetUrlsFromCss("clip-path:" + CssUrlText("#B")) == []
  {
    assert CssInert("clip-path:");
    assert PlainValue("#B");
    assert "#B"[..1] == "#";
    DeclarationDropped("clip-path:", "#B", "#B");
  }

  // ---------------------------------------------------------------------------
  // getImageUrlsFromHtml
  // ---------------------------------------------------------------------------

  /** Text in which no image match starts: any `<` is its first character and is not followed by `i`. */
  predicate HtmlInert(x: string) {
    |x| > 0 && (x[0] == '<' ==> |x| > 1 && x[1] != 'i') && forall i :: 0 < i < |x| ==> x[i] != '<'
  }

  /** A double-quoted attribute value on one line that is not itself quoted. */
  predicate AttrValue(w: string) {
    '"' !in w && LineFree(w, 0, |w|) && !Quoted(w)
  }

  lemma HtmlInertEnd(x: string)
    requires HtmlInert(x)
    ensures GetImageUrlsFromHtml(x) == []
  {
    HtmlSkip(x, "");
    assert x + "" == x;
  }

  lemma HtmlInertBoth(x: string, y: string)
    requires HtmlInert(x) && HtmlInert(y)
    ensures GetImageUrlsFromHtml(x + y) == []
  {
    HtmlSkip(x, y);
    HtmlInertEnd(y);
  }

  /** One image tag with a double-quoted value `w`, followed by text without URLs. */
  lemma ImageUrl(tag: string, gap: string, attr: string, w: string, t: string)
    requires tag == "<img" || tag == "<image"
    requires attr == "src=" || attr == "href="
    requires AttrFreeGap(gap) && AttrValue(w) && GetImageUrlsFromHtml(t) == []
    ensures GetImageUrlsFromHtml(ImageTagText(tag, gap, attr, '"', w) + t) == FilterUrls([w])
  {
    HtmlImageToken(tag, gap, attr, '"', w, t);
    RemoveQuotesLine(w);
    assert FilterUrls([w]) + [] == FilterUrls([w]);
  }

  /** Text without URLs on both sides of `m` leaves only the URLs of `m`. */
  lemma Surrounded(x: string, y: string, m: string, z: string, u: string)
    requires HtmlInert(x) && HtmlInert(y) && HtmlInert(z) && HtmlInert(u)
    ensures GetImageUrlsFromHtml(x + y + m + (z + u)) == GetImageUrlsFromHtml(m + (z + u))
  {
    HtmlSkip(y, m + (z + u));
    HtmlSkip(x, y + (m + (z + u)));
    Regroup(x, y, m, z + u);
  }

  lemma Regroup(x: string, y: string, m: string, v: string)
    ensures x + y + m + v == x + (y + (m + v))
  {
  }

  lemma SvgPiecesInert()
    ensures HtmlInert("\n      ") && HtmlInert("<svg>\n        ")
    ensures HtmlInert(" />\n      ") && HtmlInert("</svg>\n    ")
  {
  }

  lemma SvgPieces()
    ensures "\n      " + "<svg>\n        " == "\n      <svg>\n        "
    ensures " />\n      " + "</svg>\n    " == " />\n      </svg>\n    "
  {
  }

  /** The same tag inside an `<svg>` element laid out over several lines. */
  lemma SvgImageUrl(gap: string, attr: string, w: string)
    requires attr == "src=" || attr == "href="
    requires AttrFreeGap(gap) && AttrValue(w)
    ensures GetImageUrlsFromHtml("\n      <svg>\n        " + ImageTagText("<image", gap, attr, '"', w) + " />\n      </svg>\n    ")
            == FilterUrls([w])
  {
    var img := ImageTagText("<image", gap, attr, '"', w);
    SvgPiecesInert();
    SvgPieces();
    HtmlInertBoth(" />\n      ", "</svg>\n    ");
    ImageUrl("<image", gap, attr, w, " />\n      " + "</svg>\n    ");
    Surrounded("\n      ", "<svg>\n        ", img, " />\n      ", "</svg>\n    ");
  }

  lemma FirstUrl()
    ensures AttrValue("https://example.com/first.jpg") && FilterUrls(["https://example.com/first.jpg"]) == ["https://example.com/first.jpg"]
  {
    FiltererChars("https://example.com/first.jpg");
    assert ["https://example.com/first.jpg"][1..] == [];
  }

  lemma CactusUrl()
    ensures AttrValue("https://cactus-shop.com/cactus.webp")
    ensures FilterUrls(["https://cactus-shop.com/cactus.webp"]) == ["https://cactus-shop.com/cactus.webp"]
  {
    FiltererChars("https://cactus-shop.com/cactus.webp");
    assert ["https://cactus-shop.com/cactus.webp"][1..] == [];
  }

  lemma BuldgeUrl()
    ensures AttrValue("https://example.com/buldge.jpg") && FilterUrls(["https://example.com/buldge.jpg"]) == ["https://example.com/buldge.jpg"]
  {
    FiltererChars("https://example.com/buldge.jpg");
    assert ["https://example.com/buldge.jpg"][1..] == [];
  }

  lemma ConcaveUrl()
    ensures AttrValue("https://example.com/concave.jpg") && FilterUrls(["https://example.com/concave.jpg"]) == ["https://example.com/concave.jpg"]
  {
    FiltererChars("https://example.com/concave.jpg");
    assert ["https://example.com/concave.jpg"][1..] == [];
  }

  lemma HtmlInertTails()
    ensures HtmlInert("/>") && HtmlInert(" />")
  {
  }

  lemma HtmlInertCactusTail()
    ensures HtmlInert(" src=\"\" alt=\"cactus\" />")
  {
  }

  lemma HtmlInertLinkOpen()
    ensures HtmlInert("<a href=\"") && HtmlInert("</a>")
  {
  }

  lemma HtmlInertLinkUrl()
    ensures HtmlInert("https://artemiys-toolbox.pages.dev/")
  {
  }

  lemma HtmlInertLinkText()
    ensures HtmlInert("\">Do not click me")
  {
  }

  /** `<img src="https://example.com/first.jpg"/>` */
  lemma HtmlFirst()
    ensures GetImageUrlsFromHtml(ImageTagText("<img", " ", "src=", '"', "https://example.com/first.jpg") + "/>")
            == ["https://example.com/first.jpg"]
  {
    FirstUrl();
    HtmlInertTails();
    AttrFreeGapWithoutR(" ");
    HtmlInertEnd("/>");
    ImageUrl("<img", " ", "src=", "https://example.com/first.jpg", "/>");
  }

  lemma SecondUrl()
    ensures AttrValue("https://example.com/second.jpg") && FilterUrls(["https://example.com/second.jpg"]) == ["https://example.com/second.jpg"]
  {
    FiltererChars("https://example.com/second.jpg");
    assert ["https://example.com/second.jpg"][1..] == [];
  }

  lemma HtmlInertSecondTail()
    ensures HtmlInert(" alt=\"Sunny Cactus\"/>")
  {
  }

  /** `<img class="max-h-10" src="https://example.com/second.jpg" alt="Sunny Cactus"/>`: an attribute before `src=`. */
  lemma HtmlSecond()
    ensures GetImageUrlsFromHtml(ImageTagText("<img", " class=\"max-h-10\" ", "src=", '"', "https://example.com/second.jpg")
                                 + " alt=\"Sunny Cactus\"/>")
            == ["https://example.com/second.jpg"]
  {
    SecondUrl();
    HtmlInertSecondTail();
    AttrFreeGapWithoutR(" class=\"max-h-10\" ");
    HtmlInertEnd(" alt=\"Sunny Cactus\"/>");
    ImageUrl("<img", " class=\"max-h-10\" ", "src=", "https://example.com/second.jpg", " alt=\"Sunny Cactus\"/>");
  }

  /** `<img data-src="https://cactus-shop.com/cactus.webp" src="" alt="cactus" />`: the first attribute wins. */
  lemma HtmlDataSrc()
    ensures GetImageUrlsFromHtml(ImageTagText("<img", " data-", "src=", '"', "https://cactus-shop.com/cactus.webp")
                                 + " src=\"\" alt=\"cactus\" />")
            == ["https://cactus-shop.com/cactus.webp"]
  {
    CactusUrl();
    HtmlInertCactusTail();
    AttrFreeGapWithoutR(" data-");
    HtmlInertEnd(" src=\"\" alt=\"cactus\" />");
    ImageUrl("<img", " data-", "src=", "https://cactus-shop.com/cactus.webp", " src=\"\" alt=\"cactus\" />");
  }

  /** `<image xlink:href="https://example.com/buldge.jpg" />` on its own line inside `<svg>` … `</svg>`. */
  lemma HtmlXlinkHref()
    ensures GetImageUrlsFromHtml("\n      <svg>\n        "
                                 + ImageTagText("<image", " xlink:", "href=", '"', "https://example.com/buldge.jpg")
                                 + " />\n      </svg>\n    ")
            == ["https://example.com/buldge.jpg"]
  {
    BuldgeUrl();
    AttrFreeGapWithoutR(" xlink:");
    SvgImageUrl(" xlink:", "href=", "https://example.com/buldge.jpg");
  }

  /** `<image href="https://example.com/concave.jpg" />` on its own line inside `<svg>` … `</svg>`. */
  lemma HtmlImageHref()
    ensures GetImageUrlsFromHtml("\n      <svg>\n        "
                                 + ImageTagText("<image", " ", "href=", '"', "https://example.com/concave.jpg")
                                 + " />\n      </svg>\n    ")
            == ["https://example.com/concave.jpg"]
  {
    ConcaveUrl();
    AttrFreeGapWithoutR(" ");
    SvgImageUrl(" ", "href=", "https://example.com/concave.jpg");
  }

  lemma DataUrlDots()
    ensures AttrValue("data:image/svg+xml,...") && FilterUrls(["data:image/svg+xml,..."]) == []
  {
    assert "data:image/svg+xml,..."[..5] == "data:";
  }

  /** `<img src="data:image/svg+xml,..." />`: embedded images are dropped. */
  lemma HtmlDataUrl()
    ensures GetImageUrlsFromHtml(ImageTagText("<img", " ", "src=", '"', "data:image/svg+xml,...") + " />") == []
  {
    DataUrlDots();
    HtmlInertTails();
    AttrFreeGapWithoutR(" ");
    HtmlInertEnd(" />");
    ImageUrl("<img", " ", "src=", "data:image/svg+xml,...", " />");
  }

  /** `<image href="#cute-face" />` on its own line inside `<svg>` … `</svg>`: fragments are dropped. */
  lemma HtmlFragment()
    ensures GetImageUrlsFromHtml("\n      <svg>\n        "
                                 + ImageTagText("<image", " ", "href=", '"', "#cute-face")
                                 + " />\n      </svg>\n    ")
            == []
  {
    assert AttrValue("#cute-face");
    AttrFreeGapWithoutR(" ");
    SvgImageUrl(" ", "href=", "#cute-face");
  }

  /** `<a href="https://artemiys-toolbox.pages.dev/">Do not click me</a>`: a link is not an image. */
  lemma HtmlLink()
    ensures GetImageUrlsFromHtml("<a href=\"" + "https://artemiys-toolbox.pages.dev/" + "\">Do not click me" + "</a>") == []
  {
    HtmlInertLinkOpen();
    HtmlInertLinkUrl();
    HtmlInertLinkText();
    var x, y, z, u := "<a href=\"", "https://artemiys-toolbox.pages.dev/", "\">Do not click me", "</a>";
    HtmlInertBoth(z, u);
    HtmlSkip(y, z + u);
    HtmlSkip(x, y + (z + u));
    Regroup(x, y, z, u);
  }
}

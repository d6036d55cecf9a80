/** The verdicts of the demonstration script app/index.php, and of one text
    with a tag outside the whitelist, for a validator whose whitelist is the
    five tag patterns of HtmlPatterns. Each text is written as markup pieces
    and shown to render to the text, piece by piece. */
module DemoCases {
  import opened Outcomes
  import opened TagScanner
  import opened Nesting
  import opened Whitelist
  import opened HtmlPatterns
  import opened HtmlValidation
  import opened Markup

  const Bold: seq<Piece> := Element("strong", "", "Жирный шрифт")

  const LinkAttributes: string := "href=\"https://google.com\" title=\"Google\""

  const Link: seq<Piece> := Element("a", LinkAttributes, "google")

  const LinkWithDataTest: seq<Piece> := Element("a", LinkAttributes + " data-test=\"1\"", "google")

  const Crossed: seq<Piece> :=
    [OpenTag("strong", "")] + [Text("Жирный текст ")] + [OpenTag("i", "")]
    + [Text("италик с неправильным закрытием тегов")] + [CloseTag("strong")] + [CloseTag("i")]

  const Unclosed: seq<Piece> :=
    [OpenTag("strong", "")] + [Text("Не закрытый тег")]

  /** A `div` element, which no pattern allows, followed by a link, which a
      pattern does allow. */
  const DivThenLink: seq<Piece> :=
    [OpenTag("div", "")] + [Text("x")] + [CloseTag("div")]
    + [OpenTag("a", "href=\"https://x.com\"")] + [Text("x")] + [CloseTag("a")]

  // ---------------------------------------------------------------------
  // Helpers
  // ---------------------------------------------------------------------

  /** Markup of one piece renders as that piece and stands for its tag. */
  lemma RenderOne(p: Piece)
    ensures Render([p]) == PieceText(p)
    ensures TagsOf([p]) == (match p
      case Text(_) => []
      case OpenTag(n, _) => [Open(n)]
      case CloseTag(n) => [Close(n)])
  {
    assert [p][..0] == [];
  }

  /** A text with `lit` at its end contains `lit`. */
  lemma EndsWithOccurs(s: string, lit: string, text: string)
    requires text == s + lit
    ensures Occurs(lit, text)
  {
    assert text[|s|..|s| + |lit|] == lit;
    assert OccursAt(lit, text, |s|);
  }

  /** Regrouping an element's text around its closing tag. */
  lemma Regroup(open: string, text: string, n: string, whole: string)
    requires whole == open + text + "</" + n + ">"
    ensures whole == (open + text) + ("</" + n + ">")
  {
  }

  /** A text with `lit` at its start contains `lit`. */
  lemma StartsWithOccurs(lit: string, text: string)
    requires |lit| <= |text| && text[..|lit|] == lit
    ensures Occurs(lit, text)
  {
    assert OccursAt(lit, text, 0);
  }

  /** The whitelist of the demonstration is non-empty and well escaped. */
  lemma DemoWhitelist()
    ensures DemoPatterns != []
    ensures forall p :: p in DemoPatterns ==> WellEscaped(p)
  {
    DemoPatternsAreTags();
  }

  /** An alternative of a demonstration pattern found in the text lets the
      text pass the allowed-tag check. */
  lemma AllowedByAlternative(v: HtmlValidator, text: string, i: nat, lit: string)
    requires v.allowedPatterns == DemoPatterns && i < |DemoPatterns|
    requires lit in Alternatives(DemoPatterns[i]) && Occurs(lit, text)
    ensures v.CheckAllowedTags(text) == Pass
  {
    DemoWhitelist();
    AllowedCheckMeaning(v, text);
    assert DemoPatterns[i] in v.allowedPatterns;
  }

  /** The `j`-th alternative of a demonstration pattern found in the text
      lets the text pass the allowed-tag check. */
  lemma AllowedByIndex(v: HtmlValidator, text: string, i: nat, j: nat)
    requires v.allowedPatterns == DemoPatterns && i < |DemoPatterns|
    requires j < |Alternatives(DemoPatterns[i])| && Occurs(Alternatives(DemoPatterns[i])[j], text)
    ensures v.CheckAllowedTags(text) == Pass
  {
    AllowedByAlternative(v, text, i, Alternatives(DemoPatterns[i])[j]);
  }

  /** The markup of an element `<n attrs>text</n>`. */
  function Element(n: string, attrs: string, text: string): seq<Piece> {
    [OpenTag(n, attrs)] + [Text(text)] + [CloseTag(n)]
  }

  lemma ElementRender(n: string, attrs: string, text: string)
    ensures Render(Element(n, attrs, text)) == PieceText(OpenTag(n, attrs)) + text + "</" + n + ">"
    ensures TagsOf(Element(n, attrs, text)) == [Open(n), Close(n)]
  {
    RenderOne(OpenTag(n, attrs));
    RenderOne(Text(text));
    RenderOne(CloseTag(n));
    RenderLast([OpenTag(n, attrs)], Text(text));
    RenderLast([OpenTag(n, attrs)] + [Text(text)], CloseTag(n));
  }

  /** An element scans into one opening and one closing tag, which are
      balanced. */
  lemma ElementScan(n: string, attrs: string, text: string)
    requires WellFormed(OpenTag(n, attrs)) && WellFormed(Text(text))
    ensures Tags(ExtractTags(Render(Element(n, attrs, text)))) == [Open(n), Close(n)]
    ensures Balanced([Open(n), Close(n)])
  {
    var ps := Element(n, attrs, text);
    ElementRender(n, attrs, text);
    assert ps == [OpenTag(n, attrs), Text(text), CloseTag(n)];
    RenderThenScan(ps);
    assert WrapsAt([Open(n), Close(n)], 0) by {
      assert Balanced([Open(n), Close(n)][..0]);
      assert Balanced([Open(n), Close(n)][1..1]);
    }
  }

  /** Markup of six pieces renders piece by piece. */
  lemma SixPieces(a: Piece, b: Piece, c: Piece, d: Piece, e: Piece, f: Piece)
    ensures Render([a] + [b] + [c] + [d] + [e] + [f])
      == PieceText(a) + PieceText(b) + PieceText(c) + PieceText(d) + PieceText(e) + PieceText(f)
    ensures TagsOf([a] + [b] + [c] + [d] + [e] + [f])
      == TagsOf([a]) + TagsOf([b]) + TagsOf([c]) + TagsOf([d]) + TagsOf([e]) + TagsOf([f])
  {
    RenderOne(a);
    assert TagsOf([a]) == TagsOf([]) + TagsOf([a]);
    RenderLast([a], b);
    RenderLast([a] + [b], c);
    RenderLast([a] + [b] + [c], d);
    RenderLast([a] + [b] + [c] + [d], e);
    RenderLast([a] + [b] + [c] + [d] + [e], f);
  }

  // ---------------------------------------------------------------------
  // The verdicts
  // ---------------------------------------------------------------------

  /** An element whose closing form is an alternative of a demonstration
      pattern is accepted, whatever its attributes. */
  lemma ElementAccepted(v: HtmlValidator, n: string, attrs: string, text: string, i: nat)
    requires v.allowedPatterns == DemoPatterns && i < |DemoPatterns|
    requires WellFormed(OpenTag(n, attrs)) && WellFormed(Text(text))
    requires 1 < |Alternatives(DemoPatterns[i])| && Alternatives(DemoPatterns[i])[1] == "</" + n + ">"
    ensures v.CheckAllowedTags(Render(Element(n, attrs, text))) == Pass
    ensures Balanced(Tags(ExtractTags(Render(Element(n, attrs, text)))))
  {
    ElementScan(n, attrs, text);
    ElementEndsWithClose(n, attrs, text);
    AllowedByAlternative(v, Render(Element(n, attrs, text)), i, "</" + n + ">");
  }

  lemma ElementEndsWithClose(n: string, attrs: string, text: string)
    ensures Occurs("</" + n + ">", Render(Element(n, attrs, text)))
  {
    ElementRender(n, attrs, text);
    var head, close := PieceText(OpenTag(n, attrs)) + text, "</" + n + ">";
    var whole := Render(Element(n, attrs, text));
    Regroup(PieceText(OpenTag(n, attrs)), text, n, whole);
    EndsWithOccurs(head, close, whole);
  }

  lemma BoldPieces()
    ensures WellFormed(OpenTag("strong", "")) && WellFormed(Text("Жирный шрифт"))
  {
  }

  lemma StrongClosingAllowed()
    ensures 1 < |Alternatives(DemoPatterns[4])| && Alternatives(DemoPatterns[4])[1] == "</" + "strong" + ">"
  {
    assert DemoPatterns[4] == OpenOrClose("strong");
    PatternMeaning(DemoPatterns[4], "strong", "<" + "strong" + ">", "</" + "strong" + ">");
  }

  /** Text without `>` joined to text without `>` has none. */
  lemma NoCloseAngleJoin(a: string, b: string)
    requires forall k :: 0 <= k < |a| ==> a[k] != '>'
    requires forall k :: 0 <= k < |b| ==> b[k] != '>'
    ensures forall k :: 0 <= k < |a + b| ==> (a + b)[k] != '>'
  {
    forall k | 0 <= k < |a + b| ensures (a + b)[k] != '>' {
      if k >= |a| {
        assert (a + b)[k] == b[k - |a|];
      }
    }
  }

  lemma LinkAttributesPlain()
    ensures forall k :: 0 <= k < |LinkAttributes| ==> LinkAttributes[k] != '>'
  {
    var href, title := "href=\"https://google.com\"", " title=\"Google\"";
    assert LinkAttributes == href + title;
    NoCloseAngleJoin(href, title);
  }

  lemma LinkPieces(attrs: string)
    requires attrs == LinkAttributes || attrs == LinkAttributes + " data-test=\"1\""
    ensures WellFormed(OpenTag("a", attrs)) && WellFormed(Text("google"))
  {
    LinkAttributesPlain();
    if attrs != LinkAttributes {
      NoCloseAngleJoin(LinkAttributes, " data-test=\"1\"");
    }
  }

  lemma AClosingAllowed()
    ensures 1 < |Alternatives(DemoPatterns[0])| && Alternatives(DemoPatterns[0])[1] == "</" + "a" + ">"
  {
    assert DemoPatterns[0] == OpenOrClose("a");
    PatternMeaning(DemoPatterns[0], "a", "<" + "a" + ">", "</" + "a" + ">");
  }

  lemma BoldRender()
    ensures Render(Bold) == "<strong>" + "Жирный шрифт" + "</strong>"
  {
    ElementRender("strong", "", "Жирный шрифт");
  }

  /** app/index.php:23 expects true: the allowed `</strong>` occurs and the
      two tags are balanced, so validate returns true. */
  lemma BoldAccepted(v: HtmlValidator)
    requires v.allowedPatterns == DemoPatterns
    ensures v.CheckAllowedTags(Render(Bold)) == Pass
    ensures Balanced(Tags(ExtractTags(Render(Bold))))
  {
    BoldPieces();
    StrongClosingAllowed();
    ElementAccepted(v, "strong", "", "Жирный шрифт", 4);
  }

  lemma LinkRender()
    ensures Render(Link) == "<a " + LinkAttributes + ">" + "google" + "</a>"
  {
    ElementRender("a", LinkAttributes, "google");
  }

  /** app/index.php:24 expects true: `</a>` is allowed and the tags are
      balanced; the attributes play no part. */
  lemma LinkAccepted(v: HtmlValidator)
    requires v.allowedPatterns == DemoPatterns
    ensures v.CheckAllowedTags(Render(Link)) == Pass
    ensures Balanced(Tags(ExtractTags(Render(Link))))
  {
    LinkPieces(LinkAttributes);
    AClosingAllowed();
    ElementAccepted(v, "a", LinkAttributes, "google", 0);
  }

  lemma LinkWithDataTestRender()
    ensures Render(LinkWithDataTest) == "<" + "a" + " " + (LinkAttributes + " data-test=\"1\"") + ">" + "google" + "</" + "a" + ">"
  {
    ElementRender("a", LinkAttributes + " data-test=\"1\"", "google");
  }

  /** app/index.php:25 expects false for the attribute data-test, but no
      attribute is ever checked: the verdict is the same as for the link
      without it, true. */
  lemma LinkWithDataTestAccepted(v: HtmlValidator)
    requires v.allowedPatterns == DemoPatterns
    ensures v.CheckAllowedTags(Render(LinkWithDataTest)) == Pass
    ensures Balanced(Tags(ExtractTags(Render(LinkWithDataTest))))
  {
    LinkPieces(LinkAttributes + " data-test=\"1\"");
    AClosingAllowed();
    ElementAccepted(v, "a", LinkAttributes + " data-test=\"1\"", "google", 0);
  }

  // ---------------------------------------------------------------------
  // Crossed closing tags
  // ---------------------------------------------------------------------

  lemma StrongAlternatives()
    ensures Alternatives(DemoPatterns[4]) == ["<" + "strong" + ">", "</" + "strong" + ">"]
  {
    assert DemoPatterns[4] == OpenOrClose("strong");
    PatternMeaning(DemoPatterns[4], "strong", "<" + "strong" + ">", "</" + "strong" + ">");
  }

  /** Markup of six pieces renders as its first piece followed by the rest. */
  lemma SixFirst(a: Piece, b: Piece, c: Piece, d: Piece, e: Piece, f: Piece)
    ensures |PieceText(a)| <= |Render([a] + [b] + [c] + [d] + [e] + [f])|
    ensures Render([a] + [b] + [c] + [d] + [e] + [f])[..|PieceText(a)|] == PieceText(a)
  {
    SixPieces(a, b, c, d, e, f);
    var whole := Render([a] + [b] + [c] + [d] + [e] + [f]);
    RegroupFirst(PieceText(a), PieceText(b), PieceText(c), PieceText(d), PieceText(e), PieceText(f), whole);
  }

  /** Six well-formed pieces make well-formed markup. */
  lemma SixWellFormed(a: Piece, b: Piece, c: Piece, d: Piece, e: Piece, f: Piece)
    requires WellFormed(a) && WellFormed(b) && WellFormed(c)
    requires WellFormed(d) && WellFormed(e) && WellFormed(f)
    ensures forall i :: 0 <= i < |[a] + [b] + [c] + [d] + [e] + [f]| ==>
      WellFormed(([a] + [b] + [c] + [d] + [e] + [f])[i])
  {
    assert [a] + [b] + [c] + [d] + [e] + [f] == [a, b, c, d, e, f];
  }

  lemma CrossedTexts()
    ensures WellFormed(Text("Жирный текст "))
    ensures WellFormed(Text("италик с неправильным закрытием тегов"))
  {
  }

  /** The pieces of the crossed text are well formed. */
  lemma CrossedWellFormed()
    ensures forall i :: 0 <= i < |Crossed| ==> WellFormed(Crossed[i])
  {
    CrossedTexts();
    SixWellFormed(OpenTag("strong", ""), Text("Жирный текст "), OpenTag("i", ""),
      Text("италик с неправильным закрытием тегов"), CloseTag("strong"), CloseTag("i"));
  }

  /** The crossed text stands for four tags, closed in the wrong order. */
  lemma CrossedTagsOf()
    ensures TagsOf(Crossed) == [Open("strong"), Open("i"), Close("strong"), Close("i")]
  {
    var a, b, c := OpenTag("strong", ""), Text("Жирный текст "), OpenTag("i", "");
    var d, e, f := Text("италик с неправильным закрытием тегов"), CloseTag("strong"), CloseTag("i");
    SixPieces(a, b, c, d, e, f);
    RenderOne(a); RenderOne(b); RenderOne(c); RenderOne(d); RenderOne(e); RenderOne(f);
  }

  /** The crossed text begins with `<strong>`. */
  lemma CrossedRender()
    ensures 8 <= |Render(Crossed)| && Render(Crossed)[..8] == "<" + "strong" + ">"
  {
    var a, b, c := OpenTag("strong", ""), Text("Жирный текст "), OpenTag("i", "");
    var d, e, f := Text("италик с неправильным закрытием тегов"), CloseTag("strong"), CloseTag("i");
    SixFirst(a, b, c, d, e, f);
  }

  /** The crossed text scans into the four tags of its pieces. */
  lemma CrossedTags()
    ensures Tags(ExtractTags(Render(Crossed))) == [Open("strong"), Open("i"), Close("strong"), Close("i")]
  {
    CrossedWellFormed();
    CrossedTagsOf();
    RenderThenScan(Crossed);
  }

  /** Regrouping a six-part text around its first part. */
  lemma RegroupFirst(a: string, b: string, c: string, d: string, e: string, f: string, whole: string)
    requires whole == a + b + c + d + e + f
    ensures whole == a + (b + c + d + e + f)
  {
  }

  /** `</strong>` arrives while `<i>` is the innermost open tag. */
  lemma CrossedNesting()
    ensures NestingOutcome([Open("strong"), Open("i"), Close("strong"), Close("i")]) == Fail(InvalidClosure)
    ensures !Balanced([Open("strong"), Open("i"), Close("strong"), Close("i")])
  {
    var tags := [Open("strong"), Open("i"), Close("strong"), Close("i")];
    assert Run(tags, []) == None;
    NestingOutcomeMeaning(tags);
  }

  /** app/index.php:26 expects false: `<strong>` is allowed and occurs, but
      `</strong>` closes while `<i>` is still open, so the nesting check
      fails with a wrong closing tag and validate returns false. */
  lemma CrossedRejected(v: HtmlValidator)
    requires v.allowedPatterns == DemoPatterns
    ensures v.CheckAllowedTags(Render(Crossed)) == Pass
    ensures NestingOutcome(Tags(ExtractTags(Render(Crossed)))) == Fail(InvalidClosure)
    ensures !Balanced(Tags(ExtractTags(Render(Crossed))))
  {
    CrossedTags();
    CrossedNesting();
    var text := Render(Crossed);
    CrossedRender();
    StrongAlternatives();
    StartsWithOccurs("<" + "strong" + ">", text);
    AllowedByIndex(v, text, 4, 0);
  }

  // ---------------------------------------------------------------------
  // An unclosed tag
  // ---------------------------------------------------------------------

  /** The unclosed text renders as `<strong>` followed by its text, and
      stands for one opening tag. */
  lemma UnclosedRender()
    ensures Render(Unclosed) == "<" + "strong" + ">" + "Не закрытый тег"
    ensures TagsOf(Unclosed) == [Open("strong")]
  {
    var a, b := OpenTag("strong", ""), Text("Не закрытый тег");
    RenderOne(a);
    RenderOne(b);
    RenderLast([a], b);
  }

  lemma UnclosedScan()
    ensures Tags(ExtractTags(Render(Unclosed))) == [Open("strong")]
  {
    var a, b := OpenTag("strong", ""), Text("Не закрытый тег");
    assert WellFormed(a) && WellFormed(b);
    assert Unclosed == [a, b];
    UnclosedRender();
    RenderThenScan(Unclosed);
  }

  /** `<strong>` is never closed: the nesting check reports it as open. */
  lemma UnclosedNesting()
    ensures NestingOutcome([Open("strong")]) == Fail(UnclosedTags(["strong"]))
    ensures LeavesOpen([Open("strong")], ["strong"])
    ensures !Balanced([Open("strong")])
  {
    NestingOutcomeMeaning([Open("strong")]);
  }

  /** app/index.php:27 expects false: `<strong>` is allowed and occurs, but
      it is never closed, so the nesting check fails listing `strong` and
      validate returns false. */
  lemma UnclosedRejected(v: HtmlValidator)
    requires v.allowedPatterns == DemoPatterns
    ensures v.CheckAllowedTags(Render(Unclosed)) == Pass
    ensures NestingOutcome(Tags(ExtractTags(Render(Unclosed)))) == Fail(UnclosedTags(["strong"]))
    ensures !Balanced(Tags(ExtractTags(Render(Unclosed))))
  {
    UnclosedScan();
    UnclosedNesting();
    var text := Render(Unclosed);
    UnclosedRender();
    assert text[..8] == "<" + "strong" + ">";
    StrongAlternatives();
    StartsWithOccurs("<" + "strong" + ">", text);
    AllowedByIndex(v, text, 4, 0);
  }

  // ---------------------------------------------------------------------
  // A tag outside the whitelist
  // ---------------------------------------------------------------------

  lemma DivThenLinkPieces()
    ensures forall i :: 0 <= i < |DivThenLink| ==> WellFormed(DivThenLink[i])
  {
    SixWellFormed(OpenTag("div", ""), Text("x"), CloseTag("div"),
      OpenTag("a", "href=\"https://x.com\""), Text("x"), CloseTag("a"));
  }

  lemma DivThenLinkTagsOf()
    ensures TagsOf(DivThenLink) == [Open("div"), Close("div"), Open("a"), Close("a")]
  {
    var a, b, c := OpenTag("div", ""), Text("x"), CloseTag("div");
    var d, e, f := OpenTag("a", "href=\"https://x.com\""), Text("x"), CloseTag("a");
    SixPieces(a, b, c, d, e, f);
    RenderOne(a); RenderOne(b); RenderOne(c); RenderOne(d); RenderOne(e); RenderOne(f);
  }

  /** The text scans into two balanced elements, `div` and `a`. */
  lemma DivThenLinkTags()
    ensures Tags(ExtractTags(Render(DivThenLink))) == [Open("div"), Close("div"), Open("a"), Close("a")]
    ensures Balanced([Open("div"), Close("div"), Open("a"), Close("a")])
  {
    DivThenLinkPieces();
    DivThenLinkTagsOf();
    RenderThenScan(DivThenLink);
    DivThenLinkNesting();
  }

  lemma DivThenLinkNesting()
    ensures Balanced([Open("div"), Close("div"), Open("a"), Close("a")])
  {
    var tags := [Open("div"), Close("div"), Open("a"), Close("a")];
    var link := [Open("a"), Close("a")];
    assert link[1..] == [Close("a")] && Run(link, []) == Some([]);
    assert tags[1..][1..] == link && Run(tags[1..], ["div"]) == Some([]);
    assert Run(tags, []) == Some([]);
    NestingOutcomeMeaning(tags);
  }

  /** The text ends with `</a>`. */
  lemma DivThenLinkEnd()
    ensures Occurs("</" + "a" + ">", Render(DivThenLink))
  {
    var init := [OpenTag("div", "")] + [Text("x")] + [CloseTag("div")]
      + [OpenTag("a", "href=\"https://x.com\"")] + [Text("x")];
    RenderLast(init, CloseTag("a"));
    EndsWithOccurs(Render(init), "</" + "a" + ">", Render(DivThenLink));
  }

  /** A whitelist is usually expected to refuse `div`, which no pattern
      offers. The allowed-tag check only asks whether some
      allowed form occurs anywhere, and `</a>` does; the tags are balanced,
      so validate returns true. */
  lemma DivThenLinkAccepted(v: HtmlValidator)
    requires v.allowedPatterns == DemoPatterns
    ensures v.CheckAllowedTags(Render(DivThenLink)) == Pass
    ensures Balanced(Tags(ExtractTags(Render(DivThenLink))))
  {
    DivThenLinkTags();
    DivThenLinkEnd();
    AClosingAllowed();
    AllowedByIndex(v, Render(DivThenLink), 0, 1);
  }

  // ---------------------------------------------------------------------
  // The demonstration
  // ---------------------------------------------------------------------

  /** app/index.php builds one validator over the tag patterns and validates
      five texts; the verdicts are the ones its comments expect, except for
      the attribute `data-test`, which no check looks at. */
  method DemoVerdicts() returns (bold: bool, link: bool, linkWithDataTest: bool, crossed: bool, unclosed: bool)
    ensures bold && link && linkWithDataTest
    ensures !crossed && !unclosed
  {
    var v := new HtmlValidator(DemoPatterns);
    BoldAccepted(v);
    LinkAccepted(v);
    LinkWithDataTestAccepted(v);
    CrossedRejected(v);
    UnclosedRejected(v);
    bold := v.Validate(Render(Bold));
    link := v.Validate(Render(Link));
    linkWithDataTest := v.Validate(Render(LinkWithDataTest));
    crossed := v.Validate(Render(Crossed));
    unclosed := v.Validate(Render(Unclosed));
  }
}

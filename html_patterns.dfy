/** The tag patterns of HtmlPatterns, as pattern text, and what they stand for. */
module HtmlPatterns {
  import opened Whitelist

  const TagA: string := "<a>|<\\/a>"
  const TagCode: string := "<code>|<\\/code>"
  const TagI: string := "<i>|<\\/i>"
  const TagStrike: string := "<strike>|<\\/strike>"
  const TagStrong: string := "<strong>|<\\/strong>"

  /** The whitelist of the demonstration, in its order. */
  const DemoPatterns: seq<string> := [TagA, TagI, TagCode, TagStrike, TagStrong]

  /** A pattern that offers the opening and the closing form of tag `name`. */
  function OpenOrClose(name: string): string {
    "<" + name + ">|<\\/" + name + ">"
  }

  /** Such a pattern stands for exactly `<name>` and `</name>`. */
  lemma OpenOrCloseAlternatives(name: string)
    requires forall k :: 0 <= k < |name| ==> 'a' <= name[k] <= 'z'
    ensures Alternatives(OpenOrClose(name)) == ["<" + name + ">", "</" + name + ">"]
    ensures WellEscaped(OpenOrClose(name))
  {
    var open, rest := "<" + name + ">", "/" + name + ">";
    PlainAlternatives(open);
    var escaped := ['<', '\\'] + rest;
    EscapedAlternatives(rest);
    assert OpenOrClose(name) == open + ['|'] + escaped;
    AlternativesOfBar(open, escaped);
    WellEscapedBar(open, escaped);
    assert "<" + rest == "</" + name + ">";
  }

  /** `<` followed by a backslash-escaped first character of plain text
      `rest` stands for `<` and `rest`. */
  lemma EscapedAlternatives(rest: string)
    requires rest != []
    requires forall k :: 0 <= k < |rest| ==> rest[k] != '|' && rest[k] != '\\'
    ensures Alternatives(['<', '\\'] + rest) == ["<" + rest]
    ensures WellEscaped(['<', '\\'] + rest)
  {
    var tail := ['\\', rest[0]] + rest[1..];
    EscapedFirst(rest);
    AlternativesCons('<', tail);
    LeadingAngle(rest, tail);
  }

  /** Plain text with its first character escaped stands for itself. */
  lemma EscapedFirst(rest: string)
    requires rest != []
    requires forall k :: 0 <= k < |rest| ==> rest[k] != '|' && rest[k] != '\\'
    ensures Alternatives(['\\', rest[0]] + rest[1..]) == [rest]
    ensures WellEscaped(['\\', rest[0]] + rest[1..])
  {
    PlainAlternatives(rest[1..]);
    AlternativesEscaped(rest[0], rest[1..]);
    assert [rest[0]] + rest[1..] == rest;
  }

  lemma LeadingAngle(rest: string, tail: string)
    requires rest != [] && tail == ['\\', rest[0]] + rest[1..]
    ensures ['<', '\\'] + rest == ['<'] + tail
    ensures PrependToFirst('<', [rest]) == ["<" + rest]
  {
  }

  /** `pattern`, written as the opening and the closing form of `name`,
      stands for exactly the texts `open` and `close`. */
  lemma PatternMeaning(pattern: string, name: string, open: string, close: string)
    requires forall k :: 0 <= k < |name| ==> 'a' <= name[k] <= 'z'
    requires pattern == OpenOrClose(name)
    requires open == "<" + name + ">" && close == "</" + name + ">"
    ensures Alternatives(pattern) == [open, close] && WellEscaped(pattern)
  {
    OpenOrCloseAlternatives(name);
  }

  // Each constant is the opening and the closing form of one tag.

  lemma TagAMeaning()
    ensures Alternatives(TagA) == ["<a>", "</a>"] && WellEscaped(TagA)
    ensures AllBeginWith(Alternatives(TagA), '<')
  {
    PatternMeaning(TagA, "a", "<a>", "</a>");
    PatternIsTag(TagA, "a");
  }

  lemma TagIMeaning()
    ensures Alternatives(TagI) == ["<i>", "</i>"] && WellEscaped(TagI)
    ensures AllBeginWith(Alternatives(TagI), '<')
  {
    PatternMeaning(TagI, "i", "<i>", "</i>");
    PatternIsTag(TagI, "i");
  }

  lemma TagCodeMeaning()
    ensures Alternatives(TagCode) == ["<code>", "</code>"] && WellEscaped(TagCode)
    ensures AllBeginWith(Alternatives(TagCode), '<')
  {
    PatternMeaning(TagCode, "code", "<code>", "</code>");
    PatternIsTag(TagCode, "code");
  }

  lemma TagStrikeMeaning()
    ensures Alternatives(TagStrike) == ["<strike>", "</strike>"] && WellEscaped(TagStrike)
    ensures AllBeginWith(Alternatives(TagStrike), '<')
  {
    PatternMeaning(TagStrike, "strike", "<strike>", "</strike>");
    PatternIsTag(TagStrike, "strike");
  }

  lemma TagStrongMeaning()
    ensures Alternatives(TagStrong) == ["<strong>", "</strong>"] && WellEscaped(TagStrong)
    ensures AllBeginWith(Alternatives(TagStrong), '<')
  {
    PatternMeaning(TagStrong, "strong", "<strong>", "</strong>");
    PatternIsTag(TagStrong, "strong");
  }

  /** A pattern of that form is well escaped and all its alternatives
      begin with `<`. */
  lemma PatternIsTag(pattern: string, name: string)
    requires forall k :: 0 <= k < |name| ==> 'a' <= name[k] <= 'z'
    requires pattern == OpenOrClose(name)
    ensures WellEscaped(pattern)
    ensures AllBeginWith(Alternatives(pattern), '<')
  {
    OpenOrCloseAlternatives(name);
  }

  /** The demonstration whitelist is well escaped and every alternative in
      it begins with `<`. */
  lemma DemoPatternsAreTags()
    ensures forall i :: 0 <= i < |DemoPatterns| ==>
      WellEscaped(DemoPatterns[i]) && AllBeginWith(Alternatives(DemoPatterns[i]), '<')
  {
    forall i | 0 <= i < |DemoPatterns|
      ensures WellEscaped(DemoPatterns[i]) && AllBeginWith(Alternatives(DemoPatterns[i]), '<')
    {
      if i == 0 {
        TagAMeaning();
      } else if i == 1 {
        TagIMeaning();
      } else if i == 2 {
        TagCodeMeaning();
      } else if i == 3 {
        TagStrikeMeaning();
      } else {
        TagStrongMeaning();
      }
    }
  }
}

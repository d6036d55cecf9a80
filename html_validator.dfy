/** HtmlValidator: a whitelist check on the raw text followed by the
    nesting check on the scanned tags. */
module HtmlValidation {
  import opened Outcomes
  import opened TagScanner
  import opened Nesting
  import opened Whitelist

  /** AllowedTagException: the combined whitelist matched nowhere. */
  datatype AllowedTagError = NoAllowedPatternFound

  /** What implode with `|` offers, whether or not there are patterns. */
  lemma CombinedAlternatives(patterns: seq<string>)
    ensures patterns == [] ==> Alternatives(Join(patterns, '|')) == [[]]
    ensures patterns != [] && (forall p :: p in patterns ==> WellEscaped(p)) ==>
      Alternatives(Join(patterns, '|')) == AllAlternatives(patterns)
  {
    if patterns != [] && forall p :: p in patterns ==> WellEscaped(p) {
      JoinAlternatives(patterns);
    }
  }

  class HtmlValidator {
    /** The tag patterns given to the constructor; never changed afterwards. */
    const allowedPatterns: seq<string>

    /** The variadic constructor keeps its arguments in order. */
    constructor (allowedPatterns: seq<string>)
      ensures this.allowedPatterns == allowedPatterns
    {
      this.allowedPatterns := allowedPatterns;
    }

    /** combineAllowedTagsPatterns: the patterns joined with `|` into one
        alternation. With no patterns at all it is empty, which matches the
        empty string; otherwise it offers the alternatives of every pattern. */
    function CombineAllowedTagsPatterns(): (combined: string)
      ensures allowedPatterns == [] ==> Alternatives(combined) == [[]]
      ensures allowedPatterns != [] && (forall p :: p in allowedPatterns ==> WellEscaped(p)) ==>
        Alternatives(combined) == AllAlternatives(allowedPatterns)
    {
      CombinedAlternatives(allowedPatterns);
      Join(allowedPatterns, '|')
    }

    /** checkAllowedTags: fails exactly when no alternative of the combined
        pattern occurs anywhere in the text, ignoring ASCII case. */
    function CheckAllowedTags(requestData: string): (r: Outcome<AllowedTagError>)
      ensures r == Pass <==> exists lit :: lit in Alternatives(CombineAllowedTagsPatterns()) && Occurs(lit, requestData)
      ensures r != Pass ==> r == Fail(NoAllowedPatternFound)
    {
      if MatchesSomewhere(CombineAllowedTagsPatterns(), requestData) then Pass else Fail(NoAllowedPatternFound)
    }

    /** checkTagClosureAndNesting: scans the tags and checks their nesting. */
    method CheckTagClosureAndNesting(requestData: string) returns (r: Outcome<ClosureError>)
      ensures r == NestingOutcome(Tags(ExtractTags(requestData)))
      ensures r == Pass <==> Balanced(Tags(ExtractTags(requestData)))
      ensures r.Fail? && r.error.UnclosedTags? ==> LeavesOpen(Tags(ExtractTags(requestData)), r.error.names)
    {
      var tags := ExtractTags(requestData);
      r := ValidateTagNesting(tags);
    }

    /** validate: true exactly when the allowed-tag check passes and the
        scanned tags are balanced; either exception becomes false, and the
        nesting check runs only after the allowed-tag check has passed. */
    method Validate(requestData: string) returns (valid: bool)
      ensures valid <==> CheckAllowedTags(requestData) == Pass && Balanced(Tags(ExtractTags(requestData)))
    {
      var allowed := CheckAllowedTags(requestData);
      if allowed.Fail? {
        return false;
      }
      var nesting := CheckTagClosureAndNesting(requestData);
      if nesting.Fail? {
        return false;
      }
      return true;
    }
  }

  /** With at least one pattern, the allowed-tag check passes exactly when
      some alternative of some pattern occurs in the text: other tags in the
      text play no part. */
  lemma AllowedCheckMeaning(v: HtmlValidator, text: string)
    requires v.allowedPatterns != []
    requires forall p :: p in v.allowedPatterns ==> WellEscaped(p)
    ensures v.CheckAllowedTags(text) == Pass <==>
      exists p, lit :: p in v.allowedPatterns && lit in Alternatives(p) && Occurs(lit, text)
  {
    var combined := v.CombineAllowedTagsPatterns();
    assert Alternatives(combined) == AllAlternatives(v.allowedPatterns);
    if v.CheckAllowedTags(text) == Pass {
      var lit :| lit in Alternatives(combined) && Occurs(lit, text);
      InAllAlternatives(v.allowedPatterns, lit);
    }
    if exists p, lit :: p in v.allowedPatterns && lit in Alternatives(p) && Occurs(lit, text) {
      var p, lit :| p in v.allowedPatterns && lit in Alternatives(p) && Occurs(lit, text);
      InAllAlternatives(v.allowedPatterns, lit);
      assert lit in Alternatives(combined);
    }
  }

  /** With no patterns the combined pattern is empty and matches the empty
      string, so the allowed-tag check passes for every text. */
  lemma EmptyWhitelistPassesEverything(v: HtmlValidator, text: string)
    requires v.allowedPatterns == []
    ensures v.CheckAllowedTags(text) == Pass
  {
    EmptyOccurs(text);
  }

  /** The order of the constructor's patterns does not matter. */
  lemma PermutedPatternsSameVerdict(v: HtmlValidator, w: HtmlValidator, text: string)
    requires multiset(v.allowedPatterns) == multiset(w.allowedPatterns)
    requires forall p :: p in v.allowedPatterns ==> WellEscaped(p)
    ensures v.CheckAllowedTags(text) == w.CheckAllowedTags(text)
  {
    assert forall p :: p in v.allowedPatterns <==> p in w.allowedPatterns by {
      forall p ensures p in v.allowedPatterns <==> p in w.allowedPatterns {
        assert p in v.allowedPatterns <==> p in multiset(v.allowedPatterns);
        assert p in w.allowedPatterns <==> p in multiset(w.allowedPatterns);
      }
    }
    if v.allowedPatterns == [] {
      assert |w.allowedPatterns| == |multiset(w.allowedPatterns)| == 0;
      EmptyWhitelistPassesEverything(v, text);
      EmptyWhitelistPassesEverything(w, text);
    } else {
      assert v.allowedPatterns[0] in w.allowedPatterns;
      AllowedCheckMeaning(v, text);
      AllowedCheckMeaning(w, text);
    }
  }

  /** A literal that starts with `<` occurs only in text holding a `<`:
      case folding leaves `<` alone. */
  lemma AngleNeedsAngle(lit: string, text: string)
    requires lit != [] && lit[0] == '<'
    requires forall k :: 0 <= k < |text| ==> text[k] != '<'
    ensures !Occurs(lit, text)
  {
    forall i | 0 <= i <= |text| - |lit| ensures !OccursAt(lit, text, i) {
      assert text[i..i + |lit|][0] == text[i];
    }
  }

  /** When every alternative starts with `<` (as the tag patterns do), text
      without a `<` fails the allowed-tag check: tag-free text is rejected. */
  lemma TagFreeTextRejected(v: HtmlValidator, text: string)
    requires v.allowedPatterns != []
    requires forall p :: p in v.allowedPatterns ==> WellEscaped(p)
    requires forall p :: p in v.allowedPatterns ==> AllBeginWith(Alternatives(p), '<')
    requires forall k :: 0 <= k < |text| ==> text[k] != '<'
    ensures v.CheckAllowedTags(text) == Fail(NoAllowedPatternFound)
  {
    AllowedCheckMeaning(v, text);
    forall p, lit | p in v.allowedPatterns && lit in Alternatives(p) ensures !Occurs(lit, text) {
      assert AllBeginWith(Alternatives(p), '<');
      AngleNeedsAngle(lit, text);
    }
  }
}

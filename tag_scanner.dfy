/** The tag scanner of HtmlValidator: the regular expression HTML_TAGS_PATTERN
    `/<\/?([a-z]+)(?: [^>]+)?>/i` applied left to right by preg_match_all,
    and the closing-tag test on a matched text. */
module TagScanner {
  import opened Outcomes

  /** Where one match lies in the subject: the whole match is
      `s[start..end]`, the captured tag name is `s[nameStart..nameEnd]`. */
  datatype Span = Span(start: nat, nameStart: nat, nameEnd: nat, end: nat)

  /** One element of the match list: the captured name (group 1, original
      case) and the whole matched text (group 0). */
  datatype Token = Token(name: string, raw: string)

  /** `[a-z]` under the `i` flag: the ASCII letters of either case. */
  predicate IsAsciiLetter(c: char) {
    'a' <= c <= 'z' || 'A' <= c <= 'Z'
  }

  /** The regular expression's language: `s[m.start..m.end]` matches it with
      group 1 at `s[m.nameStart..m.nameEnd]`. */
  ghost predicate IsTagAt(s: string, m: Span) {
    && m.start < m.nameStart < m.nameEnd < m.end <= |s|
    && s[m.start] == '<'
    && (m.nameStart == m.start + 1 || (m.nameStart == m.start + 2 && s[m.start + 1] == '/'))
    && (forall k :: m.nameStart <= k < m.nameEnd ==> IsAsciiLetter(s[k]))
    && s[m.end - 1] == '>'
    && (|| m.end == m.nameEnd + 1
        || (&& s[m.nameEnd] == ' '
            && m.nameEnd + 2 < m.end
            && forall k :: m.nameEnd < k < m.end - 1 ==> s[k] != '>'))
  }

  /** End of the run of ASCII letters that starts at `i` (greedy `[a-z]+`). */
  function LetterRunEnd(s: string, i: nat): (j: nat)
    requires i <= |s|
    ensures i <= j <= |s|
    ensures forall k :: i <= k < j ==> IsAsciiLetter(s[k])
    ensures j < |s| ==> !IsAsciiLetter(s[j])
    decreases |s| - i
  {
    if i < |s| && IsAsciiLetter(s[i]) then LetterRunEnd(s, i + 1) else i
  }

  /** Index of the first `>` at or after `i`, or `|s|` when there is none
      (greedy `[^>]+`, which cannot step over a `>`). */
  function FirstCloseAngle(s: string, i: nat): (j: nat)
    requires i <= |s|
    ensures i <= j <= |s|
    ensures forall k :: i <= k < j ==> s[k] != '>'
    ensures j < |s| ==> s[j] == '>'
    decreases |s| - i
  {
    if i < |s| && s[i] != '>' then FirstCloseAngle(s, i + 1) else i
  }

  /** The attempt of the regular expression anchored at position `i`: the
      match when there is one; otherwise None. */
  function MatchAt(s: string, i: nat): (r: Option<Span>)
    requires i <= |s|
    ensures r.Some? ==> r.value.start == i && IsTagAt(s, r.value)
    ensures r.None? ==> forall m :: IsTagAt(s, m) ==> m.start != i
  {
    if i + 1 < |s| && s[i] == '<' then
      var nameStart := if s[i + 1] == '/' then i + 2 else i + 1;
      var nameEnd := LetterRunEnd(s, nameStart);
      if nameEnd == nameStart || nameEnd == |s| then
        None
      else if s[nameEnd] == '>' then
        Some(Span(i, nameStart, nameEnd, nameEnd + 1))
      else if s[nameEnd] == ' ' then
        var close := FirstCloseAngle(s, nameEnd + 1);
        if close == |s| || close == nameEnd + 1 then None
        else Some(Span(i, nameStart, nameEnd, close + 1))
      else
        None
    else
      None
  }

  /** At most one match of the expression starts at a given position: the
      name is the whole letter run and the match ends at the first `>`. */
  lemma TagAtUnique(s: string, m1: Span, m2: Span)
    requires IsTagAt(s, m1) && IsTagAt(s, m2) && m1.start == m2.start
    ensures m1 == m2
  {
    var r := MatchAt(s, m1.start);
  }

  /** All matches found by preg_match_all from position `i` on: try the
      expression at `i`; after a match resume at its end, otherwise one
      position further. */
  function MatchesFrom(s: string, i: nat): (ms: seq<Span>)
    requires i <= |s|
    ensures forall k :: 0 <= k < |ms| ==> IsTagAt(s, ms[k]) && i <= ms[k].start
    ensures forall k :: 0 < k < |ms| ==> ms[k - 1].end <= ms[k].start
    decreases |s| - i
  {
    if i == |s| then []
    else match MatchAt(s, i)
      case Some(m) => [m] + MatchesFrom(s, m.end)
      case None => MatchesFrom(s, i + 1)
  }

  /** No tag-shaped text is skipped: every match of the expression that
      starts at or after `i` is either found by the scan or begins strictly
      inside a match the scan found. */
  lemma {:induction false} MatchesFromComplete(s: string, i: nat, m: Span)
    requires i <= |s| && IsTagAt(s, m) && i <= m.start
    ensures var ms := MatchesFrom(s, i);
      m in ms || exists k :: 0 <= k < |ms| && ms[k].start < m.start < ms[k].end
    decreases |s| - i
  {
    var r := MatchAt(s, i);
    var next := if r.Some? then r.value.end else i + 1;
    if r.Some? && m.start == i {
      TagAtUnique(s, m, r.value);
    }
    if next <= m.start {
      MatchesFromComplete(s, next, m);
    }
    FoundAfterStep(m, i, r, MatchesFrom(s, i), MatchesFrom(s, next));
  }

  /** One step of the scan keeps every match found or covered: the match
      tried at `i` is `m` itself or covers it, or `m` lies further on. */
  lemma FoundAfterStep(m: Span, i: nat, r: Option<Span>, ms: seq<Span>, rest: seq<Span>)
    requires i <= m.start
    requires r.Some? ==> r.value.start == i && ms == [r.value] + rest
    requires r.Some? && m.start == i ==> m == r.value
    requires r.None? ==> m.start != i && ms == rest
    requires (if r.Some? then r.value.end else i + 1) <= m.start ==>
      m in rest || exists k :: 0 <= k < |rest| && rest[k].start < m.start < rest[k].end
    ensures m in ms || exists k :: 0 <= k < |ms| && ms[k].start < m.start < ms[k].end
  {
    if r.Some? && m.start == i {
      assert ms[0] == m;
    } else if r.Some? && m.start < r.value.end {
      assert ms[0].start < m.start < ms[0].end;
    } else if r.Some? && m !in rest {
      var k :| 0 <= k < |rest| && rest[k].start < m.start < rest[k].end;
      assert ms[k + 1] == rest[k];
    }
  }

  /** A tag-shaped text at `m.start` is what the expression matches there. */
  lemma MatchAtTag(s: string, m: Span)
    requires IsTagAt(s, m)
    ensures MatchAt(s, m.start) == Some(m)
  {
    TagAtUnique(s, m, MatchAt(s, m.start).value);
  }

  /** The scan takes a tag-shaped text where it finds one and resumes after it. */
  lemma ScanTakesTag(s: string, m: Span)
    requires IsTagAt(s, m)
    ensures MatchesFrom(s, m.start) == [m] + MatchesFrom(s, m.end)
  {
    MatchAtTag(s, m);
  }

  /** The scan passes over text without a `<` without finding anything. */
  lemma {:induction false} SkipPlainText(s: string, i: nat, j: nat)
    requires i <= j <= |s|
    requires forall k :: i <= k < j ==> s[k] != '<'
    ensures MatchesFrom(s, i) == MatchesFrom(s, j)
    decreases j - i
  {
    if i < j {
      SkipPlainText(s, i + 1, j);
    }
  }

  /** The token preg_match_all reports for one match: group 0 and group 1.
      The name group lies inside the whole match, at its own offset. */
  function TokenOf(s: string, m: Span): (tok: Token)
    requires m.nameStart <= m.nameEnd <= |s| && m.start <= m.end <= |s|
    ensures |tok.raw| == m.end - m.start && |tok.name| == m.nameEnd - m.nameStart
    ensures m.start <= m.nameStart && m.nameEnd <= m.end ==>
      tok.raw[m.nameStart - m.start..m.nameEnd - m.start] == tok.name
  {
    SliceWithin(s, m.start, m.end, m.nameStart, m.nameEnd);
    Token(s[m.nameStart..m.nameEnd], s[m.start..m.end])
  }

  /** A slice of `s` that lies inside another is a slice of that one. */
  lemma SliceWithin(s: string, lo: int, hi: int, a: int, b: int)
    requires 0 <= lo <= hi <= |s| && 0 <= a <= b <= |s|
    ensures lo <= a && b <= hi ==> s[lo..hi][a - lo..b - lo] == s[a..b]
  {
    if lo <= a && b <= hi {
      var inner := s[lo..hi][a - lo..b - lo];
      assert forall k :: 0 <= k < |inner| ==> inner[k] == s[a..b][k];
    }
  }

  /** extractTags: the match list in PREG_SET_ORDER. Each token is the text
      of one match of the expression, in source order, and text without a
      `<` yields no tokens. */
  function ExtractTags(content: string): (tags: seq<Token>)
    ensures |tags| == |MatchesFrom(content, 0)|
    ensures forall k :: 0 <= k < |tags| ==>
      IsTagAt(content, MatchesFrom(content, 0)[k]) &&
      tags[k] == TokenOf(content, MatchesFrom(content, 0)[k])
    ensures (forall k :: 0 <= k < |content| ==> content[k] != '<') ==> tags == []
  {
    var ms := MatchesFrom(content, 0);
    assert (forall k :: 0 <= k < |content| ==> content[k] != '<') ==> ms == [] by {
      if ms != [] {
        assert content[ms[0].start] == '<';
      }
    }
    seq(|ms|, k requires 0 <= k < |ms| => TokenOf(content, ms[k]))
  }

  /** Whether a tag is at `m` depends only on the characters `m` covers:
      the same characters at `n`, laid out alike, form a tag there too. */
  lemma TagAtTransport(s: string, t: string, m: Span, n: Span)
    requires IsTagAt(s, m) && n.end <= |t|
    requires n.nameStart - n.start == m.nameStart - m.start
    requires n.nameEnd - n.start == m.nameEnd - m.start
    requires n.end - n.start == m.end - m.start
    requires t[n.start..n.end] == s[m.start..m.end]
    ensures IsTagAt(t, n)
  {
    SameCharAt(s, t, m, n, 0);
    SameCharAt(s, t, m, n, m.end - m.start - 1);
    if n.nameStart == n.start + 2 {
      SameCharAt(s, t, m, n, 1);
    }
    forall k | n.nameStart <= k < n.nameEnd ensures IsAsciiLetter(t[k]) {
      SameCharAt(s, t, m, n, k - n.start);
    }
    if m.end != m.nameEnd + 1 {
      SameCharAt(s, t, m, n, m.nameEnd - m.start);
      forall k | n.nameEnd < k < n.end - 1 ensures t[k] != '>' {
        SameCharAt(s, t, m, n, k - n.start);
      }
    }
  }

  /** Equal slices agree at each offset. */
  lemma SameCharAt(s: string, t: string, m: Span, n: Span, g: int)
    requires m.start <= m.end <= |s| && n.start <= n.end <= |t|
    requires t[n.start..n.end] == s[m.start..m.end]
    requires 0 <= g < m.end - m.start
    ensures t[n.start + g] == s[m.start + g]
  {
    assert t[n.start..n.end][g] == s[m.start..m.end][g];
  }

  /** No `<` in `s[lo..hi]`. */
  predicate NoAngleBetween(s: string, lo: nat, hi: nat)
    requires lo <= hi <= |s|
  {
    forall k :: lo <= k < hi ==> s[k] != '<'
  }

  /** `s` is laid out as the tags `ms`, in order, with text that has no
      `<` before, between and after them. */
  ghost predicate Tiles(s: string, ms: seq<Span>) {
    && (forall k :: 0 <= k < |ms| ==> IsTagAt(s, ms[k]))
    && (forall k :: 0 < k < |ms| ==> ms[k - 1].end <= ms[k].start)
    && (ms == [] ==> NoAngleBetween(s, 0, |s|))
    && (ms != [] ==> NoAngleBetween(s, 0, ms[0].start) && NoAngleBetween(s, ms[|ms| - 1].end, |s|))
    && (forall k :: 0 < k < |ms| ==> NoAngleBetween(s, ms[k - 1].end, ms[k].start))
  }

  /** The scan takes the tag `m` and passes over the `<`-free text after it. */
  lemma ScanTagThenText(s: string, m: Span, next: nat)
    requires IsTagAt(s, m) && m.end <= next <= |s| && NoAngleBetween(s, m.end, next)
    ensures MatchesFrom(s, m.start) == [m] + MatchesFrom(s, next)
  {
    ScanTakesTag(s, m);
    SkipPlainText(s, m.end, next);
  }

  /** From one tile on, the scan takes that tile and goes on at the next
      one, or at the end of the text after the last. */
  lemma ScanTile(s: string, ms: seq<Span>, k: nat)
    requires Tiles(s, ms) && k < |ms|
    ensures k + 1 < |ms| ==> MatchesFrom(s, ms[k].start) == [ms[k]] + MatchesFrom(s, ms[k + 1].start)
    ensures k + 1 == |ms| ==> MatchesFrom(s, ms[k].start) == [ms[k]]
  {
    var next := if k + 1 < |ms| then ms[k + 1].start else |s|;
    assert IsTagAt(s, ms[k]) && NoAngleBetween(s, ms[k].end, next);
    ScanTagThenText(s, ms[k], next);
  }

  lemma {:induction false} ScanTilesFrom(s: string, ms: seq<Span>, k: nat)
    requires Tiles(s, ms) && k < |ms|
    ensures MatchesFrom(s, ms[k].start) == ms[k..]
    decreases |ms| - k
  {
    ScanTile(s, ms, k);
    if k + 1 < |ms| {
      ScanTilesFrom(s, ms, k + 1);
      ConsTail(MatchesFrom(s, ms[k].start), MatchesFrom(s, ms[k + 1].start), ms, k);
    } else {
      assert ms[k..] == [ms[k]];
    }
  }

  lemma ConsTail(found: seq<Span>, rest: seq<Span>, ms: seq<Span>, k: nat)
    requires k + 1 < |ms| && found == [ms[k]] + rest && rest == ms[k + 1..]
    ensures found == ms[k..]
  {
  }

  /** A text laid out as tags separated by text without `<` is scanned into
      exactly those tags. */
  lemma ScanOfTiles(s: string, ms: seq<Span>)
    requires Tiles(s, ms)
    ensures MatchesFrom(s, 0) == ms
    ensures ExtractTags(s) == seq(|ms|, k requires 0 <= k < |ms| => TokenOf(s, ms[k]))
  {
    if ms == [] {
      SkipPlainText(s, 0, |s|);
    } else {
      SkipPlainText(s, 0, ms[0].start);
      ScanTilesFrom(s, ms, 0);
    }
  }

  /** isClosingTag: the second character of the matched text is `/`. A PHP
      string offset past the end reads as the empty string, so a text
      shorter than two characters is not closing. */
  predicate IsClosingTag(tag: string): (closing: bool)
    ensures |tag| < 2 ==> !closing
    ensures |tag| >= 1 && tag[0] == '<' ==> (closing <==> |tag| >= 2 && tag[..2] == "</")
  {
    |tag| >= 2 && tag[1] == '/'
  }

  /** A scanned token is closing exactly when the expression took its
      optional `/`; the token's name is the letter run after `<` or `</`. */
  lemma ClosingIffSlash(s: string, m: Span)
    requires IsTagAt(s, m)
    ensures IsClosingTag(TokenOf(s, m).raw) <==> m.nameStart == m.start + 2
    ensures TokenOf(s, m).raw[0] == '<' && TokenOf(s, m).raw[|TokenOf(s, m).raw| - 1] == '>'
    ensures |TokenOf(s, m).name| > 0
  {
    var raw := TokenOf(s, m).raw;
    assert raw[1] == s[m.start + 1];
  }
}

/** The part of PCRE that the allowed-tag check relies on, for patterns that
    are alternations of literal text: `|` separates alternatives, a
    backslash makes the next character literal (`<\/a>` is the text `</a>`),
    and the `i` flag folds ASCII case. */
module Whitelist {

  // ---------------------------------------------------------------------
  // Pattern text.
  // ---------------------------------------------------------------------

  /** implode: the strings of `parts` with `sep` between neighbours. */
  function Join(parts: seq<string>, sep: char): (joined: string)
    ensures parts == [] ==> joined == []
    ensures |parts| == 1 ==> joined == parts[0]
    decreases |parts|
  {
    if parts == [] then []
    else if |parts| == 1 then parts[0]
    else parts[0] + [sep] + Join(parts[1..], sep)
  }

  /** Adds `c` to the front of the first alternative. */
  function PrependToFirst(c: char, alts: seq<string>): seq<string>
    requires alts != []
  {
    [[c] + alts[0]] + alts[1..]
  }

  /** The literal alternatives a pattern stands for. There is always at
      least one: the empty pattern is the single empty alternative. */
  function Alternatives(pattern: string): (alts: seq<string>)
    ensures alts != []
    ensures |alts| <= |pattern| + 1
    decreases |pattern|
  {
    if pattern == [] then [[]]
    else if pattern[0] == '|' then [[]] + Alternatives(pattern[1..])
    else if pattern[0] == '\\' && |pattern| >= 2 then PrependToFirst(pattern[1], Alternatives(pattern[2..]))
    else PrependToFirst(pattern[0], Alternatives(pattern[1..]))
  }

  /** No backslash is left without a character to escape. */
  predicate WellEscaped(pattern: string)
    decreases |pattern|
  {
    if pattern == [] then true
    else if pattern[0] == '\\' then |pattern| >= 2 && WellEscaped(pattern[2..])
    else WellEscaped(pattern[1..])
  }

  /** Text with no `|` and no backslash stands for itself alone. */
  lemma {:induction false} PlainAlternatives(text: string)
    requires forall k :: 0 <= k < |text| ==> text[k] != '|' && text[k] != '\\'
    ensures Alternatives(text) == [text] && WellEscaped(text)
    decreases |text|
  {
    if text != [] {
      PlainAlternatives(text[1..]);
      assert [text[0]] + text[1..] == text;
    }
  }

  /** A character other than `|` and backslash in front of a pattern joins
      its first alternative. */
  lemma AlternativesCons(c: char, p: string)
    requires c != '|' && c != '\\'
    ensures Alternatives([c] + p) == PrependToFirst(c, Alternatives(p))
    ensures WellEscaped([c] + p) == WellEscaped(p)
  {
    var t := [c] + p;
    assert t[0] == c && t[1..] == p;
  }

  /** An escaped character in front of a pattern joins its first
      alternative as itself. */
  lemma AlternativesEscaped(c: char, p: string)
    ensures Alternatives(['\\', c] + p) == PrependToFirst(c, Alternatives(p))
    ensures WellEscaped(['\\', c] + p) == WellEscaped(p)
  {
    var t := ['\\', c] + p;
    assert t[0] == '\\' && t[1] == c && t[2..] == p;
  }

  /** Every alternative is non-empty and begins with `c`. */
  predicate AllBeginWith(alts: seq<string>, c: char) {
    forall lit :: lit in alts ==> lit != [] && lit[0] == c
  }

  /** The alternatives of every pattern of `patterns`, in order. */
  function AllAlternatives(patterns: seq<string>): seq<string>
    decreases |patterns|
  {
    if patterns == [] then [] else Alternatives(patterns[0]) + AllAlternatives(patterns[1..])
  }

  lemma PrependAppend(c: char, xs: seq<string>, ys: seq<string>)
    requires xs != []
    ensures PrependToFirst(c, xs + ys) == PrependToFirst(c, xs) + ys
  {
    assert (xs + ys)[0] == xs[0] && (xs + ys)[1..] == xs[1..] + ys;
  }

  /** Joining two patterns with `|` offers the alternatives of both. */
  lemma {:induction false} AlternativesOfBar(a: string, b: string)
    requires WellEscaped(a)
    ensures Alternatives(a + ['|'] + b) == Alternatives(a) + Alternatives(b)
    decreases |a|
  {
    var t := a + ['|'] + b;
    if a == [] {
      assert t[0] == '|' && t[1..] == b;
    } else if a[0] == '|' {
      assert t[0] == '|' && t[1..] == a[1..] + ['|'] + b;
      AlternativesOfBar(a[1..], b);
    } else if a[0] == '\\' {
      assert t[0] == '\\' && t[1] == a[1] && t[2..] == a[2..] + ['|'] + b;
      AlternativesOfBar(a[2..], b);
      PrependAppend(a[1], Alternatives(a[2..]), Alternatives(b));
    } else {
      assert t[0] == a[0] && t[1..] == a[1..] + ['|'] + b;
      AlternativesOfBar(a[1..], b);
      PrependAppend(a[0], Alternatives(a[1..]), Alternatives(b));
    }
  }

  lemma {:induction false} WellEscapedBar(a: string, b: string)
    requires WellEscaped(a) && WellEscaped(b)
    ensures WellEscaped(a + ['|'] + b)
    decreases |a|
  {
    var t := a + ['|'] + b;
    if a == [] {
      assert t[1..] == b;
    } else if a[0] == '\\' {
      assert t[2..] == a[2..] + ['|'] + b;
      WellEscapedBar(a[2..], b);
    } else {
      assert t[1..] == a[1..] + ['|'] + b;
      WellEscapedBar(a[1..], b);
    }
  }

  /** The combined alternation of well-escaped patterns offers exactly the
      alternatives of each pattern, in order. */
  lemma {:induction false} JoinAlternatives(patterns: seq<string>)
    requires patterns != []
    requires forall p :: p in patterns ==> WellEscaped(p)
    ensures Alternatives(Join(patterns, '|')) == AllAlternatives(patterns)
    decreases |patterns|
  {
    if |patterns| == 1 {
      assert AllAlternatives(patterns[1..]) == [];
    } else {
      assert patterns[0] in patterns;
      JoinAlternatives(patterns[1..]);
      AlternativesOfBar(patterns[0], Join(patterns[1..], '|'));
    }
  }

  lemma {:induction false} InAllAlternatives(patterns: seq<string>, lit: string)
    ensures lit in AllAlternatives(patterns) <==> exists p :: p in patterns && lit in Alternatives(p)
    decreases |patterns|
  {
    if patterns != [] {
      var rest := patterns[1..];
      InAllAlternatives(rest, lit);
      assert AllAlternatives(patterns) == Alternatives(patterns[0]) + AllAlternatives(rest);
      assert patterns[0] in patterns;
      assert forall p :: p in rest ==> p in patterns;
      assert forall p :: p in patterns ==> p == patterns[0] || p in rest;
    }
  }

  // ---------------------------------------------------------------------
  // Case-insensitive literal search.
  // ---------------------------------------------------------------------

  /** Case folding of the `i` flag: ASCII upper case to lower case. */
  function LowerAscii(c: char): char {
    if 'A' <= c <= 'Z' then (c as int + 32) as char else c
  }

  predicate EqualIgnoringCase(a: string, b: string) {
    |a| == |b| && forall k :: 0 <= k < |a| ==> LowerAscii(a[k]) == LowerAscii(b[k])
  }

  /** `lit` matches `text` at position `i`. */
  ghost predicate OccursAt(lit: string, text: string, i: int) {
    0 <= i <= |text| - |lit| && EqualIgnoringCase(lit, text[i..i + |lit|])
  }

  ghost predicate Occurs(lit: string, text: string) {
    exists i :: OccursAt(lit, text, i)
  }

  function OccursFrom(lit: string, text: string, i: nat): (found: bool)
    requires i <= |text|
    ensures found <==> exists j :: i <= j && OccursAt(lit, text, j)
    decreases |text| - i
  {
    if i + |lit| > |text| then false
    else if EqualIgnoringCase(lit, text[i..i + |lit|]) then
      assert OccursAt(lit, text, i);
      true
    else
      OccursFrom(lit, text, i + 1)
  }

  function AnyOccurs(lits: seq<string>, text: string): (found: bool)
    ensures found <==> exists lit :: lit in lits && Occurs(lit, text)
    decreases |lits|
  {
    if lits == [] then false
    else if OccursFrom(lits[0], text, 0) then
      assert Occurs(lits[0], text) && lits[0] in lits;
      true
    else
      assert forall lit :: lit in lits <==> lit == lits[0] || lit in lits[1..];
      assert !Occurs(lits[0], text);
      AnyOccurs(lits[1..], text)
  }

  /** Whether preg_match_all with `/(pattern)/i` finds at least one match in
      `subject`: some alternative of the pattern occurs somewhere in it. */
  function MatchesSomewhere(pattern: string, subject: string): (found: bool)
    ensures found <==> exists lit :: lit in Alternatives(pattern) && Occurs(lit, subject)
  {
    AnyOccurs(Alternatives(pattern), subject)
  }

  /** The empty literal occurs in every text, at position 0. */
  lemma EmptyOccurs(text: string)
    ensures Occurs([], text)
  {
    assert OccursAt([], text, 0);
  }
}

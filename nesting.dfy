/** The nesting check of HtmlValidator (validateTagNesting and
    checkLastClosedTagMatchCurrentTag): typed bracket matching with an
    explicit stack of still-open tag names. */
module Nesting {
  import opened Outcomes
  import opened TagScanner

  /** A token as the nesting pass sees it: its name and whether it closes. */
  datatype Tag = Open(name: string) | Close(name: string)

  /** Why the nesting pass fails (ClosureTagException): a closing tag with
      nothing open or with a different name on top of the stack, or tags
      still open at the end, listed in opening order. */
  datatype ClosureError = InvalidClosure | UnclosedTags(names: seq<string>)

  /** A token keeps its name and closes exactly when isClosingTag says so. */
  function Classify(t: Token): (tag: Tag)
    ensures tag.name == t.name
    ensures tag.Close? <==> IsClosingTag(t.raw)
  {
    if IsClosingTag(t.raw) then Close(t.name) else Open(t.name)
  }

  function Tags(tokens: seq<Token>): (tags: seq<Tag>)
    ensures |tags| == |tokens|
  {
    seq(|tokens|, k requires 0 <= k < |tokens| => Classify(tokens[k]))
  }

  // ---------------------------------------------------------------------
  // Reference semantics: well-nested tag sequences as a grammar.
  // ---------------------------------------------------------------------

  /** Balanced sequences: empty, or a balanced sequence followed by an
      opening tag, a balanced sequence and the closing tag of the same
      name (compared case-sensitively). */
  ghost predicate Balanced(tags: seq<Tag>)
    decreases |tags|, 1
  {
    tags == [] || exists i :: WrapsAt(tags, i)
  }

  /** `tags` is `tags[..i]`, then `Open(n)` at `i`, then a balanced part, then
      `Close(n)` as its last element, with `tags[..i]` balanced. */
  ghost predicate WrapsAt(tags: seq<Tag>, i: int)
    decreases |tags|, 0
  {
    && 0 <= i < |tags| - 1
    && tags[|tags| - 1] == Close(tags[i].name)
    && tags[i].Open?
    && Balanced(tags[..i])
    && Balanced(tags[i + 1..|tags| - 1])
  }

  /** `tags` is a prefix of a balanced sequence in which exactly the tags
      named by `open` (outermost first) were opened and never closed:
      B0 Open(open[0]) B1 ... Open(open[n-1]) Bn with every Bi balanced. */
  ghost predicate LeavesOpen(tags: seq<Tag>, open: seq<string>)
    decreases |open|, 1
  {
    if open == [] then Balanced(tags) else exists i :: InnermostOpenAt(tags, open, i)
  }

  /** The innermost still-open tag, `open`'s last name, is opened at `i`
      and everything after it is balanced. */
  ghost predicate InnermostOpenAt(tags: seq<Tag>, open: seq<string>, i: int)
    requires open != []
    decreases |open|, 0
  {
    && 0 <= i < |tags|
    && tags[i] == Open(open[|open| - 1])
    && LeavesOpen(tags[..i], open[..|open| - 1])
    && Balanced(tags[i + 1..])
  }

  // ---------------------------------------------------------------------
  // The stack machine.
  // ---------------------------------------------------------------------

  /** One iteration of the loop: an opening tag pushes its name; a closing
      tag pops the top entry and must match it; None is the exception. */
  function Step(stack: seq<string>, t: Tag): (next: Option<seq<string>>)
    ensures t.Open? ==> next == Some(stack + [t.name])
    ensures t.Close? ==> (next.Some? <==> stack != [] && stack[|stack| - 1] == t.name)
    ensures t.Close? && next.Some? ==> next.value + [t.name] == stack
  {
    match t
    case Open(n) => Some(stack + [n])
    case Close(n) =>
      if stack != [] && stack[|stack| - 1] == n then Some(stack[..|stack| - 1]) else None
  }

  /** The stack after the loop has processed `tags` from `stack`, or None
      when it throws on the way. */
  function Run(tags: seq<Tag>, stack: seq<string>): (final: Option<seq<string>>)
    ensures final.Some? ==> |final.value| <= |stack| + |tags|
    decreases |tags|
  {
    if tags == [] then Some(stack)
    else match Step(stack, tags[0])
      case None => None
      case Some(next) => Run(tags[1..], next)
  }

  /** The number of opening tags in a sequence. */
  function OpenCount(tags: seq<Tag>): (n: nat)
    ensures n <= |tags|
    decreases |tags|
  {
    if tags == [] then 0 else (if tags[0].Open? then 1 else 0) + OpenCount(tags[1..])
  }

  /** The verdict of validateTagNesting on a tag sequence. A list of
      unclosed tags is never empty and never longer than the sequence. */
  function NestingOutcome(tags: seq<Tag>): (r: Outcome<ClosureError>)
    ensures r.Fail? && r.error.UnclosedTags? ==> r.error.names != [] && |r.error.names| <= |tags|
  {
    match Run(tags, [])
    case None => Fail(InvalidClosure)
    case Some(stack) =>
      if stack == [] then Pass else Fail(UnclosedTags(stack))
  }

  // ---------------------------------------------------------------------
  // The stack machine accepts exactly the grammar.
  // ---------------------------------------------------------------------

  lemma {:induction false} RunAppend(a: seq<Tag>, b: seq<Tag>, stack: seq<string>)
    ensures Run(a + b, stack) ==
      match Run(a, stack)
      case None => None
      case Some(mid) => Run(b, mid)
    decreases |a|
  {
    if a == [] {
      assert a + b == b;
    } else {
      assert (a + b)[0] == a[0] && (a + b)[1..] == a[1..] + b;
      match Step(stack, a[0])
      case None =>
      case Some(next) => RunAppend(a[1..], b, next);
    }
  }

  /** The stack never grows by more than one entry per tag. */
  /** Each opening tag pushes one entry and each closing tag pops one, so
      the final stack has the initial entries plus the openings minus the
      closings. */
  lemma {:induction false} RunOpenCount(tags: seq<Tag>, stack: seq<string>)
    requires Run(tags, stack).Some?
    ensures |Run(tags, stack).value| + |tags| == |stack| + 2 * OpenCount(tags)
    decreases |tags|
  {
    if tags != [] {
      RunOpenCount(tags[1..], Step(stack, tags[0]).value);
    }
  }

  /** Running an opening tag, a stretch that keeps the stack, and the
      matching closing tag leaves the stack unchanged. */
  lemma RunWrapped(n: string, inner: seq<Tag>, stack: seq<string>)
    requires Run(inner, stack + [n]) == Some(stack + [n])
    ensures Run([Open(n)] + inner + [Close(n)], stack) == Some(stack)
  {
    assert [Open(n)] + inner + [Close(n)] == [Open(n)] + (inner + [Close(n)]);
    RunAppend([Open(n)], inner + [Close(n)], stack);
    RunAppend(inner, [Close(n)], stack + [n]);
    assert (stack + [n])[..|stack|] == stack;
  }

  /** A balanced sequence leaves any stack as it found it. */
  lemma {:induction false} BalancedKeepsStack(tags: seq<Tag>, stack: seq<string>)
    requires Balanced(tags)
    ensures Run(tags, stack) == Some(stack)
    decreases |tags|
  {
    if tags != [] {
      var i :| WrapsAt(tags, i);
      var n := tags[i].name;
      var pre, inner := tags[..i], tags[i + 1..|tags| - 1];
      assert tags == pre + ([Open(n)] + inner + [Close(n)]);
      RunAppend(pre, [Open(n)] + inner + [Close(n)], stack);
      BalancedKeepsStack(pre, stack);
      BalancedKeepsStack(inner, stack + [n]);
      RunWrapped(n, inner, stack);
    }
  }

  /** Closing the tag opened after a balanced `a` keeps it balanced. */
  lemma BalancedWrap(a: seq<Tag>, n: string, inner: seq<Tag>)
    requires Balanced(a) && Balanced(inner)
    ensures Balanced(a + [Open(n)] + inner + [Close(n)])
  {
    var t := a + [Open(n)] + inner + [Close(n)];
    assert t[..|a|] == a && t[|a| + 1..|t| - 1] == inner && t[|a|] == Open(n);
    assert WrapsAt(t, |a|);
  }

  /** Closing the innermost open tag removes it from the open list. */
  lemma CloseInnermost(q: seq<Tag>, open: seq<string>, n: string, inner: seq<Tag>)
    requires LeavesOpen(q, open) && Balanced(inner)
    ensures LeavesOpen(q + [Open(n)] + inner + [Close(n)], open)
  {
    var t := q + [Open(n)] + inner + [Close(n)];
    if open == [] {
      BalancedWrap(q, n, inner);
    } else {
      var j :| InnermostOpenAt(q, open, j);
      BalancedWrap(q[j + 1..], n, inner);
      assert t[..j] == q[..j] && t[j] == q[j];
      assert t[j + 1..] == q[j + 1..] + [Open(n)] + inner + [Close(n)];
      assert InnermostOpenAt(t, open, j);
    }
  }

  /** Whatever stack the machine ends with describes the input as a
      grammar prefix with exactly those tags left open. */
  lemma {:induction false} RunLeavesOpen(p: seq<Tag>, open: seq<string>)
    requires Run(p, []) == Some(open)
    ensures LeavesOpen(p, open)
    decreases |p|
  {
    if p != [] {
      var p0, t := p[..|p| - 1], p[|p| - 1];
      assert p == p0 + [t];
      RunAppend(p0, [t], []);
      var mid := Run(p0, []).value;
      RunLeavesOpen(p0, mid);
      match t
      case Open(n) =>
        assert open == mid + [n];
        assert p[..|p0|] == p0 && open[..|open| - 1] == mid;
        assert p[|p0| + 1..] == [];
        assert InnermostOpenAt(p, open, |p0|);
      case Close(n) =>
        assert mid != [] && mid[|mid| - 1] == n && open == mid[..|mid| - 1];
        var i :| InnermostOpenAt(p0, mid, i);
        CloseInnermost(p0[..i], open, n, p0[i + 1..]);
        assert p0[..i] + [Open(n)] + p0[i + 1..] + [Close(n)] == p;
    }
  }

  /** Conversely, a grammar prefix leaving `open` unclosed drives the
      machine to exactly that stack. */
  lemma {:induction false} LeavesOpenRuns(p: seq<Tag>, open: seq<string>)
    requires LeavesOpen(p, open)
    ensures Run(p, []) == Some(open)
    decreases |open|
  {
    if open == [] {
      BalancedKeepsStack(p, []);
    } else {
      var n, outer := open[|open| - 1], open[..|open| - 1];
      var i :| InnermostOpenAt(p, open, i);
      LeavesOpenRuns(p[..i], outer);
      assert p == p[..i] + ([Open(n)] + p[i + 1..]);
      RunAppend(p[..i], [Open(n)] + p[i + 1..], []);
      RunAppend([Open(n)], p[i + 1..], outer);
      BalancedKeepsStack(p[i + 1..], outer + [n]);
      assert outer + [n] == open;
    }
  }

  /** validateTagNesting accepts exactly the balanced sequences; it reports
      unclosed tags exactly when the input is a proper prefix of a balanced
      sequence, naming the open tags outermost first; otherwise some closing
      tag did not match. */
  lemma NestingOutcomeMeaning(tags: seq<Tag>)
    ensures NestingOutcome(tags) == Pass <==> Balanced(tags)
    ensures forall open :: NestingOutcome(tags) == Fail(UnclosedTags(open)) <==> open != [] && LeavesOpen(tags, open)
    ensures NestingOutcome(tags) == Fail(InvalidClosure) <==> forall open :: !LeavesOpen(tags, open)
  {
    forall open | LeavesOpen(tags, open) ensures Run(tags, []) == Some(open) {
      LeavesOpenRuns(tags, open);
    }
    if Balanced(tags) {
      assert LeavesOpen(tags, []);
    }
    if Run(tags, []).Some? {
      RunLeavesOpen(tags, Run(tags, []).value);
      assert Run(tags, []) == Some([]) ==> Balanced(tags);
    }
  }

  // ---------------------------------------------------------------------
  // The source's loop.
  // ---------------------------------------------------------------------

  /** checkLastClosedTagMatchCurrentTag: pops the stack (passed by
      reference) and reports whether the popped entry differs from
      `tagName`. array_pop of an empty array gives null, which differs from
      every name. */
  method CheckLastClosedTagMatchCurrentTag(unclosedTagStack: seq<string>, tagName: string)
    returns (mismatch: bool, popped: seq<string>)
    ensures unclosedTagStack == [] ==> mismatch && popped == []
    ensures unclosedTagStack != [] ==> popped + [unclosedTagStack[|unclosedTagStack| - 1]] == unclosedTagStack
    ensures unclosedTagStack != [] ==> (mismatch <==> unclosedTagStack[|unclosedTagStack| - 1] != tagName)
  {
    if unclosedTagStack == [] {
      mismatch, popped := true, [];
    } else {
      var top := unclosedTagStack[|unclosedTagStack| - 1];
      popped := unclosedTagStack[..|unclosedTagStack| - 1];
      mismatch := top != tagName;
    }
  }

  /** validateTagNesting: one pass over the tokens with a stack of the
      names still open. */
  method ValidateTagNesting(tags: seq<Token>) returns (r: Outcome<ClosureError>)
    ensures r == NestingOutcome(Tags(tags))
    ensures r == Pass <==> Balanced(Tags(tags))
    ensures r.Fail? && r.error.UnclosedTags? ==>
      0 < |r.error.names| <= |tags| && LeavesOpen(Tags(tags), r.error.names)
  {
    NestingOutcomeMeaning(Tags(tags));
    var unclosedTagStack: seq<string> := [];
    var i := 0;
    while i < |tags|
      invariant 0 <= i <= |tags|
      invariant |unclosedTagStack| <= i
      invariant Run(Tags(tags)[i..], unclosedTagStack) == Run(Tags(tags), [])
    {
      var tagMatch := tags[i];
      var tagName := tagMatch.name;
      assert Tags(tags)[i..][0] == Classify(tagMatch) && Tags(tags)[i..][1..] == Tags(tags)[i + 1..];
      if IsClosingTag(tagMatch.raw) {
        if unclosedTagStack == [] {
          return Fail(InvalidClosure);
        }
        var mismatch;
        mismatch, unclosedTagStack := CheckLastClosedTagMatchCurrentTag(unclosedTagStack, tagName);
        if mismatch {
          return Fail(InvalidClosure);
        }
      } else {
        unclosedTagStack := unclosedTagStack + [tagName];
      }
      i := i + 1;
    }
    if unclosedTagStack != [] {
      return Fail(UnclosedTags(unclosedTagStack));
    }
    return Pass;
  }
}

/** Markup built from pieces (plain text, opening tags with or without
    attributes, closing tags) and what the tag scanner makes of it: the
    scan of rendered markup gives back exactly its tags, in order. */
module Markup {
  import opened TagScanner
  import opened Nesting

  datatype Piece = Text(text: string) | OpenTag(name: string, attributes: string) | CloseTag(name: string)

  predicate IsTagName(name: string) {
    |name| > 0 && forall k :: 0 <= k < |name| ==> IsAsciiLetter(name[k])
  }

  /** Text holds no `<`; a name is a run of ASCII letters; attributes hold no `>`. */
  predicate WellFormed(p: Piece) {
    match p
    case Text(t) => forall k :: 0 <= k < |t| ==> t[k] != '<'
    case OpenTag(n, a) => IsTagName(n) && forall k :: 0 <= k < |a| ==> a[k] != '>'
    case CloseTag(n) => IsTagName(n)
  }

  function PieceText(p: Piece): string {
    match p
    case Text(t) => t
    case OpenTag(n, a) => if a == [] then "<" + n + ">" else "<" + n + " " + a + ">"
    case CloseTag(n) => "</" + n + ">"
  }

  function Render(ps: seq<Piece>): string {
    if ps == [] then [] else Render(ps[..|ps| - 1]) + PieceText(ps[|ps| - 1])
  }

  /** The tag a piece stands for, if it is one. */
  function TagsOf(ps: seq<Piece>): seq<Tag> {
    if ps == [] then []
    else
      var p := ps[|ps| - 1];
      TagsOf(ps[..|ps| - 1]) + (match p
        case Text(_) => []
        case OpenTag(n, _) => [Open(n)]
        case CloseTag(n) => [Close(n)])
  }

  /** Where the expression matches in the text of one tag piece. */
  function PieceSpan(p: Piece): Span
    requires !p.Text?
  {
    match p
    case OpenTag(n, a) => Span(0, 1, 1 + |n|, |PieceText(p)|)
    case CloseTag(n) => Span(0, 2, 2 + |n|, |PieceText(p)|)
  }

  /** The text of a well-formed tag piece is exactly one match, whose
      token classifies as the piece's tag. */
  lemma PieceIsTag(p: Piece)
    requires WellFormed(p) && !p.Text?
    ensures IsTagAt(PieceText(p), PieceSpan(p))
    ensures PieceSpan(p).end == |PieceText(p)|
    ensures Classify(TokenOf(PieceText(p), PieceSpan(p))) == TagsOf([p])[0]
  {
    var w := PieceText(p);
    var m := PieceSpan(p);
    assert [p][..0] == [];
    match p
    case OpenTag(n, a) =>
      assert w[1..1 + |n|] == n;
      assert forall k :: 1 <= k < 1 + |n| ==> w[k] == n[k - 1];
      if a != [] {
        assert forall k :: 2 + |n| <= k < |w| - 1 ==> w[k] == a[k - 2 - |n|];
      }
    case CloseTag(n) =>
      assert w[2..2 + |n|] == n;
      assert forall k :: 2 <= k < 2 + |n| ==> w[k] == n[k - 2];
  }

  function Moved(m: Span, d: nat): Span {
    Span(m.start + d, m.nameStart + d, m.nameEnd + d, m.end + d)
  }

  /** Where the scan of `Render(ps)` is to find the tags of `ps`. */
  function SpansOf(ps: seq<Piece>): seq<Span> {
    if ps == [] then []
    else
      var init := ps[..|ps| - 1];
      var p := ps[|ps| - 1];
      SpansOf(init) + (if p.Text? then [] else [Moved(PieceSpan(p), |Render(init)|)])
  }

  lemma TagAtPrefix(s: string, t: string, m: Span)
    requires IsTagAt(s, m)
    ensures IsTagAt(s + t, m)
    ensures TokenOf(s + t, m) == TokenOf(s, m)
  {
    assert (s + t)[m.start..m.end] == s[m.start..m.end];
    assert (s + t)[m.nameStart..m.nameEnd] == s[m.nameStart..m.nameEnd];
    TagAtTransport(s, s + t, m, m);
  }

  lemma TagAtMoved(s: string, w: string, m: Span)
    requires IsTagAt(w, m)
    ensures IsTagAt(s + w, Moved(m, |s|))
    ensures TokenOf(s + w, Moved(m, |s|)) == TokenOf(w, m)
  {
    var n := Moved(m, |s|);
    assert (s + w)[n.start..n.end] == w[m.start..m.end];
    assert (s + w)[n.nameStart..n.nameEnd] == w[m.nameStart..m.nameEnd];
    TagAtTransport(w, s + w, m, n);
  }

  lemma NoAnglePrefix(s: string, t: string, lo: nat, hi: nat)
    requires lo <= hi <= |s| && NoAngleBetween(s, lo, hi)
    ensures NoAngleBetween(s + t, lo, hi)
  {
    assert forall k :: lo <= k < hi ==> (s + t)[k] == s[k];
  }

  lemma NoAngleJoin(s: string, t: string, lo: nat)
    requires lo <= |s| && NoAngleBetween(s, lo, |s|) && NoAngleBetween(t, 0, |t|)
    ensures NoAngleBetween(s + t, lo, |s + t|)
  {
    assert forall k :: |s| <= k < |s + t| ==> (s + t)[k] == t[k - |s|];
  }

  /** Text without `<` after a tiled text extends its last gap. */
  lemma TilesAppendText(s: string, ms: seq<Span>, t: string)
    requires Tiles(s, ms) && NoAngleBetween(t, 0, |t|)
    ensures Tiles(s + t, ms)
  {
    forall k | 0 <= k < |ms| ensures IsTagAt(s + t, ms[k]) {
      TagAtPrefix(s, t, ms[k]);
    }
    forall k | 0 < k < |ms| ensures NoAngleBetween(s + t, ms[k - 1].end, ms[k].start) {
      NoAnglePrefix(s, t, ms[k - 1].end, ms[k].start);
    }
    if ms == [] {
      NoAngleJoin(s, t, 0);
    } else {
      NoAnglePrefix(s, t, 0, ms[0].start);
      NoAngleJoin(s, t, ms[|ms| - 1].end);
    }
  }

  /** What a tiling of `s` still says about `s + w`. */
  lemma TilesKept(s: string, ms: seq<Span>, w: string)
    requires Tiles(s, ms)
    ensures forall k :: 0 <= k < |ms| ==> IsTagAt(s + w, ms[k])
    ensures forall k :: 0 < k < |ms| ==> NoAngleBetween(s + w, ms[k - 1].end, ms[k].start)
    ensures ms == [] ==> NoAngleBetween(s + w, 0, |s|)
    ensures ms != [] ==> NoAngleBetween(s + w, 0, ms[0].start) && NoAngleBetween(s + w, ms[|ms| - 1].end, |s|)
  {
    forall k | 0 <= k < |ms| ensures IsTagAt(s + w, ms[k]) {
      TagAtPrefix(s, w, ms[k]);
    }
    forall k | 0 < k < |ms| ensures NoAngleBetween(s + w, ms[k - 1].end, ms[k].start) {
      NoAnglePrefix(s, w, ms[k - 1].end, ms[k].start);
    }
    if ms == [] {
      NoAnglePrefix(s, w, 0, |s|);
    } else {
      NoAnglePrefix(s, w, 0, ms[0].start);
      NoAnglePrefix(s, w, ms[|ms| - 1].end, |s|);
    }
  }

  /** Appending one tag to tags of `u` keeps them all tags of `u`. */
  lemma TagsAddLast(u: string, ms: seq<Span>, n: Span)
    requires forall k :: 0 <= k < |ms| ==> IsTagAt(u, ms[k])
    requires IsTagAt(u, n)
    ensures forall k :: 0 <= k < |ms + [n]| ==> IsTagAt(u, (ms + [n])[k])
  {
    var ns := ms + [n];
    forall k | 0 <= k < |ns| ensures IsTagAt(u, ns[k]) {
      if k < |ms| {
        assert ns[k] == ms[k];
      }
    }
  }

  /** Appending a tag that ends the text, after `<`-free text, to a tiling
      of the text before it. */
  lemma TilesAddLast(u: string, ms: seq<Span>, n: Span)
    requires forall k :: 0 <= k < |ms| ==> IsTagAt(u, ms[k]) && ms[k].start < ms[k].end <= |u|
    requires forall k :: 0 < k < |ms| ==> ms[k - 1].end <= ms[k].start
    requires forall k :: 0 < k < |ms| ==> NoAngleBetween(u, ms[k - 1].end, ms[k].start)
    requires IsTagAt(u, n) && n.start < n.end == |u|
    requires ms == [] ==> NoAngleBetween(u, 0, n.start)
    requires ms != [] ==> ms[|ms| - 1].end <= n.start
    requires ms != [] ==> NoAngleBetween(u, 0, ms[0].start) && NoAngleBetween(u, ms[|ms| - 1].end, n.start)
    ensures Tiles(u, ms + [n])
  {
    var ns := ms + [n];
    TagsAddLast(u, ms, n);
    forall k | 0 < k < |ns|
      ensures ns[k - 1].end <= ns[k].start && NoAngleBetween(u, ns[k - 1].end, ns[k].start)
    {
      assert ns[k - 1] == ms[k - 1];
      if k < |ms| {
        assert ns[k] == ms[k];
      }
    }
    assert ns[0].start <= n.start && NoAngleBetween(u, 0, ns[0].start);
    assert ns[|ns| - 1] == n && NoAngleBetween(u, |u|, |u|);
  }

  /** A whole tag after a tiled text is one more tile. */
  lemma TilesAppendTag(s: string, ms: seq<Span>, w: string, m: Span)
    requires Tiles(s, ms) && IsTagAt(w, m) && m.start == 0 && m.end == |w|
    ensures Tiles(s + w, ms + [Moved(m, |s|)])
  {
    TagAtMoved(s, w, m);
    TilesKept(s, ms, w);
    TilesAddLast(s + w, ms, Moved(m, |s|));
  }

  /** `s` is tiled by `ms`, and the tokens found there classify as `tags`. */
  ghost predicate ScansAs(s: string, ms: seq<Span>, tags: seq<Tag>) {
    && Tiles(s, ms)
    && |ms| == |tags|
    && forall k :: 0 <= k < |ms| ==> IsTagAt(s, ms[k]) && Classify(TokenOf(s, ms[k])) == tags[k]
  }

  lemma ScansAsText(s: string, ms: seq<Span>, tags: seq<Tag>, t: string)
    requires ScansAs(s, ms, tags) && NoAngleBetween(t, 0, |t|)
    ensures ScansAs(s + t, ms, tags)
  {
    TilesAppendText(s, ms, t);
    forall k | 0 <= k < |ms| ensures IsTagAt(s + t, ms[k]) && Classify(TokenOf(s + t, ms[k])) == tags[k] {
      TagAtPrefix(s, t, ms[k]);
    }
  }

  lemma ScansAsTag(s: string, ms: seq<Span>, tags: seq<Tag>, w: string, m: Span, tag: Tag)
    requires ScansAs(s, ms, tags)
    requires IsTagAt(w, m) && m.start == 0 && m.end == |w| && Classify(TokenOf(w, m)) == tag
    ensures ScansAs(s + w, ms + [Moved(m, |s|)], tags + [tag])
  {
    var ns := ms + [Moved(m, |s|)];
    var ts := tags + [tag];
    TilesAppendTag(s, ms, w, m);
    TagAtMoved(s, w, m);
    forall k | 0 <= k < |ns| ensures IsTagAt(s + w, ns[k]) && Classify(TokenOf(s + w, ns[k])) == ts[k] {
      if k < |ms| {
        TagAtPrefix(s, w, ms[k]);
      }
    }
  }

  lemma RenderLast(init: seq<Piece>, p: Piece)
    ensures Render(init + [p]) == Render(init) + PieceText(p)
    ensures SpansOf(init + [p]) == SpansOf(init) + (if p.Text? then [] else [Moved(PieceSpan(p), |Render(init)|)])
    ensures TagsOf(init + [p]) == TagsOf(init) + TagsOf([p])
  {
    assert (init + [p])[..|init|] == init;
    assert [p][..0] == [];
  }

  /** The last piece of well-formed markup, a tag, is scanned as one more
      tag after those of the pieces before it. */
  lemma RenderStepTag(ps: seq<Piece>)
    requires ps != [] && WellFormed(ps[|ps| - 1]) && !ps[|ps| - 1].Text?
    requires ScansAs(Render(ps[..|ps| - 1]), SpansOf(ps[..|ps| - 1]), TagsOf(ps[..|ps| - 1]))
    ensures ScansAs(Render(ps), SpansOf(ps), TagsOf(ps))
  {
    var init, p := ps[..|ps| - 1], ps[|ps| - 1];
    var s, ms, ts := Render(init), SpansOf(init), TagsOf(init);
    var w, m, tag := PieceText(p), PieceSpan(p), TagsOf([p])[0];
    PieceIsTag(p);
    ScansAsTag(s, ms, ts, w, m, tag);
    assert [p][..0] == [];
    assert Render(ps) == s + w;
    assert SpansOf(ps) == ms + [Moved(m, |s|)];
    assert TagsOf(ps) == ts + [tag];
  }

  /** The last piece of well-formed markup, text, adds no tag. */
  lemma RenderStepText(ps: seq<Piece>)
    requires ps != [] && WellFormed(ps[|ps| - 1]) && ps[|ps| - 1].Text?
    requires ScansAs(Render(ps[..|ps| - 1]), SpansOf(ps[..|ps| - 1]), TagsOf(ps[..|ps| - 1]))
    ensures ScansAs(Render(ps), SpansOf(ps), TagsOf(ps))
  {
    var init, p := ps[..|ps| - 1], ps[|ps| - 1];
    var s, ms, ts := Render(init), SpansOf(init), TagsOf(init);
    ScansAsText(s, ms, ts, p.text);
    assert Render(ps) == s + p.text;
    assert SpansOf(ps) == ms + [] == ms;
    assert TagsOf(ps) == ts + [] == ts;
  }

  lemma {:induction false} RenderScansAs(ps: seq<Piece>)
    requires forall i :: 0 <= i < |ps| ==> WellFormed(ps[i])
    ensures ScansAs(Render(ps), SpansOf(ps), TagsOf(ps))
  {
    if ps == [] {
      assert NoAngleBetween(Render(ps), 0, 0);
    } else {
      AllWellFormedInit(ps, ps[..|ps| - 1]);
      RenderScansAs(ps[..|ps| - 1]);
      if ps[|ps| - 1].Text? {
        RenderStepText(ps);
      } else {
        RenderStepTag(ps);
      }
    }
  }

  /** The pieces before the last of well-formed markup are well formed. */
  lemma AllWellFormedInit(ps: seq<Piece>, init: seq<Piece>)
    requires ps != [] && init == ps[..|ps| - 1]
    requires forall i :: 0 <= i < |ps| ==> WellFormed(ps[i])
    ensures forall i :: 0 <= i < |init| ==> WellFormed(init[i])
    ensures WellFormed(ps[|ps| - 1])
  {
    assert forall i :: 0 <= i < |init| ==> init[i] == ps[i];
  }

  lemma ScansAsTags(s: string, ms: seq<Span>, tags: seq<Tag>)
    requires ScansAs(s, ms, tags)
    ensures Tags(ExtractTags(s)) == tags
  {
    ScanOfTiles(s, ms);
    assert forall k :: 0 <= k < |ms| ==> Tags(ExtractTags(s))[k] == Classify(TokenOf(s, ms[k]));
  }

  /** Round trip: the nesting pass sees, in the scan of rendered markup,
      exactly the tags the markup was built from. */
  lemma RenderThenScan(ps: seq<Piece>)
    requires forall i :: 0 <= i < |ps| ==> WellFormed(ps[i])
    ensures Tags(ExtractTags(Render(ps))) == TagsOf(ps)
  {
    RenderScansAs(ps);
    ScansAsTags(Render(ps), SpansOf(ps), TagsOf(ps));
  }
}

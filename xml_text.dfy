/**
 * What text the tree-based parser keeps: the input it reads, cut into
 * pieces, is text kept in the tree and tags it consumed, and the segments
 * the flattener builds hold the kept text in input order.
 */
module XmlText {
  import opened Wrappers
  import opened DotNetText
  import opened RichTextTree
  import opened XmlFlatten
  import opened XmlParsing
  import opened XmlProperties
  import opened TextLayout

  /** The text of a node: its own text, or that of its children in order. */
  function NodeText(node: Node): string
    decreases node
  {
    match node
    case Text(t) => t
    case Element(_, _, children) => NodesText(children)
  }

  function NodesText(nodes: seq<Node>): string
    decreases nodes
  {
    if |nodes| == 0 then [] else NodeText(nodes[0]) + NodesText(nodes[1..])
  }

  /** The text of the segments in order. */
  function SegmentsText(segments: seq<TextSegment>): string {
    if |segments| == 0 then [] else segments[0].text + SegmentsText(segments[1..])
  }

  lemma {:induction false} SegmentsTextAppend(a: seq<TextSegment>, b: seq<TextSegment>)
    ensures SegmentsText(a + b) == SegmentsText(a) + SegmentsText(b)
    decreases |a|
  {
    if |a| == 0 {
      assert a + b == b;
    } else {
      assert (a + b)[1..] == a[1..] + b;
      SegmentsTextAppend(a[1..], b);
    }
  }

  // ---------------------------------------------------------------------------
  // Flattening keeps the text of the tree
  // ---------------------------------------------------------------------------

  /** When flattening succeeds, the segments hold the text of the node; empty text nodes only leave no segment. */
  lemma {:induction false} NodeSegmentsText(node: Node, f: Formatting)
    requires NodeSegments(node, f).Success?
    ensures SegmentsText(NodeSegments(node, f).value) == NodeText(node)
    decreases node, 1
  {
    match node
    case Text(t) =>
      if |t| > 0 {
        assert [SegmentOf(t, f)][1..] == [];
      }
    case Element(tag, attribute, children) =>
      NodesSegmentsText(children, ApplyTag(tag, attribute, Clone(f)).value);
  }

  lemma {:induction false} NodesSegmentsText(nodes: seq<Node>, f: Formatting)
    requires NodesSegments(nodes, f).Success?
    ensures SegmentsText(NodesSegments(nodes, f).value) == NodesText(nodes)
    decreases nodes, 2
  {
    if |nodes| > 0 {
      NodeSegmentsText(nodes[0], f);
      NodesSegmentsText(nodes[1..], f);
      SegmentsTextAppend(NodeSegments(nodes[0], f).value, NodesSegments(nodes[1..], f).value);
    }
  }

  // ---------------------------------------------------------------------------
  // The nodes read are the input with the consumed tags taken out
  // ---------------------------------------------------------------------------

  /** A tag the parser consumes: it starts with '<' and ends with '>'. */
  predicate XmlTag(t: string) {
    |t| >= 2 && t[0] == '<' && t[|t| - 1] == '>'
  }

  /** Every dropped piece is a tag. */
  predicate TagsOnly(pieces: seq<Piece>) {
    forall i | 0 <= i < |pieces| && pieces[i].Dropped? :: XmlTag(pieces[i].text)
  }

  /** Two stretches of pieces side by side cover the two stretches of input side by side. */
  lemma JoinPieces(s: string, i: nat, j: nat, k: nat, a: seq<Piece>, b: seq<Piece>)
    requires i <= j <= k <= |s|
    requires Joined(a) == s[i..j] && Joined(b) == s[j..k] && TagsOnly(a) && TagsOnly(b)
    ensures Joined(a + b) == s[i..k] && KeptText(a + b) == KeptText(a) + KeptText(b) && TagsOnly(a + b)
  {
    LayoutAppend(a, b);
    assert s[i..j] + s[j..k] == s[i..k];
    assert forall n | |a| <= n < |a + b| :: (a + b)[n] == b[n - |a|];
  }

  /** No pieces cover nothing and keep nothing. */
  lemma NoPieces(s: string, p: nat)
    requires p <= |s|
    ensures Joined([]) == s[p..p] && KeptText([]) == [] && TagsOnly([])
  {
  }

  /** A tag on its own: dropped. */
  lemma TagPiece(s: string, i: nat, j: nat)
    requires i <= j <= |s| && XmlTag(s[i..j])
    ensures Joined([Dropped(s[i..j])]) == s[i..j] && KeptText([Dropped(s[i..j])]) == [] && TagsOnly([Dropped(s[i..j])])
  {
    LayoutOne(Dropped(s[i..j]));
  }

  /** Text on its own: kept. */
  lemma TextPiece(s: string, i: nat, j: nat)
    requires i <= j <= |s|
    ensures Joined([Kept(s[i..j])]) == s[i..j] && KeptText([Kept(s[i..j])]) == s[i..j] && TagsOnly([Kept(s[i..j])])
  {
    LayoutOne(Kept(s[i..j]));
  }

  /** The nodes read from `p` on are the first node followed by the rest. */
  lemma NodesTextCons(node: Node, rest: seq<Node>)
    ensures NodesText([node] + rest) == NodeText(node) + NodesText(rest)
  {
    assert ([node] + rest)[1..] == rest;
  }

  /** An element's text is the text of its children. */
  lemma ElementText(tag: string, attribute: Option<string>, children: seq<Node>)
    ensures NodeText(Element(tag, attribute, children)) == NodesText(children)
  {
  }

  /** The opening tag of an element is a tag. */
  lemma OpeningTagIsTag(s: string, p: nat)
    requires OpeningTagAt(s, p).Some?
    ensures XmlTag(s[p..OpeningTagAt(s, p).value.body])
  {
    OpeningTagAtSpec(s, p);
    hide OpeningTagAt;
    var body := OpeningTagAt(s, p).value.body;
    assert s[p..body][0] == s[p] && s[p..body][body - p - 1] == s[body - 1];
  }

  /**
   * A closing tag tried where the input ends or a '<' starts: on failure
   * nothing is consumed; on success what is consumed is a tag.
   */
  lemma ClosingSpan(s: string, q: nat, name: string)
    requires q <= |s| && (q == |s| || s[q] == '<')
    ensures var close := ClosingTag(s, q, name);
      (!close.value ==> close.next == q)
      && (close.value ==> q < close.next && XmlTag(s[q..close.next]))
  {
    ClosingTagSpec(s, q, name);
    hide ClosingTag;
    assert RunEnd(s, q, WhiteSpace) == q by {
      if q < |s| {
        assert !InClass(s[q], WhiteSpace);
      }
    }
    var close := ClosingTag(s, q, name);
    if close.value {
      assert s[q..close.next][0] == s[q] && s[q..close.next][close.next - q - 1] == s[close.next - 1];
    }
  }

  /** A node read by ParseNodes is text the input holds from `p` on, or an element whose opening tag is at `p`. */
  lemma NodeAtShape(s: string, p: nat)
    requires p < |s| && NodeAt(s, p).value.Some?
    ensures NodeAt(s, p).value.value == Text(s[p..NodeAt(s, p).next])
      || (OpeningTagAt(s, p).Some? && NodeAt(s, p) == ElementContent(s, p, OpeningTagAt(s, p).value))
  {
    hide UnknownTagEnd, TagNameFrom, IsAllowedTag, RunEnd, ElementContent, OpeningTagAt;
  }

  /** The pieces of one node read by ParseNodes at `p`. */
  lemma {:induction false} NodeLayout(s: string, p: nat) returns (pieces: seq<Piece>)
    requires p < |s| && NodeAt(s, p).value.Some?
    ensures Joined(pieces) == s[p..NodeAt(s, p).next]
    ensures KeptText(pieces) == NodeText(NodeAt(s, p).value.value)
    ensures TagsOnly(pieces)
    decreases |s| - p, 2
  {
    NodeAtShape(s, p);
    hide NodeAt, ElementContent, OpeningTagAt, Joined, KeptText, TagsOnly, XmlTag;
    var next := NodeAt(s, p).next;
    if NodeAt(s, p).value.value == Text(s[p..next]) {
      TextPiece(s, p, next);
      pieces := [Kept(s[p..next])];
    } else {
      pieces := ElementLayout(s, p, OpeningTagAt(s, p).value);
    }
  }

  /** The pieces of an element whose opening tag `open` is at `p`: the tags dropped, the content as its nodes keep it. */
  lemma {:induction false} ElementLayout(s: string, p: nat, open: OpeningTag) returns (pieces: seq<Piece>)
    requires p <= |s| && OpeningTagAt(s, p) == Some(open) && ElementContent(s, p, open).value.Some?
    ensures Joined(pieces) == s[p..ElementContent(s, p, open).next]
    ensures KeptText(pieces) == NodeText(ElementContent(s, p, open).value.value)
    ensures TagsOnly(pieces)
    decreases |s| - p, 1
  {
    hide ElementContent, OpeningTagAt, ParseNodesSpec, ClosingTag, NoparseEnd, EqualsIgnoreCase;
    hide Joined, KeptText, TagsOnly, XmlTag;
    if open.selfClosing || EqualsIgnoreCase(open.name, "br") {
      ElementEmpty(s, p, open);
      OpeningTagIsTag(s, p);
      TagPiece(s, p, open.body);
      pieces := [Dropped(s[p..open.body])];
      assert NodesText([]) == [];
    } else if EqualsIgnoreCase(open.name, "noparse") {
      ElementNoparse(s, p, open);
      pieces := NoparseElementLayout(s, p, open);
      var content := Text(s[open.body..NoparseEnd(s, open.body)]);
      NodesTextCons(content, []);
      assert [content] + [] == [content];
    } else {
      pieces := NestedElementLayout(s, p, open);
    }
  }

  /** A noparse element: its opening tag and, if it is there, its closing tag dropped; the raw content kept. */
  lemma NoparseElementLayout(s: string, p: nat, open: OpeningTag) returns (pieces: seq<Piece>)
    requires p <= |s| && OpeningTagAt(s, p) == Some(open)
    ensures var contentEnd := NoparseEnd(s, open.body);
      Joined(pieces) == s[p..ClosingTag(s, contentEnd, open.name).next]
      && KeptText(pieces) == s[open.body..contentEnd] && TagsOnly(pieces)
  {
    OpeningTagIsTag(s, p);
    hide OpeningTagAt, ClosingTag, NoparseEnd;
    hide Joined, KeptText, TagsOnly, XmlTag;
    var body := open.body;
    TagPiece(s, p, body);
    var head := [Dropped(s[p..body])];
    var contentEnd := NoparseEnd(s, body);
    NoparseEndSpec(s, body);
    var close := ClosingTag(s, contentEnd, open.name);
    ClosingSpan(s, contentEnd, open.name);
    TextPiece(s, body, contentEnd);
    var tail: seq<Piece>;
    if close.value {
      TagPiece(s, contentEnd, close.next);
      tail := [Dropped(s[contentEnd..close.next])];
    } else {
      NoPieces(s, contentEnd);
      tail := [];
    }
    JoinPieces(s, p, body, contentEnd, head, [Kept(s[body..contentEnd])]);
    JoinPieces(s, p, contentEnd, close.next, head + [Kept(s[body..contentEnd])], tail);
    pieces := head + [Kept(s[body..contentEnd])] + tail;
  }

  /** Pieces between two tags: the tags dropped around them. */
  lemma Enclosed(s: string, p: nat, body: nat, q: nat, next: nat, middle: seq<Piece>) returns (pieces: seq<Piece>)
    requires p <= body <= q <= next <= |s| && XmlTag(s[p..body]) && XmlTag(s[q..next])
    requires Joined(middle) == s[body..q] && TagsOnly(middle)
    ensures Joined(pieces) == s[p..next] && KeptText(pieces) == KeptText(middle) && TagsOnly(pieces)
  {
    hide Joined, KeptText, TagsOnly, XmlTag;
    TagPiece(s, p, body);
    TagPiece(s, q, next);
    var head := [Dropped(s[p..body])];
    var tail := [Dropped(s[q..next])];
    JoinPieces(s, p, body, q, head, middle);
    JoinPieces(s, p, q, next, head + middle, tail);
    pieces := head + middle + tail;
  }

  /** Any other element that parses ends with its closing tag right after the nodes read from its content. */
  lemma NestedClosed(s: string, p: nat, open: OpeningTag)
    requires p <= |s| && OpeningTagAt(s, p) == Some(open) && ElementContent(s, p, open).value.Some?
    requires !open.selfClosing && !EqualsIgnoreCase(open.name, "br") && !EqualsIgnoreCase(open.name, "noparse")
    ensures var inner := ParseNodesSpec(s, open.body);
      var close := ClosingTag(s, inner.next, open.name);
      inner.next < |s| && s[inner.next] == '<' && close.value
      && ElementContent(s, p, open) == Scan(Some(Element(open.name, open.attribute, inner.value)), close.next)
  {
    hide ElementContent, OpeningTagAt, ParseNodesSpec, ClosingTag, NoparseEnd, EqualsIgnoreCase;
    var inner := ParseNodesSpec(s, open.body);
    ElementNested(s, p, open, inner.value, inner.next);
  }

  /** Any other element: its opening and closing tags dropped, its children as they keep their text. */
  lemma {:induction false} NestedElementLayout(s: string, p: nat, open: OpeningTag) returns (pieces: seq<Piece>)
    requires p <= |s| && OpeningTagAt(s, p) == Some(open) && ElementContent(s, p, open).value.Some?
    requires !open.selfClosing && !EqualsIgnoreCase(open.name, "br") && !EqualsIgnoreCase(open.name, "noparse")
    ensures Joined(pieces) == s[p..ElementContent(s, p, open).next]
    ensures KeptText(pieces) == NodeText(ElementContent(s, p, open).value.value)
    ensures TagsOnly(pieces)
    decreases |s| - p, 0
  {
    OpeningTagIsTag(s, p);
    NestedClosed(s, p, open);
    ElementText(open.name, open.attribute, ParseNodesSpec(s, open.body).value);
    hide *;
    var q := ParseNodesSpec(s, open.body).next;
    ClosingSpan(s, q, open.name);
    var middle := NodesLayout(s, open.body);
    pieces := Enclosed(s, p, open.body, q, ClosingTag(s, q, open.name).next, middle);
  }

  /**
   * The pieces of the nodes ParseNodes reads from `p`: they join up to the
   * input from `p` to where it stops, every dropped piece is a tag, and the
   * kept pieces are the text of the nodes.
   */
  lemma {:induction false} NodesLayout(s: string, p: nat) returns (pieces: seq<Piece>)
    requires p <= |s|
    ensures Joined(pieces) == s[p..ParseNodesSpec(s, p).next]
    ensures KeptText(pieces) == NodesText(ParseNodesSpec(s, p).value)
    ensures TagsOnly(pieces)
    decreases |s| - p, 3
  {
    hide NodeAt, ParseElementSpec, ElementContent, OpeningTagAt, UnknownTagEnd, TagNameFrom, IsAllowedTag;
    hide Joined, KeptText, TagsOnly, XmlTag;
    NoPieces(s, p);
    if p == |s| || NodeAt(s, p).value.None? {
      pieces := [];
    } else {
      var step := NodeAt(s, p);
      var first := NodeLayout(s, p);
      var rest := NodesLayout(s, step.next);
      JoinPieces(s, p, step.next, ParseNodesSpec(s, p).next, first, rest);
      NodesTextCons(step.value.value, ParseNodesSpec(s, step.next).value);
      pieces := first + rest;
    }
  }

  /**
   * The text of the segments XMLParser.Parse produces is the input up to
   * where the parse stops with the consumed tags taken out: that much of
   * the input splits into pieces, each kept as text or dropped as a tag,
   * and the segments hold the kept ones in order. So the text is the input
   * with some characters removed.
   */
  lemma XmlTextKept(s: string)
    requires ParseXml(s).Success?
    ensures exists pieces :: (Joined(pieces) == s[..ParseNodesSpec(s, 0).next]
      && SegmentsText(ParseXml(s).value) == KeptText(pieces) && TagsOnly(pieces))
    ensures IsSubsequence(SegmentsText(ParseXml(s).value), s)
  {
    hide ParseNodesSpec;
    var next := ParseNodesSpec(s, 0).next;
    var pieces := NodesLayout(s, 0);
    NodesSegmentsText(ParseNodesSpec(s, 0).value, InitialFormatting);
    KeptIsSubsequence(pieces);
    SubsequenceOfEmpty(s[next..]);
    SubsequenceAppend(KeptText(pieces), s[..next], [], s[next..]);
    assert KeptText(pieces) + [] == KeptText(pieces) && s[..next] + s[next..] == s;
  }

  // ---------------------------------------------------------------------------
  // Where the parse stops does not cut the input cleanly
  // ---------------------------------------------------------------------------

  /**
   * In this input the b element cannot be closed (the literal `<x>` runs
   * through `</x>` at the end), so `<b>` is re-read as literal text through
   * the first `</b>`, and the parse stops at the second `</b>`, at index 10.
   */
  const StopInput: string := "<b><x></b></b></x>"

  /** The first ten characters of it. */
  const StopPrefix: string := "<b><x></b>"

  lemma StopPrefixIsPrefix()
    ensures |StopInput| == 18 && StopInput[..10] == StopPrefix
  {
  }

  lemma StopTags()
    ensures IsAllowedTag("b") && !EqualsIgnoreCase("b", "br") && !EqualsIgnoreCase("b", "noparse") && !IsAllowedTag("x")
  {
    NestedTags();
    XIsNotAllowed();
  }

  lemma XIsNotAllowed()
    ensures !IsAllowedTag("x")
  {
    XIsNotListed();
    assert Lower("x") == "x";
    InListIsIn("x", AllowedTags);
  }

  lemma XIsNotListed()
    ensures "x" !in AllowedTags
  {
  }

  /** Membership in the list of allowed tags is plain membership. */
  lemma {:induction false} InListIsIn(x: string, list: seq<string>)
    ensures InList(x, list) <==> x in list
    decreases |list|
  {
    if |list| > 0 {
      InListIsIn(x, list[1..]);
      assert list == [list[0]] + list[1..];
    }
  }

  lemma StopInputNames()
    ensures NameAt(StopInput, 1, "b") && NameAt(StopInput, 4, "x") && NameAt(StopInput, 12, "b")
  {
    var s := StopInput;
    assert s[1..2] == "b" && s[4..5] == "x" && s[12..13] == "b";
  }

  lemma StopPrefixNames()
    ensures NameAt(StopPrefix, 1, "b") && NameAt(StopPrefix, 4, "x") && NameAt(StopPrefix, 8, "b")
  {
    var s := StopPrefix;
    assert s[1..2] == "b" && s[4..5] == "x" && s[8..9] == "b";
  }

  /** ConsumeUnknownTag on `<x>` at 3 finds `</x>` first at 14. */
  lemma StopInputCloseX()
    ensures IndexOfIgnoreCase(StopInput, "</x>", 6) == 14
  {
    var s := StopInput;
    MatchesAtExactly(s, "</x>", 14);
    hide MatchesAt;
    forall i | 6 <= i < 14
      ensures !MatchesAt(s, "</x>", i)
    {
      NoMatchAt(s, "</x>", i, if s[i] == '<' then 2 else 0);
    }
    IndexOfIgnoreCaseAt(s, "</x>", 6, 14);
  }

  /** ConsumeUnknownTag on `<b>` at 0 finds `</b>` first at 6. */
  lemma StopInputCloseB()
    ensures IndexOfIgnoreCase(StopInput, "</b>", 3) == 6
  {
    var s := StopInput;
    MatchesAtExactly(s, "</b>", 6);
    hide MatchesAt;
    forall i | 3 <= i < 6
      ensures !MatchesAt(s, "</b>", i)
    {
      NoMatchAt(s, "</b>", i, if s[i] == '<' then 2 else 0);
    }
    IndexOfIgnoreCaseAt(s, "</b>", 3, 6);
  }

  /** In the first ten characters alone there is no `</x>` after `<x>`. */
  lemma StopPrefixNoCloseX()
    ensures IndexOfIgnoreCase(StopPrefix, "</x>", 6) == -1
  {
    var s := StopPrefix;
    hide MatchesAt;
    forall i | 6 <= i <= |s|
      ensures !MatchesAt(s, "</x>", i)
    {
      NoMatchAt(s, "</x>", i, if i == 6 then 2 else 0);
    }
    IndexOfIgnoreCaseSpec(s, "</x>", 6);
  }

  /** ConsumeUnknownTag from 3 reads `<x>` and everything through the `</x>` at 14. */
  lemma StopInputLiteralEnd()
    ensures UnknownTagEnd(StopInput, 3) == 18
  {
    var s := StopInput;
    StopInputNames();
    StopInputCloseX();
    hide NameAt, IndexOfIgnoreCase;
    TagNameOf(s, 3, "x");
    RunEndAt(s, 3, 5, AnyBut('>'));
    assert TagEnd(s, 3) == 6;
    assert "</" + "x" + ">" == "</x>";
  }

  /** ConsumeUnknownTag from 0 reads `<b>` and everything through the first `</b>`. */
  lemma StopInputRollbackEnd()
    ensures UnknownTagEnd(StopInput, 0) == 10
  {
    var s := StopInput;
    StopInputNames();
    StopInputCloseB();
    hide NameAt, IndexOfIgnoreCase;
    TagNameOf(s, 0, "b");
    RunEndAt(s, 0, 2, AnyBut('>'));
    assert TagEnd(s, 0) == 3;
    assert "</" + "b" + ">" == "</b>";
  }

  /** In the first ten characters, ConsumeUnknownTag from 3 reads only `<x>`. */
  lemma StopPrefixLiteralEnd()
    ensures UnknownTagEnd(StopPrefix, 3) == 6
  {
    var s := StopPrefix;
    StopPrefixNames();
    StopPrefixNoCloseX();
    hide NameAt, IndexOfIgnoreCase;
    TagNameOf(s, 3, "x");
    RunEndAt(s, 3, 5, AnyBut('>'));
    assert TagEnd(s, 3) == 6;
    assert "</" + "x" + ">" == "</x>";
  }

  /** The opening tag `<b>` at 0 is well formed. */
  lemma StopInputOpening()
    ensures OpeningTagAt(StopInput, 0) == Some(OpeningTag("b", None, false, 3))
  {
    var s := StopInput;
    StopInputNames();
    NameRun(s, 1, "b");
    RunEndAt(s, 2, 2, WhiteSpace);
  }

  /** The literal `<x>` at 3 runs through the `</x>` at 14, to the end of the input. */
  lemma StopInputLiteral()
    ensures ParseNodesSpec(StopInput, 3) == Scan([Text(StopInput[3..])], 18)
  {
    hide ParseNodesSpec, NodeAt, IsAllowedTag, EqualsIgnoreCase, NameAt, IndexOfIgnoreCase, MatchesAt, ParseElementSpec, UnknownTagEnd, TagEnd, RunEnd, TagNameFrom, OpeningTagAt, ElementContent;
    var s := StopInput;
    StopPrefixIsPrefix();
    StopTags();
    StopInputNames();
    StopInputLiteralEnd();
    TagNameOf(s, 3, "x");
    NodeAtLiteral(s, 3);
    ParseNodesAtEnd(s);
    ParseNodesCons(s, 3);
    assert s[3..18] == s[3..];
    assert [Text(s[3..18])] + [] == [Text(s[3..])];
  }

  /** So the b element at 0 rolls back, and `<b>` is literal text through the first `</b>`; the second `</b>` stops the parse. */
  lemma StopInputNodes()
    ensures ParseNodesSpec(StopInput, 0) == Scan([Text(StopPrefix)], 10)
  {
    hide ParseNodesSpec, NodeAt, IsAllowedTag, EqualsIgnoreCase, NameAt, IndexOfIgnoreCase, MatchesAt, ParseElementSpec, UnknownTagEnd, TagEnd, RunEnd, TagNameFrom, OpeningTagAt, ElementContent;
    var s := StopInput;
    StopPrefixIsPrefix();
    StopTags();
    StopInputNames();
    StopInputLiteral();
    StopInputRollbackEnd();
    StopInputOpening();
    TagNameOf(s, 0, "b");
    TagNameOf(s, 10, "b");
    UnclosedElementRollsBack(s, 0);
    RolledBackIsLiteral(s, 0);
    ParseNodesAtClosing(s, 10);
    ParseNodesCons(s, 0);
    assert s[0..10] == StopPrefix;
    assert [Text(s[0..10])] + [] == [Text(StopPrefix)];
  }

  /** Read on its own, the first ten characters hold a closed b element around the literal `<x>`. */
  lemma StopPrefixNodes()
    ensures ParseNodesSpec(StopPrefix, 0) == Scan([Element("b", None, [Text("<x>")])], 10)
  {
    hide ParseNodesSpec, NodeAt, IsAllowedTag, EqualsIgnoreCase, NameAt, IndexOfIgnoreCase, MatchesAt, ParseElementSpec, UnknownTagEnd, TagEnd, RunEnd, TagNameFrom, OpeningTagAt, ElementContent;
    var t := StopPrefix;
    StopTags();
    StopPrefixNames();
    StopPrefixLiteralEnd();
    TagNameOf(t, 3, "x");
    TagNameOf(t, 6, "b");
    assert |t| == 10 && t[3..6] == "<x>" && t[0] == '<' && t[2] == '>';
    assert t[6] == '<' && t[7] == '/' && t[9] == '>';
    NodeAtLiteral(t, 3);
    ParseNodesAtClosing(t, 6);
    ParseNodesCons(t, 3);
    assert [Text(t[3..6])] + [] == [Text("<x>")];
    WellFormedElement(t, 0, "b", [Text("<x>")], 6);
    ParseNodesAtEnd(t);
    ParseNodesCons(t, 0);
    assert [Element("b", None, [Text("<x>")])] + [] == [Element("b", None, [Text("<x>")])];
  }

  /**
   * Where the parse stops is not a clean cut: the input above stops at 10,
   * yet its first ten characters alone parse to other segments, because a
   * literal tag that was tried and rolled back had read past 10.
   */
  lemma PrefixCanChangeParse()
    ensures ParseNodesSpec(StopInput, 0).next == 10
    ensures ParseXml(StopInput) == Success([SegmentOf(StopPrefix, InitialFormatting)])
    ensures ParseXml(StopInput[..10]) != ParseXml(StopInput)
  {
    StopPrefixIsPrefix();
    StopInputNodes();
    StopPrefixNodes();
    hide ParseNodesSpec;
    OneTextSegment(StopPrefix, InitialFormatting);
    var prefix := ParseXml(StopPrefix);
    if prefix.Success? {
      NodesSegmentsText([Element("b", None, [Text("<x>")])], InitialFormatting);
      NodesTextCons(Element("b", None, [Text("<x>")]), []);
      NodesTextCons(Text("<x>"), []);
      assert SegmentsText(prefix.value) == "<x>";
      assert [SegmentOf(StopPrefix, InitialFormatting)][1..] == [];
      assert SegmentsText([SegmentOf(StopPrefix, InitialFormatting)]) == StopPrefix;
    }
  }
}

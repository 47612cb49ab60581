/**
 * Properties of the tree-based parser and its flattener: what the scanning
 * helpers find, how a tag that cannot be parsed falls back to literal text,
 * where ParseNodes stops, and how formatting reaches the segments.
 */
module XmlProperties {
  import opened Wrappers
  import opened DotNetText
  import opened Colors
  import opened RichTextTree
  import opened XmlFlatten
  import opened XmlParsing

  // ---------------------------------------------------------------------------
  // Scanning helpers
  // ---------------------------------------------------------------------------

  /** PeekTagNameFrom finds a name exactly when a letter or digit follows `<` or `</`, and the name is the whole run of them. */
  lemma TagNameFromSpec(s: string, p: nat)
    ensures TagNameFrom(s, p).Some? <==> p < |s| && s[p] == '<' && NameStart(s, p) < |s| && IsLetterOrDigit(s[NameStart(s, p)])
    ensures TagNameFrom(s, p).Some? ==>
      var start := NameStart(s, p);
      var name := TagNameFrom(s, p).value;
      start + |name| <= |s| && name == s[start..start + |name|]
      && (forall i | 0 <= i < |name| :: IsLetterOrDigit(name[i]))
      && (start + |name| == |s| || !IsLetterOrDigit(s[start + |name|]))
  {
    if p < |s| && s[p] == '<' {
      RunEndInClass(s, NameStart(s, p), LetterOrDigit);
    }
  }

  /** The tag itself runs through the first '>' at or after `p`, or to the end of the input when there is none. */
  lemma TagEndSpec(s: string, p: nat)
    requires p < |s|
    ensures var e := TagEnd(s, p);
      (forall i | p <= i < e - 1 :: s[i] != '>')
      && (s[e - 1] == '>' || (e == |s| && forall i | p <= i < |s| :: s[i] != '>'))
  {
    RunEndInClass(s, p, AnyBut('>'));
  }

  /**
   * ConsumeUnknownTag keeps the tag verbatim. Without a name, or without a
   * later `</name>` (ignoring case), it stops after the tag itself; otherwise
   * it runs through the first such `</name>`.
   */
  lemma UnknownTagEndSpec(s: string, p: nat)
    requires p < |s|
    ensures TagNameFrom(s, p).None? ==> UnknownTagEnd(s, p) == TagEnd(s, p)
    ensures TagNameFrom(s, p).Some? ==>
      var closing := "</" + TagNameFrom(s, p).value + ">";
      var e := TagEnd(s, p);
      var q := UnknownTagEnd(s, p);
      if forall i | e <= i <= |s| :: !MatchesAt(s, closing, i) then q == e
      else
        e + |closing| <= q && MatchesAt(s, closing, q - |closing|)
        && forall i | e <= i < q - |closing| :: !MatchesAt(s, closing, i)
  {
    hide TagNameFrom, RunEnd, Lower, MatchesAt, IsLetterOrDigit;
    if TagNameFrom(s, p).Some? {
      var closing := "</" + TagNameFrom(s, p).value + ">";
      IndexOfIgnoreCaseSpec(s, closing, TagEnd(s, p));
    }
  }

  /** An opening tag starts with '<' and ends with '>'; its name is the whole run of letters and digits after the '<'. */
  lemma OpeningTagAtSpec(s: string, p: nat)
    ensures OpeningTagAt(s, p).Some? ==>
      var open := OpeningTagAt(s, p).value;
      var nameEnd := p + 1 + |open.name|;
      p < |s| && s[p] == '<' && s[open.body - 1] == '>'
      && nameEnd <= |s| && open.name == s[p + 1..nameEnd]
      && (forall i | 0 <= i < |open.name| :: IsLetterOrDigit(open.name[i]))
      && (nameEnd == |s| || !IsLetterOrDigit(s[nameEnd]))
      && (open.selfClosing ==> open.body >= 2 && s[open.body - 2] == '/')
  {
    if p < |s| && s[p] == '<' {
      RunEndInClass(s, p + 1, LetterOrDigit);
    }
  }

  /**
   * TryConsumeClosingTag: on success the cursor is past a '>' that follows
   * `</`, a name equal to `name` ignoring case, and white space; on failure
   * it stays after the white space it skipped first.
   */
  lemma ClosingTagSpec(s: string, p: nat, name: string)
    requires p <= |s|
    ensures var q := RunEnd(s, p, WhiteSpace);
      var r := ClosingTag(s, p, name);
      var nameEnd := q + 2 + |name|;
      (!r.value ==> r.next == q)
      && (r.value ==>
        nameEnd < r.next && s[q] == '<' && s[q + 1] == '/'
        && EqualsIgnoreCase(s[q + 2..nameEnd], name)
        && (forall i | nameEnd <= i < r.next - 1 :: IsWhiteSpace(s[i]))
        && s[r.next - 1] == '>')
  {
    var q := RunEnd(s, p, WhiteSpace);
    if q + 1 < |s| && s[q] == '<' && s[q + 1] == '/' {
      var e := RunEnd(s, q + 2, LetterOrDigit);
      LowerLength(s[q + 2..e], name);
      RunEndInClass(s, e, WhiteSpace);
    }
  }

  /** Strings equal ignoring case have the same length. */
  lemma LowerLength(a: string, b: string)
    ensures EqualsIgnoreCase(a, b) ==> |a| == |b|
  {
  }

  /** The raw content of a noparse element ends at the first `</noparse` (ignoring case), or at the end of the input. */
  lemma {:induction false} NoparseEndSpec(s: string, p: nat)
    requires p <= |s|
    ensures var q := NoparseEnd(s, p);
      (q == |s| || NoparseCloseAt(s, q)) && forall i | p <= i < q :: !NoparseCloseAt(s, i)
    decreases |s| - p
  {
    if p < |s| && !NoparseCloseAt(s, p) {
      NoparseEndSpec(s, p + 1);
    }
  }

  // ---------------------------------------------------------------------------
  // Rolling back: allowed tags that cannot be parsed
  // ---------------------------------------------------------------------------

  /** An opening tag with no '>' anywhere after its '<' is malformed: ParseElement rolls back. */
  lemma MissingCloseBracketRollsBack(s: string, p: nat)
    requires p < |s| && s[p] == '<'
    requires forall i | p < i < |s| :: s[i] != '>'
    ensures OpeningTagAt(s, p).None?
    ensures ParseElementSpec(s, p) == Scan(None, p)
  {
    OpeningTagAtSpec(s, p);
    ElementNotOpened(s, p);
  }

  /** An attribute whose quoted value is never closed makes the opening tag malformed: ParseElement rolls back. */
  lemma UnterminatedQuoteRollsBack(s: string, p: nat)
    requires p < |s| && s[p] == '<'
    requires var a := RunEnd(s, RunEnd(s, p + 1, LetterOrDigit), WhiteSpace);
      a < |s| && s[a] == '='
      && var v := RunEnd(s, a + 1, WhiteSpace);
      v < |s| && s[v] == '"' && forall i | v < i < |s| :: s[i] != '"'
    ensures OpeningTagAt(s, p).None?
    ensures ParseElementSpec(s, p) == Scan(None, p)
  {
    var a := RunEnd(s, RunEnd(s, p + 1, LetterOrDigit), WhiteSpace);
    var v := RunEnd(s, a + 1, WhiteSpace);
    RunEndAt(s, v + 1, |s|, AnyBut('"'));
    assert QuotedValue(s, v) == Scan(None, |s|);
    assert AttributeAt(s, a).next == |s|;
    ElementNotOpened(s, p);
  }

  /** An element whose content runs to the end of the input is never closed: ParseElement rolls back. */
  lemma UnclosedElementRollsBack(s: string, p: nat)
    requires p <= |s| && OpeningTagAt(s, p).Some?
    requires var open := OpeningTagAt(s, p).value;
      !open.selfClosing && !EqualsIgnoreCase(open.name, "br") && !EqualsIgnoreCase(open.name, "noparse")
      && ParseNodesSpec(s, open.body).next == |s|
    ensures ParseElementSpec(s, p) == Scan(None, p)
  {
    var open := OpeningTagAt(s, p).value;
    ElementOpened(s, p, open);
    ElementNested(s, p, open, ParseNodesSpec(s, open.body).value, |s|);
  }

  /** An element whose content stops at a closing tag that does not match it (another name, or no '>') rolls back too. */
  lemma MismatchedClosingRollsBack(s: string, p: nat)
    requires p <= |s| && OpeningTagAt(s, p).Some?
    requires var open := OpeningTagAt(s, p).value;
      !open.selfClosing && !EqualsIgnoreCase(open.name, "br") && !EqualsIgnoreCase(open.name, "noparse")
      && !ClosingTag(s, ParseNodesSpec(s, open.body).next, open.name).value
    ensures ParseElementSpec(s, p) == Scan(None, p)
  {
    var open := OpeningTagAt(s, p).value;
    ElementOpened(s, p, open);
    var inner := ParseNodesSpec(s, open.body);
    ElementNested(s, p, open, inner.value, inner.next);
  }

  /** Whatever ParseElement rolls back is re-read by ParseNodes as literal text, from the '<' through ConsumeUnknownTag's end. */
  lemma RolledBackIsLiteral(s: string, p: nat)
    requires p < |s| && s[p] == '<' && !(p + 1 < |s| && s[p + 1] == '/')
    requires ParseElementSpec(s, p).value.None?
    ensures NodeAt(s, p) == Scan(Some(Text(s[p..UnknownTagEnd(s, p)])), UnknownTagEnd(s, p))
    ensures p < UnknownTagEnd(s, p)
  {
    NodeAtLiteral(s, p);
  }

  // ---------------------------------------------------------------------------
  // Where ParseNodes stops
  // ---------------------------------------------------------------------------

  /** A turn of ParseNodes reads nothing exactly at an allowed closing tag; otherwise it always moves on. */
  lemma NodeAtNone(s: string, p: nat)
    requires p < |s|
    ensures NodeAt(s, p).value.None? <==> AllowedClosingAt(s, p)
    ensures NodeAt(s, p).value.Some? ==> p < NodeAt(s, p).next
  {
    hide UnknownTagEnd, ParseElementSpec, TagNameFrom, IsAllowedTag, RunEnd;
  }

  /** ParseNodes stops only at the end of the input or at an allowed closing tag. */
  lemma {:induction false} ParseNodesSpecEnd(s: string, p: nat)
    requires p <= |s|
    ensures ParseNodesSpec(s, p).next == |s| || AllowedClosingAt(s, ParseNodesSpec(s, p).next)
    decreases |s| - p
  {
    if p < |s| {
      NodeAtNone(s, p);
      if NodeAt(s, p).value.Some? {
        ParseNodesSpecEnd(s, NodeAt(s, p).next);
      }
    }
  }

  /** A run of `a`'s characters of class `k` reads the same in `a + b`, shifted by nothing. */
  lemma {:induction false} RunEndShift(a: string, b: string, i: nat, k: CharClass)
    requires i <= |b|
    ensures RunEnd(a + b, |a| + i, k) == |a| + RunEnd(b, i, k)
    decreases |b| - i
  {
    if i < |b| {
      assert (a + b)[|a| + i] == b[i];
      if InClass(b[i], k) {
        RunEndShift(a, b, i + 1, k);
      }
    }
  }

  /** A closing tag at the start of `b` is still one after `a`. */
  lemma AllowedClosingShift(a: string, b: string)
    requires AllowedClosingAt(b, 0)
    ensures AllowedClosingAt(a + b, |a|)
  {
    var s := a + b;
    assert s[|a|] == b[0] && s[|a| + 1] == b[1];
    RunEndShift(a, b, 2, LetterOrDigit);
    var e := RunEnd(b, 2, LetterOrDigit);
    assert s[|a| + 2..|a| + e] == b[2..e];
  }

  /** A turn of ParseNodes that reads a node puts it in front of the nodes read after it. */
  lemma ParseNodesCons(s: string, p: nat)
    requires p < |s| && NodeAt(s, p).value.Some?
    ensures var rest := ParseNodesSpec(s, NodeAt(s, p).next);
      ParseNodesSpec(s, p) == Scan([NodeAt(s, p).value.value] + rest.value, rest.next)
  {
    hide NodeAt;
  }

  /** ParseNodes on text without '<': one text node holding all of it, or nothing for the empty string. */
  lemma PlainTextNodes(s: string)
    requires '<' !in s
    ensures ParseNodesSpec(s, 0) == Scan(if |s| == 0 then [] else [Text(s)], |s|)
  {
    hide ParseNodesSpec, NodeAt, UnknownTagEnd, ParseElementSpec, TagNameFrom;
    ParseNodesAtEnd(s);
    if |s| > 0 {
      RunEndAt(s, 0, |s|, AnyBut('<'));
      NodeAtText(s, 0);
      assert s[0..|s|] == s;
      assert NodeAt(s, 0) == Scan(Some(Text(s)), |s|);
      ParseNodesCons(s, 0);
      assert [Text(s)] + [] == [Text(s)];
    }
  }

  /**
   * An allowed closing tag with nothing open ends the parse: the text
   * before it is kept and the rest of the input is dropped.
   */
  lemma TopLevelClosingDropsRest(a: string, b: string)
    requires '<' !in a && AllowedClosingAt(b, 0)
    ensures ParseXml(a + b) == ParseXml(a)
  {
    var s := a + b;
    AllowedClosingShift(a, b);
    PlainTextNodes(a);
    ParseNodesAtClosing(s, |a|);
    if |a| > 0 {
      RunEndShift(a, b, 0, AnyBut('<'));
      assert forall i | 0 <= i < |a| :: s[i] == a[i];
      RunEndAt(s, 0, |a|, AnyBut('<'));
      NodeAtText(s, 0);
      assert s[0..|a|] == a;
    } else {
      assert s == b;
    }
  }

  // ---------------------------------------------------------------------------
  // Well-formed elements
  // ---------------------------------------------------------------------------

  /** A tag name as the parser reads it: a nonempty run of letters and digits. */
  predicate IsName(name: string) {
    |name| > 0 && forall i | 0 <= i < |name| :: IsLetterOrDigit(name[i])
  }

  /** `name` written at `q` in `s` and followed by a character that cannot extend it. */
  predicate NameAt(s: string, q: nat, name: string) {
    IsName(name) && q + |name| < |s| && s[q..q + |name|] == name && !IsLetterOrDigit(s[q + |name|])
  }

  /** The run of letters and digits at `q` is exactly the name written there. */
  lemma NameRun(s: string, q: nat, name: string)
    requires NameAt(s, q, name)
    ensures RunEnd(s, q, LetterOrDigit) == q + |name|
  {
    forall i | q <= i < q + |name|
      ensures InClass(s[i], LetterOrDigit)
    {
      assert s[i] == name[i - q];
    }
    RunEndAt(s, q, q + |name|, LetterOrDigit);
  }

  /** PeekTagNameFrom reads the name of `<name` and of `</name`. */
  lemma TagNameOf(s: string, p: nat, name: string)
    requires p < |s| && s[p] == '<' && NameAt(s, NameStart(s, p), name)
    ensures TagNameFrom(s, p) == Some(name)
  {
    NameRun(s, NameStart(s, p), name);
  }

  /** `</name>` at `q` closes an element called `name`, ignoring case, and the cursor moves past it. */
  lemma ClosingTagMatches(s: string, q: nat, name: string)
    requires q + 1 < |s| && s[q] == '<' && s[q + 1] == '/' && NameAt(s, q + 2, name) && s[q + 2 + |name|] == '>'
    ensures ClosingTag(s, q, name) == Scan(true, q + 3 + |name|)
  {
    var e := q + 2 + |name|;
    RunEndAt(s, q, q, WhiteSpace);
    NameRun(s, q + 2, name);
    RunEndAt(s, e, e, WhiteSpace);
  }

  /**
   * An element `<name>` of an allowed tag other than `br` and `noparse`,
   * whose content is read up to `q` where `</name>` follows, is read by a
   * turn of ParseNodes as one element node holding that content.
   */
  lemma WellFormedElement(s: string, p: nat, name: string, children: seq<Node>, q: nat)
    requires p < |s| && s[p] == '<' && NameAt(s, p + 1, name) && s[p + 1 + |name|] == '>'
    requires IsAllowedTag(name) && !EqualsIgnoreCase(name, "br") && !EqualsIgnoreCase(name, "noparse")
    requires ParseNodesSpec(s, p + 2 + |name|) == Scan(children, q)
    requires q + 1 < |s| && s[q] == '<' && s[q + 1] == '/' && NameAt(s, q + 2, name) && s[q + 2 + |name|] == '>'
    ensures NodeAt(s, p) == Scan(Some(Element(name, None, children)), q + 3 + |name|)
  {
    hide ParseNodesSpec, NodeAt, ParseElementSpec, ElementContent, ClosingTag, EqualsIgnoreCase, IsAllowedTag;
    var nameEnd := p + 1 + |name|;
    NameRun(s, p + 1, name);
    RunEndAt(s, nameEnd, nameEnd, WhiteSpace);
    var open := OpeningTag(name, None, false, nameEnd + 1);
    assert OpeningTagAt(s, p) == Some(open);
    TagNameOf(s, p, name);
    ClosingTagMatches(s, q, name);
    ElementOpened(s, p, open);
    ElementNested(s, p, open, children, q);
    NodeAtElement(s, p);
  }

  /** Plain text at `p` up to a '<' at `q` is read as one text node. */
  lemma TextRun(s: string, p: nat, q: nat)
    requires p < q < |s| && s[q] == '<' && forall i | p <= i < q :: s[i] != '<'
    ensures NodeAt(s, p) == Scan(Some(Text(s[p..q])), q)
  {
    RunEndAt(s, p, q, AnyBut('<'));
    NodeAtText(s, p);
  }

  /** ParseNodes reads text up to an allowed closing tag as one text node and stops there. */
  lemma TextThenClosing(s: string, p: nat, q: nat, name: string)
    requires p < q && q + 1 < |s| && s[q] == '<' && s[q + 1] == '/' && NameAt(s, q + 2, name) && IsAllowedTag(name)
    requires forall i | p <= i < q :: s[i] != '<'
    ensures ParseNodesSpec(s, p) == Scan([Text(s[p..q])], q)
  {
    hide ParseNodesSpec, NodeAt, IsAllowedTag;
    TextRun(s, p, q);
    TagNameOf(s, q, name);
    ParseNodesAtClosing(s, q);
    ParseNodesCons(s, p);
    assert [Text(s[p..q])] + [] == [Text(s[p..q])];
  }

  const NestedInput: string := "<b>A<i>B</i>C</b>D"

  lemma NestedTags()
    ensures IsAllowedTag("b") && !EqualsIgnoreCase("b", "br") && !EqualsIgnoreCase("b", "noparse")
    ensures IsAllowedTag("i") && !EqualsIgnoreCase("i", "br") && !EqualsIgnoreCase("i", "noparse")
  {
    assert Lower("b") == "b" && Lower("i") == "i";
    assert Lower("br") == "br" && Lower("noparse") == "noparse";
  }

  lemma NestedNames()
    ensures NameAt(NestedInput, 1, "b") && NameAt(NestedInput, 5, "i")
    ensures NameAt(NestedInput, 10, "i") && NameAt(NestedInput, 15, "b")
  {
    var s := NestedInput;
    assert s[1..2] == "b" && s[5..6] == "i" && s[10..11] == "i" && s[15..16] == "b";
  }

  /** In `<b>A<i>B</i>C</b>D` the i element is read from 4 to 12. */
  lemma NestedInner()
    ensures NodeAt(NestedInput, 4) == Scan(Some(Element("i", None, [Text("B")])), 12)
  {
    var s := NestedInput;
    NestedTags();
    NestedNames();
    hide ParseNodesSpec, NodeAt, IsAllowedTag, EqualsIgnoreCase, NameAt;
    TextThenClosing(s, 7, 8, "i");
    assert s[7..8] == "B";
    WellFormedElement(s, 4, "i", [Text("B")], 8);
  }

  /** In `<b>A<i>B</i>C</b>D` the content of b is read from 3 to 13. */
  lemma NestedContent()
    ensures ParseNodesSpec(NestedInput, 3) == Scan([Text("A"), Element("i", None, [Text("B")]), Text("C")], 13)
  {
    var s := NestedInput;
    NestedTags();
    NestedNames();
    NestedInner();
    hide ParseNodesSpec, NodeAt, IsAllowedTag, EqualsIgnoreCase, NameAt;
    TextThenClosing(s, 12, 13, "b");
    assert s[12..13] == "C";
    TextRun(s, 3, 4);
    assert s[3..4] == "A";
    var i := Element("i", None, [Text("B")]);
    ParseNodesCons(s, 4);
    assert ParseNodesSpec(s, 4) == Scan([i] + [Text("C")], 13);
    ParseNodesCons(s, 3);
    assert [Text("A")] + ([i] + [Text("C")]) == [Text("A"), i, Text("C")];
  }

  /** The tree of `<b>A<i>B</i>C</b>D`: a b element holding A, an i element holding B, and C; then D. */
  lemma NestedExampleTree()
    ensures ParseNodesSpec(NestedInput, 0).value ==
      [Element("b", None, [Text("A"), Element("i", None, [Text("B")]), Text("C")]), Text("D")]
  {
    var s := NestedInput;
    NestedTags();
    NestedNames();
    NestedContent();
    hide ParseNodesSpec, NodeAt, IsAllowedTag, EqualsIgnoreCase, NameAt;
    var inner := [Text("A"), Element("i", None, [Text("B")]), Text("C")];
    WellFormedElement(s, 0, "b", inner, 13);
    NodeAtText(s, 17);
    RunEndAt(s, 17, 18, AnyBut('<'));
    assert s[17..18] == "D";
    ParseNodesAtEnd(s);
    ParseNodesCons(s, 17);
    ParseNodesCons(s, 0);
  }

  // ---------------------------------------------------------------------------
  // Flattening
  // ---------------------------------------------------------------------------

  /** Input without '<' gives one segment holding all of it with the initial formatting; empty input gives none. */
  lemma PlainTextOneSegment(s: string)
    requires '<' !in s
    ensures ParseXml(s) == Success(if |s| == 0 then [] else [SegmentOf(s, InitialFormatting)])
  {
    PlainTextNodes(s);
    if |s| > 0 {
      var segment := SegmentOf(s, InitialFormatting);
      assert [Text(s)][1..] == [];
      assert NodeSegments(Text(s), InitialFormatting) == Success([segment]);
      assert NodesSegments([], InitialFormatting) == Success([]);
      assert [segment] + [] == [segment];
      assert Prepend([segment], Success([])) == Success([segment]);
    }
  }

  /**
   * The formatting an element passes to its children: the parent's, with
   * Rotate back at 0, plus the one property its tag (ignoring case) sets:
   * a flag, the size, the parsed colour or the parsed rotation.
   */
  lemma ElementFormatting(tag: string, attribute: Option<string>, f: Formatting, g: Formatting)
    requires ApplyTag(tag, attribute, Clone(f)) == Success(g)
    ensures g.bold == (f.bold || Lower(tag) == "b")
    ensures g.italic == (f.italic || Lower(tag) == "i")
    ensures g.underline == (f.underline || Lower(tag) == "u")
    ensures g.strikethrough == (f.strikethrough || Lower(tag) == "s")
    ensures Lower(tag) != "color" ==> g.color == f.color
    ensures Lower(tag) == "color" ==> ParseColor(attribute) == Success(g.color)
    ensures g.size == if Lower(tag) == "size" then attribute else f.size
    ensures Lower(tag) != "rotate" ==> g.rotate == 0
    ensures Lower(tag) == "rotate" ==> attribute.Some? && ParseInt32(attribute.value) == Success(g.rotate)
  {
    hide ParseColor, ParseInt32, Lower;
  }

  /** An element with no children, such as a self-closing tag or `br`, emits no segment. */
  lemma EmptyElementNoSegments(tag: string, attribute: Option<string>, f: Formatting)
    ensures NodeSegments(Element(tag, attribute, []), f).Success? ==> NodeSegments(Element(tag, attribute, []), f).value == []
  {
  }

  predicate NonEmptyTexts(segments: seq<TextSegment>) {
    forall i | 0 <= i < |segments| :: |segments[i].text| > 0
  }

  /** Flattening a list of siblings flattens the first part, then the second, and stops at the first exception. */
  lemma {:induction false} NodesSegmentsAppend(a: seq<Node>, b: seq<Node>, f: Formatting)
    ensures NodesSegments(a + b, f) ==
      match NodesSegments(a, f)
      case Failure(e) => Failure(e)
      case Success(first) => Prepend(first, NodesSegments(b, f))
    decreases |a|
  {
    if |a| == 0 {
      assert a + b == b;
      PrependEmpty(NodesSegments(b, f));
    } else {
      assert (a + b)[0] == a[0] && (a + b)[1..] == a[1..] + b;
      NodesSegmentsAppend(a[1..], b, f);
      match NodeSegments(a[0], f)
      case Failure(e) =>
      case Success(head) =>
        match NodesSegments(a[1..], f)
        case Failure(e) =>
        case Success(tail) => PrependAssociative(head, tail, NodesSegments(b, f));
    }
  }

  /** A single nonempty text node flattens to one segment with the formatting in force. */
  lemma OneTextSegment(t: string, f: Formatting)
    requires |t| > 0
    ensures NodesSegments([Text(t)], f) == Success([SegmentOf(t, f)])
  {
    assert [Text(t)][1..] == [];
    assert [SegmentOf(t, f)] + [] == [SegmentOf(t, f)];
  }

  /** A single element flattens to its children under the formatting its tag gives them. */
  lemma OneElementSegments(tag: string, attribute: Option<string>, children: seq<Node>, f: Formatting, g: Formatting, x: seq<TextSegment>)
    requires ApplyTag(tag, attribute, Clone(f)) == Success(g) && NodesSegments(children, g) == Success(x)
    ensures NodesSegments([Element(tag, attribute, children)], f) == Success(x)
  {
    var node := Element(tag, attribute, children);
    assert [node][1..] == [];
    assert x + [] == x;
  }

  /** Two sibling lists that flatten without an exception flatten together to the concatenation. */
  lemma SegmentsConcat(a: seq<Node>, b: seq<Node>, f: Formatting, x: seq<TextSegment>, y: seq<TextSegment>)
    requires NodesSegments(a, f) == Success(x) && NodesSegments(b, f) == Success(y)
    ensures NodesSegments(a + b, f) == Success(x + y)
  {
    NodesSegmentsAppend(a, b, f);
  }

  lemma NestedFormatting()
    ensures ApplyTag("b", None, Clone(InitialFormatting)) == Success(InitialFormatting.(bold := true))
    ensures ApplyTag("i", None, Clone(InitialFormatting.(bold := true))) == Success(InitialFormatting.(bold := true, italic := true))
  {
    assert Lower("b") == "b" && Lower("i") == "i";
  }

  /** `<b>A<i>B</i>C</b>D` flattens to A bold, B bold and italic, C bold, and D with the initial formatting. */
  lemma NestedExample()
    ensures var bold := InitialFormatting.(bold := true);
      ParseXml(NestedInput) == Success([
        SegmentOf("A", bold), SegmentOf("B", bold.(italic := true)), SegmentOf("C", bold), SegmentOf("D", InitialFormatting)])
  {
    var bold := InitialFormatting.(bold := true);
    var boldItalic := bold.(italic := true);
    NestedExampleTree();
    NestedFormatting();
    hide ApplyTag, ParseNodesSpec, NodesSegments;
    var i := Element("i", None, [Text("B")]);
    var b := Element("b", None, [Text("A"), i, Text("C")]);
    OneTextSegment("A", bold);
    OneTextSegment("B", boldItalic);
    OneTextSegment("C", bold);
    OneTextSegment("D", InitialFormatting);
    OneElementSegments("i", None, [Text("B")], bold, boldItalic, [SegmentOf("B", boldItalic)]);
    SegmentsConcat([i], [Text("C")], bold, [SegmentOf("B", boldItalic)], [SegmentOf("C", bold)]);
    assert [i] + [Text("C")] == [i, Text("C")];
    assert [SegmentOf("B", boldItalic)] + [SegmentOf("C", bold)] == [SegmentOf("B", boldItalic), SegmentOf("C", bold)];
    SegmentsConcat([Text("A")], [i, Text("C")], bold, [SegmentOf("A", bold)], [SegmentOf("B", boldItalic), SegmentOf("C", bold)]);
    assert [Text("A")] + [i, Text("C")] == [Text("A"), i, Text("C")];
    assert [SegmentOf("A", bold)] + [SegmentOf("B", boldItalic), SegmentOf("C", bold)]
      == [SegmentOf("A", bold), SegmentOf("B", boldItalic), SegmentOf("C", bold)];
    OneElementSegments("b", None, [Text("A"), i, Text("C")], InitialFormatting, bold,
      [SegmentOf("A", bold), SegmentOf("B", boldItalic), SegmentOf("C", bold)]);
    SegmentsConcat([b], [Text("D")], InitialFormatting,
      [SegmentOf("A", bold), SegmentOf("B", boldItalic), SegmentOf("C", bold)], [SegmentOf("D", InitialFormatting)]);
    assert [b] + [Text("D")] == [b, Text("D")];
    assert [SegmentOf("A", bold), SegmentOf("B", boldItalic), SegmentOf("C", bold)] + [SegmentOf("D", InitialFormatting)]
      == [SegmentOf("A", bold), SegmentOf("B", boldItalic), SegmentOf("C", bold), SegmentOf("D", InitialFormatting)];
  }

  /** A flag that is on stays on in every segment below. */
  predicate KeepsFlags(f: Formatting, segments: seq<TextSegment>) {
    forall i | 0 <= i < |segments| ::
      (f.bold ==> segments[i].bold) && (f.italic ==> segments[i].italic)
      && (f.underline ==> segments[i].underline) && (f.strikethrough ==> segments[i].strikethrough)
  }

  /** Every segment the flattener emits has nonempty text. */
  lemma {:induction false} NodeSegmentsNonEmpty(node: Node, f: Formatting)
    ensures NodeSegments(node, f).Success? ==> NonEmptyTexts(NodeSegments(node, f).value)
    decreases node, 1
  {
    if node.Element? {
      var applied := ApplyTag(node.tag, node.attribute, Clone(f));
      if applied.Success? {
        NodesSegmentsNonEmpty(node.children, applied.value);
      }
    }
  }

  lemma {:induction false} NodesSegmentsNonEmpty(nodes: seq<Node>, f: Formatting)
    ensures NodesSegments(nodes, f).Success? ==> NonEmptyTexts(NodesSegments(nodes, f).value)
    decreases nodes, 0
  {
    if |nodes| > 0 {
      NodeSegmentsNonEmpty(nodes[0], f);
      NodesSegmentsNonEmpty(nodes[1..], f);
    }
  }

  /** Formatting is inherited: bold, italic, underline and strikethrough set above a node are set in all its segments. */
  lemma {:induction false} NodeSegmentsKeepFlags(node: Node, f: Formatting)
    ensures NodeSegments(node, f).Success? ==> KeepsFlags(f, NodeSegments(node, f).value)
    decreases node, 1
  {
    if node.Element? {
      var applied := ApplyTag(node.tag, node.attribute, Clone(f));
      if applied.Success? {
        ElementFormatting(node.tag, node.attribute, f, applied.value);
        NodesSegmentsKeepFlags(node.children, applied.value);
      }
    }
  }

  lemma {:induction false} NodesSegmentsKeepFlags(nodes: seq<Node>, f: Formatting)
    ensures NodesSegments(nodes, f).Success? ==> KeepsFlags(f, NodesSegments(nodes, f).value)
    decreases nodes, 0
  {
    if |nodes| > 0 {
      NodeSegmentsKeepFlags(nodes[0], f);
      NodesSegmentsKeepFlags(nodes[1..], f);
    }
  }

  // ---------------------------------------------------------------------------
  // Colours
  // ---------------------------------------------------------------------------

  /** The six names match exactly, with alpha 1; a name in another case is not one of them and gives the zero vector. */
  lemma NamedColors()
    ensures ParseColor(Some("black")) == Success(Color(Zero, Zero, Zero, One))
    ensures ParseColor(Some("blue")) == Success(Color(Zero, Zero, One, One))
    ensures ParseColor(Some("green")) == Success(Color(Zero, One, Zero, One))
    ensures ParseColor(Some("orange")) == Success(Color(One, Thousandths(647), Zero, One))
    ensures ParseColor(Some("purple")) == Success(Color(Thousandths(502), Zero, Thousandths(502), One))
    ensures ParseColor(Some("red")) == Success(Color(One, Zero, Zero, One))
    ensures ParseColor(Some("Red")) == Success(ZeroVector)
  {
  }

  /** `#` and the hex of three bytes or more gives the first three over 255 with alpha 1; later bytes are ignored. */
  lemma HexColor(r: byte, g: byte, b: byte, extra: seq<byte>)
    ensures ParseColor(Some("#" + ToHexString([r, g, b] + extra))) == Success(Opaque(r, g, b))
  {
    var bytes := [r, g, b] + extra;
    var hex := ToHexString(bytes);
    FromHexStringOfToHexString(bytes);
    HashColor("#" + hex, bytes);
  }

  /** A '#' string whose hex decodes to at least three bytes is the colour of the first three. */
  lemma HashColor(c: string, bytes: seq<byte>)
    requires |c| > 0 && c[0] == '#' && FromHexString(c[1..]) == Success(bytes) && |bytes| >= 3
    ensures ParseColor(Some(c)) == Success(Opaque(bytes[0], bytes[1], bytes[2]))
  {
    hide FromHexString;
    assert NamedColor(c).None?;
  }

  /** A string that is not one of the six names and does not start with '#' gives the zero vector. */
  lemma OtherColorIsZero(c: string)
    requires NamedColor(c).None? && (|c| == 0 || c[0] != '#')
    ensures ParseColor(Some(c)) == Success(ZeroVector)
  {
  }

  /**
   * A missing colour value throws NullReferenceException; "#" with a
   * malformed hex string throws FormatException, and with fewer than three
   * bytes IndexOutOfRangeException.
   */
  lemma BadColorsThrow(c: string)
    requires BadHash(c)
    ensures ParseColor(None) == Failure(NullReferenceException)
    ensures ParseColor(Some(c)) == Failure(if FromHexString(c[1..]).Failure? then FormatException else IndexOutOfRangeException)
  {
    assert NamedColor(c).None?;
  }

  /** `rotate` with no value, or with a value that is not an Int32, throws. */
  lemma BadRotateThrows(v: string, f: Formatting)
    requires ParseInt32(v).Failure?
    ensures ApplyTag("rotate", None, f) == Failure(ArgumentNullException)
    ensures ApplyTag("rotate", Some(v), f) == Failure(ParseInt32(v).error)
  {
    LowerChars("rotate");
    assert Lower("rotate") == "rotate";
  }
}

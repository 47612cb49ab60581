/**
 * XMLParser: the tree-based rich-text parser. It reads the input with a
 * cursor, builds a tree of RichTextNodes in which every disallowed or
 * malformed tag is kept as literal text, and hands the tree to the flattener.
 *
 * The functions below state what each parser method computes from the input
 * and the cursor; the class XMLParser then does the same thing step by step
 * and is proved equal to them.
 */
module XmlParsing {
  import opened Wrappers
  import opened DotNetText
  import opened RichTextTree
  import opened XmlFlatten

  /** The TextMeshPro tags the parser accepts, in lower case; membership ignores case. */
  const AllowedTags: seq<string> := [
    "b", "i", "u", "s", "color", "size", "align", "font", "material", "sprite",
    "quad", "link", "mark", "sub", "sup", "br", "noparse", "rotate", "voffset"
  ]

  predicate InList(x: string, list: seq<string>) {
    |list| > 0 && (x == list[0] || InList(x, list[1..]))
  }

  predicate IsAllowedTag(name: string) {
    InList(Lower(name), AllowedTags)
  }

  // ---------------------------------------------------------------------------
  // Specification of the scanning helpers
  // ---------------------------------------------------------------------------

  /** Where the name of a tag starting with '<' at `p` begins: after the '<' and an optional '/'. */
  function NameStart(s: string, p: nat): (q: nat)
    requires p < |s|
    ensures p + 1 <= q <= p + 2 && q <= |s|
  {
    if p + 1 < |s| && s[p + 1] == '/' then p + 2 else p + 1
  }

  /** PeekTagNameFrom: the letters and digits after `<` or `</` at `p`; None when there are none. */
  function TagNameFrom(s: string, p: nat): (r: Option<string>)
    ensures r.Some? ==> |r.value| > 0
  {
    if p >= |s| || s[p] != '<' then None
    else
      var start := NameStart(s, p);
      var e := RunEnd(s, start, LetterOrDigit);
      if start == e then None else Some(s[start..e])
  }

  /** `</` at `p` followed by a name that is an allowed tag. */
  predicate AllowedClosingAt(s: string, p: nat) {
    p + 1 < |s| && s[p] == '<' && s[p + 1] == '/'
    && TagNameFrom(s, p).Some? && IsAllowedTag(TagNameFrom(s, p).value)
  }

  /** The first loop of ConsumeUnknownTag: just past the first '>' at or after `p`, or the end of the input. */
  function TagEnd(s: string, p: nat): (e: nat)
    requires p <= |s|
    ensures p <= e <= |s|
    ensures p < |s| ==> p < e
  {
    var e0 := RunEnd(s, p, AnyBut('>'));
    if e0 < |s| then e0 + 1 else e0
  }

  /** ConsumeUnknownTag: where a literal tag starting at `p` ends, taking in a later `</name>` when there is one. */
  function UnknownTagEnd(s: string, p: nat): (q: nat)
    requires p <= |s|
    ensures p <= q <= |s|
    ensures p < |s| ==> p < q
  {
    var e := TagEnd(s, p);
    match TagNameFrom(s, p)
    case None => e
    case Some(name) =>
      var c := IndexOfIgnoreCase(s, "</" + name + ">", e);
      if c >= 0 then c + |name| + 3 else e
  }

  /** ParseQuotedValue, called on the opening quote at `p`: the text up to the closing quote, or None if there is none. */
  function QuotedValue(s: string, p: nat): (r: Scan<Option<string>>)
    requires p < |s| && s[p] == '"'
    ensures p < r.next <= |s|
    ensures r.value.Some? ==> p + 2 <= r.next && r.value.value == s[p + 1..r.next - 1]
  {
    var e := RunEnd(s, p + 1, AnyBut('"'));
    if e >= |s| then Scan(None, e) else Scan(Some(s[p + 1..e]), e + 1)
  }

  /** ParseUnquotedValue: the text up to white space or '>'. */
  function UnquotedValue(s: string, p: nat): (r: Scan<string>)
    requires p <= |s|
    ensures p <= r.next <= |s| && r.value == s[p..r.next]
  {
    var e := RunEnd(s, p, NeitherWhiteSpaceNor('>'));
    Scan(s[p..e], e)
  }

  /** The optional `= value` part of an opening tag at `p`, with the white space around the value. */
  function AttributeAt(s: string, p: nat): (r: Scan<Option<string>>)
    requires p <= |s|
    ensures p <= r.next <= |s|
    ensures (p < |s| && s[p] == '=') ==> p < r.next
    ensures !(p < |s| && s[p] == '=') ==> r == Scan(None, p)
  {
    if p < |s| && s[p] == '=' then
      var q := RunEnd(s, p + 1, WhiteSpace);
      var v := if q < |s| && s[q] == '"' then QuotedValue(s, q) else
        var u := UnquotedValue(s, q); Scan(Some(u.value), u.next);
      Scan(v.value, RunEnd(s, v.next, WhiteSpace))
    else Scan(None, p)
  }

  /** An opening tag that ended with '>': its name, attribute, whether it closed itself, and where its content starts. */
  datatype OpeningTag = OpeningTag(name: string, attribute: Option<string>, selfClosing: bool, body: nat)

  /** The first part of ParseElement: the opening tag at `p`, or None when it is not well formed. */
  function OpeningTagAt(s: string, p: nat): (r: Option<OpeningTag>)
    ensures r.Some? ==> p < r.value.body <= |s|
  {
    if p >= |s| || s[p] != '<' then None
    else
      var nameEnd := RunEnd(s, p + 1, LetterOrDigit);
      var attribute := AttributeAt(s, RunEnd(s, nameEnd, WhiteSpace));
      var q := attribute.next;
      var selfClosing := q < |s| && s[q] == '/';
      var q' := if selfClosing then q + 1 else q;
      if q' >= |s| || s[q'] != '>' then None
      else Some(OpeningTag(s[p + 1..nameEnd], attribute.value, selfClosing, q' + 1))
  }

  /**
   * TryConsumeClosingTag at `p`: after white space, `</`, a name equal to
   * `name` ignoring case, white space and '>'. On success the cursor is past
   * the '>'; on failure it stays after the leading white space.
   */
  function ClosingTag(s: string, p: nat, name: string): (r: Scan<bool>)
    requires p <= |s|
    ensures p <= r.next <= |s|
  {
    var q := RunEnd(s, p, WhiteSpace);
    if q >= |s| || s[q] != '<' then Scan(false, q)
    else if q + 1 >= |s| || s[q + 1] != '/' then Scan(false, q)
    else
      var e := RunEnd(s, q + 2, LetterOrDigit);
      if !EqualsIgnoreCase(s[q + 2..e], name) then Scan(false, q)
      else
        var f := RunEnd(s, e, WhiteSpace);
        if f >= |s| || s[f] != '>' then Scan(false, q) else Scan(true, f + 1)
  }

  /** `</` at `p` followed by the name "noparse", ignoring case. */
  predicate NoparseCloseAt(s: string, p: nat) {
    p + 1 < |s| && s[p] == '<' && s[p + 1] == '/'
    && TagNameFrom(s, p).Some? && EqualsIgnoreCase(TagNameFrom(s, p).value, "noparse")
  }

  /** The end of the raw content of a noparse element starting at `p`: the first `</noparse`, or the end of the input. */
  function NoparseEnd(s: string, p: nat): (q: nat)
    requires p <= |s|
    ensures p <= q <= |s|
    decreases |s| - p
  {
    if p == |s| || NoparseCloseAt(s, p) then p else NoparseEnd(s, p + 1)
  }

  // ---------------------------------------------------------------------------
  // Specification of ParseNodes and ParseElement
  // ---------------------------------------------------------------------------

  /**
   * ParseElement at `p`: the element and the cursor after it, or None with
   * the cursor put back at `p` when the opening tag is malformed or the
   * element is never closed.
   */
  function ParseElementSpec(s: string, p: nat): (r: Scan<Option<Node>>)
    requires p <= |s|
    ensures r.value.None? ==> r.next == p
    ensures r.value.Some? ==> p < r.next <= |s|
    decreases |s| - p, 1
  {
    match OpeningTagAt(s, p)
    case None => Scan(None, p)
    case Some(open) => ElementContent(s, p, open)
  }

  /**
   * The rest of ParseElement once the opening tag `open` at `p` has been
   * read: no children for a self-closing tag or `br`, the raw text for
   * `noparse`, and otherwise the nodes up to a matching closing tag.
   */
  function ElementContent(s: string, p: nat, open: OpeningTag): (r: Scan<Option<Node>>)
    requires p <= |s| && OpeningTagAt(s, p) == Some(open)
    ensures r.value.None? ==> r.next == p
    ensures r.value.Some? ==> p < r.next <= |s|
    decreases |s| - p, 0
  {
    if open.selfClosing || EqualsIgnoreCase(open.name, "br") then
      Scan(Some(Element(open.name, open.attribute, [])), open.body)
    else if EqualsIgnoreCase(open.name, "noparse") then
      var contentEnd := NoparseEnd(s, open.body);
      var close := ClosingTag(s, contentEnd, open.name);
      Scan(Some(Element(open.name, open.attribute, [Text(s[open.body..contentEnd])])), close.next)
    else
      var inner := ParseNodesSpec(s, open.body);
      var q := inner.next;
      if q + 1 < |s| && s[q] == '<' && s[q + 1] == '/' then
        var close := ClosingTag(s, q, open.name);
        if close.value then Scan(Some(Element(open.name, open.attribute, inner.value)), close.next)
        else Scan(None, p)
      else Scan(None, p)
  }

  /**
   * One turn of the loop of ParseNodes at `p < |s|`: the node read and the
   * cursor after it, or None (cursor unmoved) at an allowed closing tag.
   * A disallowed tag, an unknown closing tag and an element that could not
   * be parsed all become literal text.
   */
  function NodeAt(s: string, p: nat): (r: Scan<Option<Node>>)
    requires p < |s|
    ensures r.value.None? ==> r.next == p
    ensures r.value.Some? ==> p < r.next <= |s|
    decreases |s| - p, 2
  {
    var literalEnd := UnknownTagEnd(s, p);
    if s[p] != '<' then
      var e := RunEnd(s, p, AnyBut('<'));
      Scan(Some(Text(s[p..e])), e)
    else if p + 1 < |s| && s[p + 1] == '/' then
      if AllowedClosingAt(s, p) then Scan(None, p)
      else Scan(Some(Text(s[p..literalEnd])), literalEnd)
    else if TagNameFrom(s, p).Some? && IsAllowedTag(TagNameFrom(s, p).value) then
      var element := ParseElementSpec(s, p);
      if element.value.Some? then element
      else Scan(Some(Text(s[p..literalEnd])), literalEnd)
    else Scan(Some(Text(s[p..literalEnd])), literalEnd)
  }

  /**
   * ParseNodes at `p`: the nodes read until the end of the input or an
   * allowed closing tag, which is left for the caller.
   */
  function ParseNodesSpec(s: string, p: nat): (r: Scan<seq<Node>>)
    requires p <= |s|
    ensures p <= r.next <= |s|
    decreases |s| - p, 3
  {
    if p == |s| then Scan([], p)
    else
      var step := NodeAt(s, p);
      if step.value.None? then Scan([], p)
      else
        var rest := ParseNodesSpec(s, step.next);
        Scan([step.value.value] + rest.value, rest.next)
  }

  /** ParseNodes at the end of the input reads nothing. */
  lemma ParseNodesAtEnd(s: string)
    ensures ParseNodesSpec(s, |s|) == Scan([], |s|)
  {
  }

  /** ParseNodes at an allowed closing tag reads nothing and leaves the tag for its caller. */
  lemma ParseNodesAtClosing(s: string, p: nat)
    requires p + 1 < |s| && s[p] == '<' && s[p + 1] == '/'
    requires TagNameFrom(s, p).Some? && IsAllowedTag(TagNameFrom(s, p).value)
    ensures ParseNodesSpec(s, p) == Scan([], p)
  {
    hide UnknownTagEnd, ParseElementSpec, TagNameFrom, IsAllowedTag;
  }

  /** One step of the noparse scan: it stops at `</noparse` or the end, and otherwise moves on. */
  lemma NoparseEndStep(s: string, p: nat)
    requires p <= |s|
    ensures (p == |s| || NoparseCloseAt(s, p)) ==> NoparseEnd(s, p) == p
    ensures p < |s| && !NoparseCloseAt(s, p) ==> NoparseEnd(s, p + 1) == NoparseEnd(s, p)
  {
  }

  /** A malformed opening tag makes ParseElement fail with the cursor put back. */
  lemma ElementNotOpened(s: string, p: nat)
    requires p <= |s| && OpeningTagAt(s, p).None?
    ensures ParseElementSpec(s, p) == Scan(None, p)
  {
    hide OpeningTagAt, ElementContent;
  }

  /** A self-closing tag or `br` ends the element right after its opening tag, with no children. */
  lemma ElementEmpty(s: string, p: nat, open: OpeningTag)
    requires p <= |s| && OpeningTagAt(s, p) == Some(open)
    requires open.selfClosing || EqualsIgnoreCase(open.name, "br")
    ensures ElementContent(s, p, open) == Scan(Some(Element(open.name, open.attribute, [])), open.body)
  {
    hide OpeningTagAt, ParseNodesSpec, ClosingTag, EqualsIgnoreCase, NoparseEnd, RunEnd;
  }

  /** A turn of ParseNodes that starts on plain text reads up to the next '<'. */
  lemma NodeAtText(s: string, p: nat)
    requires p < |s| && s[p] != '<'
    ensures NodeAt(s, p) == Scan(Some(Text(s[p..RunEnd(s, p, AnyBut('<'))])), RunEnd(s, p, AnyBut('<')))
  {
    hide UnknownTagEnd, ParseElementSpec, TagNameFrom, IsAllowedTag;
  }

  /** A turn of ParseNodes that meets an unknown tag, an unknown closing tag or an element that failed keeps the tag as literal text. */
  lemma NodeAtLiteral(s: string, p: nat)
    requires p < |s| && s[p] == '<' && !AllowedClosingAt(s, p)
    requires (p + 1 < |s| && s[p + 1] == '/') || !(TagNameFrom(s, p).Some? && IsAllowedTag(TagNameFrom(s, p).value)) || ParseElementSpec(s, p).value.None?
    ensures NodeAt(s, p) == Scan(Some(Text(s[p..UnknownTagEnd(s, p)])), UnknownTagEnd(s, p))
  {
    hide UnknownTagEnd, ParseElementSpec, TagNameFrom, IsAllowedTag, RunEnd;
  }

  /** A turn of ParseNodes that meets an allowed tag whose element parses yields that element. */
  lemma NodeAtElement(s: string, p: nat)
    requires p < |s| && s[p] == '<' && !(p + 1 < |s| && s[p + 1] == '/')
    requires TagNameFrom(s, p).Some? && IsAllowedTag(TagNameFrom(s, p).value) && ParseElementSpec(s, p).value.Some?
    ensures NodeAt(s, p) == ParseElementSpec(s, p)
  {
    hide UnknownTagEnd, ParseElementSpec, TagNameFrom, IsAllowedTag, RunEnd;
  }

  /** Reading one more node extends the nodes read so far; the rest of ParseNodes goes on from after it. */
  lemma ParseNodesStep(s: string, start: nat, p: nat, previous: seq<Node>, node: Node, q: nat)
    requires start <= p < |s|
    requires ParseNodesSpec(s, start) == Scan(previous + ParseNodesSpec(s, p).value, ParseNodesSpec(s, p).next)
    requires NodeAt(s, p) == Scan(Some(node), q)
    ensures q <= |s|
    ensures ParseNodesSpec(s, start) == Scan((previous + [node]) + ParseNodesSpec(s, q).value, ParseNodesSpec(s, q).next)
  {
    hide NodeAt, ParseElementSpec, UnknownTagEnd, TagNameFrom, IsAllowedTag, AllowedClosingAt;
    assert previous + ([node] + ParseNodesSpec(s, q).value) == (previous + [node]) + ParseNodesSpec(s, q).value;
  }

  /** Once the opening tag is read, ParseElement continues with the content. */
  lemma ElementOpened(s: string, p: nat, open: OpeningTag)
    requires p <= |s| && OpeningTagAt(s, p) == Some(open)
    ensures ParseElementSpec(s, p) == ElementContent(s, p, open)
  {
    hide OpeningTagAt, ElementContent;
  }

  /** A noparse element holds its raw content as one text child; its closing tag is consumed if it is there. */
  lemma ElementNoparse(s: string, p: nat, open: OpeningTag)
    requires p <= |s| && OpeningTagAt(s, p) == Some(open)
    requires !open.selfClosing && !EqualsIgnoreCase(open.name, "br") && EqualsIgnoreCase(open.name, "noparse")
    ensures ElementContent(s, p, open) ==
      Scan(Some(Element(open.name, open.attribute, [Text(s[open.body..NoparseEnd(s, open.body)])])),
           ClosingTag(s, NoparseEnd(s, open.body), open.name).next)
  {
    hide OpeningTagAt, ParseNodesSpec, ClosingTag, EqualsIgnoreCase, NoparseEnd, RunEnd;
  }

  /** Any other element holds the nodes read after its opening tag, and only if a matching closing tag follows them. */
  lemma ElementNested(s: string, p: nat, open: OpeningTag, children: seq<Node>, q: nat)
    requires p <= |s| && OpeningTagAt(s, p) == Some(open)
    requires !open.selfClosing && !EqualsIgnoreCase(open.name, "br") && !EqualsIgnoreCase(open.name, "noparse")
    requires ParseNodesSpec(s, open.body) == Scan(children, q)
    ensures !(q + 1 < |s| && s[q] == '<' && s[q + 1] == '/') ==> ElementContent(s, p, open) == Scan(None, p)
    ensures q + 1 < |s| && s[q] == '<' && s[q + 1] == '/' ==>
      ElementContent(s, p, open) ==
        var close := ClosingTag(s, q, open.name);
        if close.value then Scan(Some(Element(open.name, open.attribute, children)), close.next) else Scan(None, p)
  {
    hide OpeningTagAt, ParseNodesSpec, ClosingTag, EqualsIgnoreCase, NoparseEnd, RunEnd;
  }

  /** XMLParser.Parse on a fresh parser: the flattened tree of the whole input. */
  function ParseXml(s: string): Result<seq<TextSegment>> {
    Flattened(ParseNodesSpec(s, 0).value)
  }

  // ---------------------------------------------------------------------------
  // The parser
  // ---------------------------------------------------------------------------

  class XMLParser {
    const input: string
    var pos: nat

    constructor(input: string)
      ensures this.input == input && pos == 0
    {
      this.input := input;
      pos := 0;
    }

    /** The cursor never leaves the input. */
    predicate Valid()
      reads this
    {
      pos <= |input|
    }

    /** Parse: the nodes read from the cursor on, flattened into segments. */
    method Parse() returns (r: Result<seq<TextSegment>>)
      requires Valid()
      modifies this
      ensures Valid()
      ensures r == Flattened(ParseNodesSpec(input, old(pos)).value)
    {
      var nodes := ParseNodes();
      r := Flatten(nodes);
    }

    /** ParseNodes: reads nodes until the end of the input or an allowed closing tag. */
    method ParseNodes() returns (nodes: seq<Node>)
      requires Valid()
      modifies this
      ensures Valid()
      ensures ParseNodesSpec(input, old(pos)) == Scan(nodes, pos)
      decreases |input| - pos, 1
    {
      hide NodeAt, ParseElementSpec, ElementContent, ParseNodesSpec, UnknownTagEnd, OpeningTagAt, TagNameFrom, IsAllowedTag;
      nodes := [];
      ghost var start := pos;
      assert [] + ParseNodesSpec(input, pos).value == ParseNodesSpec(input, pos).value;
      while pos < |input|
        invariant start <= pos <= |input|
        invariant ParseNodesSpec(input, start) == Scan(nodes + ParseNodesSpec(input, pos).value, ParseNodesSpec(input, pos).next)
        decreases |input| - pos
      {
        ghost var before := pos;
        ghost var previous := nodes;
        if input[pos] == '<' {
          if pos + 1 < |input| && input[pos + 1] == '/' {
            var closingName := PeekTagName();
            if closingName.Some? && IsAllowedTag(closingName.value) {
              ParseNodesAtClosing(input, pos);
              assert nodes + [] == nodes;
              break;
            } else {
              NodeAtLiteral(input, pos);
              var text := ConsumeUnknownTag();
              nodes := nodes + [Text(text)];
            }
          } else {
            var tagName := PeekTagName();
            if tagName.Some? && IsAllowedTag(tagName.value) {
              var element := ParseElement();
              if element.Some? {
                NodeAtElement(input, before);
                nodes := nodes + [element.value];
              } else {
                NodeAtLiteral(input, pos);
                var text := ConsumeUnknownTag();
                nodes := nodes + [Text(text)];
              }
            } else {
              NodeAtLiteral(input, pos);
              var text := ConsumeUnknownTag();
              nodes := nodes + [Text(text)];
            }
          }
        } else {
          NodeAtText(input, pos);
          var text := ParseText();
          nodes := nodes + [Text(text)];
        }
        ParseNodesStep(input, start, before, previous, nodes[|nodes| - 1], pos);
      }
      if pos == |input| {
        ParseNodesAtEnd(input);
      }
      assert nodes + [] == nodes;
    }

    /** PeekTagName: the tag name at the cursor, which does not move. */
    method PeekTagName() returns (r: Option<string>)
      requires Valid()
      ensures r == TagNameFrom(input, pos)
    {
      r := PeekTagNameFrom(pos);
    }

    /** PeekTagNameFrom: the letters and digits after `<` or `</` at `position`. */
    method PeekTagNameFrom(position: nat) returns (r: Option<string>)
      ensures r == TagNameFrom(input, position)
    {
      var temp := position;
      if temp >= |input| || input[temp] != '<' {
        return None;
      }
      temp := temp + 1;
      if temp < |input| && input[temp] == '/' {
        temp := temp + 1;
      }
      var start := temp;
      while temp < |input| && IsLetterOrDigit(input[temp])
        invariant start <= temp <= |input|
        invariant RunEnd(input, temp, LetterOrDigit) == RunEnd(input, start, LetterOrDigit)
        decreases |input| - temp
      {
        RunEndStep(input, temp, LetterOrDigit);
        temp := temp + 1;
      }
      if start == temp {
        return None;
      }
      return Some(input[start..temp]);
    }

    /** ConsumeUnknownTag: the literal text of a tag (and its closing pair, if any) at the cursor. */
    method ConsumeUnknownTag() returns (r: string)
      requires Valid()
      modifies this
      ensures Valid()
      ensures pos == UnknownTagEnd(input, old(pos)) && r == input[old(pos)..pos]
    {
      hide TagNameFrom, IndexOfIgnoreCase, MatchesAt, EqualsIgnoreCase, Lower, IsWhiteSpace, IsLetterOrDigit;
      var start := pos;
      while pos < |input| && input[pos] != '>'
        invariant start <= pos <= |input|
        invariant RunEnd(input, pos, AnyBut('>')) == RunEnd(input, start, AnyBut('>'))
        decreases |input| - pos
      {
        RunEndStep(input, pos, AnyBut('>'));
        pos := pos + 1;
      }
      if pos < |input| {
        pos := pos + 1;
      }
      var tagName := PeekTagNameFrom(start);
      if tagName.Some? && |tagName.value| > 0 {
        var closingTag := "</" + tagName.value + ">";
        var closingIndex := IndexOfIgnoreCase(input, closingTag, pos);
        if closingIndex != -1 {
          pos := closingIndex + |closingTag|;
        }
      }
      r := input[start..pos];
    }

    /** ParseElement: an allowed element at the cursor, or None with the cursor put back. */
    method ParseElement() returns (node: Option<Node>)
      requires Valid()
      modifies this
      ensures Valid()
      ensures ParseElementSpec(input, old(pos)) == Scan(node, pos)
      decreases |input| - pos, 0
    {
      hide ParseElementSpec, ElementContent, OpeningTagAt, ParseNodesSpec, ClosingTag, TagNameFrom, EqualsIgnoreCase, NoparseEnd, RunEnd, Lower;
      var originalPos := pos;
      var opening := ParseOpeningTag();
      if opening.None? {
        ElementNotOpened(input, originalPos);
        pos := originalPos;
        return None;
      }
      var open := opening.value;
      var tagName := open.name;
      var attributeValue := open.attribute;
      ElementOpened(input, originalPos, open);

      if open.selfClosing || EqualsIgnoreCase(tagName, "br") {
        ElementEmpty(input, originalPos, open);
        return Some(Element(tagName, attributeValue, []));
      }

      if EqualsIgnoreCase(tagName, "noparse") {
        ElementNoparse(input, originalPos, open);
        var content := ParseNoparseContent(tagName);
        return Some(Element(tagName, attributeValue, [Text(content)]));
      }

      var children := ParseNodes();
      ElementNested(input, originalPos, open, children, pos);
      if pos < |input| && input[pos] == '<' && pos + 1 < |input| && input[pos + 1] == '/' {
        var closed := TryConsumeClosingTag(tagName);
        if !closed {
          pos := originalPos;
          return None;
        }
      } else {
        pos := originalPos;
        return None;
      }
      return Some(Element(tagName, attributeValue, children));
    }

    /** The raw content of a noparse element, up to `</noparse`, then its closing tag if one is there. */
    method ParseNoparseContent(tagName: string) returns (content: string)
      requires Valid()
      modifies this
      ensures Valid()
      ensures content == input[old(pos)..NoparseEnd(input, old(pos))]
      ensures pos == ClosingTag(input, NoparseEnd(input, old(pos)), tagName).next
    {
      hide ClosingTag, TagNameFrom, EqualsIgnoreCase, NoparseEnd, RunEnd;
      var contentStart := pos;
      while pos < |input|
        invariant contentStart <= pos <= |input|
        invariant NoparseEnd(input, pos) == NoparseEnd(input, contentStart)
        decreases |input| - pos
      {
        NoparseEndStep(input, pos);
        if input[pos] == '<' && pos + 1 < |input| && input[pos + 1] == '/' {
          var closingName := PeekTagName();
          if closingName.Some? && EqualsIgnoreCase(closingName.value, "noparse") {
            break;
          }
        }
        pos := pos + 1;
      }
      NoparseEndStep(input, pos);
      content := input[contentStart..pos];
      var _ := TryConsumeClosingTag(tagName);
    }

    /** Plain text: the characters from the cursor up to the next '<'. */
    method ParseText() returns (text: string)
      requires Valid()
      modifies this
      ensures Valid()
      ensures pos == RunEnd(input, old(pos), AnyBut('<')) && text == input[old(pos)..pos]
    {
      var start := pos;
      while pos < |input| && input[pos] != '<'
        invariant start <= pos <= |input|
        invariant RunEnd(input, pos, AnyBut('<')) == RunEnd(input, start, AnyBut('<'))
        decreases |input| - pos
      {
        RunEndStep(input, pos, AnyBut('<'));
        pos := pos + 1;
      }
      text := input[start..pos];
    }

    /** The opening tag at the cursor: '<', the name, white space, an optional attribute, an optional '/', and '>'. */
    method ParseOpeningTag() returns (open: Option<OpeningTag>)
      requires Valid()
      modifies this
      ensures Valid()
      ensures open == OpeningTagAt(input, old(pos))
      ensures open.Some? ==> pos == open.value.body
    {
      hide AttributeAt, QuotedValue, UnquotedValue, IsWhiteSpace;
      if pos >= |input| || input[pos] != '<' {
        return None;
      }
      ghost var originalPos := pos;
      pos := pos + 1;
      var tagNameStart := pos;
      while pos < |input| && IsLetterOrDigit(input[pos])
        invariant tagNameStart <= pos <= |input|
        invariant RunEnd(input, pos, LetterOrDigit) == RunEnd(input, tagNameStart, LetterOrDigit)
        decreases |input| - pos
      {
        RunEndStep(input, pos, LetterOrDigit);
        pos := pos + 1;
      }
      var tagName := input[tagNameStart..pos];
      ghost var nameEnd := pos;
      assert nameEnd == RunEnd(input, originalPos + 1, LetterOrDigit);
      SkipWhitespace();
      ghost var attributeStart := pos;
      var attributeValue := ParseAttribute();
      ghost var attribute := AttributeAt(input, attributeStart);
      assert attribute == Scan(attributeValue, pos);
      var selfClosing := false;
      if pos < |input| && input[pos] == '/' {
        selfClosing := true;
        pos := pos + 1;
      }
      if pos >= |input| || input[pos] != '>' {
        return None;
      }
      pos := pos + 1;
      return Some(OpeningTag(tagName, attributeValue, selfClosing, pos));
    }

    /** The optional `= value` part of an opening tag. */
    method ParseAttribute() returns (attributeValue: Option<string>)
      requires Valid()
      modifies this
      ensures Valid()
      ensures AttributeAt(input, old(pos)) == Scan(attributeValue, pos)
    {
      attributeValue := None;
      if pos < |input| && input[pos] == '=' {
        pos := pos + 1;
        SkipWhitespace();
        if pos < |input| && input[pos] == '"' {
          attributeValue := ParseQuotedValue();
        } else {
          var value := ParseUnquotedValue();
          attributeValue := Some(value);
        }
        SkipWhitespace();
      }
    }

    /** TryConsumeClosingTag: consumes `</tagName>` (ignoring case, white space allowed) after white space. */
    method TryConsumeClosingTag(tagName: string) returns (r: bool)
      requires Valid()
      modifies this
      ensures Valid()
      ensures ClosingTag(input, old(pos), tagName) == Scan(r, pos)
    {
      hide IsWhiteSpace, EqualsIgnoreCase, Lower;
      SkipWhitespace();
      if pos >= |input| || input[pos] != '<' {
        return false;
      }
      var temp := pos;
      temp := temp + 1;
      if temp >= |input| || input[temp] != '/' {
        return false;
      }
      temp := temp + 1;
      ghost var afterSpace := pos;
      var nameStart := temp;
      while temp < |input| && IsLetterOrDigit(input[temp])
        invariant nameStart <= temp <= |input| && pos == afterSpace
        invariant RunEnd(input, temp, LetterOrDigit) == RunEnd(input, nameStart, LetterOrDigit)
        decreases |input| - temp
      {
        RunEndStep(input, temp, LetterOrDigit);
        temp := temp + 1;
      }
      var closingName := input[nameStart..temp];
      if !EqualsIgnoreCase(closingName, tagName) {
        return false;
      }
      temp := SkipWhitespaceAt(temp);
      if temp >= |input| || input[temp] != '>' {
        return false;
      }
      temp := temp + 1;
      pos := temp;
      return true;
    }

    /** ParseQuotedValue: the text between the quote at the cursor and the next quote. */
    method ParseQuotedValue() returns (r: Option<string>)
      requires Valid() && pos < |input| && input[pos] == '"'
      modifies this
      ensures Valid()
      ensures QuotedValue(input, old(pos)) == Scan(r, pos)
    {
      hide IsWhiteSpace, IsLetterOrDigit;
      pos := pos + 1;
      var start := pos;
      while pos < |input| && input[pos] != '"'
        invariant start <= pos <= |input|
        invariant RunEnd(input, pos, AnyBut('"')) == RunEnd(input, start, AnyBut('"'))
        decreases |input| - pos
      {
        RunEndStep(input, pos, AnyBut('"'));
        pos := pos + 1;
      }
      if pos >= |input| {
        return None;
      }
      r := Some(input[start..pos]);
      pos := pos + 1;
    }

    /** ParseUnquotedValue: the text from the cursor up to white space or '>'. */
    method ParseUnquotedValue() returns (r: string)
      requires Valid()
      modifies this
      ensures Valid()
      ensures UnquotedValue(input, old(pos)) == Scan(r, pos)
    {
      var start := pos;
      while pos < |input| && !IsWhiteSpace(input[pos]) && input[pos] != '>'
        invariant start <= pos <= |input|
        invariant RunEnd(input, pos, NeitherWhiteSpaceNor('>')) == RunEnd(input, start, NeitherWhiteSpaceNor('>'))
        decreases |input| - pos
      {
        RunEndStep(input, pos, NeitherWhiteSpaceNor('>'));
        pos := pos + 1;
      }
      r := input[start..pos];
    }

    /** SkipWhitespace: moves the cursor past white space. */
    method SkipWhitespace()
      requires Valid()
      modifies this
      ensures Valid()
      ensures pos == RunEnd(input, old(pos), WhiteSpace)
    {
      pos := SkipWhitespaceAt(pos);
    }

    /** SkipWhitespaceAt: the first position at or after `position` that is not white space. */
    method SkipWhitespaceAt(position: nat) returns (r: nat)
      requires position <= |input|
      ensures r == RunEnd(input, position, WhiteSpace)
    {
      r := position;
      while r < |input| && IsWhiteSpace(input[r])
        invariant position <= r <= |input|
        invariant RunEnd(input, r, WhiteSpace) == RunEnd(input, position, WhiteSpace)
        decreases |input| - r
      {
        RunEndStep(input, r, WhiteSpace);
        r := r + 1;
      }
    }
  }
}

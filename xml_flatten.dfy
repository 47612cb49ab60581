/**
 * TextSegmentFlattener: turns the RichTextNode tree into a flat list of
 * TextSegments, each carrying the Formatting in force where its text sits.
 */
module XmlFlatten {
  import opened Wrappers
  import opened DotNetText
  import opened Colors
  import opened RichTextTree

  /** The active formatting. Size is the raw attribute text, which may be null. */
  datatype Formatting = Formatting(
    bold: bool,
    italic: bool,
    underline: bool,
    strikethrough: bool,
    color: Color,
    size: Option<string>,
    rotate: int)

  /** `new Formatting()`: every flag off, the zero colour, no size, no rotation. */
  const InitialFormatting: Formatting := Formatting(false, false, false, false, ZeroVector, None, 0)

  /** Formatting.Clone copies every property except Rotate, which starts again at 0. */
  function Clone(f: Formatting): (r: Formatting)
    ensures r.rotate == 0 && r.(rotate := f.rotate) == f
  {
    f.(rotate := 0)
  }

  datatype TextSegment = TextSegment(
    text: string,
    bold: bool,
    italic: bool,
    underline: bool,
    strikethrough: bool,
    color: Color,
    size: Option<string>,
    rotate: int)

  /** A segment holding `text` with every property of `f`. */
  function SegmentOf(text: string, f: Formatting): TextSegment {
    TextSegment(text, f.bold, f.italic, f.underline, f.strikethrough, f.color, f.size, f.rotate)
  }

  // ---------------------------------------------------------------------------
  // Colours
  // ---------------------------------------------------------------------------

  /** The six colour names, matched exactly (case-sensitive), and their vectors. */
  function NamedColor(name: string): Option<Color> {
    if name == "black" then Some(Color(Zero, Zero, Zero, One))
    else if name == "blue" then Some(Color(Zero, Zero, One, One))
    else if name == "green" then Some(Color(Zero, One, Zero, One))
    else if name == "orange" then Some(Color(One, Thousandths(647), Zero, One))
    else if name == "purple" then Some(Color(Thousandths(502), Zero, Thousandths(502), One))
    else if name == "red" then Some(Color(One, Zero, Zero, One))
    else None
  }

  /** TextSegmentFlattener.ParseColor: a colour name, else the fallback. A null value falls through to the fallback. */
  function ParseColor(color: Option<string>): (r: Result<Color>)
    ensures r.Failure? <==> color.None? || BadHash(color.value)
    ensures r.Success? ==> r.value == ZeroVector || r.value.a == One
  {
    if color.Some? && NamedColor(color.value).Some? then Success(NamedColor(color.value).value)
    else ParseColorFallback(color)
  }

  /**
   * TextSegmentFlattener.ParseColorFallback: "#" followed by hex digits gives
   * the first three bytes over 255 with alpha 1; anything else is the zero
   * vector. A null value throws, and so do a malformed hex string and fewer
   * than three bytes.
   */
  function ParseColorFallback(color: Option<string>): (r: Result<Color>)
    ensures r.Failure? <==> color.None? || BadHash(color.value)
    ensures r.Success? ==> r.value == ZeroVector || r.value.a == One
  {
    match color
    case None => Failure(NullReferenceException)
    case Some(c) =>
      if |c| > 0 && c[0] == '#' then
        match FromHexString(c[1..])
        case Failure(e) => Failure(e)
        case Success(bytes) =>
          if |bytes| < 3 then Failure(IndexOutOfRangeException)
          else Success(Opaque(bytes[0], bytes[1], bytes[2]))
      else Success(ZeroVector)
  }

  // ---------------------------------------------------------------------------
  // Flattening
  // ---------------------------------------------------------------------------

  /**
   * The switch of FlattenNode: the formatting an element gives its children,
   * starting from the clone of the current formatting. Tags other than these
   * seven change nothing.
   */
  function ApplyTag(tag: string, attribute: Option<string>, f: Formatting): (r: Result<Formatting>)
    ensures r.Failure? ==> Lower(tag) == "color" || Lower(tag) == "rotate"
    ensures r.Success? ==>
      (f.bold ==> r.value.bold) && (f.italic ==> r.value.italic)
      && (f.underline ==> r.value.underline) && (f.strikethrough ==> r.value.strikethrough)
  {
    var t := Lower(tag);
    if t == "b" then Success(f.(bold := true))
    else if t == "i" then Success(f.(italic := true))
    else if t == "u" then Success(f.(underline := true))
    else if t == "s" then Success(f.(strikethrough := true))
    else if t == "color" then
      match ParseColor(attribute)
      case Success(c) => Success(f.(color := c))
      case Failure(e) => Failure(e)
    else if t == "size" then Success(f.(size := attribute))
    else if t == "rotate" then
      match attribute
      case None => Failure(ArgumentNullException)
      case Some(v) =>
        match ParseInt32(v)
        case Success(n) => Success(f.(rotate := n))
        case Failure(e) => Failure(e)
    else Success(f)
  }

  /** The segments FlattenNode appends for `node` under `current`. */
  function NodeSegments(node: Node, current: Formatting): Result<seq<TextSegment>>
    decreases node
  {
    match node
    case Text(t) => Success(if |t| > 0 then [SegmentOf(t, current)] else [])
    case Element(tag, attribute, children) =>
      match ApplyTag(tag, attribute, Clone(current))
      case Failure(e) => Failure(e)
      case Success(f) => NodesSegments(children, f)
  }

  /** The segments of a list of sibling nodes, each flattened under the same formatting. */
  function NodesSegments(nodes: seq<Node>, current: Formatting): Result<seq<TextSegment>>
    decreases nodes
  {
    if |nodes| == 0 then Success([])
    else
      match NodeSegments(nodes[0], current)
      case Failure(e) => Failure(e)
      case Success(first) => Prepend(first, NodesSegments(nodes[1..], current))
  }

  /** TextSegmentFlattener.Flatten: the root's children under the initial formatting. */
  function Flattened(roots: seq<Node>): Result<seq<TextSegment>> {
    NodesSegments(roots, InitialFormatting)
  }

  /** Flattening the sibling list `nodes[k..]` is flattening `nodes[k]` and then the rest. */
  lemma NodesSegmentsUnfold(nodes: seq<Node>, k: nat, current: Formatting)
    requires k < |nodes|
    ensures NodesSegments(nodes[k..], current) ==
      match NodeSegments(nodes[k], current)
      case Failure(e) => Failure(e)
      case Success(first) => Prepend(first, NodesSegments(nodes[k + 1..], current))
  {
    assert nodes[k..][0] == nodes[k];
    assert nodes[k..][1..] == nodes[k + 1..];
  }

  /**
   * FlattenNode: appends the node's own text (if any) under `current`, then
   * flattens its children under the formatting its tag gives them.
   * The shared list is threaded through: `segments` in, the extended list out.
   */
  method FlattenNode(node: Node, current: Formatting, segments: seq<TextSegment>) returns (r: Result<seq<TextSegment>>)
    ensures r == Prepend(segments, NodeSegments(node, current))
    decreases node
  {
    var acc := segments;
    if node.Text? && |node.text| > 0 {
      acc := acc + [SegmentOf(node.text, current)];
    }
    var newFormatting := Clone(current);
    if node.Element? && |node.tag| > 0 {
      var applied := ApplyTag(node.tag, node.attribute, newFormatting);
      if applied.Failure? {
        return Failure(applied.error);
      }
      newFormatting := applied.value;
    }
    if node.Text? {
      assert acc == segments + (if |node.text| > 0 then [SegmentOf(node.text, current)] else []);
      return Success(acc);
    }
    ghost var start := acc;
    assert ApplyTag(node.tag, node.attribute, Clone(current)) == Success(newFormatting) by {
      if |node.tag| == 0 {
        assert Lower(node.tag) == [];
      }
    }
    var children := node.children;
    assert children[0..] == children;
    for k := 0 to |children|
      invariant Prepend(acc, NodesSegments(children[k..], newFormatting)) == Prepend(start, NodesSegments(children, newFormatting))
    {
      NodesSegmentsUnfold(children, k, newFormatting);
      var next := FlattenNode(children[k], newFormatting, acc);
      if next.Failure? {
        return next;
      }
      PrependAssociative(acc, NodeSegments(children[k], newFormatting).value, NodesSegments(children[k + 1..], newFormatting));
      acc := next.value;
    }
    assert children[|children|..] == [];
    assert acc + [] == acc;
    return Success(acc);
  }

  /** TextSegmentFlattener.Flatten over the root's children. */
  method Flatten(roots: seq<Node>) returns (r: Result<seq<TextSegment>>)
    ensures r == Flattened(roots)
  {
    var segments: seq<TextSegment> := [];
    var initialFormatting := InitialFormatting;
    assert roots[0..] == roots;
    PrependEmpty(Flattened(roots));
    for k := 0 to |roots|
      invariant Prepend(segments, NodesSegments(roots[k..], initialFormatting)) == Flattened(roots)
    {
      NodesSegmentsUnfold(roots, k, initialFormatting);
      var next := FlattenNode(roots[k], initialFormatting, segments);
      if next.Failure? {
        return next;
      }
      PrependAssociative(segments, NodeSegments(roots[k], initialFormatting).value, NodesSegments(roots[k + 1..], initialFormatting));
      segments := next.value;
    }
    assert roots[|roots|..] == [];
    assert segments + [] == segments;
    return Success(segments);
  }
}

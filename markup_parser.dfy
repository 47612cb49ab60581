/**
 * MarkupParser: the recursive-descent rich-text parser the player list uses.
 * It reads the input with a cursor and appends segments to a shared list;
 * every opening tag starts a nested level with its own copy of the style,
 * and any closing tag ends the current level, whatever its name.
 *
 * The functions below state what a level produces from the input, the
 * cursor and the style; the class MarkupParser then does the same thing
 * step by step and is proved equal to them.
 */
module MarkupParsing {
  import opened Wrappers
  import opened DotNetText
  import opened Colors

  // ---------------------------------------------------------------------------
  // Styles and segments
  // ---------------------------------------------------------------------------

  /** The style in force; Size, Mark and Align are the raw tag text and may be null. */
  datatype TextStyle = TextStyle(
    bold: bool,
    italic: bool,
    underline: bool,
    strikethrough: bool,
    color: Color,
    size: Option<string>,
    mark: Option<string>,
    align: Option<string>,
    rotate: int,
    cspace: int)

  /** `new TextStyle()`: every flag off, the zero colour, no size, mark or align, no rotation or spacing. */
  const DefaultStyle: TextStyle := TextStyle(false, false, false, false, ZeroVector, None, None, None, 0, 0)

  /** TextStyle.Clone: a copy of every property, Rotate and CSpace included. */
  function CloneStyle(style: TextStyle): (r: TextStyle)
    ensures r == style
  {
    TextStyle(style.bold, style.italic, style.underline, style.strikethrough, style.color,
      style.size, style.mark, style.align, style.rotate, style.cspace)
  }

  /**
   * An emitted segment. The source declares its colour as nullable, but
   * every segment gets the style's colour, so it is never null here.
   */
  datatype TextSegment = TextSegment(
    content: string,
    bold: bool,
    italic: bool,
    underline: bool,
    strikethrough: bool,
    color: Color,
    size: Option<string>,
    mark: Option<string>,
    align: Option<string>,
    rotate: int,
    cspace: int,
    isSprite: bool,
    spriteIndex: int)

  /** The segment has every property of `style`. */
  predicate HasStyle(segment: TextSegment, style: TextStyle) {
    segment.bold == style.bold && segment.italic == style.italic
    && segment.underline == style.underline && segment.strikethrough == style.strikethrough
    && segment.color == style.color && segment.size == style.size && segment.mark == style.mark
    && segment.align == style.align && segment.rotate == style.rotate && segment.cspace == style.cspace
  }

  /** CreateTextSegment: a text segment carrying `text` and the whole style. */
  function CreateTextSegment(text: string, style: TextStyle): (r: TextSegment)
    ensures r.content == text && !r.isSprite && r.spriteIndex == 0 && HasStyle(r, style)
  {
    TextSegment(text, style.bold, style.italic, style.underline, style.strikethrough, style.color,
      style.size, style.mark, style.align, style.rotate, style.cspace, false, 0)
  }

  /** The segment a `sprite` tag adds: no text, the sprite index, and the whole style. */
  function SpriteSegment(index: int, style: TextStyle): (r: TextSegment)
    ensures r.content == [] && r.isSprite && r.spriteIndex == index && HasStyle(r, style)
  {
    TextSegment([], style.bold, style.italic, style.underline, style.strikethrough, style.color,
      style.size, style.mark, style.align, style.rotate, style.cspace, true, index)
  }

  // ---------------------------------------------------------------------------
  // Colours
  // ---------------------------------------------------------------------------

  /** The name table of MarkupParser.ParseColor, exact names only; anything else is white. */
  function TableColor(name: string): Color {
    if name == "black" then Color(Zero, Zero, Zero, One)
    else if name == "blue" then Color(Zero, Zero, One, One)
    else if name == "green" then Color(Zero, One, Zero, One)
    else if name == "orange" then Color(One, Thousandths(647), One, One)
    else if name == "purple" then Color(Thousandths(502), Zero, Thousandths(502), One)
    else if name == "red" then Color(One, Zero, One, One)
    else Color(One, One, One, One)
  }

  /**
   * MarkupParser.ParseColor: "#" and hex digits give the first three bytes
   * over 255 with alpha 1; a string of another length than 6 goes to the
   * name table; a string of length 6 is read as three hex pairs.
   * A malformed hex string throws, and so does "#" with fewer than three bytes.
   */
  function ParseColor(color: string): (r: Result<Color>)
    ensures r.Success? ==> r.value.a == One
    ensures BadHash(color) ==> r.Failure?
    ensures r.Failure? ==> (|color| > 0 && color[0] == '#') || |color| == 6
  {
    if |color| > 0 && color[0] == '#' then
      match FromHexString(color[1..])
      case Failure(e) => Failure(e)
      case Success(bytes) =>
        if |bytes| < 3 then Failure(IndexOutOfRangeException)
        else Success(Opaque(bytes[0], bytes[1], bytes[2]))
    else if |color| != 6 then Success(TableColor(color))
    else
      match HexPairToInt32(color[..2])
      case Failure(e) => Failure(e)
      case Success(r) =>
        match HexPairToInt32(color[2..4])
        case Failure(e) => Failure(e)
        case Success(g) =>
          match HexPairToInt32(color[4..6])
          case Failure(e) => Failure(e)
          case Success(b) => Success(Opaque(r, g, b))
  }

  // ---------------------------------------------------------------------------
  // Tags
  // ---------------------------------------------------------------------------

  /**
   * The style an opening tag gives its level, starting from the clone of
   * the current one. `tag` is the trimmed text between '<' and '>'; names
   * and prefixes are compared ignoring case. Any other tag changes nothing.
   */
  function TagEffect(tag: string, style: TextStyle): (r: Result<TextStyle>)
    ensures r.Failure? ==> StartsWithIgnoreCase(tag, "color=") || StartsWithIgnoreCase(tag, "rotate=")
    ensures r.Success? ==>
      (style.bold ==> r.value.bold) && (style.italic ==> r.value.italic)
      && (style.underline ==> r.value.underline) && (style.strikethrough ==> r.value.strikethrough)
    ensures r.Success? ==> r.value.cspace == style.cspace
  {
    if EqualsIgnoreCase(tag, "b") then Success(style.(bold := true))
    else if EqualsIgnoreCase(tag, "i") then Success(style.(italic := true))
    else if EqualsIgnoreCase(tag, "u") then Success(style.(underline := true))
    else if EqualsIgnoreCase(tag, "s") then Success(style.(strikethrough := true))
    else if StartsWithIgnoreCase(tag, "color=") then
      match ParseColor(tag[6..])
      case Failure(e) => Failure(e)
      case Success(c) => Success(style.(color := c))
    else if StartsWithIgnoreCase(tag, "size=") then Success(style.(size := Some(tag[5..])))
    else if StartsWithIgnoreCase(tag, "mark=") then Success(style.(mark := Some(tag[5..])))
    else if StartsWithIgnoreCase(tag, "align=") then Success(style.(align := Some(tag[6..])))
    else if StartsWithIgnoreCase(tag, "rotate=") then
      match ParseInt32(RemoveChar(tag[7..], '"'))
      case Failure(e) => Failure(e)
      case Success(n) => Success(style.(rotate := n))
    else Success(style)
  }

  /** A space-separated part of a sprite tag that sets the index. */
  predicate IsIndexPart(part: string) {
    StartsWithIgnoreCase(part, "index=")
  }

  /** The index the parts set: the last `index=` part read with int.TryParse (0 when it does not parse), or 0 without one. */
  function IndexSetting(parts: seq<string>): int {
    if |parts| == 0 then 0
    else
      var last := parts[|parts| - 1];
      if IsIndexPart(last) then TryParseInt32(last[6..]) else IndexSetting(parts[..|parts| - 1])
  }

  /** The sprite index of a sprite tag's text. */
  function SpriteIndex(tag: string): int {
    IndexSetting(SplitOnSpace(tag))
  }

  const NoparseClose: string := "</noparse>"

  // ---------------------------------------------------------------------------
  // Specification of ParseInternal
  // ---------------------------------------------------------------------------

  /** The segments of a level followed by the cursor where it stopped, or the exception it threw. */
  type Outcome = Result<Scan<seq<TextSegment>>>

  /** `prefix` emitted before what `r` emits. */
  function Emitted(prefix: seq<TextSegment>, r: Outcome): (out: Outcome)
    ensures out.Success? <==> r.Success?
    ensures out.Success? ==> out.value == Scan(prefix + r.value.value, r.value.next)
    ensures out.Failure? ==> out == r
  {
    match r
    case Success(sc) => Success(Scan(prefix + sc.value, sc.next))
    case Failure(e) => Failure(e)
  }

  /** What flushing the pending text adds: one text segment, or nothing when the text is empty. */
  function Flush(pending: string, style: TextStyle): seq<TextSegment> {
    if |pending| > 0 then [CreateTextSegment(pending, style)] else []
  }

  /**
   * The loop of ParseInternal at `p` with the text gathered so far in
   * `pending`: plain characters are gathered; a '<' flushes them and is
   * handled by TagStep; the end of the input flushes them.
   */
  function Level(s: string, p: nat, style: TextStyle, pending: string): (r: Outcome)
    requires p <= |s|
    ensures r.Success? ==> p <= r.value.next <= |s|
    decreases |s| - p, 1
  {
    if p == |s| then Success(Scan(Flush(pending, style), p))
    else if s[p] != '<' then Level(s, p + 1, style, pending + [s[p]])
    else Emitted(Flush(pending, style), TagStep(s, p, style))
  }

  /**
   * A '<' at `p`, with the pending text already flushed. A closing tag ends
   * the level after its '>' (or at the end of the input); an opening tag
   * without a '>' ends it where it is. A sprite adds its segment, noparse
   * gathers raw text, and any other tag parses a nested level with the
   * style it gives; the level then goes on after it.
   */
  function TagStep(s: string, p: nat, style: TextStyle): (r: Outcome)
    requires p < |s| && s[p] == '<'
    ensures r.Success? ==> p <= r.value.next <= |s|
    decreases |s| - p, 0
  {
    var gt := IndexOfChar(s, '>', p);
    if p + 1 < |s| && s[p + 1] == '/' then Success(Scan([], if gt == -1 then |s| else gt + 1))
    else if gt == -1 then Success(Scan([], p))
    else
      var tag := Trim(s[p + 1..gt]);
      if StartsWithIgnoreCase(tag, "sprite") then
        Emitted([SpriteSegment(SpriteIndex(tag), style)], Level(s, gt + 1, style, []))
      else if EqualsIgnoreCase(tag, "noparse") then
        var endTag := IndexOfIgnoreCase(s, NoparseClose, gt + 1);
        if endTag == -1 then Level(s, |s|, style, s[gt + 1..])
        else Level(s, endTag + |NoparseClose|, style, s[gt + 1..endTag])
      else
        match TagEffect(tag, CloneStyle(style))
        case Failure(e) => Failure(e)
        case Success(inner) =>
          match Level(s, gt + 1, inner, [])
          case Failure(e) => Failure(e)
          case Success(nested) => Emitted(nested.value, Level(s, nested.next, style, []))
  }

  /** MarkupParser.Parse on a fresh parser: the segments of the whole input under the default style, or the exception. */
  function MarkupParse(s: string): Result<seq<TextSegment>> {
    match Level(s, 0, DefaultStyle, [])
    case Success(sc) => Success(sc.value)
    case Failure(e) => Failure(e)
  }

  // ---------------------------------------------------------------------------
  // One step of the specification at a time
  // ---------------------------------------------------------------------------

  lemma EmittedNothing(r: Outcome)
    ensures Emitted([], r) == r
  {
    if r.Success? {
      assert [] + r.value.value == r.value.value;
    }
  }

  lemma EmittedTwice(a: seq<TextSegment>, b: seq<TextSegment>, r: Outcome)
    ensures Emitted(a, Emitted(b, r)) == Emitted(a + b, r)
  {
    if r.Success? {
      assert a + (b + r.value.value) == (a + b) + r.value.value;
    }
  }

  /** At the end of the input a level flushes what it gathered and stops. */
  lemma LevelAtEnd(s: string, style: TextStyle, pending: string)
    ensures Level(s, |s|, style, pending) == Success(Scan(Flush(pending, style), |s|))
  {
    hide TagStep;
  }

  /** A plain character is gathered into the pending text. */
  lemma LevelChar(s: string, p: nat, style: TextStyle, pending: string)
    requires p < |s| && s[p] != '<'
    ensures Level(s, p, style, pending) == Level(s, p + 1, style, pending + [s[p]])
  {
    hide TagStep;
  }

  /** A '<' flushes the pending text, and the tag is handled with nothing pending. */
  lemma LevelTag(s: string, p: nat, style: TextStyle, pending: string)
    requires p < |s| && s[p] == '<'
    ensures Level(s, p, style, pending) == Emitted(Flush(pending, style), TagStep(s, p, style))
    ensures Level(s, p, style, []) == TagStep(s, p, style)
  {
    hide TagStep;
    EmittedNothing(TagStep(s, p, style));
  }

  /** A closing tag ends the level just after its '>', or at the end of the input without one. */
  lemma TagClosing(s: string, p: nat, style: TextStyle)
    requires p + 1 < |s| && s[p] == '<' && s[p + 1] == '/'
    ensures var gt := IndexOfChar(s, '>', p);
      TagStep(s, p, style) == Success(Scan([], if gt == -1 then |s| else gt + 1))
  {
    hide Level, TagEffect, Trim, SpriteIndex, StartsWithIgnoreCase, EqualsIgnoreCase, IndexOfIgnoreCase;
  }

  /** An opening tag with no '>' after it ends the level at its '<'. */
  lemma TagUnterminated(s: string, p: nat, style: TextStyle)
    requires p < |s| && s[p] == '<' && !(p + 1 < |s| && s[p + 1] == '/')
    requires IndexOfChar(s, '>', p) == -1
    ensures TagStep(s, p, style) == Success(Scan([], p))
  {
    hide Level, TagEffect, Trim, SpriteIndex, StartsWithIgnoreCase, EqualsIgnoreCase, IndexOfIgnoreCase;
  }

  /** The trimmed text of the opening tag at `p` that ends at `gt`. */
  function TagText(s: string, p: nat, gt: nat): string
    requires p < gt <= |s|
  {
    Trim(s[p + 1..gt])
  }

  /** The '<' at `p` starts an opening tag whose '>' is at `gt`. */
  predicate OpeningAt(s: string, p: nat, gt: nat) {
    p < gt < |s| && s[p] == '<' && !(p + 1 < |s| && s[p + 1] == '/') && IndexOfChar(s, '>', p) == gt
  }

  /** A sprite tag adds its segment and the level goes on after the tag. */
  lemma TagSprite(s: string, p: nat, gt: nat, style: TextStyle)
    requires OpeningAt(s, p, gt) && StartsWithIgnoreCase(TagText(s, p, gt), "sprite")
    ensures TagStep(s, p, style) == Emitted([SpriteSegment(SpriteIndex(TagText(s, p, gt)), style)], Level(s, gt + 1, style, []))
  {
    hide Level, TagEffect, Trim, SpriteIndex, StartsWithIgnoreCase, EqualsIgnoreCase, IndexOfIgnoreCase;
  }

  /** A noparse tag gathers the raw text up to `</noparse>` (or the end of the input), and the level goes on after it. */
  lemma TagNoparse(s: string, p: nat, gt: nat, style: TextStyle)
    requires OpeningAt(s, p, gt) && !StartsWithIgnoreCase(TagText(s, p, gt), "sprite")
    requires EqualsIgnoreCase(TagText(s, p, gt), "noparse")
    ensures var endTag := IndexOfIgnoreCase(s, NoparseClose, gt + 1);
      TagStep(s, p, style) ==
        if endTag == -1 then Level(s, |s|, style, s[gt + 1..])
        else Level(s, endTag + |NoparseClose|, style, s[gt + 1..endTag])
  {
    hide Level, TagEffect, Trim, SpriteIndex, StartsWithIgnoreCase, EqualsIgnoreCase, IndexOfIgnoreCase;
  }

  /** Any other opening tag: the exception its style throws, or a nested level and then the rest of this one. */
  lemma TagNested(s: string, p: nat, gt: nat, style: TextStyle)
    requires OpeningAt(s, p, gt) && !StartsWithIgnoreCase(TagText(s, p, gt), "sprite")
    requires !EqualsIgnoreCase(TagText(s, p, gt), "noparse")
    ensures var effect := TagEffect(TagText(s, p, gt), CloneStyle(style));
      TagStep(s, p, style) ==
        if effect.Failure? then Failure(effect.error)
        else
          var nested := Level(s, gt + 1, effect.value, []);
          if nested.Failure? then Failure(nested.error)
          else Emitted(nested.value.value, Level(s, nested.value.next, style, []))
  {
    hide Level, TagEffect, Trim, SpriteIndex, StartsWithIgnoreCase, EqualsIgnoreCase, IndexOfIgnoreCase;
  }

  // ---------------------------------------------------------------------------
  // The parser
  // ---------------------------------------------------------------------------

  class MarkupParser {
    const input: string
    var pos: nat
    var segments: seq<TextSegment>

    predicate Valid()
      reads this
    {
      pos <= |input|
    }

    constructor (input: string)
      ensures this.input == input && pos == 0 && segments == []
      ensures Valid()
    {
      this.input := input;
      pos := 0;
      segments := [];
    }

    /** Parse: the segments of the input from the cursor under the default style, after those already gathered; or the exception. */
    method Parse() returns (r: Result<seq<TextSegment>>)
      requires Valid()
      modifies this
      ensures Valid()
      ensures r == match Level(input, old(pos), DefaultStyle, [])
        case Success(sc) => Success(old(segments) + sc.value)
        case Failure(e) => Failure(e)
    {
      var defaultStyle := TextStyle(false, false, false, false, ZeroVector, None, None, None, 0, 0);
      var error := ParseInternal(defaultStyle);
      if error.Some? {
        return Failure(error.value);
      }
      return Success(segments);
    }

    /**
     * ParseInternal: one level. It appends the level's segments to
     * `segments` and leaves the cursor where the level stopped, or reports
     * the exception the level throws.
     */
    method ParseInternal(style: TextStyle) returns (error: Option<Exception>)
      requires Valid()
      modifies this
      ensures Valid()
      ensures Level(input, old(pos), style, []).Failure? ==> error == Some(Level(input, old(pos), style, []).error)
      ensures Level(input, old(pos), style, []).Success? ==>
        error.None?
        && segments == old(segments) + Level(input, old(pos), style, []).value.value
        && pos == Level(input, old(pos), style, []).value.next
      decreases |input| - pos, 1
    {
      hide Level, TagStep, Emitted, Flush;
      ghost var start := pos;
      ghost var before := segments;
      ghost var emitted: seq<TextSegment> := [];
      var currentText: string := [];
      EmittedNothing(Level(input, pos, style, []));
      while pos < |input|
        invariant start <= pos <= |input|
        invariant segments == before + emitted
        invariant Level(input, start, style, []) == Emitted(emitted, Level(input, pos, style, currentText))
        decreases |input| - pos
      {
        if input[pos] == '<' {
          LevelTag(input, pos, style, currentText);
          EmittedTwice(emitted, Flush(currentText, style), TagStep(input, pos, style));
          FlushText(currentText, style);
          emitted := emitted + Flush(currentText, style);
          currentText := [];
          var stop, tagError, raw, added := ParseTag(style);
          if tagError.Some? {
            return tagError;
          }
          EmittedTwice(emitted, added, if stop then Success(Scan([], pos)) else Level(input, pos, style, raw));
          emitted := emitted + added;
          if stop {
            assert emitted + [] == emitted;
            return None;
          }
          currentText := raw;
        } else {
          LevelChar(input, pos, style, currentText);
          currentText := currentText + [input[pos]];
          pos := pos + 1;
        }
      }
      LevelAtEnd(input, style, currentText);
      FlushText(currentText, style);
      emitted := emitted + Flush(currentText, style);
      return None;
    }

    /** Adds the gathered text as a segment, unless it is empty. */
    method FlushText(currentText: string, style: TextStyle)
      modifies this
      ensures segments == old(segments) + Flush(currentText, style)
      ensures pos == old(pos)
    {
      if |currentText| > 0 {
        segments := segments + [CreateTextSegment(currentText, style)];
      } else {
        assert segments + [] == segments;
      }
    }

    /**
     * The '<' branch of ParseInternal, after the flush. It either stops the
     * level (a closing tag, or an opening tag without '>'), or reports the
     * exception a tag throws, or lets the level go on with `raw` as the
     * gathered text (the noparse content, otherwise nothing). `added` is
     * what it appended.
     */
    method ParseTag(style: TextStyle) returns (stop: bool, error: Option<Exception>, raw: string, ghost added: seq<TextSegment>)
      requires Valid() && pos < |input| && input[pos] == '<'
      modifies this
      ensures Valid()
      ensures error.Some? ==> TagStep(input, old(pos), style) == Failure(error.value)
      ensures error.None? ==>
        segments == old(segments) + added
        && TagStep(input, old(pos), style) ==
          Emitted(added, if stop then Success(Scan([], pos)) else Level(input, pos, style, raw))
      ensures error.None? && !stop ==> old(pos) < pos
      decreases |input| - pos, 0
    {
      hide Level, TagStep, TagEffect, Trim, StartsWithIgnoreCase, EqualsIgnoreCase, IndexOfIgnoreCase, IndexOfChar;
      hide CloneStyle, SpriteSegment, Emitted, SpriteIndex;
      ghost var tagStart := pos;
      stop, error, raw, added := false, None, [], [];
      assert segments == old(segments) + [];
      if pos + 1 < |input| && input[pos + 1] == '/' {
        TagClosing(input, pos, style);
        var gt := IndexOfChar(input, '>', pos);
        if gt == -1 {
          pos := |input|;
        } else {
          pos := gt + 1;
        }
        EmittedNothing(Success(Scan([], pos)));
        return true, None, [], [];
      }
      var tagEnd := IndexOfChar(input, '>', pos);
      IndexOfCharSpec(input, '>', pos);
      if tagEnd == -1 {
        TagUnterminated(input, pos, style);
        EmittedNothing(Success(Scan([], pos)));
        return true, None, [], [];
      }
      var tagContent := Trim(input[pos + 1..tagEnd]);
      assert OpeningAt(input, tagStart, tagEnd);
      pos := tagEnd + 1;

      if StartsWithIgnoreCase(tagContent, "sprite") {
        var spriteIndex := SpriteIndexOf(tagContent);
        TagSprite(input, tagStart, tagEnd, style);
        var sprite := SpriteSegment(spriteIndex, style);
        segments := segments + [sprite];
        return false, None, [], [sprite];
      }

      if EqualsIgnoreCase(tagContent, "noparse") {
        TagNoparse(input, tagStart, tagEnd, style);
        var endTag := IndexOfIgnoreCase(input, NoparseClose, pos);
        if endTag == -1 {
          raw := input[pos..];
          pos := |input|;
        } else {
          raw := input[pos..endTag];
          pos := endTag + |NoparseClose|;
        }
        EmittedNothing(Level(input, pos, style, raw));
        return false, None, raw, [];
      }

      TagNested(input, tagStart, tagEnd, style);
      var newStyle := TagEffect(tagContent, CloneStyle(style));
      if newStyle.Failure? {
        return false, Some(newStyle.error), [], [];
      }
      ghost var nested := Level(input, pos, newStyle.value, []);
      var nestedError := ParseInternal(newStyle.value);
      if nestedError.Some? {
        return false, nestedError, [], [];
      }
      added := nested.value.value;
    }

    /** The loop over the parts of a sprite tag: the index the last `index=` part sets, or 0. */
    method SpriteIndexOf(tagContent: string) returns (spriteIndex: int)
      ensures spriteIndex == SpriteIndex(tagContent)
    {
      hide TryParseInt32, SplitOnSpace;
      spriteIndex := 0;
      var parts := SplitOnSpace(tagContent);
      for i := 0 to |parts|
        invariant spriteIndex == IndexSetting(parts[..i])
      {
        assert parts[..i + 1][..i] == parts[..i];
        if StartsWithIgnoreCase(parts[i], "index=") {
          spriteIndex := TryParseInt32(parts[i][6..]);
        }
      }
      assert parts[..|parts|] == parts;
    }
  }
}

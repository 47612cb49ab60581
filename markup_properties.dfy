/**
 * Properties of MarkupParser: plain text, where a level ends, what a tag
 * does to the style, sprites, noparse, inheritance of the flags, and the
 * colour strings.
 */
module MarkupProperties {
  import opened Wrappers
  import opened DotNetText
  import opened Colors
  import opened MarkupParsing

  // ---------------------------------------------------------------------------
  // Text runs
  // ---------------------------------------------------------------------------

  /** A run of characters other than '<' is gathered into the pending text as it stands. */
  lemma {:induction false} LevelTextRun(s: string, p: nat, q: nat, style: TextStyle, pending: string)
    requires p <= q <= |s| && forall i | p <= i < q :: s[i] != '<'
    ensures Level(s, p, style, pending) == Level(s, q, style, pending + s[p..q])
    decreases q - p
  {
    if p < q {
      LevelChar(s, p, style, pending);
      LevelTextRun(s, p + 1, q, style, pending + [s[p]]);
      assert (pending + [s[p]]) + s[p + 1..q] == pending + s[p..q];
    } else {
      assert pending + s[p..q] == pending;
    }
  }

  /** Text up to a '<' at `q` is flushed as one segment (if any) before the tag is handled. */
  lemma TextThenTag(s: string, p: nat, q: nat, style: TextStyle)
    requires p <= q < |s| && s[q] == '<' && forall i | p <= i < q :: s[i] != '<'
    ensures Level(s, p, style, []) == Emitted(Flush(s[p..q], style), TagStep(s, q, style))
  {
    hide Level, TagStep;
    LevelTextRun(s, p, q, style, []);
    assert [] + s[p..q] == s[p..q];
    LevelTag(s, q, style, s[p..q]);
  }

  /** Text running to the end of the input is flushed as one segment (if any), and the level ends there. */
  lemma TextToEnd(s: string, p: nat, style: TextStyle)
    requires p <= |s| && forall i | p <= i < |s| :: s[i] != '<'
    ensures Level(s, p, style, []) == Success(Scan(Flush(s[p..], style), |s|))
  {
    hide Level, TagStep;
    LevelTextRun(s, p, |s|, style, []);
    assert [] + s[p..|s|] == s[p..];
    LevelAtEnd(s, style, s[p..]);
  }

  /** Input with no '<' is one text segment with the default style; empty input gives no segment. */
  lemma MarkupPlainText(s: string)
    requires '<' !in s
    ensures MarkupParse(s) == Success(if |s| == 0 then [] else [CreateTextSegment(s, DefaultStyle)])
  {
    TextToEnd(s, 0, DefaultStyle);
    assert s[0..] == s;
  }

  // ---------------------------------------------------------------------------
  // Where a level ends
  // ---------------------------------------------------------------------------

  /**
   * Any closing tag ends the current level, whatever its name: the pending
   * text is flushed and the cursor moves past the '>' (or to the end).
   */
  lemma AnyClosingEndsLevel(s: string, p: nat, style: TextStyle, pending: string)
    requires p + 1 < |s| && s[p] == '<' && s[p + 1] == '/'
    ensures var gt := IndexOfChar(s, '>', p);
      Level(s, p, style, pending) == Success(Scan(Flush(pending, style), if gt == -1 then |s| else gt + 1))
  {
    hide Level, TagStep;
    LevelTag(s, p, style, pending);
    TagClosing(s, p, style);
    assert Flush(pending, style) + [] == Flush(pending, style);
  }

  /** An opening tag with no '>' after it ends the level at its '<' with the pending text flushed. */
  lemma UnterminatedEndsLevel(s: string, p: nat, style: TextStyle, pending: string)
    requires p < |s| && s[p] == '<' && !(p + 1 < |s| && s[p + 1] == '/')
    requires forall i | p <= i < |s| :: s[i] != '>'
    ensures Level(s, p, style, pending) == Success(Scan(Flush(pending, style), p))
  {
    hide Level, TagStep;
    IndexOfCharSpec(s, '>', p);
    LevelTag(s, p, style, pending);
    TagUnterminated(s, p, style);
    assert Flush(pending, style) + [] == Flush(pending, style);
  }

  /** At top level, a closing tag ends the parse: the text before it is kept and the rest of the input is dropped. */
  lemma TopLevelClosingDropsRest(a: string, b: string)
    requires '<' !in a && |b| >= 2 && b[0] == '<' && b[1] == '/'
    ensures MarkupParse(a + b) == MarkupParse(a)
  {
    var s := a + b;
    hide Level, TagStep;
    assert s[|a|] == '<' && s[|a| + 1] == '/';
    TextThenTag(s, 0, |a|, DefaultStyle);
    TagClosing(s, |a|, DefaultStyle);
    assert s[0..|a|] == a;
    assert Flush(a, DefaultStyle) + [] == Flush(a, DefaultStyle);
    MarkupPlainText(a);
  }

  // ---------------------------------------------------------------------------
  // Tags
  // ---------------------------------------------------------------------------

  /** A tag is at most one of b, i, u and s, and then it starts with none of the parameter tags. */
  lemma TagKindsExclusive(tag: string)
    ensures EqualsIgnoreCase(tag, "b") ==> !EqualsIgnoreCase(tag, "i") && !EqualsIgnoreCase(tag, "u") && !EqualsIgnoreCase(tag, "s")
    ensures EqualsIgnoreCase(tag, "i") ==> !EqualsIgnoreCase(tag, "u") && !EqualsIgnoreCase(tag, "s")
    ensures EqualsIgnoreCase(tag, "u") ==> !EqualsIgnoreCase(tag, "s")
    ensures (EqualsIgnoreCase(tag, "b") || EqualsIgnoreCase(tag, "i") || EqualsIgnoreCase(tag, "u") || EqualsIgnoreCase(tag, "s")) ==>
      |tag| == 1 && !StartsWithIgnoreCase(tag, "color=") && !StartsWithIgnoreCase(tag, "size=")
      && !StartsWithIgnoreCase(tag, "mark=") && !StartsWithIgnoreCase(tag, "align=") && !StartsWithIgnoreCase(tag, "rotate=")
  {
    assert Lower("b") == "b" && Lower("i") == "i" && Lower("u") == "u" && Lower("s") == "s";
  }

  /** The parameter tags start with different letters, so a tag starts with at most one of them. */
  lemma ParameterTagsExclusive(tag: string)
    ensures StartsWithIgnoreCase(tag, "color=") ==>
      (!StartsWithIgnoreCase(tag, "size=") && !StartsWithIgnoreCase(tag, "mark=")
       && !StartsWithIgnoreCase(tag, "align=") && !StartsWithIgnoreCase(tag, "rotate="))
    ensures StartsWithIgnoreCase(tag, "size=") ==>
      (!StartsWithIgnoreCase(tag, "mark=") && !StartsWithIgnoreCase(tag, "align=") && !StartsWithIgnoreCase(tag, "rotate="))
    ensures StartsWithIgnoreCase(tag, "mark=") ==> !StartsWithIgnoreCase(tag, "align=") && !StartsWithIgnoreCase(tag, "rotate=")
    ensures StartsWithIgnoreCase(tag, "align=") ==> !StartsWithIgnoreCase(tag, "rotate=")
  {
    hide StartsWithIgnoreCase;
    if StartsWithIgnoreCase(tag, "color=") { StartsWithFirstChar(tag, "color="); }
    if StartsWithIgnoreCase(tag, "size=") { StartsWithFirstChar(tag, "size="); }
    if StartsWithIgnoreCase(tag, "mark=") { StartsWithFirstChar(tag, "mark="); }
    if StartsWithIgnoreCase(tag, "align=") { StartsWithFirstChar(tag, "align="); }
    if StartsWithIgnoreCase(tag, "rotate=") { StartsWithFirstChar(tag, "rotate="); }
  }

  /**
   * b, i, u and s (the whole tag, ignoring case) set their flag and nothing
   * else; every other tag leaves the four flags as they were.
   */
  lemma TagEffectFlags(tag: string, style: TextStyle)
    ensures var r := TagEffect(tag, style);
      r.Success? ==>
        r.value.bold == (style.bold || EqualsIgnoreCase(tag, "b"))
        && r.value.italic == (style.italic || EqualsIgnoreCase(tag, "i"))
        && r.value.underline == (style.underline || EqualsIgnoreCase(tag, "u"))
        && r.value.strikethrough == (style.strikethrough || EqualsIgnoreCase(tag, "s"))
    ensures EqualsIgnoreCase(tag, "b") ==> TagEffect(tag, style) == Success(style.(bold := true))
    ensures EqualsIgnoreCase(tag, "i") ==> TagEffect(tag, style) == Success(style.(italic := true))
    ensures EqualsIgnoreCase(tag, "u") ==> TagEffect(tag, style) == Success(style.(underline := true))
    ensures EqualsIgnoreCase(tag, "s") ==> TagEffect(tag, style) == Success(style.(strikethrough := true))
  {
    hide ParseColor, ParseInt32, RemoveChar, EqualsIgnoreCase, StartsWithIgnoreCase;
    TagKindsExclusive(tag);
  }

  /**
   * The parameter tags set their own field from the text after the '='
   * (`color=` through ParseColor, `rotate=` through int.Parse with the
   * quotes removed, throwing what those throw); a tag that is none of the
   * known ones leaves the style as it is.
   */
  lemma TagEffectParameters(tag: string, style: TextStyle)
    ensures StartsWithIgnoreCase(tag, "color=") ==>
      var c := ParseColor(tag[6..]);
      TagEffect(tag, style) == if c.Success? then Success(style.(color := c.value)) else Failure(c.error)
    ensures StartsWithIgnoreCase(tag, "size=") ==> TagEffect(tag, style) == Success(style.(size := Some(tag[5..])))
    ensures StartsWithIgnoreCase(tag, "mark=") ==> TagEffect(tag, style) == Success(style.(mark := Some(tag[5..])))
    ensures StartsWithIgnoreCase(tag, "align=") ==> TagEffect(tag, style) == Success(style.(align := Some(tag[6..])))
    ensures StartsWithIgnoreCase(tag, "rotate=") ==>
      var n := ParseInt32(RemoveChar(tag[7..], '"'));
      TagEffect(tag, style) == if n.Success? then Success(style.(rotate := n.value)) else Failure(n.error)
    ensures (!EqualsIgnoreCase(tag, "b") && !EqualsIgnoreCase(tag, "i") && !EqualsIgnoreCase(tag, "u") && !EqualsIgnoreCase(tag, "s")
       && !StartsWithIgnoreCase(tag, "color=") && !StartsWithIgnoreCase(tag, "size=") && !StartsWithIgnoreCase(tag, "mark=")
       && !StartsWithIgnoreCase(tag, "align=") && !StartsWithIgnoreCase(tag, "rotate=")) ==> TagEffect(tag, style) == Success(style)
  {
    hide ParseColor, ParseInt32, RemoveChar, EqualsIgnoreCase, StartsWithIgnoreCase;
    TagKindsExclusive(tag);
    ParameterTagsExclusive(tag);
  }

  /** `rotate=` reads an Int32 after removing the quotes. */
  lemma RotateQuoted(style: TextStyle)
    ensures TagEffect("rotate=\"45\"", style) == Success(style.(rotate := 45))
  {
    hide TagEffect, ParseInt32, StartsWithIgnoreCase, EqualsIgnoreCase;
    var tag := "rotate=\"45\"";
    StartsWithRotate(tag);
    assert tag[7..] == "\"45\"";
    TagEffectParameters(tag, style);
    RemoveQuotes();
    ParseFortyFive();
  }

  /** `rotate=` throws FormatException when the rest is not an integer. */
  lemma RotateInvalid(style: TextStyle)
    ensures TagEffect("rotate=abc", style) == Failure(FormatException)
  {
    hide TagEffect, ParseInt32, StartsWithIgnoreCase, EqualsIgnoreCase;
    var tag := "rotate=abc";
    StartsWithRotate(tag);
    assert tag[7..] == "abc";
    TagEffectParameters(tag, style);
    RemoveCharAbsent("abc", '"');
    ParseAbc();
  }

  lemma RemoveQuotes()
    ensures RemoveChar("\"45\"", '"') == "45"
  {
    assert "\"45\""[1..] == "45\"" && "45\""[1..] == "5\"" && "5\""[1..] == "\"";
  }

  lemma StartsWithRotate(tag: string)
    requires |tag| >= 7 && tag[..7] == "rotate="
    ensures StartsWithIgnoreCase(tag, "rotate=")
  {
  }

  lemma ParseFortyFive()
    ensures ParseInt32("45") == Success(45)
  {
    TrimClassUnchanged("45", NumberWhite);
    assert "45"[..1] == "4" && "4"[..0] == [];
    assert AllDigits("45");
    assert DigitsValue("45") == 45;
  }

  lemma ParseAbc()
    ensures ParseInt32("abc") == Failure(FormatException)
  {
    TrimClassUnchanged("abc", NumberWhite);
    assert !IsAsciiDigit("abc"[0]);
  }

  /** The sprite index is the one the last `index=` part sets, and 0 when no part sets one. */
  lemma {:induction false} IndexSettingLast(parts: seq<string>, k: nat)
    requires k < |parts| && IsIndexPart(parts[k])
    requires forall j | k < j < |parts| :: !IsIndexPart(parts[j])
    ensures IndexSetting(parts) == TryParseInt32(parts[k][6..])
    decreases |parts|
  {
    if k < |parts| - 1 {
      var init := parts[..|parts| - 1];
      assert forall j | k < j < |init| :: init[j] == parts[j];
      IndexSettingLast(init, k);
    }
  }

  lemma {:induction false} IndexSettingNone(parts: seq<string>)
    requires forall j | 0 <= j < |parts| :: !IsIndexPart(parts[j])
    ensures IndexSetting(parts) == 0
    decreases |parts|
  {
    if |parts| > 0 {
      var init := parts[..|parts| - 1];
      assert forall j | 0 <= j < |init| :: init[j] == parts[j];
      IndexSettingNone(init);
    }
  }

  // ---------------------------------------------------------------------------
  // Invariants of every level
  // ---------------------------------------------------------------------------

  /** Only sprites have empty content: text is flushed only when there is some. */
  predicate TextsNonEmpty(segments: seq<TextSegment>) {
    forall i | 0 <= i < |segments| :: segments[i].isSprite || |segments[i].content| > 0
  }

  /** Every flag of `style` is set in every segment. */
  predicate KeepsFlags(style: TextStyle, segments: seq<TextSegment>) {
    forall i | 0 <= i < |segments| ::
      (style.bold ==> segments[i].bold) && (style.italic ==> segments[i].italic)
      && (style.underline ==> segments[i].underline) && (style.strikethrough ==> segments[i].strikethrough)
  }

  /** Both invariants of a level's segments. */
  predicate LevelInvariant(style: TextStyle, segments: seq<TextSegment>) {
    TextsNonEmpty(segments) && KeepsFlags(style, segments)
  }

  lemma InvariantAppend(style: TextStyle, a: seq<TextSegment>, b: seq<TextSegment>)
    requires LevelInvariant(style, a) && LevelInvariant(style, b)
    ensures LevelInvariant(style, a + b)
  {
  }

  lemma InvariantFlush(style: TextStyle, pending: string)
    ensures LevelInvariant(style, Flush(pending, style))
  {
  }

  /** A nested level's style keeps every flag of the outer one, so its segments do too. */
  lemma InvariantNested(style: TextStyle, inner: TextStyle, segments: seq<TextSegment>)
    requires (style.bold ==> inner.bold) && (style.italic ==> inner.italic)
    requires (style.underline ==> inner.underline) && (style.strikethrough ==> inner.strikethrough)
    requires LevelInvariant(inner, segments)
    ensures LevelInvariant(style, segments)
  {
  }

  /**
   * Every level emits only nonempty texts (besides sprites), and every
   * segment it emits, its nested levels' included, has the flags of its style.
   */
  lemma {:induction false} LevelKeepsInvariant(s: string, p: nat, style: TextStyle, pending: string)
    requires p <= |s|
    ensures Level(s, p, style, pending).Success? ==> LevelInvariant(style, Level(s, p, style, pending).value.value)
    decreases |s| - p, 1
  {
    hide Level, TagStep;
    if p == |s| {
      LevelAtEnd(s, style, pending);
      InvariantFlush(style, pending);
    } else if s[p] != '<' {
      LevelChar(s, p, style, pending);
      LevelKeepsInvariant(s, p + 1, style, pending + [s[p]]);
    } else {
      LevelTag(s, p, style, pending);
      TagStepKeepsInvariant(s, p, style);
      InvariantFlush(style, pending);
      if TagStep(s, p, style).Success? {
        InvariantAppend(style, Flush(pending, style), TagStep(s, p, style).value.value);
      }
    }
  }

  lemma {:induction false} TagStepKeepsInvariant(s: string, p: nat, style: TextStyle)
    requires p < |s| && s[p] == '<'
    ensures TagStep(s, p, style).Success? ==> LevelInvariant(style, TagStep(s, p, style).value.value)
    decreases |s| - p, 0
  {
    hide Level, TagStep, TagEffect, Trim, StartsWithIgnoreCase, EqualsIgnoreCase, IndexOfIgnoreCase, IndexOfChar;
    var gt := IndexOfChar(s, '>', p);
    IndexOfCharSpec(s, '>', p);
    if p + 1 < |s| && s[p + 1] == '/' {
      TagClosing(s, p, style);
    } else if gt == -1 {
      TagUnterminated(s, p, style);
    } else {
      assert OpeningAt(s, p, gt);
      var tag := TagText(s, p, gt);
      if StartsWithIgnoreCase(tag, "sprite") {
        TagSprite(s, p, gt, style);
        LevelKeepsInvariant(s, gt + 1, style, []);
        var rest := Level(s, gt + 1, style, []);
        if rest.Success? {
          InvariantAppend(style, [SpriteSegment(SpriteIndex(tag), style)], rest.value.value);
        }
      } else if EqualsIgnoreCase(tag, "noparse") {
        TagNoparse(s, p, gt, style);
        var endTag := IndexOfIgnoreCase(s, NoparseClose, gt + 1);
        if endTag == -1 {
          LevelKeepsInvariant(s, |s|, style, s[gt + 1..]);
        } else {
          LevelKeepsInvariant(s, endTag + |NoparseClose|, style, s[gt + 1..endTag]);
        }
      } else {
        TagNested(s, p, gt, style);
        var effect := TagEffect(tag, CloneStyle(style));
        if effect.Success? {
          TagEffectFlags(tag, CloneStyle(style));
          LevelKeepsInvariant(s, gt + 1, effect.value, []);
          var nested := Level(s, gt + 1, effect.value, []);
          if nested.Success? {
            InvariantNested(style, effect.value, nested.value.value);
            LevelKeepsInvariant(s, nested.value.next, style, []);
            var rest := Level(s, nested.value.next, style, []);
            if rest.Success? {
              InvariantAppend(style, nested.value.value, rest.value.value);
            }
          }
        }
      }
    }
  }

  // ---------------------------------------------------------------------------
  // Colours
  // ---------------------------------------------------------------------------

  /** "#" and the hex of three bytes or more gives the first three over 255 with alpha 1; later bytes are ignored. */
  lemma HashColor(r: byte, g: byte, b: byte, extra: seq<byte>)
    ensures ParseColor("#" + ToHexString([r, g, b] + extra)) == Success(Opaque(r, g, b))
  {
    var bytes := [r, g, b] + extra;
    var c := "#" + ToHexString(bytes);
    hide ToHexString, FromHexString;
    FromHexStringOfToHexString(bytes);
    assert c[1..] == ToHexString(bytes);
    HashColorBytes(c, bytes);
  }

  /** A '#' string whose hex decodes to at least three bytes is the colour of the first three. */
  lemma HashColorBytes(c: string, bytes: seq<byte>)
    requires |c| > 0 && c[0] == '#' && FromHexString(c[1..]) == Success(bytes) && |bytes| >= 3
    ensures ParseColor(c) == Success(Opaque(bytes[0], bytes[1], bytes[2]))
  {
    hide FromHexString;
  }

  /**
   * A string of length 6 without '#' is read as three pairs, each two hex
   * digits (either case) or '+' and one hex digit; it is a colour exactly
   * when all three pairs are, and then the pairs are its channels.
   */
  lemma SixHexDigits(c: string)
    requires |c| == 6 && c[0] != '#'
    ensures ParseColor(c).Success? <==> HexPair(c[0], c[1]) && HexPair(c[2], c[3]) && HexPair(c[4], c[5])
    ensures ParseColor(c).Success? ==>
      ParseColor(c) == Success(Opaque(PairValue(c[0], c[1]), PairValue(c[2], c[3]), PairValue(c[4], c[5])))
  {
    assert c[..2] == [c[0], c[1]] && c[2..4] == [c[2], c[3]] && c[4..6] == [c[4], c[5]];
  }

  /** A six-character string with a character that is neither a hex digit nor a '+' opening a pair throws. */
  lemma SixCharsNotHexThrow(c: string, i: nat)
    requires |c| == 6 && c[0] != '#' && i < 6
    requires !IsHexDigit(c[i]) && !(i % 2 == 0 && c[i] == '+')
    ensures ParseColor(c).Failure?
  {
    SixHexDigits(c);
    assert !HexPair(c[i - i % 2], c[i - i % 2 + 1]);
  }

  /** Lower-case hex digits read like upper-case ones. */
  lemma LowerCaseHex()
    ensures ParseColor("ff8000") == Success(Opaque(255, 128, 0))
    ensures ParseColor("ff8000") == ParseColor("FF8000")
  {
    SixHexDigits("ff8000");
    SixHexDigits("FF8000");
  }

  /** The six hex digits of three bytes, as Convert.ToHexString writes them, give those bytes back. */
  lemma HexPairsOfBytes(r: byte, g: byte, b: byte)
    ensures ParseColor(ToHexString([r, g, b])) == Success(Opaque(r, g, b))
  {
    var c := ToHexString([r, g, b]);
    assert ToHexString([g, b]) == c[2..];
    assert ToHexString([b]) == c[4..];
    assert ToHexString([]) == [];
    HexPairOfByte(r);
    HexPairOfByte(g);
    HexPairOfByte(b);
    assert c[..2] == [HexDigitChar(r / 16), HexDigitChar(r % 16)];
    assert c[2..4] == [HexDigitChar(g / 16), HexDigitChar(g % 16)];
    assert c[4..6] == [HexDigitChar(b / 16), HexDigitChar(b % 16)];
  }

  /** The names of the table that are not six characters long; red is (1, 0, 1, 1) as the table has it. */
  lemma TableNames()
    ensures ParseColor("black") == Success(Color(Zero, Zero, Zero, One))
    ensures ParseColor("blue") == Success(Color(Zero, Zero, One, One))
    ensures ParseColor("green") == Success(Color(Zero, One, Zero, One))
    ensures ParseColor("red") == Success(Color(One, Zero, One, One))
  {
  }

  /** "orange" and "purple" are six characters long, so they are read as hex pairs and throw: their table entries are never reached. */
  lemma SixLetterNamesThrow()
    ensures ParseColor("orange") == Failure(FormatException)
    ensures ParseColor("purple") == Failure(FormatException)
  {
    assert "orange"[..2] == "or";
    assert "purple"[..2] == "pu";
  }

  /** Any other string without '#' and of another length than 6 is white. */
  lemma UnknownColorIsWhite(c: string)
    requires (|c| == 0 || c[0] != '#') && |c| != 6
    requires c != "black" && c != "blue" && c != "green" && c != "red"
    ensures ParseColor(c) == Success(Color(One, One, One, One))
  {
  }

  /** "#" with a malformed hex string throws FormatException, and "#" with fewer than three bytes IndexOutOfRangeException. */
  lemma BadHashColorThrows(c: string)
    requires BadHash(c)
    ensures ParseColor(c) == Failure(if FromHexString(c[1..]).Failure? then FormatException else IndexOutOfRangeException)
  {
  }

  // ---------------------------------------------------------------------------
  // Examples
  // ---------------------------------------------------------------------------

  /** What an opening tag does once its style is known: the nested level, then the rest of this one. */
  function NestedThen(s: string, q: nat, inner: TextStyle, style: TextStyle): Outcome
    requires q <= |s|
  {
    var nested := Level(s, q, inner, []);
    if nested.Failure? then Failure(nested.error)
    else Emitted(nested.value.value, Level(s, nested.value.next, style, []))
  }

  lemma NestedThenSuccess(s: string, q: nat, inner: TextStyle, style: TextStyle,
                          a: seq<TextSegment>, n: nat, b: seq<TextSegment>, m: nat)
    requires q <= |s|
    requires Level(s, q, inner, []) == Success(Scan(a, n)) && Level(s, n, style, []) == Success(Scan(b, m))
    ensures NestedThen(s, q, inner, style) == Success(Scan(a + b, m))
  {
    hide Level;
  }

  /** A one-letter flag tag `<b>`, `<i>`, `<u>` or `<s>` at `p` opens a nested level with that flag set. */
  lemma FlagTagStep(s: string, p: nat, style: TextStyle)
    requires p + 2 < |s| && s[p] == '<' && s[p + 2] == '>' && s[p + 1] in {'b', 'i', 'u', 's'}
    ensures TagEffect([s[p + 1]], style).Success?
    ensures TagStep(s, p, style) == NestedThen(s, p + 3, TagEffect([s[p + 1]], style).value, style)
  {
    hide Level, TagStep, TagEffect;
    var c := s[p + 1];
    assert IndexOfChar(s, '>', p) == p + 2 by {
      assert IndexOfChar(s, '>', p + 2) == p + 2;
    }
    assert s[p + 1..p + 2] == [c];
    TrimClassUnchanged([c], WhiteSpace);
    assert TagText(s, p, p + 2) == [c];
    assert !StartsWithIgnoreCase([c], "sprite");
    assert !EqualsIgnoreCase([c], "noparse");
    TagNested(s, p, p + 2, style);
    TagEffectFlags([c], style);
  }
  /** Text up to a closing tag at `q`: one segment (if any), and the level ends after the tag's '>'. */
  lemma TextThenClosing(s: string, p: nat, q: nat, gt: nat, style: TextStyle)
    requires p <= q && q + 1 < |s| && s[q] == '<' && s[q + 1] == '/' && forall i | p <= i < q :: s[i] != '<'
    requires IndexOfChar(s, '>', q) == gt && gt != -1
    ensures Level(s, p, style, []) == Success(Scan(Flush(s[p..q], style), gt + 1))
  {
    hide Level, TagStep;
    TextThenTag(s, p, q, style);
    TagClosing(s, q, style);
    assert Flush(s[p..q], style) + [] == Flush(s[p..q], style);
  }

  const Bold: TextStyle := DefaultStyle.(bold := true)
  const BoldItalic: TextStyle := Bold.(italic := true)

  const NestedMarkup: string := "<b>A<i>B</i>C</b>D"

  lemma NestedMarkupItalic()
    ensures Level(NestedMarkup, 7, BoldItalic, []) == Success(Scan([CreateTextSegment("B", BoldItalic)], 12))
  {
    var s := NestedMarkup;
    assert IndexOfChar(s, '>', 8) == 11;
    TextThenClosing(s, 7, 8, 11, BoldItalic);
    assert s[7..8] == "B";
  }

  lemma NestedMarkupAfterItalic()
    ensures Level(NestedMarkup, 12, Bold, []) == Success(Scan([CreateTextSegment("C", Bold)], 17))
  {
    var s := NestedMarkup;
    assert IndexOfChar(s, '>', 13) == 16;
    TextThenClosing(s, 12, 13, 16, Bold);
    assert s[12..13] == "C";
  }

  lemma NestedMarkupBold()
    ensures Level(NestedMarkup, 3, Bold, []) ==
      Success(Scan([CreateTextSegment("A", Bold), CreateTextSegment("B", BoldItalic), CreateTextSegment("C", Bold)], 17))
  {
    var s := NestedMarkup;
    hide Level, TagStep, TagEffect;
    TextThenTag(s, 3, 4, Bold);
    assert s[3..4] == "A";
    FlagTagStep(s, 4, Bold);
    TagEffectFlags("i", Bold);
    NestedMarkupItalic();
    NestedMarkupAfterItalic();
    assert [CreateTextSegment("A", Bold)] + ([CreateTextSegment("B", BoldItalic)] + [CreateTextSegment("C", Bold)])
      == [CreateTextSegment("A", Bold), CreateTextSegment("B", BoldItalic), CreateTextSegment("C", Bold)];
  }

  /**
   * `<b>A<i>B</i>C</b>D`: each tag styles the text up to its closing tag,
   * nested styles add up, and the text after a closing tag goes back to the
   * outer style.
   */
  lemma NestedMarkupExample()
    ensures MarkupParse(NestedMarkup) == Success([
      CreateTextSegment("A", Bold), CreateTextSegment("B", BoldItalic),
      CreateTextSegment("C", Bold), CreateTextSegment("D", DefaultStyle)])
  {
    var s := NestedMarkup;
    hide Level, TagStep, TagEffect, NestedThen;
    var abc := [CreateTextSegment("A", Bold), CreateTextSegment("B", BoldItalic), CreateTextSegment("C", Bold)];
    var d := [CreateTextSegment("D", DefaultStyle)];
    LevelTag(s, 0, DefaultStyle, []);
    assert [s[1]] == "b";
    FlagTagStep(s, 0, DefaultStyle);
    TagEffectFlags("b", DefaultStyle);
    NestedMarkupBold();
    TextToEnd(s, 17, DefaultStyle);
    assert s[17..] == "D";
    assert Level(s, 0, DefaultStyle, []) == NestedThen(s, 3, Bold, DefaultStyle);
    NestedThenSuccess(s, 3, Bold, DefaultStyle, abc, 17, d, 18);
    assert abc + d == [CreateTextSegment("A", Bold), CreateTextSegment("B", BoldItalic),
      CreateTextSegment("C", Bold), CreateTextSegment("D", DefaultStyle)];
  }

  const CrossedMarkup: string := "<b><i>X</b>Y</i>Z"

  lemma CrossedMarkupInner()
    ensures Level(CrossedMarkup, 6, BoldItalic, []) == Success(Scan([CreateTextSegment("X", BoldItalic)], 11))
    ensures Level(CrossedMarkup, 11, Bold, []) == Success(Scan([CreateTextSegment("Y", Bold)], 16))
  {
    var s := CrossedMarkup;
    assert IndexOfChar(s, '>', 7) == 10;
    TextThenClosing(s, 6, 7, 10, BoldItalic);
    assert s[6..7] == "X";
    assert IndexOfChar(s, '>', 12) == 15;
    TextThenClosing(s, 11, 12, 15, Bold);
    assert s[11..12] == "Y";
  }

  /**
   * `<b><i>X</b>Y</i>Z`: a closing tag ends the innermost open level whatever
   * its name, so `</b>` ends the italic level and `</i>` the bold one.
   */
  lemma CrossedMarkupExample()
    ensures MarkupParse(CrossedMarkup) == Success([
      CreateTextSegment("X", BoldItalic), CreateTextSegment("Y", Bold), CreateTextSegment("Z", DefaultStyle)])
  {
    var s := CrossedMarkup;
    hide Level, TagStep, TagEffect, NestedThen;
    var xy := [CreateTextSegment("X", BoldItalic), CreateTextSegment("Y", Bold)];
    CrossedMarkupBold();
    LevelTag(s, 0, DefaultStyle, []);
    assert [s[1]] == "b";
    FlagTagStep(s, 0, DefaultStyle);
    TagEffectFlags("b", DefaultStyle);
    TextToEnd(s, 16, DefaultStyle);
    assert s[16..] == "Z";
    assert Level(s, 0, DefaultStyle, []) == NestedThen(s, 3, Bold, DefaultStyle);
    NestedThenSuccess(s, 3, Bold, DefaultStyle, xy, 16, [CreateTextSegment("Z", DefaultStyle)], 17);
    assert xy + [CreateTextSegment("Z", DefaultStyle)] ==
      [CreateTextSegment("X", BoldItalic), CreateTextSegment("Y", Bold), CreateTextSegment("Z", DefaultStyle)];
  }

  lemma CrossedMarkupBold()
    ensures Level(CrossedMarkup, 3, Bold, []) ==
      Success(Scan([CreateTextSegment("X", BoldItalic), CreateTextSegment("Y", Bold)], 16))
  {
    var s := CrossedMarkup;
    hide Level, TagStep, TagEffect, NestedThen;
    LevelTag(s, 3, Bold, []);
    assert [s[4]] == "i";
    FlagTagStep(s, 3, Bold);
    TagEffectFlags("i", Bold);
    CrossedMarkupInner();
    assert Level(s, 3, Bold, []) == NestedThen(s, 6, BoldItalic, Bold);
    NestedThenSuccess(s, 6, BoldItalic, Bold, [CreateTextSegment("X", BoldItalic)], 11, [CreateTextSegment("Y", Bold)], 16);
    assert [CreateTextSegment("X", BoldItalic)] + [CreateTextSegment("Y", Bold)]
      == [CreateTextSegment("X", BoldItalic), CreateTextSegment("Y", Bold)];
  }
  /** Text without '<' after `q` is gathered into the pending text and flushed at the end. */
  lemma PendingToEnd(s: string, q: nat, style: TextStyle, pending: string)
    requires q <= |s| && forall i | q <= i < |s| :: s[i] != '<'
    ensures Level(s, q, style, pending) == Success(Scan(Flush(pending + s[q..], style), |s|))
  {
    hide Level, TagStep;
    LevelTextRun(s, q, |s|, style, pending);
    assert s[q..|s|] == s[q..];
    LevelAtEnd(s, style, pending + s[q..]);
  }

  const NoparseOpen: string := "<noparse>"

  /** Without `</noparse>` in `a` (ignoring case), the first one after the opening tag is the one after `a`. */
  lemma NoparseCloseAfter(a: string, b: string)
    requires forall i | 0 <= i <= |a| :: !MatchesAt(a, NoparseClose, i)
    ensures IndexOfIgnoreCase(NoparseOpen + a + NoparseClose + b, NoparseClose, 9) == 9 + |a|
  {
    var s := NoparseOpen + a + NoparseClose + b;
    hide Lower, LowerChar;
    NoparseCloseAt(a, b);
    forall i | 9 <= i < 9 + |a|
      ensures !MatchesAt(s, NoparseClose, i)
    {
      if i + |NoparseClose| <= 9 + |a| {
        assert s[i..i + |NoparseClose|] == a[i - 9..i - 9 + |NoparseClose|];
        assert !MatchesAt(a, NoparseClose, i - 9);
      } else {
        var k := 9 + |a| - i;
        assert s[i + k] == '<';
        NoparseCloseNoOtherOpen(k);
        NoMatchAt(s, NoparseClose, i, k);
      }
    }
    IndexOfIgnoreCaseAt(s, NoparseClose, 9, 9 + |a|);
  }

  /** Only the first character of `</noparse>` folds to '<', so a match cannot start inside a shorter one. */
  lemma NoparseCloseNoOtherOpen(k: nat)
    requires 0 < k < |NoparseClose|
    ensures LowerChar('<') != LowerChar(NoparseClose[k])
  {
    assert NoparseClose == ['<', '/', 'n', 'o', 'p', 'a', 'r', 's', 'e', '>'];
  }

  lemma NoparseCloseAt(a: string, b: string)
    ensures MatchesAt(NoparseOpen + a + NoparseClose + b, NoparseClose, 9 + |a|)
  {
    var s := NoparseOpen + a + NoparseClose + b;
    hide MatchesAt;
    assert s[9 + |a|..19 + |a|] == NoparseClose;
    MatchesAtExactly(s, NoparseClose, 9 + |a|);
  }

  /**
   * `<noparse>` keeps everything up to the first `</noparse>` (ignoring
   * case) as text, tags included, and that text is joined with the plain
   * text after it into one segment.
   */
  lemma NoparseKeepsText(a: string, b: string)
    requires forall i | 0 <= i <= |a| :: !MatchesAt(a, NoparseClose, i)
    requires '<' !in b
    ensures MarkupParse(NoparseOpen + a + NoparseClose + b) == Success(Flush(a + b, DefaultStyle))
  {
    var s := NoparseOpen + a + NoparseClose + b;
    hide Level, TagStep, StartsWithIgnoreCase, EqualsIgnoreCase, IndexOfIgnoreCase, IndexOfChar, TagText, OpeningAt;
    NoparseTag(a, b);
    LevelTag(s, 0, DefaultStyle, []);
    TagNoparse(s, 0, 8, DefaultStyle);
    NoparseCloseAfter(a, b);
    PendingToEnd(s, 19 + |a|, DefaultStyle, a);
  }

  lemma NoparseTag(a: string, b: string)
    ensures var s := NoparseOpen + a + NoparseClose + b;
      OpeningAt(s, 0, 8) && TagText(s, 0, 8) == "noparse"
      && !StartsWithIgnoreCase("noparse", "sprite") && EqualsIgnoreCase("noparse", "noparse")
      && s[9..9 + |a|] == a && s[19 + |a|..] == b && forall i | 19 + |a| <= i < |s| :: s[i] == b[i - 19 - |a|]
  {
    var s := NoparseOpen + a + NoparseClose + b;
    hide StartsWithIgnoreCase, IndexOfChar;
    assert s[..9] == NoparseOpen;
    IndexOfCharAt(s, '>', 0, 8);
    assert s[1..8] == "noparse";
    TrimClassUnchanged("noparse", WhiteSpace);
    NotStartsWithAt("noparse", "sprite", 0);
  }

  /** `<noparse><b></noparse>x` is the one text segment "<b>x". */
  lemma NoparseMarkupExample()
    ensures MarkupParse("<noparse><b></noparse>x") == Success([CreateTextSegment("<b>x", DefaultStyle)])
  {
    assert NoparseOpen + "<b>" + NoparseClose + "x" == "<noparse><b></noparse>x";
    NoparseKeepsText("<b>", "x");
    assert "<b>" + "x" == "<b>x";
  }

  /** `<noparse></b></noparse>x`: a closing tag inside noparse is text too. */
  lemma NoparseClosingTagExample()
    ensures MarkupParse("<noparse></b></noparse>x") == Success([CreateTextSegment("</b>x", DefaultStyle)])
  {
    assert NoparseOpen + "</b>" + NoparseClose + "x" == "<noparse></b></noparse>x";
    NoparseKeepsText("</b>", "x");
    assert "</b>" + "x" == "</b>x";
  }

  /**
   * A sprite tag at the start adds one sprite segment with the index the tag
   * sets, and the text after it follows in the default style.
   */
  lemma SpriteTagFirst(tag: string, rest: string)
    requires |tag| > 0 && '>' !in tag && tag[0] != '/' && !IsWhiteSpace(tag[0]) && !IsWhiteSpace(tag[|tag| - 1])
    requires StartsWithIgnoreCase(tag, "sprite") && '<' !in rest
    ensures MarkupParse("<" + tag + ">" + rest) ==
      Success([SpriteSegment(SpriteIndex(tag), DefaultStyle)] + Flush(rest, DefaultStyle))
  {
    var s := "<" + tag + ">" + rest;
    var gt := |tag| + 1;
    hide Level, TagStep, SpriteIndex, StartsWithIgnoreCase, EqualsIgnoreCase, IndexOfChar, TagText, OpeningAt;
    TagFirst(tag, rest);
    LevelTag(s, 0, DefaultStyle, []);
    TagSprite(s, 0, gt, DefaultStyle);
    TextToEnd(s, gt + 1, DefaultStyle);
  }

  /** The opening tag `<tag>` at the start of the input. */
  lemma TagFirst(tag: string, rest: string)
    requires |tag| > 0 && '>' !in tag && tag[0] != '/' && !IsWhiteSpace(tag[0]) && !IsWhiteSpace(tag[|tag| - 1])
    ensures var s := "<" + tag + ">" + rest;
      OpeningAt(s, 0, |tag| + 1) && TagText(s, 0, |tag| + 1) == tag
      && s[|tag| + 2..] == rest && forall i | |tag| + 2 <= i < |s| :: s[i] == rest[i - |tag| - 2]
  {
    var s := "<" + tag + ">" + rest;
    hide IndexOfChar;
    assert s[1..|tag| + 1] == tag;
    IndexOfCharAt(s, '>', 0, |tag| + 1);
    TrimClassUnchanged(tag, WhiteSpace);
  }

  /** The last `index=` of a sprite tag sets its index. */
  lemma SpriteIndexSetting(n: int)
    requires Int32Min <= n <= Int32Max
    ensures SpriteIndex("sprite index=" + Int32ToString(n)) == n
  {
    var d := Int32ToString(n);
    var part := "index=" + d;
    hide SplitOnSpace, ParseInt32, Int32ToString, StartsWithIgnoreCase;
    NoSpaceInInt32String(n);
    SpriteIndexParts(d);
    ParseInt32OfToString(n);
    assert IsIndexPart(part) && part[6..] == d;
  }

  lemma NoSpaceInInt32String(n: int)
    ensures ' ' !in Int32ToString(n)
  {
    var digits := NatToDigits(if n < 0 then -n else n);
    assert forall i | 0 <= i < |digits| :: digits[i] != ' ';
    if n < 0 {
      assert Int32ToString(n) == "-" + digits;
    }
  }

  lemma SpriteIndexParts(d: string)
    requires ' ' !in d
    ensures SplitOnSpace("sprite index=" + d) == ["sprite", "index=" + d]
    ensures StartsWithIgnoreCase("index=" + d, "index=") && ("index=" + d)[6..] == d
  {
    var part := "index=" + d;
    hide SplitOnSpace, StartsWithIgnoreCase;
    assert "sprite index=" + d == "sprite" + (" " + part);
    SplitWord("sprite", " " + part);
    SplitSpace(part);
    SplitWord(part, []);
    assert part + [] == part;
    StartsWithExactly(part, "index=");
  }

  /** `<sprite index=3>A`: a sprite with index 3 in the default style, then the text "A". */
  lemma SpriteMarkupExample()
    ensures MarkupParse("<sprite index=3>A") == Success([SpriteSegment(3, DefaultStyle), CreateTextSegment("A", DefaultStyle)])
  {
    var tag := "sprite index=3";
    hide Level, TagStep, SpriteIndex, SplitOnSpace, StartsWithIgnoreCase, Int32ToString;
    SpriteMarkupTag();
    SpriteTagFirst(tag, "A");
    assert "<" + tag + ">" + "A" == "<sprite index=3>A";
    assert [SpriteSegment(3, DefaultStyle)] + Flush("A", DefaultStyle)
      == [SpriteSegment(3, DefaultStyle), CreateTextSegment("A", DefaultStyle)];
  }

  lemma SpriteMarkupTag()
    ensures SpriteIndex("sprite index=3") == 3 && StartsWithIgnoreCase("sprite index=3", "sprite")
  {
    var tag := "sprite index=3";
    assert Int32ToString(3) == "3";
    hide SpriteIndex, SplitOnSpace, StartsWithIgnoreCase, Int32ToString;
    SpriteIndexSetting(3);
    assert "sprite index=" + "3" == tag;
    StartsWithExactly(tag, "sprite");
  }
}

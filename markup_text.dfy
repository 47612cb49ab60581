/**
 * Where MarkupParser's output comes from in its input. The parse reads
 * nothing past the point where the top level stops, so cutting the input
 * there changes nothing; and the text of the segments is the input up to
 * that point with the tags taken out (the raw text of a noparse tag kept).
 */
module MarkupText {
  import opened Wrappers
  import opened DotNetText
  import opened TextLayout
  import opened MarkupParsing
  import opened MarkupProperties

  // ---------------------------------------------------------------------------
  // The parse reads nothing past where it stops
  // ---------------------------------------------------------------------------

  /** Only an opening tag without a '>' leaves the cursor on its '<'. */
  lemma TagStepStays(s: string, p: nat, style: TextStyle)
    requires p < |s| && s[p] == '<'
    requires TagStep(s, p, style).Success? && TagStep(s, p, style).value.next == p
    ensures TagStep(s, p, style) == Success(Scan([], p))
  {
    hide Level, TagStep, TagEffect, Trim, SpriteIndex, StartsWithIgnoreCase, EqualsIgnoreCase, IndexOfIgnoreCase, IndexOfChar;
    var gt := IndexOfChar(s, '>', p);
    IndexOfCharSpec(s, '>', p);
    if p + 1 < |s| && s[p + 1] == '/' {
      TagClosing(s, p, style);
    } else if gt == -1 {
      TagUnterminated(s, p, style);
    } else {
      assert OpeningAt(s, p, gt);
      var tag := TagText(s, p, gt);
      if StartsWithIgnoreCase(tag, "sprite") {
        TagSprite(s, p, gt, style);
      } else if EqualsIgnoreCase(tag, "noparse") {
        TagNoparse(s, p, gt, style);
      } else {
        TagNested(s, p, gt, style);
      }
    }
  }

  /** An opening tag that ends before `m` reads the same in the first `m` characters. */
  lemma OpeningPrefix(s: string, m: nat, p: nat, gt: nat)
    requires OpeningAt(s, p, gt) && gt < m <= |s|
    ensures OpeningAt(s[..m], p, gt) && TagText(s[..m], p, gt) == TagText(s, p, gt)
  {
    hide Trim, IndexOfChar;
    IndexOfCharPrefix(s, '>', p, m);
    assert s[..m][p + 1..gt] == s[p + 1..gt];
  }

  /**
   * A level that succeeds and stops at or before `m` gives the same result
   * on the first `m` characters of the input.
   */
  lemma {:induction false} LevelPrefix(s: string, m: nat, p: nat, style: TextStyle, pending: string)
    requires p <= m <= |s|
    requires Level(s, p, style, pending).Success? && Level(s, p, style, pending).value.next <= m
    ensures Level(s[..m], p, style, pending) == Level(s, p, style, pending)
    decreases |s| - p, 1
  {
    hide Level, TagStep;
    var t := s[..m];
    if m == |s| {
      assert t == s;
    } else if p == m {
      if s[p] != '<' {
        LevelChar(s, p, style, pending);
        assert false;
      }
      LevelTag(s, p, style, pending);
      TagStepStays(s, p, style);
      assert Flush(pending, style) + [] == Flush(pending, style);
      LevelAtEnd(t, style, pending);
    } else if s[p] != '<' {
      assert t[p] == s[p];
      LevelChar(s, p, style, pending);
      LevelChar(t, p, style, pending);
      LevelPrefix(s, m, p + 1, style, pending + [s[p]]);
    } else {
      assert t[p] == s[p];
      LevelTag(s, p, style, pending);
      LevelTag(t, p, style, pending);
      TagStepPrefix(s, m, p, style);
    }
  }

  lemma {:induction false} TagStepPrefix(s: string, m: nat, p: nat, style: TextStyle)
    requires p < m < |s| && s[p] == '<'
    requires TagStep(s, p, style).Success? && TagStep(s, p, style).value.next <= m
    ensures TagStep(s[..m], p, style) == TagStep(s, p, style)
    decreases |s| - p, 0
  {
    hide Level, TagStep, TagEffect, Trim, SpriteIndex, StartsWithIgnoreCase, EqualsIgnoreCase, IndexOfIgnoreCase, IndexOfChar;
    var t := s[..m];
    var gt := IndexOfChar(s, '>', p);
    IndexOfCharSpec(s, '>', p);
    IndexOfCharPrefix(s, '>', p, m);
    assert t[p] == '<';
    if s[p + 1] == '/' {
      TagClosing(s, p, style);
      assert p < gt < m;
      assert t[p + 1] == '/';
      TagClosing(t, p, style);
    } else if gt == -1 {
      TagUnterminated(s, p, style);
      assert p + 1 < m ==> t[p + 1] == s[p + 1];
      TagUnterminated(t, p, style);
    } else {
      assert OpeningAt(s, p, gt);
      var tag := TagText(s, p, gt);
      if StartsWithIgnoreCase(tag, "sprite") {
        TagSprite(s, p, gt, style);
        OpeningPrefix(s, m, p, gt);
        TagSprite(t, p, gt, style);
        LevelPrefix(s, m, gt + 1, style, []);
      } else if EqualsIgnoreCase(tag, "noparse") {
        TagNoparse(s, p, gt, style);
        var endTag := IndexOfIgnoreCase(s, NoparseClose, gt + 1);
        if endTag == -1 {
          LevelAtEnd(s, style, s[gt + 1..]);
          assert false;
        }
        OpeningPrefix(s, m, p, gt);
        IndexOfIgnoreCasePrefix(s, NoparseClose, gt + 1, m);
        TagNoparse(t, p, gt, style);
        assert t[gt + 1..endTag] == s[gt + 1..endTag];
        LevelPrefix(s, m, endTag + |NoparseClose|, style, s[gt + 1..endTag]);
      } else {
        TagNested(s, p, gt, style);
        var inner := TagEffect(tag, CloneStyle(style)).value;
        var nested := Level(s, gt + 1, inner, []).value;
        OpeningPrefix(s, m, p, gt);
        TagNested(t, p, gt, style);
        LevelPrefix(s, m, gt + 1, inner, []);
        LevelPrefix(s, m, nested.next, style, []);
      }
    }
  }

  /** Cutting the input anywhere after the point where the top level stops does not change the parse. */
  lemma StopDropsRest(s: string, m: nat)
    requires Level(s, 0, DefaultStyle, []).Success? && Level(s, 0, DefaultStyle, []).value.next <= m <= |s|
    ensures MarkupParse(s[..m]) == MarkupParse(s)
  {
    hide Level;
    LevelPrefix(s, m, 0, DefaultStyle, []);
  }

  /**
   * Once the top level has reached the end of `a` (having emitted `done`
   * and gathered `pending`), a '<' that starts an opening tag with no '>'
   * after it stops the parse there: the pending text is flushed, nothing
   * from the '<' on is emitted, and the result is the parse of `a` alone.
   */
  lemma UnterminatedDropsRest(a: string, b: string, done: seq<TextSegment>, pending: string)
    requires Level(a + b, 0, DefaultStyle, []) == Emitted(done, Level(a + b, |a|, DefaultStyle, pending))
    requires |b| >= 1 && b[0] == '<' && !(|b| >= 2 && b[1] == '/') && '>' !in b
    ensures MarkupParse(a + b) == Success(done + Flush(pending, DefaultStyle))
    ensures MarkupParse(a) == MarkupParse(a + b)
  {
    var s := a + b;
    hide Level, TagStep;
    assert s[|a|] == '<';
    assert forall i | |a| <= i < |s| :: s[i] == b[i - |a|];
    UnterminatedEndsLevel(s, |a|, DefaultStyle, pending);
    assert s[..|a|] == a;
    StopDropsRest(s, |a|);
  }

  /**
   * Once the top level has reached the end of `a`, a closing tag there ends
   * the parse: the pending text is flushed and nothing after the tag is read.
   */
  lemma ClosingEndsParse(a: string, b: string, done: seq<TextSegment>, pending: string)
    requires Level(a + b, 0, DefaultStyle, []) == Emitted(done, Level(a + b, |a|, DefaultStyle, pending))
    requires |b| >= 2 && b[0] == '<' && b[1] == '/'
    ensures MarkupParse(a + b) == Success(done + Flush(pending, DefaultStyle))
  {
    var s := a + b;
    hide Level, TagStep;
    assert s[|a|] == '<' && s[|a| + 1] == '/';
    AnyClosingEndsLevel(s, |a|, DefaultStyle, pending);
  }

  const Cascade: string := "<b>x<y"

  /** The bold level stops at the unterminated '<', and so does the top level it returns to. */
  lemma CascadeLevels()
    ensures Level(Cascade, 3, Bold, []) == Success(Scan([CreateTextSegment("x", Bold)], 4))
    ensures Level(Cascade, 4, DefaultStyle, []) == Success(Scan([], 4))
  {
    var s := Cascade;
    hide Level, TagStep;
    UnterminatedEndsLevel(s, 4, Bold, "x");
    UnterminatedEndsLevel(s, 4, DefaultStyle, []);
    LevelChar(s, 3, Bold, []);
    assert [] + [s[3]] == "x";
  }

  /**
   * `<b>x<y`: an unterminated tag inside a bold level stops the whole
   * parse, and the text before it keeps the bold style.
   */
  lemma CascadeExample()
    ensures Level(Cascade, 0, DefaultStyle, []) == Emitted([CreateTextSegment("x", Bold)], Level(Cascade, 4, DefaultStyle, []))
    ensures MarkupParse(Cascade) == Success([CreateTextSegment("x", Bold)])
    ensures MarkupParse(Cascade) == MarkupParse("<b>x")
  {
    var s := Cascade;
    hide Level, TagStep, TagEffect, NestedThen;
    LevelTag(s, 0, DefaultStyle, []);
    assert [s[1]] == "b";
    FlagTagStep(s, 0, DefaultStyle);
    TagEffectFlags("b", DefaultStyle);
    CascadeLevels();
    NestedThenSuccess(s, 3, Bold, DefaultStyle, [CreateTextSegment("x", Bold)], 4, [], 4);
    assert [CreateTextSegment("x", Bold)] + [] == [CreateTextSegment("x", Bold)];
    assert s == "<b>x" + "<y";
    UnterminatedDropsRest("<b>x", "<y", [CreateTextSegment("x", Bold)], []);
  }

  // ---------------------------------------------------------------------------
  // The text of the segments is the input with the tags taken out
  // ---------------------------------------------------------------------------

  /** The text of the segments in order; a sprite has none. */
  function SegmentsText(segments: seq<TextSegment>): string {
    if |segments| == 0 then [] else segments[0].content + SegmentsText(segments[1..])
  }

  lemma {:induction false} SegmentsTextAppend(a: seq<TextSegment>, b: seq<TextSegment>)
    ensures SegmentsText(a + b) == SegmentsText(a) + SegmentsText(b)
    decreases |a|
  {
    if |a| == 0 {
      assert a + b == b;
    } else {
      assert (a + b)[1..] == a[1..] + b;
      SegmentsTextAppend(a[1..], b);
    }
  }

  lemma FlushText(pending: string, style: TextStyle)
    ensures SegmentsText(Flush(pending, style)) == pending
  {
    if |pending| > 0 {
      assert Flush(pending, style)[1..] == [];
    }
  }

  /** Text the parser drops as a tag: it starts with '<' and has no '>' before its last character. */
  predicate MarkupTag(t: string) {
    |t| > 0 && t[0] == '<' && forall i | 0 < i < |t| - 1 :: t[i] != '>'
  }

  /** Every dropped piece is a tag. */
  predicate TagsOnly(pieces: seq<Piece>) {
    forall i | 0 <= i < |pieces| && pieces[i].Dropped? :: MarkupTag(pieces[i].text)
  }

  /** Two stretches of pieces side by side cover the two stretches of input side by side. */
  lemma JoinPieces(s: string, i: nat, j: nat, k: nat, a: seq<Piece>, b: seq<Piece>)
    requires i <= j <= k <= |s|
    requires Joined(a) == s[i..j] && Joined(b) == s[j..k] && TagsOnly(a) && TagsOnly(b)
    ensures Joined(a + b) == s[i..k] && KeptText(a + b) == KeptText(a) + KeptText(b) && TagsOnly(a + b)
  {
    LayoutAppend(a, b);
    assert s[i..j] + s[j..k] == s[i..k];
    assert forall n | |a| <= n < |a + b| :: (a + b)[n] == b[n - |a|];
  }

  /** No pieces cover nothing and keep nothing. */
  lemma NoPieces(s: string, p: nat)
    requires p <= |s|
    ensures Joined([]) == s[p..p] && KeptText([]) == [] && TagsOnly([]) && SegmentsText([]) == []
  {
  }

  /** A tag on its own: dropped. */
  lemma TagPiece(s: string, i: nat, j: nat)
    requires i <= j <= |s| && MarkupTag(s[i..j])
    ensures Joined([Dropped(s[i..j])]) == s[i..j] && KeptText([Dropped(s[i..j])]) == [] && TagsOnly([Dropped(s[i..j])])
  {
    LayoutOne(Dropped(s[i..j]));
  }

  /** Text on its own: kept. */
  lemma TextPiece(s: string, i: nat, j: nat)
    requires i <= j <= |s|
    ensures Joined([Kept(s[i..j])]) == s[i..j] && KeptText([Kept(s[i..j])]) == s[i..j] && TagsOnly([Kept(s[i..j])])
  {
    LayoutOne(Kept(s[i..j]));
  }

  /** A sprite segment adds no text. */
  lemma SpriteText(index: int, style: TextStyle, rest: seq<TextSegment>)
    ensures SegmentsText([SpriteSegment(index, style)] + rest) == SegmentsText(rest)
  {
    SegmentsTextAppend([SpriteSegment(index, style)], rest);
  }

  /** The pieces of a noparse tag: the opening tag, the raw text, the closing tag, then the rest. */
  lemma NoparsePieces(s: string, p: nat, gt: nat, endTag: nat, next: nat, rest: seq<Piece>)
    requires p <= gt < endTag && endTag + |NoparseClose| <= next <= |s|
    requires MarkupTag(s[p..gt + 1]) && EqualsIgnoreCase(s[endTag..endTag + |NoparseClose|], NoparseClose)
    requires Joined(rest) == s[endTag + |NoparseClose|..next] && TagsOnly(rest)
    ensures var pieces := [Dropped(s[p..gt + 1]), Kept(s[gt + 1..endTag]), Dropped(s[endTag..endTag + |NoparseClose|])] + rest;
      Joined(pieces) == s[p..next] && KeptText(pieces) == s[gt + 1..endTag] + KeptText(rest) && TagsOnly(pieces)
  {
    hide Joined, KeptText, TagsOnly, MarkupTag, EqualsIgnoreCase;
    var after := endTag + |NoparseClose|;
    var head := [Dropped(s[p..gt + 1]), Kept(s[gt + 1..endTag]), Dropped(s[endTag..after])];
    NoparseCloseIsTag(s[endTag..after]);
    NoparseHead(s, p, gt, endTag, after);
    JoinPieces(s, p, after, next, head, rest);
  }

  lemma NoparseHead(s: string, p: nat, gt: nat, endTag: nat, after: nat)
    requires p <= gt < endTag <= after <= |s| && MarkupTag(s[p..gt + 1]) && MarkupTag(s[endTag..after])
    ensures var head := [Dropped(s[p..gt + 1]), Kept(s[gt + 1..endTag]), Dropped(s[endTag..after])];
      Joined(head) == s[p..after] && KeptText(head) == s[gt + 1..endTag] && TagsOnly(head)
  {
    hide Joined, KeptText, TagsOnly, MarkupTag;
    var open := [Dropped(s[p..gt + 1])];
    var raw := [Kept(s[gt + 1..endTag])];
    var close := [Dropped(s[endTag..after])];
    TagPiece(s, p, gt + 1);
    TextPiece(s, gt + 1, endTag);
    TagPiece(s, endTag, after);
    JoinPieces(s, p, gt + 1, endTag, open, raw);
    JoinPieces(s, p, endTag, after, open + raw, close);
    assert open + raw + close == [Dropped(s[p..gt + 1]), Kept(s[gt + 1..endTag]), Dropped(s[endTag..after])];
  }

  /** The pieces of any other opening tag: the tag, the nested level's, then the rest of this level's. */
  lemma NestedPieces(s: string, p: nat, gt: nat, n: nat, next: nat, first: seq<Piece>, second: seq<Piece>)
    requires p <= gt < n <= next <= |s| && MarkupTag(s[p..gt + 1])
    requires Joined(first) == s[gt + 1..n] && TagsOnly(first) && Joined(second) == s[n..next] && TagsOnly(second)
    ensures var pieces := [Dropped(s[p..gt + 1])] + first + second;
    Joined(pieces) == s[p..next] && KeptText(pieces) == KeptText(first) + KeptText(second) && TagsOnly(pieces)
  {
    hide Joined, KeptText, TagsOnly, MarkupTag;
    TagPiece(s, p, gt + 1);
    JoinPieces(s, p, gt + 1, n, [Dropped(s[p..gt + 1])], first);
    JoinPieces(s, p, n, next, [Dropped(s[p..gt + 1])] + first, second);
  }

  /** The '<' at `p` up to the first '>' after it (or up to `n` without one) is a tag. */
  lemma TagUpTo(s: string, p: nat, n: nat)
    requires p < n <= |s| && s[p] == '<' && forall i | p <= i < n - 1 :: s[i] != '>'
    ensures MarkupTag(s[p..n])
  {
  }

  /** A match of `</noparse>`, ignoring case, is a tag: only '<' folds to '<', and only '>' to '>'. */
  lemma NoparseCloseIsTag(u: string)
    requires EqualsIgnoreCase(u, NoparseClose)
    ensures |u| == 10 && MarkupTag(u)
  {
    hide Lower;
    LowerChars(u);
    LowerChars(NoparseClose);
    var folded := Lower(NoparseClose);
    assert folded[0] == '<' && forall i | 0 < i < 9 :: folded[i] != '>' by {
      assert NoparseClose == ['<', '/', 'n', 'o', 'p', 'a', 'r', 's', 'e', '>'];
    }
    assert Lower(u) == folded;
  }

  /**
   * What a level consumes, cut into pieces: the pieces join up to the input
   * from `p` to where the level stops, every dropped piece is a tag, and the
   * text of the segments is the pending text followed by the kept pieces.
   */
  lemma {:induction false} LevelLayout(s: string, p: nat, style: TextStyle, pending: string) returns (pieces: seq<Piece>)
    requires p <= |s| && Level(s, p, style, pending).Success?
    ensures Joined(pieces) == s[p..Level(s, p, style, pending).value.next]
    ensures SegmentsText(Level(s, p, style, pending).value.value) == pending + KeptText(pieces)
    ensures TagsOnly(pieces)
    decreases |s| - p, 2
  {
    hide Level, TagStep;
    if p == |s| {
      LevelAtEnd(s, style, pending);
      FlushText(pending, style);
      pieces := [];
    } else if s[p] != '<' {
      LevelChar(s, p, style, pending);
      var rest := LevelLayout(s, p + 1, style, pending + [s[p]]);
      TextPiece(s, p, p + 1);
      pieces := [Kept(s[p..p + 1])] + rest;
      JoinPieces(s, p, p + 1, Level(s, p, style, pending).value.next, [Kept(s[p..p + 1])], rest);
      assert pending + [s[p]] == pending + s[p..p + 1];
    } else {
      LevelTag(s, p, style, pending);
      pieces := TagStepLayout(s, p, style);
      SegmentsTextAppend(Flush(pending, style), TagStep(s, p, style).value.value);
      FlushText(pending, style);
    }
  }

  lemma {:induction false} TagStepLayout(s: string, p: nat, style: TextStyle) returns (pieces: seq<Piece>)
    requires p < |s| && s[p] == '<' && TagStep(s, p, style).Success?
    ensures Joined(pieces) == s[p..TagStep(s, p, style).value.next]
    ensures SegmentsText(TagStep(s, p, style).value.value) == KeptText(pieces)
    ensures TagsOnly(pieces)
    decreases |s| - p, 1
  {
    hide Level, TagStep, TagEffect, Trim, SpriteIndex, StartsWithIgnoreCase, EqualsIgnoreCase, IndexOfIgnoreCase, IndexOfChar;
    hide Joined, KeptText, TagsOnly, MarkupTag, SegmentsText, Flush, OpeningAt;
    var gt := IndexOfChar(s, '>', p);
    IndexOfCharSpec(s, '>', p);
    if p + 1 < |s| && s[p + 1] == '/' {
      TagClosing(s, p, style);
      var n := if gt == -1 then |s| else gt + 1;
      TagUpTo(s, p, n);
      TagPiece(s, p, n);
      pieces := [Dropped(s[p..n])];
      NoPieces(s, p);
    } else if gt == -1 {
      TagUnterminated(s, p, style);
      pieces := [];
      NoPieces(s, p);
    } else {
      OpeningAtFirst(s, p, gt);
      var tag := TagText(s, p, gt);
      if StartsWithIgnoreCase(tag, "sprite") {
        pieces := SpriteLayout(s, p, gt, style);
      } else if EqualsIgnoreCase(tag, "noparse") {
        pieces := NoparseLayout(s, p, gt, style);
      } else {
        pieces := NestedLayout(s, p, gt, style);
      }
    }
  }

  lemma OpeningAtFirst(s: string, p: nat, gt: nat)
    requires p < |s| && s[p] == '<' && !(p + 1 < |s| && s[p + 1] == '/')
    requires gt == IndexOfChar(s, '>', p) && gt != -1
    ensures OpeningAt(s, p, gt)
  {
    IndexOfCharSpec(s, '>', p);
  }

  /** The opening tag at `p` is dropped as one piece. */
  lemma OpeningTagPiece(s: string, p: nat, gt: nat)
    requires OpeningAt(s, p, gt)
    ensures MarkupTag(s[p..gt + 1]) && Joined([Dropped(s[p..gt + 1])]) == s[p..gt + 1]
    ensures KeptText([Dropped(s[p..gt + 1])]) == [] && TagsOnly([Dropped(s[p..gt + 1])])
  {
    IndexOfCharSpec(s, '>', p);
    TagUpTo(s, p, gt + 1);
    TagPiece(s, p, gt + 1);
  }

  lemma {:induction false} SpriteLayout(s: string, p: nat, gt: nat, style: TextStyle) returns (pieces: seq<Piece>)
    requires OpeningAt(s, p, gt) && TagStep(s, p, style).Success?
    requires StartsWithIgnoreCase(TagText(s, p, gt), "sprite")
    ensures Joined(pieces) == s[p..TagStep(s, p, style).value.next]
    ensures SegmentsText(TagStep(s, p, style).value.value) == KeptText(pieces)
    ensures TagsOnly(pieces)
    decreases |s| - p, 0
  {
    hide Level, TagStep, TagEffect, Trim, SpriteIndex, StartsWithIgnoreCase, EqualsIgnoreCase, IndexOfIgnoreCase, IndexOfChar;
    hide Joined, KeptText, TagsOnly, MarkupTag, SegmentsText, Flush;
    OpeningTagPiece(s, p, gt);
    var open := Dropped(s[p..gt + 1]);
    var tag := TagText(s, p, gt);
    TagSprite(s, p, gt, style);
    var rest := LevelLayout(s, gt + 1, style, []);
    pieces := [open] + rest;
    JoinPieces(s, p, gt + 1, Level(s, gt + 1, style, []).value.next, [open], rest);
    SpriteText(SpriteIndex(tag), style, Level(s, gt + 1, style, []).value.value);
  }

  lemma {:induction false} NoparseLayout(s: string, p: nat, gt: nat, style: TextStyle) returns (pieces: seq<Piece>)
    requires OpeningAt(s, p, gt) && TagStep(s, p, style).Success?
    requires !StartsWithIgnoreCase(TagText(s, p, gt), "sprite") && EqualsIgnoreCase(TagText(s, p, gt), "noparse")
    ensures Joined(pieces) == s[p..TagStep(s, p, style).value.next]
    ensures SegmentsText(TagStep(s, p, style).value.value) == KeptText(pieces)
    ensures TagsOnly(pieces)
    decreases |s| - p, 0
  {
    hide Level, TagStep, TagEffect, Trim, SpriteIndex, StartsWithIgnoreCase, EqualsIgnoreCase, IndexOfIgnoreCase, IndexOfChar;
    hide Joined, KeptText, TagsOnly, MarkupTag, SegmentsText, Flush;
    OpeningTagPiece(s, p, gt);
    var open := Dropped(s[p..gt + 1]);
    TagNoparse(s, p, gt, style);
    var endTag := IndexOfIgnoreCase(s, NoparseClose, gt + 1);
    if endTag == -1 {
      LevelAtEnd(s, style, s[gt + 1..]);
      FlushText(s[gt + 1..], style);
      TextPiece(s, gt + 1, |s|);
      pieces := [open] + [Kept(s[gt + 1..|s|])];
      JoinPieces(s, p, gt + 1, |s|, [open], [Kept(s[gt + 1..|s|])]);
    } else {
      var after := endTag + |NoparseClose|;
      IndexOfIgnoreCaseSpec(s, NoparseClose, gt + 1);
      var rest := LevelLayout(s, after, style, s[gt + 1..endTag]);
      pieces := [open, Kept(s[gt + 1..endTag]), Dropped(s[endTag..after])] + rest;
      NoparsePieces(s, p, gt, endTag, Level(s, after, style, s[gt + 1..endTag]).value.next, rest);
    }
  }

  lemma {:induction false} NestedLayout(s: string, p: nat, gt: nat, style: TextStyle) returns (pieces: seq<Piece>)
    requires OpeningAt(s, p, gt) && TagStep(s, p, style).Success?
    requires !StartsWithIgnoreCase(TagText(s, p, gt), "sprite") && !EqualsIgnoreCase(TagText(s, p, gt), "noparse")
    ensures Joined(pieces) == s[p..TagStep(s, p, style).value.next]
    ensures SegmentsText(TagStep(s, p, style).value.value) == KeptText(pieces)
    ensures TagsOnly(pieces)
    decreases |s| - p, 0
  {
    hide Level, TagStep, TagEffect, Trim, SpriteIndex, StartsWithIgnoreCase, EqualsIgnoreCase, IndexOfIgnoreCase, IndexOfChar;
    hide Joined, KeptText, TagsOnly, MarkupTag, SegmentsText, Flush;
    OpeningTagPiece(s, p, gt);
    var open := Dropped(s[p..gt + 1]);
    var tag := TagText(s, p, gt);
    TagNested(s, p, gt, style);
    var inner := TagEffect(tag, CloneStyle(style)).value;
    var nested := Level(s, gt + 1, inner, []).value;
    var first := LevelLayout(s, gt + 1, inner, []);
    var second := LevelLayout(s, nested.next, style, []);
    pieces := [open] + first + second;
    NestedPieces(s, p, gt, nested.next, Level(s, nested.next, style, []).value.next, first, second);
    SegmentsTextAppend(nested.value, Level(s, nested.next, style, []).value.value);
  }

  /**
   * The text of the segments is the input up to where the parse stops with
   * the tags taken out: that much of the input splits into pieces, each
   * kept as text or dropped as a tag, and the segments hold the kept ones in
   * order. So the text is the input with some characters removed.
   */
  lemma MarkupTextKept(s: string)
    requires MarkupParse(s).Success?
    ensures exists pieces :: (Joined(pieces) == s[..Level(s, 0, DefaultStyle, []).value.next]
      && SegmentsText(MarkupParse(s).value) == KeptText(pieces) && TagsOnly(pieces))
    ensures IsSubsequence(SegmentsText(MarkupParse(s).value), s)
  {
    hide Level;
    var next := Level(s, 0, DefaultStyle, []).value.next;
    var pieces := LevelLayout(s, 0, DefaultStyle, []);
    assert [] + KeptText(pieces) == KeptText(pieces);
    KeptIsSubsequence(pieces);
    SubsequenceOfEmpty(s[next..]);
    SubsequenceAppend(KeptText(pieces), s[..next], [], s[next..]);
    assert KeptText(pieces) + [] == KeptText(pieces) && s[..next] + s[next..] == s;
  }
}

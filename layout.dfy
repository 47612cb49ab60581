/**
 * How a parser's output text sits in its input: the input read so far cut
 * into pieces, each either kept as text or dropped as a tag.
 */
module TextLayout {

  /** A stretch of the input: text the parser keeps, or a tag it drops. */
  datatype Piece = Kept(text: string) | Dropped(text: string)

  /** The pieces put back together. */
  function Joined(pieces: seq<Piece>): string {
    if |pieces| == 0 then [] else pieces[0].text + Joined(pieces[1..])
  }

  /** The kept pieces only, in order. */
  function KeptText(pieces: seq<Piece>): string {
    if |pieces| == 0 then []
    else (if pieces[0].Kept? then pieces[0].text else []) + KeptText(pieces[1..])
  }

  /** Joining and keeping both distribute over concatenation. */
  lemma LayoutAppend(a: seq<Piece>, b: seq<Piece>)
    ensures Joined(a + b) == Joined(a) + Joined(b)
    ensures KeptText(a + b) == KeptText(a) + KeptText(b)
  {
    JoinedAppend(a, b);
    KeptAppend(a, b);
  }

  lemma {:induction false} JoinedAppend(a: seq<Piece>, b: seq<Piece>)
    ensures Joined(a + b) == Joined(a) + Joined(b)
    decreases |a|
  {
    if |a| == 0 {
      assert a + b == b;
    } else {
      assert (a + b)[0] == a[0] && (a + b)[1..] == a[1..] + b;
      JoinedAppend(a[1..], b);
    }
  }

  lemma {:induction false} KeptAppend(a: seq<Piece>, b: seq<Piece>)
    ensures KeptText(a + b) == KeptText(a) + KeptText(b)
    decreases |a|
  {
    if |a| == 0 {
      assert a + b == b;
    } else {
      assert (a + b)[0] == a[0] && (a + b)[1..] == a[1..] + b;
      KeptAppend(a[1..], b);
    }
  }

  /** A single piece. */
  lemma LayoutOne(x: Piece)
    ensures Joined([x]) == x.text
    ensures KeptText([x]) == if x.Kept? then x.text else []
  {
    assert [x][1..] == [];
  }

  /** The kept text is a subsequence of the joined text: dropping pieces only removes characters. */
  lemma {:induction false} KeptIsSubsequence(pieces: seq<Piece>)
    ensures IsSubsequence(KeptText(pieces), Joined(pieces))
    decreases |pieces|
  {
    if |pieces| > 0 {
      KeptIsSubsequence(pieces[1..]);
      var head := pieces[0].text;
      if pieces[0].Kept? {
        SubsequenceOfSelf(head);
        SubsequenceAppend(head, head, KeptText(pieces[1..]), Joined(pieces[1..]));
      } else {
        SubsequenceAppend([], head, KeptText(pieces[1..]), Joined(pieces[1..]));
        assert [] + KeptText(pieces[1..]) == KeptText(pieces[1..]);
      }
    }
  }

  /** `a` is `b` with some characters removed. */
  predicate IsSubsequence(a: string, b: string)
    decreases |b|
  {
    if |a| == 0 then true
    else if |b| == 0 then false
    else if a[0] == b[0] then IsSubsequence(a[1..], b[1..])
    else IsSubsequence(a, b[1..])
  }

  lemma {:induction false} SubsequenceOfSelf(a: string)
    ensures IsSubsequence(a, a)
    decreases |a|
  {
    if |a| > 0 {
      SubsequenceOfSelf(a[1..]);
    }
  }

  lemma {:induction false} SubsequenceOfEmpty(b: string)
    ensures IsSubsequence([], b)
  {
  }

  lemma {:induction false} SubsequenceAppend(a: string, b: string, c: string, d: string)
    requires IsSubsequence(a, b) && IsSubsequence(c, d)
    ensures IsSubsequence(a + c, b + d)
    decreases |b|
  {
    if |b| == 0 {
      assert |a| == 0 || !IsSubsequence(a, b);
      assert a + c == c && b + d == d;
    } else if |a| == 0 {
      SubsequenceOfSuffix(c, b, d);
      assert a + c == c;
    } else if a[0] == b[0] {
      SubsequenceAppend(a[1..], b[1..], c, d);
      assert (a + c)[1..] == a[1..] + c && (b + d)[1..] == b[1..] + d;
    } else {
      SubsequenceAppend(a, b[1..], c, d);
      assert (b + d)[1..] == b[1..] + d;
    }
  }

  /** A subsequence of `d` is a subsequence of anything ending in `d`. */
  lemma {:induction false} SubsequenceOfSuffix(c: string, b: string, d: string)
    requires IsSubsequence(c, d)
    ensures IsSubsequence(c, b + d)
    decreases |b|
  {
    if |b| == 0 {
      assert b + d == d;
    } else {
      SubsequenceOfSuffix(c, b[1..], d);
      assert (b + d)[1..] == b[1..] + d;
      if |c| > 0 && c[0] == (b + d)[0] {
        // Matching c[0] here or later: both ways need c[1..] to be a subsequence of (b + d)[1..].
        SubsequenceTail(c, (b + d)[1..]);
      }
    }
  }

  /** Dropping the first character of a nonempty subsequence keeps it a subsequence. */
  lemma {:induction false} SubsequenceTail(c: string, e: string)
    requires |c| > 0 && IsSubsequence(c, e)
    ensures IsSubsequence(c[1..], e)
    decreases |e|, 0
  {
    if |e| > 0 {
      if c[0] == e[0] {
        SubsequenceWeaken(c[1..], e[1..], e[0]);
      } else {
        SubsequenceTail(c, e[1..]);
        SubsequenceWeaken(c[1..], e[1..], e[0]);
      }
    }
  }

  /** One more character in front keeps a subsequence a subsequence. */
  lemma {:induction false} SubsequenceWeaken(c: string, e: string, x: char)
    requires IsSubsequence(c, e)
    ensures IsSubsequence(c, [x] + e)
    decreases |e|, 1
  {
    assert ([x] + e)[1..] == e;
    if |c| > 0 && c[0] == x {
      SubsequenceTail(c, e);
    }
  }
}

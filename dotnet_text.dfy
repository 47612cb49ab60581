/**
 * Models of the .NET string, char and number-parsing routines that the two
 * markup parsers call: char classification, ordinal case-insensitive
 * comparison, IndexOf, Trim, Split, int.Parse / int.TryParse,
 * Convert.FromHexString and Convert.ToInt32(value, 16).
 * Strings are sequences of UTF-16 code units, as in .NET.
 */
module DotNetText {
  import opened Wrappers

  type byte = x: int | 0 <= x < 256

  const Int32Min: int := -0x8000_0000
  const Int32Max: int := 0x7FFF_FFFF

  // ---------------------------------------------------------------------------
  // Character classes
  // ---------------------------------------------------------------------------

  /** char.IsWhiteSpace: the separators of categories Zs, Zl and Zp, and U+0009..U+000D, U+0085. */
  predicate IsWhiteSpace(c: char) {
    c == ' ' || '\t' <= c <= '\r' || c == '\U{85}' || c == '\U{A0}' || c == '\U{1680}'
    || '\U{2000}' <= c <= '\U{200A}' || c == '\U{2028}' || c == '\U{2029}'
    || c == '\U{202F}' || c == '\U{205F}' || c == '\U{3000}'
  }

  /** char.IsLetterOrDigit, restricted to the ASCII letters and digits. */
  predicate IsLetterOrDigit(c: char) {
    'a' <= c <= 'z' || 'A' <= c <= 'Z' || '0' <= c <= '9'
  }

  predicate IsAsciiDigit(c: char) {
    '0' <= c <= '9'
  }

  /** The white space that number parsing skips: U+0009..U+000D and U+0020. */
  predicate IsNumberWhite(c: char) {
    c == ' ' || '\t' <= c <= '\r'
  }

  /** The character classes the scanners stop on. */
  datatype CharClass =
    | LetterOrDigit
    | WhiteSpace
    | NumberWhite
    | AnyBut(stop: char)
    | NeitherWhiteSpaceNor(stop: char)

  predicate InClass(c: char, k: CharClass) {
    match k
    case LetterOrDigit => IsLetterOrDigit(c)
    case WhiteSpace => IsWhiteSpace(c)
    case NumberWhite => IsNumberWhite(c)
    case AnyBut(stop) => c != stop
    case NeitherWhiteSpaceNor(stop) => !IsWhiteSpace(c) && c != stop
  }

  /** The end of the longest run of characters of class `k` that starts at `p`. */
  function RunEnd(s: string, p: nat, k: CharClass): (q: nat)
    requires p <= |s|
    ensures p <= q <= |s|
    ensures q == |s| || !InClass(s[q], k)
    decreases |s| - p
  {
    if p < |s| && InClass(s[p], k) then RunEnd(s, p + 1, k) else p
  }

  /** Every character of the run is of class `k`. */
  lemma {:induction false} RunEndInClass(s: string, p: nat, k: CharClass)
    requires p <= |s|
    ensures forall i | p <= i < RunEnd(s, p, k) :: InClass(s[i], k)
    decreases |s| - p
  {
    if p < |s| && InClass(s[p], k) {
      RunEndInClass(s, p + 1, k);
    }
  }

  /** The start of the longest run of characters of class `k` that ends just before `q`. */
  function RunStartBefore(s: string, q: nat, k: CharClass): (p: nat)
    requires q <= |s|
    ensures p <= q
    ensures forall i | p <= i < q :: InClass(s[i], k)
    ensures p == 0 || !InClass(s[p - 1], k)
    decreases q
  {
    if q > 0 && InClass(s[q - 1], k) then RunStartBefore(s, q - 1, k) else q
  }

  /** Skipping a character of the class does not move the end of the run. */
  lemma RunEndStep(s: string, p: nat, k: CharClass)
    requires p < |s| && InClass(s[p], k)
    ensures RunEnd(s, p + 1, k) == RunEnd(s, p, k)
  {
  }

  /** If no character of `s[p..q]` leaves the class and `s[q]` does (or `q` is the end), the run ends at `q`. */
  lemma RunEndAt(s: string, p: nat, q: nat, k: CharClass)
    requires p <= q <= |s|
    requires forall i | p <= i < q :: InClass(s[i], k)
    requires q == |s| || !InClass(s[q], k)
    ensures RunEnd(s, p, k) == q
    decreases q - p
  {
    if p < q {
      RunEndAt(s, p + 1, q, k);
    }
  }

  // ---------------------------------------------------------------------------
  // Ordinal case-insensitive comparison
  // ---------------------------------------------------------------------------

  function LowerChar(c: char): char {
    if 'A' <= c <= 'Z' then (c as int + 32) as char else c
  }

  /** Folds the ASCII upper-case letters of `s` to lower case. */
  function Lower(s: string): (r: string)
    ensures |r| == |s|
  {
    if |s| == 0 then [] else [LowerChar(s[0])] + Lower(s[1..])
  }

  /** Lower folds each character on its own. */
  lemma {:induction false} LowerChars(s: string)
    ensures forall i | 0 <= i < |s| :: Lower(s)[i] == LowerChar(s[i])
  {
    if |s| > 0 {
      LowerChars(s[1..]);
    }
  }

  /** StringComparison.OrdinalIgnoreCase equality. */
  predicate EqualsIgnoreCase(a: string, b: string) {
    Lower(a) == Lower(b)
  }

  /** StartsWith(prefix, StringComparison.OrdinalIgnoreCase). */
  predicate StartsWithIgnoreCase(s: string, prefix: string) {
    |prefix| <= |s| && EqualsIgnoreCase(s[..|prefix|], prefix)
  }

  /** `t` occurs in `s` at index `i`, ignoring case. */
  predicate MatchesAt(s: string, t: string, i: nat) {
    i + |t| <= |s| && EqualsIgnoreCase(s[i..i + |t|], t)
  }

  lemma EqualsIgnoreCaseIsEquivalence(a: string, b: string, c: string)
    ensures EqualsIgnoreCase(a, a)
    ensures EqualsIgnoreCase(a, b) ==> EqualsIgnoreCase(b, a)
    ensures EqualsIgnoreCase(a, b) && EqualsIgnoreCase(b, c) ==> EqualsIgnoreCase(a, c)
  {
  }

  /** Two characters that differ after folding make the strings differ ignoring case. */
  lemma DiffersIgnoreCaseAt(a: string, b: string, i: nat)
    requires i < |a| && i < |b| && LowerChar(a[i]) != LowerChar(b[i])
    ensures !EqualsIgnoreCase(a, b)
  {
    LowerChars(a);
    LowerChars(b);
    assert Lower(a)[i] != Lower(b)[i];
  }

  lemma StartsWithExactly(s: string, prefix: string)
    requires |prefix| <= |s| && s[..|prefix|] == prefix
    ensures StartsWithIgnoreCase(s, prefix)
  {
  }

  /** A prefix that differs at one character, ignoring case, does not start `s`. */
  lemma NotStartsWithAt(s: string, prefix: string, i: nat)
    requires i < |prefix| && i < |s| && LowerChar(s[i]) != LowerChar(prefix[i])
    ensures !StartsWithIgnoreCase(s, prefix)
  {
    if |prefix| <= |s| {
      DiffersIgnoreCaseAt(s[..|prefix|], prefix, i);
    }
  }

  /** A string that starts with `prefix`, ignoring case, agrees with it on the first character after folding. */
  lemma StartsWithFirstChar(s: string, prefix: string)
    requires |prefix| > 0 && StartsWithIgnoreCase(s, prefix)
    ensures LowerChar(s[0]) == LowerChar(prefix[0])
  {
    assert Lower(s[..|prefix|])[0] == Lower(prefix)[0];
  }

  // ---------------------------------------------------------------------------
  // IndexOf
  // ---------------------------------------------------------------------------

  /** string.IndexOf(char, startIndex): the first index at or after `from` holding `c`, or -1. */
  function IndexOfChar(s: string, c: char, from: nat): (r: int)
    requires from <= |s|
    ensures r == -1 || from <= r < |s|
    decreases |s| - from
  {
    if from == |s| then -1 else if s[from] == c then from else IndexOfChar(s, c, from + 1)
  }

  /** IndexOfChar finds the first occurrence, and -1 exactly when there is none. */
  lemma {:induction false} IndexOfCharSpec(s: string, c: char, from: nat)
    requires from <= |s|
    ensures IndexOfChar(s, c, from) == -1 <==> forall i | from <= i < |s| :: s[i] != c
    ensures IndexOfChar(s, c, from) >= 0 ==>
      s[IndexOfChar(s, c, from)] == c && forall i | from <= i < IndexOfChar(s, c, from) :: s[i] != c
    decreases |s| - from
  {
    if from < |s| && s[from] != c {
      IndexOfCharSpec(s, c, from + 1);
    }
  }

  /** The first `c` at or after `from` is the one IndexOfChar finds. */
  lemma IndexOfCharAt(s: string, c: char, from: nat, r: nat)
    requires from <= r < |s| && s[r] == c && forall i | from <= i < r :: s[i] != c
    ensures IndexOfChar(s, c, from) == r
  {
    IndexOfCharSpec(s, c, from);
  }

  /**
   * string.IndexOf(value, startIndex, StringComparison.OrdinalIgnoreCase):
   * the first index at or after `from` where `t` occurs ignoring case, or -1.
   */
  function IndexOfIgnoreCase(s: string, t: string, from: nat): (r: int)
    requires from <= |s|
    ensures r == -1 || from <= r <= |s| - |t|
    decreases |s| - from
  {
    if from + |t| > |s| then -1
    else if MatchesAt(s, t, from) then from
    else IndexOfIgnoreCase(s, t, from + 1)
  }

  /** IndexOfIgnoreCase finds the first match, and -1 exactly when there is none. */
  lemma {:induction false} IndexOfIgnoreCaseSpec(s: string, t: string, from: nat)
    requires from <= |s|
    ensures IndexOfIgnoreCase(s, t, from) == -1 <==> forall i | from <= i <= |s| :: !MatchesAt(s, t, i)
    ensures IndexOfIgnoreCase(s, t, from) >= 0 ==>
      MatchesAt(s, t, IndexOfIgnoreCase(s, t, from)) && forall i | from <= i < IndexOfIgnoreCase(s, t, from) :: !MatchesAt(s, t, i)
    decreases |s| - from
  {
    if from + |t| <= |s| && !MatchesAt(s, t, from) {
      IndexOfIgnoreCaseSpec(s, t, from + 1);
    }
  }

  lemma MatchesAtExactly(s: string, t: string, i: nat)
    requires i + |t| <= |s| && s[i..i + |t|] == t
    ensures MatchesAt(s, t, i)
  {
  }

  /** A character that differs from `t`'s after folding rules out a match. */
  lemma NoMatchAt(s: string, t: string, i: nat, j: nat)
    requires j < |t| && (i + |t| <= |s| ==> LowerChar(s[i + j]) != LowerChar(t[j]))
    ensures !MatchesAt(s, t, i)
  {
    if i + |t| <= |s| {
      DiffersIgnoreCaseAt(s[i..i + |t|], t, j);
    }
  }

  /** The first match of `t` at or after `from` is the one IndexOfIgnoreCase finds. */
  lemma IndexOfIgnoreCaseAt(s: string, t: string, from: nat, r: nat)
    requires from <= r && MatchesAt(s, t, r) && forall i | from <= i < r :: !MatchesAt(s, t, i)
    ensures IndexOfIgnoreCase(s, t, from) == r
  {
    IndexOfIgnoreCaseSpec(s, t, from);
  }

  /** Searching a prefix of `s` finds the same character if it lies in the prefix, and nothing otherwise. */
  lemma {:induction false} IndexOfCharPrefix(s: string, c: char, from: nat, m: nat)
    requires from <= m <= |s|
    ensures var r := IndexOfChar(s, c, from);
      IndexOfChar(s[..m], c, from) == if 0 <= r < m then r else -1
    decreases m - from
  {
    if from < m {
      assert s[..m][from] == s[from];
      IndexOfCharPrefix(s, c, from + 1, m);
    }
  }

  /** A match that lies wholly in a prefix of `s` is found in the prefix too. */
  lemma {:induction false} IndexOfIgnoreCasePrefix(s: string, t: string, from: nat, m: nat)
    requires from <= m <= |s|
    requires IndexOfIgnoreCase(s, t, from) >= 0 && IndexOfIgnoreCase(s, t, from) + |t| <= m
    ensures IndexOfIgnoreCase(s[..m], t, from) == IndexOfIgnoreCase(s, t, from)
    decreases m - from
  {
    assert s[..m][from..from + |t|] == s[from..from + |t|];
    if !MatchesAt(s, t, from) {
      IndexOfIgnoreCasePrefix(s, t, from + 1, m);
    }
  }

  // ---------------------------------------------------------------------------
  // Trim, Split, Replace
  // ---------------------------------------------------------------------------

  /** Removes the characters of class `k` from both ends of `s`. */
  function TrimClass(s: string, k: CharClass): (r: string)
    ensures |r| <= |s|
    ensures r == [] || (!InClass(r[0], k) && !InClass(r[|r| - 1], k))
  {
    var a := RunEnd(s, 0, k);
    var b := RunStartBefore(s, |s|, k);
    if b <= a then [] else s[a..b]
  }

  /** string.Trim(): removes leading and trailing char.IsWhiteSpace characters. */
  function Trim(s: string): string {
    TrimClass(s, WhiteSpace)
  }

  /** A string with no white space at either end is its own trim. */
  lemma TrimClassUnchanged(s: string, k: CharClass)
    requires s == [] || (!InClass(s[0], k) && !InClass(s[|s| - 1], k))
    ensures TrimClass(s, k) == s
  {
    if s != [] {
      assert RunEnd(s, 0, k) == 0;
      assert RunStartBefore(s, |s|, k) == |s|;
    }
  }

  /** string.Split(new[] { ' ' }, StringSplitOptions.RemoveEmptyEntries). */
  function SplitOnSpace(s: string): (parts: seq<string>)
    ensures forall i | 0 <= i < |parts| :: |parts[i]| > 0 && ' ' !in parts[i]
    decreases |s|
  {
    if |s| == 0 then []
    else if s[0] == ' ' then SplitOnSpace(s[1..])
    else
      var e := RunEnd(s, 0, AnyBut(' '));
      RunEndInClass(s, 0, AnyBut(' '));
      [s[..e]] + SplitOnSpace(s[e..])
  }

  /** Leading spaces are skipped, and nothing splits into no parts. */
  lemma SplitSpace(rest: string)
    ensures SplitOnSpace(" " + rest) == SplitOnSpace(rest)
    ensures SplitOnSpace([]) == []
  {
    assert (" " + rest)[1..] == rest;
  }

  /** A word without spaces, followed by a space or nothing, is the first part. */
  lemma SplitWord(word: string, rest: string)
    requires |word| > 0 && ' ' !in word && (rest == [] || rest[0] == ' ')
    ensures SplitOnSpace(word + rest) == [word] + SplitOnSpace(rest)
  {
    var s := word + rest;
    RunEndAt(s, 0, |word|, AnyBut(' '));
    assert s[..|word|] == word && s[|word|..] == rest;
  }

  /** s.Replace(c.ToString(), ""): every occurrence of `c` removed. */
  function RemoveChar(s: string, c: char): (r: string)
    ensures c !in r
    ensures |r| <= |s|
  {
    if |s| == 0 then [] else (if s[0] == c then [] else [s[0]]) + RemoveChar(s[1..], c)
  }

  function Concat(parts: seq<string>): string {
    if |parts| == 0 then [] else parts[0] + Concat(parts[1..])
  }

  lemma RemoveCharAppend(a: string, b: string, c: char)
    ensures RemoveChar(a + b, c) == RemoveChar(a, c) + RemoveChar(b, c)
    decreases |a|
  {
    if |a| == 0 {
      assert a + b == b;
    } else {
      assert (a + b)[1..] == a[1..] + b;
      RemoveCharAppend(a[1..], b, c);
    }
  }

  lemma RemoveCharAbsent(s: string, c: char)
    requires c !in s
    ensures RemoveChar(s, c) == s
    decreases |s|
  {
    if |s| > 0 {
      RemoveCharAbsent(s[1..], c);
    }
  }

  /** Splitting loses only the separators: the parts, joined, are the input with every space removed. */
  lemma {:induction false} SplitOnSpaceKeepsText(s: string)
    ensures Concat(SplitOnSpace(s)) == RemoveChar(s, ' ')
    decreases |s|
  {
    if |s| == 0 {
    } else if s[0] == ' ' {
      SplitOnSpaceKeepsText(s[1..]);
    } else {
      var e := RunEnd(s, 0, AnyBut(' '));
      SplitOnSpaceKeepsText(s[e..]);
      RunEndInClass(s, 0, AnyBut(' '));
      assert s == s[..e] + s[e..];
      RemoveCharAppend(s[..e], s[e..], ' ');
      RemoveCharAbsent(s[..e], ' ');
      var parts := SplitOnSpace(s);
      assert parts == [s[..e]] + SplitOnSpace(s[e..]);
      assert parts[1..] == SplitOnSpace(s[e..]);
    }
  }

  // ---------------------------------------------------------------------------
  // int.Parse and int.TryParse (NumberStyles.Integer)
  // ---------------------------------------------------------------------------

  predicate AllDigits(s: string) {
    forall i | 0 <= i < |s| :: IsAsciiDigit(s[i])
  }

  function DigitValue(c: char): nat
    requires IsAsciiDigit(c)
  {
    c as int - '0' as int
  }

  /** The value of a string of decimal digits, most significant first. */
  function DigitsValue(s: string): nat
    requires AllDigits(s)
  {
    if |s| == 0 then 0 else 10 * DigitsValue(s[..|s| - 1]) + DigitValue(s[|s| - 1])
  }

  /** `s` without the run of '\0' characters at its end. */
  function TrimTrailingNuls(s: string): (r: string)
    ensures |r| <= |s| && r == s[..|r|]
    ensures |r| == 0 || r[|r| - 1] != '\0'
    ensures forall i | |r| <= i < |s| :: s[i] == '\0'
  {
    if |s| > 0 && s[|s| - 1] == '\0' then TrimTrailingNuls(s[..|s| - 1]) else s
  }

  /**
   * int.Parse(s): optional white space, an optional sign, one or more decimal
   * digits, optional white space, then optionally a run of '\0' characters
   * up to the end (which .NET's number parsing accepts); FormatException
   * otherwise, OverflowException outside the Int32 range.
   */
  function ParseInt32(s: string): (r: Result<int>)
    ensures r.Success? ==> Int32Min <= r.value <= Int32Max
  {
    ParseSignedDigits(TrimClass(TrimTrailingNuls(s), NumberWhite))
  }

  /** An optional sign and one or more decimal digits, in the Int32 range. */
  function ParseSignedDigits(t: string): (r: Result<int>)
    ensures r.Success? ==> Int32Min <= r.value <= Int32Max
  {
    var negative := |t| > 0 && t[0] == '-';
    var digits := if |t| > 0 && (t[0] == '-' || t[0] == '+') then t[1..] else t;
    if |digits| == 0 || !AllDigits(digits) then Failure(FormatException)
    else
      var v: int := if negative then -(DigitsValue(digits) as int) else DigitsValue(digits);
      if Int32Min <= v <= Int32Max then Success(v) else Failure(OverflowException)
  }

  /** Any run of '\0' characters appended to the input leaves int.Parse's result as it was. */
  lemma ParseInt32IgnoresTrailingNuls(s: string, nuls: string)
    requires forall i | 0 <= i < |nuls| :: nuls[i] == '\0'
    ensures ParseInt32(s + nuls) == ParseInt32(s)
  {
    TrimTrailingNulsAppend(s, nuls);
  }

  lemma {:induction false} TrimTrailingNulsAppend(s: string, nuls: string)
    requires forall i | 0 <= i < |nuls| :: nuls[i] == '\0'
    ensures TrimTrailingNuls(s + nuls) == TrimTrailingNuls(s)
    decreases |nuls|
  {
    if |nuls| > 0 {
      var shorter := nuls[..|nuls| - 1];
      assert (s + nuls)[..|s + nuls| - 1] == s + shorter;
      TrimTrailingNulsAppend(s, shorter);
    } else {
      assert s + nuls == s;
    }
  }

  /** A '\0' may follow the digits or the white space after them, but nothing may follow it. */
  lemma TrailingNulExamples()
    ensures ParseInt32("5\0") == Success(5)
    ensures ParseInt32("5 \0\0") == Success(5)
    ensures ParseInt32("5\0 ") == Failure(FormatException)
    ensures ParseInt32("\0") == Failure(FormatException)
  {
    FiveParses();
    assert TrimTrailingNuls("5\0") == "5";
    assert TrimTrailingNuls("5 \0\0") == "5 ";
    TrimFiveSpace();
    NulThenSpace();
    assert TrimTrailingNuls("\0") == "";
  }

  lemma FiveParses()
    ensures ParseInt32("5") == Success(5)
  {
    assert TrimTrailingNuls("5") == "5";
    TrimClassUnchanged("5", NumberWhite);
    assert DigitsValue("5") == 5;
  }

  lemma TrimFiveSpace()
    ensures TrimClass("5 ", NumberWhite) == "5"
  {
    assert RunEnd("5 ", 0, NumberWhite) == 0;
    assert RunStartBefore("5 ", 1, NumberWhite) == 1;
    assert RunStartBefore("5 ", 2, NumberWhite) == 1;
  }

  lemma NulThenSpace()
    ensures ParseInt32("5\0 ") == Failure(FormatException)
  {
    assert TrimTrailingNuls("5\0 ") == "5\0 ";
    assert RunEnd("5\0 ", 0, NumberWhite) == 0;
    assert RunStartBefore("5\0 ", 2, NumberWhite) == 2;
    assert RunStartBefore("5\0 ", 3, NumberWhite) == 2;
    assert TrimClass("5\0 ", NumberWhite) == "5\0";
    assert !IsAsciiDigit("5\0"[1]);
  }

  /** int.TryParse(s, out v): the parsed value, or 0 when parsing fails. */
  function TryParseInt32(s: string): int {
    match ParseInt32(s)
    case Success(v) => v
    case Failure(_) => 0
  }

  /** Decimal digits of a natural number, without leading zeros. */
  function NatToDigits(n: nat): (r: string)
    ensures |r| > 0 && AllDigits(r)
    ensures !IsNumberWhite(r[0]) && !IsNumberWhite(r[|r| - 1]) && r[0] != '-' && r[0] != '+'
  {
    if n < 10 then ['0' + n as char] else NatToDigits(n / 10) + ['0' + (n % 10) as char]
  }

  /** Int32.ToString() in the invariant culture. */
  function Int32ToString(n: int): string {
    if n < 0 then "-" + NatToDigits(-n) else NatToDigits(n)
  }

  lemma {:induction false} DigitsValueOfNatToDigits(n: nat)
    ensures DigitsValue(NatToDigits(n)) == n
  {
    if n >= 10 {
      DigitsValueOfNatToDigits(n / 10);
      var d := NatToDigits(n);
      assert d[..|d| - 1] == NatToDigits(n / 10);
    }
  }

  /** int.Parse accepts what Int32.ToString prints, for every Int32 value. */
  lemma ParseInt32OfToString(n: int)
    requires Int32Min <= n <= Int32Max
    ensures ParseInt32(Int32ToString(n)) == Success(n)
  {
    var s := Int32ToString(n);
    assert TrimTrailingNuls(s) == s;
    TrimClassUnchanged(s, NumberWhite);
    SignedDigitsOfToString(n);
  }

  lemma SignedDigitsOfToString(n: int)
    requires Int32Min <= n <= Int32Max
    ensures ParseSignedDigits(Int32ToString(n)) == Success(n)
  {
    var s := Int32ToString(n);
    if n < 0 {
      DigitsValueOfNatToDigits(-n);
      assert s[1..] == NatToDigits(-n);
    } else {
      DigitsValueOfNatToDigits(n);
    }
  }

  // ---------------------------------------------------------------------------
  // Hexadecimal
  // ---------------------------------------------------------------------------

  predicate IsHexDigit(c: char) {
    '0' <= c <= '9' || 'a' <= c <= 'f' || 'A' <= c <= 'F'
  }

  function HexValue(c: char): (v: nat)
    requires IsHexDigit(c)
    ensures v < 16
  {
    if '0' <= c <= '9' then c as int - '0' as int
    else if 'a' <= c <= 'f' then c as int - 'a' as int + 10
    else c as int - 'A' as int + 10
  }

  /**
   * Convert.FromHexString(s): one byte per pair of hex digits;
   * FormatException for an odd length or a character that is not a hex digit.
   */
  function FromHexString(s: string): (r: Result<seq<byte>>)
    ensures r.Success? <==> |s| % 2 == 0 && forall i | 0 <= i < |s| :: IsHexDigit(s[i])
    ensures r.Failure? ==> r.error == FormatException
    ensures r.Success? ==> |r.value| == |s| / 2
    decreases |s|
  {
    if |s| == 0 then Success([])
    else if |s| == 1 || !IsHexDigit(s[0]) || !IsHexDigit(s[1]) then Failure(FormatException)
    else
      match FromHexString(s[2..])
      case Failure(e) => Failure(e)
      case Success(rest) => Success([16 * HexValue(s[0]) + HexValue(s[1])] + rest)
  }

  /** Byte `k` of a successful FromHexString is the value of hex digits `2k` and `2k+1`. */
  lemma {:induction false} FromHexStringByte(s: string, k: nat)
    requires FromHexString(s).Success? && k < |s| / 2
    ensures FromHexString(s).value[k] == 16 * HexValue(s[2 * k]) + HexValue(s[2 * k + 1])
    decreases |s|
  {
    if k > 0 {
      FromHexStringByte(s[2..], k - 1);
      assert s[2..][2 * (k - 1)] == s[2 * k];
      assert s[2..][2 * (k - 1) + 1] == s[2 * k + 1];
    }
  }

  function HexDigitChar(v: nat): (c: char)
    requires v < 16
    ensures IsHexDigit(c) && HexValue(c) == v
  {
    if v < 10 then '0' + v as char else 'A' + (v - 10) as char
  }

  /** Convert.ToHexString(bytes): two upper-case hex digits per byte. */
  function ToHexString(bytes: seq<byte>): (s: string)
    ensures |s| == 2 * |bytes|
  {
    if |bytes| == 0 then []
    else [HexDigitChar(bytes[0] / 16), HexDigitChar(bytes[0] % 16)] + ToHexString(bytes[1..])
  }

  lemma HexPairOfByte(b: byte)
    ensures 16 * HexValue(HexDigitChar(b / 16)) + HexValue(HexDigitChar(b % 16)) == b
  {
  }

  /** FromHexString inverts ToHexString. */
  lemma {:induction false} FromHexStringOfToHexString(bytes: seq<byte>)
    ensures FromHexString(ToHexString(bytes)) == Success(bytes)
  {
    if |bytes| > 0 {
      var rest := ToHexString(bytes[1..]);
      FromHexStringOfToHexString(bytes[1..]);
      var c0, c1 := HexDigitChar(bytes[0] / 16), HexDigitChar(bytes[0] % 16);
      var s := [c0, c1] + rest;
      assert ToHexString(bytes) == s;
      assert s[2..] == rest;
      HexPairOfByte(bytes[0]);
      assert FromHexString(s) == Success([16 * HexValue(c0) + HexValue(c1)] + bytes[1..]);
      assert [bytes[0]] + bytes[1..] == bytes;
    }
  }

  /**
   * Convert.ToInt32(value, 16) on a two-character string: two hex digits,
   * or '+' and one hex digit; ArgumentException for a leading '-', since
   * a base-16 value cannot carry a minus sign; FormatException otherwise.
   */
  function HexPairToInt32(s: string): (r: Result<int>)
    requires |s| == 2
    ensures r.Success? <==> HexPair(s[0], s[1])
    ensures r.Success? ==> r.value == PairValue(s[0], s[1])
  {
    if s[0] == '-' then Failure(ArgumentException)
    else if s[0] == '+' then (if IsHexDigit(s[1]) then Success(HexValue(s[1])) else Failure(FormatException))
    else if IsHexDigit(s[0]) && IsHexDigit(s[1]) then Success(16 * HexValue(s[0]) + HexValue(s[1]))
    else Failure(FormatException)
  }

  /** A pair Convert.ToInt32(_, 16) reads: two hex digits, or a '+' sign and one hex digit. */
  predicate HexPair(hi: char, lo: char) {
    (hi == '+' || IsHexDigit(hi)) && IsHexDigit(lo)
  }

  /** The value of such a pair, in either case of the hex letters. */
  function PairValue(hi: char, lo: char): (v: byte)
    requires HexPair(hi, lo)
  {
    if hi == '+' then HexValue(lo) else 16 * HexValue(hi) + HexValue(lo)
  }
}

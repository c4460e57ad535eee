/** The java.lang.String operations the demo relies on: the natural order of
    `String.compareTo`, decimal rendering of ints, `Collectors.joining`,
    `strip()`, `split("\\s+")` and the case mapping of letters. Characters are
    Dafny chars; case mapping covers the ASCII letters only. */
module Text {

  // ---------------------------------------------------------------------
  // String.compareTo
  // ---------------------------------------------------------------------

  /** `a.compareTo(b) < 0`: lexicographic by character, and a proper prefix
      comes first. */
  predicate Less(a: string, b: string)
  {
    if |a| == 0 then |b| > 0
    else if |b| == 0 then false
    else if a[0] != b[0] then a[0] < b[0]
    else Less(a[1..], b[1..])
  }

  lemma {:induction false} LessIrreflexive(a: string)
    ensures !Less(a, a)
  {
    if |a| > 0 {
      LessIrreflexive(a[1..]);
    }
  }

  lemma {:induction false} LessTransitive(a: string, b: string, c: string)
    requires Less(a, b) && Less(b, c)
    ensures Less(a, c)
  {
    if |a| > 0 && |b| > 0 && |c| > 0 && a[0] == b[0] == c[0] {
      LessTransitive(a[1..], b[1..], c[1..]);
    }
  }

  /** Any two different strings are ordered one way or the other. */
  lemma {:induction false} LessTotal(a: string, b: string)
    requires a != b
    ensures Less(a, b) || Less(b, a)
  {
    if |a| > 0 && |b| > 0 && a[0] == b[0] {
      assert a == [a[0]] + a[1..] && b == [b[0]] + b[1..];
      LessTotal(a[1..], b[1..]);
    }
  }

  lemma {:induction false} LessAsymmetric(a: string, b: string)
    requires Less(a, b)
    ensures !Less(b, a)
  {
    if |a| > 0 && |b| > 0 && a[0] == b[0] {
      LessAsymmetric(a[1..], b[1..]);
    }
  }

  // ---------------------------------------------------------------------
  // Decimal rendering of ints (String.valueOf, StringBuilder.append(int))
  // ---------------------------------------------------------------------

  predicate IsDigit(c: char) { '0' <= c <= '9' }

  function DigitChar(d: nat): (c: char)
    requires d < 10
  {
    (d + '0' as int) as char
  }

  /** The decimal digits of n, most significant first, without leading zeros. */
  function NatDigits(n: nat): string
  {
    if n < 10 then [DigitChar(n)] else NatDigits(n / 10) + [DigitChar(n % 10)]
  }

  /** `String.valueOf(n)`: a minus sign for negative values, then the digits. */
  function DecimalString(n: int): string
  {
    if n < 0 then "-" + NatDigits(-n) else NatDigits(n)
  }

  /** The value of a string of decimal digits (what `Integer.parseInt` reads). */
  function DigitsValue(s: string): int
  {
    if |s| == 0 then 0 else DigitsValue(s[..|s| - 1]) * 10 + (s[|s| - 1] as int - '0' as int)
  }

  function ParseDecimal(s: string): int
  {
    if |s| > 0 && s[0] == '-' then -DigitsValue(s[1..]) else DigitsValue(s)
  }

  lemma {:induction false} NatDigitsRoundTrip(n: nat)
    ensures |NatDigits(n)| > 0
    ensures forall i :: 0 <= i < |NatDigits(n)| ==> IsDigit(NatDigits(n)[i])
    ensures |NatDigits(n)| > 1 ==> NatDigits(n)[0] != '0'
    ensures DigitsValue(NatDigits(n)) == n
  {
    if n >= 10 {
      NatDigitsRoundTrip(n / 10);
      var s := NatDigits(n);
      assert s[..|s| - 1] == NatDigits(n / 10);
    }
  }

  /** Reading back the decimal rendering of an int gives the int: the
      rendering loses nothing. */
  lemma DecimalRoundTrip(n: int)
    ensures |DecimalString(n)| > 0
    ensures ParseDecimal(DecimalString(n)) == n
  {
    if n < 0 {
      NatDigitsRoundTrip(-n);
      assert DecimalString(n)[1..] == NatDigits(-n);
    } else {
      NatDigitsRoundTrip(n);
    }
  }

  // ---------------------------------------------------------------------
  // Collectors.joining
  // ---------------------------------------------------------------------

  /** `Collectors.joining(sep)`: the strings in order, sep between each two. */
  function Join(ws: seq<string>, sep: string): string
  {
    if |ws| == 0 then "" else if |ws| == 1 then ws[0] else ws[0] + sep + Join(ws[1..], sep)
  }

  // ---------------------------------------------------------------------
  // Whitespace, strip() and split("\\s+")
  // ---------------------------------------------------------------------

  /** `Character.isWhitespace`: the ASCII controls TAB to CR and FS to US, the
      space, and the Unicode space, line and paragraph separators other than
      the no-break spaces. */
  predicate IsWhitespace(c: char)
  {
    || '\t' <= c <= '\r'
    || '\U{1C}' <= c <= '\U{1F}'
    || c == ' '
    || c == '\U{1680}'
    || '\U{2000}' <= c <= '\U{2006}'
    || '\U{2008}' <= c <= '\U{200A}'
    || c == '\U{2028}' || c == '\U{2029}' || c == '\U{205F}' || c == '\U{3000}'
  }

  /** The regular-expression class `\s`: [ \t\n\x0B\f\r]. */
  predicate IsRegexSpace(c: char)
  {
    '\t' <= c <= '\r' || c == ' '
  }

  function StripLeading(s: string): string
  {
    if |s| > 0 && IsWhitespace(s[0]) then StripLeading(s[1..]) else s
  }

  function StripTrailing(s: string): string
  {
    if |s| > 0 && IsWhitespace(s[|s| - 1]) then StripTrailing(s[..|s| - 1]) else s
  }

  /** `String.strip()`: leading and trailing whitespace removed. */
  function Strip(s: string): string
  {
    StripTrailing(StripLeading(s))
  }

  /** Length of the longest prefix without `\s` characters. */
  function SpanNonSpace(s: string): (n: nat)
    ensures n <= |s|
    ensures forall i :: 0 <= i < n ==> !IsRegexSpace(s[i])
    ensures n < |s| ==> IsRegexSpace(s[n])
  {
    if |s| == 0 || IsRegexSpace(s[0]) then 0 else 1 + SpanNonSpace(s[1..])
  }

  /** Length of the longest prefix made of `\s` characters. */
  function SpanSpace(s: string): (n: nat)
    ensures n <= |s|
    ensures forall i :: 0 <= i < n ==> IsRegexSpace(s[i])
    ensures n < |s| ==> !IsRegexSpace(s[n])
  {
    if |s| == 0 || !IsRegexSpace(s[0]) then 0 else 1 + SpanSpace(s[1..])
  }

  /** The pieces between the maximal runs of `\s` characters, a leading and a
      trailing empty piece included when s starts or ends with a run. */
  function Pieces(s: string): seq<string>
    decreases |s|
  {
    var w := SpanNonSpace(s);
    if w == |s| then [s]
    else
      var rest := s[w..];
      var k := SpanSpace(rest);
      [s[..w]] + Pieces(rest[k..])
  }

  function DropTrailingEmpty(ps: seq<string>): seq<string>
  {
    if |ps| > 0 && ps[|ps| - 1] == "" then DropTrailingEmpty(ps[..|ps| - 1]) else ps
  }

  predicate HasRegexSpace(s: string)
  {
    exists i :: 0 <= i < |s| && IsRegexSpace(s[i])
  }

  /** `s.split("\\s+")`: with no match the whole string, otherwise the pieces
      with the trailing empty ones removed. */
  function Split(s: string): seq<string>
  {
    if HasRegexSpace(s) then DropTrailingEmpty(Pieces(s)) else [s]
  }

  /** A word as `split("\\s+")` yields it from trimmed text: non-empty and
      free of `\s` characters. */
  predicate Word(w: string)
  {
    |w| > 0 && forall j :: 0 <= j < |w| ==> !IsRegexSpace(w[j])
  }

  /** Removing leading whitespace removes whitespace only, and leaves a
      suffix that is empty or starts with non-whitespace. */
  lemma {:induction false} StripLeadingStartsWord(s: string)
    ensures StripLeading(s) == "" || !IsWhitespace(StripLeading(s)[0])
    ensures |StripLeading(s)| <= |s| && StripLeading(s) == s[|s| - |StripLeading(s)|..]
    ensures forall k :: 0 <= k < |s| - |StripLeading(s)| ==> IsWhitespace(s[k])
  {
    if |s| > 0 && IsWhitespace(s[0]) {
      StripLeadingStartsWord(s[1..]);
      forall k | 1 <= k < |s| - |StripLeading(s)| ensures IsWhitespace(s[k]) {
        assert s[k] == s[1..][k - 1];
      }
    }
  }

  /** Removing trailing whitespace removes whitespace only, and leaves a
      prefix that is empty or ends with non-whitespace. */
  lemma {:induction false} StripTrailingDropsWhitespace(s: string)
    ensures StripTrailing(s) == "" || !IsWhitespace(StripTrailing(s)[|StripTrailing(s)| - 1])
    ensures |StripTrailing(s)| <= |s| && StripTrailing(s) == s[..|StripTrailing(s)|]
    ensures forall k :: |StripTrailing(s)| <= k < |s| ==> IsWhitespace(s[k])
  {
    if |s| > 0 && IsWhitespace(s[|s| - 1]) {
      var s' := s[..|s| - 1];
      StripTrailingDropsWhitespace(s');
      assert s'[..|StripTrailing(s')|] == s[..|StripTrailing(s')|];
      forall k | |StripTrailing(s)| <= k < |s| - 1 ensures IsWhitespace(s[k]) {
        assert s[k] == s'[k];
      }
    }
  }

  lemma {:induction false} StripTrailingKeepsStart(s: string)
    requires |s| > 0 && !IsWhitespace(s[0])
    ensures |StripTrailing(s)| > 0 && StripTrailing(s)[0] == s[0]
    ensures !IsWhitespace(StripTrailing(s)[|StripTrailing(s)| - 1])
    ensures |StripTrailing(s)| <= |s| && StripTrailing(s) == s[..|StripTrailing(s)|]
  {
    if IsWhitespace(s[|s| - 1]) {
      var s' := s[..|s| - 1];
      StripTrailingKeepsStart(s');
      assert s'[..|StripTrailing(s')|] == s[..|StripTrailing(s')|];
    }
  }

  /** `strip()` removes whitespace only, from both ends: it leaves a
      contiguous part of the text that is either empty, when the text is
      blank, or starts and ends with a non-whitespace character. */
  lemma StripEnds(s: string)
    ensures Strip(s) == "" || (!IsWhitespace(Strip(s)[0]) && !IsWhitespace(Strip(s)[|Strip(s)| - 1]))
    ensures exists i, j :: && 0 <= i <= j <= |s| && Strip(s) == s[i..j]
                           && (forall k :: 0 <= k < i ==> IsWhitespace(s[k]))
                           && (forall k :: j <= k < |s| ==> IsWhitespace(s[k]))
    ensures Strip(s) == "" <==> forall k :: 0 <= k < |s| ==> IsWhitespace(s[k])
  {
    var t := StripLeading(s);
    StripLeadingStartsWord(s);
    StripTrailingDropsWhitespace(t);
    var i := |s| - |t|;
    var j := i + |Strip(s)|;
    assert t[..|Strip(s)|] == s[i..j];
    forall k | j <= k < |s| ensures IsWhitespace(s[k]) {
      assert s[k] == t[k - i];
    }
    if |t| > 0 {
      StripTrailingKeepsStart(t);
      assert !IsWhitespace(s[i]);
    }
  }

  /** Text that already starts and ends with non-whitespace is left as is. */
  lemma StripKeeps(s: string)
    requires |s| > 0 && !IsWhitespace(s[0]) && !IsWhitespace(s[|s| - 1])
    ensures Strip(s) == s
  {
  }

  /** `strip()` is idempotent. */
  lemma StripIdempotent(s: string)
    ensures Strip(Strip(s)) == Strip(s)
  {
    StripEnds(s);
  }

  lemma SpanNonSpaceIs(s: string, n: nat)
    requires n <= |s|
    requires forall i :: 0 <= i < n ==> !IsRegexSpace(s[i])
    requires n < |s| ==> IsRegexSpace(s[n])
    ensures SpanNonSpace(s) == n
  {
  }

  lemma SpanSpaceIs(s: string, n: nat)
    requires n <= |s|
    requires forall i :: 0 <= i < n ==> IsRegexSpace(s[i])
    requires n < |s| ==> !IsRegexSpace(s[n])
    ensures SpanSpace(s) == n
  {
  }

  /** Splitting text that starts and ends with a non-space character yields
      words only, the first starting and the last ending as the text does. */
  lemma {:induction false} PiecesOfTrimmed(s: string)
    requires |s| > 0 && !IsRegexSpace(s[0]) && !IsRegexSpace(s[|s| - 1])
    decreases |s|
    ensures |Pieces(s)| > 0
    ensures forall i :: 0 <= i < |Pieces(s)| ==> Word(Pieces(s)[i])
    ensures Pieces(s)[0][0] == s[0]
    ensures var last := Pieces(s)[|Pieces(s)| - 1]; |last| > 0 && last[|last| - 1] == s[|s| - 1]
  {
    if SpanNonSpace(s) == |s| {
      PiecesOfNoSpace(s);
    } else {
      var w, t := PiecesStep(s);
      PiecesOfTrimmed(t);
      var p, q := Pieces(s), Pieces(t);
      forall i | 0 <= i < |p| ensures Word(p[i]) {
        if i > 0 {
          assert p[i] == q[i - 1];
        }
      }
      assert p[|p| - 1] == q[|q| - 1];
    }
  }

  lemma PiecesOfNoSpace(s: string)
    requires |s| > 0 && SpanNonSpace(s) == |s|
    ensures Pieces(s) == [s] && Word(s)
  {
  }

  /** Trimmed text with a space in it splits into its first word and the
      pieces of the trimmed text after the first run of spaces. */
  lemma PiecesStep(s: string) returns (w: string, t: string)
    requires |s| > 0 && !IsRegexSpace(s[0]) && !IsRegexSpace(s[|s| - 1])
    requires SpanNonSpace(s) < |s|
    ensures Pieces(s) == [w] + Pieces(t)
    ensures Word(w) && w[0] == s[0]
    ensures 0 < |t| < |s| && !IsRegexSpace(t[0]) && t[|t| - 1] == s[|s| - 1]
  {
    var n := SpanNonSpace(s);
    var rest := s[n..];
    var k := SpanSpace(rest);
    assert !IsRegexSpace(rest[|rest| - 1]);
    w, t := s[..n], rest[k..];
    assert t[|t| - 1] == s[|s| - 1];
  }

  /** On such text `split("\\s+")` drops nothing: it yields exactly those
      words. */
  lemma SplitOfTrimmed(s: string)
    requires |s| > 0 && !IsRegexSpace(s[0]) && !IsRegexSpace(s[|s| - 1])
    ensures Split(s) == Pieces(s)
    ensures |Split(s)| > 0
    ensures forall i :: 0 <= i < |Split(s)| ==> Word(Split(s)[i])
    ensures Split(s)[0][0] == s[0]
    ensures var last := Split(s)[|Split(s)| - 1]; |last| > 0 && last[|last| - 1] == s[|s| - 1]
  {
    PiecesOfTrimmed(s);
    if !HasRegexSpace(s) {
      SpanNonSpaceIs(s, |s|);
    }
  }

  lemma {:induction false} JoinEnds(ws: seq<string>, sep: string)
    requires |ws| > 0
    requires forall i :: 0 <= i < |ws| ==> |ws[i]| > 0
    ensures |Join(ws, sep)| > 0
    ensures Join(ws, sep)[0] == ws[0][0]
    ensures Join(ws, sep)[|Join(ws, sep)| - 1] == ws[|ws| - 1][|ws[|ws| - 1]| - 1]
  {
    if |ws| > 1 {
      JoinEnds(ws[1..], sep);
    }
  }

  /** A word, one space and text starting with a non-space split into that
      word followed by the pieces of the text. */
  lemma PiecesOfWordSpace(w: string, j: string)
    requires Word(w) && |j| > 0 && !IsRegexSpace(j[0])
    ensures Pieces(w + " " + j) == [w] + Pieces(j)
  {
    WordSpaceSpans(w, j);
    PiecesUnfold(w + " " + j, |w|, 1);
  }

  lemma WordSpaceSpans(w: string, j: string)
    requires Word(w) && |j| > 0 && !IsRegexSpace(j[0])
    ensures var s := w + " " + j;
            && |w| < |s| && SpanNonSpace(s) == |w| && SpanSpace(s[|w|..]) == 1
            && s[..|w|] == w && s[|w|..][1..] == j
  {
    var s := w + " " + j;
    forall i | 0 <= i < |w| ensures !IsRegexSpace(s[i]) {
      assert s[i] == w[i];
    }
    assert s[|w|] == ' ';
    SpanNonSpaceIs(s, |w|);
    var rest := s[|w|..];
    assert rest == " " + j;
    assert rest[1] == j[0];
    SpanSpaceIs(rest, 1);
    assert rest[1..] == j;
    assert s[..|w|] == w;
  }

  /** One step of `Pieces` when the text has a space, written with the two
      span lengths as parameters. */
  lemma PiecesUnfold(s: string, n: nat, k: nat)
    requires n < |s| && SpanNonSpace(s) == n && SpanSpace(s[n..]) == k
    ensures Pieces(s) == [s[..n]] + Pieces(s[n..][k..])
  {
  }

  lemma PiecesOfWord(w: string)
    requires Word(w)
    ensures Pieces(w) == [w]
  {
    SpanNonSpaceIs(w, |w|);
  }

  /** Words joined by single spaces split back into the same words. */
  lemma {:induction false} PiecesOfJoin(ws: seq<string>)
    requires |ws| > 0
    requires forall i :: 0 <= i < |ws| ==> Word(ws[i])
    ensures Pieces(Join(ws, " ")) == ws
  {
    if |ws| == 1 {
      assert Join(ws, " ") == ws[0];
      PiecesOfWord(ws[0]);
    } else {
      var tail := ws[1..];
      assert forall i :: 0 <= i < |tail| ==> Word(tail[i]) by {
        forall i | 0 <= i < |tail| ensures Word(tail[i]) {
          assert tail[i] == ws[i + 1];
        }
      }
      var j := Join(tail, " ");
      JoinEnds(tail, " ");
      assert Join(ws, " ") == ws[0] + " " + j;
      PiecesOfWordSpace(ws[0], j);
      PiecesOfJoin(tail);
      assert ws == [ws[0]] + tail;
    }
  }

  /** `split("\\s+")` inverts `joining(" ")` on words. */
  lemma SplitJoin(ws: seq<string>)
    requires |ws| > 0
    requires forall i :: 0 <= i < |ws| ==> Word(ws[i])
    ensures Split(Join(ws, " ")) == ws
  {
    PiecesOfJoin(ws);
    if |ws| > 1 {
      assert Join(ws, " ") == ws[0] + " " + Join(ws[1..], " ");
      assert IsRegexSpace(Join(ws, " ")[|ws[0]|]);
    } else {
      assert !HasRegexSpace(Join(ws, " "));
    }
  }

  // ---------------------------------------------------------------------
  // Case mapping
  // ---------------------------------------------------------------------

  predicate IsUpper(c: char) { 'A' <= c <= 'Z' }

  predicate IsLower(c: char) { 'a' <= c <= 'z' }

  function ToUpper(c: char): (r: char)
  {
    if IsLower(c) then (c as int - 32) as char else c
  }

  function ToLower(c: char): (r: char)
  {
    if IsUpper(c) then (c as int + 32) as char else c
  }

  /** `String.toUpperCase` / `toLowerCase`, character by character. */
  function UpperCase(s: string): (r: string)
    ensures |r| == |s|
    ensures forall i :: 0 <= i < |s| ==> r[i] == ToUpper(s[i])
  {
    seq(|s|, i requires 0 <= i < |s| => ToUpper(s[i]))
  }

  function LowerCase(s: string): (r: string)
    ensures |r| == |s|
    ensures forall i :: 0 <= i < |s| ==> r[i] == ToLower(s[i])
  {
    seq(|s|, i requires 0 <= i < |s| => ToLower(s[i]))
  }

  lemma CaseMappingFixes(c: char)
    ensures ToUpper(ToUpper(c)) == ToUpper(c) && ToLower(ToLower(c)) == ToLower(c)
    ensures IsWhitespace(ToUpper(c)) == IsWhitespace(c) && IsWhitespace(ToLower(c)) == IsWhitespace(c)
    ensures IsRegexSpace(ToUpper(c)) == IsRegexSpace(c) && IsRegexSpace(ToLower(c)) == IsRegexSpace(c)
  {
  }
}

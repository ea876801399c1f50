/**
 * The `sentence` conversion: the input is lower-cased and every match of
 * `/(^\w|\.\s+\w)/gm` is upper-cased. With the `m` flag `^` matches at the
 * start of the text and after every line terminator, so the first word
 * character of each line is capitalized, as is the first word character after
 * a `.` and a run of whitespace.
 */
module Sentences {
  import opened Ascii
  import opened Strings

  /** `^` in multiline mode matches before position `i`. */
  predicate AtLineStart(l: string, i: nat)
    requires i <= |l|
  {
    i == 0 || IsLineTerminator(l[i - 1])
  }

  /** The number of whitespace characters immediately before position `i`. */
  function SpacesBefore(l: string, i: nat): (k: nat)
    requires i <= |l|
    ensures k <= i
  {
    if i > 0 && IsSpace(l[i - 1]) then 1 + SpacesBefore(l, i - 1) else 0
  }

  /** Position `i` is preceded by a `.` and then a non-empty run of whitespace. */
  predicate AfterDotSpaces(l: string, i: nat)
    requires i <= |l|
  {
    var k := SpacesBefore(l, i);
    0 < k < i && l[i - k - 1] == '.'
  }

  /** The characters the conversion upper-cases: word characters at a line start or after `.` and whitespace. */
  predicate Capitalized(l: string, i: nat)
    requires i < |l|
  {
    IsWordChar(l[i]) && (AtLineStart(l, i) || AfterDotSpaces(l, i))
  }

  /** The number of whitespace characters from position `i` on, as far as they go (`\s+` is greedy). */
  function SpacesFrom(l: string, i: nat): (k: nat)
    requires i <= |l|
    ensures i + k <= |l|
    decreases |l| - i
  {
    if i < |l| && IsSpace(l[i]) then 1 + SpacesFrom(l, i + 1) else 0
  }

  /** The alternative `\.\s+\w` matches at `p`: a dot, whitespace as far as it goes, then a word character. */
  predicate DotMatch(l: string, p: nat)
    requires p < |l|
  {
    var k := SpacesFrom(l, p + 1);
    l[p] == '.' && 0 < k && p + 1 + k < |l| && IsWordChar(l[p + 1 + k])
  }

  /** Where a `\.\s+\w` match starting at `p` ends. */
  function DotMatchEnd(l: string, p: nat): (e: nat)
    requires p < |l| && DotMatch(l, p)
    ensures p + 3 <= e <= |l|
  {
    p + 2 + SpacesFrom(l, p + 1)
  }

  /**
   * The global replacement scanning `l` from `p`: a match of `^\w` or of
   * `\.\s+\w` is replaced by its upper case and the scan resumes after it;
   * any other character is copied.
   */
  function CapitalizeFrom(l: string, p: nat): (r: string)
    requires p <= |l|
    decreases |l| - p
  {
    if p == |l| then []
    else if AtLineStart(l, p) && IsWordChar(l[p]) then [UpperChar(l[p])] + CapitalizeFrom(l, p + 1)
    else if DotMatch(l, p) then Upper(l[p..DotMatchEnd(l, p)]) + CapitalizeFrom(l, DotMatchEnd(l, p))
    else [l[p]] + CapitalizeFrom(l, p + 1)
  }

  /** The `sentence` conversion. */
  function Sentence(s: string): (r: string)
  {
    CapitalizeFrom(Lower(s), 0)
  }

  /** What the conversion writes at position `j` of the lower-cased text. */
  function Expected(l: string, j: nat): (c: char)
    requires j < |l|
  {
    if Capitalized(l, j) then UpperChar(l[j]) else l[j]
  }

  /** Every `\.\s+\w` match that starts before `p` also ends by `p`: the scan is not inside one. */
  predicate Settled(l: string, p: nat)
    requires p <= |l|
  {
    forall d :: 0 <= d < p && DotMatch(l, d) ==> DotMatchEnd(l, d) <= p
  }

  lemma {:induction false} SpacesBeforeRun(l: string, p: nat, q: nat)
    requires p < q <= |l| && !IsSpace(l[p])
    requires forall j :: p < j < q ==> IsSpace(l[j])
    ensures SpacesBefore(l, q) == q - p - 1
    decreases q
  {
    if q > p + 1 {
      SpacesBeforeRun(l, p, q - 1);
    }
  }

  lemma {:induction false} SpacesBeforeAreSpaces(l: string, i: nat)
    requires i <= |l|
    ensures forall j :: i - SpacesBefore(l, i) <= j < i ==> IsSpace(l[j])
    decreases i
  {
    if i > 0 && IsSpace(l[i - 1]) {
      SpacesBeforeAreSpaces(l, i - 1);
    }
  }

  lemma {:induction false} SpacesFromRun(l: string, i: nat)
    requires i <= |l|
    ensures forall j :: i <= j < i + SpacesFrom(l, i) ==> IsSpace(l[j])
    decreases |l| - i
  {
    if i < |l| && IsSpace(l[i]) {
      SpacesFromRun(l, i + 1);
    }
  }

  lemma {:induction false} SpacesFromExact(l: string, i: nat, q: nat)
    requires i <= q < |l| && !IsSpace(l[q])
    requires forall j :: i <= j < q ==> IsSpace(l[j])
    ensures SpacesFrom(l, i) == q - i
    decreases q - i
  {
    if i < q {
      SpacesFromExact(l, i + 1, q);
    }
  }

  /** `SpacesFrom` is the whitespace prefix of the text from `i` on. */
  lemma {:induction false} SpacesFromIsPrefix(l: string, i: nat)
    requires i <= |l|
    ensures SpacesFrom(l, i) == SpacePrefix(l[i..])
    decreases |l| - i
  {
    if i < |l| && IsSpace(l[i]) {
      SpacesFromIsPrefix(l, i + 1);
      assert l[i..][1..] == l[i + 1..];
    }
  }

  /** `SpacesBefore` is the whitespace suffix of the text before `i`. */
  lemma {:induction false} SpacesBeforeIsSuffix(l: string, i: nat)
    requires i <= |l|
    ensures SpacesBefore(l, i) == SpaceSuffix(l[..i])
    decreases i
  {
    if i > 0 && IsSpace(l[i - 1]) {
      SpacesBeforeIsSuffix(l, i - 1);
      assert l[..i][..i - 1] == l[..i - 1];
    }
  }

  /** A word character after a dot and whitespace is where a `\.\s+\w` match from that dot ends. */
  lemma DotBeforeMatches(l: string, i: nat)
    requires i < |l| && IsWordChar(l[i]) && AfterDotSpaces(l, i)
    ensures var d := i - SpacesBefore(l, i) - 1; DotMatch(l, d) && DotMatchEnd(l, d) == i + 1
  {
    var k := SpacesBefore(l, i);
    var d := i - k - 1;
    SpacesBeforeAreSpaces(l, i);
    WordCharNotSpace(l[i]);
    SpacesFromExact(l, d + 1, i);
  }

  /** The scan from `p` writes `Expected` at every position from `p` on. */
  predicate ScanMatches(l: string, p: nat)
    requires p <= |l|
  {
    |CapitalizeFrom(l, p)| == |l| - p &&
    forall k :: 0 <= k < |l| - p ==> CapitalizeFrom(l, p)[k] == Expected(l, p + k)
  }

  /** A `^\w` match upper-cases one character. */
  lemma LineStartStep(l: string, p: nat)
    requires p < |l| && AtLineStart(l, p) && IsWordChar(l[p])
    requires ScanMatches(l, p + 1)
    ensures ScanMatches(l, p)
  {
    var r := CapitalizeFrom(l, p);
    assert forall k :: 1 <= k < |l| - p ==> r[k] == CapitalizeFrom(l, p + 1)[k - 1];
  }

  /** After a `\.\s+\w` match the scan is settled again. */
  lemma DotSettles(l: string, p: nat)
    requires p < |l| && Settled(l, p) && DotMatch(l, p)
    ensures Settled(l, DotMatchEnd(l, p))
  {
    SpacesFromRun(l, p + 1);
    assert forall d :: p < d < DotMatchEnd(l, p) ==> l[d] != '.';
  }

  /** A `\.\s+\w` match is upper-cased as a whole, and its last character is a capitalized one. */
  lemma DotStep(l: string, p: nat)
    requires p < |l| && DotMatch(l, p)
    requires ScanMatches(l, DotMatchEnd(l, p))
    ensures ScanMatches(l, p)
  {
    var e := DotMatchEnd(l, p);
    var r := CapitalizeFrom(l, p);
    SpacesFromRun(l, p + 1);
    SpacesBeforeRun(l, p, e - 1);
    assert Capitalized(l, e - 1);
    forall k | 0 <= k < |l| - p ensures r[k] == Expected(l, p + k) {
      if k < e - p {
        assert r[k] == UpperChar(l[p + k]);
      } else {
        assert r[k] == CapitalizeFrom(l, e)[k - (e - p)];
      }
    }
  }

  /** A character where neither alternative matches is not capitalized, and the scan stays settled past it. */
  lemma CopySettles(l: string, p: nat)
    requires p < |l| && Settled(l, p)
    requires !(AtLineStart(l, p) && IsWordChar(l[p])) && !DotMatch(l, p)
    ensures !Capitalized(l, p) && Settled(l, p + 1)
  {
    if Capitalized(l, p) {
      DotBeforeMatches(l, p);
      assert false;
    }
  }

  lemma CopyStep(l: string, p: nat)
    requires p < |l| && !Capitalized(l, p)
    requires !(AtLineStart(l, p) && IsWordChar(l[p])) && !DotMatch(l, p)
    requires ScanMatches(l, p + 1)
    ensures ScanMatches(l, p)
  {
    var r := CapitalizeFrom(l, p);
    assert forall k :: 1 <= k < |l| - p ==> r[k] == CapitalizeFrom(l, p + 1)[k - 1];
  }

  /** From a settled position the scan writes `Expected` at every position. */
  lemma {:induction false} CapitalizeFromAt(l: string, p: nat)
    requires p <= |l| && Settled(l, p)
    ensures ScanMatches(l, p)
    decreases |l| - p
  {
    if p < |l| {
      if AtLineStart(l, p) && IsWordChar(l[p]) {
        assert Settled(l, p + 1);
        CapitalizeFromAt(l, p + 1);
        LineStartStep(l, p);
      } else if DotMatch(l, p) {
        DotSettles(l, p);
        CapitalizeFromAt(l, DotMatchEnd(l, p));
        DotStep(l, p);
      } else {
        CopySettles(l, p);
        CapitalizeFromAt(l, p + 1);
        CopyStep(l, p);
      }
    }
  }

  /** Two strings that agree up to letter case. */
  predicate SameLetters(a: string, b: string) {
    |a| == |b| && forall i :: 0 <= i < |a| ==> LowerChar(a[i]) == LowerChar(b[i])
  }

  /** Characters that agree up to case agree on every class the regular expression looks at. */
  lemma SameClasses(x: char, y: char)
    requires LowerChar(x) == LowerChar(y)
    ensures IsWordChar(x) == IsWordChar(y) && IsSpace(x) == IsSpace(y)
    ensures IsLineTerminator(x) == IsLineTerminator(y) && (x == '.') == (y == '.')
  {
  }

  lemma {:induction false} SpacesBeforeSame(a: string, b: string, i: nat)
    requires SameLetters(a, b) && i <= |a|
    ensures SpacesBefore(a, i) == SpacesBefore(b, i)
    decreases i
  {
    if i > 0 {
      SameClasses(a[i - 1], b[i - 1]);
      SpacesBeforeSame(a, b, i - 1);
    }
  }

  /** Which characters are capitalized does not depend on letter case. */
  lemma CapitalizedSame(a: string, b: string, i: nat)
    requires SameLetters(a, b) && i < |a|
    ensures Capitalized(a, i) == Capitalized(b, i)
  {
    SpacesBeforeSame(a, b, i);
    SameClasses(a[i], b[i]);
    if i > 0 {
      SameClasses(a[i - 1], b[i - 1]);
    }
    var k := SpacesBefore(a, i);
    if 0 < k < i {
      SameClasses(a[i - k - 1], b[i - k - 1]);
    }
  }

  /**
   * `sentence` keeps the length, upper-cases every word character that starts
   * a line or follows a `.` and whitespace, and lower-cases every other
   * character.
   */
  lemma SentenceAt(s: string)
    ensures |Sentence(s)| == |s|
    ensures forall i :: 0 <= i < |s| ==>
      Sentence(s)[i] == if Capitalized(s, i) then UpperChar(s[i]) else LowerChar(s[i])
  {
    var l := Lower(s);
    CapitalizeFromAt(l, 0);
    forall i | 0 <= i < |s| ensures Sentence(s)[i] == if Capitalized(s, i) then UpperChar(s[i]) else LowerChar(s[i]) {
      CaseOfCase(s[i]);
      assert SameLetters(l, s) by {
        forall j | 0 <= j < |s| ensures LowerChar(l[j]) == LowerChar(s[j]) {
          CaseOfCase(s[j]);
        }
      }
      CapitalizedSame(l, s, i);
      assert Sentence(s)[i] == Expected(l, i);
    }
  }

  /** Applying `sentence` to its own output changes nothing. */
  lemma SentenceIdempotent(s: string)
    ensures Sentence(Sentence(s)) == Sentence(s)
  {
    var r := Sentence(s);
    SentenceAt(s);
    SentenceAt(r);
    assert SameLetters(r, s) by {
      forall j | 0 <= j < |s| ensures LowerChar(r[j]) == LowerChar(s[j]) {
        CaseOfCase(s[j]);
      }
    }
    forall i | 0 <= i < |s| ensures Sentence(r)[i] == r[i] {
      CapitalizedSame(r, s, i);
      CaseOfCase(s[i]);
    }
  }
}

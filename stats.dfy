/**
 * The statistics shown under the input: the number of characters, words,
 * sentences and lines. Every count but the characters is 0 when the input
 * trims to the empty string.
 */
module Stats {
  import opened Ascii
  import opened Strings

  /** `s.trim()`: leading and trailing whitespace and line terminators removed. */
  function Trim(s: string): (r: string)
  {
    var t := s[SpacePrefix(s)..];
    t[..|t| - SpaceSuffix(t)]
  }

  /** `s.trim() === ''`. */
  predicate Blank(s: string) { Trim(s) == [] }

  /** `s.split(/\s+/)`: the pieces between maximal runs of whitespace. */
  function SplitSpaces(t: string): (r: seq<string>)
    ensures |r| >= 1
    decreases |t|
  {
    if t == [] then [[]]
    else if IsSpace(t[0]) then [[]] + SplitSpaces(t[SpacePrefix(t)..])
    else
      var rest := SplitSpaces(t[1..]);
      [[t[0]] + rest[0]] + rest[1..]
  }

  /** The number of maximal runs of non-whitespace characters, counted where each run ends: the words of `s`. */
  function NonSpaceRuns(s: string): (n: nat)
  {
    if s == [] then 0
    else (if !IsSpace(s[0]) && (|s| == 1 || IsSpace(s[1])) then 1 else 0) + NonSpaceRuns(s[1..])
  }

  predicate IsTerminator(c: char) { c == '.' || c == '!' || c == '?' }

  /** The length of the longest prefix of `s` made of `.`, `!` and `?`. */
  function TerminatorPrefix(s: string): (n: nat)
    ensures n <= |s|
  {
    if s != [] && IsTerminator(s[0]) then 1 + TerminatorPrefix(s[1..]) else 0
  }

  /** Whether `/[.!?]+\s/` matches at the start of `s`: a run of terminators, then whitespace. */
  predicate SeparatorAt(s: string)
  {
    0 < TerminatorPrefix(s) < |s| && IsSpace(s[TerminatorPrefix(s)])
  }

  /**
   * `s.split(/[.!?]+\s/)`: scanning left to right, a separator is the
   * longest run of terminators at the scan position followed by one
   * whitespace character; the text between separators forms the pieces.
   */
  function SentenceSplit(s: string): (r: seq<string>)
    ensures |r| >= 1
    decreases |s|
  {
    if s == [] then [[]]
    else if SeparatorAt(s) then [[]] + SentenceSplit(s[TerminatorPrefix(s) + 1..])
    else
      var rest := SentenceSplit(s[1..]);
      [[s[0]] + rest[0]] + rest[1..]
  }

  /** The separators `SentenceSplit` removed, in order. */
  function SentenceSeparators(s: string): (r: seq<string>)
    decreases |s|
  {
    if s == [] then []
    else if SeparatorAt(s) then [s[..TerminatorPrefix(s) + 1]] + SentenceSeparators(s[TerminatorPrefix(s) + 1..])
    else SentenceSeparators(s[1..])
  }

  /** The pieces with the separators put back between them. */
  function Interleave(pieces: seq<string>, seps: seq<string>): (r: string)
    requires |seps| + 1 == |pieces|
  {
    if |seps| == 0 then pieces[0] else pieces[0] + seps[0] + Interleave(pieces[1..], seps[1..])
  }

  /** The number of places where a terminator is directly followed by whitespace. */
  function TerminatorSpaces(s: string): (n: nat)
  {
    if |s| < 2 then 0
    else (if IsTerminator(s[0]) && IsSpace(s[1]) then 1 else 0) + TerminatorSpaces(s[1..])
  }

  /** The four counts. */
  datatype TextStats = TextStats(chars: nat, words: nat, sentences: nat, lines: nat)

  /** The statistics of the input `s`. */
  function ComputeStats(s: string): (r: TextStats)
  {
    if Blank(s) then TextStats(|s|, 0, 0, 0)
    else TextStats(|s|, |SplitSpaces(Trim(s))|, CountNonEmpty(SentenceSplit(s)), CountNonEmpty(Split(s, '\n')))
  }

  // Trimming

  /** `Trim(s)` is `s` without a whitespace prefix and a whitespace suffix, and is empty or starts and ends with non-whitespace. */
  lemma TrimShape(s: string) returns (a: nat, b: nat)
    ensures a <= b <= |s| && Trim(s) == s[a..b]
    ensures forall k :: 0 <= k < a ==> IsSpace(s[k])
    ensures forall k :: b <= k < |s| ==> IsSpace(s[k])
    ensures Trim(s) != [] ==> !IsSpace(Trim(s)[0]) && !IsSpace(Trim(s)[|Trim(s)| - 1])
  {
    a := SpacePrefix(s);
    var t := s[a..];
    b := a + |t| - SpaceSuffix(t);
    SpacePrefixRun(s);
    SpaceSuffixRun(t);
    assert Trim(s) == s[a..b];
    assert forall k :: b <= k < |s| ==> s[k] == t[k - a];
  }

  /** The input trims to nothing exactly when it is all whitespace. */
  lemma BlankIff(s: string)
    ensures Blank(s) <==> forall k :: 0 <= k < |s| ==> IsSpace(s[k])
  {
    var a, b := TrimShape(s);
  }

  // Words

  lemma {:induction false} NonSpaceRunsAppend(x: string, y: string)
    requires x == [] || y == [] || IsSpace(x[|x| - 1]) || IsSpace(y[0])
    ensures NonSpaceRuns(x + y) == NonSpaceRuns(x) + NonSpaceRuns(y)
  {
    if x == [] {
      assert x + y == y;
    } else {
      assert (x + y)[0] == x[0] && (x + y)[1..] == x[1..] + y;
      NonSpaceRunsAppend(x[1..], y);
    }
  }

  lemma {:induction false} NonSpaceRunsBlank(s: string)
    requires forall k :: 0 <= k < |s| ==> IsSpace(s[k])
    ensures NonSpaceRuns(s) == 0
  {
    if s != [] {
      NonSpaceRunsBlank(s[1..]);
    }
  }

  lemma {:induction false} NonSpaceRunsSkip(t: string)
    requires t != [] && IsSpace(t[0]) && SpacePrefix(t) < |t|
    ensures NonSpaceRuns(t) == NonSpaceRuns(t[SpacePrefix(t)..])
  {
    var k := SpacePrefix(t);
    SpacePrefixRun(t);
    NonSpaceRunsAppend(t[..k], t[k..]);
    NonSpaceRunsBlank(t[..k]);
    assert t[..k] + t[k..] == t;
  }

  /** On text ending in non-whitespace, `split(/\s+/)` gives one piece per word, plus an empty one for leading whitespace. */
  lemma {:induction false} SplitSpacesCount(t: string)
    requires t != [] && !IsSpace(t[|t| - 1])
    ensures |SplitSpaces(t)| == NonSpaceRuns(t) + (if IsSpace(t[0]) then 1 else 0)
    decreases |t|
  {
    if IsSpace(t[0]) {
      var k := SpacePrefix(t);
      SpacePrefixRun(t);
      NonSpaceRunsSkip(t);
      SplitSpacesCount(t[k..]);
    } else if |t| > 1 {
      SplitSpacesCount(t[1..]);
    }
  }

  /** Trimming loses no word. */
  lemma NonSpaceRunsTrim(s: string)
    ensures NonSpaceRuns(Trim(s)) == NonSpaceRuns(s)
  {
    var t := Trim(s);
    var a, b := TrimShape(s);
    var pre, post := s[..a], s[b..];
    assert pre + t + post == s;
    forall k | 0 <= k < |pre| ensures IsSpace(pre[k]) {
      assert pre[k] == s[k];
    }
    forall k | 0 <= k < |post| ensures IsSpace(post[k]) {
      assert post[k] == s[b + k];
    }
    NonSpaceRunsBlank(pre);
    NonSpaceRunsBlank(post);
    NonSpaceRunsAppend(pre, t);
    NonSpaceRunsAppend(pre + t, post);
  }

  /** The word count of a non-blank input is its number of whitespace-separated words, at least one. */
  lemma WordCount(s: string)
    requires !Blank(s)
    ensures ComputeStats(s).words == NonSpaceRuns(s) >= 1
  {
    var t := Trim(s);
    var a, b := TrimShape(s);
    SplitSpacesCount(t);
    NonSpaceRunsTrim(s);
    NonSpaceRunsLast(t);
  }

  lemma {:induction false} NonSpaceRunsLast(t: string)
    requires t != [] && !IsSpace(t[|t| - 1])
    ensures NonSpaceRuns(t) >= 1
  {
    if |t| > 1 {
      NonSpaceRunsLast(t[1..]);
    }
  }

  // Sentences

  lemma SeparatorJoinStep(s: string)
    requires SeparatorAt(s)
    requires |SentenceSeparators(s[TerminatorPrefix(s) + 1..])| + 1 == |SentenceSplit(s[TerminatorPrefix(s) + 1..])|
    requires Interleave(SentenceSplit(s[TerminatorPrefix(s) + 1..]), SentenceSeparators(s[TerminatorPrefix(s) + 1..])) == s[TerminatorPrefix(s) + 1..]
    ensures |SentenceSeparators(s)| + 1 == |SentenceSplit(s)|
    ensures Interleave(SentenceSplit(s), SentenceSeparators(s)) == s
  {
    var k := TerminatorPrefix(s);
    var u := s[k + 1..];
    var p, q := SentenceSplit(u), SentenceSeparators(u);
    assert SentenceSplit(s) == [[]] + p;
    assert SentenceSeparators(s) == [s[..k + 1]] + q;
    assert ([[]] + p)[1..] == p && ([s[..k + 1]] + q)[1..] == q;
    assert s[..k + 1] + u == s;
  }

  lemma CopyJoinStep(s: string)
    requires s != [] && !SeparatorAt(s)
    requires |SentenceSeparators(s[1..])| + 1 == |SentenceSplit(s[1..])|
    requires Interleave(SentenceSplit(s[1..]), SentenceSeparators(s[1..])) == s[1..]
    ensures |SentenceSeparators(s)| + 1 == |SentenceSplit(s)|
    ensures Interleave(SentenceSplit(s), SentenceSeparators(s)) == s
  {
    var rest := SentenceSplit(s[1..]);
    var seps := SentenceSeparators(s[1..]);
    assert SentenceSplit(s) == [[s[0]] + rest[0]] + rest[1..];
    assert SentenceSeparators(s) == seps;
    InterleavePrefixFirst([s[0]], rest, seps);
    assert [s[0]] + s[1..] == s;
  }

  /** Putting the separators back between the pieces gives the input again. */
  lemma {:induction false} SentenceSplitJoin(s: string)
    ensures |SentenceSeparators(s)| + 1 == |SentenceSplit(s)|
    ensures Interleave(SentenceSplit(s), SentenceSeparators(s)) == s
    decreases |s|
  {
    if s != [] {
      if SeparatorAt(s) {
        SentenceSplitJoin(s[TerminatorPrefix(s) + 1..]);
        SeparatorJoinStep(s);
      } else {
        SentenceSplitJoin(s[1..]);
        CopyJoinStep(s);
      }
    }
  }

  lemma InterleavePrefixFirst(x: string, pieces: seq<string>, seps: seq<string>)
    requires |seps| + 1 == |pieces|
    ensures Interleave([x + pieces[0]] + pieces[1..], seps) == x + Interleave(pieces, seps)
  {
    var q := [x + pieces[0]] + pieces[1..];
    if |seps| > 0 {
      assert q[1..] == pieces[1..];
    }
  }

  /** A separator consists of terminators and ends in one whitespace character. */
  lemma {:induction false} SeparatorShape(s: string)
    ensures forall j :: 0 <= j < |SentenceSeparators(s)| ==>
      var sep := SentenceSeparators(s)[j];
      |sep| >= 2 && IsSpace(sep[|sep| - 1]) && forall i :: 0 <= i < |sep| - 1 ==> IsTerminator(sep[i])
    decreases |s|
  {
    if s != [] {
      if SeparatorAt(s) {
        var k := TerminatorPrefix(s);
        SentenceSplitStep(s);
        SeparatorShape(s[k + 1..]);
      } else {
        SeparatorShape(s[1..]);
      }
    }
  }

  lemma {:induction false} TerminatorPrefixRun(s: string)
    ensures forall i :: 0 <= i < TerminatorPrefix(s) ==> IsTerminator(s[i])
  {
    if s != [] && IsTerminator(s[0]) {
      TerminatorPrefixRun(s[1..]);
      assert forall i :: 1 <= i < |s| ==> s[i] == s[1..][i - 1];
    }
  }

  lemma SentenceSplitStep(s: string)
    requires SeparatorAt(s)
    ensures var sep := s[..TerminatorPrefix(s) + 1];
      |sep| >= 2 && IsSpace(sep[|sep| - 1]) && forall i :: 0 <= i < |sep| - 1 ==> IsTerminator(sep[i])
  {
    TerminatorPrefixRun(s);
  }

  /** `w` has no terminator directly followed by whitespace. */
  predicate NoSeparatorIn(w: string)
  {
    forall i :: 0 <= i < |w| - 1 ==> !(IsTerminator(w[i]) && IsSpace(w[i + 1]))
  }

  lemma ConsNoSeparator(c: char, w: string)
    requires NoSeparatorIn(w)
    requires w != [] ==> !(IsTerminator(c) && IsSpace(w[0]))
    ensures NoSeparatorIn([c] + w)
  {
    var h := [c] + w;
    assert forall i :: 1 <= i < |h| ==> h[i] == w[i - 1];
  }

  /** The first piece starts with the first character, unless a separator starts there. */
  lemma FirstPiece(s: string)
    requires s != [] && !SeparatorAt(s)
    ensures SentenceSplit(s)[0] == [s[0]] + SentenceSplit(s[1..])[0]
    ensures SentenceSplit(s)[1..] == SentenceSplit(s[1..])[1..]
  {
  }

  lemma FirstPieceStart(s: string)
    ensures SentenceSplit(s)[0] != [] ==> s != [] && SentenceSplit(s)[0][0] == s[0]
  {
    if s != [] && !SeparatorAt(s) {
      FirstPiece(s);
    }
  }

  /** No piece contains a terminator directly followed by whitespace. */
  lemma {:induction false} PiecesHaveNoSeparator(s: string)
    ensures forall j :: 0 <= j < |SentenceSplit(s)| ==> NoSeparatorIn(SentenceSplit(s)[j])
    decreases |s|
  {
    if s != [] {
      if SeparatorAt(s) {
        var rest := SentenceSplit(s[TerminatorPrefix(s) + 1..]);
        PiecesHaveNoSeparator(s[TerminatorPrefix(s) + 1..]);
        assert SentenceSplit(s) == [[]] + rest;
      } else {
        var rest := SentenceSplit(s[1..]);
        PiecesHaveNoSeparator(s[1..]);
        FirstPiece(s);
        FirstPieceStart(s[1..]);
        NoSeparatorAtStart(s);
        ConsNoSeparator(s[0], rest[0]);
        var p := SentenceSplit(s);
        assert forall j :: 1 <= j < |p| ==> p[j] == rest[j];
      }
    }
  }

  /** A terminator directly followed by whitespace starts a separator. */
  lemma NoSeparatorAtStart(s: string)
    ensures |s| >= 2 && IsTerminator(s[0]) && IsSpace(s[1]) ==> SeparatorAt(s)
  {
    if |s| >= 2 && IsTerminator(s[0]) && IsSpace(s[1]) {
      assert TerminatorPrefix(s[1..]) == 0;
    }
  }

  lemma {:induction false} TerminatorSpacesRun(s: string)
    requires SeparatorAt(s)
    ensures TerminatorSpaces(s) == 1 + TerminatorSpaces(s[TerminatorPrefix(s) + 1..])
    decreases |s|
  {
    var k := TerminatorPrefix(s);
    if k == 1 {
      assert !IsTerminator(s[1]);
      assert s[1..][1..] == s[2..];
    } else {
      assert TerminatorPrefix(s[1..]) == k - 1;
      assert s[1..][k..] == s[k + 1..];
      TerminatorSpacesRun(s[1..]);
    }
  }

  /** Every terminator directly followed by whitespace ends exactly one separator, so there is one piece more than there are such places. */
  lemma {:induction false} SentenceSplitCount(s: string)
    ensures |SentenceSplit(s)| == 1 + TerminatorSpaces(s)
    decreases |s|
  {
    if s != [] {
      if SeparatorAt(s) {
        TerminatorSpacesRun(s);
        SentenceSplitCount(s[TerminatorPrefix(s) + 1..]);
      } else {
        NoSeparatorAtStart(s);
        SentenceSplitCount(s[1..]);
      }
    }
  }

  /** Text with no separator is one piece. */
  lemma {:induction false} SentenceSplitWhole(s: string)
    requires TerminatorSpaces(s) == 0
    ensures SentenceSplit(s) == [s]
    decreases |s|
  {
    if s != [] {
      if SeparatorAt(s) {
        TerminatorSpacesRun(s);
      } else {
        SentenceSplitWhole(s[1..]);
        assert [s[0]] + s[1..] == s;
        if |s| >= 2 {
          assert TerminatorSpaces(s[1..]) == 0;
        }
      }
    }
  }

  /**
   * The sentence count of a non-blank input counts the non-empty pieces:
   * at most one more than the places where a terminator meets whitespace,
   * and exactly one when there is no such place.
   */
  lemma SentenceCount(s: string)
    requires !Blank(s)
    ensures ComputeStats(s).sentences <= 1 + TerminatorSpaces(s)
    ensures TerminatorSpaces(s) == 0 ==> ComputeStats(s).sentences == 1
  {
    SentenceSplitCount(s);
    if TerminatorSpaces(s) == 0 {
      SentenceSplitWhole(s);
      assert s != [];
      assert CountNonEmpty([s]) == 1;
    }
  }

  // Lines and characters

  /** The line count of a non-blank input is its number of maximal runs without `\n`, at least one. */
  lemma LineCount(s: string)
    requires !Blank(s)
    ensures ComputeStats(s).lines == RunsAvoiding(s, '\n') >= 1
  {
    SplitRuns(s, '\n');
    BlankIff(s);
    var i :| 0 <= i < |s| && !IsSpace(s[i]);
    RunsAvoidingAt(s, i);
  }

  lemma {:induction false} RunsAvoidingAt(s: string, i: nat)
    requires i < |s| && s[i] != '\n'
    ensures RunsAvoiding(s, '\n') >= 1
  {
    if i > 0 {
      RunsAvoidingAt(s[1..], i - 1);
    } else if |s| > 1 && s[1] != '\n' {
      RunsAvoidingAt(s[1..], 0);
    }
  }

  /** Blank input counts only its characters. */
  lemma BlankStats(s: string)
    requires forall k :: 0 <= k < |s| ==> IsSpace(s[k])
    ensures ComputeStats(s) == TextStats(|s|, 0, 0, 0)
  {
    BlankIff(s);
  }

  /** The character count is the length of the input, blank or not. */
  lemma CharCount(s: string)
    ensures ComputeStats(s).chars == |s|
  {
  }

  /** `"a. b"` has two sentences. */
  lemma TwoSentences()
    ensures ComputeStats("a. b").sentences == 2
  {
    var s := "a. b";
    TwoPieces();
    assert !IsSpace(s[0]);
    BlankIff(s);
  }

  lemma TwoPieces()
    ensures SentenceSplit("a. b") == ["a", "b"]
  {
    var b := "b";
    assert !SeparatorAt(b);
    FirstPiece(b);
    var rb := SentenceSplit(b);
    assert rb[1..] == [];
    assert |rb| == 1;
    assert rb[0] == ['b'] + SentenceSplit([])[0];
    assert SentenceSplit([]) == [[]];
    assert rb[0] == "b";
    var m := ". b";
    assert TerminatorPrefix(m) == 1 && m[2..] == b;
    assert SentenceSplit(m) == [[]] + rb;
    var s := "a. b";
    assert !SeparatorAt(s) && s[1..] == m;
    FirstPiece(s);
    var r := SentenceSplit(s);
    assert r[1..] == [[]][1..] + rb;
    assert |r| == 2 && r[1] == "b";
    assert r[0] == ['a'] + SentenceSplit(m)[0];
    assert r[0] == "a";
  }

  /** `". "` is not blank but counts no sentence: both pieces around the separator are empty. */
  lemma SentenceExample()
    ensures ComputeStats(". ").sentences == 0
    ensures ComputeStats(". ").words == 1
  {
    assert TerminatorPrefix(". ") == 1;
    assert SentenceSplit(". ") == [[], []];
    assert !IsSpace('.');
    BlankIff(". ");
    WordCount(". ");
    assert NonSpaceRuns(". ") == 1;
  }
}

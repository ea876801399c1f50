/**
 * The JavaScript string operations the conversions are built from:
 * `Array.prototype.join`, `String.prototype.split` with a one-character
 * separator, and `filter(Boolean)` on the pieces.
 */
module Strings {
  import opened Ascii

  /** `parts.join(sep)`: the parts with `sep` between each pair of neighbours. */
  function Join(parts: seq<string>, sep: string): (r: string)
  {
    if |parts| == 0 then []
    else if |parts| == 1 then parts[0]
    else parts[0] + sep + Join(parts[1..], sep)
  }

  /** The number of occurrences of `c` in `s`. */
  function Occurrences(s: string, c: char): (n: nat)
    ensures n <= |s|
    ensures n == 0 <==> c !in s
  {
    if s == [] then 0 else (if s[0] == c then 1 else 0) + Occurrences(s[1..], c)
  }

  /**
   * `s.split(c)`: the pieces between successive occurrences of `c`; the empty
   * string gives one empty piece.
   */
  function Split(s: string, c: char): (r: seq<string>)
    ensures |r| >= 1
  {
    if s == [] then [[]]
    else
      var rest := Split(s[1..], c);
      if s[0] == c then [[]] + rest
      else [[s[0]] + rest[0]] + rest[1..]
  }

  /** There is one piece more than there are separators, and no piece holds a separator. */
  lemma {:induction false} SplitPieces(s: string, c: char)
    ensures |Split(s, c)| == 1 + Occurrences(s, c)
    ensures forall k :: 0 <= k < |Split(s, c)| ==> c !in Split(s, c)[k]
  {
    if s != [] {
      SplitPieces(s[1..], c);
    }
  }

  /** `s.split('')`: one one-character piece per character. */
  function Chars(s: string): (r: seq<string>)
  {
    seq(|s|, i requires 0 <= i < |s| => [s[i]])
  }

  /** `s` with every occurrence of `c` removed. */
  function Remove(s: string, c: char): (r: string)
    ensures c !in r
    ensures |r| == |s| - Occurrences(s, c)
  {
    if s == [] then [] else (if s[0] == c then [] else [s[0]]) + Remove(s[1..], c)
  }

  /** `parts.filter(Boolean).length`: how many parts are non-empty. */
  function CountNonEmpty(parts: seq<string>): (n: nat)
    ensures n <= |parts|
    ensures n == 0 <==> forall k :: 0 <= k < |parts| ==> parts[k] == []
  {
    if parts == [] then 0 else (if parts[0] != [] then 1 else 0) + CountNonEmpty(parts[1..])
  }

  /** The number of maximal runs of characters other than `c` in `s`, counted by where each run ends. */
  function RunsAvoiding(s: string, c: char): (n: nat)
  {
    if s == [] then 0
    else (if s[0] != c && (|s| == 1 || s[1] == c) then 1 else 0) + RunsAvoiding(s[1..], c)
  }

  /** The length of the longest prefix of `s` made of whitespace. */
  function SpacePrefix(s: string): (n: nat)
    ensures n <= |s|
  {
    if s != [] && IsSpace(s[0]) then 1 + SpacePrefix(s[1..]) else 0
  }

  /** The length of the longest suffix of `s` made of whitespace. */
  function SpaceSuffix(s: string): (n: nat)
    ensures n <= |s|
  {
    if s != [] && IsSpace(s[|s| - 1]) then 1 + SpaceSuffix(s[..|s| - 1]) else 0
  }

  /** `SpaceSuffix` is the longest whitespace suffix. */
  lemma {:induction false} SpaceSuffixRun(s: string)
    ensures forall k :: |s| - SpaceSuffix(s) <= k < |s| ==> IsSpace(s[k])
    ensures SpaceSuffix(s) < |s| ==> !IsSpace(s[|s| - SpaceSuffix(s) - 1])
  {
    if s != [] && IsSpace(s[|s| - 1]) {
      var u := s[..|s| - 1];
      SpaceSuffixRun(u);
      assert forall k :: 0 <= k < |u| ==> u[k] == s[k];
    }
  }

  /** `SpacePrefix` is the longest whitespace prefix: all of it is whitespace and the next character is not. */
  lemma {:induction false} SpacePrefixRun(s: string)
    ensures forall k :: 0 <= k < SpacePrefix(s) ==> IsSpace(s[k])
    ensures SpacePrefix(s) < |s| ==> !IsSpace(s[SpacePrefix(s)])
  {
    if s != [] && IsSpace(s[0]) {
      SpacePrefixRun(s[1..]);
      assert forall k :: 1 <= k < |s| ==> s[k] == s[1..][k - 1];
    }
  }

  /** The alphanumeric characters of `s`, in order. */
  function KeepAlnum(s: string): (r: string)
    ensures |r| <= |s|
    ensures forall k :: 0 <= k < |r| ==> IsAlnum(r[k])
  {
    if s == [] then [] else (if IsAlnum(s[0]) then [s[0]] else []) + KeepAlnum(s[1..])
  }

  lemma KeepAlnumAppend(a: string, b: string)
    ensures KeepAlnum(a + b) == KeepAlnum(a) + KeepAlnum(b)
  {
    if a == [] {
      assert a + b == b;
    } else {
      assert (a + b)[0] == a[0] && (a + b)[1..] == a[1..] + b;
      KeepAlnumAppend(a[1..], b);
    }
  }

  /** A string without the separator is one piece. */
  lemma SplitWithout(s: string, c: char)
    requires c !in s
    ensures Split(s, c) == [s]
  {
    if s != [] {
      SplitWithout(s[1..], c);
      assert [s[0]] + s[1..] == s;
    }
  }

  /** Splitting after a separator-free piece and one separator yields that piece first. */
  lemma {:induction false} SplitAfterPiece(a: string, c: char, b: string)
    requires c !in a
    ensures Split(a + [c] + b, c) == [a] + Split(b, c)
  {
    var s := a + [c] + b;
    if a == [] {
      assert s[0] == c && s[1..] == b;
    } else {
      assert s[0] == a[0] && s[1..] == a[1..] + [c] + b;
      SplitAfterPiece(a[1..], c, b);
      var rest := Split(s[1..], c);
      assert rest == [a[1..]] + Split(b, c);
      assert Split(s, c) == [[a[0]] + rest[0]] + rest[1..];
      assert [a[0]] + a[1..] == a;
      assert rest[1..] == Split(b, c);
    }
  }

  /** `split` undoes `join` on a non-empty list of parts, none containing the separator. */
  lemma {:induction false} SplitJoin(parts: seq<string>, c: char)
    requires |parts| >= 1
    requires forall k :: 0 <= k < |parts| ==> c !in parts[k]
    ensures Split(Join(parts, [c]), c) == parts
  {
    if |parts| == 1 {
      SplitWithout(parts[0], c);
    } else {
      SplitJoin(parts[1..], c);
      SplitAfterPiece(parts[0], c, Join(parts[1..], [c]));
      assert [parts[0]] + parts[1..] == parts;
    }
  }

  /** Prefixing the first part prefixes the joined string. */
  lemma JoinPrefixFirst(x: string, parts: seq<string>, sep: string)
    requires |parts| >= 1
    ensures Join([x + parts[0]] + parts[1..], sep) == x + Join(parts, sep)
  {
    var q := [x + parts[0]] + parts[1..];
    if |parts| > 1 {
      assert q[1..] == parts[1..];
      assert x + (parts[0] + sep + Join(parts[1..], sep)) == (x + parts[0]) + sep + Join(parts[1..], sep);
    }
  }

  /** `join` undoes `split`. */
  lemma {:induction false} JoinSplit(s: string, c: char)
    ensures Join(Split(s, c), [c]) == s
  {
    if s != [] {
      var rest := Split(s[1..], c);
      JoinSplit(s[1..], c);
      if s[0] == c {
        assert Split(s, c) == [[]] + rest;
        assert ([[]] + rest)[1..] == rest;
        assert s == [c] + s[1..];
      } else {
        assert Split(s, c) == [[s[0]] + rest[0]] + rest[1..];
        JoinPrefixFirst([s[0]], rest, [c]);
        assert s == [s[0]] + s[1..];
      }
    }
  }

  /** Concatenating the pieces of `split` deletes every separator. */
  lemma {:induction false} ConcatSplit(s: string, c: char)
    ensures Join(Split(s, c), []) == Remove(s, c)
  {
    if s != [] {
      var rest := Split(s[1..], c);
      ConcatSplit(s[1..], c);
      if s[0] == c {
        assert Split(s, c) == [[]] + rest;
      } else {
        assert Split(s, c) == [[s[0]] + rest[0]] + rest[1..];
        if |rest| > 1 {
          assert rest == [rest[0]] + rest[1..];
          assert Join(rest, []) == rest[0] + [] + Join(rest[1..], []);
        }
      }
    }
  }

  /** Joining one-character parts with the empty separator concatenates their characters. */
  lemma {:induction false} JoinSingletons(parts: seq<string>)
    requires forall k :: 0 <= k < |parts| ==> |parts[k]| == 1
    ensures |Join(parts, [])| == |parts|
    ensures forall k :: 0 <= k < |parts| ==> Join(parts, [])[k] == parts[k][0]
  {
    if |parts| > 1 {
      JoinSingletons(parts[1..]);
    }
  }

  /** The number of non-empty pieces of `split(c)` equals the number of maximal runs of characters other than `c`. */
  lemma {:induction false} SplitRuns(s: string, c: char)
    ensures CountNonEmpty(Split(s, c)) == RunsAvoiding(s, c)
  {
    if s != [] {
      var rest := Split(s[1..], c);
      SplitRuns(s[1..], c);
      if s[0] != c {
        assert rest[0] == [] <==> s[1..] == [] || s[1] == c;
        assert rest == [rest[0]] + rest[1..];
        assert Split(s, c)[1..] == rest[1..];
      } else {
        assert Split(s, c)[1..] == rest;
      }
    }
  }

  /** Joining one-character parts with a one-character separator interleaves the two. */
  lemma {:induction false} JoinSpaced(parts: seq<string>, c: char)
    requires forall k :: 0 <= k < |parts| ==> |parts[k]| == 1
    ensures |parts| > 0 ==> |Join(parts, [c])| == 2 * |parts| - 1
    ensures forall k :: 0 <= k < |parts| ==> Join(parts, [c])[2 * k] == parts[k][0]
    ensures forall k :: 0 <= k < |parts| - 1 ==> Join(parts, [c])[2 * k + 1] == c
  {
    if |parts| > 1 {
      var rest := parts[1..];
      JoinSpaced(rest, c);
      var j := Join(parts, [c]);
      assert j == parts[0] + [c] + Join(rest, [c]);
      forall k | 1 <= k < |parts| ensures j[2 * k] == parts[k][0] {
        assert j[2 * k] == Join(rest, [c])[2 * (k - 1)];
      }
      forall k | 1 <= k < |parts| - 1 ensures j[2 * k + 1] == c {
        assert j[2 * k + 1] == Join(rest, [c])[2 * (k - 1) + 1];
      }
    }
  }
}

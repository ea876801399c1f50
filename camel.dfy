/**
 * The `camel` conversion: the input is lower-cased and every match of
 * `/[^a-zA-Z0-9]+(.)/g` is replaced by the upper case of the character the
 * group captured.
 *
 * The run `[^a-zA-Z0-9]+` is greedy, so in the middle of the text it reaches
 * the next letter or digit, which `(.)` captures. At the end of the text it
 * backs off: `(.)` then captures the last character of the run that is not a
 * line terminator (`.` matches no line terminator), which is kept, and the
 * line terminators after it stay too.
 */
module Camel {
  import opened Ascii
  import opened Strings

  /** The length of the longest prefix of `l` without letters or digits. */
  function NonAlnumPrefix(l: string): (n: nat)
    ensures n <= |l|
  {
    if l != [] && !IsAlnum(l[0]) then 1 + NonAlnumPrefix(l[1..]) else 0
  }

  /** The largest `j` with `1 <= j <= i` whose character is not a line terminator, or 0 when there is none. */
  function LastPlain(l: string, i: nat): (j: nat)
    requires i < |l|
    ensures j <= i
  {
    if i == 0 then 0 else if !IsLineTerminator(l[i]) then i else LastPlain(l, i - 1)
  }

  /**
   * The global replacement on `l`: a letter or digit is copied; a run of other
   * characters is a match together with the character `(.)` captures after
   * it, and is replaced by that character's upper case; a run with nothing to
   * capture is copied.
   */
  function CamelFrom(l: string): (r: string)
    ensures |r| <= |l|
    decreases |l|
  {
    if l == [] then []
    else if IsAlnum(l[0]) then [l[0]] + CamelFrom(l[1..])
    else
      var e := NonAlnumPrefix(l);
      if e < |l| then [UpperChar(l[e])] + CamelFrom(l[e + 1..])
      else
        var j := LastPlain(l, |l| - 1);
        if j > 0 then [UpperChar(l[j])] + CamelFrom(l[j + 1..])
        else [l[0]] + CamelFrom(l[1..])
  }

  /** The `camel` conversion. */
  function Camel(s: string): (r: string)
  {
    CamelFrom(Lower(s))
  }

  /**
   * A reference definition of camel case: drop every character that is not a
   * letter or a digit, and upper-case the letter or digit that follows dropped ones
   * (`up` says whether something was just dropped).
   */
  function CamelRef(l: string, up: bool): (r: string)
  {
    if l == [] then []
    else if IsAlnum(l[0]) then [if up then UpperChar(l[0]) else l[0]] + CamelRef(l[1..], false)
    else CamelRef(l[1..], true)
  }

  lemma {:induction false} NonAlnumPrefixRun(l: string)
    ensures forall k :: 0 <= k < NonAlnumPrefix(l) ==> !IsAlnum(l[k])
    ensures NonAlnumPrefix(l) < |l| ==> IsAlnum(l[NonAlnumPrefix(l)])
  {
    if l != [] && !IsAlnum(l[0]) {
      NonAlnumPrefixRun(l[1..]);
      assert forall k :: 1 <= k < |l| ==> l[k] == l[1..][k - 1];
    }
  }

  /** `CamelRef` skips a run of dropped characters and then capitalizes. */
  lemma {:induction false} CamelRefSkip(l: string, up: bool, e: nat)
    requires 0 < e <= |l|
    requires forall k :: 0 <= k < e ==> !IsAlnum(l[k])
    ensures CamelRef(l, up) == CamelRef(l[e..], true)
  {
    if e > 1 {
      CamelRefSkip(l[1..], true, e - 1);
      assert l[1..][e - 1..] == l[e..];
    }
  }

  /** On text that is empty or ends in a letter or digit, the regular-expression replacement equals the reference definition. */
  lemma {:induction false} CamelFromRef(l: string)
    requires l == [] || IsAlnum(l[|l| - 1])
    ensures CamelFrom(l) == CamelRef(l, false)
    decreases |l|
  {
    if l != [] {
      if IsAlnum(l[0]) {
        CamelFromRef(l[1..]);
      } else {
        var e := NonAlnumPrefix(l);
        NonAlnumPrefixRun(l);
        CamelFromRef(l[e + 1..]);
        CamelRefSkip(l, false, e);
        assert l[e..][1..] == l[e + 1..];
      }
    }
  }

  /** `CamelRef` keeps exactly the letters and digits, and only their case changes. */
  lemma {:induction false} CamelRefLetters(l: string, up: bool)
    ensures |CamelRef(l, up)| == |KeepAlnum(l)|
    ensures forall k :: 0 <= k < |CamelRef(l, up)| ==>
      IsAlnum(CamelRef(l, up)[k]) && LowerChar(CamelRef(l, up)[k]) == LowerChar(KeepAlnum(l)[k])
  {
    if l != [] {
      CamelRefLetters(l[1..], IsAlnum(l[0]) == false);
      if IsAlnum(l[0]) {
        CaseOfCase(l[0]);
        var r := CamelRef(l, up);
        assert forall k :: 1 <= k < |r| ==> r[k] == CamelRef(l[1..], false)[k - 1];
        assert forall k :: 1 <= k < |r| ==> KeepAlnum(l)[k] == KeepAlnum(l[1..])[k - 1];
      }
    }
  }

  /**
   * On input that is empty or ends in a letter or digit, `camel` is the
   * reference camel case `CamelRef` of the lower-cased input, so its output consists only
   * of letters and digits and, up to case, is exactly the letters and digits
   * of the input in order.
   */
  lemma CamelLetters(s: string)
    requires s == [] || IsAlnum(s[|s| - 1])
    ensures Camel(s) == CamelRef(Lower(s), false)
    ensures |Camel(s)| == |KeepAlnum(s)|
    ensures forall k :: 0 <= k < |Camel(s)| ==> IsAlnum(Camel(s)[k]) && LowerChar(Camel(s)[k]) == LowerChar(KeepAlnum(s)[k])
  {
    var l := Lower(s);
    CamelFromRef(l);
    CamelRefLetters(l, false);
    KeepAlnumLower(s);
  }

  /** Lower-casing commutes with keeping the letters and digits. */
  lemma {:induction false} KeepAlnumLower(s: string)
    ensures |KeepAlnum(Lower(s))| == |KeepAlnum(s)|
    ensures forall k :: 0 <= k < |KeepAlnum(s)| ==> KeepAlnum(Lower(s))[k] == LowerChar(KeepAlnum(s)[k])
  {
    if s != [] {
      KeepAlnumLower(s[1..]);
      assert Lower(s)[1..] == Lower(s[1..]);
      var a, b := KeepAlnum(Lower(s)), KeepAlnum(s);
      if IsAlnum(s[0]) {
        assert forall k :: 1 <= k < |b| ==> a[k] == KeepAlnum(Lower(s[1..]))[k - 1] && b[k] == KeepAlnum(s[1..])[k - 1];
      }
    }
  }

  /** Letters and digits only: `camel` is `lower`. */
  lemma CamelOfWord(s: string)
    requires forall i :: 0 <= i < |s| ==> IsAlnum(s[i])
    ensures Camel(s) == Lower(s)
  {
    CamelRefWord(Lower(s));
    CamelFromRef(Lower(s));
  }

  lemma {:induction false} CamelRefWord(l: string)
    requires forall i :: 0 <= i < |l| ==> IsAlnum(l[i])
    ensures CamelRef(l, false) == l
  {
    if l != [] {
      CamelRefWord(l[1..]);
    }
  }

  lemma {:induction false} NonAlnumPrefixAppend(w: string, t: string)
    requires w != [] && IsAlnum(w[|w| - 1])
    ensures NonAlnumPrefix(w + t) == NonAlnumPrefix(w) < |w|
  {
    if !IsAlnum(w[0]) {
      assert (w + t)[1..] == w[1..] + t;
      NonAlnumPrefixAppend(w[1..], t);
    }
  }

  /** Text that ends in a letter or digit is converted independently of what follows it. */
  lemma {:induction false} CamelFromAppend(w: string, t: string)
    requires w == [] || IsAlnum(w[|w| - 1])
    ensures CamelFrom(w + t) == CamelFrom(w) + CamelFrom(t)
    decreases |w|
  {
    if w == [] {
      assert w + t == t;
    } else if IsAlnum(w[0]) {
      assert (w + t)[0] == w[0] && (w + t)[1..] == w[1..] + t;
      CamelFromAppend(w[1..], t);
    } else {
      CamelRunAppend(w, t);
      CamelFromAppend(w[NonAlnumPrefix(w) + 1..], t);
    }
  }

  /** A leading run of `w` and the character after it are one match, in `w` and in `w + t` alike. */
  lemma CamelRunAppend(w: string, t: string)
    requires w != [] && !IsAlnum(w[0]) && IsAlnum(w[|w| - 1])
    ensures NonAlnumPrefix(w) < |w|
    ensures CamelFrom(w) == [UpperChar(w[NonAlnumPrefix(w)])] + CamelFrom(w[NonAlnumPrefix(w) + 1..])
    ensures CamelFrom(w + t) == [UpperChar(w[NonAlnumPrefix(w)])] + CamelFrom(w[NonAlnumPrefix(w) + 1..] + t)
  {
    var e := NonAlnumPrefix(w);
    NonAlnumPrefixAppend(w, t);
    assert (w + t)[0] == w[0];
    assert (w + t)[e] == w[e] && (w + t)[e + 1..] == w[e + 1..] + t;
  }

  lemma {:induction false} NonAlnumPrefixAll(t: string)
    requires forall i :: 0 <= i < |t| ==> !IsAlnum(t[i])
    ensures NonAlnumPrefix(t) == |t|
  {
    if t != [] {
      NonAlnumPrefixAll(t[1..]);
    }
  }

  /**
   * A trailing run of characters that are not letters or digits, ending in
   * one that is not a line terminator, leaves exactly its last character
   * behind.
   */
  lemma CamelTrailing(w: string, t: string)
    requires w == [] || IsAlnum(w[|w| - 1])
    requires t != [] && forall i :: 0 <= i < |t| ==> !IsAlnum(t[i])
    requires !IsLineTerminator(t[|t| - 1])
    ensures CamelFrom(w + t) == CamelFrom(w) + [t[|t| - 1]]
  {
    CamelFromAppend(w, t);
    NonAlnumPrefixAll(t);
    assert CamelFrom(t) == [t[|t| - 1]];
  }

  /** `"hi yo"` becomes `"hiYo"`, and `"hi yo  "` becomes `"hiYo "`: the trailing `"  "` leaves one space behind. */
  lemma CamelExample()
    ensures Camel("hi yo") == "hiYo"
    ensures Camel("hi yo  ") == "hiYo "
  {
    assert Lower("hi yo") == "hi yo";
    assert Lower("hi yo  ") == "hi yo" + "  ";
    CamelFromRef("hi yo");
    assert CamelRef("hi yo", false) == "hiYo";
    CamelTrailing("hi yo", "  ");
  }
}

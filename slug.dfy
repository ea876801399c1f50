/**
 * The `snake` and `kebab` conversions: the input is lower-cased, every run
 * of whitespace (`/\s+/g`) becomes one separator, and then every character
 * that is neither a letter, a digit nor the separator is deleted. `snake`
 * uses `_`, `kebab` uses `-`.
 */
module Slug {
  import opened Ascii
  import opened Strings

  /** The two separators the program uses. */
  predicate IsSeparator(sep: char) { sep == '_' || sep == '-' }

  /** `t.replace(/\s+/g, sep)`: each maximal run of whitespace becomes one `sep`. */
  function CollapseSpaces(t: string, sep: char): (r: string)
    decreases |t|
  {
    if t == [] then []
    else if IsSpace(t[0]) then [sep] + CollapseSpaces(t[SpacePrefix(t)..], sep)
    else [t[0]] + CollapseSpaces(t[1..], sep)
  }

  /** `t.replace(/[^a-zA-Z0-9_]/g, '')` for `_`, and likewise for `-`: keep letters, digits and `sep`. */
  function KeepSlug(t: string, sep: char): (r: string)
  {
    if t == [] then [] else (if IsAlnum(t[0]) || t[0] == sep then [t[0]] else []) + KeepSlug(t[1..], sep)
  }

  /** The pipeline both conversions share. */
  function Slugify(s: string, sep: char): (r: string)
  {
    KeepSlug(CollapseSpaces(Lower(s), sep), sep)
  }

  /** The `snake` conversion. */
  function Snake(s: string): (r: string) { Slugify(s, '_') }

  /** The `kebab` conversion. */
  function Kebab(s: string): (r: string) { Slugify(s, '-') }

  lemma {:induction false} SpacePrefixAppend(a: string, b: string)
    ensures SpacePrefix(a) < |a| ==> SpacePrefix(a + b) == SpacePrefix(a)
    ensures SpacePrefix(a) == |a| && (b == [] || !IsSpace(b[0])) ==> SpacePrefix(a + b) == |a|
  {
    if a == [] {
      assert a + b == b;
    } else if IsSpace(a[0]) {
      assert (a + b)[1..] == a[1..] + b;
      SpacePrefixAppend(a[1..], b);
    }
  }

  /** A run of whitespace that ends where `a` ends, or where `b` begins, is not merged across the boundary. */
  lemma {:induction false} CollapseAppend(a: string, b: string, sep: char)
    requires a == [] || b == [] || !IsSpace(a[|a| - 1]) || !IsSpace(b[0])
    ensures CollapseSpaces(a + b, sep) == CollapseSpaces(a, sep) + CollapseSpaces(b, sep)
    decreases |a|
  {
    if a == [] {
      assert a + b == b;
    } else if !IsSpace(a[0]) {
      assert (a + b)[0] == a[0] && (a + b)[1..] == a[1..] + b;
      CollapseAppend(a[1..], b, sep);
    } else {
      var k := SpacePrefix(a);
      SpacePrefixAppend(a, b);
      SpacePrefixRun(a);
      if k < |a| {
        assert (a + b)[k..] == a[k..] + b;
        CollapseAppend(a[k..], b, sep);
      } else {
        assert (a + b)[k..] == b;
      }
    }
  }

  lemma {:induction false} KeepSlugAppend(a: string, b: string, sep: char)
    ensures KeepSlug(a + b, sep) == KeepSlug(a, sep) + KeepSlug(b, sep)
  {
    if a == [] {
      assert a + b == b;
    } else {
      var h := if IsAlnum(a[0]) || a[0] == sep then [a[0]] else [];
      assert (a + b)[0] == a[0] && (a + b)[1..] == a[1..] + b;
      assert KeepSlug(a + b, sep) == h + KeepSlug(a[1..] + b, sep);
      KeepSlugAppend(a[1..], b, sep);
      assert KeepSlug(a, sep) == h + KeepSlug(a[1..], sep);
    }
  }

  /**
   * The conversions work piece by piece as long as no whitespace run is cut
   * in two: split the input anywhere but inside a run of whitespace.
   */
  lemma SlugAppend(a: string, b: string, sep: char)
    requires a == [] || b == [] || !IsSpace(a[|a| - 1]) || !IsSpace(b[0])
    ensures Slugify(a + b, sep) == Slugify(a, sep) + Slugify(b, sep)
  {
    LowerAppend(a, b);
    CollapseAppend(Lower(a), Lower(b), sep);
    KeepSlugAppend(CollapseSpaces(Lower(a), sep), CollapseSpaces(Lower(b), sep), sep);
  }

  /** What becomes of one character: whitespace becomes the separator, a letter or digit is lower-cased, the separator stays, all else goes. */
  lemma SlugChar(c: char, sep: char)
    requires IsSeparator(sep)
    ensures IsSpace(c) ==> Slugify([c], sep) == [sep]
    ensures IsAlnum(c) ==> Slugify([c], sep) == [LowerChar(c)]
    ensures c == sep ==> Slugify([c], sep) == [sep]
    ensures !IsSpace(c) && !IsAlnum(c) && c != sep ==> Slugify([c], sep) == []
  {
    var l := [LowerChar(c)];
    assert Lower([c]) == l;
    assert l[1..] == [];
    if IsSpace(c) {
      assert SpacePrefix(l) == 1;
      assert CollapseSpaces(l, sep) == [sep] + CollapseSpaces([], sep);
      assert KeepSlug([sep], sep) == [sep] + KeepSlug([], sep);
    } else {
      assert CollapseSpaces(l, sep) == l + CollapseSpaces([], sep);
      assert KeepSlug(l, sep) == (if IsAlnum(l[0]) || l[0] == sep then l else []) + KeepSlug([], sep);
    }
  }

  /** A whole run of whitespace, however long, becomes a single separator. */
  lemma SlugSpaceRun(g: string, sep: char)
    requires IsSeparator(sep)
    requires g != [] && forall i :: 0 <= i < |g| ==> IsSpace(g[i])
    ensures Slugify(g, sep) == [sep]
  {
    var l := Lower(g);
    SpacePrefixAll(l);
    assert l[|l|..] == [];
    assert CollapseSpaces(l, sep) == [sep] + CollapseSpaces([], sep);
    assert KeepSlug([sep], sep) == [sep] + KeepSlug([], sep);
  }

  /** A word of letters and digits is only lower-cased. */
  lemma SlugWord(w: string, sep: char)
    requires IsSeparator(sep)
    requires forall i :: 0 <= i < |w| ==> IsAlnum(w[i])
    ensures Slugify(w, sep) == Lower(w)
  {
    CollapseNoSpace(Lower(w), sep);
    KeepSlugKeeps(Lower(w), sep);
  }

  lemma {:induction false} SpacePrefixAll(t: string)
    requires forall i :: 0 <= i < |t| ==> IsSpace(t[i])
    ensures SpacePrefix(t) == |t|
  {
    if t != [] {
      SpacePrefixAll(t[1..]);
    }
  }

  lemma {:induction false} CollapseChars(t: string, sep: char)
    ensures forall k :: 0 <= k < |CollapseSpaces(t, sep)| ==> CollapseSpaces(t, sep)[k] == sep || CollapseSpaces(t, sep)[k] in t
    decreases |t|
  {
    if t != [] {
      var n := if IsSpace(t[0]) then SpacePrefix(t) else 1;
      CollapseChars(t[n..], sep);
      assert forall c :: c in t[n..] ==> c in t;
    }
  }

  lemma {:induction false} KeepSlugChars(t: string, sep: char)
    ensures forall k :: 0 <= k < |KeepSlug(t, sep)| ==> (IsAlnum(KeepSlug(t, sep)[k]) || KeepSlug(t, sep)[k] == sep) && KeepSlug(t, sep)[k] in t
  {
    if t != [] {
      KeepSlugChars(t[1..], sep);
      assert forall c :: c in t[1..] ==> c in t;
    }
  }

  /** The result holds only lower-case letters, digits and the separator. */
  lemma SlugAlphabet(s: string, sep: char)
    requires IsSeparator(sep)
    ensures forall k :: 0 <= k < |Slugify(s, sep)| ==>
      IsLower(Slugify(s, sep)[k]) || IsDigit(Slugify(s, sep)[k]) || Slugify(s, sep)[k] == sep
  {
    var l := Lower(s);
    var t := CollapseSpaces(l, sep);
    LowerAlphabet(s);
    CollapseChars(l, sep);
    KeepSlugChars(t, sep);
    assert forall c :: c in l ==> !IsUpper(c);
  }

  lemma {:induction false} KeepAlnumSkip(t: string, k: nat)
    requires k <= |t|
    requires forall i :: 0 <= i < k ==> !IsAlnum(t[i])
    ensures KeepAlnum(t) == KeepAlnum(t[k..])
  {
    if k > 0 {
      KeepAlnumSkip(t[1..], k - 1);
      assert t[1..][k - 1..] == t[k..];
    }
  }

  lemma {:induction false} KeepAlnumCollapse(t: string, sep: char)
    requires !IsAlnum(sep)
    ensures KeepAlnum(CollapseSpaces(t, sep)) == KeepAlnum(t)
    decreases |t|
  {
    if t != [] {
      if IsSpace(t[0]) {
        var k := SpacePrefix(t);
        SpacePrefixRun(t);
        KeepAlnumSkip(t, k);
        KeepAlnumCollapse(t[k..], sep);
      } else {
        KeepAlnumCollapse(t[1..], sep);
      }
    }
  }

  lemma {:induction false} KeepAlnumKeepSlug(t: string, sep: char)
    ensures KeepAlnum(KeepSlug(t, sep)) == KeepAlnum(t)
  {
    if t != [] {
      KeepAlnumKeepSlug(t[1..], sep);
      KeepAlnumAppend(if IsAlnum(t[0]) || t[0] == sep then [t[0]] else [], KeepSlug(t[1..], sep));
    }
  }

  /** No letter or digit is lost or reordered: they are those of the lower-cased input. */
  lemma SlugLetters(s: string, sep: char)
    requires IsSeparator(sep)
    ensures KeepAlnum(Slugify(s, sep)) == KeepAlnum(Lower(s))
  {
    KeepAlnumKeepSlug(CollapseSpaces(Lower(s), sep), sep);
    KeepAlnumCollapse(Lower(s), sep);
  }

  lemma {:induction false} CollapseNoSpace(t: string, sep: char)
    requires forall i :: 0 <= i < |t| ==> !IsSpace(t[i])
    ensures CollapseSpaces(t, sep) == t
  {
    if t != [] {
      CollapseNoSpace(t[1..], sep);
    }
  }

  lemma {:induction false} KeepSlugKeeps(t: string, sep: char)
    requires forall i :: 0 <= i < |t| ==> IsAlnum(t[i]) || t[i] == sep
    ensures KeepSlug(t, sep) == t
  {
    if t != [] {
      KeepSlugKeeps(t[1..], sep);
    }
  }

  /** Converting a converted text again changes nothing. */
  lemma SlugIdempotent(s: string, sep: char)
    requires IsSeparator(sep)
    ensures Slugify(Slugify(s, sep), sep) == Slugify(s, sep)
  {
    var r := Slugify(s, sep);
    SlugAlphabet(s, sep);
    LowerAlphabet(r);
    CollapseNoSpace(r, sep);
    KeepSlugKeeps(r, sep);
  }

  /** `"Hi yo"` becomes `"hi_yo"`. */
  lemma SnakeExample()
    ensures Snake("Hi yo") == "hi_yo"
  {
    assert Lower("yo") == "yo";
    SlugWord("yo", '_');
    SnakePrefix();
    SlugAppend("Hi ", "yo", '_');
    assert "Hi " + "yo" == "Hi yo";
    assert Slugify("Hi yo", '_') == "hi_" + "yo";
  }

  lemma SnakePrefix()
    ensures Slugify("Hi ", '_') == "hi_"
  {
    assert Lower("Hi") == "hi";
    SlugWord("Hi", '_');
    SlugChar(' ', '_');
    SlugAppend("Hi", " ", '_');
    assert "Hi" + " " == "Hi ";
  }

  lemma KebabPrefix()
    ensures Slugify("Hi, ", '-') == "hi-"
  {
    assert Lower("Hi") == "hi";
    SlugWord("Hi", '-');
    SlugChar(',', '-');
    SlugChar(' ', '-');
    SlugAppend("Hi", ",", '-');
    assert "Hi" + "," == "Hi,";
    assert Slugify("Hi,", '-') == "hi";
    SlugAppend("Hi,", " ", '-');
    assert "Hi," + " " == "Hi, ";
  }

  /** `"Hi, yo"` becomes `"hi-yo"`. */
  lemma KebabExample()
    ensures Kebab("Hi, yo") == "hi-yo"
  {
    assert Lower("yo") == "yo";
    SlugWord("yo", '-');
    KebabPrefix();
    SlugAppend("Hi, ", "yo", '-');
    assert "Hi, " + "yo" == "Hi, yo";
    assert Slugify("Hi, yo", '-') == "hi-" + "yo";
  }
}

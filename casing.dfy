/**
 * The conversions that work character by character or word by word on the
 * whole input: `title`, `alternating`, `inverse`, `vaporwave` and
 * `leetspeak`.
 */
module Casing {
  import opened Ascii
  import opened Strings

  // ----- title -----------------------------------------------------------

  /** `word.charAt(0).toUpperCase() + word.slice(1)`; the empty word stays empty. */
  function Capitalize(w: string): (r: string)
  {
    if w == [] then [] else [UpperChar(w[0])] + w[1..]
  }

  /** `words.map(word => ...)` with `Capitalize`. */
  function CapitalizeEach(words: seq<string>): (r: seq<string>)
  {
    seq(|words|, i requires 0 <= i < |words| => Capitalize(words[i]))
  }

  /** The `title` conversion: lower-case, split at each space, capitalize every piece, join with spaces. */
  function Title(s: string): (r: string)
  {
    Join(CapitalizeEach(Split(Lower(s), ' ')), " ")
  }

  /**
   * Title case read character by character: the character at the start (when
   * `atStart`) and every character right after a space is upper-cased, every
   * other character is copied.
   */
  function TitleRef(l: string, atStart: bool): (r: string)
  {
    if l == [] then [] else [if atStart then UpperChar(l[0]) else l[0]] + TitleRef(l[1..], l[0] == ' ')
  }

  /** The split-map-join pipeline on `l`, with its first piece capitalized only when `atStart`. */
  function Pipeline(l: string, atStart: bool): (r: string)
  {
    var pieces := Split(l, ' ');
    Join([if atStart then Capitalize(pieces[0]) else pieces[0]] + CapitalizeEach(pieces[1..]), " ")
  }

  /** The split-map-join pipeline computes `TitleRef`, whether or not its first piece is capitalized. */
  lemma {:induction false} TitlePipeline(l: string, atStart: bool)
    ensures Pipeline(l, atStart) == TitleRef(l, atStart)
  {
    if l == [] {
      var pieces := Split(l, ' ');
      assert pieces == [[]];
      assert CapitalizeEach(pieces[1..]) == [];
    } else if l[0] == ' ' {
      TitlePipeline(l[1..], true);
      SpaceStep(l, atStart);
    } else {
      TitlePipeline(l[1..], false);
      LetterStep(l, atStart);
    }
  }

  /** A leading space ends an empty piece, and the next piece is capitalized. */
  lemma SpaceStep(l: string, atStart: bool)
    requires l != [] && l[0] == ' '
    ensures Pipeline(l, atStart) == " " + Pipeline(l[1..], true)
  {
    var pieces := Split(l, ' ');
    var rest := Split(l[1..], ' ');
    var tail := [Capitalize(rest[0])] + CapitalizeEach(rest[1..]);
    assert CapitalizeEach(rest) == tail;
    assert pieces == [[]] + rest;
    assert pieces[1..] == rest;
    assert Join([[]] + tail, " ") == [] + " " + Join(tail, " ");
  }

  /** Any other leading character starts the first piece. */
  lemma LetterStep(l: string, atStart: bool)
    requires l != [] && l[0] != ' '
    ensures Pipeline(l, atStart) == [if atStart then UpperChar(l[0]) else l[0]] + Pipeline(l[1..], false)
  {
    var pieces := Split(l, ' ');
    var rest := Split(l[1..], ' ');
    assert pieces == [[l[0]] + rest[0]] + rest[1..];
    var x := [if atStart then UpperChar(l[0]) else l[0]];
    var parts := [rest[0]] + CapitalizeEach(rest[1..]);
    assert parts[0] == rest[0] && parts[1..] == CapitalizeEach(rest[1..]);
    assert (if atStart then Capitalize(pieces[0]) else pieces[0]) == x + rest[0];
    JoinPrefixFirst(x, parts, " ");
  }

  /** Position by position, `TitleRef` upper-cases the start and what follows a space. */
  lemma {:induction false} TitleRefAt(l: string, atStart: bool)
    ensures |TitleRef(l, atStart)| == |l|
    ensures forall i :: 0 <= i < |l| ==>
      TitleRef(l, atStart)[i] == if (i == 0 && atStart) || (0 < i && l[i - 1] == ' ') then UpperChar(l[i]) else l[i]
  {
    if l != [] {
      TitleRefAt(l[1..], l[0] == ' ');
      var r := TitleRef(l, atStart);
      forall i | 1 <= i < |l|
        ensures r[i] == if l[i - 1] == ' ' then UpperChar(l[i]) else l[i]
      {
        assert r[i] == TitleRef(l[1..], l[0] == ' ')[i - 1];
      }
    }
  }

  /** `title` is `TitleRef` of the lower-cased input. */
  lemma TitleIsRef(s: string)
    ensures Title(s) == TitleRef(Lower(s), true)
  {
    var pieces := Split(Lower(s), ' ');
    assert [Capitalize(pieces[0])] + CapitalizeEach(pieces[1..]) == CapitalizeEach(pieces);
    assert Title(s) == Pipeline(Lower(s), true);
    TitlePipeline(Lower(s), true);
  }

  /**
   * `title` keeps the length, upper-cases the first character and every
   * character right after a space (only U+0020 counts), and lower-cases every
   * other character.
   */
  lemma TitleAt(s: string)
    ensures |Title(s)| == |s|
    ensures forall i :: 0 <= i < |s| ==>
      Title(s)[i] == if i == 0 || s[i - 1] == ' ' then UpperChar(s[i]) else LowerChar(s[i])
  {
    var l := Lower(s);
    TitleIsRef(s);
    TitleRefAt(l, true);
    forall i | 0 <= i < |s| ensures UpperChar(l[i]) == UpperChar(s[i]) {
      CaseOfCase(s[i]);
    }
    forall j | 0 <= j < |s| ensures l[j] == ' ' <==> s[j] == ' ' {
    }
  }

  /** Lower-casing undoes `TitleRef` on text without upper-case letters. */
  lemma LowerTitleRef(l: string, atStart: bool)
    requires forall i :: 0 <= i < |l| ==> !IsUpper(l[i])
    ensures Lower(TitleRef(l, atStart)) == l
  {
    TitleRefAt(l, atStart);
    forall i | 0 <= i < |l| ensures Lower(TitleRef(l, atStart))[i] == l[i] {
      CaseOfCase(l[i]);
    }
  }

  /** Applying `title` to its own output changes nothing. */
  lemma TitleIdempotent(s: string)
    ensures Title(Title(s)) == Title(s)
  {
    var l := Lower(s);
    LowerAlphabet(s);
    TitleIsRef(s);
    LowerTitleRef(l, true);
    TitleIsRef(Title(s));
  }

  lemma TitleExample()
    ensures Title("hi yo") == "Hi Yo"
  {
    TitleIsRef("hi yo");
    assert Lower("hi yo") == "hi yo";
  }

  // ----- alternating -----------------------------------------------------

  /** `.map((char, i) => i % 2 === 0 ? char.toLowerCase() : char.toUpperCase())`. */
  function AlternateEach(chars: seq<string>): (r: seq<string>)
  {
    seq(|chars|, i requires 0 <= i < |chars| => if i % 2 == 0 then Lower(chars[i]) else Upper(chars[i]))
  }

  /** The `alternating` conversion: split into characters, alternate the case by index, join. */
  function Alternating(s: string): (r: string)
  {
    Join(AlternateEach(Chars(s)), [])
  }

  /** `alternating` keeps the length, lower-cases even positions and upper-cases odd ones. */
  lemma AlternatingAt(s: string)
    ensures |Alternating(s)| == |s|
    ensures forall i :: 0 <= i < |s| ==> Alternating(s)[i] == if i % 2 == 0 then LowerChar(s[i]) else UpperChar(s[i])
  {
    var pieces := AlternateEach(Chars(s));
    forall k | 0 <= k < |pieces|
      ensures |pieces[k]| == 1 && pieces[k][0] == if k % 2 == 0 then LowerChar(s[k]) else UpperChar(s[k])
    {
    }
    JoinSingletons(pieces);
  }

  /**
   * No upper-case letter is left at an even position and no lower-case one at
   * an odd position; the output depends on the input only up to case, and
   * `alternating` is idempotent.
   */
  lemma AlternatingCase(s: string)
    ensures |Alternating(s)| == |s|
    ensures forall i :: 0 <= i < |s| && i % 2 == 0 ==> !IsUpper(Alternating(s)[i])
    ensures forall i :: 0 <= i < |s| && i % 2 == 1 ==> !IsLower(Alternating(s)[i])
    ensures Alternating(Lower(s)) == Alternating(s)
    ensures Alternating(Upper(s)) == Alternating(s)
    ensures Alternating(Alternating(s)) == Alternating(s)
  {
    var a := Alternating(s);
    AlternatingAt(s);
    AlternatingAt(Lower(s));
    AlternatingAt(Upper(s));
    AlternatingAt(a);
    forall i | 0 <= i < |s| ensures Alternating(Lower(s))[i] == a[i] && Alternating(Upper(s))[i] == a[i] && Alternating(a)[i] == a[i] {
      CaseOfCase(s[i]);
    }
  }

  // ----- inverse ---------------------------------------------------------

  /** `char === char.toUpperCase() ? char.toLowerCase() : char.toUpperCase()` on one piece. */
  function Invert(piece: string): (r: string)
  {
    if piece == Upper(piece) then Lower(piece) else Upper(piece)
  }

  function InvertEach(chars: seq<string>): (r: seq<string>)
  {
    seq(|chars|, i requires 0 <= i < |chars| => Invert(chars[i]))
  }

  /** The `inverse` conversion: split into characters, invert each one's case, join. */
  function Inverse(s: string): (r: string)
  {
    Join(InvertEach(Chars(s)), [])
  }

  /** `inverse` keeps the length, swaps the case of every letter and copies every other character. */
  lemma InverseAt(s: string)
    ensures |Inverse(s)| == |s|
    ensures forall i :: 0 <= i < |s| && IsUpper(s[i]) ==> Inverse(s)[i] == LowerChar(s[i]) && IsLower(Inverse(s)[i])
    ensures forall i :: 0 <= i < |s| && IsLower(s[i]) ==> Inverse(s)[i] == UpperChar(s[i]) && IsUpper(Inverse(s)[i])
    ensures forall i :: 0 <= i < |s| && !IsLetter(s[i]) ==> Inverse(s)[i] == s[i]
  {
    var pieces := InvertEach(Chars(s));
    forall k | 0 <= k < |pieces|
      ensures |pieces[k]| == 1 && pieces[k][0] == if IsLower(s[k]) then UpperChar(s[k]) else LowerChar(s[k])
    {
      assert Upper([s[k]]) == [UpperChar(s[k])];
      assert Lower([s[k]]) == [LowerChar(s[k])];
      assert [s[k]] == Upper([s[k]]) <==> !IsLower(s[k]);
    }
    JoinSingletons(pieces);
  }

  /** `inverse` undoes itself. */
  lemma InverseInvolution(s: string)
    ensures Inverse(Inverse(s)) == s
  {
    InverseAt(s);
    InverseAt(Inverse(s));
    forall i | 0 <= i < |s| ensures Inverse(Inverse(s))[i] == s[i] {
      CaseOfCase(s[i]);
    }
  }

  lemma InverseExample()
    ensures Inverse("Hello") == "hELLO"
  {
    InverseAt("Hello");
  }

  // ----- vaporwave -------------------------------------------------------

  /** The `vaporwave` conversion: split into characters, join with spaces, upper-case. */
  function Vaporwave(s: string): (r: string)
  {
    Upper(Join(Chars(s), " "))
  }

  /**
   * `vaporwave` maps the empty string to itself; otherwise the result has
   * length `2|s| - 1`, the upper case of `s[i]` at position `2i` and a space
   * at every odd position.
   */
  lemma VaporwaveShape(s: string)
    ensures s == [] ==> Vaporwave(s) == []
    ensures s != [] ==> |Vaporwave(s)| == 2 * |s| - 1
    ensures forall i :: 0 <= i < |s| ==> Vaporwave(s)[2 * i] == UpperChar(s[i])
    ensures forall i :: 0 <= i < |s| - 1 ==> Vaporwave(s)[2 * i + 1] == ' '
  {
    JoinSpaced(Chars(s), ' ');
  }

  /** `vaporwave` depends on the input only up to case. */
  lemma VaporwaveCaseBlind(s: string)
    ensures Vaporwave(Lower(s)) == Vaporwave(s)
  {
    VaporwaveShape(s);
    VaporwaveShape(Lower(s));
    var a, b := Vaporwave(Lower(s)), Vaporwave(s);
    forall j | 0 <= j < |a| ensures a[j] == b[j] {
      CaseOfCase(s[j / 2]);
      if j % 2 == 0 {
        assert a[2 * (j / 2)] == b[2 * (j / 2)];
      } else {
        assert a[2 * (j / 2) + 1] == b[2 * (j / 2) + 1];
      }
    }
  }

  // ----- leetspeak -------------------------------------------------------

  /** `.replace(/x/g, y)` for a one-character pattern `x` and a one-character replacement `y`. */
  function ReplaceAll(s: string, x: char, y: char): (r: string)
  {
    seq(|s|, i requires 0 <= i < |s| => if s[i] == x then y else s[i])
  }

  /** The `leetspeak` conversion: lower-case, then seven replacements in the program's order. */
  function Leetspeak(s: string): (r: string)
  {
    var l := Lower(s);
    ReplaceAll(ReplaceAll(ReplaceAll(ReplaceAll(ReplaceAll(ReplaceAll(ReplaceAll(
      l, 'a', '4'), 'e', '3'), 'i', '1'), 'o', '0'), 's', '5'), 't', '7'), 'l', '1')
  }

  /** The substitution table read as one simultaneous map on characters. */
  function LeetChar(c: char): (r: char)
  {
    match c
    case 'a' => '4'
    case 'e' => '3'
    case 'i' => '1'
    case 'o' => '0'
    case 's' => '5'
    case 't' => '7'
    case 'l' => '1'
    case _ => c
  }

  /**
   * The seven passes act as one simultaneous substitution of the lower-cased
   * input: no later pass touches what an earlier one wrote, so their order
   * does not matter.
   */
  lemma LeetspeakAt(s: string)
    ensures |Leetspeak(s)| == |s|
    ensures forall i :: 0 <= i < |s| ==> Leetspeak(s)[i] == LeetChar(LowerChar(s[i]))
  {
    var l := Lower(s);
    var a := ReplaceAll(l, 'a', '4');
    var e := ReplaceAll(a, 'e', '3');
    var i1 := ReplaceAll(e, 'i', '1');
    var o := ReplaceAll(i1, 'o', '0');
    var s5 := ReplaceAll(o, 's', '5');
    var t := ReplaceAll(s5, 't', '7');
  }

  /** `leetspeak` leaves no upper-case letter and none of `a e i o s t l`, and is idempotent. */
  lemma LeetspeakIdempotent(s: string)
    ensures forall i :: 0 <= i < |s| ==> !IsUpper(Leetspeak(s)[i]) && Leetspeak(s)[i] !in "aeiostl"
    ensures Leetspeak(Leetspeak(s)) == Leetspeak(s)
  {
    var r := Leetspeak(s);
    LeetspeakAt(s);
    LeetspeakAt(r);
    forall i | 0 <= i < |s| ensures Leetspeak(r)[i] == r[i] {
      CaseOfCase(s[i]);
    }
  }

  lemma LeetspeakExample()
    ensures Leetspeak("Leet") == "1337"
  {
    LeetspeakAt("Leet");
  }
}

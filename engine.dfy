/**
 * `convertCase`: the selector string chooses one of thirteen conversions of
 * the input; any other string leaves the input as it is.
 */
module Engine {
  import Ascii
  import Casing
  import Sentences
  import Camel
  import Slug
  import Morse

  /** The conversions the switch knows, and any other selector string. */
  datatype Selector =
    | UpperCase | LowerCase | TitleCase | SentenceCase | CamelCase | SnakeCase | KebabCase
    | AlternatingCase | InverseCase | LeetspeakCase | VaporwaveCase | MorseCase | MorseDecodeCase
    | Other(name: string)

  /** The thirteen selector strings of the switch. */
  predicate IsKnownName(kind: string)
  {
    kind in ["upper", "lower", "title", "sentence", "camel", "snake", "kebab",
             "alternating", "inverse", "leetspeak", "vaporwave", "morse", "morse-decode"]
  }

  /** The selector string of each conversion. */
  function NameOf(sel: Selector): (kind: string)
    ensures sel.Other? || IsKnownName(kind)
  {
    match sel
    case UpperCase => "upper"
    case LowerCase => "lower"
    case TitleCase => "title"
    case SentenceCase => "sentence"
    case CamelCase => "camel"
    case SnakeCase => "snake"
    case KebabCase => "kebab"
    case AlternatingCase => "alternating"
    case InverseCase => "inverse"
    case LeetspeakCase => "leetspeak"
    case VaporwaveCase => "vaporwave"
    case MorseCase => "morse"
    case MorseDecodeCase => "morse-decode"
    case Other(n) => n
  }

  /** Which `case` of the switch a selector string reaches. */
  function SelectorOf(kind: string): (sel: Selector)
    ensures sel.Other? <==> !IsKnownName(kind)
    ensures NameOf(sel) == kind
  {
    if kind == "upper" then UpperCase
    else if kind == "lower" then LowerCase
    else if kind == "title" then TitleCase
    else if kind == "sentence" then SentenceCase
    else if kind == "camel" then CamelCase
    else if kind == "snake" then SnakeCase
    else if kind == "kebab" then KebabCase
    else if kind == "alternating" then AlternatingCase
    else if kind == "inverse" then InverseCase
    else if kind == "leetspeak" then LeetspeakCase
    else if kind == "vaporwave" then VaporwaveCase
    else if kind == "morse" then MorseCase
    else if kind == "morse-decode" then MorseDecodeCase
    else Other(kind)
  }

  /** Naming a conversion and looking the name up again gives the conversion back. */
  lemma SelectorRoundTrip(sel: Selector)
    requires sel.Other? ==> !IsKnownName(sel.name)
    ensures SelectorOf(NameOf(sel)) == sel
  {
  }

  /** The output of a conversion, with the Morse tables as a parameter. */
  function Apply(t: Morse.Tables, sel: Selector, s: string): (r: string)
  {
    match sel
    case UpperCase => Ascii.Upper(s)
    case LowerCase => Ascii.Lower(s)
    case TitleCase => Casing.Title(s)
    case SentenceCase => Sentences.Sentence(s)
    case CamelCase => Camel.Camel(s)
    case SnakeCase => Slug.Snake(s)
    case KebabCase => Slug.Kebab(s)
    case AlternatingCase => Casing.Alternating(s)
    case InverseCase => Casing.Inverse(s)
    case LeetspeakCase => Casing.Leetspeak(s)
    case VaporwaveCase => Casing.Vaporwave(s)
    case MorseCase => Morse.Encode(t, s)
    case MorseDecodeCase => Morse.Decode(t, s)
    case Other(_) => s
  }

  /** `convertCase(type)` on the input `s`: the text it sets as the output. */
  function ConvertCase(s: string, kind: string): (r: string)
  {
    Apply(Morse.Standard, SelectorOf(kind), s)
  }

  /** A selector string the switch does not know leaves the input unchanged. */
  lemma OtherIsIdentity(s: string, kind: string)
    requires !IsKnownName(kind)
    ensures ConvertCase(s, kind) == s
  {
  }

  /** Every conversion turns the empty input into the empty output. */
  lemma EmptyInput(t: Morse.Tables, sel: Selector)
    requires Morse.WellFormed(t)
    ensures Apply(t, sel, []) == []
  {
    match sel
    case TitleCase => Casing.TitleAt([]);
    case SentenceCase => Sentences.SentenceAt([]);
    case CamelCase => assert Ascii.Lower([]) == [];
    case SnakeCase => assert Ascii.Lower([]) == [];
    case KebabCase => assert Ascii.Lower([]) == [];
    case AlternatingCase => Casing.AlternatingAt([]);
    case InverseCase => Casing.InverseAt([]);
    case LeetspeakCase => Casing.LeetspeakAt([]);
    case VaporwaveCase => Casing.VaporwaveShape([]);
    case MorseCase => Morse.EmptyMessage(t);
    case MorseDecodeCase => Morse.EmptyMessage(t);
    case _ =>
  }

  lemma StandardEmptyInput(kind: string)
    ensures ConvertCase([], kind) == []
  {
    Morse.StandardWellFormed();
    EmptyInput(Morse.Standard, SelectorOf(kind));
  }

  /** The conversions that map character for character. */
  predicate KeepsLength(sel: Selector)
  {
    sel.UpperCase? || sel.LowerCase? || sel.TitleCase? || sel.SentenceCase? ||
    sel.AlternatingCase? || sel.InverseCase? || sel.LeetspeakCase? || sel.Other?
  }

  /** Those conversions keep the length of the input; `camel` never makes it longer. */
  lemma LengthKept(t: Morse.Tables, sel: Selector, s: string)
    ensures KeepsLength(sel) ==> |Apply(t, sel, s)| == |s|
    ensures sel.CamelCase? ==> |Apply(t, sel, s)| <= |s|
  {
    match sel
    case TitleCase => Casing.TitleAt(s);
    case SentenceCase => Sentences.SentenceAt(s);
    case AlternatingCase => Casing.AlternatingAt(s);
    case InverseCase => Casing.InverseAt(s);
    case LeetspeakCase => Casing.LeetspeakAt(s);
    case _ =>
  }

  /** The conversions whose first step is to lower-case the input, or which ignore its case. */
  predicate CaseBlind(sel: Selector)
  {
    !(sel.InverseCase? || sel.MorseDecodeCase? || sel.Other?)
  }

  /** Those conversions give the same output for the input in any case. */
  lemma CaseBlindness(t: Morse.Tables, sel: Selector, s: string)
    requires CaseBlind(sel)
    ensures Apply(t, sel, Ascii.Lower(s)) == Apply(t, sel, s)
    ensures Apply(t, sel, Ascii.Upper(s)) == Apply(t, sel, s)
  {
    Ascii.CaseIdempotent(s);
    LowerBlind(t, sel, s);
    LowerBlind(t, sel, Ascii.Upper(s));
  }

  lemma LowerBlind(t: Morse.Tables, sel: Selector, s: string)
    requires CaseBlind(sel)
    ensures Apply(t, sel, Ascii.Lower(s)) == Apply(t, sel, s)
  {
    Ascii.CaseIdempotent(s);
    match sel
    case AlternatingCase => Casing.AlternatingCase(s);
    case VaporwaveCase => Casing.VaporwaveCaseBlind(s);
    case _ =>
  }

  /** The conversions that are idempotent. */
  predicate Idempotent(sel: Selector)
  {
    sel.UpperCase? || sel.LowerCase? || sel.TitleCase? || sel.SentenceCase? ||
    sel.SnakeCase? || sel.KebabCase? || sel.AlternatingCase? || sel.LeetspeakCase? || sel.Other?
  }

  /** Applying one of those twice is applying it once; `inverse` twice gives the input back. */
  lemma ApplyTwice(t: Morse.Tables, sel: Selector, s: string)
    ensures Idempotent(sel) ==> Apply(t, sel, Apply(t, sel, s)) == Apply(t, sel, s)
    ensures sel.InverseCase? ==> Apply(t, sel, Apply(t, sel, s)) == s
  {
    match sel
    case UpperCase => Ascii.CaseIdempotent(s);
    case LowerCase => Ascii.CaseIdempotent(s);
    case TitleCase => Casing.TitleIdempotent(s);
    case SentenceCase => Sentences.SentenceIdempotent(s);
    case SnakeCase => Slug.SlugIdempotent(s, '_');
    case KebabCase => Slug.SlugIdempotent(s, '-');
    case AlternatingCase => Casing.AlternatingCase(s);
    case InverseCase => Casing.InverseInvolution(s);
    case LeetspeakCase => Casing.LeetspeakIdempotent(s);
    case _ =>
  }

  /** `morse-decode` undoes `morse` on text of letters, digits and spaces, up to case. */
  lemma MorseThroughSwitch(s: string)
    requires forall i :: 0 <= i < |s| ==> Ascii.IsAlnum(s[i]) || s[i] == ' '
    ensures ConvertCase(ConvertCase(s, "morse"), "morse-decode") == Ascii.Lower(s)
  {
    MorseSelectors();
    var e := ConvertCase(s, "morse");
    assert e == Morse.Encode(Morse.Standard, s);
    assert ConvertCase(e, "morse-decode") == Morse.Decode(Morse.Standard, e);
    Morse.MorseRoundTrip(s);
  }

  lemma MorseSelectors()
    ensures SelectorOf("morse") == MorseCase && SelectorOf("morse-decode") == MorseDecodeCase
  {
    assert NameOf(MorseCase) == "morse" && NameOf(MorseDecodeCase) == "morse-decode";
    SelectorRoundTrip(MorseCase);
    SelectorRoundTrip(MorseDecodeCase);
  }
}

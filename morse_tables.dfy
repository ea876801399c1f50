/**
 * The two lookup tables of the `morse` and `morse-decode` conversions, and
 * the facts about their entries that the rest of the model uses.
 *
 * Letters and figures follow International Morse Code (Recommendation
 * ITU-R M.1677-1, Part I, sections 1.1.1 and 1.1.2); the pairing of the space
 * with `/` as a word separator is a convention of this program, not of that
 * recommendation.
 */
module MorseTables {

  /** `textToMorse`: character to code. */
  const TextToMorse: map<char, string> := map[
    'a' := ".-", 'b' := "-...", 'c' := "-.-.", 'd' := "-..", 'e' := ".", 'f' := "..-.",
    'g' := "--.", 'h' := "....", 'i' := "..", 'j' := ".---", 'k' := "-.-", 'l' := ".-..",
    'm' := "--", 'n' := "-.", 'o' := "---", 'p' := ".--.", 'q' := "--.-", 'r' := ".-.",
    's' := "...", 't' := "-", 'u' := "..-", 'v' := "...-", 'w' := ".--", 'x' := "-..-",
    'y' := "-.--", 'z' := "--..", '1' := ".----", '2' := "..---", '3' := "...--",
    '4' := "....-", '5' := ".....", '6' := "-....", '7' := "--...", '8' := "---..",
    '9' := "----.", '0' := "-----", ' ' := "/"
  ]

  /** `morseToText`: code to character. */
  const MorseToText: map<string, char> := map[
    ".-" := 'a', "-..." := 'b', "-.-." := 'c', "-.." := 'd', "." := 'e', "..-." := 'f',
    "--." := 'g', "...." := 'h', ".." := 'i', ".---" := 'j', "-.-" := 'k', ".-.." := 'l',
    "--" := 'm', "-." := 'n', "---" := 'o', ".--." := 'p', "--.-" := 'q', ".-." := 'r',
    "..." := 's', "-" := 't', "..-" := 'u', "...-" := 'v', ".--" := 'w', "-..-" := 'x',
    "-.--" := 'y', "--.." := 'z', ".----" := '1', "..---" := '2', "...--" := '3',
    "....-" := '4', "....." := '5', "-...." := '6', "--..." := '7', "---.." := '8',
    "----." := '9', "-----" := '0', "/" := ' '
  ]

  /** The characters the encoder has a code for: lower-case letters, digits and the space. */
  predicate Encodable(c: char) { 'a' <= c <= 'z' || '0' <= c <= '9' || c == ' ' }

  /** A code of the recommendation: one to five dots and dashes. */
  predicate IsSignal(code: string) {
    1 <= |code| <= 5 && forall k :: 0 <= k < |code| ==> code[k] == '.' || code[k] == '-'
  }

  /**
   * The figures as the recommendation builds them: `1`-`5` are that many dots
   * followed by dashes, `6`-`9` that many minus five dashes followed by dots,
   * and `0` is five dashes.
   */
  function FigureCode(d: char): (code: string)
    requires '0' <= d <= '9'
  {
    var n := d as int - '0' as int;
    if 1 <= n <= 5 then seq(n, _ => '.') + seq(5 - n, _ => '-')
    else if n == 0 then "-----"
    else seq(n - 5, _ => '-') + seq(10 - n, _ => '.')
  }

  // A lookup with a symbolic key in a 37-entry map literal is costly for the
  // solver, so the decoder's entries are checked in groups by code length.

  lemma EncoderInverse(c: char)
    requires c in TextToMorse
    ensures TextToMorse[c] in MorseToText && MorseToText[TextToMorse[c]] == c
  {
  }

  lemma OneSymbolCodesInverse(code: string)
    requires code in MorseToText && |code| == 1
    ensures MorseToText[code] in TextToMorse && TextToMorse[MorseToText[code]] == code
  {
  }

  lemma TwoSignalCodesInverse(code: string)
    requires code in MorseToText && |code| == 2
    ensures MorseToText[code] in TextToMorse && TextToMorse[MorseToText[code]] == code
  {
  }

  lemma ThreeSignalCodesInverse(code: string)
    requires code in MorseToText && |code| == 3
    ensures MorseToText[code] in TextToMorse && TextToMorse[MorseToText[code]] == code
  {
  }

  lemma FourSignalCodesInverse(code: string)
    requires code in MorseToText && |code| == 4
    ensures MorseToText[code] in TextToMorse && TextToMorse[MorseToText[code]] == code
  {
  }

  lemma FiveSignalCodesInverse(code: string)
    requires code in MorseToText && |code| == 5
    ensures MorseToText[code] in TextToMorse && TextToMorse[MorseToText[code]] == code
  {
  }

  /** The encoder's keys are exactly the encodable characters: 26 letters, 10 figures and the space. */
  lemma EncoderKeys(c: char)
    ensures c in TextToMorse <==> Encodable(c)
  {
  }

  /** Every code of the decoder has one to five symbols. */
  lemma CodeLengths(code: string)
    requires code in MorseToText
    ensures 1 <= |code| <= 5
  {
  }

  /** Every code is non-empty and free of spaces. */
  lemma CodeToken(c: char)
    requires c in TextToMorse
    ensures TextToMorse[c] != [] && ' ' !in TextToMorse[c]
  {
  }

  /** Apart from the space's `/`, every code is a signal of the recommendation. */
  lemma CodeIsSignal(c: char)
    requires c in TextToMorse && c != ' '
    ensures IsSignal(TextToMorse[c])
  {
  }

  /** Every figure's code has the recommendation's built form. */
  lemma FigureCodes(d: char)
    requires '0' <= d <= '9'
    ensures TextToMorse[d] == FigureCode(d)
  {
  }

  /** The only one-symbol keys of the decoder are `.`, `-` and `/`. */
  lemma OneSymbolCodes(c: char)
    ensures [c] in MorseToText <==> c == '.' || c == '-' || c == '/'
    ensures "." in MorseToText && MorseToText["."] == 'e' && "-" in MorseToText && "/" in MorseToText && MorseToText["-"] == 't' && MorseToText["/"] == ' '
  {
  }

  /** The codes of the letters of `"sos"`. */
  lemma SosCodes()
    ensures 's' in TextToMorse && TextToMorse['s'] == "..." && 'o' in TextToMorse && TextToMorse['o'] == "---"
    ensures "..." in MorseToText && MorseToText["..."] == 's' && "---" in MorseToText && MorseToText["---"] == 'o'
  {
  }
}

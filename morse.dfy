/**
 * The `morse` and `morse-decode` conversions, stated for any pair of tables
 * and then instantiated with the program's.
 */
module Morse {
  import opened Ascii
  import opened Strings
  import opened MorseTables

  /** The two tables together, as the conversions consult them. */
  datatype Tables = Tables(toMorse: map<char, string>, toText: map<string, char>)

  /** The program's tables. */
  const Standard: Tables := Tables(TextToMorse, MorseToText)

  /**
   * What the round trip needs of a pair of tables: they are inverse to each
   * other, every code is non-empty and free of spaces, and the space has a code.
   */
  predicate WellFormed(t: Tables) {
    && (forall c :: c in t.toMorse ==> t.toMorse[c] in t.toText && t.toText[t.toMorse[c]] == c)
    && (forall code :: code in t.toText ==> t.toText[code] in t.toMorse && t.toMorse[t.toText[code]] == code)
    && (forall c :: c in t.toMorse ==> t.toMorse[c] != [] && ' ' !in t.toMorse[c])
    && ' ' in t.toMorse
  }

  /** The program's tables are exact inverses over all 37 entries, with non-empty, space-free codes. */
  lemma StandardWellFormed()
    ensures WellFormed(Standard)
    ensures forall c :: c in Standard.toMorse <==> Encodable(c)
  {
    forall c ensures c in TextToMorse <==> Encodable(c) {
      EncoderKeys(c);
    }
    forall c | c in TextToMorse ensures TextToMorse[c] in MorseToText && MorseToText[TextToMorse[c]] == c {
      EncoderInverse(c);
    }
    forall code | code in MorseToText ensures MorseToText[code] in TextToMorse && TextToMorse[MorseToText[code]] == code {
      CodeLengths(code);
      if |code| == 1 {
        OneSymbolCodesInverse(code);
      } else if |code| == 2 {
        TwoSignalCodesInverse(code);
      } else if |code| == 3 {
        ThreeSignalCodesInverse(code);
      } else if |code| == 4 {
        FourSignalCodesInverse(code);
      } else {
        FiveSignalCodesInverse(code);
      }
    }
    forall c | c in TextToMorse ensures TextToMorse[c] != [] && ' ' !in TextToMorse[c] {
      CodeToken(c);
    }
  }

  /** `textToMorse[char] || char`: the code of a character, or the character itself when it has none. */
  function EncodeChar(t: Tables, c: char): (token: string)
  {
    if c in t.toMorse then t.toMorse[c] else [c]
  }

  /** `morseToText[code] || code`: the character of a code, or the token itself when it is no code. */
  function DecodeToken(t: Tables, token: string): (r: string)
  {
    if token in t.toText then [t.toText[token]] else token
  }

  /** The encoder's tokens, one per character, before they are joined. */
  function EncodeChars(t: Tables, l: string): (tokens: seq<string>)
  {
    seq(|l|, i requires 0 <= i < |l| => EncodeChar(t, l[i]))
  }

  /** The `morse` conversion: `input.toLowerCase().split('').map(...).join(' ')`. */
  function Encode(t: Tables, s: string): (r: string)
  {
    Join(EncodeChars(t, Lower(s)), " ")
  }

  /** The decoder's pieces, one per token, before they are concatenated. */
  function DecodeTokens(t: Tables, tokens: seq<string>): (pieces: seq<string>)
  {
    seq(|tokens|, i requires 0 <= i < |tokens| => DecodeToken(t, tokens[i]))
  }

  /** The `morse-decode` conversion: `input.split(' ').map(...).join('')`. */
  function Decode(t: Tables, m: string): (r: string)
  {
    Join(DecodeTokens(t, Split(m, ' ')), [])
  }

  /** Every token the encoder writes is non-empty and contains no space. */
  lemma EncodeCharToken(t: Tables, c: char)
    requires WellFormed(t)
    ensures EncodeChar(t, c) != [] && ' ' !in EncodeChar(t, c)
  {
  }

  /** Encoding a non-empty string yields exactly one space-free token per character, in order. */
  lemma {:induction false} EncodeTokens(t: Tables, s: string)
    requires WellFormed(t) && s != []
    ensures Split(Encode(t, s), ' ') == EncodeChars(t, Lower(s))
    ensures |Split(Encode(t, s), ' ')| == |s|
    ensures forall i :: 0 <= i < |s| ==> Split(Encode(t, s), ' ')[i] == EncodeChar(t, LowerChar(s[i]))
    ensures forall i :: 0 <= i < |s| && LowerChar(s[i]) !in t.toMorse ==> Split(Encode(t, s), ' ')[i] == [LowerChar(s[i])]
  {
    var tokens := EncodeChars(t, Lower(s));
    forall k | 0 <= k < |tokens| ensures ' ' !in tokens[k] {
      EncodeCharToken(t, Lower(s)[k]);
    }
    SplitJoin(tokens, ' ');
  }

  /** The empty input encodes to the empty string and, as no code is empty, decodes to it. */
  lemma EmptyMessage(t: Tables)
    requires WellFormed(t)
    ensures Encode(t, []) == []
    ensures Decode(t, []) == []
  {
    assert Lower([]) == [];
    assert Split([], ' ') == [[]];
    assert [] !in t.toText;
    assert DecodeTokens(t, [[]]) == [[]];
  }

  /** A token that is no code is copied through by the decoder; a code gives one encodable character. */
  lemma DecodeTokenPassThrough(t: Tables, token: string)
    requires WellFormed(t)
    ensures token !in t.toText ==> DecodeToken(t, token) == token
    ensures token in t.toText ==> |DecodeToken(t, token)| == 1 && DecodeToken(t, token)[0] in t.toMorse
  {
  }

  /** When no token between the spaces of a message is a code, decoding just deletes the spaces. */
  lemma {:induction false} DecodeWithoutCodes(t: Tables, m: string)
    requires forall k :: 0 <= k < |Split(m, ' ')| ==> Split(m, ' ')[k] !in t.toText
    ensures Decode(t, m) == Remove(m, ' ')
  {
    var tokens := Split(m, ' ');
    assert DecodeTokens(t, tokens) == tokens;
    ConcatSplit(m, ' ');
  }

  /** A character that is not encodable but whose pass-through token is a code. */
  predicate Mistaken(t: Tables, c: char) { c !in t.toMorse && [c] in t.toText }

  /** What one character becomes after encoding and decoding. */
  function RoundTripChar(t: Tables, c: char): (r: char)
    requires WellFormed(t)
    ensures r == c <==> !Mistaken(t, c)
  {
    var token := EncodeChar(t, c);
    if token in t.toText then t.toText[token] else c
  }

  /** Decoding an encoding gives the characters back one by one, each through `RoundTripChar`. */
  lemma {:induction false} DecodeEncodeAt(t: Tables, s: string)
    requires WellFormed(t)
    ensures |Decode(t, Encode(t, s))| == |s|
    ensures forall i :: 0 <= i < |s| ==> Decode(t, Encode(t, s))[i] == RoundTripChar(t, LowerChar(s[i]))
  {
    if s == [] {
      assert Encode(t, s) == [];
      assert Split([], ' ') == [[]];
      assert [] !in t.toText;
    } else {
      var l := Lower(s);
      var tokens := EncodeChars(t, l);
      EncodeTokens(t, s);
      var decoded := DecodeTokens(t, tokens);
      forall k | 0 <= k < |decoded| ensures |decoded[k]| == 1 && decoded[k][0] == RoundTripChar(t, l[k]) {
        DecodeTokenPassThrough(t, tokens[k]);
      }
      JoinSingletons(decoded);
    }
  }

  /** Decoding an encoding gives back the lower-cased input exactly when no lower-cased character is mistaken. */
  lemma {:induction false} DecodeEncodeIff(t: Tables, s: string)
    requires WellFormed(t)
    ensures Decode(t, Encode(t, s)) == Lower(s) <==> forall i :: 0 <= i < |s| ==> !Mistaken(t, LowerChar(s[i]))
  {
    DecodeEncodeAt(t, s);
    if !forall i :: 0 <= i < |s| ==> !Mistaken(t, LowerChar(s[i])) {
      var i :| 0 <= i < |s| && Mistaken(t, LowerChar(s[i]));
      assert Decode(t, Encode(t, s))[i] != Lower(s)[i];
    }
  }

  /** Tables whose only mistaken characters are `.`, `-` and `/`, as with the program's tables. */
  predicate Conventional(t: Tables) {
    && WellFormed(t)
    && forall c :: Mistaken(t, c) <==> c == '.' || c == '-' || c == '/'
  }

  /** With the program's tables the mistaken characters are exactly `.`, `-` and `/`. */
  lemma StandardConventional()
    ensures Conventional(Standard)
  {
    StandardWellFormed();
    forall c ensures Mistaken(Standard, c) <==> c == '.' || c == '-' || c == '/' {
      OneSymbolCodes(c);
      EncoderKeys(c);
    }
  }

  /** Decoding an encoding gives back the lower-cased input exactly when it holds no `.`, `-` or `/`. */
  lemma RoundTripIff(t: Tables, s: string)
    requires Conventional(t)
    ensures Decode(t, Encode(t, s)) == Lower(s) <==> forall i :: 0 <= i < |s| ==> s[i] != '.' && s[i] != '-' && s[i] != '/'
  {
    DecodeEncodeIff(t, s);
    forall i | 0 <= i < |s| ensures Mistaken(t, LowerChar(s[i])) <==> s[i] == '.' || s[i] == '-' || s[i] == '/' {
    }
  }

  lemma NoSignalSymbols(s: string)
    requires forall i :: 0 <= i < |s| ==> IsAlnum(s[i]) || s[i] == ' '
    ensures forall i :: 0 <= i < |s| ==> s[i] != '.' && s[i] != '-' && s[i] != '/'
  {
  }

  /** The round trip on text made only of letters, digits and spaces, the empty string included. */
  lemma RoundTrip(t: Tables, s: string)
    requires Conventional(t)
    requires forall i :: 0 <= i < |s| ==> IsAlnum(s[i]) || s[i] == ' '
    ensures Decode(t, Encode(t, s)) == Lower(s)
  {
    NoSignalSymbols(s);
    RoundTripIff(t, s);
  }

  lemma MorseRoundTrip(s: string)
    requires forall i :: 0 <= i < |s| ==> IsAlnum(s[i]) || s[i] == ' '
    ensures Decode(Standard, Encode(Standard, s)) == Lower(s)
  {
    StandardConventional();
    RoundTrip(Standard, s);
  }

  /** Tables that give `s` the code `...` and `o` the code `---`, both ways. */
  predicate KnowsSos(t: Tables) {
    && 's' in t.toMorse && t.toMorse['s'] == "..." && 'o' in t.toMorse && t.toMorse['o'] == "---"
    && "..." in t.toText && t.toText["..."] == 's' && "---" in t.toText && t.toText["---"] == 'o'
  }

  /** `"sos"` and `"SOS"` encode to `"... --- ..."`. */
  lemma EncodeSosWith(t: Tables)
    requires KnowsSos(t)
    ensures Encode(t, "sos") == "... --- ..."
    ensures Encode(t, "SOS") == "... --- ..."
  {
    assert Lower("sos") == "sos";
    assert Lower("SOS") == "sos";
    assert EncodeChars(t, "sos") == ["...", "---", "..."];
    assert Join(["...", "---", "..."], " ") == "... --- ...";
  }

  /** `"... --- ..."` decodes to `"sos"`. */
  lemma DecodeSosWith(t: Tables)
    requires KnowsSos(t)
    ensures Decode(t, "... --- ...") == "sos"
  {
    assert Join(["s", "o", "s"], []) == "sos";
    var tokens := ["...", "---", "..."];
    assert Join(tokens, " ") == "... --- ...";
    SplitJoin(tokens, ' ');
    assert DecodeTokens(t, tokens) == ["s", "o", "s"];
  }

  /** The program's tables on `"sos"`. */
  lemma MorseSos()
    ensures Encode(Standard, "sos") == "... --- ..."
    ensures Encode(Standard, "SOS") == "... --- ..."
    ensures Decode(Standard, "... --- ...") == "sos"
  {
    SosCodes();
    EncodeSosWith(Standard);
    DecodeSosWith(Standard);
  }

  /** A dot, which has no code, comes back as the letter whose code is a dot. */
  lemma DotWith(t: Tables)
    requires '.' !in t.toMorse && "." in t.toText
    ensures Decode(t, Encode(t, ".")) == [t.toText["."]]
  {
    assert Lower(".") == ".";
    assert EncodeChars(t, ".") == ["."];
    assert Join(["."], " ") == ".";
    SplitWithout(".", ' ');
    assert DecodeTokens(t, ["."]) == [[t.toText["."]]];
  }

  /** With the program's tables a dot comes back as `e`. */
  lemma MorseDot()
    ensures Decode(Standard, Encode(Standard, ".")) == "e"
  {
    OneSymbolCodes('.');
    EncoderKeys('.');
    DotWith(Standard);
  }
}

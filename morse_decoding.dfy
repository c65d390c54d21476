/** The per-line Morse decoder: the body of the coder's `decode` loop for one
    line. `DecodedLine` says what one line emits, piece by piece of the line
    cut at the word separator; `DecodeLine` is the loop over those pieces,
    with an inner loop over the letter codes of each piece, proved to emit
    exactly that. */
module MorseDecoding {
  import opened MorseTables
  import opened JavaStrings

  /** The character of one letter code as a string of zero or one
      characters: nothing when the decode table has no entry for it. */
  function CharOf(m: string): string {
    match DecodeTable(m)
    case Some(c) => [c]
    case None => []
  }

  /** The characters the decode table gives for the codes `letters`, in
      order; codes without an entry, the empty one included, give nothing. */
  function LookupLetters(letters: seq<string>): (r: string)
    ensures |r| <= |letters|
  {
    if letters == [] then "" else LookupLetters(letters[..|letters| - 1]) + CharOf(letters[|letters| - 1])
  }

  /** The word decoded from a non-empty piece: the characters of its codes,
      split at the letter separator, upper-cased. It has at most one
      character per code. */
  function DecodedWord(piece: string): (r: string)
    ensures |r| <= |Split(piece, LetterSeparator)|
  {
    ToUpper(LookupLetters(Split(piece, LetterSeparator)))
  }

  /** Whether the decoder puts a separator after the word decoded from a
      piece: only when the piece is not the last one and the word does not
      end a sentence. */
  predicate FollowedBySeparator(word: string, isLast: bool) {
    !isLast && !EndsWith(word, SentenceEnd)
  }

  /** What the decoder emits for one piece of a line. An empty piece emits
      the letter separator alone; any other piece emits its word, then the
      letter separator when `FollowedBySeparator` holds. So a piece emits one
      or two items: at most one word, first, and letter separators, and the
      last piece is never followed by one. */
  function PieceItems(piece: string, isLast: bool): (r: seq<string>)
    ensures 1 <= |r| <= 2
    ensures forall k :: 0 <= k < |r| ==> r[k] == LetterSeparator || (k == 0 && piece != "")
    ensures isLast && piece != "" ==> r == [DecodedWord(piece)]
  {
    if piece == "" then [LetterSeparator]
    else
      var word := DecodedWord(piece);
      [word] + if FollowedBySeparator(word, isLast) then [LetterSeparator] else []
  }

  /** What the decoder emits for the first `k` of the pieces `pieces`. */
  function PiecesItems(pieces: seq<string>, k: nat): (r: seq<string>)
    requires k <= |pieces|
    ensures k <= |r| <= 2 * k
  {
    if k == 0 then []
    else PiecesItems(pieces, k - 1) + PieceItems(pieces[k - 1], k == |pieces|)
  }

  /** What the decoder emits for one line: the items of each piece of the line
      split at the word separator, one or two per piece. */
  function DecodedLine(line: string): (r: seq<string>)
    ensures var n := |Split(line, WordSeparator)|; n <= |r| <= 2 * n
  {
    var pieces := Split(line, WordSeparator);
    PiecesItems(pieces, |pieces|)
  }

  /** Decodes one line, emitting items in the order the coder emits them. */
  method DecodeLine(line: string) returns (items: seq<string>)
    ensures items == DecodedLine(line)
  {
    var morseWords := Split(line, WordSeparator);
    items := [];
    var i := 0;
    while i < |morseWords|
      invariant 0 <= i <= |morseWords|
      invariant items == PiecesItems(morseWords, i)
    {
      var word := morseWords[i];
      if word == "" {
        items := items + [LetterSeparator];
        i := i + 1;
        continue;
      }
      var morseLetters := Split(word, LetterSeparator);
      var resultWordBuilder := DecodeLetters(morseLetters);
      var resultWord := ToUpper(resultWordBuilder);
      assert resultWord == DecodedWord(word);
      items := items + [resultWord];
      if i != |morseWords| - 1 && !EndsWith(resultWord, SentenceEnd) {
        items := items + [LetterSeparator];
      }
      assert items == PiecesItems(morseWords, i) + PieceItems(word, i + 1 == |morseWords|);
      i := i + 1;
    }
  }

  /** The inner loop of the decoder: looks up each code and appends the
      characters found, skipping codes the table does not hold. */
  method DecodeLetters(morseLetters: seq<string>) returns (resultWord: string)
    ensures resultWord == LookupLetters(morseLetters)
  {
    resultWord := "";
    var j := 0;
    while j < |morseLetters|
      invariant 0 <= j <= |morseLetters|
      invariant resultWord == LookupLetters(morseLetters[..j])
    {
      var character := DecodeTable(morseLetters[j]);
      if character.Some? {
        resultWord := resultWord + [character.value];
      }
      assert morseLetters[..j + 1][..j] == morseLetters[..j];
      j := j + 1;
    }
    assert morseLetters[..j] == morseLetters;
  }

  /** An empty line is one empty piece: the decoder emits a single letter
      separator for it. */
  lemma DecodeEmptyLine()
    ensures DecodedLine("") == [LetterSeparator]
  {
    assert Pieces("", WordSeparator) == [""];
  }

  /** A line that is exactly the word separator splits into no piece at all,
      so the decoder emits nothing for it. */
  lemma DecodeSeparatorLine()
    ensures DecodedLine(WordSeparator) == []
  {
    PiecesStep(WordSeparator, WordSeparator);
    assert IndexOf(WordSeparator, WordSeparator) == 0;
    assert WordSeparator[5..] == "";
    assert Pieces(WordSeparator, WordSeparator) == ["", ""];
  }

  /** The upper-case counterpart of the tables' alphabet. */
  predicate InUpperAlphabet(c: char) {
    'A' <= c <= 'Z' || '0' <= c <= '9' || c == '?' || c == ',' || c == '.'
  }

  /** Every character the decode table gives belongs to the alphabet. */
  lemma {:induction false} LookupLettersInAlphabet(letters: seq<string>)
    ensures forall i :: 0 <= i < |LookupLetters(letters)| ==> InAlphabet(LookupLetters(letters)[i])
  {
    if letters != [] {
      LookupLettersInAlphabet(letters[..|letters| - 1]);
      var m := letters[|letters| - 1];
      if DecodeTable(m).Some? {
        DecodeEntry(m);
        EncodeTableCoversAlphabet();
      }
    }
  }

  /** A decoded word holds only upper-case letters, digits, '?', ',' and '.'. */
  lemma DecodedWordAlphabet(piece: string)
    ensures forall i :: 0 <= i < |DecodedWord(piece)| ==> InUpperAlphabet(DecodedWord(piece)[i])
  {
    LookupLettersInAlphabet(Split(piece, LetterSeparator));
  }
}

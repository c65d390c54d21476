/** How the encoder and the decoder fit together. The coder emits a line as a
    stream of items; a consumer that concatenates the items of an encoded
    line obtains a Morse line that the decoder reads back. The lemmas here
    say when that round trip gives the line back (upper-cased) and exhibit
    the lines for which it does not. */
module MorseRoundTrip {
  import opened MorseTables
  import opened JavaStrings
  import opened MorseEncoding
  import opened MorseDecoding

  /** The text a consumer obtains by concatenating the emitted items. */
  function Concat(items: seq<string>): string {
    if items == [] then "" else Concat(items[..|items| - 1]) + items[|items| - 1]
  }

  lemma {:induction false} ConcatAppend(a: seq<string>, b: seq<string>)
    ensures Concat(a + b) == Concat(a) + Concat(b)
    decreases |b|
  {
    if b == [] {
      assert a + b == a;
    } else {
      var init, last := b[..|b| - 1], b[|b| - 1];
      assert Concat(a + b) == Concat(a + init) + last by {
        assert (a + b)[..|a + b| - 1] == a + init;
        assert (a + b)[|a + b| - 1] == last;
      }
      ConcatAppend(a, init);
      assert Concat(a) + Concat(init) + last == Concat(a) + (Concat(init) + last);
    }
  }

  /** The items of the words `words`, one each. */
  function WordItems(words: seq<string>): (r: seq<string>)
    ensures |r| == |words|
  {
    if words == [] then [] else WordItems(words[..|words| - 1]) + [WordItem(words[|words| - 1])]
  }

  /** The item at position `j` is the item of the word at position `j`. */
  lemma {:induction false} WordItemsAt(words: seq<string>, j: nat)
    requires j < |words|
    ensures WordItems(words)[j] == WordItem(words[j])
  {
    if j < |words| - 1 {
      WordItemsAt(words[..|words| - 1], j);
    }
  }

  /** Looking up the codes of a word gives back the word's mapped characters. */
  lemma {:induction false} LookupOfCodes(w: string)
    ensures LookupLetters(LetterCodes(w)) == Mapped(w)
  {
    if w != [] {
      var init := w[..|w| - 1];
      var c := w[|w| - 1];
      LookupOfCodes(init);
      if EncodeTable(c).Some? {
        var m := EncodeTable(c).value;
        EncodeEntry(c);
        assert (LetterCodes(init) + [m])[..|LetterCodes(init)|] == LetterCodes(init);
      } else {
        assert LetterCodes(init) + CodeOf(c) == LetterCodes(init);
      }
    }
  }

  /** Word-level round trip: decoding the item of a word gives its mapped
      characters, upper-cased; characters without a code are lost, and a
      word without any gives the empty word. */
  lemma DecodeWordItem(w: string)
    ensures DecodedWord(WordItem(w)) == ToUpper(Mapped(w))
  {
    WordItemShape(w);
    LookupOfCodes(w);
    if Mapped(w) == "" {
      SplitWithoutMatch("", LetterSeparator);
      assert LookupLetters([""]) == "";
    }
  }

  /** Every character of `w` has a code. */
  predicate AllCoded(w: string) {
    forall i :: 0 <= i < |w| ==> InAlphabet(w[i])
  }

  /** A word whose characters all have a code is its own mapped part. */
  lemma {:induction false} MappedOfAlphabet(w: string)
    requires AllCoded(w)
    ensures Mapped(w) == w
  {
    if w != [] {
      EncodeTableCoversAlphabet();
      MappedOfAlphabet(w[..|w| - 1]);
    }
  }

  /** Upper-casing after lower-casing is upper-casing. */
  lemma UpperOfLower(s: string)
    ensures ToUpper(ToLower(s)) == ToUpper(s)
  {
    forall i | 0 <= i < |s| ensures ToUpper(ToLower(s))[i] == ToUpper(s)[i] {
      UpperOfLowerChar(s[i]);
    }
  }

  /** A lower-cased line without spaces whose characters are not all
      unmapped is encoded as the one item of that word. */
  lemma EncodeOneWord(text: string)
    requires CharWordSeparator !in text && Mapped(text) != ""
    ensures EncodedText(text) == [WordItem(text)]
  {
    PiecesWithoutChar(text, CharWordSeparator);
    LetterCodesOfMapped(text);
  }

  /** The item of one word with a mapped character decodes, as a line, into
      that word's mapped characters upper-cased. */
  lemma DecodeOneItem(w: string)
    requires Mapped(w) != ""
    ensures DecodedLine(WordItem(w)) == [ToUpper(Mapped(w))]
  {
    WordItemShape(w);
    SeparatedHasNoOccurrence(WordItem(w), WordSeparator);
    SplitWithoutMatch(WordItem(w), WordSeparator);
    DecodeWordItem(w);
  }

  /** A line made of one word whose characters all have a code, after
      lower-casing, is encoded as one item, and decoding that item gives the
      word upper-cased. */
  lemma WordRoundTrip(w: string)
    requires w != ""
    requires forall i :: 0 <= i < |w| ==> InAlphabet(LowerChar(w[i]))
    ensures EncodedLine(w) == [WordItem(ToLower(w))]
    ensures DecodedLine(WordItem(ToLower(w))) == [ToUpper(w)]
  {
    var t := ToLower(w);
    assert AllCoded(t) && CharWordSeparator !in t by {
      forall i | 0 <= i < |t| ensures InAlphabet(t[i]) {
        assert t[i] == LowerChar(w[i]);
      }
    }
    MappedOfAlphabet(t);
    assert EncodedLine(w) == [WordItem(t)] by {
      EncodeOneWord(t);
    }
    assert DecodedLine(WordItem(t)) == [ToUpper(w)] by {
      DecodeOneItem(t);
      UpperOfLower(w);
    }
  }

  lemma WordItemsSnoc(words: seq<string>, w: string)
    ensures WordItems(words + [w]) == WordItems(words) + [WordItem(w)]
  {
    assert (words + [w])[..|words|] == words;
  }

  /** One more closed word before the last one: its item and the word
      separator come between what was there and the last item. */
  lemma ConcatClosedSnoc(init: seq<string>, y: string, last: string)
    ensures Concat(ClosedWordItems(init + [y]) + [WordItem(last)]) ==
      Concat(ClosedWordItems(init) + [WordItem(y)]) + WordSeparator + WordItem(last)
  {
    ClosedWordItemsSnoc(init, y);
    ConcatRegroup(ClosedWordItems(init), WordItem(y), WordSeparator, WordItem(last));
  }

  lemma ConcatRegroup(xs: seq<string>, a: string, b: string, c: string)
    ensures Concat(xs + [a, b] + [c]) == Concat(xs + [a]) + b + c
  {
    var front := xs + [a];
    assert xs + [a, b] + [c] == front + [b, c];
    ConcatAppend(front, [b, c]);
    ConcatPair(b, c);
    assert Concat(front) + (b + c) == Concat(front) + b + c;
  }

  lemma ConcatPair(a: string, b: string)
    ensures Concat([a, b]) == a + b
  {
    assert [a, b][..1] == [a];
    assert [a][..0] == [];
    assert Concat([a]) == a;
  }

  /** Concatenating the items the encoder emits for words whose last one has
      a mapped character gives the words' items joined by the word
      separator. */
  lemma {:induction false} ConcatEncoded(words: seq<string>, last: string)
    ensures Concat(ClosedWordItems(words) + [WordItem(last)]) == Join(WordItems(words + [last]), WordSeparator)
  {
    if words == [] {
      assert words + [last] == [last];
      assert [WordItem(last)][..0] == [];
    } else {
      var init := words[..|words| - 1];
      var y := words[|words| - 1];
      SplitLast(words);
      ConcatEncoded(init, y);
      ConcatClosedSnoc(init, y, last);
      WordItemsSnoc(words, last);
      JoinSnoc(WordItems(words), WordItem(last), WordSeparator);
    }
  }

  /** `ConcatEncoded` for a non-empty sequence of words split at its last. */
  lemma ConcatEncodedWords(words: seq<string>)
    requires words != []
    ensures Concat(ClosedWordItems(words[..|words| - 1]) + [WordItem(words[|words| - 1])]) ==
      Join(WordItems(words), WordSeparator)
  {
    var init, last := words[..|words| - 1], words[|words| - 1];
    SplitLast(words);
    ConcatEncoded(init, last);
  }

  /** Words whose items split back into themselves: at least one word, the
      last one not empty, and every character with a code. */
  predicate CodedWords(words: seq<string>) {
    |words| >= 1 && words[|words| - 1] != "" &&
    (forall j :: 0 <= j < |words| ==> AllCoded(words[j]))
  }

  /** The words of a line that survive the round trip: coded words, no word
      but the last ending in a full stop. */
  predicate RestorableWords(words: seq<string>) {
    CodedWords(words) && (forall j :: 0 <= j < |words| - 1 ==> !EndsWith(words[j], SentenceEnd))
  }

  /** What the consumer obtains for one piece of a decoded line whose word
      all has codes: the word upper-cased, followed by a space unless it is
      the last piece or ends with a full stop. An empty word gives the space
      alone. */
  lemma ConcatPieceItems(w: string, isLast: bool)
    requires AllCoded(w)
    requires isLast ==> w != ""
    ensures Concat(PieceItems(WordItem(w), isLast)) ==
      ToUpper(w) + if !isLast && !EndsWith(w, SentenceEnd) then LetterSeparator else ""
  {
    if w == "" {
      assert WordItem(w) == "";
      assert Concat([LetterSeparator]) == LetterSeparator by {
        assert [LetterSeparator][..0] == [];
      }
    } else {
      var word := ToUpper(w);
      PieceOfWord(w);
      UpperEndsWithStop(w);
      if FollowedBySeparator(word, isLast) {
        assert PieceItems(WordItem(w), isLast) == [word, LetterSeparator];
        ConcatPair(word, LetterSeparator);
      } else {
        assert PieceItems(WordItem(w), isLast) == [word];
        assert [word][..0] == [];
      }
    }
  }

  /** The item of a non-empty word whose characters all have a code is a
      non-empty piece that decodes into the word upper-cased. */
  lemma PieceOfWord(w: string)
    requires AllCoded(w) && w != ""
    ensures WordItem(w) != "" && DecodedWord(WordItem(w)) == ToUpper(w)
  {
    MappedOfAlphabet(w);
    WordItemShape(w);
    DecodeWordItem(w);
  }

  /** Upper-casing keeps a final full stop and makes none. */
  lemma UpperEndsWithStop(w: string)
    requires w != ""
    ensures EndsWith(ToUpper(w), SentenceEnd) <==> EndsWith(w, SentenceEnd)
  {
    var word := ToUpper(w);
    assert word[|word| - 1] == UpperChar(w[|w| - 1]);
    EndsWithChar(w, '.');
    EndsWithChar(word, '.');
  }

  /** What the decoder leaves after a word that is not the last: a space,
      unless the word ends a sentence. */
  function Gap(w: string): string {
    if EndsWith(w, SentenceEnd) then "" else LetterSeparator
  }

  /** The words, each followed by its gap. */
  function Spaced(words: seq<string>): string {
    if words == [] then ""
    else Spaced(words[..|words| - 1]) + words[|words| - 1] + Gap(words[|words| - 1])
  }

  /** The words as the round trip gives them back (before upper-casing):
      each but the last followed by its gap, then the last. */
  function Rejoined(words: seq<string>): string
    requires words != []
  {
    Spaced(words[..|words| - 1]) + words[|words| - 1]
  }

  /** The decoder, reading the joined items of coded words up to (not
      including) the last word, gives each word upper-cased and followed by
      its gap. */
  lemma {:induction false} DecodedPrefix(words: seq<string>, k: nat)
    requires CodedWords(words) && k < |words|
    ensures Concat(PiecesItems(WordItems(words), k)) == ToUpper(Spaced(words[..k]))
  {
    if k > 0 {
      DecodedPrefix(words, k - 1);
      var w := words[k - 1];
      assert AllCoded(w);
      WordItemsAt(words, k - 1);
      DecodedInnerPiece(WordItems(words), k, w);
      SpacedPrefixStep(words, k);
    }
  }

  /** One more inner piece, holding the item of a coded word, adds that word
      upper-cased and its gap. */
  lemma DecodedInnerPiece(items: seq<string>, k: nat, w: string)
    requires 0 < k < |items| && items[k - 1] == WordItem(w)
    requires AllCoded(w)
    ensures Concat(PiecesItems(items, k)) == Concat(PiecesItems(items, k - 1)) + ToUpper(w) + Gap(w)
  {
    var prev := PiecesItems(items, k - 1);
    var piece := PieceItems(items[k - 1], false);
    assert PiecesItems(items, k) == prev + piece;
    ConcatAppend(prev, piece);
    ConcatPieceItems(w, false);
    assert Concat(prev) + (ToUpper(w) + Gap(w)) == Concat(prev) + ToUpper(w) + Gap(w);
  }

  /** Upper-casing the spaced words up to `k` extends the same for the words
      up to `k - 1`. */
  lemma SpacedPrefixStep(words: seq<string>, k: nat)
    requires 0 < k <= |words|
    ensures ToUpper(Spaced(words[..k])) == ToUpper(Spaced(words[..k - 1])) + ToUpper(words[k - 1]) + Gap(words[k - 1])
  {
    assert words[..k][..k - 1] == words[..k - 1];
    UpperOfGap(Spaced(words[..k - 1]), words[k - 1]);
  }

  lemma UpperOfGap(before: string, w: string)
    ensures ToUpper(before + w + Gap(w)) == ToUpper(before) + ToUpper(w) + Gap(w)
  {
    ToUpperAppend(before, w);
    ToUpperAppend(before + w, Gap(w));
    assert ToUpper(LetterSeparator) == LetterSeparator;
    assert ToUpper("") == "";
  }

  /** The decoder reading the joined items of coded words gives the words
      back upper-cased, a space after each but the last unless it ends a
      sentence. */
  lemma DecodeJoinedItems(words: seq<string>)
    requires CodedWords(words)
    ensures Concat(DecodedLine(Join(WordItems(words), WordSeparator))) == ToUpper(Rejoined(words))
  {
    var n := |words|;
    var items := WordItems(words);
    ItemsSplitBack(words);
    assert DecodedLine(Join(items, WordSeparator)) == PiecesItems(items, n);
    DecodedAll(words);
    ToUpperAppend(Spaced(words[..n - 1]), words[n - 1]);
  }

  /** All the pieces: the prefix, then the last word upper-cased. */
  lemma DecodedAll(words: seq<string>)
    requires CodedWords(words)
    ensures Concat(PiecesItems(WordItems(words), |words|)) ==
      ToUpper(Spaced(words[..|words| - 1])) + ToUpper(words[|words| - 1])
  {
    var n := |words|;
    var items := WordItems(words);
    var prev := PiecesItems(items, n - 1);
    var piece := PieceItems(items[n - 1], true);
    assert Concat(PiecesItems(items, n)) == Concat(prev) + Concat(piece) by {
      assert PiecesItems(items, n) == prev + piece;
      ConcatAppend(prev, piece);
    }
    assert Concat(prev) == ToUpper(Spaced(words[..n - 1])) by {
      DecodedPrefix(words, n - 1);
    }
    assert Concat(piece) == ToUpper(words[n - 1]) by {
      WordItemsAt(words, n - 1);
      ConcatPieceItems(words[n - 1], true);
    }
  }

  /** Without a full stop at the end of any word but the last, the words come
      back joined by single spaces. */
  lemma RejoinedRestorable(words: seq<string>)
    requires RestorableWords(words)
    ensures Rejoined(words) == Join(words, LetterSeparator)
  {
    SpacedWithoutStops(words[..|words| - 1]);
    JoinAsAppended(words);
  }

  lemma {:induction false} SpacedWithoutStops(words: seq<string>)
    requires forall j :: 0 <= j < |words| ==> !EndsWith(words[j], SentenceEnd)
    ensures Spaced(words) == Appended(words)
  {
    if words != [] {
      SpacedWithoutStops(words[..|words| - 1]);
    }
  }

  /** The joined items of coded words split back into those items. */
  lemma ItemsSplitBack(words: seq<string>)
    requires CodedWords(words)
    ensures Split(Join(WordItems(words), WordSeparator), WordSeparator) == WordItems(words)
  {
    var n := |words|;
    var items := WordItems(words);
    forall j | 0 <= j < n ensures Separated(items[j], WordSeparator) {
      WordItemsAt(words, j);
      WordItemShape(words[j]);
    }
    MappedOfAlphabet(words[n - 1]);
    WordItemShape(words[n - 1]);
    SplitOfJoin(items, WordSeparator);
  }

  /** A non-empty join by single spaces is every element but the last
      followed by a space, then the last. */
  lemma JoinAsAppended(xs: seq<string>)
    requires xs != []
    ensures Join(xs, LetterSeparator) == Appended(xs[..|xs| - 1]) + xs[|xs| - 1]
  {
    var init, last := xs[..|xs| - 1], xs[|xs| - 1];
    SplitLast(xs);
    AppendedIsJoin(init);
    if init != [] {
      JoinSnoc(init, last, LetterSeparator);
    }
  }

  /** The encoded items of a line whose words are coded concatenate to
      the words' items joined by the word separator. */
  lemma EncodedLineJoined(line: string)
    requires CodedWords(Pieces(ToLower(line), [CharWordSeparator]))
    ensures Concat(EncodedLine(line)) == Join(WordItems(Pieces(ToLower(line), [CharWordSeparator])), WordSeparator)
  {
    EncodedTextJoined(ToLower(line));
  }

  /** The same, for the lower-cased text. */
  lemma EncodedTextJoined(t: string)
    requires CodedWords(Pieces(t, [CharWordSeparator]))
    ensures Concat(EncodedText(t)) == Join(WordItems(Pieces(t, [CharWordSeparator])), WordSeparator)
  {
    var words := Pieces(t, [CharWordSeparator]);
    var n := |words|;
    var init, last := words[..n - 1], words[n - 1];
    assert EncodedText(t) == ClosedWordItems(init) + [WordItem(last)] by {
      assert AllCoded(last);
      MappedOfAlphabet(last);
      EncodedTextOfWords(t);
    }
    ConcatEncodedWords(words);
  }

  /** A lower-cased line whose last word has a mapped character is encoded
      as the items of the words a space closes, then the last word's item. */
  lemma EncodedTextOfWords(text: string)
    requires var words := Pieces(text, [CharWordSeparator]); Mapped(words[|words| - 1]) != ""
    ensures var words := Pieces(text, [CharWordSeparator]);
      EncodedText(text) == ClosedWordItems(words[..|words| - 1]) + [WordItem(words[|words| - 1])]
  {
    LetterCodesOfMapped(OpenWord(text));
  }

  /** A line whose words all come back: every character is a space or has
      a code once lower-cased, and the line does not end with a space (nor
      is it empty). */
  predicate CodedLine(line: string) {
    (forall i :: 0 <= i < |line| ==> line[i] == CharWordSeparator || InAlphabet(LowerChar(line[i]))) &&
    line != "" && line[|line| - 1] != CharWordSeparator
  }

  /** A line that survives the round trip: a coded line in which no full
      stop is directly followed by a space. */
  predicate RestorableLine(line: string) {
    CodedLine(line) &&
    (forall i :: 0 <= i < |line| - 1 && line[i] == '.' ==> line[i + 1] != CharWordSeparator)
  }

  /** The words of a coded line are coded. */
  lemma CodedLineWords(line: string)
    requires CodedLine(line)
    ensures CodedWords(Pieces(ToLower(line), [CharWordSeparator]))
  {
    WordsInAlphabet(line);
    LastWordNotEmpty(line);
  }

  /** The words of a restorable line are restorable. */
  lemma RestorableLineWords(line: string)
    requires RestorableLine(line)
    ensures RestorableWords(Pieces(ToLower(line), [CharWordSeparator]))
  {
    CodedLineWords(line);
    NoWordEndsWithStop(line);
  }

  lemma WordsInAlphabet(line: string)
    requires forall i :: 0 <= i < |line| ==> line[i] == CharWordSeparator || InAlphabet(LowerChar(line[i]))
    ensures var words := Pieces(ToLower(line), [CharWordSeparator]);
      forall j :: 0 <= j < |words| ==> AllCoded(words[j])
  {
    var t := ToLower(line);
    var words := Pieces(t, [CharWordSeparator]);
    JoinPieces(t, [CharWordSeparator]);
    PiecesLackChar(t, CharWordSeparator);
    forall j, i | 0 <= j < |words| && 0 <= i < |words[j]| ensures InAlphabet(words[j][i]) {
      JoinMember(words, [CharWordSeparator], j, i);
      var p :| 0 <= p < |t| && t[p] == words[j][i];
      UpperOfLowerChar(line[p]);
      assert words[j][i] in words[j];
    }
  }

  lemma LastWordNotEmpty(line: string)
    requires line != "" && line[|line| - 1] != CharWordSeparator
    ensures var words := Pieces(ToLower(line), [CharWordSeparator]);
      words[|words| - 1] != ""
  {
    var t := ToLower(line);
    var init := t[..|t| - 1];
    assert init + [t[|t| - 1]] == t;
    UpperOfLowerChar(line[|line| - 1]);
    PiecesSnoc(init, t[|t| - 1], CharWordSeparator);
  }

  lemma NoWordEndsWithStop(line: string)
    requires forall i :: 0 <= i < |line| - 1 && line[i] == '.' ==> line[i + 1] != CharWordSeparator
    ensures var words := Pieces(ToLower(line), [CharWordSeparator]);
      forall j :: 0 <= j < |words| - 1 ==> !EndsWith(words[j], SentenceEnd)
  {
    var words := Pieces(ToLower(line), [CharWordSeparator]);
    forall j | 0 <= j < |words| - 1 ensures !EndsWith(words[j], SentenceEnd) {
      WordEndsBeforeSpace(line, j);
    }
  }

  /** A word other than the last is followed by a space in the line, so it
      does not end with a full stop. */
  lemma WordEndsBeforeSpace(line: string, j: int)
    requires forall i :: 0 <= i < |line| - 1 && line[i] == '.' ==> line[i + 1] != CharWordSeparator
    requires 0 <= j < |Pieces(ToLower(line), [CharWordSeparator])| - 1
    ensures !EndsWith(Pieces(ToLower(line), [CharWordSeparator])[j], SentenceEnd)
  {
    var t := ToLower(line);
    var words := Pieces(t, [CharWordSeparator]);
    var w := words[j];
    if w != "" {
      JoinPieces(t, [CharWordSeparator]);
      JoinPieceFollowedBySep(words, CharWordSeparator, j);
      var p :| 0 <= p < |t| - 1 && t[p] == w[|w| - 1] && t[p + 1] == CharWordSeparator;
      LowerKeeps(line, p);
      LowerKeeps(line, p + 1);
      EndsWithChar(w, '.');
    }
  }

  /** Lower-casing keeps spaces and full stops, and makes no new ones. */
  lemma LowerKeeps(line: string, p: int)
    requires 0 <= p < |line|
    ensures ToLower(line)[p] == ' ' <==> line[p] == ' '
    ensures ToLower(line)[p] == '.' <==> line[p] == '.'
  {
  }

  /** Round trip of a coded line: concatenating what the decoder emits for
      the concatenated items the encoder emits gives the line's words,
      lower-cased then upper-cased, each but the last followed by a space
      unless it ends with a full stop. */
  lemma CodedLineRoundTrip(line: string)
    requires CodedLine(line)
    ensures var words := Pieces(ToLower(line), [CharWordSeparator]);
      Concat(DecodedLine(Concat(EncodedLine(line)))) == ToUpper(Rejoined(words))
  {
    CodedLineWords(line);
    EncodedLineJoined(line);
    DecodeJoinedItems(Pieces(ToLower(line), [CharWordSeparator]));
  }

  /** A full stop directly followed by a space loses the space: "e. e"
      comes back as "E.E". */
  lemma StopSwallowsSpace()
    ensures Concat(DecodedLine(Concat(EncodedLine("e. e")))) == "E.E"
  {
    var line := "e. e";
    assert CodedLine(line) by {
      assert forall i :: 0 <= i < |line| ==> line[i] in "e. ";
    }
    CodedLineRoundTrip(line);
    ExampleWords();
    ExampleRejoined();
  }

  lemma ExampleWords()
    ensures Pieces(ToLower("e. e"), [CharWordSeparator]) == ["e.", "e"]
  {
    var line := "e. e";
    assert ToLower(line) == line;
    assert line[..2] == "e.";
    IndexOfCharIs(line, CharWordSeparator, 2);
    PiecesStep(line, [CharWordSeparator]);
    assert line[3..] == "e";
    PiecesWithoutChar("e", CharWordSeparator);
  }

  lemma ExampleRejoined()
    ensures ToUpper(Rejoined(["e.", "e"])) == "E.E"
  {
    var words := ["e.", "e"];
    assert words[..1] == ["e."];
    assert ["e."][..0] == [];
    EndsWithChar("e.", '.');
    assert Rejoined(words) == "e.e";
  }

  /** Line-level round trip: the items the decoder emits for the
      concatenated items the encoder emits for a restorable line concatenate
      to the line upper-cased. */
  lemma LineRoundTrip(line: string)
    requires RestorableLine(line)
    ensures Concat(DecodedLine(Concat(EncodedLine(line)))) == ToUpper(line)
  {
    var words := Pieces(ToLower(line), [CharWordSeparator]);
    CodedLineRoundTrip(line);
    RestorableLineWords(line);
    RejoinedRestorable(words);
    JoinPieces(ToLower(line), [CharWordSeparator]);
    assert LetterSeparator == [CharWordSeparator];
    UpperOfLower(line);
  }

  /** The round trip turns an empty line into a single space. */
  lemma EmptyLineRoundTrip()
    ensures Concat(DecodedLine(Concat(EncodedLine("")))) == " "
  {
    EncodeEmptyLine();
    DecodeEmptyLine();
    assert [LetterSeparator][..0] == [];
  }
}

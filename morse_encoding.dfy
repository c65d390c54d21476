/** The per-line Morse encoder: the body of the coder's `encode` loop for one
    line. `EncodedLine` says what one line emits, in terms of the line's
    words; `EncodeLine` is the character-by-character loop with its word
    builder, proved to emit exactly that. */
module MorseEncoding {
  import opened MorseTables
  import opened JavaStrings

  /** The code of one character as a list of zero or one codes: nothing when
      the encode table has no entry for it. */
  function CodeOf(c: char): seq<string> {
    match EncodeTable(c)
    case Some(m) => [m]
    case None => []
  }

  /** The codes of the characters of `w` that the encode table maps, in order. */
  function LetterCodes(w: string): seq<string> {
    if w == [] then [] else LetterCodes(w[..|w| - 1]) + CodeOf(w[|w| - 1])
  }

  /** The item the encoder emits for one word: its letter codes joined by the
      letter separator. */
  function WordItem(w: string): string {
    Join(LetterCodes(w), LetterSeparator)
  }

  /** What the word builder holds after the codes `codes` were appended, each
      followed by the letter separator. */
  function Appended(codes: seq<string>): string {
    if codes == [] then "" else Appended(codes[..|codes| - 1]) + codes[|codes| - 1] + LetterSeparator
  }

  /** The items emitted for words that a space closed: each word's item
      followed by the word separator. */
  function ClosedWordItems(words: seq<string>): (r: seq<string>)
    ensures |r| == 2 * |words|
  {
    if words == [] then []
    else ClosedWordItems(words[..|words| - 1]) + [WordItem(words[|words| - 1]), WordSeparator]
  }

  /** The words of a lower-cased line that a space closes: every piece of the
      line cut at its spaces except the last. */
  function ClosedWords(text: string): seq<string> {
    var words := Pieces(text, [CharWordSeparator]);
    words[..|words| - 1]
  }

  /** The word after the last space of a lower-cased line (possibly empty). */
  function OpenWord(text: string): string {
    var words := Pieces(text, [CharWordSeparator]);
    words[|words| - 1]
  }

  /** What the encoder emits for one lower-cased line: each word that a space
      closes gives its item and the word separator; the word after the last
      space gives its item only when it has at least one mapped character. */
  function EncodedText(text: string): seq<string> {
    var last := OpenWord(text);
    ClosedWordItems(ClosedWords(text)) + (if LetterCodes(last) == [] then [] else [WordItem(last)])
  }

  /** What the encoder emits for one line: the line is lower-cased first.
      Each space of the line accounts for two items, and the word after the
      last space for at most one more. */
  function EncodedLine(line: string): (r: seq<string>)
    ensures var n := CountChar(line, CharWordSeparator); 2 * n <= |r| <= 2 * n + 1
  {
    PiecesCount(ToLower(line), CharWordSeparator);
    CountCharToLower(line);
    EncodedText(ToLower(line))
  }

  /** `removeLastAppended`: deletes the last character of the builder, if any. */
  method RemoveLastAppended(builder: string) returns (r: string)
    ensures builder == [] ==> r == []
    ensures builder != [] ==> r + [builder[|builder| - 1]] == builder
  {
    r := builder;
    if |r| != 0 {
      r := r[..|r| - 1];
    }
  }

  /** Encodes one line, emitting items in the order the coder emits them. */
  method EncodeLine(line: string) returns (items: seq<string>)
    ensures items == EncodedLine(line)
  {
    var chars := ToLower(line);
    var wordBuilder: string := "";
    items := [];
    WordsOfEmpty();
    var i := 0;
    while i < |chars|
      invariant 0 <= i <= |chars|
      invariant i < |chars| ==>
        wordBuilder == Appended(LetterCodes(OpenWord(chars[..i]))) &&
        items == ClosedWordItems(ClosedWords(chars[..i]))
      invariant i == |chars| ==> items == EncodedText(chars)
    {
      ghost var next := chars[..i] + [chars[i]];
      assert next == chars[..i + 1];
      if i == |chars| - 1 {
        assert next == chars;
      }
      wordBuilder, items := EncodeCharacter(chars[..i], chars[i], i == |chars| - 1, wordBuilder, items);
      i := i + 1;
    }
    if |chars| == 0 {
      assert chars[..0] == chars;
    }
  }

  /** One pass of the encoder's character loop over `read + [character]`,
      where `atEnd` says whether `character` is the last of the line. A space
      closes the word in the builder: its item and the word separator are
      emitted. The character's code, if any, is then appended to the builder
      with the letter separator. At the end of the line, the builder is
      emitted when it is not empty. */
  method EncodeCharacter(read: string, character: char, atEnd: bool, builder: string, items: seq<string>)
    returns (wordBuilder: string, emitted: seq<string>)
    requires builder == Appended(LetterCodes(OpenWord(read)))
    requires items == ClosedWordItems(ClosedWords(read))
    ensures !atEnd ==> wordBuilder == Appended(LetterCodes(OpenWord(read + [character])))
    ensures !atEnd ==> emitted == ClosedWordItems(ClosedWords(read + [character]))
    ensures atEnd ==> emitted == EncodedText(read + [character])
  {
    wordBuilder, emitted := builder, items;
    if character == CharWordSeparator {
      wordBuilder, emitted := CloseWord(read, builder, items);
    }
    ItemsStep(read, character);
    wordBuilder := AppendCode(read, character, wordBuilder);
    if atEnd {
      emitted := FlushWord(read + [character], wordBuilder, emitted);
    }
  }

  /** The space branch of the character loop: the builder, its last
      separator removed, is emitted as the open word's item, then the word
      separator, and the builder starts afresh. */
  method CloseWord(read: string, builder: string, items: seq<string>)
    returns (wordBuilder: string, emitted: seq<string>)
    requires builder == Appended(LetterCodes(OpenWord(read)))
    ensures wordBuilder == "" && emitted == items + [WordItem(OpenWord(read)), WordSeparator]
  {
    var trimmed := RemoveLastAppended(builder);
    TrimmedBuilder(LetterCodes(OpenWord(read)), trimmed);
    emitted := items + [trimmed];
    emitted := emitted + [WordSeparator];
    SnocTwice(items, trimmed, WordSeparator);
    wordBuilder := "";
  }

  /** The lookup of the character loop: the character's code, if it has one,
      and the letter separator are appended to the builder. */
  method AppendCode(read: string, character: char, builder: string) returns (wordBuilder: string)
    requires builder == Restarted(read, character)
    ensures wordBuilder == Appended(LetterCodes(OpenWord(read + [character])))
  {
    BuilderStep(read, character);
    wordBuilder := builder;
    var morseLetter := EncodeTable(character);
    if morseLetter.Some? {
      wordBuilder := wordBuilder + morseLetter.value;
      wordBuilder := wordBuilder + LetterSeparator;
    }
  }

  /** The end-of-line check: a non-empty builder, its last separator
      removed, is emitted as the last word's item. */
  method FlushWord(text: string, builder: string, items: seq<string>) returns (emitted: seq<string>)
    requires builder == Appended(LetterCodes(OpenWord(text)))
    requires items == ClosedWordItems(ClosedWords(text))
    ensures emitted == EncodedText(text)
  {
    AppendedIsJoin(LetterCodes(OpenWord(text)));
    emitted := items;
    if |builder| > 0 {
      var trimmed := RemoveLastAppended(builder);
      TrimmedBuilder(LetterCodes(OpenWord(text)), trimmed);
      emitted := emitted + [trimmed];
    }
  }

  lemma SnocTwice<T>(xs: seq<T>, a: T, b: T)
    ensures xs + [a] + [b] == xs + [a, b]
  {
  }

  /** The builder with its last character removed is the item of the word
      whose codes it holds. */
  lemma TrimmedBuilder(codes: seq<string>, trimmed: string)
    requires Appended(codes) == [] ==> trimmed == []
    requires Appended(codes) != [] ==> trimmed + [Appended(codes)[|Appended(codes)| - 1]] == Appended(codes)
    ensures trimmed == Join(codes, LetterSeparator)
  {
    AppendedIsJoin(codes);
    var full := Appended(codes);
    if full != [] {
      assert trimmed == full[..|full| - 1];
    }
  }

  /** An empty line is one empty word. */
  lemma WordsOfEmpty()
    ensures ClosedWords([]) == [] && OpenWord([]) == []
  {
    PiecesWithoutChar([], CharWordSeparator);
  }

  /** Reading a space: it closes the open word and opens an empty one. */
  lemma WordsSnocSpace(text: string)
    ensures ClosedWords(text + [CharWordSeparator]) == ClosedWords(text) + [OpenWord(text)]
    ensures OpenWord(text + [CharWordSeparator]) == []
  {
    PiecesSnoc(text, CharWordSeparator, CharWordSeparator);
    var words := Pieces(text, [CharWordSeparator]);
    assert (words + [""])[..|words|] == words;
  }

  /** Reading any other character: it extends the open word. */
  lemma WordsSnocOther(text: string, c: char)
    requires c != CharWordSeparator
    ensures ClosedWords(text + [c]) == ClosedWords(text)
    ensures OpenWord(text + [c]) == OpenWord(text) + [c]
  {
    PiecesSnoc(text, c, CharWordSeparator);
  }

  lemma ClosedWordItemsSnoc(words: seq<string>, w: string)
    ensures ClosedWordItems(words + [w]) == ClosedWordItems(words) + [WordItem(w), WordSeparator]
  {
    assert (words + [w])[..|words|] == words;
  }

  lemma LetterCodesSnoc(w: string, c: char)
    ensures LetterCodes(w + [c]) == LetterCodes(w) + CodeOf(c)
  {
    assert (w + [c])[..|w|] == w;
  }

  /** Appending the code list of one character to the builder's codes. */
  lemma AppendedSnocCode(codes: seq<string>, c: char)
    ensures EncodeTable(c).Some? ==> Appended(codes + CodeOf(c)) == Appended(codes) + EncodeTable(c).value + LetterSeparator
    ensures EncodeTable(c).None? ==> Appended(codes + CodeOf(c)) == Appended(codes)
  {
    if EncodeTable(c).Some? {
      var m := EncodeTable(c).value;
      assert (codes + [m])[..|codes|] == codes;
    } else {
      assert codes + CodeOf(c) == codes;
    }
  }

  /** The builder once a character was read but before its code is
      appended: a space has emptied it. */
  ghost function Restarted(text: string, c: char): string {
    if c == CharWordSeparator then "" else Appended(LetterCodes(OpenWord(text)))
  }

  /** What the builder holds after one more character: a mapped character
      appends its code and the letter separator to the restarted builder. */
  lemma BuilderStep(text: string, c: char)
    ensures EncodeTable(c).Some? ==>
      Appended(LetterCodes(OpenWord(text + [c]))) == Restarted(text, c) + EncodeTable(c).value + LetterSeparator
    ensures EncodeTable(c).None? ==>
      Appended(LetterCodes(OpenWord(text + [c]))) == Restarted(text, c)
  {
    if c == CharWordSeparator {
      WordsSnocSpace(text);
      assert EncodeTable(c) == None;
    } else {
      WordsSnocOther(text, c);
      LetterCodesSnoc(OpenWord(text), c);
      AppendedSnocCode(LetterCodes(OpenWord(text)), c);
    }
  }

  /** What has been emitted after one more character, before the end-of-line
      check: a space emits the open word's item and the word separator. */
  lemma ItemsStep(text: string, c: char)
    ensures ClosedWordItems(ClosedWords(text + [c])) ==
      if c == CharWordSeparator
      then ClosedWordItems(ClosedWords(text)) + [WordItem(OpenWord(text)), WordSeparator]
      else ClosedWordItems(ClosedWords(text))
  {
    if c == CharWordSeparator {
      WordsSnocSpace(text);
      ClosedWordItemsSnoc(ClosedWords(text), OpenWord(text));
    } else {
      WordsSnocOther(text, c);
    }
  }

  /** Joining codes and then appending one more separator is what the builder
      holds; in particular it is empty exactly when there are no codes. */
  lemma {:induction false} AppendedIsJoin(codes: seq<string>)
    ensures codes == [] <==> Appended(codes) == ""
    ensures codes != [] ==> Appended(codes) == Join(codes, LetterSeparator) + LetterSeparator
  {
    if codes != [] {
      var init := codes[..|codes| - 1];
      AppendedIsJoin(init);
      if init != [] {
        JoinSnoc(init, codes[|codes| - 1], LetterSeparator);
        assert init + [codes[|codes| - 1]] == codes;
      }
    }
  }

  /** Appending one more element to a non-empty join. */
  lemma {:induction false} JoinSnoc(xs: seq<string>, x: string, sep: string)
    requires xs != []
    ensures Join(xs + [x], sep) == Join(xs, sep) + sep + x
  {
    if |xs| == 1 {
      assert xs + [x] == [xs[0]] + [x];
      JoinCons(xs[0], [x], sep);
    } else {
      JoinSnoc(xs[1..], x, sep);
      assert xs + [x] == [xs[0]] + (xs[1..] + [x]);
      JoinCons(xs[0], xs[1..] + [x], sep);
      JoinCons(xs[0], xs[1..], sep);
      assert [xs[0]] + xs[1..] == xs;
    }
  }

  /** The characters of `w` that the encode table maps, in order. */
  function Mapped(w: string): string {
    if w == [] then []
    else Mapped(w[..|w| - 1]) + if EncodeTable(w[|w| - 1]).Some? then [w[|w| - 1]] else []
  }

  /** The codes of a word are the codes of its mapped characters, one for
      each, in order. */
  lemma {:induction false} LetterCodesOfMapped(w: string)
    ensures |LetterCodes(w)| == |Mapped(w)|
    ensures forall k :: 0 <= k < |Mapped(w)| ==> EncodeTable(Mapped(w)[k]) == Some(LetterCodes(w)[k])
  {
    if w != [] {
      LetterCodesOfMapped(w[..|w| - 1]);
    }
  }

  /** Every code in a word's codes is a well-formed letter code that the
      decode table maps back to the character it came from. */
  lemma LetterCodesAreCodes(w: string)
    ensures |LetterCodes(w)| == |Mapped(w)|
    ensures forall k :: 0 <= k < |LetterCodes(w)| ==>
      IsCode(LetterCodes(w)[k]) && ' ' !in LetterCodes(w)[k] &&
      DecodeTable(LetterCodes(w)[k]) == Some(Mapped(w)[k])
  {
    LetterCodesOfMapped(w);
    forall k | 0 <= k < |LetterCodes(w)|
      ensures IsCode(LetterCodes(w)[k]) && ' ' !in LetterCodes(w)[k] &&
        DecodeTable(LetterCodes(w)[k]) == Some(Mapped(w)[k])
    {
      EncodeEntry(Mapped(w)[k]);
    }
  }

  /** The item of a word: empty exactly when the word has no mapped
      character; otherwise its codes joined by single spaces, so that
      splitting it at the letter separator gives the codes back; and it never
      holds the word separator, nor is it the word separator. */
  lemma WordItemShape(w: string)
    ensures WordItem(w) == "" <==> Mapped(w) == ""
    ensures SingleSpaced(WordItem(w), ' ')
    ensures Mapped(w) != "" ==> Split(WordItem(w), LetterSeparator) == LetterCodes(w)
    ensures Separated(WordItem(w), WordSeparator)
    ensures WordItem(w) != WordSeparator
  {
    LetterCodesAreCodes(w);
    WordItemSingleSpaced(w);
    if Mapped(w) != "" {
      WordItemSplits(w);
    }
    SingleSpacedIsSeparated(WordItem(w), WordSeparator, ' ');
    assert WordSeparator[0] == ' ';
  }

  lemma WordItemSingleSpaced(w: string)
    ensures WordItem(w) == "" <==> Mapped(w) == ""
    ensures SingleSpaced(WordItem(w), ' ')
  {
    var codes := LetterCodes(w);
    LetterCodesAreCodes(w);
    JoinSingleSpaced(codes, ' ');
    if codes != [] {
      JoinNonEmpty(codes, LetterSeparator);
    }
  }

  lemma WordItemSplits(w: string)
    requires Mapped(w) != ""
    ensures Split(WordItem(w), LetterSeparator) == LetterCodes(w)
  {
    var codes := LetterCodes(w);
    LetterCodesAreCodes(w);
    forall k | 0 <= k < |codes| ensures Separated(codes[k], LetterSeparator) {
      SeparatedByChar(codes[k], ' ');
    }
    SplitOfJoin(codes, LetterSeparator);
  }

  /** The items for the words a space closed: word item and word separator,
      alternating, one pair per word. */
  lemma {:induction false} ClosedWordItemsLayout(words: seq<string>)
    ensures |ClosedWordItems(words)| == 2 * |words|
    ensures forall j :: 0 <= j < |words| ==>
      ClosedWordItems(words)[2 * j] == WordItem(words[j]) &&
      ClosedWordItems(words)[2 * j + 1] == WordSeparator
  {
    if words != [] {
      var init, w := words[..|words| - 1], words[|words| - 1];
      ClosedWordItemsLayout(init);
      var prev, all := ClosedWordItems(init), ClosedWordItems(words);
      assert all == prev + [WordItem(w), WordSeparator];
      forall j | 0 <= j < |words|
        ensures all[2 * j] == WordItem(words[j]) && all[2 * j + 1] == WordSeparator
      {
        if j < |init| {
          assert all[2 * j] == prev[2 * j] && all[2 * j + 1] == prev[2 * j + 1];
          assert words[j] == init[j];
        }
      }
    }
  }

  /** The layout of an encoded line. Cut the lower-cased line at its spaces
      into `n + 1` words, `n` being the number of spaces. Each space gives two
      items, the item of the word before it and the word separator; the word
      after the last space gives one more item only when it has a mapped
      character. */
  lemma EncodedLineLayout(line: string)
    ensures var words := Pieces(ToLower(line), [CharWordSeparator]);
      var n := |words| - 1;
      var items := EncodedLine(line);
      n == CountChar(line, CharWordSeparator) &&
      |items| == 2 * n + (if Mapped(words[n]) == "" then 0 else 1) &&
      (forall j :: 0 <= j < n ==> items[2 * j] == WordItem(words[j]) && items[2 * j + 1] == WordSeparator) &&
      (Mapped(words[n]) != "" ==> items[2 * n] == WordItem(words[n]))
  {
    var text := ToLower(line);
    var words := Pieces(text, [CharWordSeparator]);
    var n := |words| - 1;
    assert n == CountChar(line, CharWordSeparator) by {
      PiecesCount(text, CharWordSeparator);
      CountCharToLower(line);
    }
    var closed := ClosedWordItems(ClosedWords(text));
    assert ClosedWords(text) == words[..n] && OpenWord(text) == words[n];
    assert LetterCodes(words[n]) == [] <==> Mapped(words[n]) == "" by {
      LetterCodesOfMapped(words[n]);
    }
    assert EncodedLine(line) == closed + (if Mapped(words[n]) == "" then [] else [WordItem(words[n])]);
    ClosedWordItemsLayout(words[..n]);
  }

  /** An empty line emits nothing. */
  lemma EncodeEmptyLine()
    ensures EncodedLine("") == []
  {
    WordsOfEmpty();
  }

  /** Number of items equal to `x` in `items`. */
  function CountItem(items: seq<string>, x: string): nat {
    if items == [] then 0
    else CountItem(items[..|items| - 1], x) + if items[|items| - 1] == x then 1 else 0
  }

  lemma CountItemAppend(a: seq<string>, b: seq<string>, x: string)
    ensures CountItem(a + b, x) == CountItem(a, x) + CountItem(b, x)
    decreases |b|
  {
    if b != [] {
      assert (a + b)[..|a + b| - 1] == a + b[..|b| - 1];
      CountItemAppend(a, b[..|b| - 1], x);
    } else {
      assert a + b == a;
    }
  }

  lemma {:induction false} ClosedWordItemsCount(words: seq<string>)
    ensures CountItem(ClosedWordItems(words), WordSeparator) == |words|
  {
    if words != [] {
      var init := words[..|words| - 1];
      ClosedWordItemsCount(init);
      WordItemShape(words[|words| - 1]);
      var pair := [WordItem(words[|words| - 1]), WordSeparator];
      CountItemAppend(ClosedWordItems(init), pair, WordSeparator);
      assert pair[..1][..0] == [];
      assert CountItem(pair[..1], WordSeparator) == 0;
    }
  }

  /** The encoder emits exactly as many word separators as the line has
      spaces. */
  lemma EncodedSeparatorCount(line: string)
    ensures CountItem(EncodedLine(line), WordSeparator) == CountChar(line, CharWordSeparator)
  {
    var text := ToLower(line);
    PiecesCount(text, CharWordSeparator);
    CountCharToLower(line);
    ClosedWordItemsCount(ClosedWords(text));
    WordItemShape(OpenWord(text));
    var last := if LetterCodes(OpenWord(text)) == [] then [] else [WordItem(OpenWord(text))];
    CountItemAppend(ClosedWordItems(ClosedWords(text)), last, WordSeparator);
    if last != [] {
      assert last[..0] == [];
    }
  }
}

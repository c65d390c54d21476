# Morse coder, modelled in Dafny

This project models the core of the Morse coder `MorseCoderImpl`. The coder
turns lines of text into a stream of Morse items and back.

- **Encoding.** Each line is lower-cased. Every character with a code
  contributes that code to the current word, and the codes of a word are
  separated by one space. A space in the line closes the current word: the
  coder emits the word, then the five-space word separator. At the end of the
  line it emits the pending word if the word is not empty.
- **Decoding.** Each line is split at the five-space word separator.
  - An empty piece emits a single space.
  - Any other piece is split at single spaces. Its codes are looked up, the
    unknown ones are skipped, and the word is upper-cased and emitted. A space
    follows the word unless it is the last piece or the word ends with `.`.

The model is organised as follows.

| module | models |
|---|---|
| `MorseTables` | The two static tables, written as `match` functions. Also the separators. |
| `JavaStrings` | The parts of `java.lang.String` the coder relies on: ASCII `toLowerCase`/`toUpperCase`, `indexOf`, `split` with a literal separator (including Java's removal of trailing empty strings) and `endsWith`. Also `Join`, its inverse, which is used to state round trips. |
| `MorseEncoding` | The per-line encoder. `EncodeLine` is the character loop over a local builder string. `EncodedLine` is its specification, and the lemmas state the shape of what it emits. |
| `MorseDecoding` | The per-line decoder. `DecodeLine` and `DecodeLetters` are the two nested loops. `DecodedLine` is their specification. |
| `MorseRoundTrip` | Properties that relate the two directions. A consumer concatenates the items of an encoded line, and the result is decoded. |
| `MorseStreams` | The two producers over a whole input, line after line, stopping at the first cancellation they observe. |

The following design choices run through the model:

- The coder's `StringBuilder`s are local string variables that the loops
  reassign.
- The emitter is the sequence of items a method returns.
- Lines read from the input stream are a `seq<string>`.
- The consumer's cancellation is modelled as the answers `isCancelled()`
  gives, one per line.

## Model

| member | source | states |
|---|---|---|
| MorseTables.EncodeTable | morse-coder/src/main/java/io/github/eleventigerssc/interview/morse/MorseCoderImpl.java:28-68 | The 39 `put` entries of the encode map, one `case` each, and `None` for every other character. Its contract: there is an entry exactly for the characters of the alphabet, and each entry is a non-empty code of `.`, `-` and `·`. |
| MorseTables.DecodeTable | morse-coder/src/main/java/io/github/eleventigerssc/interview/morse/MorseCoderImpl.java:70-110 | The 39 `put` entries of the decode map, and `None` for every other string. Its contract: only a well-formed code has an entry, and it gives a character of the alphabet. |
| MorseTables.EncodeTableCoversAlphabet | morse-coder/src/main/java/io/github/eleventigerssc/interview/morse/MorseCoderImpl.java:28-68 | The encode table has an entry for exactly the 39 characters a–z, 0–9, `?`, `,` and `.`. |
| MorseTables.EncodeEntry | morse-coder/src/main/java/io/github/eleventigerssc/interview/morse/MorseCoderImpl.java:28-110 | Every code in the encode table is non-empty and made only of `.`, `-` and `·` (so it holds no space). The decode table maps the code back to its character. |
| MorseTables.DecodeEntry | morse-coder/src/main/java/io/github/eleventigerssc/interview/morse/MorseCoderImpl.java:70-110 | The encode table maps the character of every decode-table entry back to that entry's code. |
| MorseTables.TablesAreInverse | morse-coder/src/main/java/io/github/eleventigerssc/interview/morse/MorseCoderImpl.java:28-110 | The tables are inverse in both directions, and every code in them is a well-formed letter code. |
| JavaStrings.ToLower | morse-coder/src/main/java/io/github/eleventigerssc/interview/morse/MorseCoderImpl.java:155 | `toLowerCase` on ASCII: every `A`–`Z` becomes the lower-case letter that upper-cases back to it, and every other character is kept. The length is kept. |
| JavaStrings.ToUpper | morse-coder/src/main/java/io/github/eleventigerssc/interview/morse/MorseCoderImpl.java:136 | `toUpperCase` on ASCII: every `a`–`z` becomes the upper-case letter that lower-cases back to it, and every other character is kept. The length is kept. |
| JavaStrings.Split | morse-coder/src/main/java/io/github/eleventigerssc/interview/morse/MorseCoderImpl.java:120-129 | `split` with a literal separator. A text with no match gives itself alone, even when it is empty. Otherwise the result is a prefix of the pieces between leftmost matches; it does not end with an empty string, and only empty pieces are dropped after it. |
| JavaStrings.EndsWithChar | morse-coder/src/main/java/io/github/eleventigerssc/interview/morse/MorseCoderImpl.java:138 | `endsWith` with a one-character suffix holds of a non-empty text exactly when its last character is that character. |
| JavaStrings.JoinPieces | morse-coder/src/main/java/io/github/eleventigerssc/interview/morse/MorseCoderImpl.java:120 | Cutting a text at the leftmost non-overlapping occurrences of a separator (as `split` does before it drops trailing empty strings) and joining the pieces with it gives the text back. |
| JavaStrings.SplitOfJoin | morse-coder/src/main/java/io/github/eleventigerssc/interview/morse/MorseCoderImpl.java:120 | `split` undoes `Join` when no element contains the separator or runs into the separator that follows it, and, when there are at least two elements, the last one is non-empty. |
| JavaStrings.SplitWithoutMatch | morse-coder/src/main/java/io/github/eleventigerssc/interview/morse/MorseCoderImpl.java:120 | A text without the separator splits into itself alone, even when it is empty. |
| JavaStrings.PiecesCount | morse-coder/src/main/java/io/github/eleventigerssc/interview/morse/MorseCoderImpl.java:157-163 | A text cut at a character has one more piece than it has occurrences of that character. |
| JavaStrings.CountCharToLower | morse-coder/src/main/java/io/github/eleventigerssc/interview/morse/MorseCoderImpl.java:155 | Lower-casing keeps the number of spaces. |
| JavaStrings.JoinSingleSpaced | morse-coder/src/main/java/io/github/eleventigerssc/interview/morse/MorseCoderImpl.java:166-169 | Non-empty codes without a space, joined by one space, never hold two spaces in a row or a space at either end. |
| JavaStrings.SingleSpacedIsSeparated | morse-coder/src/main/java/io/github/eleventigerssc/interview/morse/MorseCoderImpl.java:120 | Such a text cannot contain the five-space word separator, even across its end. |
| MorseEncoding.EncodedLine | morse-coder/src/main/java/io/github/eleventigerssc/interview/morse/MorseCoderImpl.java:155-176 | What the encoder emits for one line: after lower-casing, each space gives the item of the word before it and the word separator, and the word after the last space gives its item when it has a mapped character. Its contract: a line with `n` spaces gives `2n` or `2n + 1` items. |
| MorseEncoding.RemoveLastAppended | morse-coder/src/main/java/io/github/eleventigerssc/interview/morse/MorseCoderImpl.java:182-186 | An empty builder stays empty. Otherwise the result followed by the builder's last character is the builder. |
| MorseEncoding.EncodeLine | morse-coder/src/main/java/io/github/eleventigerssc/interview/morse/MorseCoderImpl.java:155-176 | The character loop emits exactly `EncodedLine(line)`: for each space, the item of the word before it and the word separator; then the last word's item when it has a mapped character. |
| MorseEncoding.EncodeCharacter | morse-coder/src/main/java/io/github/eleventigerssc/interview/morse/MorseCoderImpl.java:157-175 | One loop turn keeps the loop invariant: the builder holds the open word's codes, each followed by a space, and the emitted items are those of the closed words. On the last character, the items emitted are those of the whole line. |
| MorseEncoding.CloseWord | morse-coder/src/main/java/io/github/eleventigerssc/interview/morse/MorseCoderImpl.java:159-164 | A space emits the open word's item, then the word separator, and empties the builder. |
| MorseEncoding.AppendCode | morse-coder/src/main/java/io/github/eleventigerssc/interview/morse/MorseCoderImpl.java:165-169 | After the lookup, the builder holds the codes of the open word including the new character, each followed by a space. |
| MorseEncoding.FlushWord | morse-coder/src/main/java/io/github/eleventigerssc/interview/morse/MorseCoderImpl.java:171-174 | At the end of the line, a non-empty builder is emitted without its trailing space. After that, the items are those of the whole line. |
| MorseEncoding.TrimmedBuilder | morse-coder/src/main/java/io/github/eleventigerssc/interview/morse/MorseCoderImpl.java:160-161 | The builder with its last character removed is the word's codes joined by single spaces, with no trailing separator. |
| MorseEncoding.BuilderStep | morse-coder/src/main/java/io/github/eleventigerssc/interview/morse/MorseCoderImpl.java:159-169 | After one character, the builder holds the restarted builder plus the character's code and a space when the character is mapped, and is unchanged otherwise. |
| MorseEncoding.ItemsStep | morse-coder/src/main/java/io/github/eleventigerssc/interview/morse/MorseCoderImpl.java:159-163 | A space adds the open word's item and the word separator to the closed items. Any other character adds nothing. |
| MorseEncoding.AppendedIsJoin | morse-coder/src/main/java/io/github/eleventigerssc/interview/morse/MorseCoderImpl.java:165-174 | The builder is empty exactly when it holds no code. Otherwise it is the codes joined by spaces, plus one trailing space. |
| MorseEncoding.LetterCodesOfMapped | morse-coder/src/main/java/io/github/eleventigerssc/interview/morse/MorseCoderImpl.java:165-169 | The codes of a word are the encode-table values of its mapped characters, in order. Unmapped characters contribute nothing. |
| MorseEncoding.LetterCodesAreCodes | morse-coder/src/main/java/io/github/eleventigerssc/interview/morse/MorseCoderImpl.java:165-169 | Every code in a word is well formed, holds no space, and decodes to the corresponding mapped character. |
| MorseEncoding.WordItemShape | morse-coder/src/main/java/io/github/eleventigerssc/interview/morse/MorseCoderImpl.java:160-174 | A word's item is empty exactly when the word has no mapped character. It never has a double, leading or trailing space. When the word has a mapped character, the item split at single spaces gives the word's codes. It cannot contain the word separator, and it is not the word separator. |
| MorseEncoding.ClosedWordItemsLayout | morse-coder/src/main/java/io/github/eleventigerssc/interview/morse/MorseCoderImpl.java:159-163 | The items of the closed words alternate: the item of word `j` at `2j`, the word separator at `2j+1`. |
| MorseEncoding.EncodedLineLayout | morse-coder/src/main/java/io/github/eleventigerssc/interview/morse/MorseCoderImpl.java:155-176 | For a line with `n` spaces: `2n` items in word-item/separator pairs, plus one last item exactly when the last word has a mapped character. |
| MorseEncoding.EncodeEmptyLine | morse-coder/src/main/java/io/github/eleventigerssc/interview/morse/MorseCoderImpl.java:157-175 | An empty line emits nothing. |
| MorseEncoding.EncodedSeparatorCount | morse-coder/src/main/java/io/github/eleventigerssc/interview/morse/MorseCoderImpl.java:159-163 | The number of word-separator items equals the number of spaces in the line. |
| MorseDecoding.DecodedWord | morse-coder/src/main/java/io/github/eleventigerssc/interview/morse/MorseCoderImpl.java:128-136 | The word of a piece: its codes split at single spaces, looked up, unknown codes skipped, upper-cased. It has at most one character per code. |
| MorseDecoding.PieceItems | morse-coder/src/main/java/io/github/eleventigerssc/interview/morse/MorseCoderImpl.java:123-140 | What one piece emits. An empty piece emits one space. Any other piece emits its word, then a space when it is not last and the word does not end with `.`. Its contract: one or two items, at most one word and that first, the rest spaces; the last non-empty piece emits its word alone. |
| MorseDecoding.DecodedLine | morse-coder/src/main/java/io/github/eleventigerssc/interview/morse/MorseCoderImpl.java:120-141 | What one line emits: the items of each piece of the line split at the word separator, in order. Its contract: a line of `n` pieces gives between `n` and `2n` items. |
| MorseDecoding.DecodeLine | morse-coder/src/main/java/io/github/eleventigerssc/interview/morse/MorseCoderImpl.java:120-141 | The piece loop emits exactly `DecodedLine(line)`. An empty piece emits one space. A non-empty piece emits its upper-cased word, then a space when the piece is not last and the word does not end with `.`. |
| MorseDecoding.DecodeLetters | morse-coder/src/main/java/io/github/eleventigerssc/interview/morse/MorseCoderImpl.java:128-135 | The inner loop gives the table characters of the codes, in order, and skips unknown codes. |
| MorseDecoding.DecodeEmptyLine | morse-coder/src/main/java/io/github/eleventigerssc/interview/morse/MorseCoderImpl.java:120-126 | An empty line decodes to a single space item. |
| MorseDecoding.DecodeSeparatorLine | morse-coder/src/main/java/io/github/eleventigerssc/interview/morse/MorseCoderImpl.java:120-121 | A line that is exactly the word separator decodes to no item. |
| MorseDecoding.DecodedWordAlphabet | morse-coder/src/main/java/io/github/eleventigerssc/interview/morse/MorseCoderImpl.java:128-136 | A decoded word holds only `A`–`Z`, `0`–`9`, `?`, `,` and `.`. |
| MorseRoundTrip.LookupOfCodes | morse-coder/src/main/java/io/github/eleventigerssc/interview/morse/MorseCoderImpl.java:128-135 | Looking up the codes of a word gives back its mapped characters. |
| MorseRoundTrip.DecodeWordItem | morse-coder/src/main/java/io/github/eleventigerssc/interview/morse/MorseCoderImpl.java:128-136 | Decoding any word's item gives the word's mapped characters, upper-cased. A word without a mapped character gives the empty word. |
| MorseRoundTrip.DecodeOneItem | morse-coder/src/main/java/io/github/eleventigerssc/interview/morse/MorseCoderImpl.java:120-141 | For a word with at least one mapped character, a line that is the word's item decodes into that word's mapped characters, upper-cased, as a single item. |
| MorseRoundTrip.WordRoundTrip | morse-coder/src/main/java/io/github/eleventigerssc/interview/morse/MorseCoderImpl.java:128-137 | A non-empty word whose characters all have a code after lower-casing encodes to a single item, and decoding that item gives the word upper-cased. |
| MorseRoundTrip.ConcatPieceItems | morse-coder/src/main/java/io/github/eleventigerssc/interview/morse/MorseCoderImpl.java:123-140 | One coded word's piece gives the word upper-cased, then a space exactly when it is not last and does not end with `.`. An empty word gives a space alone. |
| MorseRoundTrip.ItemsSplitBack | morse-coder/src/main/java/io/github/eleventigerssc/interview/morse/MorseCoderImpl.java:120 | The word items of coded words, joined by the word separator, split back into those items. |
| MorseRoundTrip.EncodedLineJoined | morse-coder/src/main/java/io/github/eleventigerssc/interview/morse/MorseCoderImpl.java:155-176 | For a line whose words are all coded, the emitted items concatenate to the words' items joined by the word separator. |
| MorseRoundTrip.DecodeJoinedItems | morse-coder/src/main/java/io/github/eleventigerssc/interview/morse/MorseCoderImpl.java:120-141 | Decoding the joined items of coded words gives the words upper-cased. A space follows each word but the last, unless the word ends with `.`. |
| MorseRoundTrip.RejoinedRestorable | morse-coder/src/main/java/io/github/eleventigerssc/interview/morse/MorseCoderImpl.java:138-140 | When no word but the last ends with `.`, the words come back joined by single spaces. |
| MorseRoundTrip.CodedLineRoundTrip | morse-coder/src/main/java/io/github/eleventigerssc/interview/morse/MorseCoderImpl.java:120-176 | Take a non-empty line without a trailing space whose characters are spaces or have a code. Encoding it, concatenating the items, decoding and concatenating again gives its words upper-cased. Each word but the last is followed by a space unless it ends with `.`. |
| MorseRoundTrip.LineRoundTrip | morse-coder/src/main/java/io/github/eleventigerssc/interview/morse/MorseCoderImpl.java:120-176 | If, in addition, no `.` is directly followed by a space, the round trip gives the line upper-cased. |
| MorseRoundTrip.StopSwallowsSpace | morse-coder/src/main/java/io/github/eleventigerssc/interview/morse/MorseCoderImpl.java:138-140 | The line `e. e` comes back as `E.E`. |
| MorseRoundTrip.EmptyLineRoundTrip | morse-coder/src/main/java/io/github/eleventigerssc/interview/morse/MorseCoderImpl.java:120-126 | The empty line comes back as a single space. |
| MorseStreams.Encode | morse-coder/src/main/java/io/github/eleventigerssc/interview/morse/MorseCoderImpl.java:150-178 | The producer emits the items of every line before the first observed cancellation, in order, so what it emits is always a prefix of the complete output. It completes exactly when no cancellation is observed. |
| MorseStreams.Decode | morse-coder/src/main/java/io/github/eleventigerssc/interview/morse/MorseCoderImpl.java:115-143 | The same, for decoding: the lines before the first observed cancellation, a prefix of the complete output, and completion exactly when no cancellation is observed. |
| MorseStreams.Processed | morse-coder/src/main/java/io/github/eleventigerssc/interview/morse/MorseCoderImpl.java:117-118 | The number of lines processed is the position of the first cancellation, or all of them: none before it is cancelled. |
| MorseStreams.EncodedLinesAppend | morse-coder/src/main/java/io/github/eleventigerssc/interview/morse/MorseCoderImpl.java:150-176 | Lines are encoded independently: two runs of lines give the items of the first followed by those of the second. |
| MorseStreams.DecodedLinesAppend | morse-coder/src/main/java/io/github/eleventigerssc/interview/morse/MorseCoderImpl.java:115-141 | Lines are decoded independently. |
| MorseStreams.EncodeCancelledIsPrefix | morse-coder/src/main/java/io/github/eleventigerssc/interview/morse/MorseCoderImpl.java:153 | The complete output splits, at the number of lines processed, into the items of the lines processed followed by the items of the rest: a cancelled encoding stops at a line boundary. |
| MorseStreams.DecodeCancelledIsPrefix | morse-coder/src/main/java/io/github/eleventigerssc/interview/morse/MorseCoderImpl.java:118 | The same split of the complete decoded output at the number of lines processed. |
| MorseStreams.CancelledAtOnce | morse-coder/src/main/java/io/github/eleventigerssc/interview/morse/MorseCoderImpl.java:117-118 | A cancellation seen before the first line, or an input without lines, emits nothing. |

## Notes on the code

- The entries for `?`, `,` and `.` in both tables are written with the
  middle dot U+00B7 (`··--··`, `--··--`, `·-·-·-`), where standard Morse uses
  full stops. A code typed with full stops for those three characters is not
  recognised by the decoder, and the encoder never emits one.
- An empty line given to the decoder splits into one empty piece, so the
  decoder emits a single space for it (`DecodeEmptyLine`).

## Left out

- **Reactive streaming.** `Flowable.create`, the emitter, the backpressure
  strategy and `onComplete` belong to a library outside this model. A
  producer returns its items as a sequence, plus a flag that says whether it
  completed.
- **Input.** `BufferedReader`/`InputStreamReader` line reading, charset
  decoding and I/O errors are I/O. The input is given as its sequence of lines.
- **Cancellation.** `isCancelled()` is a consumer-side concurrency concern. It
  is a parameter with one answer per line, read where the coder reads it:
  after a line is read and before it is processed. Cancellation arriving while
  a line is processed is not modelled.
- **Case mapping.** `toLowerCase`/`toUpperCase` follow the default locale
  and full Unicode. `JavaStrings.LowerChar` and `JavaStrings.UpperChar` map
  only ASCII letters. This changes what is encoded for some input. Java
  lower-cases the Kelvin sign U+212A to `k`, so the coder encodes it as
  `-.-`, while the model drops it as unmapped. In a Turkish locale, Java
  lower-cases `I` to the dotless `ı`, which the coder drops, while the model
  encodes it as `..`. On the decoding side, in a Turkish locale Java
  upper-cases a decoded `i` (code `..`) to the dotted `İ` U+0130, where the
  model gives `I`.
- **Characters.** Java `char`s are UTF-16 code units; Dafny `char`s are
  Unicode scalar values. The coder's behaviour on characters outside the
  Basic Multilingual Plane is not captured.
- **Hash maps.** The two `HashMap`s are written as `match` functions with
  the same entries, not as `map` values. Their insertion order and hashing
  do not affect the result.
- **`split`.** `JavaStrings.Split` models `String.split` only for the two
  separators the coder uses, which contain no regular-expression
  metacharacters.
- **The factory.** `MorseCoders.get()` only constructs the
  coder. It is not part of this model.
- **Trailing spaces.** Round-trip properties are stated for lines without a
  trailing space. For a line with a trailing space, the per-line contracts
  still state exactly what is emitted.

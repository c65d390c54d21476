/** The two static symbol tables of the Morse coder and the separators it uses.
    Each table is a function from key to optional value, one `case` per entry,
    in the order the coder fills its hash maps; `None` stands for the `null`
    that a lookup of a missing key returns. The two tables are written out
    independently, so the lemmas below check the relation between them rather
    than take it for granted. The codes for '?', ',' and '.' use the middle dot U+00B7,
    not a full stop. */
module MorseTables {

  datatype Option<+T> = None | Some(value: T)

  /** Separator placed between two letter codes of one Morse word; the decoder
      also emits it as the space between two decoded words. */
  const LetterSeparator: string := " "

  /** Separator placed between two Morse words: five spaces. */
  const WordSeparator: string := "     "

  /** The character the encoder treats as a word boundary. */
  const CharWordSeparator: char := ' '

  /** A decoded word ending with this text is not followed by a separator. */
  const SentenceEnd: string := "."

  /** Character to Morse code: an entry for exactly the characters of the
      alphabet, each a well-formed code. */
  function EncodeTable(c: char): (r: Option<string>)
    ensures r.Some? <==> InAlphabet(c)
    ensures r.Some? ==> IsCode(r.value)
  {
    match c
    case 'a' => Some(".-")
    case 'b' => Some("-...")
    case 'c' => Some("-.-.")
    case 'd' => Some("-..")
    case 'e' => Some(".")
    case 'f' => Some("..-.")
    case 'g' => Some("--.")
    case 'h' => Some("....")
    case 'i' => Some("..")
    case 'j' => Some(".---")
    case 'k' => Some("-.-")
    case 'l' => Some(".-..")
    case 'm' => Some("--")
    case 'n' => Some("-.")
    case 'o' => Some("---")
    case 'p' => Some(".--.")
    case 'q' => Some("--.-")
    case 'r' => Some(".-.")
    case 's' => Some("...")
    case 't' => Some("-")
    case 'u' => Some("..-")
    case 'v' => Some("...-")
    case 'w' => Some(".--")
    case 'x' => Some("-..-")
    case 'y' => Some("-.--")
    case 'z' => Some("--..")
    case '1' => Some(".----")
    case '2' => Some("..---")
    case '3' => Some("...--")
    case '4' => Some("....-")
    case '5' => Some(".....")
    case '6' => Some("-....")
    case '7' => Some("--...")
    case '8' => Some("---..")
    case '9' => Some("----.")
    case '0' => Some("-----")
    case '?' => Some("··--··")
    case ',' => Some("--··--")
    case '.' => Some("·-·-·-")
    case _ => None
  }

  /** Morse code to character: only well-formed codes have an entry, and
      each gives a character of the alphabet. */
  function DecodeTable(m: string): (r: Option<char>)
    ensures r.Some? ==> IsCode(m) && InAlphabet(r.value)
  {
    match m
    case ".-" => Some('a')
    case "-..." => Some('b')
    case "-.-." => Some('c')
    case "-.." => Some('d')
    case "." => Some('e')
    case "..-." => Some('f')
    case "--." => Some('g')
    case "...." => Some('h')
    case ".." => Some('i')
    case ".---" => Some('j')
    case "-.-" => Some('k')
    case ".-.." => Some('l')
    case "--" => Some('m')
    case "-." => Some('n')
    case "---" => Some('o')
    case ".--." => Some('p')
    case "--.-" => Some('q')
    case ".-." => Some('r')
    case "..." => Some('s')
    case "-" => Some('t')
    case "..-" => Some('u')
    case "...-" => Some('v')
    case ".--" => Some('w')
    case "-..-" => Some('x')
    case "-.--" => Some('y')
    case "--.." => Some('z')
    case ".----" => Some('1')
    case "..---" => Some('2')
    case "...--" => Some('3')
    case "....-" => Some('4')
    case "....." => Some('5')
    case "-...." => Some('6')
    case "--..." => Some('7')
    case "---.." => Some('8')
    case "----." => Some('9')
    case "-----" => Some('0')
    case "··--··" => Some('?')
    case "--··--" => Some(',')
    case "·-·-·-" => Some('.')
    case _ => None
  }

  /** The alphabet both tables cover: a-z, 0-9, '?', ',' and '.'. */
  predicate InAlphabet(c: char) {
    'a' <= c <= 'z' || '0' <= c <= '9' || c == '?' || c == ',' || c == '.'
  }

  /** A Morse letter code: not empty, and made of dots, dashes and middle dots only
      (so in particular it holds no space). */
  predicate IsCode(m: string) {
    |m| > 0 && forall i :: 0 <= i < |m| ==> m[i] in {'.', '-', '·'}
  }

  /** The encode table has an entry for exactly the characters of the alphabet. */
  lemma EncodeTableCoversAlphabet()
    ensures forall c :: EncodeTable(c).Some? <==> InAlphabet(c)
  {
  }

  /** One entry of the encode table: its code is well formed and the decode
      table maps that code back to the character. */
  lemma EncodeEntry(c: char)
    requires EncodeTable(c).Some?
    ensures IsCode(EncodeTable(c).value)
    ensures DecodeTable(EncodeTable(c).value) == Some(c)
  {
    match c
    case 'a' =>
    case 'b' =>
    case 'c' =>
    case 'd' =>
    case 'e' =>
    case 'f' =>
    case 'g' =>
    case 'h' =>
    case 'i' =>
    case 'j' =>
    case 'k' =>
    case 'l' =>
    case 'm' =>
    case 'n' =>
    case 'o' =>
    case 'p' =>
    case 'q' =>
    case 'r' =>
    case 's' =>
    case 't' =>
    case 'u' =>
    case 'v' =>
    case 'w' =>
    case 'x' =>
    case 'y' =>
    case 'z' =>
    case '1' =>
    case '2' =>
    case '3' =>
    case '4' =>
    case '5' =>
    case '6' =>
    case '7' =>
    case '8' =>
    case '9' =>
    case '0' =>
    case '?' =>
    case ',' =>
    case '.' =>
  }

  /** One entry of the decode table: the encode table maps its character back
      to the code. */
  lemma DecodeEntry(m: string)
    requires DecodeTable(m).Some?
    ensures EncodeTable(DecodeTable(m).value) == Some(m)
  {
    match m
    case ".-" =>
    case "-..." =>
    case "-.-." =>
    case "-.." =>
    case "." =>
    case "..-." =>
    case "--." =>
    case "...." =>
    case ".." =>
    case ".---" =>
    case "-.-" =>
    case ".-.." =>
    case "--" =>
    case "-." =>
    case "---" =>
    case ".--." =>
    case "--.-" =>
    case ".-." =>
    case "..." =>
    case "-" =>
    case "..-" =>
    case "...-" =>
    case ".--" =>
    case "-..-" =>
    case "-.--" =>
    case "--.." =>
    case ".----" =>
    case "..---" =>
    case "...--" =>
    case "....-" =>
    case "....." =>
    case "-...." =>
    case "--..." =>
    case "---.." =>
    case "----." =>
    case "-----" =>
    case "··--··" =>
    case "--··--" =>
    case "·-·-·-" =>
  }

  /** The two tables are inverse to each other, in both directions, and every
      code is a well-formed letter code. */
  lemma TablesAreInverse()
    ensures forall c :: EncodeTable(c).Some? ==>
      IsCode(EncodeTable(c).value) && DecodeTable(EncodeTable(c).value) == Some(c)
    ensures forall m :: DecodeTable(m).Some? ==>
      IsCode(m) && EncodeTable(DecodeTable(m).value) == Some(m)
  {
    forall c | EncodeTable(c).Some?
      ensures IsCode(EncodeTable(c).value) && DecodeTable(EncodeTable(c).value) == Some(c)
    {
      EncodeEntry(c);
    }
    forall m | DecodeTable(m).Some?
      ensures IsCode(m) && EncodeTable(DecodeTable(m).value) == Some(m)
    {
      DecodeEntry(m);
      EncodeEntry(DecodeTable(m).value);
    }
  }
}

/** The Morse code tables: the decoder's, and the two encoders' it must undo. */
module MorseCode {
  import opened Wrappers

  /** The decoder's table. */
  function MorseToChar(code: string): Option<char> {
    match code
    case ".-" => Some('A')
    case "-..." => Some('B')
    case "-.-." => Some('C')
    case "-.." => Some('D')
    case "." => Some('E')
    case "..-." => Some('F')
    case "--." => Some('G')
    case "...." => Some('H')
    case ".." => Some('I')
    case ".---" => Some('J')
    case "-.-" => Some('K')
    case ".-.." => Some('L')
    case "--" => Some('M')
    case "-." => Some('N')
    case "---" => Some('O')
    case ".--." => Some('P')
    case "--.-" => Some('Q')
    case ".-." => Some('R')
    case "..." => Some('S')
    case "-" => Some('T')
    case "..-" => Some('U')
    case "...-" => Some('V')
    case ".--" => Some('W')
    case "-..-" => Some('X')
    case "-.--" => Some('Y')
    case "--.." => Some('Z')
    case ".----" => Some('1')
    case "..---" => Some('2')
    case "...--" => Some('3')
    case "....-" => Some('4')
    case "....." => Some('5')
    case "-...." => Some('6')
    case "--..." => Some('7')
    case "---.." => Some('8')
    case "----." => Some('9')
    case "-----" => Some('0')
    case ".-.-.-" => Some('.')
    case "--..--" => Some(',')
    case "..--.." => Some('?')
    case ".----." => Some('\'')
    case "-.-.--" => Some('!')
    case "-..-." => Some('/')
    case "-.--." => Some('(')
    case "-.--.-" => Some(')')
    case ".-..." => Some('&')
    case "---..." => Some(':')
    case "-.-.-." => Some(';')
    case "-...-" => Some('=')
    case ".-.-." => Some('+')
    case "-....-" => Some('-')
    case "..--.-" => Some('_')
    case ".-..-." => Some('"')
    case "...-..-" => Some('$')
    case ".--.-." => Some('@')
    case _ => None
  }

  function ToAsciiUppercase(c: char): char {
    if 'a' <= c <= 'z' then c - 'a' + 'A' else c
  }

  /** The rough-fist encoder's table. */
  function MorseForChar(c: char): Option<string> {
    match ToAsciiUppercase(c)
    case 'A' => Some(".-")
    case 'B' => Some("-...")
    case 'C' => Some("-.-.")
    case 'D' => Some("-..")
    case 'E' => Some(".")
    case 'F' => Some("..-.")
    case 'G' => Some("--.")
    case 'H' => Some("....")
    case 'I' => Some("..")
    case 'J' => Some(".---")
    case 'K' => Some("-.-")
    case 'L' => Some(".-..")
    case 'M' => Some("--")
    case 'N' => Some("-.")
    case 'O' => Some("---")
    case 'P' => Some(".--.")
    case 'Q' => Some("--.-")
    case 'R' => Some(".-.")
    case 'S' => Some("...")
    case 'T' => Some("-")
    case 'U' => Some("..-")
    case 'V' => Some("...-")
    case 'W' => Some(".--")
    case 'X' => Some("-..-")
    case 'Y' => Some("-.--")
    case 'Z' => Some("--..")
    case '0' => Some("-----")
    case '1' => Some(".----")
    case '2' => Some("..---")
    case '3' => Some("...--")
    case '4' => Some("....-")
    case '5' => Some(".....")
    case '6' => Some("-....")
    case '7' => Some("--...")
    case '8' => Some("---..")
    case '9' => Some("----.")
    case '.' => Some(".-.-.-")
    case ',' => Some("--..--")
    case '?' => Some("..--..")
    case '/' => Some("-..-.")
    case '=' => Some("-...-")
    case '+' => Some(".-.-.")
    case '-' => Some("-....-")
    case _ => None
  }

  ghost predicate IsCode(code: string) {
    code != [] && forall i :: 0 <= i < |code| ==> code[i] == '.' || code[i] == '-'
  }

  lemma TableRoundTripAToM(c: char)
    requires 'A' <= c <= 'M'
    ensures MorseForChar(c).Some? && IsCode(MorseForChar(c).value)
    ensures MorseToChar(MorseForChar(c).value) == Some(c)
  {
  }

  lemma TableRoundTripNToZ(c: char)
    requires 'N' <= c <= 'Z'
    ensures MorseForChar(c).Some? && IsCode(MorseForChar(c).value)
    ensures MorseToChar(MorseForChar(c).value) == Some(c)
  {
  }

  lemma TableRoundTrip0To4(c: char)
    requires c == '0' || c == '1' || c == '2' || c == '3' || c == '4'
    ensures MorseForChar(c).Some? && IsCode(MorseForChar(c).value)
    ensures MorseToChar(MorseForChar(c).value) == Some(c)
  {
  }

  lemma TableRoundTrip5To9(c: char)
    requires c == '5' || c == '6' || c == '7' || c == '8' || c == '9'
    ensures MorseForChar(c).Some? && IsCode(MorseForChar(c).value)
    ensures MorseToChar(MorseForChar(c).value) == Some(c)
  {
  }

  lemma TableRoundTripStops(c: char)
    requires c == '.' || c == ',' || c == '?'
    ensures MorseForChar(c).Some? && IsCode(MorseForChar(c).value)
    ensures MorseToChar(MorseForChar(c).value) == Some(c)
  {
  }

  lemma TableRoundTripSigns(c: char)
    requires c == '/' || c == '=' || c == '+' || c == '-'
    ensures MorseForChar(c).Some? && IsCode(MorseForChar(c).value)
    ensures MorseToChar(MorseForChar(c).value) == Some(c)
  {
  }

  /** Every character that can be encoded is decoded back, in upper case; its code is never empty. */
  lemma TableRoundTrip(c: char)
    requires MorseForChar(c).Some?
    ensures IsCode(MorseForChar(c).value)
    ensures MorseToChar(MorseForChar(c).value) == Some(ToAsciiUppercase(c))
  {
    var u := ToAsciiUppercase(c);
    assert ToAsciiUppercase(u) == u && MorseForChar(c) == MorseForChar(u);
    if 'A' <= u <= 'M' {
      TableRoundTripAToM(u);
    } else if 'N' <= u <= 'Z' {
      TableRoundTripNToZ(u);
    } else if '0' <= u <= '4' {
      TableRoundTrip0To4(u);
    } else if '5' <= u <= '9' {
      TableRoundTrip5To9(u);
    } else if u == '.' || u == ',' || u == '?' {
      TableRoundTripStops(u);
    } else {
      TableRoundTripSigns(u);
    }
  }

  /** The suite generator's table: as the rough-fist one, without '+' and '-'. */
  function SuiteMorse(c: char): Option<string> {
    if c == '+' || c == '-' then None else MorseForChar(c)
  }

  /** The signs the decoder knows beyond what either encoder sends. */
  function MorseForSign(c: char): Option<string> {
    match c
    case '\'' => Some(".----.")
    case '!' => Some("-.-.--")
    case '(' => Some("-.--.")
    case ')' => Some("-.--.-")
    case '&' => Some(".-...")
    case ':' => Some("---...")
    case ';' => Some("-.-.-.")
    case '_' => Some("..--.-")
    case '"' => Some(".-..-.")
    case '$' => Some("...-..-")
    case '@' => Some(".--.-.")
    case _ => None
  }

  /** The code of a character: capital letters, figures and signs have one. */
  function CodeOf(c: char): Option<string> {
    if ToAsciiUppercase(c) != c then None
    else if MorseForChar(c).Some? then MorseForChar(c)
    else MorseForSign(c)
  }

  lemma DecodedLetter(code: string)
    requires MorseToChar(code).Some? && 'A' <= MorseToChar(code).value <= 'Z'
    ensures MorseForChar(MorseToChar(code).value) == Some(code)
  {
  }

  lemma DecodedFigure(code: string)
    requires MorseToChar(code).Some? && '0' <= MorseToChar(code).value <= '9'
    ensures MorseForChar(MorseToChar(code).value) == Some(code)
  {
  }

  lemma DecodedSign(code: string)
    requires MorseToChar(code).Some?
    requires var c := MorseToChar(code).value; !('A' <= c <= 'Z') && !('0' <= c <= '9')
    ensures CodeOf(MorseToChar(code).value) == Some(code)
  {
  }

  lemma DecodedHasCode(code: string, c: char)
    requires MorseToChar(code) == Some(c)
    ensures CodeOf(c) == Some(code)
  {
    if 'A' <= c <= 'Z' {
      DecodedLetter(code);
    } else if '0' <= c <= '9' {
      DecodedFigure(code);
    } else {
      DecodedSign(code);
    }
  }

  lemma SignRoundTrip(c: char)
    requires MorseForSign(c).Some?
    ensures MorseToChar(MorseForSign(c).value) == Some(c)
  {
  }

  /** The decoder reads a code as a character exactly when it is the code of that character. */
  lemma ReadsExactly(code: string, c: char)
    ensures MorseToChar(code) == Some(c) <==> CodeOf(c) == Some(code)
  {
    if MorseToChar(code) == Some(c) {
      DecodedHasCode(code, c);
    }
    if CodeOf(c) == Some(code) {
      if MorseForChar(c).Some? {
        TableRoundTrip(c);
      } else {
        SignRoundTrip(c);
      }
    }
  }

  /** The decoder's characters are printable, and none is the mark for an unknown code. */
  lemma DecodedIsPrintable(code: string)
    requires MorseToChar(code).Some?
    ensures '!' <= MorseToChar(code).value <= '_' && MorseToChar(code).value != '*'
  {
  }

  /** How many elements the code of a decoded character has. */
  function CodeLength(c: char): nat {
    if c == 'E' || c == 'T' then 1
    else if c == 'A' || c == 'I' || c == 'M' || c == 'N' then 2
    else if c == 'D' || c == 'G' || c == 'K' || c == 'O' || c == 'R' || c == 'S' || c == 'U' || c == 'W' then 3
    else if c == 'B' || c == 'C' || c == 'F' || c == 'H' || c == 'J' || c == 'L' || c == 'P' || c == 'Q'
      || c == 'V' || c == 'X' || c == 'Y' || c == 'Z' then 4
    else if c == '1' || c == '2' || c == '3' || c == '4' || c == '5' || c == '6' || c == '7' || c == '8'
      || c == '9' || c == '0' || c == '/' || c == '(' || c == '&' || c == '=' || c == '+' then 5
    else if c == '.' || c == ',' || c == '?' || c == '\'' || c == '!' || c == ')' || c == ':' || c == ';'
      || c == '-' || c == '_' || c == '\"' || c == '@' then 6
    else if c == '$' then 7
    else 0
  }

  lemma KnownCodeLength(code: string)
    requires MorseToChar(code).Some?
    ensures |code| == CodeLength(MorseToChar(code).value)
  {
  }

  /** A known code with more elements before it is read as another character, or as none. */
  lemma LongerReadsOtherwise(left: string, code: string)
    requires left != "" && MorseToChar(code).Some?
    ensures MorseToChar(left + code) != MorseToChar(code)
  {
    KnownCodeLength(code);
    if MorseToChar(left + code).Some? {
      KnownCodeLength(left + code);
    }
  }
}

/** The character set of the Lincoln Writer: 64 codes, two keyboards, three scripts. */
module LincolnCharset {
  import opened Words

  type Code = c: nat | c < 64

  datatype Colour = Black | Red

  /** Which keyboard is selected. The lower one has the capital letters. */
  datatype Keyboard = Lower | Upper

  datatype LincolnState = LincolnState(script: Script, board: Keyboard, colour: Colour)

  const DEFAULT_STATE: LincolnState := LincolnState(Normal, Lower, Black)

  /** What a code stands for before the script is taken into account. */
  datatype Key = Printed(base: char) | Unprintable | ModeOnly

  /** The changes of mode that a code makes. */
  function Update(code: Code, s: LincolnState): LincolnState {
    match code
    case 0x30 => s.(script := Normal, board := Lower)
    case 0x33 => s.(colour := Black)
    case 0x34 => s.(script := Super)
    case 0x35 => s.(script := Normal)
    case 0x36 => s.(script := Sub)
    case 0x37 => s.(colour := Red)
    case 0x3C => s.(board := Lower)
    case 0x3D => s.(board := Upper)
    case _ => s
  }

  /**
   * What the codes do to the writer: carriage return goes back to normal script and the lower
   * keyboard but keeps the colour, seven codes change one thing each, the others nothing.
   */
  lemma CodesThatChangeMode(code: Code, s: LincolnState)
    ensures Update(code, s).script ==
      if code == 0x30 || code == 0x35 then Normal
      else if code == 0x34 then Super
      else if code == 0x36 then Sub
      else s.script
    ensures Update(code, s).board ==
      if code == 0x30 || code == 0x3C then Lower else if code == 0x3D then Upper else s.board
    ensures Update(code, s).colour ==
      if code == 0x33 then Black else if code == 0x37 then Red else s.colour
  {
  }

  function ByCase(lower: char, upper: char, board: Keyboard): char {
    if board.Upper? then upper else lower
  }

  function KeyOf(code: Code, board: Keyboard): Key {
    match code
    case 0x00 => Printed(ByCase('0', '\U{261B}', board))
    case 0x01 => Printed(ByCase('1', '\U{03A3}', board))
    case 0x02 => Printed(ByCase('2', '|', board))
    case 0x03 => Printed(ByCase('3', '\U{2016}', board))
    case 0x04 => Printed(ByCase('4', '/', board))
    case 0x05 => Printed(ByCase('5', '\U{00D7}', board))
    case 0x06 => Printed(ByCase('6', '#', board))
    case 0x07 => Printed(ByCase('7', '\U{2192}', board))
    case 0x08 => Printed(ByCase('8', '<', board))
    case 0x09 => Printed(ByCase('9', '>', board))
    case 0x0A => Printed(ByCase('\U{0332}', '\U{0305}', board))
    case 0x0B => Printed(ByCase('\U{20DD}', '\U{20DE}', board))
    case 0x0C => Unprintable
    case 0x0D => Unprintable
    case 0x0E => Unprintable
    case 0x0F => Unprintable
    case 0x10 => Printed(ByCase('A', 'n', board))
    case 0x11 => Printed(ByCase('B', '\U{2282}', board))
    case 0x12 => Printed(ByCase('C', '\U{2228}', board))
    case 0x13 => Printed(ByCase('D', 'q', board))
    case 0x14 => Printed(ByCase('E', '\U{03B3}', board))
    case 0x15 => Printed(ByCase('F', 't', board))
    case 0x16 => Printed(ByCase('G', 'w', board))
    case 0x17 => Printed(ByCase('H', 'x', board))
    case 0x18 => Printed(ByCase('I', 'i', board))
    case 0x19 => Printed(ByCase('J', 'y', board))
    case 0x1A => Printed(ByCase('K', 'z', board))
    case 0x1B => Printed(ByCase('L', '?', board))
    case 0x1C => Printed(ByCase('M', '\U{222A}', board))
    case 0x1D => Printed(ByCase('N', '\U{2229}', board))
    case 0x1E => Printed(ByCase('O', 'j', board))
    case 0x1F => Printed(ByCase('P', 'k', board))
    case 0x20 => Printed(ByCase('Q', '\U{03B1}', board))
    case 0x21 => Printed(ByCase('R', '\U{0394}', board))
    case 0x22 => Printed(ByCase('S', 'p', board))
    case 0x23 => Printed(ByCase('T', '\U{03B5}', board))
    case 0x24 => Printed(ByCase('U', 'h', board))
    case 0x25 => Printed(ByCase('V', '\U{2283}', board))
    case 0x26 => Printed(ByCase('W', '\U{03B2}', board))
    case 0x27 => Printed(ByCase('X', '\U{2227}', board))
    case 0x28 => Printed(ByCase('Y', '\U{03BB}', board))
    case 0x29 => Printed(ByCase('Z', '~', board))
    case 0x2A => Printed(ByCase('(', '{', board))
    case 0x2B => Printed(ByCase(')', '}', board))
    case 0x2C => Printed(ByCase('+', '\U{2261}', board))
    case 0x2D => Printed(ByCase('-', '=', board))
    case 0x2E => Printed(ByCase(',', '\'', board))
    case 0x2F => Printed(ByCase('.', '*', board))
    case 0x30 => Printed('\U{000D}')
    case 0x31 => Printed('\U{0009}')
    case 0x32 => Printed('\U{0008}')
    case 0x33 => ModeOnly
    case 0x34 => ModeOnly
    case 0x35 => ModeOnly
    case 0x36 => ModeOnly
    case 0x37 => ModeOnly
    case 0x38 => Printed(' ')
    case 0x39 => Unprintable
    case 0x3A => Printed('\U{000A}')
    case 0x3B => Printed('\U{008D}')
    case 0x3C => ModeOnly
    case 0x3D => ModeOnly
    case 0x3E => Unprintable
    case 0x3F => Printed('\U{007F}')
  }

  function SubscriptChar(ch: char): Option<char> {
    match ch
    case '0' => Some('\U{2080}')
    case '1' => Some('\U{2081}')
    case '2' => Some('\U{2082}')
    case '3' => Some('\U{2083}')
    case '4' => Some('\U{2084}')
    case '5' => Some('\U{2085}')
    case '6' => Some('\U{2086}')
    case '7' => Some('\U{2087}')
    case '8' => Some('\U{2088}')
    case '9' => Some('\U{2089}')
    case '+' => Some('\U{208A}')
    case '-' => Some('\U{208B}')
    case '.' => Some('.')
    case _ => None
  }

  function SuperscriptChar(ch: char): Option<char> {
    match ch
    case '0' => Some('\U{2070}')
    case '1' => Some('\U{00B9}')
    case '2' => Some('\U{00B2}')
    case '3' => Some('\U{00B3}')
    case '4' => Some('\U{2074}')
    case '5' => Some('\U{2075}')
    case '6' => Some('\U{2076}')
    case '7' => Some('\U{2077}')
    case '8' => Some('\U{2078}')
    case '9' => Some('\U{2079}')
    case 'A' => Some('\U{1D2C}')
    case 'B' => Some('\U{1D2E}')
    case 'C' => Some('\U{A7F2}')
    case 'D' => Some('\U{1D30}')
    case 'E' => Some('\U{1D31}')
    case 'F' => Some('\U{A7F3}')
    case 'G' => Some('\U{1D33}')
    case 'H' => Some('\U{1D34}')
    case 'I' => Some('\U{1D35}')
    case 'J' => Some('\U{1D36}')
    case 'K' => Some('\U{1D37}')
    case 'L' => Some('\U{1D38}')
    case 'M' => Some('\U{1D39}')
    case 'N' => Some('\U{1D3A}')
    case 'O' => Some('\U{1D3C}')
    case 'P' => Some('\U{1D3E}')
    case 'Q' => Some('\U{A7F4}')
    case 'R' => Some('\U{1D3F}')
    case 'T' => Some('\U{1D40}')
    case 'U' => Some('\U{1D41}')
    case 'V' => Some('\U{2C7D}')
    case 'W' => Some('\U{1D42}')
    case 'X' => Some('\U{2093}')
    case '+' => Some('\U{207A}')
    case '-' => Some('\U{207B}')
    case _ => None
  }

  function InScript(ch: char, script: Script): Option<char> {
    match script
    case Normal => Some(ch)
    case Sub => SubscriptChar(ch)
    case Super => SuperscriptChar(ch)
  }

  /** The character that the full stop key prints; it has no subscript form of its own. */
  lemma FullStopIsOneKey(code: Code, board: Keyboard, script: Script)
    requires KeyOf(code, board).Printed? && InScript(KeyOf(code, board).base, script) == Some('.')
    ensures code == 0x2F && board == Lower && script != Super
  {
  }
}

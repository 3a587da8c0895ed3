/**
 * Assembly mode of the paper tape: six lines of six bits make a word, each line spread over
 * every sixth bit while what came before moves one place to the left.
 */
module Splay {

  type Word = bv36

  /** A line of tape. */
  type Line = b: Word | b & 0x3F == b

  const LOWEST_BITS: Word := 0x4104_1041

  function RotateLeft(w: Word): Word {
    (w << 1) | (w >> 35)
  }

  function CycleAndSplay(target: Word, bits: Line): Word {
    var newBits := (bits & 0x01) | ((bits & 0x02) << 5) | ((bits & 0x04) << 10)
      | ((bits & 0x08) << 15) | ((bits & 0x10) << 20) | ((bits & 0x20) << 25);
    (RotateLeft(target) & !LOWEST_BITS) | newBits
  }

  /** The line whose lowest bit is bit 0 of `w`. */
  function LineAt(w: Word): Line {
    (if w & 0x1 == 0 then 0 else 0x01)
    | (if w & 0x40 == 0 then 0 else 0x02)
    | (if w & 0x1000 == 0 then 0 else 0x04)
    | (if w & 0x4_0000 == 0 then 0 else 0x08)
    | (if w & 0x100_0000 == 0 then 0 else 0x10)
    | (if w & 0x4000_0000 == 0 then 0 else 0x20)
  }

  /** One of the six lines of a word; line 0 was read last. */
  function LineFrom(w: Word, n: nat): Line
    requires n < 6
  {
    match n
    case 0 => LineAt(w)
    case 1 => LineAt(w >> 1)
    case 2 => LineAt(w >> 2)
    case 3 => LineAt(w >> 3)
    case 4 => LineAt(w >> 4)
    case 5 => LineAt(w >> 5)
  }

  /** The bits of a line are every sixth of the word, counted from the bit that the line begins at. */
  predicate IsEverySixthBit(line: Line, from: Word) {
    && line & 1 == from & 1 && (line >> 1) & 1 == (from >> 6) & 1 && (line >> 2) & 1 == (from >> 12) & 1
    && (line >> 3) & 1 == (from >> 18) & 1 && (line >> 4) & 1 == (from >> 24) & 1
    && (line >> 5) & 1 == (from >> 30) & 1
  }

  lemma SixthBits(v: Word)
    ensures IsEverySixthBit(LineAt(v), v)
  {
  }

  /** Line `n` begins at bit `n` of the word. */
  lemma LinesBegin(w: Word)
    ensures IsEverySixthBit(LineFrom(w, 0), w) && IsEverySixthBit(LineFrom(w, 1), w >> 1)
    ensures IsEverySixthBit(LineFrom(w, 2), w >> 2) && IsEverySixthBit(LineFrom(w, 3), w >> 3)
    ensures IsEverySixthBit(LineFrom(w, 4), w >> 4) && IsEverySixthBit(LineFrom(w, 5), w >> 5)
  {
    hide LineAt;
    hide IsEverySixthBit;
    SixthBits(w);
    SixthBits(w >> 1);
    SixthBits(w >> 2);
    SixthBits(w >> 3);
    SixthBits(w >> 4);
    SixthBits(w >> 5);
  }

  /** The lines of a word, the first one punched first. */
  function Unsplay(source: Word): (lines: seq<Line>)
    ensures |lines| == 6
  {
    [LineFrom(source, 5), LineFrom(source, 4), LineFrom(source, 3),
     LineFrom(source, 2), LineFrom(source, 1), LineFrom(source, 0)]
  }

  /** The word after reading a stretch of tape. */
  function Load(w: Word, tape: seq<Line>): Word
    decreases |tape|
  {
    if tape == [] then w else Load(CycleAndSplay(w, tape[0]), tape[1..])
  }

  lemma LinesMoveOn(w: Word, bits: Line)
    ensures LineFrom(CycleAndSplay(w, bits), 1) == LineFrom(w, 0)
    ensures LineFrom(CycleAndSplay(w, bits), 2) == LineFrom(w, 1)
  {
  }

  lemma LaterLinesMoveOn(w: Word, bits: Line)
    ensures LineFrom(CycleAndSplay(w, bits), 3) == LineFrom(w, 2)
    ensures LineFrom(CycleAndSplay(w, bits), 4) == LineFrom(w, 3)
    ensures LineFrom(CycleAndSplay(w, bits), 5) == LineFrom(w, 4)
  {
  }

  lemma LineGoesFirst(w: Word, bits: Line)
    ensures LineFrom(CycleAndSplay(w, bits), 0) == bits
  {
  }

  /** Reading a line puts it first and moves each of the others to the next place. */
  lemma OneMoreLine(w: Word, bits: Line)
    ensures LineFrom(CycleAndSplay(w, bits), 0) == bits
    ensures LineFrom(CycleAndSplay(w, bits), 1) == LineFrom(w, 0)
    ensures LineFrom(CycleAndSplay(w, bits), 2) == LineFrom(w, 1)
    ensures LineFrom(CycleAndSplay(w, bits), 3) == LineFrom(w, 2)
    ensures LineFrom(CycleAndSplay(w, bits), 4) == LineFrom(w, 3)
    ensures LineFrom(CycleAndSplay(w, bits), 5) == LineFrom(w, 4)
  {
    hide LineFrom;
    hide CycleAndSplay;
    LineGoesFirst(w, bits);
    LinesMoveOn(w, bits);
    LaterLinesMoveOn(w, bits);
  }

  /** The bits of a word that line `n` is made of. */
  function BitsOf(w: Word, n: nat): Word
    requires n < 6
  {
    match n
    case 0 => w & LOWEST_BITS
    case 1 => (w >> 1) & LOWEST_BITS
    case 2 => (w >> 2) & LOWEST_BITS
    case 3 => (w >> 3) & LOWEST_BITS
    case 4 => (w >> 4) & LOWEST_BITS
    case 5 => (w >> 5) & LOWEST_BITS
  }

  lemma SameLineSameBits(v: Word, w: Word)
    requires LineAt(v) == LineAt(w)
    ensures v & LOWEST_BITS == w & LOWEST_BITS
  {
  }

  lemma LineGivesBits(v: Word, w: Word, n: nat)
    requires n < 6 && LineFrom(v, n) == LineFrom(w, n)
    ensures BitsOf(v, n) == BitsOf(w, n)
  {
    hide LineAt;
    match n
    case 0 => SameLineSameBits(v, w);
    case 1 => SameLineSameBits(v >> 1, w >> 1);
    case 2 => SameLineSameBits(v >> 2, w >> 2);
    case 3 => SameLineSameBits(v >> 3, w >> 3);
    case 4 => SameLineSameBits(v >> 4, w >> 4);
    case 5 => SameLineSameBits(v >> 5, w >> 5);
  }

  lemma BitsGiveWord(v: Word, w: Word)
    requires BitsOf(v, 0) == BitsOf(w, 0) && BitsOf(v, 1) == BitsOf(w, 1) && BitsOf(v, 2) == BitsOf(w, 2)
    requires BitsOf(v, 3) == BitsOf(w, 3) && BitsOf(v, 4) == BitsOf(w, 4) && BitsOf(v, 5) == BitsOf(w, 5)
    ensures v == w
  {
  }

  /** A word is determined by its lines. */
  lemma SameLinesSameWord(v: Word, w: Word)
    requires Unsplay(v) == Unsplay(w)
    ensures v == w
  {
    hide LineFrom;
    hide BitsOf;
    forall n: nat | n < 6 ensures BitsOf(v, n) == BitsOf(w, n) {
      assert Unsplay(v)[5 - n] == Unsplay(w)[5 - n];
      LineGivesBits(v, w, n);
    }
    BitsGiveWord(v, w);
  }

  lemma ReadingShiftsTheLines(w: Word, bits: Line)
    ensures Unsplay(CycleAndSplay(w, bits)) == Unsplay(w)[1..] + [bits]
  {
    hide LineFrom;
    hide CycleAndSplay;
    OneMoreLine(w, bits);
  }

  /** The lines of the word are the last six lines: those of the tape, after those it had. */
  lemma {:induction false} LinesFollowTheTape(w: Word, tape: seq<Line>)
    ensures Unsplay(Load(w, tape)) == (Unsplay(w) + tape)[|tape|..]
    decreases |tape|
  {
    hide Unsplay;
    hide CycleAndSplay;
    if tape == [] {
      assert (Unsplay(w) + tape)[0..] == Unsplay(w);
    } else {
      var next := CycleAndSplay(w, tape[0]);
      ReadingShiftsTheLines(w, tape[0]);
      LinesFollowTheTape(next, tape[1..]);
      assert Unsplay(next) + tape[1..] == (Unsplay(w) + tape)[1..];
    }
  }

  /**
   * Main result: after a tape of at least six lines the word is the last six lines and
   * nothing else, whatever the word and the tape were before.
   */
  lemma LastSixLinesDecide(w: Word, w': Word, tape: seq<Line>, tape': seq<Line>)
    requires |tape| >= 6 && |tape'| >= 6 && tape[|tape| - 6..] == tape'[|tape'| - 6..]
    ensures Unsplay(Load(w, tape)) == tape[|tape| - 6..]
    ensures Load(w, tape) == Load(w', tape')
  {
    LinesFollowTheTape(w, tape);
    LinesFollowTheTape(w', tape');
    assert (Unsplay(w) + tape)[|tape|..] == tape[|tape| - 6..];
    assert (Unsplay(w') + tape')[|tape'|..] == tape'[|tape'| - 6..];
    SameLinesSameWord(Load(w, tape), Load(w', tape'));
  }

  /** Main result: the lines of any word, read into any word, give it back. */
  lemma SplayUndoesUnsplay(w: Word, before: Word)
    ensures Load(before, Unsplay(w)) == w
  {
    LinesFollowTheTape(before, Unsplay(w));
    assert (Unsplay(before) + Unsplay(w))[6..] == Unsplay(w);
    SameLinesSameWord(Load(before, Unsplay(w)), w);
  }

  /** Reads a tape line by line, as the reader delivers it. */
  method ReadTape(w: Word, tape: seq<Line>) returns (r: Word)
    ensures r == Load(w, tape)
    ensures |tape| >= 6 ==> Unsplay(r) == tape[|tape| - 6..]
  {
    hide CycleAndSplay;
    hide LineFrom;
    r := w;
    for i := 0 to |tape|
      invariant Load(w, tape) == Load(r, tape[i..])
    {
      assert tape[i..][1..] == tape[i + 1..];
      r := CycleAndSplay(r, tape[i]);
    }
    if |tape| >= 6 {
      LastSixLinesDecide(w, w, tape, tape);
    }
  }
}

/**
 * Turning Lincoln Writer codes into text and back.  Codes that select a keyboard or a
 * script stay in force until the next one, and a carriage return resets both.
 */
module LincolnCodec {
  import opened Words
  import opened LincolnCharset

  /** The state after a code, and the key that the code is then. */
  function Describe(code: Code, s: LincolnState): (LincolnState, Key) {
    var after := Update(code, s);
    (after, KeyOf(code, after.board))
  }

  /** The character printed by `code` when the machine is in state `s`, if it prints one. */
  function Display(code: Code, s: LincolnState): Option<char> {
    var (after, key) := Describe(code, s);
    if key.Printed? then InScript(key.base, after.script) else None
  }

  datatype Decoded =
    | Text(text: string)
    | CannotSubscript(code: Code, base: char)
    | CannotSuperscript(code: Code, base: char)

  /** The text that codes print, starting in state `s`. */
  function Decode(codes: seq<Code>, s: LincolnState): Decoded
    decreases |codes|
  {
    if codes == [] then Text("")
    else
      var (after, key) := Describe(codes[0], s);
      if !key.Printed? then Decode(codes[1..], after)
      else
        match InScript(key.base, after.script)
        case Some(ch) =>
          var rest := Decode(codes[1..], after);
          if rest.Text? then Text([ch] + rest.text) else rest
        case None =>
          if after.script.Sub? then CannotSubscript(codes[0], key.base) else CannotSuperscript(codes[0], key.base)
  }

  // ----- the table for the way back -----

  /** A code, and the state in which it prints the character. */
  datatype LincChar = LincChar(state: LincolnState, value: Code)

  type Mapping = map<char, LincChar>

  const COMBINATIONS: int := 384

  /** All states and codes, in the order in which the table is filled. */
  function StateAt(n: nat): LincolnState
    requires n < COMBINATIONS
  {
    var script := if n < 128 then Normal else if n < 256 then Super else Sub;
    LincolnState(script, if n / 64 % 2 == 0 then Lower else Upper, Black)
  }

  function CodeAt(n: nat): Code {
    n % 64
  }

  type Item = Option<(char, LincChar)>

  /** What one code contributes to the table, tried in one state. */
  function ItemAt(n: nat): Item
    requires n < COMBINATIONS
  {
    var display := Display(CodeAt(n), StateAt(n));
    if display.Some? then Some((display.value, LincChar(Update(CodeAt(n), StateAt(n)), CodeAt(n)))) else None
  }

  function Items(limit: nat): (items: seq<Item>)
    requires limit <= COMBINATIONS
    ensures |items| == limit && forall n :: 0 <= n < limit ==> items[n] == ItemAt(n)
  {
    seq(limit, n requires 0 <= n < limit => ItemAt(n))
  }

  predicate Prints(item: Item, ch: char) {
    item.Some? && item.value.0 == ch
  }

  /** Item `n` prints `ch`, and no later one does. */
  ghost predicate IsLastFor(items: seq<Item>, ch: char, n: nat) {
    n < |items| && Prints(items[n], ch) && forall k :: n < k < |items| ==> !Prints(items[k], ch)
  }

  /** The table holds for each character the last item that prints it, and nothing else. */
  ghost predicate LastWins(m: Mapping, items: seq<Item>) {
    && (forall n :: 0 <= n < |items| && items[n].Some? ==> items[n].value.0 in m)
    && (forall ch <- m :: exists n: nat :: IsLastFor(items, ch, n) && m[ch] == items[n].value.1)
  }

  lemma OneMoreItem(m: Mapping, items: seq<Item>, item: Item)
    requires LastWins(m, items)
    ensures LastWins(if item.Some? then m[item.value.0 := item.value.1] else m, items + [item])
  {
    var more := items + [item];
    var m' := if item.Some? then m[item.value.0 := item.value.1] else m;
    forall ch | ch in m' ensures exists k: nat :: IsLastFor(more, ch, k) && m'[ch] == more[k].value.1 {
      if Prints(item, ch) {
        assert IsLastFor(more, ch, |items|);
      } else {
        var k: nat :| IsLastFor(items, ch, k) && m[ch] == items[k].value.1;
        assert IsLastFor(more, ch, k);
      }
    }
  }

  lemma IndexSplits(i: nat, j: nat, value: Code)
    requires i < 3 && j < 2
    ensures var n := i * 128 + j * 64 + value;
      n < COMBINATIONS && CodeAt(n) == value
      && StateAt(n) == LincolnState([Normal, Super, Sub][i], [Lower, Upper][j], Black)
  {
  }

  lemma NextItem(m: Mapping, n: nat, code: Code, s: LincolnState)
    requires n < COMBINATIONS && StateAt(n) == s && CodeAt(n) == code && LastWins(m, Items(n))
    ensures LastWins(Added(m, code, s), Items(n + 1))
  {
    OneMoreItem(m, Items(n), ItemAt(n));
    assert Items(n + 1) == Items(n) + [ItemAt(n)];
  }

  function Added(m: Mapping, code: Code, s: LincolnState): Mapping {
    var display := Display(code, s);
    if display.Some? then m[display.value := LincChar(Update(code, s), code)] else m
  }

  /** Every code is tried in every script and with both keyboards; later entries win. */
  method BuildMapping() returns (m: Mapping)
    ensures LastWins(m, Items(COMBINATIONS))
  {
    m := map[];
    ghost var n := 0;
    var scripts, boards := [Normal, Super, Sub], [Lower, Upper];
    for i := 0 to 3
      invariant n == i * 128 && LastWins(m, Items(n))
    {
      for j := 0 to 2
        invariant n == i * 128 + j * 64 && LastWins(m, Items(n))
      {
        var s := LincolnState(scripts[i], boards[j], Black);
        for value := 0 to 64
          invariant n == i * 128 + j * 64 + value && LastWins(m, Items(n))
        {
          IndexSplits(i, j, value);
          NextItem(m, n, value, s);
          m := Added(m, value, s);
          n := n + 1;
        }
      }
    }
  }

  // ----- encoding -----

  datatype Encoded = Codes(codes: seq<Code>) | NoMapping(ch: char)

  function BoardCode(board: Keyboard): Code {
    if board.Upper? then 0x3D else 0x3C
  }

  function ScriptCode(script: Script): Code {
    match script
    case Super => 0x34
    case Normal => 0x35
    case Sub => 0x36
  }

  /** The codes for one character, given the keyboard and script known to be in force. */
  function CodesFor(l: LincChar, board: Option<Keyboard>, script: Option<Script>): (codes: seq<Code>)
    ensures 1 <= |codes| <= 3
  {
    (if board == Some(l.state.board) then [] else [BoardCode(l.state.board)])
    + (if script == Some(l.state.script) then [] else [ScriptCode(l.state.script)])
    + [l.value]
  }

  function Encode(m: Mapping, text: string, board: Option<Keyboard>, script: Option<Script>): Encoded
    decreases |text|
  {
    if text == "" then Codes([])
    else if text[0] !in m then NoMapping(text[0])
    else
      var l := m[text[0]];
      var rest := Encode(m, text[1..], Some(l.state.board), Some(l.state.script));
      if rest.Codes? then Codes(CodesFor(l, board, script) + rest.codes) else rest
  }

  /** The table is right about every character it has. */
  ghost predicate IsFaithful(m: Mapping) {
    forall ch <- m :: Display(m[ch].value, m[ch].state) == Some(ch) && Update(m[ch].value, m[ch].state) == m[ch].state
  }

  lemma UpdateTwiceIsOnce(code: Code, s: LincolnState)
    ensures Update(code, Update(code, s)) == Update(code, s)
    ensures Display(code, Update(code, s)) == Display(code, s)
  {
  }

  lemma ItemIsFaithful(n: nat)
    requires n < COMBINATIONS && ItemAt(n).Some?
    ensures var (ch, l) := ItemAt(n).value; Display(l.value, l.state) == Some(ch) && Update(l.value, l.state) == l.state
  {
    UpdateTwiceIsOnce(CodeAt(n), StateAt(n));
  }

  lemma TableIsFaithful(m: Mapping)
    requires LastWins(m, Items(COMBINATIONS))
    ensures IsFaithful(m)
  {
    var items := Items(COMBINATIONS);
    forall ch | ch in m
      ensures Display(m[ch].value, m[ch].state) == Some(ch) && Update(m[ch].value, m[ch].state) == m[ch].state
    {
      var n: nat :| IsLastFor(items, ch, n) && m[ch] == items[n].value.1;
      ItemIsFaithful(n);
    }
  }

  /** The codes for one character print it, and leave the state that the encoder assumes. */
  lemma CharacterDecodes(l: LincChar, ch: char, board: Option<Keyboard>, script: Option<Script>, s: LincolnState,
      rest: seq<Code>)
    requires Display(l.value, l.state) == Some(ch) && Update(l.value, l.state) == l.state
    requires (board.Some? ==> s.board == board.value) && (script.Some? ==> s.script == script.value)
    ensures var after := LincolnState(l.state.script, l.state.board, s.colour);
      Decode(CodesFor(l, board, script) + rest, s)
        == (var tail := Decode(rest, after); if tail.Text? then Text([ch] + tail.text) else tail)
  {
    hide Decode;
    hide Display;
    hide Update;
    var after := LincolnState(l.state.script, l.state.board, s.colour);
    var boardCodes := if board == Some(l.state.board) then [] else [BoardCode(l.state.board)];
    var scriptCodes := if script == Some(l.state.script) then [] else [ScriptCode(l.state.script)];
    ModeCodeDecodes(boardCodes, scriptCodes + ([l.value] + rest), s, s.(board := l.state.board));
    ModeCodeDecodes(scriptCodes, [l.value] + rest, s.(board := l.state.board), after);
    ValueDecodes(l, ch, s.colour, rest);
    assert CodesFor(l, board, script) + rest == boardCodes + (scriptCodes + ([l.value] + rest));
  }

  lemma ValueDecodes(l: LincChar, ch: char, colour: Colour, rest: seq<Code>)
    requires Display(l.value, l.state) == Some(ch) && Update(l.value, l.state) == l.state
    ensures var after := l.state.(colour := colour);
      Decode([l.value] + rest, after) ==
      (var tail := Decode(rest, after); if tail.Text? then Text([ch] + tail.text) else tail)
  {
    ColourDoesNotMatter(l.value, l.state, colour);
    hide KeyOf;
    assert ([l.value] + rest)[1..] == rest;
  }

  lemma ModeCodesPrintNothing(s: LincolnState)
    ensures KeyOf(BoardCode(s.board), s.board).ModeOnly?
    ensures forall board :: KeyOf(ScriptCode(s.script), board).ModeOnly?
  {
  }

  lemma ModeCodeDecodes(codes: seq<Code>, rest: seq<Code>, s: LincolnState, after: LincolnState)
    requires (codes == [] && after == s)
      || (codes == [BoardCode(after.board)] && after == s.(board := after.board))
      || (codes == [ScriptCode(after.script)] && after == s.(script := after.script))
    ensures Decode(codes + rest, s) == Decode(rest, after)
  {
    ModeCodesPrintNothing(after);
    hide KeyOf;
    if codes == [] {
      assert codes + rest == rest;
    } else {
      assert (codes + rest)[1..] == rest;
    }
  }

  lemma ColourDoesNotMatter(code: Code, s: LincolnState, colour: Colour)
    requires Update(code, s) == s && Display(code, s).Some?
    ensures Update(code, s.(colour := colour)) == s.(colour := colour)
    ensures Display(code, s.(colour := colour)) == Display(code, s)
  {
  }

  /**
   * Main result: what `Encode` accepts, decoding gives back, from whatever state the
   * decoder is in when it starts.
   */
  lemma {:induction false} DecodeUndoesEncode(
      m: Mapping, text: string, board: Option<Keyboard>, script: Option<Script>, s: LincolnState)
    requires IsFaithful(m) && Encode(m, text, board, script).Codes?
    requires (board.Some? ==> s.board == board.value) && (script.Some? ==> s.script == script.value)
    ensures Decode(Encode(m, text, board, script).codes, s) == Text(text)
    decreases |text|
  {
    hide KeyOf;
    if text != "" {
      var l := m[text[0]];
      var after := LincolnState(l.state.script, l.state.board, s.colour);
      var rest := Encode(m, text[1..], Some(l.state.board), Some(l.state.script));
      DecodeUndoesEncode(m, text[1..], Some(l.state.board), Some(l.state.script), after);
      assert Decode(rest.codes, after) == Text(text[1..]);
      CharacterDecodes(l, text[0], board, script, s, rest.codes);
      assert [text[0]] + text[1..] == text;
    }
  }

  lemma {:induction false} AtMostThreeCodesEach(m: Mapping, text: string, board: Option<Keyboard>,
      script: Option<Script>)
    requires Encode(m, text, board, script).Codes?
    ensures |text| <= |Encode(m, text, board, script).codes| <= 3 * |text|
    decreases |text|
  {
    if text != "" {
      var l := m[text[0]];
      AtMostThreeCodesEach(m, text[1..], Some(l.state.board), Some(l.state.script));
    }
  }

  // ----- what is accepted -----

  ghost predicate Displayable(ch: char) {
    exists code: Code, s: LincolnState :: Display(code, s) == Some(ch)
  }

  lemma {:induction false} EncodesIffInTable(m: Mapping, text: string, board: Option<Keyboard>, script: Option<Script>)
    ensures Encode(m, text, board, script).Codes? <==> forall i :: 0 <= i < |text| ==> text[i] in m
    decreases |text|
  {
    if text != "" && text[0] in m {
      var l := m[text[0]];
      EncodesIffInTable(m, text[1..], Some(l.state.board), Some(l.state.script));
      assert forall i :: 1 <= i < |text| ==> text[i] == text[1..][i - 1];
    }
  }

  /** Where the table has the entry for a code tried in a state. */
  function IndexOf(code: Code, s: LincolnState): (n: nat)
    ensures n < COMBINATIONS && CodeAt(n) == code && StateAt(n) == s.(colour := Black)
  {
    (match s.script case Normal => 0 case Super => 128 case Sub => 256) + (if s.board.Upper? then 64 else 0) + code
  }

  lemma TableHasExactlyTheDisplayable(m: Mapping, ch: char)
    requires LastWins(m, Items(COMBINATIONS))
    ensures ch in m <==> Displayable(ch)
  {
    TableIsFaithful(m);
    if Displayable(ch) {
      var code: Code, s: LincolnState :| Display(code, s) == Some(ch);
      var n := IndexOf(code, s);
      DisplayIgnoresColour(code, s);
      assert Items(COMBINATIONS)[n].Some?;
    }
  }

  lemma DisplayIgnoresColour(code: Code, s: LincolnState)
    ensures Display(code, s.(colour := Black)) == Display(code, s)
  {
  }

  /** Whatever the decoder prints, the encoder accepts, and decoding that prints it again. */
  lemma DecodedTextRoundTrips(m: Mapping, codes: seq<Code>, s: LincolnState, s': LincolnState)
    requires LastWins(m, Items(COMBINATIONS)) && Decode(codes, s).Text?
    ensures var encoded := Encode(m, Decode(codes, s).text, None, None);
      encoded.Codes? && Decode(encoded.codes, s') == Decode(codes, s)
  {
    var text := Decode(codes, s).text;
    DecodedIsDisplayable(codes, s);
    forall i | 0 <= i < |text| ensures text[i] in m {
      TableHasExactlyTheDisplayable(m, text[i]);
    }
    EncodesIffInTable(m, text, None, None);
    TableIsFaithful(m);
    DecodeUndoesEncode(m, text, None, None, s');
  }

  lemma {:induction false} DecodedIsDisplayable(codes: seq<Code>, s: LincolnState)
    requires Decode(codes, s).Text?
    ensures forall i :: 0 <= i < |Decode(codes, s).text| ==> Displayable(Decode(codes, s).text[i])
    decreases |codes|
  {
    if codes != [] {
      var after := Update(codes[0], s);
      DecodedIsDisplayable(codes[1..], after);
      var text := Decode(codes, s).text;
      if Display(codes[0], s).Some? {
        assert text == [Display(codes[0], s).value] + Decode(codes[1..], after).text;
      }
    }
  }

  /**
   * The full stop prints alike in normal script and as a subscript.  The later entry wins,
   * so a full stop is always encoded as a subscript.
   */
  lemma FullStopIsEncodedAsSubscript(m: Mapping)
    requires LastWins(m, Items(COMBINATIONS))
    ensures '.' in m && m['.'] == LincChar(LincolnState(Sub, Lower, Black), 0x2F)
  {
    var items := Items(COMBINATIONS);
    SubscriptFullStop(303);
    assert Prints(items[303], '.');
    var k: nat :| IsLastFor(items, '.', k) && m['.'] == items[k].value.1;
    LastFullStop(k);
  }

  lemma SubscriptFullStop(n: nat)
    requires n == 303
    ensures ItemAt(n) == Some(('.', LincChar(LincolnState(Sub, Lower, Black), 0x2F)))
  {
    var s := LincolnState(Sub, Lower, Black);
    assert CodeAt(n) == 0x2F && StateAt(n) == s && Update(0x2F, s) == s;
    assert KeyOf(0x2F, Lower) == Printed('.');
  }

  lemma LastFullStop(k: nat)
    requires 303 <= k < COMBINATIONS && Prints(ItemAt(k), '.')
    ensures k == 303
  {
    var code, s := CodeAt(k), StateAt(k);
    FullStopIsOneKey(code, Update(code, s).board, Update(code, s).script);
    assert s.board == Lower;
  }

  // ----- the conversions themselves -----

  /** Main result: what the encoder accepts, how much it emits, and that decoding undoes it. */
  lemma EncodingIsFaithful(m: Mapping, text: string, s: LincolnState)
    requires LastWins(m, Items(COMBINATIONS))
    ensures var encoded := Encode(m, text, None, None);
      && (encoded.Codes? <==> forall i :: 0 <= i < |text| ==> Displayable(text[i]))
      && (encoded.Codes? ==> Decode(encoded.codes, s) == Text(text) && |encoded.codes| <= 3 * |text|)
  {
    TableIsFaithful(m);
    forall i | 0 <= i < |text| ensures text[i] in m <==> Displayable(text[i]) {
      TableHasExactlyTheDisplayable(m, text[i]);
    }
    EncodesIffInTable(m, text, None, None);
    if Encode(m, text, None, None).Codes? {
      DecodeUndoesEncode(m, text, None, None, s);
      AtMostThreeCodesEach(m, text, None, None);
    }
  }

  function Prepend(codes: seq<Code>, rest: Encoded): Encoded {
    if rest.Codes? then Codes(codes + rest.codes) else rest
  }

  method ToLincoln(m: Mapping, text: string) returns (r: Encoded)
    ensures r == Encode(m, text, None, None)
  {
    var result: seq<Code> := [];
    var board: Option<Keyboard>, script: Option<Script> := None, None;
    for i := 0 to |text|
      invariant Encode(m, text, None, None) == Prepend(result, Encode(m, text[i..], board, script))
    {
      assert text[i..][1..] == text[i + 1..];
      var ch := text[i];
      if ch !in m {
        return NoMapping(ch);
      }
      var l := m[ch];
      ghost var before, codes := result, CodesFor(l, board, script);
      if board != Some(l.state.board) {
        result := result + [BoardCode(l.state.board)];
        board := Some(l.state.board);
      }
      if script != Some(l.state.script) {
        result := result + [ScriptCode(l.state.script)];
        script := Some(l.state.script);
      }
      result := result + [l.value];
      assert result == before + codes;
      PrependTwice(before, codes, Encode(m, text[i + 1..], board, script));
    }
    r := Codes(result);
  }

  lemma PrependTwice(a: seq<Code>, b: seq<Code>, rest: Encoded)
    ensures Prepend(a, Prepend(b, rest)) == Prepend(a + b, rest)
  {
    if rest.Codes? {
      assert a + (b + rest.codes) == a + b + rest.codes;
    }
  }

  method LincolnToUnicodeStrict(codes: seq<Code>) returns (r: Decoded)
    ensures r == Decode(codes, DEFAULT_STATE)
  {
    var result: string := "";
    var s := DEFAULT_STATE;
    for i := 0 to |codes|
      invariant Decode(codes, DEFAULT_STATE) ==
        (var rest := Decode(codes[i..], s); if rest.Text? then Text(result + rest.text) else rest)
    {
      assert codes[i..][1..] == codes[i + 1..];
      var (after, key) := Describe(codes[i], s);
      s := after;
      if key.Printed? {
        match InScript(key.base, s.script)
        case Some(display) => result := result + [display];
        case None =>
          if s.script.Sub? {
            return CannotSubscript(codes[i], key.base);
          }
          return CannotSuperscript(codes[i], key.base);
      }
    }
    r := Text(result);
  }
}

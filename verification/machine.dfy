/** The machine the emitted program runs on: a tape of byte cells, a cursor,
    and the two byte streams behind the imported output and input routines.
 */
module Machine {

  /** An 8-bit cell value. */
  type Byte = b: int | 0 <= b < 256

  /** What a cell receives from the input routine once the input is used up:
      the routine's end-of-stream value -1, cut to 8 bits. */
  const EndOfInput: Byte := 255

  /** An idealised tape: it holds only the cells written so far, every other
      cell reads 0, and the cursor is an unbounded integer that starts at 0.
      This abstracts from where the emitted code's cursor really points and
      from the width of its address arithmetic. */
  datatype State = State(tape: map<int, Byte>, cursor: int, input: seq<Byte>, output: seq<Byte>)

  /** Zero tape, cursor at the base, nothing written yet. */
  function Start(input: seq<Byte>): State {
    State(map[], 0, input, [])
  }

  /** The value of cell `p`. */
  function Read(s: State, p: int): Byte {
    if p in s.tape then s.tape[p] else 0
  }

  /** The value of the cell under the cursor. */
  function Cell(s: State): Byte {
    Read(s, s.cursor)
  }

  /** Two's-complement 8-bit wrap-around of an integer. */
  function Wrap(x: int): (b: Byte)
    ensures 0 <= x < 256 ==> b == x
    ensures (b - x) % 256 == 0
  {
    x % 256
  }

  /** Stores `v` in the cell under the cursor. */
  function SetCell(s: State, v: Byte): (t: State)
    ensures Cell(t) == v
    ensures forall p :: p != s.cursor ==> Read(t, p) == Read(s, p)
    ensures t.cursor == s.cursor && t.input == s.input && t.output == s.output
  {
    s.(tape := s.tape[s.cursor := v])
  }

  /** Adds `d` to the cell under the cursor with 8-bit wrap-around. */
  function AddCell(s: State, d: int): (t: State)
    ensures Cell(t) == Wrap(Cell(s) + d)
    ensures forall p :: p != s.cursor ==> Read(t, p) == Read(s, p)
    ensures t.cursor == s.cursor && t.input == s.input && t.output == s.output
  {
    SetCell(s, Wrap(Cell(s) + d))
  }

  /** Moves the cursor by `d` cells. */
  function Move(s: State, d: int): (t: State)
    ensures t.cursor == s.cursor + d
    ensures forall p :: Read(t, p) == Read(s, p)
    ensures t.input == s.input && t.output == s.output
  {
    s.(cursor := s.cursor + d)
  }

  /** The byte-output routine called with the cell under the cursor. */
  function PutByte(s: State): (t: State)
    ensures t.output == s.output + [Cell(s)]
    ensures t.tape == s.tape && t.cursor == s.cursor && t.input == s.input
  {
    s.(output := s.output + [Cell(s)])
  }

  /** The byte-input routine's result stored in the cell under the cursor. */
  function GetByte(s: State): (t: State)
    ensures s.input != [] ==> Cell(t) == s.input[0] && t.input == s.input[1..]
    ensures s.input == [] ==> Cell(t) == EndOfInput && t.input == []
    ensures forall p :: p != s.cursor ==> Read(t, p) == Read(s, p)
    ensures t.cursor == s.cursor && t.output == s.output
  {
    if s.input == [] then SetCell(s, EndOfInput)
    else SetCell(s, s.input[0]).(input := s.input[1..])
  }

  /** Two writes to the same cell: only the last one is seen. */
  lemma SetCellTwice(s: State, a: Byte, b: Byte)
    ensures SetCell(SetCell(s, a), b) == SetCell(s, b)
  {
    assert s.tape[s.cursor := a][s.cursor := b] == s.tape[s.cursor := b];
  }

  /** Two additions to the cell under the cursor are one addition of their
      sum, under 8-bit wrap-around. */
  lemma AddCellTwice(s: State, a: int, b: int)
    ensures AddCell(AddCell(s, a), b) == AddCell(s, a + b)
  {
    var v := Cell(s);
    assert Wrap(Wrap(v + a) + b) == Wrap(v + a + b);
    SetCellTwice(s, Wrap(v + a), Wrap(v + a + b));
  }
}

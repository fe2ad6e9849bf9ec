/** Two small programs: a cell cleared by a count-down loop, and a cell
    raised to 65 and written out.
 */
module Programs {
  import opened Syntax
  import opened Ops
  import opened Machine
  import opened Parser
  import opened Lowering
  import opened Semantics
  import opened Equivalence

  /** `[-]` from a cell holding `v`: nothing happens when `v` is 0; otherwise
      the body runs once per unit of fuel until the cell reaches 0, so the run
      completes exactly when there is fuel for `v` passes, and then the cell
      is 0 and nothing else has changed. */
  lemma {:induction false} CountDown(s: State, fuel: nat)
    ensures Iterate([DecData], s, fuel) ==
      if Cell(s) == 0 then Done(s)
      else if fuel >= Cell(s) then Done(SetCell(s, 0))
      else OutOfFuel
    decreases Cell(s)
  {
    if Cell(s) != 0 && fuel > 0 {
      var v := Cell(s);
      var f: nat := fuel - 1;
      var t := SetCell(s, v - 1);
      assert AddCell(s, -1) == t;
      RunLeaf(DecData, s, f);
      assert Run([DecData], s, f) == Done(t);
      assert Iterate([DecData], s, fuel) == Iterate([DecData], t, f);
      CountDown(t, f);
      SetCellTwice(s, v - 1, 0);
    }
  }

  /** The loop `[-]` lowers to a `While` around one weighted subtraction, and
      both forms clear the cell in exactly as many passes as it holds. */
  lemma ClearLoop(s: State, fuel: nat)
    ensures Lower([Loop([DecData])]) == [While([SubData(1)])]
    ensures RunOps([While([SubData(1)])], s, fuel) == Run([Loop([DecData])], s, fuel)
    ensures Run([Loop([DecData])], s, fuel) ==
      if Cell(s) == 0 then Done(s)
      else if fuel >= Cell(s) then Done(SetCell(s, 0))
      else OutOfFuel
  {
    assert LowerOne([DecData]) == Lowered(SubData(1), []);
    assert Lower([DecData]) == [SubData(1)];
    LowerSound([Loop([DecData])], s, fuel);
    CountDown(s, fuel);
    var r := Iterate([DecData], s, fuel);
    if r.Done? {
      assert Run([Loop([DecData])][1..], r.state, fuel) == Done(r.state);
    }
  }

  /** `n` times `+`, then `.`. */
  function AddThenPrint(n: Count): (text: string)
    ensures |text| == n + 1
    ensures forall i :: 0 <= i < n ==> text[i] == '+'
    ensures text[n] == '.'
  {
    seq(n, _ => '+') + ['.']
  }

  /** A run of `+` parses to a run of increments, whatever follows. */
  lemma {:induction false} ParsePlusRun(n: nat, tail: string)
    ensures Parse(seq(n, _ => '+') + tail) == Repeat(IncData, n) + Parse(tail)
    decreases n
  {
    if n == 0 {
      assert seq(n, _ => '+') + tail == tail;
    } else {
      var rest := seq(n - 1, _ => '+') + tail;
      assert seq(n, _ => '+') + tail == [SymbolOf(IncData)] + rest;
      ParseLeafSymbol(IncData, rest);
      ParsePlusRun(n - 1, tail);
      assert Repeat(IncData, n) == [IncData] + Repeat(IncData, n - 1);
    }
  }

  /** `n` times `+`, then `.`, parse to `n` increments and one output. */
  lemma ParseAddThenPrint(n: Count)
    ensures Parse(AddThenPrint(n)) == Repeat(IncData, n) + [Output]
  {
    ParsePlusRun(n, ['.']);
    ParseLeafSymbol(Output, []);
    assert [SymbolOf(Output)] + [] == ['.'];
  }

  /** `n` times `+`, then `.`: one weighted addition and one output call,
      which writes the single byte `n` modulo 256; for `n` = 65 that is the
      letter A. */
  lemma AddThenPrintOutputs(n: Count, fuel: nat)
    ensures Lower(Parse(AddThenPrint(n))) == [AddData(n), Out]
    ensures RunOps(Lower(Parse(AddThenPrint(n))), Start([]), fuel)
      == Done(State(map[0 := n % 256], 0, [], [n % 256]))
  {
    ParseAddThenPrint(n);
    var ops := [AddData(n), Out];
    ExpandCons(AddData(n), [Out]);
    ExpandCons(Out, []);
    assert Expand(ops) == Repeat(IncData, n) + [Output];
    assert Coalesced(ops) by {
      assert ops[1..] == [Out];
      assert Coalesced([Out]);
    }
    LowerExpand(ops);
    var s := Start([]);
    var t := AddCell(s, n);
    assert t == State(map[0 := n % 256], 0, [], []);
    assert ops[1..] == [Out];
    assert RunOps(ops, s, fuel) == RunOps([Out], t, fuel);
    assert [Out][1..] == [];
    assert RunOps([Out], t, fuel) == Done(PutByte(t));
  }
}

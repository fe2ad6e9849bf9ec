/** Fuel-bounded interpreters for the instruction tree and for the operation
    language. Fuel bounds how often a loop may repeat: each pass through a
    loop body costs one unit, and the body itself runs with one unit less.
    Running out is an outcome of its own, so two programs are equivalent when
    they give the same outcome for every state and every amount of fuel.
 */
module Semantics {
  import opened Syntax
  import opened Ops
  import opened Machine

  datatype Outcome = Done(state: State) | OutOfFuel

  /** Output is only ever appended to, and input only ever consumed from the
      front, between `s` and `t`. */
  predicate Extends(s: State, t: State) {
    && s.output <= t.output
    && |t.input| <= |s.input|
    && t.input == s.input[|s.input| - |t.input|..]
  }

  lemma ExtendsTransitive(s: State, t: State, u: State)
    requires Extends(s, t) && Extends(t, u)
    ensures Extends(s, u)
  {
    assert s.input[|s.input| - |t.input|..][|t.input| - |u.input|..]
      == s.input[|s.input| - |u.input|..];
  }

  // ---------------------------------------------------------------------------
  // The instruction tree

  /** One leaf node: `+` `-` by one cell step, `>` `<` by one cursor step,
      `.` and `,` through the I/O routines. Only output writes the output,
      only input consumes input, cursor steps touch no cell, and nothing
      else moves the cursor. */
  function Step(n: Node, s: State): (t: State)
    requires !n.Loop?
    ensures n != Output ==> t.output == s.output
    ensures n != Input ==> t.input == s.input
    ensures n == IncPtr || n == DecPtr ==> t.tape == s.tape
    ensures n != IncPtr && n != DecPtr ==> t.cursor == s.cursor
  {
    match n
    case IncData => AddCell(s, 1)
    case DecData => AddCell(s, -1)
    case IncPtr => Move(s, 1)
    case DecPtr => Move(s, -1)
    case Output => PutByte(s)
    case Input => GetByte(s)
  }

  /** Runs a node sequence in order; a loop node runs its body while the
      cell under the cursor is non-zero. A finished run whose last node is a
      loop leaves the current cell at 0. */
  function Run(ns: seq<Node>, s: State, fuel: nat): (r: Outcome)
    ensures r.Done? && ns != [] && ns[|ns| - 1].Loop? ==> Cell(r.state) == 0
    decreases fuel, ns
  {
    if ns == [] then Done(s)
    else
      var first := if ns[0].Loop? then Iterate(ns[0].insts, s, fuel) else Done(Step(ns[0], s));
      if first.Done? then Run(ns[1..], first.state, fuel) else OutOfFuel
  }

  /** The loop itself: test the cell, run the body, test again. */
  function Iterate(body: seq<Node>, s: State, fuel: nat): (r: Outcome)
    ensures r.Done? ==> Cell(r.state) == 0
    decreases fuel, body
  {
    if Cell(s) == 0 then Done(s)
    else if fuel == 0 then OutOfFuel
    else
      var once := Run(body, s, fuel - 1);
      if once.Done? then Iterate(body, once.state, fuel - 1) else OutOfFuel
  }

  // ---------------------------------------------------------------------------
  // The operation language

  /** One straight-line operation: a weighted cell or cursor update, or a
      call of an I/O routine. Each changes only the part of the state it
      names, as `Step` does. */
  function OpStep(op: Op, s: State): (t: State)
    requires !op.While?
    ensures !op.Out? ==> t.output == s.output
    ensures !op.In? ==> t.input == s.input
    ensures op.AddPtr? || op.SubPtr? ==> t.tape == s.tape
    ensures !op.AddPtr? && !op.SubPtr? ==> t.cursor == s.cursor
  {
    match op
    case AddData(n) => AddCell(s, n)
    case SubData(n) => AddCell(s, -(n as int))
    case AddPtr(n) => Move(s, n)
    case SubPtr(n) => Move(s, -(n as int))
    case Out => PutByte(s)
    case In => GetByte(s)
  }

  /** Runs an operation sequence in order; `While` is the header/body/exit
      block triple: test the cell, run the body, jump back to the test. A
      finished run whose last operation is a `While` leaves the current cell
      at 0. */
  function RunOps(ops: seq<Op>, s: State, fuel: nat): (r: Outcome)
    ensures r.Done? && ops != [] && ops[|ops| - 1].While? ==> Cell(r.state) == 0
    decreases fuel, ops
  {
    if ops == [] then Done(s)
    else
      var first := if ops[0].While? then IterateOps(ops[0].body, s, fuel) else Done(OpStep(ops[0], s));
      if first.Done? then RunOps(ops[1..], first.state, fuel) else OutOfFuel
  }

  /** The loop header and its back-edge. */
  function IterateOps(body: seq<Op>, s: State, fuel: nat): (r: Outcome)
    ensures r.Done? ==> Cell(r.state) == 0
    decreases fuel, body
  {
    if Cell(s) == 0 then Done(s)
    else if fuel == 0 then OutOfFuel
    else
      var once := RunOps(body, s, fuel - 1);
      if once.Done? then IterateOps(body, once.state, fuel - 1) else OutOfFuel
  }

  // ---------------------------------------------------------------------------
  // Streams only move forward

  /** A leaf node appends at most one byte to the output and consumes at most
      one byte of the input. */
  lemma StepExtends(n: Node, s: State)
    requires !n.Loop?
    ensures Extends(s, Step(n, s))
  {
    if n == Input && s.input != [] {
      assert s.input[|s.input| - |s.input[1..]|..] == s.input[1..];
    }
  }

  /** A finished run has only appended to the output and only consumed input
      from the front. */
  lemma {:induction false} RunExtends(ns: seq<Node>, s: State, fuel: nat)
    requires Run(ns, s, fuel).Done?
    ensures Extends(s, Run(ns, s, fuel).state)
    decreases fuel, ns, 1
  {
    if ns != [] {
      var first := if ns[0].Loop? then Iterate(ns[0].insts, s, fuel) else Done(Step(ns[0], s));
      if ns[0].Loop? {
        IterateExtends(ns[0].insts, s, fuel);
      } else {
        StepExtends(ns[0], s);
      }
      RunExtends(ns[1..], first.state, fuel);
      ExtendsTransitive(s, first.state, Run(ns, s, fuel).state);
    }
  }

  /** The same for a loop node's repetition. */
  lemma {:induction false} IterateExtends(body: seq<Node>, s: State, fuel: nat)
    requires Iterate(body, s, fuel).Done?
    ensures Extends(s, Iterate(body, s, fuel).state)
    decreases fuel, body, 0
  {
    if Cell(s) != 0 {
      var f: nat := fuel - 1;
      var once := Run(body, s, f);
      assert once.Done? && Iterate(body, s, fuel) == Iterate(body, once.state, f);
      RunExtends(body, s, f);
      IterateExtends(body, once.state, f);
      ExtendsTransitive(s, once.state, Iterate(body, s, fuel).state);
    }
  }

  // ---------------------------------------------------------------------------
  // Fuel only bounds the run

  /** More fuel never changes a finished run: a program that completes with
      some fuel completes with the same state given any more. */
  lemma {:induction false} RunMonotone(ns: seq<Node>, s: State, fuel: nat, more: nat)
    requires fuel <= more && Run(ns, s, fuel).Done?
    ensures Run(ns, s, more) == Run(ns, s, fuel)
    decreases fuel, ns, 1
  {
    if ns != [] {
      var first := if ns[0].Loop? then Iterate(ns[0].insts, s, fuel) else Done(Step(ns[0], s));
      if ns[0].Loop? {
        IterateMonotone(ns[0].insts, s, fuel, more);
      }
      RunMonotone(ns[1..], first.state, fuel, more);
    }
  }

  /** The same for a loop node's repetition. */
  lemma {:induction false} IterateMonotone(body: seq<Node>, s: State, fuel: nat, more: nat)
    requires fuel <= more && Iterate(body, s, fuel).Done?
    ensures Iterate(body, s, more) == Iterate(body, s, fuel)
    decreases fuel, body, 0
  {
    if Cell(s) != 0 {
      var f: nat := fuel - 1;
      var m: nat := more - 1;
      var once := Run(body, s, f);
      assert once.Done? && Iterate(body, s, fuel) == Iterate(body, once.state, f);
      RunMonotone(body, s, f, m);
      IterateMonotone(body, once.state, f, m);
      assert Iterate(body, s, more) == Iterate(body, once.state, m);
    }
  }
}

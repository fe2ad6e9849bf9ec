/** Run coalescing is a semantics-preserving peephole pass: the lowered
    operations give the same outcome as the instruction tree, for every
    state and every amount of fuel.
 */
module Equivalence {
  import opened Syntax
  import opened Ops
  import opened Machine
  import opened Semantics
  import opened Lowering

  /** Running a concatenation runs the first part, then the second from
      where the first stopped. */
  lemma {:induction false} RunAppend(a: seq<Node>, b: seq<Node>, s: State, fuel: nat)
    ensures Run(a + b, s, fuel) ==
      (if Run(a, s, fuel).Done? then Run(b, Run(a, s, fuel).state, fuel) else OutOfFuel)
    decreases a
  {
    if a == [] {
      assert a + b == b;
    } else {
      assert (a + b)[0] == a[0] && (a + b)[1..] == a[1..] + b;
      var first := if a[0].Loop? then Iterate(a[0].insts, s, fuel) else Done(Step(a[0], s));
      if first.Done? {
        RunAppend(a[1..], b, first.state, fuel);
      }
    }
  }

  /** One more node of a run, then the rest of it, is the whole run. */
  lemma MergeStep(k: Node, n: Count, s: State)
    requires IsRunKind(k) && n >= 2
    ensures OpStep(Merged(k, n - 1), Step(k, s)) == OpStep(Merged(k, n), s)
  {
    var m: Count := n - 1;
    var t := Step(k, s);
    if k == IncData {
      assert t == AddCell(s, 1);
      assert Merged(k, m) == AddData(m) && Merged(k, n) == AddData(n);
      AddCellTwice(s, 1, m);
    } else if k == DecData {
      assert t == AddCell(s, -1);
      assert Merged(k, m) == SubData(m) && Merged(k, n) == SubData(n);
      AddCellTwice(s, -1, -(m as int));
    } else if k == IncPtr {
      assert t == Move(s, 1);
      assert Merged(k, m) == AddPtr(m) && Merged(k, n) == AddPtr(n);
    } else {
      assert t == Move(s, -1);
      assert Merged(k, m) == SubPtr(m) && Merged(k, n) == SubPtr(n);
    }
  }

  /** A leaf node at the front runs first, then the rest from its step. */
  lemma RunLeafCons(k: Node, rest: seq<Node>, s: State, fuel: nat)
    requires !k.Loop?
    ensures Run([k] + rest, s, fuel) == Run(rest, Step(k, s), fuel)
  {
    assert ([k] + rest)[0] == k && ([k] + rest)[1..] == rest;
  }

  /** A run of `n` nodes is its first node followed by a run of `n - 1`. */
  lemma RepeatCons(k: Node, n: Count)
    ensures Repeat(k, n) == [k] + Repeat(k, n - 1)
  {
    assert forall i :: 0 <= i < n ==> Repeat(k, n)[i] == ([k] + Repeat(k, n - 1))[i];
  }

  /** A merged operation reaches exactly the state reached by applying its
      `n` nodes one at a time: `n` cell steps modulo 256, or `n` cursor
      steps. */
  lemma {:induction false} RunRepeat(k: Node, n: Count, s: State, fuel: nat)
    requires IsRunKind(k)
    ensures Run(Repeat(k, n), s, fuel) == Done(OpStep(Merged(k, n), s))
    decreases n
  {
    RepeatCons(k, n);
    RunLeafCons(k, Repeat(k, n - 1), s, fuel);
    if n == 1 {
      assert Repeat(k, n - 1) == [];
    } else {
      var m: Count := n - 1;
      RunRepeat(k, m, Step(k, s), fuel);
      MergeStep(k, n, s);
    }
  }

  /** A single leaf node runs to its step. */
  lemma RunLeaf(n: Node, s: State, fuel: nat)
    requires !n.Loop?
    ensures Run([n], s, fuel) == Done(Step(n, s))
  {
    assert [n][1..] == [];
  }

  /** The nodes a straight-line operation stands for run to its own result. */
  lemma RunExpandOp(op: Op, s: State, fuel: nat)
    requires !op.While?
    ensures Run(ExpandOp(op), s, fuel) == Done(OpStep(op, s))
  {
    if op.Out? {
      RunLeaf(Output, s, fuel);
    } else if op.In? {
      RunLeaf(Input, s, fuel);
    } else if op.AddData? {
      assert op == Merged(IncData, op.n);
      RunRepeat(IncData, op.n, s, fuel);
    } else if op.SubData? {
      assert op == Merged(DecData, op.n);
      RunRepeat(DecData, op.n, s, fuel);
    } else if op.AddPtr? {
      assert op == Merged(IncPtr, op.n);
      RunRepeat(IncPtr, op.n, s, fuel);
    } else {
      assert op == Merged(DecPtr, op.n);
      RunRepeat(DecPtr, op.n, s, fuel);
    }
  }

  /** Operations and the nodes they stand for give the same outcome. */
  lemma {:induction false} ExpandSound(ops: seq<Op>, s: State, fuel: nat)
    ensures RunOps(ops, s, fuel) == Run(Expand(ops), s, fuel)
    decreases fuel, ops, 1
  {
    if ops != [] {
      var op := ops[0];
      var first := if op.While? then IterateOps(op.body, s, fuel) else Done(OpStep(op, s));
      RunAppend(ExpandOp(op), Expand(ops[1..]), s, fuel);
      if op.While? {
        IterateExpand(op.body, s, fuel);
        assert ExpandOp(op)[0] == Loop(Expand(op.body)) && ExpandOp(op)[1..] == [];
      } else {
        RunExpandOp(op, s, fuel);
      }
      assert Run(ExpandOp(op), s, fuel) == first;
      if first.Done? {
        ExpandSound(ops[1..], first.state, fuel);
      }
    }
  }

  /** A `While` operation and the loop node it stands for repeat alike. */
  lemma {:induction false} IterateExpand(body: seq<Op>, s: State, fuel: nat)
    ensures IterateOps(body, s, fuel) == Iterate(Expand(body), s, fuel)
    decreases fuel, body, 0
  {
    if Cell(s) != 0 && fuel > 0 {
      var f: nat := fuel - 1;
      ExpandSound(body, s, f);
      var once := RunOps(body, s, f);
      if once.Done? {
        IterateExpand(body, once.state, f);
      }
    }
  }

  /** Coalescing preserves meaning: the lowered program gives exactly the
      outcome of the instruction tree, for every state and every fuel. */
  lemma {:induction false} LowerSound(ns: seq<Node>, s: State, fuel: nat)
    ensures RunOps(Lower(ns), s, fuel) == Run(ns, s, fuel)
  {
    ExpandSound(Lower(ns), s, fuel);
    ExpandLower(ns);
  }

  /** More fuel never changes a finished run of operations either. */
  lemma RunOpsMonotone(ops: seq<Op>, s: State, fuel: nat, more: nat)
    requires fuel <= more && RunOps(ops, s, fuel).Done?
    ensures RunOps(ops, s, more) == RunOps(ops, s, fuel)
  {
    ExpandSound(ops, s, fuel);
    ExpandSound(ops, s, more);
    RunMonotone(Expand(ops), s, fuel, more);
  }

  /** A finished run of operations has only appended to the output and only
      consumed input from the front. */
  lemma RunOpsExtends(ops: seq<Op>, s: State, fuel: nat)
    requires RunOps(ops, s, fuel).Done?
    ensures Extends(s, RunOps(ops, s, fuel).state)
  {
    ExpandSound(ops, s, fuel);
    RunExtends(Expand(ops), s, fuel);
  }
}

/** The structured operation language the code generator emits into, in
    place of the backend's basic blocks: one weighted arithmetic or pointer
    operation per run, the two I/O calls, and a loop whose header tests the
    current cell.
 */
module Ops {
  import opened Syntax

  /** A run length. Every run holds at least the node that started it. */
  type Count = n: nat | n >= 1 witness 1

  datatype Op =
    | AddData(n: Count)     // load cell, add n with 8-bit wrap, store
    | SubData(n: Count)     // load cell, subtract n with 8-bit wrap, store
    | AddPtr(n: Count)      // cursor := cursor + n
    | SubPtr(n: Count)      // cursor := cursor - n
    | Out                   // call the byte-output routine with the cell
    | In                    // store the byte-input routine's result in the cell
    | While(body: seq<Op>)  // header: cell != 0 ? body : exit; body jumps back

  /** The nodes whose runs are merged into one operation. */
  predicate IsRunKind(k: Node) {
    k == IncData || k == DecData || k == IncPtr || k == DecPtr
  }

  /** The single operation that stands for a run of `n` copies of `k`. */
  function Merged(k: Node, n: Count): (op: Op)
    requires IsRunKind(k)
    ensures op.AddData? || op.SubData? || op.AddPtr? || op.SubPtr?
    ensures op.n == n
  {
    match k
    case IncData => AddData(n)
    case DecData => SubData(n)
    case IncPtr => AddPtr(n)
    case DecPtr => SubPtr(n)
  }

  /** `n` copies of one node. */
  function Repeat(k: Node, n: nat): (ns: seq<Node>)
    ensures |ns| == n
    ensures forall i :: 0 <= i < n ==> ns[i] == k
  {
    seq(n, _ => k)
  }

  /** Undoes the merging: every weighted operation back into its run of
      nodes, every loop back into a loop node. */
  function Expand(ops: seq<Op>): (ns: seq<Node>)
    ensures |ns| >= |ops|
    decreases ops, 1
  {
    if ops == [] then [] else ExpandOp(ops[0]) + Expand(ops[1..])
  }

  /** The nodes one operation stands for. */
  function ExpandOp(op: Op): (ns: seq<Node>)
    ensures |ns| >= 1
    decreases op, 0
  {
    match op
    case AddData(n) => Repeat(IncData, n)
    case SubData(n) => Repeat(DecData, n)
    case AddPtr(n) => Repeat(IncPtr, n)
    case SubPtr(n) => Repeat(DecPtr, n)
    case Out => [Output]
    case In => [Input]
    case While(body) => [Loop(Expand(body))]
  }

  /** Two operations that a coalescing pass would have merged into one. */
  predicate SameRun(a: Op, b: Op) {
    || (a.AddData? && b.AddData?)
    || (a.SubData? && b.SubData?)
    || (a.AddPtr? && b.AddPtr?)
    || (a.SubPtr? && b.SubPtr?)
  }

  /** No two neighbouring operations, at any nesting depth, belong to the
      same run: the sequence is as merged as it can be. */
  predicate Coalesced(ops: seq<Op>) {
    ops == [] ||
    (&& (ops[0].While? ==> Coalesced(ops[0].body))
     && (|ops| > 1 ==> !SameRun(ops[0], ops[1]))
     && Coalesced(ops[1..]))
  }
}

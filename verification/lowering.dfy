/** Run-coalescing lowering: the instruction tree to structured operations.

    `LowerOne` is one call of the instruction compiler: it takes the first
    node, and for the four arithmetic and pointer nodes also the maximal run
    of identical nodes after it, and emits one operation. `Lower` is the
    driver that calls it until the sequence is exhausted. `CountRun`,
    `CompileInstruction` and `CompileBody` follow brainheck's
    `compile_instruction` and its driver loops iterator step by iterator step,
    and are proved to agree with `LowerOne` and `Lower`.
 */
module Lowering {
  import opened Syntax
  import opened Ops

  /** How many leading nodes of `ns` are equal to `k`. */
  function RunLength(ns: seq<Node>, k: Node): (n: nat)
    ensures n <= |ns|
  {
    if ns != [] && ns[0] == k then 1 + RunLength(ns[1..], k) else 0
  }

  /** The run counted is all `k`, and it cannot be extended. */
  lemma {:induction false} RunLengthMaximal(ns: seq<Node>, k: Node)
    ensures forall i :: 0 <= i < RunLength(ns, k) ==> ns[i] == k
    ensures RunLength(ns, k) < |ns| ==> ns[RunLength(ns, k)] != k
  {
    if ns != [] && ns[0] == k {
      RunLengthMaximal(ns[1..], k);
      ConsRun(ns, k, RunLength(ns[1..], k));
    }
  }

  /** A run of `n` copies of `k` after a leading `k` is a run of `n + 1`. */
  lemma ConsRun(ns: seq<Node>, k: Node, n: nat)
    requires ns != [] && ns[0] == k && n < |ns|
    requires forall i :: 0 <= i < n ==> ns[1..][i] == k
    requires n < |ns| - 1 ==> ns[1..][n] != k
    ensures forall i :: 0 <= i < n + 1 ==> ns[i] == k
    ensures n + 1 < |ns| ==> ns[n + 1] != k
  {
    forall i | 1 <= i < n + 1
      ensures ns[i] == k
    {
      assert ns[i] == ns[1..][i - 1];
    }
  }

  /** What one call of the instruction compiler produces: the operation it
      emitted and the nodes it left unconsumed. */
  datatype Lowered = Lowered(op: Op, rest: seq<Node>)

  /** One call of the instruction compiler on a non-empty sequence: it
      consumes a non-empty prefix and leaves the rest. */
  function LowerOne(ns: seq<Node>): (r: Lowered)
    requires ns != []
    ensures |r.rest| < |ns|
    ensures r.rest == ns[|ns| - |r.rest|..]
    decreases ns, 0
  {
    var k := ns[0];
    var tail := ns[1..];
    if IsRunKind(k) then
      var n := RunLength(tail, k);
      Lowered(Merged(k, 1 + n), tail[n..])
    else if k == Output then
      Lowered(Out, tail)
    else if k == Input then
      Lowered(In, tail)
    else
      Lowered(While(Lower(k.insts)), tail)
  }

  /** What one call emits for `+` `-` `>` `<`: one operation weighted by the
      length of the maximal run of that node at the front, which it consumes
      whole. */
  lemma LowerOneRun(ns: seq<Node>)
    requires ns != [] && IsRunKind(ns[0])
    ensures LowerOne(ns).op == Merged(ns[0], |ns| - |LowerOne(ns).rest|)
    ensures forall i :: 0 <= i < |ns| - |LowerOne(ns).rest| ==> ns[i] == ns[0]
    ensures LowerOne(ns).rest != [] ==> LowerOne(ns).rest[0] != ns[0]
  {
    var k := ns[0];
    var n := RunLength(ns[1..], k);
    RunLengthMaximal(ns[1..], k);
    ConsRun(ns, k, n);
    var r := LowerOne(ns);
    assert r == Lowered(Merged(k, 1 + n), ns[1..][n..]);
    assert |ns| - |r.rest| == 1 + n;
    assert r.rest != [] ==> r.rest[0] == ns[1 + n];
  }

  /** What one call emits for `.` `,` and a loop: one operation for the
      single node. */
  lemma LowerOneSingle(ns: seq<Node>)
    requires ns != [] && !IsRunKind(ns[0])
    ensures ns[0] == Output ==> LowerOne(ns) == Lowered(Out, ns[1..])
    ensures ns[0] == Input ==> LowerOne(ns) == Lowered(In, ns[1..])
    ensures ns[0].Loop? ==> LowerOne(ns) == Lowered(While(Lower(ns[0].insts)), ns[1..])
  {
  }

  /** Lowers a whole sequence, one call of the instruction compiler at a
      time, in order. */
  function Lower(ns: seq<Node>): (ops: seq<Op>)
    ensures |ops| <= |ns|
    decreases ns, 1
  {
    if ns == [] then []
    else
      var r := LowerOne(ns);
      [r.op] + Lower(r.rest)
  }

  // ---------------------------------------------------------------------------
  // The iterator loops of `compile_instruction` and its drivers

  /** The look-ahead loop: the node at index `i` has been taken; advance
      past every following node equal to it. `inc` counts the run including
      the node already taken, and the run found is the one a call of the
      instruction compiler merges. */
  method CountRun(ns: seq<Node>, i: nat, k: Node) returns (inc: Count, j: nat)
    requires i < |ns| && ns[i] == k && IsRunKind(k)
    ensures i < j <= |ns|
    ensures inc == j - i
    ensures LowerOne(ns[i..]) == Lowered(Merged(k, inc), ns[j..])
  {
    inc := 1;
    j := i + 1;
    var peek := i + 1;
    while peek < |ns|
      invariant i < j <= |ns|
      invariant peek == j
      invariant inc == j - i
      invariant forall m :: i <= m < j ==> ns[m] == k
      decreases |ns| - peek
    {
      var ast := ns[peek];
      peek := peek + 1;
      if ast == k {
        j := j + 1;
        inc := inc + 1;
      } else {
        break;
      }
    }
    RunAt(ns, i, j, k);
  }

  /** One call of the instruction compiler on the nodes from index `i`;
      returns the emitted operation and the index of the first node left. */
  method CompileInstruction(ns: seq<Node>, i: nat) returns (op: Op, j: nat)
    requires i < |ns|
    ensures i < j <= |ns|
    ensures LowerOne(ns[i..]) == Lowered(op, ns[j..])
    decreases ns, 0
  {
    var ast := ns[i];
    j := i + 1;
    match ast
    case IncData =>
      var inc, k := CountRun(ns, i, IncData);
      op, j := AddData(inc), k;
    case IncPtr =>
      var inc, k := CountRun(ns, i, IncPtr);
      op, j := AddPtr(inc), k;
    case DecData =>
      var inc, k := CountRun(ns, i, DecData);
      op, j := SubData(inc), k;
    case DecPtr =>
      var inc, k := CountRun(ns, i, DecPtr);
      op, j := SubPtr(inc), k;
    case Output =>
      op := Out;
      SingleAt(ns, i);
    case Input =>
      op := In;
      SingleAt(ns, i);
    case Loop(insts) =>
      var body := CompileBody(insts);
      op := While(body);
      SingleAt(ns, i);
  }

  /** A run from index `i` to `j` that cannot be extended is the run one
      call of the instruction compiler merges. */
  lemma MaximalRun(ns: seq<Node>, i: nat, j: nat)
    requires i < j <= |ns| && IsRunKind(ns[i])
    requires forall m :: i < m < j ==> ns[m] == ns[i]
    requires j < |ns| ==> ns[j] != ns[i]
    ensures LowerOne(ns[i..]) == Lowered(Merged(ns[i], j - i), ns[j..])
  {
    var ms := ns[i..];
    SliceRun(ns, i, j);
    MaximalPrefix(ms, j - i);
    assert ms[j - i..] == ns[j..];
  }

  /** The run seen from its own start. */
  lemma SliceRun(ns: seq<Node>, i: nat, j: nat)
    requires i < j <= |ns|
    requires forall m :: i < m < j ==> ns[m] == ns[i]
    requires j < |ns| ==> ns[j] != ns[i]
    ensures forall m :: 0 <= m < j - i ==> ns[i..][m] == ns[i..][0]
    ensures j - i < |ns[i..]| ==> ns[i..][j - i] != ns[i..][0]
  {
  }

  /** The same for a run at the front of the sequence. */
  lemma MaximalPrefix(ms: seq<Node>, c: nat)
    requires 0 < c <= |ms| && IsRunKind(ms[0])
    requires forall m :: 0 <= m < c ==> ms[m] == ms[0]
    requires c < |ms| ==> ms[c] != ms[0]
    ensures LowerOne(ms) == Lowered(Merged(ms[0], c), ms[c..])
  {
    var r := LowerOne(ms);
    LowerOneRun(ms);
    var d := |ms| - |r.rest|;
    assert d < |ms| ==> ms[d] == r.rest[0];
    RunEnds(ms, ms[0], c, d);
    RunEnds(ms, ms[0], d, c);
  }

  /** A run of `k` of length `c` cannot reach past a position `d` that does
      not hold `k`. */
  lemma RunEnds(ms: seq<Node>, k: Node, c: nat, d: nat)
    requires c <= |ms| && d <= |ms|
    requires forall m :: 0 <= m < c ==> ms[m] == k
    requires d < |ms| ==> ms[d] != k
    ensures c <= d
  {
  }

  /** A call on the nodes from index `i` that starts on a run which the
      look-ahead loop found to end at `j`. */
  lemma RunAt(ns: seq<Node>, i: nat, j: nat, k: Node)
    requires i < j <= |ns| && IsRunKind(k) && ns[i] == k
    requires forall m :: i + 1 <= m < j ==> ns[m] == k
    requires j < |ns| ==> ns[j] != k
    ensures LowerOne(ns[i..]) == Lowered(Merged(k, j - i), ns[j..])
  {
    MaximalRun(ns, i, j);
  }

  /** A call on the nodes from index `i` that starts on a single node. */
  lemma SingleAt(ns: seq<Node>, i: nat)
    requires i < |ns| && !IsRunKind(ns[i])
    ensures ns[i] == Output ==> LowerOne(ns[i..]) == Lowered(Out, ns[i + 1..])
    ensures ns[i] == Input ==> LowerOne(ns[i..]) == Lowered(In, ns[i + 1..])
    ensures ns[i].Loop? ==> LowerOne(ns[i..]) == Lowered(While(Lower(ns[i].insts)), ns[i + 1..])
  {
    LowerOneSingle(ns[i..]);
    assert ns[i..][0] == ns[i] && ns[i..][1..] == ns[i + 1..];
  }

  /** The driver: compile instructions while any remain. */
  method CompileBody(ns: seq<Node>) returns (ops: seq<Op>)
    ensures ops == Lower(ns)
    decreases ns, 1
  {
    ops := [];
    var i := 0;
    while i < |ns|
      invariant 0 <= i <= |ns|
      invariant ops + Lower(ns[i..]) == Lower(ns)
      decreases |ns| - i
    {
      var op, j := CompileInstruction(ns, i);
      LowerStep(ns, i, op, j);
      Concat3(ops, [op], Lower(ns[j..]));
      ops := ops + [op];
      i := j;
    }
    assert ns[i..] == [];
    assert ops + [] == ops;
  }

  /** The lowering of the nodes from `i` is the operation one call emits
      there, followed by the lowering of what that call left. */
  lemma LowerStep(ns: seq<Node>, i: nat, op: Op, j: nat)
    requires i < j <= |ns| && LowerOne(ns[i..]) == Lowered(op, ns[j..])
    ensures Lower(ns[i..]) == [op] + Lower(ns[j..])
  {
    LowerCons(ns[i..]);
  }

  // ---------------------------------------------------------------------------
  // What the lowering keeps and what it merges

  /** Expanding a sequence that starts with `op`. */
  lemma ExpandCons(op: Op, rest: seq<Op>)
    ensures Expand([op] + rest) == ExpandOp(op) + Expand(rest)
  {
    assert ([op] + rest)[1..] == rest;
  }

  /** The nodes one call consumes are exactly those its operation stands
      for, given that this already holds for the body of a leading loop. */
  lemma {:induction false} LowerOneCovers(ns: seq<Node>)
    requires ns != []
    requires ns[0].Loop? ==> Expand(Lower(ns[0].insts)) == ns[0].insts
    ensures ExpandOp(LowerOne(ns).op) + LowerOne(ns).rest == ns
  {
    if IsRunKind(ns[0]) {
      CoversRun(ns);
    } else {
      CoversSingle(ns);
    }
  }

  /** The covering property when the call merged a run. */
  lemma CoversRun(ns: seq<Node>)
    requires ns != [] && IsRunKind(ns[0])
    ensures ExpandOp(LowerOne(ns).op) + LowerOne(ns).rest == ns
  {
    var r := LowerOne(ns);
    var c: Count := |ns| - |r.rest|;
    LowerOneRun(ns);
    assert r.op == Merged(ns[0], c);
    ExpandMerged(ns[0], c);
    RunPrefix(ns, ns[0], c);
    assert r.rest == ns[c..];
  }

  /** The covering property when the call took a single node. */
  lemma CoversSingle(ns: seq<Node>)
    requires ns != [] && !IsRunKind(ns[0])
    requires ns[0].Loop? ==> Expand(Lower(ns[0].insts)) == ns[0].insts
    ensures ExpandOp(LowerOne(ns).op) + LowerOne(ns).rest == ns
  {
    if ns[0].Loop? {
      CoversLoop(ns);
    } else {
      CoversIo(ns);
    }
  }

  /** The covering property for a loop node. */
  lemma CoversLoop(ns: seq<Node>)
    requires ns != [] && ns[0].Loop?
    requires Expand(Lower(ns[0].insts)) == ns[0].insts
    ensures ExpandOp(LowerOne(ns).op) + LowerOne(ns).rest == ns
  {
    var r := LowerOne(ns);
    LowerOneSingle(ns);
    var body := Lower(ns[0].insts);
    assert r.op == While(body);
    ExpandWhile(body);
    assert ExpandOp(r.op) == [ns[0]];
    assert [ns[0]] + ns[1..] == ns;
  }

  /** The covering property for `.` and `,`. */
  lemma CoversIo(ns: seq<Node>)
    requires ns != [] && (ns[0] == Output || ns[0] == Input)
    ensures ExpandOp(LowerOne(ns).op) + LowerOne(ns).rest == ns
  {
    var r := LowerOne(ns);
    LowerOneSingle(ns);
    assert ExpandOp(r.op) == [ns[0]];
    assert [ns[0]] + ns[1..] == ns;
  }

  /** A `While` stands for one loop node around the nodes of its body. */
  lemma ExpandWhile(body: seq<Op>)
    ensures ExpandOp(While(body)) == [Loop(Expand(body))]
  {
  }

  /** A merged operation stands for its run. */
  lemma ExpandMerged(k: Node, n: Count)
    requires IsRunKind(k)
    ensures ExpandOp(Merged(k, n)) == Repeat(k, n)
  {
  }

  /** A sequence is its leading run followed by the rest. */
  lemma RunPrefix(ns: seq<Node>, k: Node, c: nat)
    requires c <= |ns|
    requires forall i :: 0 <= i < c ==> ns[i] == k
    ensures Repeat(k, c) + ns[c..] == ns
  {
  }

  /** Nothing is lost, reordered or invented: expanding every merged run
      back into its nodes gives the original sequence. */
  lemma {:induction false} ExpandLower(ns: seq<Node>)
    ensures Expand(Lower(ns)) == ns
    decreases ns
  {
    if ns != [] {
      var r := LowerOne(ns);
      ExpandLower(r.rest);
      if ns[0].Loop? {
        ExpandLower(ns[0].insts);
      }
      LowerOneCovers(ns);
      ExpandCons(r.op, Lower(r.rest));
    }
  }

  /** Two consecutive calls never emit operations that belong to one run:
      the first call stopped at the first node of a different kind. */
  lemma {:induction false} NextCallDiffers(ns: seq<Node>)
    requires ns != [] && LowerOne(ns).rest != []
    ensures !SameRun(LowerOne(ns).op, LowerOne(LowerOne(ns).rest).op)
  {
    var r := LowerOne(ns);
    if IsRunKind(ns[0]) && IsRunKind(r.rest[0]) {
      LowerOneRun(ns);
      RunThenRun(r.rest, ns[0], r.op);
    } else if !IsRunKind(ns[0]) {
      LowerOneSingle(ns);
      SingleNeverMerges(r.op, LowerOne(r.rest).op);
    } else {
      LowerOneSingle(r.rest);
      SingleNeverMerges(LowerOne(r.rest).op, r.op);
    }
  }

  /** A call that starts on a different run node than the one before it
      emits an operation of a different kind. */
  lemma RunThenRun(ns: seq<Node>, k: Node, op: Op)
    requires ns != [] && IsRunKind(ns[0]) && IsRunKind(k) && ns[0] != k
    requires op.AddData? || op.SubData? || op.AddPtr? || op.SubPtr?
    requires op == Merged(k, op.n)
    ensures !SameRun(op, LowerOne(ns).op)
  {
    LowerOneRun(ns);
    MergedDiffer(k, ns[0], op.n, |ns| - |LowerOne(ns).rest|);
  }

  /** I/O operations and loops never merge with a neighbour. */
  lemma SingleNeverMerges(a: Op, b: Op)
    requires a.Out? || a.In? || a.While?
    ensures !SameRun(a, b) && !SameRun(b, a)
  {
  }

  /** Runs of two different nodes merge into operations of different kinds. */
  lemma MergedDiffer(a: Node, b: Node, m: Count, n: Count)
    requires IsRunKind(a) && IsRunKind(b) && a != b
    ensures !SameRun(Merged(a, m), Merged(b, n))
  {
  }

  /** A lowered sequence starts with the first call's operation. */
  lemma LowerCons(ns: seq<Node>)
    requires ns != []
    ensures Lower(ns) == [LowerOne(ns).op] + Lower(LowerOne(ns).rest)
    ensures Lower(ns)[0] == LowerOne(ns).op
    ensures Lower(ns)[1..] == Lower(LowerOne(ns).rest)
  {
  }

  /** Only identical neighbours merge, and a merged run is maximal: no two
      neighbouring operations of the result, at any depth, could have been
      merged further. */
  lemma {:induction false} LowerCoalesced(ns: seq<Node>)
    ensures Coalesced(Lower(ns))
    decreases ns
  {
    if ns != [] {
      var r := LowerOne(ns);
      LowerCoalesced(r.rest);
      LowerCons(ns);
      if ns[0].Loop? {
        LowerCoalesced(ns[0].insts);
        LowerOneSingle(ns);
      }
      if r.rest != [] {
        NextCallDiffers(ns);
        LowerCons(r.rest);
      }
    }
  }

  /** The first node an operation stands for tells which kind of run it is. */
  lemma ExpandOpFirst(op: Op)
    ensures ExpandOp(op)[0] == IncData <==> op.AddData?
    ensures ExpandOp(op)[0] == DecData <==> op.SubData?
    ensures ExpandOp(op)[0] == IncPtr <==> op.AddPtr?
    ensures ExpandOp(op)[0] == DecPtr <==> op.SubPtr?
  {
  }

  /** A run of `n` copies of `k` followed by something else is lowered to one
      operation of weight `n`. */
  lemma {:induction false} LowerRun(k: Node, n: Count, tail: seq<Node>)
    requires IsRunKind(k)
    requires tail != [] ==> tail[0] != k
    ensures LowerOne(Repeat(k, n) + tail) == Lowered(Merged(k, n), tail)
  {
    var ns := Repeat(k, n) + tail;
    MaximalRun(ns, 0, n);
    assert ns[0..] == ns && ns[n..] == tail;
  }

  /** One call on the expansion of `op` followed by the expansion of `rest`
      gives back `op`, provided `rest` does not continue its run. */
  lemma LowerOneExpand(op: Op, rest: seq<Op>)
    requires op.While? ==> Lower(Expand(op.body)) == op.body
    requires rest != [] ==> !SameRun(op, rest[0])
    ensures ExpandOp(op) + Expand(rest) != []
    ensures LowerOne(ExpandOp(op) + Expand(rest)) == Lowered(op, Expand(rest))
  {
    if op.Out? || op.In? || op.While? {
      LowerOneExpandSingle(op, Expand(rest));
    } else {
      ExpansionsDiffer(op, rest);
      LowerOneExpandRun(op, Expand(rest));
    }
  }

  /** The nodes after a weighted operation's run do not continue it. */
  lemma ExpansionsDiffer(op: Op, rest: seq<Op>)
    requires op.AddData? || op.SubData? || op.AddPtr? || op.SubPtr?
    requires rest != [] ==> !SameRun(op, rest[0])
    ensures Expand(rest) != [] ==> Expand(rest)[0] != ExpandOp(op)[0]
  {
    if rest != [] {
      ExpandOpFirst(op);
      ExpandOpFirst(rest[0]);
      ExpandCons(rest[0], rest[1..]);
      assert rest == [rest[0]] + rest[1..];
      assert Expand(rest)[0] == ExpandOp(rest[0])[0];
    }
  }

  /** A weighted operation's run, followed by nodes that do not continue it,
      is lowered back to that operation. */
  lemma LowerOneExpandRun(op: Op, tail: seq<Node>)
    requires op.AddData? || op.SubData? || op.AddPtr? || op.SubPtr?
    requires tail != [] ==> tail[0] != ExpandOp(op)[0]
    ensures LowerOne(ExpandOp(op) + tail) == Lowered(op, tail)
  {
    match op
    case AddData(n) =>
      assert ExpandOp(op) == Repeat(IncData, n) && Merged(IncData, n) == op;
      LowerRun(IncData, n, tail);
    case SubData(n) =>
      assert ExpandOp(op) == Repeat(DecData, n) && Merged(DecData, n) == op;
      LowerRun(DecData, n, tail);
    case AddPtr(n) =>
      assert ExpandOp(op) == Repeat(IncPtr, n) && Merged(IncPtr, n) == op;
      LowerRun(IncPtr, n, tail);
    case SubPtr(n) =>
      assert ExpandOp(op) == Repeat(DecPtr, n) && Merged(DecPtr, n) == op;
      LowerRun(DecPtr, n, tail);
  }

  /** An I/O operation or a loop whose body survives the round trip is
      lowered back to itself. */
  lemma LowerOneExpandSingle(op: Op, tail: seq<Node>)
    requires op.Out? || op.In? || op.While?
    requires op.While? ==> Lower(Expand(op.body)) == op.body
    ensures ExpandOp(op) + tail != []
    ensures LowerOne(ExpandOp(op) + tail) == Lowered(op, tail)
  {
    var ns := ExpandOp(op) + tail;
    if op.While? {
      ExpandWhile(op.body);
      assert ns[0] == Loop(Expand(op.body)) && ns[1..] == tail;
    } else if op.Out? {
      assert ns[0] == Output && ns[1..] == tail;
    } else {
      assert ns[0] == Input && ns[1..] == tail;
    }
    LowerOneSingle(ns);
  }

  /** The other direction: an as-merged-as-possible operation sequence is
      exactly what its expansion lowers to, so the lowering is the unique
      maximal merging. */
  lemma {:induction false} LowerExpand(ops: seq<Op>)
    requires Coalesced(ops)
    ensures Lower(Expand(ops)) == ops
    decreases ops
  {
    if ops != [] {
      var op, rest := ops[0], ops[1..];
      assert ops == [op] + rest;
      ExpandCons(op, rest);
      LowerExpand(rest);
      if op.While? {
        LowerExpand(op.body);
      }
      LowerOneExpand(op, rest);
      LowerCons(Expand(ops));
    }
  }
}

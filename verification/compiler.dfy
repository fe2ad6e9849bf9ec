/** The pipeline from source text to operations: parse the text, then drive
    the instruction compiler over the top-level sequence.
 */
module Compiler {
  import opened Syntax
  import opened Ops
  import opened Machine
  import opened Parser
  import opened Lowering
  import opened Semantics
  import opened Equivalence

  /** Parses `text` and lowers the whole tree. The result stands for exactly
      the parsed nodes, is merged as far as it can be, and is the unique
      sequence with both properties. */
  method Compile(text: string) returns (ops: seq<Op>)
    ensures Expand(ops) == Parse(text)
    ensures Coalesced(ops)
    ensures ops == Lower(Parse(text))
  {
    var ast := ParseText(text);
    ops := CompileBody(ast);
    ExpandLower(ast);
    LowerCoalesced(ast);
  }

  /** The compiled program behaves as the parsed tree: from the zero tape and
      any input, with any fuel, both give the same outcome. */
  lemma CompiledBehaves(text: string, input: seq<Byte>, fuel: nat)
    ensures RunOps(Lower(Parse(text)), Start(input), fuel) == Run(Parse(text), Start(input), fuel)
  {
    LowerSound(Parse(text), Start(input), fuel);
  }
}

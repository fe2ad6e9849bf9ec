# brainheck, modelled in Dafny

brainheck is an ahead-of-time compiler for Brainfuck. It reads the program
text, parses it into an instruction tree (six leaf instructions and a loop
node holding its body), and lowers the tree into machine code. The lowering
walks the tree with a shared cursor. Each run of `+`, `-`, `>` or `<` turns
into one weighted load/add/store or one weighted pointer update. `.` and `,`
become calls of the C routines `putchar` and `getchar`. A loop becomes a
header block that tests the current cell, a body block that jumps back to
the header, and an exit block.

This project models that core:

- `syntax.dfy` (module `Syntax`): the instruction tree and the six command
  symbols.
- `parser.dfy` (module `Parser`): the two parsing loops. They appear both as
  recursive functions and as cursor-driven methods written the way the
  source walks its character iterator.
- `ops.dfy` (module `Ops`): the operation language the code generator
  emits. It has weighted cell and pointer operations, the two I/O calls and
  a structured `While` that stands for the header/body/exit blocks.
- `lowering.dfy` (module `Lowering`): `compile_instruction` with its
  look-ahead run counting. It appears both as a recursive function and as
  cursor-driven methods, and it comes with the lemmas saying that lowering
  is lossless, maximally merged and uniquely determined.
- `machine.dfy` (module `Machine`): the machine the emitted code runs on.
  It has byte cells with 8-bit wrap-around, a cursor, and input and output
  byte streams.
- `semantics.dfy` (module `Semantics`): fuel-bounded interpreters for the
  tree and for the operations.
- `equivalence.dfy` (module `Equivalence`): coalescing runs preserves
  meaning.
- `compiler.dfy` (module `Compiler`): the top-level pipeline from text to
  operations.
- `programs.dfy` (module `Programs`): two concrete programs. `[-]` clears a
  cell. `+` written 65 times followed by `.` writes the letter A.

All source paths below are relative to the repository root.

## Model

| member | source | states |
|---|---|---|
| Syntax.SymbolOf | src/main.rs:8-32 | Every leaf instruction has a command symbol, and the parser's symbol table maps that symbol back to the same leaf: the six symbols and the six leaves are in one-to-one correspondence. |
| Parser.ParseLoop | src/main.rs:34-60 | The loop-body parser as a recursive definition. A leaf symbol adds its node, `[` nests a parse of the same text, `]` ends the body, other characters are skipped, and the end of the text also ends the body. Its own contract says only that it never returns more text than it was given. What it parses is pinned down by `ParseLoopText`, `ParseLoopUnparse` and `UnterminatedText`, which read the text of any tree back to that tree, and by `ParseLoopIgnoresComments`. |
| Parser.Parse | src/main.rs:62-87 | The top-level parser as a recursive definition, yielding at most one node per character. Like the loop parser except that `]` has no branch, so it is skipped. Its meaning is pinned down by `RoundTrip`, `ParseUnparse`, `ParseIgnoresComments` and `StrayCloseDropped`. |
| Parser.ParseLoopChars | src/main.rs:34-60 | The loop-body parser consumes characters from a shared cursor. It stops just past the first unmatched `]`, or at the end of the text. What it collects and where it leaves the cursor agree with the recursive definition. |
| Parser.ParseText | src/main.rs:62-87 | The top-level parser produces exactly the tree of the recursive definition. Here a `[` hands the shared cursor to the loop parser, and the loop parser's stopping point is where the top level resumes. |
| Parser.ParseIgnoresComments | src/main.rs:66-84 | Characters other than the eight commands do not affect the parsed tree. Deleting them all gives the same tree. |
| Parser.ParseLoopIgnoresComments | src/main.rs:37-57 | Inside a loop body, non-command characters affect neither the collected body nor where parsing resumes. |
| Parser.ParseLeaves | src/main.rs:66-78 | A bracket-free text parses to one leaf per command character, in order, each the leaf of its symbol. |
| Parser.ParseLoopStopsAtClose | src/main.rs:54-55 | In the loop parser, the first `]` after a bracket-free prefix ends the body. The body is that prefix's leaves, and parsing resumes right after the `]`. |
| Parser.ParseLoopUnparse | src/main.rs:50-56 | The text of any tree followed by `]` parses, inside a loop, back to that tree. The cursor is left just after the `]`. |
| Parser.ParseLoopText | src/main.rs:34-60 | The text of any tree parses, inside a loop, to that tree. The loop parser then carries on with whatever follows, as if it had started there. |
| Parser.UnterminatedLoop | src/main.rs:57-59 | A `[` that is never closed takes all remaining bracket-free text as its body. The parse ends with nothing left over. |
| Parser.UnterminatedText | src/main.rs:57-59 | The same holds for the text of any tree, nested loops included: an unclosed `[` before it yields one loop holding that whole tree. |
| Parser.ParseUnparse | src/main.rs:62-87 | The text of any tree, followed by anything, parses to that tree followed by the parse of what follows. |
| Parser.RoundTrip | src/main.rs:34-87 | Parsing the text of a tree gives back the tree: printing is a right inverse of parsing. |
| Parser.StrayCloseDropped | src/main.rs:66-84 | At the top level a `]` that closes nothing is skipped, just like a comment character. |
| Ops.Merged | src/main.rs:92-163 | A run of one of the four mergeable instructions becomes a single operation of that instruction's kind, weighted by the run's length. |
| Lowering.LowerOne | src/main.rs:89-214 | One call of the instruction compiler as a recursive definition. It always consumes a non-empty prefix and hands back exactly the unconsumed suffix. `LowerOneRun` and `LowerOneSingle` say what it emits, `MaximalRun` says which prefix it takes, and `LowerOneCovers` says the emitted operation stands for exactly that prefix. |
| Lowering.Lower | src/main.rs:292-295 | The driver, calling the instruction compiler until nothing is left, yields at most one operation per node. `ExpandLower` shows it is lossless, `LowerCoalesced` that it is fully merged, and `LowerExpand` that it is the only sequence with both properties. |
| Lowering.CountRun | src/main.rs:94-104 | The look-ahead loop counts exactly the maximal run that starts at the cursor. The weight is the run length, and the cursor is left on the first node outside the run. |
| Lowering.CompileInstruction | src/main.rs:89-214 | One call consumes at least one node. It emits the operation for the node at the cursor, or for the maximal run starting there. |
| Lowering.LowerOneRun | src/main.rs:95-163 | For a run instruction, the emitted operation has that instruction's kind. Its weight is the number of consumed nodes, all consumed nodes are equal, and the next unconsumed node is different. |
| Lowering.LowerOneSingle | src/main.rs:165-211 | `.` becomes one output call, `,` one input call, and a loop one `While` around its lowered body. Each consumes exactly one node. |
| Lowering.MaximalRun | src/main.rs:95-104 | Any stretch of equal run nodes that ends at a different node or at the end is exactly what one call consumes. |
| Lowering.CompileBody | src/main.rs:200-203 | Driving the instruction compiler until the node sequence is used up produces exactly the lowering of the whole sequence. |
| Lowering.LowerOneCovers | src/main.rs:89-214 | What one call emits stands for exactly the nodes it consumed: nothing is skipped and nothing is invented. |
| Lowering.ExpandLower | src/main.rs:89-214 | Expanding every lowered operation back into nodes gives the original sequence, at every nesting depth. |
| Lowering.NextCallDiffers | src/main.rs:97-103 | Two consecutive calls never emit operations of the same run kind, because the look-ahead stops only at a different node. |
| Lowering.LowerCoalesced | src/main.rs:95-104 | The lowered sequence is fully merged: no two neighbouring operations, at any depth, belong to the same run. |
| Lowering.LowerExpand | src/main.rs:89-214 | A fully merged operation sequence is the lowering of its own expansion, so the merged form of a tree is unique. |
| Machine.Wrap | src/main.rs:106-111 | An 8-bit cell update keeps byte values unchanged and agrees with the exact sum modulo 256. |
| Machine.AddCell | src/main.rs:106-111 | Adding to the current cell wraps modulo 256 and leaves every other cell, the cursor and both streams unchanged. |
| Machine.AddCellTwice | src/main.rs:106-111 | Two additions to the current cell equal one addition of their sum. This is why a run may be emitted as one weighted addition. |
| Machine.Move | src/main.rs:125-126 | A pointer update moves the cursor by its weight and changes no cell. |
| Machine.PutByte | src/main.rs:165-170 | Output appends the current cell to the output stream and changes nothing else. |
| Machine.GetByte | src/main.rs:171-181 | Input stores the next input byte in the current cell and consumes it. With the input used up it stores 255 and consumes nothing. Every other cell is left alone. |
| Semantics.Step | src/main.rs:93-181 | The meaning of one leaf instruction. Only `.` writes output and only `,` consumes input. `>` and `<` change no cell, and nothing else moves the cursor. `RunRepeat` and `RunExpandOp` tie it to the emitted operations. |
| Semantics.Run | src/main.rs:182-211 | The meaning of an instruction sequence, with a loop repeating its body while the current cell is non-zero. A finished run whose last instruction is a loop leaves the current cell at 0. `LowerSound` shows the compiled program has the same meaning. |
| Semantics.OpStep | src/main.rs:106-181 | The meaning of one emitted straight-line operation. Only the output call writes output and only the input call consumes input. Pointer updates change no cell, and nothing else moves the cursor. `RunExpandOp` shows it equals the run of instructions it stands for. |
| Semantics.RunOps | src/main.rs:182-211 | The meaning of an emitted operation sequence, with `While` as the header/body/exit blocks. A finished run whose last operation is a `While` leaves the current cell at 0. `ExpandSound` and `LowerSound` show it agrees with the instruction tree. |
| Semantics.Iterate | src/main.rs:191-204 | A loop that finishes leaves the current cell at 0, since its header only exits on a zero cell. |
| Semantics.IterateOps | src/main.rs:191-204 | The same holds for the emitted header/body/exit blocks. |
| Semantics.RunExtends | src/main.rs:165-181 | Running a tree only appends to the output and only consumes input from the front. |
| Semantics.RunMonotone | src/main.rs:191-204 | A run that finishes with some bound on loop passes gives the same result with any larger bound. |
| Equivalence.RunRepeat | src/main.rs:106-163 | A weighted operation gives the same state as its run of single instructions applied one at a time: `n` cell steps modulo 256, or `n` cursor steps. |
| Equivalence.MergeStep | src/main.rs:96-100 | One more node of a run, followed by the remaining run, is the run with its count raised by one. |
| Equivalence.RunExpandOp | src/main.rs:106-181 | Each straight-line operation behaves as the nodes it stands for. |
| Equivalence.IterateExpand | src/main.rs:182-211 | The emitted header/body/exit structure repeats exactly like the loop node it was lowered from. |
| Equivalence.ExpandSound | src/main.rs:89-214 | Any operation sequence gives the same outcome as the nodes it stands for. |
| Equivalence.LowerSound | src/main.rs:89-214 | The lowered program gives exactly the outcome of the instruction tree, for every state and every bound on loop passes. |
| Equivalence.RunOpsExtends | src/main.rs:165-181 | A lowered program only appends to the output and only consumes input from the front. |
| Equivalence.RunOpsMonotone | src/main.rs:182-211 | A lowered program that finishes within some bound on loop passes gives the same result with any larger bound. |
| Compiler.Compile | src/main.rs:292-295 | The compiled operations stand for exactly the parsed tree. They are fully merged, and they are the unique sequence with both properties. |
| Compiler.CompiledBehaves | src/main.rs:286-295 | From the zero tape and any input, the compiled program and the parsed tree give the same outcome. |
| Programs.CountDown | src/main.rs:191-204 | `[-]` on a cell holding `v` finishes exactly when it is allowed `v` passes. It then leaves the cell at 0 and changes nothing else. |
| Programs.ClearLoop | src/main.rs:182-211 | `[-]` lowers to a `While` around one subtraction of weight 1, and both forms clear the cell. |
| Programs.ParseAddThenPrint | src/main.rs:66-78 | `n` plus signs followed by a dot parse to `n` increments and one output. |
| Programs.AddThenPrintOutputs | src/main.rs:92-170 | `n` plus signs followed by a dot lower to one weighted addition and one output call. The output is the single byte `n` modulo 256, which for 65 is A. |

## Left out

- Semantics.OpStep: the cursor is an unbounded integer. The emitted code keeps it in a pointer-width variable, and its pointer updates (src/main.rs:125, 160-162) wrap at the host's pointer width. The model does not wrap.
- Machine.State: the tape is idealised as zero cells around cursor 0. In the source, the 30000-byte `data` block (src/main.rs:250-254) is declared but never used. The cursor is set to the address of the 8-byte anonymous block itself (src/main.rs:262-266, 287-289). Nothing loads the tape's address out of that block, and the line that would store the address there (src/main.rs:260) is commented out too. The emitted code therefore never addresses the 30000 cells. The model says nothing about where the emitted code's cursor really points or how large the tape is.
- Machine.GetByte: `getchar` is declared to return an 8-bit value (src/main.rs:281), so its end-of-stream result -1 arrives as 255. The model fixes that value as `Machine.EndOfInput`. It does not model a C library that returns something else.
- `putchar` and `getchar` are modelled as appending to an output byte sequence and consuming an input byte sequence. Their buffering and error results are left out.
- Cranelift itself is left out. This covers ISA and flag setup, module and signature declarations, creating, switching and sealing blocks, variable declaration, function definition and object emission (src/main.rs:217-248, 269-284, 300-306). The emitted blocks are represented by the structured `Ops.Op` language.
- The final `return 0` of the emitted `main` (src/main.rs:297-298) carries no behaviour the model observes, so it is left out.
- The command-line front end (src/main.rs:309-326) is left out: argument checking, file reading and writing, and the usage messages. These are I/O.
- The source gives each of the six leaf symbols and each of the four run instructions its own branch. The model folds them into one symbol table and one run case. The branches are identical up to the instruction kind.
- The source passes the run count to `iconst(types::I8, …)`, which truncates it to 8 bits. The model keeps the full count and wraps the sum instead. Both give the same cell value modulo 256.
- Nesting depth: `parse_loop` and `compile_instruction` call themselves once per bracket nesting level (src/main.rs:52, 81, 202), so very deeply nested text overflows the Rust stack. The model's `Parser.Parse` and `Lowering.Lower` are total and do not model that limit.
- The interpreters take a bound on loop passes (`fuel`). A program that does not terminate is observed only as running out of that bound for every bound.

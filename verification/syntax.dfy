/** The instruction tree produced by the parser, and the eight symbols of the
    source language.
 */
module Syntax {

  /** One instruction node. A `Loop` owns its body by value; there is no
      sharing between nodes. */
  datatype Node =
    | IncData       // +
    | IncPtr        // >
    | DecData       // -
    | DecPtr        // <
    | Output        // .
    | Input         // ,
    | Loop(insts: seq<Node>)   // [ ... ]

  /** The six symbols that map one-to-one onto a leaf node. */
  predicate IsLeafSymbol(c: char) {
    c == '+' || c == '>' || c == '-' || c == '<' || c == '.' || c == ','
  }

  /** The eight meaningful symbols; every other character is a comment. */
  predicate IsCommand(c: char) {
    IsLeafSymbol(c) || c == '[' || c == ']'
  }

  /** The leaf node a leaf symbol stands for. */
  function LeafOf(c: char): (n: Node)
    requires IsLeafSymbol(c)
    ensures !n.Loop?
  {
    if c == '+' then IncData
    else if c == '>' then IncPtr
    else if c == '-' then DecData
    else if c == '<' then DecPtr
    else if c == '.' then Output
    else Input
  }

  /** The symbol a leaf node is written as. */
  function SymbolOf(n: Node): (c: char)
    requires !n.Loop?
    ensures IsLeafSymbol(c) && LeafOf(c) == n
  {
    match n
    case IncData => '+'
    case IncPtr => '>'
    case DecData => '-'
    case DecPtr => '<'
    case Output => '.'
    case Input => ','
  }

  /** The meaningful characters of `s`, in order. */
  function Commands(s: string): (r: string)
    ensures |r| <= |s|
  {
    if s == [] then []
    else if IsCommand(s[0]) then [s[0]] + Commands(s[1..])
    else Commands(s[1..])
  }

  /** Writes a tree back as source text: each leaf as its symbol, each loop as
      a balanced bracket pair around its body. */
  function Unparse(ts: seq<Node>): (r: string)
  {
    if ts == [] then []
    else
      (match ts[0]
       case Loop(body) => ['['] + Unparse(body) + [']']
       case _ => [SymbolOf(ts[0])])
      + Unparse(ts[1..])
  }

  /** Concatenation regroups freely. */
  lemma Concat3<T>(a: seq<T>, b: seq<T>, c: seq<T>)
    ensures (a + b) + c == a + (b + c)
  {
  }

  /** Filtering keeps exactly the meaningful characters of the text. */
  lemma {:induction false} CommandsKeeps(s: string)
    ensures forall i :: 0 <= i < |Commands(s)| ==> IsCommand(Commands(s)[i])
    ensures forall c :: c in Commands(s) <==> c in s && IsCommand(c)
    decreases |s|
  {
    if s != [] {
      CommandsKeeps(s[1..]);
      assert s == [s[0]] + s[1..];
    }
  }

  /** The text of a tree consists of the eight symbols only. */
  lemma {:induction false} UnparseCommands(ts: seq<Node>)
    ensures forall i :: 0 <= i < |Unparse(ts)| ==> IsCommand(Unparse(ts)[i])
  {
    if ts != [] {
      UnparseCommands(ts[1..]);
      if ts[0].Loop? {
        UnparseCommands(ts[0].insts);
      }
    }
  }

  /** Filtering a text made only of the eight symbols changes nothing. */
  lemma {:induction false} CommandsOfCommandText(s: string)
    requires forall i :: 0 <= i < |s| ==> IsCommand(s[i])
    ensures Commands(s) == s
    decreases |s|
  {
    if s != [] {
      assert IsCommand(s[0]);
      assert forall i :: 0 <= i < |s[1..]| ==> s[1..][i] == s[i + 1];
      CommandsOfCommandText(s[1..]);
      assert s == [s[0]] + s[1..];
    }
  }

  /** Filtering twice is filtering once. */
  lemma {:induction false} CommandsIdempotent(s: string)
    ensures Commands(Commands(s)) == Commands(s)
  {
    CommandsKeeps(s);
    CommandsOfCommandText(Commands(s));
  }

  /** The text of a tree has nothing for the filter to remove, so parsing it
      gives the same tree whether or not comments were stripped first. */
  lemma UnparseIsCommands(ts: seq<Node>)
    ensures Commands(Unparse(ts)) == Unparse(ts)
  {
    UnparseCommands(ts);
    CommandsOfCommandText(Unparse(ts));
  }
}

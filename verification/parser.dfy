/** The recursive-descent parser: source text to an instruction tree.

    `ParseLoop` and `Parse` are the reference definitions, written as pure
    recursive functions over the remaining text. `ParseLoopChars` and
    `ParseText` follow the shape of brainheck's `parse_loop` and `parse` (one
    shared character cursor, a while loop per nesting level) and are proved
    to agree with them.
 */
module Parser {
  import opened Syntax

  /** What a loop parser hands back: the body it collected and the text
      that follows it. */
  datatype Parsed = Parsed(body: seq<Node>, rest: string)

  /** Parses the body of a loop whose `[` has just been consumed. Stops after
      the first `]` at this nesting level, or at the end of the text; returns
      the body and the text that remains. */
  function ParseLoop(s: string): (r: Parsed)
    ensures |r.rest| <= |s|
    decreases |s|
  {
    if s == [] then Parsed([], [])
    else if s[0] == ']' then Parsed([], s[1..])
    else if s[0] == '[' then
      var inner := ParseLoop(s[1..]);
      var more := ParseLoop(inner.rest);
      Parsed([Loop(inner.body)] + more.body, more.rest)
    else if IsLeafSymbol(s[0]) then
      var more := ParseLoop(s[1..]);
      Parsed([LeafOf(s[0])] + more.body, more.rest)
    else
      ParseLoop(s[1..])
  }

  /** Parses a whole program. A `]` with no enclosing `[` is dropped; a `[`
      that is never closed keeps what was parsed up to the end of the text. */
  function Parse(s: string): (ast: seq<Node>)
    ensures |ast| <= |s|
    decreases |s|
  {
    if s == [] then []
    else if s[0] == '[' then
      var inner := ParseLoop(s[1..]);
      [Loop(inner.body)] + Parse(inner.rest)
    else if IsLeafSymbol(s[0]) then
      [LeafOf(s[0])] + Parse(s[1..])
    else
      Parse(s[1..])
  }

  /** The loop parser as written: a while loop over a shared character
      cursor `j`, recursing on `[` and returning on `]`. The six leaf
      branches of `parse_loop` are folded into one through `LeafOf`. */
  method ParseLoopChars(s: string, i: nat) returns (ast: seq<Node>, j: nat)
    requires i <= |s|
    ensures i <= j <= |s|
    ensures ParseLoop(s[i..]) == Parsed(ast, s[j..])
    decreases |s| - i
  {
    ast := [];
    j := i;
    assert ast + ParseLoop(s[j..]).body == ParseLoop(s[i..]).body;
    while j < |s|
      invariant i <= j <= |s|
      invariant LoopSoFar(s, i, j, ast)
      decreases |s| - j
    {
      var c := s[j];
      ghost var at := j;
      ghost var before := ast;
      j := j + 1;
      if IsLeafSymbol(c) {
        ast := ast + [LeafOf(c)];
        LoopSoFarLeaf(s, i, at, before);
      } else if c == '[' {
        var inner, k := ParseLoopChars(s, j);
        ast := ast + [Loop(inner)];
        j := k;
        LoopSoFarOpen(s, i, at, before, inner, k);
      } else if c == ']' {
        LoopSoFarClose(s, i, at, ast);
        return;
      } else {
        LoopSoFarSkip(s, i, at, ast);
      }
    }
    LoopSoFarEnd(s, i, ast);
  }

  /** The loop parser's invariant: the body collected from `i` up to `j`,
      followed by what the text from `j` parses to, is what the text from
      `i` parses to. */
  ghost predicate LoopSoFar(s: string, i: nat, j: nat, ast: seq<Node>)
    requires i <= j <= |s|
  {
    ParseLoop(s[i..]) == Parsed(ast + ParseLoop(s[j..]).body, ParseLoop(s[j..]).rest)
  }

  /** The invariant kept across a leaf symbol. */
  lemma LoopSoFarLeaf(s: string, i: nat, j: nat, ast: seq<Node>)
    requires i <= j < |s| && IsLeafSymbol(s[j]) && LoopSoFar(s, i, j, ast)
    ensures LoopSoFar(s, i, j + 1, ast + [LeafOf(s[j])])
  {
    ParseLoopStep(s, j);
    var more := ParseLoop(s[j + 1..]);
    Concat3(ast, [LeafOf(s[j])], more.body);
  }

  /** The invariant kept across a nested loop parsed by the recursive call. */
  lemma LoopSoFarOpen(s: string, i: nat, j: nat, ast: seq<Node>, inner: seq<Node>, k: nat)
    requires i <= j < |s| && s[j] == '[' && LoopSoFar(s, i, j, ast)
    requires j + 1 <= k <= |s| && ParseLoop(s[j + 1..]) == Parsed(inner, s[k..])
    ensures LoopSoFar(s, i, k, ast + [Loop(inner)])
  {
    ParseLoopStep(s, j);
    var more := ParseLoop(s[k..]);
    Concat3(ast, [Loop(inner)], more.body);
  }

  /** At `]` the body collected so far is the whole body. */
  lemma LoopSoFarClose(s: string, i: nat, j: nat, ast: seq<Node>)
    requires i <= j < |s| && s[j] == ']' && LoopSoFar(s, i, j, ast)
    ensures ParseLoop(s[i..]) == Parsed(ast, s[j + 1..])
  {
    ParseLoopStep(s, j);
    assert ast + [] == ast;
  }

  /** The invariant kept across a comment character. */
  lemma LoopSoFarSkip(s: string, i: nat, j: nat, ast: seq<Node>)
    requires i <= j < |s| && !IsCommand(s[j]) && LoopSoFar(s, i, j, ast)
    ensures LoopSoFar(s, i, j + 1, ast)
  {
    ParseLoopStep(s, j);
  }

  /** At the end of the text the body collected so far is the whole body. */
  lemma LoopSoFarEnd(s: string, i: nat, ast: seq<Node>)
    requires i <= |s| && LoopSoFar(s, i, |s|, ast)
    ensures ParseLoop(s[i..]) == Parsed(ast, s[|s|..])
  {
    assert s[|s|..] == [];
    assert ast + [] == ast;
  }

  /** One step of the loop parser, read off the first character. */
  lemma ParseLoopStep(s: string, j: nat)
    requires j < |s|
    ensures s[j] == ']' ==> ParseLoop(s[j..]) == Parsed([], s[j + 1..])
    ensures s[j] == '[' ==>
      var inner := ParseLoop(s[j + 1..]);
      var more := ParseLoop(inner.rest);
      ParseLoop(s[j..]) == Parsed([Loop(inner.body)] + more.body, more.rest)
    ensures IsLeafSymbol(s[j]) ==>
      var more := ParseLoop(s[j + 1..]);
      ParseLoop(s[j..]) == Parsed([LeafOf(s[j])] + more.body, more.rest)
    ensures !IsCommand(s[j]) ==> ParseLoop(s[j..]) == ParseLoop(s[j + 1..])
  {
    assert s[j..][1..] == s[j + 1..];
  }

  /** One step of the top-level parser, read off the first character. */
  lemma ParseStep(s: string, j: nat)
    requires j < |s|
    ensures s[j] == '[' ==>
      var inner := ParseLoop(s[j + 1..]);
      Parse(s[j..]) == [Loop(inner.body)] + Parse(inner.rest)
    ensures IsLeafSymbol(s[j]) ==> Parse(s[j..]) == [LeafOf(s[j])] + Parse(s[j + 1..])
    ensures !IsLeafSymbol(s[j]) && s[j] != '[' ==> Parse(s[j..]) == Parse(s[j + 1..])
  {
    assert s[j..][1..] == s[j + 1..];
  }

  /** The top-level parser as written: the same loop, except that `]` is not
      a case and is skipped like a comment. */
  method ParseText(s: string) returns (ast: seq<Node>)
    ensures ast == Parse(s)
  {
    ast := [];
    var j := 0;
    assert s[0..] == s;
    while j < |s|
      invariant 0 <= j <= |s|
      invariant Parse(s) == ast + Parse(s[j..])
      decreases |s| - j
    {
      var c := s[j];
      ghost var at := j;
      ghost var before := ast;
      j := j + 1;
      if IsLeafSymbol(c) {
        ast := ast + [LeafOf(c)];
        TextSoFarLeaf(s, at, before);
      } else if c == '[' {
        var inner, k := ParseLoopChars(s, j);
        ast := ast + [Loop(inner)];
        j := k;
        TextSoFarOpen(s, at, before, inner, k);
      } else {
        ParseStep(s, at);
      }
    }
    assert s[j..] == [];
    assert ast + [] == ast;
  }

  /** The top-level parser's invariant kept across a leaf symbol. */
  lemma TextSoFarLeaf(s: string, j: nat, ast: seq<Node>)
    requires j < |s| && IsLeafSymbol(s[j]) && Parse(s) == ast + Parse(s[j..])
    ensures Parse(s) == (ast + [LeafOf(s[j])]) + Parse(s[j + 1..])
  {
    ParseStep(s, j);
    Concat3(ast, [LeafOf(s[j])], Parse(s[j + 1..]));
  }

  /** The top-level parser's invariant kept across a loop. */
  lemma TextSoFarOpen(s: string, j: nat, ast: seq<Node>, inner: seq<Node>, k: nat)
    requires j < |s| && s[j] == '[' && Parse(s) == ast + Parse(s[j..])
    requires j + 1 <= k <= |s| && ParseLoop(s[j + 1..]) == Parsed(inner, s[k..])
    ensures Parse(s) == (ast + [Loop(inner)]) + Parse(s[k..])
  {
    ParseStep(s, j);
    Concat3(ast, [Loop(inner)], Parse(s[k..]));
  }

  // ---------------------------------------------------------------------------
  // Comments

  /** Characters outside the eight symbols change neither the loop body nor
      which meaningful characters remain after it. */
  lemma {:induction false} ParseLoopIgnoresComments(s: string)
    ensures ParseLoop(Commands(s)) == Parsed(ParseLoop(s).body, Commands(ParseLoop(s).rest))
    decreases |s|
  {
    if s == [] {
    } else if !IsCommand(s[0]) {
      ParseLoopIgnoresComments(s[1..]);
    } else {
      var cs := Commands(s);
      assert cs[0] == s[0] && cs[1..] == Commands(s[1..]);
      ParseLoopIgnoresComments(s[1..]);
      if s[0] == '[' {
        var rest := ParseLoop(s[1..]).rest;
        ParseLoopIgnoresComments(rest);
      }
    }
  }

  /** Parsing a program gives the same tree as parsing it with every comment
      character removed. */
  lemma {:induction false} ParseIgnoresComments(s: string)
    ensures Parse(Commands(s)) == Parse(s)
    decreases |s|
  {
    if s == [] {
    } else if !IsCommand(s[0]) {
      ParseIgnoresComments(s[1..]);
    } else {
      var cs := Commands(s);
      assert cs[0] == s[0] && cs[1..] == Commands(s[1..]);
      if s[0] == '[' {
        ParseLoopIgnoresComments(s[1..]);
        ParseIgnoresComments(ParseLoop(s[1..]).rest);
      } else {
        ParseIgnoresComments(s[1..]);
      }
    }
  }

  /** In text without brackets, every leaf symbol gives its own node, in
      source order, and nothing else gives a node. */
  lemma {:induction false} ParseLeaves(s: string)
    requires '[' !in s && ']' !in s
    ensures |Parse(s)| == |Commands(s)|
    ensures forall i :: 0 <= i < |Parse(s)| ==>
      !Parse(s)[i].Loop? && SymbolOf(Parse(s)[i]) == Commands(s)[i]
    decreases |s|
  {
    if s != [] {
      assert s[0] in s;
      assert forall c :: c in s[1..] ==> c in s;
      ParseLeaves(s[1..]);
      if IsLeafSymbol(s[0]) {
        var cs := Commands(s);
        assert cs[0] == s[0] && cs[1..] == Commands(s[1..]);
      }
    }
  }

  // ---------------------------------------------------------------------------
  // Unbalanced brackets

  /** A loop body ends at the first `]` when no bracket precedes it: the body
      is what the text before it parses to, and the rest follows the `]`. */
  lemma {:induction false} ParseLoopStopsAtClose(a: string, b: string)
    requires '[' !in a && ']' !in a
    ensures ParseLoop(a + [']'] + b) == Parsed(Parse(a), b)
    decreases |a|
  {
    if a == [] {
      assert a + [']'] + b == [']'] + b;
    } else {
      assert (a + [']'] + b)[1..] == a[1..] + [']'] + b;
      assert a[0] in a;
      assert forall c :: c in a[1..] ==> c in a;
      ParseLoopStopsAtClose(a[1..], b);
    }
  }

  /** A `[` that is never closed: the loop body is everything parsed up to
      the end of the text, and no text remains. */
  lemma {:induction false} UnterminatedLoop(s: string)
    requires ']' !in s
    ensures ParseLoop(s) == Parsed(Parse(s), [])
    ensures Parse(['['] + s) == [Loop(Parse(s))]
    decreases |s|
  {
    if s != [] {
      assert forall c :: c in s[1..] ==> c in s;
      UnterminatedLoop(s[1..]);
    }
    assert (['['] + s)[1..] == s;
  }

  // ---------------------------------------------------------------------------
  // Round trip

  /** The text of a non-empty tree, split after its first node. */
  lemma UnparseHead(ts: seq<Node>, rest: string)
    requires ts != []
    ensures ts[0].Loop? ==>
      Unparse(ts) + rest == ['['] + (Unparse(ts[0].insts) + ([']'] + (Unparse(ts[1..]) + rest)))
    ensures !ts[0].Loop? ==>
      Unparse(ts) + rest == [SymbolOf(ts[0])] + (Unparse(ts[1..]) + rest)
  {
    var u := Unparse(ts[1..]);
    if ts[0].Loop? {
      var b := Unparse(ts[0].insts);
      calc {
        Unparse(ts) + rest;
        (['['] + b + [']'] + u) + rest;
        { Concat3(['['] + b + [']'], u, rest); }
        (['['] + b + [']']) + (u + rest);
        { Concat3(['['] + b, [']'], u + rest); }
        (['['] + b) + ([']'] + (u + rest));
        { Concat3(['['], b, [']'] + (u + rest)); }
        ['['] + (b + ([']'] + (u + rest)));
      }
    } else {
      Concat3([SymbolOf(ts[0])], u, rest);
    }
  }

  /** Both parsers read a leaf symbol as its node. */
  lemma ParseLeafSymbol(n: Node, tail: string)
    requires !n.Loop?
    ensures ParseLoop([SymbolOf(n)] + tail) == Parsed([n] + ParseLoop(tail).body, ParseLoop(tail).rest)
    ensures Parse([SymbolOf(n)] + tail) == [n] + Parse(tail)
  {
    assert ([SymbolOf(n)] + tail)[1..] == tail;
  }

  /** Both parsers read `[` by handing the text after it to the loop parser. */
  lemma ParseOpenBracket(tail: string)
    ensures
      var inner := ParseLoop(tail);
      var more := ParseLoop(inner.rest);
      ParseLoop(['['] + tail) == Parsed([Loop(inner.body)] + more.body, more.rest)
    ensures
      var inner := ParseLoop(tail);
      Parse(['['] + tail) == [Loop(inner.body)] + Parse(inner.rest)
  {
    assert (['['] + tail)[1..] == tail;
  }

  /** The loop parser stops at a `]` and hands back the text after it. */
  lemma ParseLoopClose(tail: string)
    ensures ParseLoop([']'] + tail) == Parsed([], tail)
  {
    assert ([']'] + tail)[1..] == tail;
  }

  /** Inside a loop body, the text of a tree parses back to the tree, and the
      loop parser then carries on with whatever follows as if the tree's
      text had not been there. */
  lemma {:induction false} ParseLoopText(ts: seq<Node>, rest: string)
    ensures ParseLoop(Unparse(ts) + rest) == Parsed(ts + ParseLoop(rest).body, ParseLoop(rest).rest)
  {
    var after := ParseLoop(rest);
    if ts == [] {
      assert Unparse(ts) + rest == rest;
      assert ts + after.body == after.body;
    } else {
      var tail := Unparse(ts[1..]) + rest;
      ParseLoopText(ts[1..], rest);
      UnparseHead(ts, rest);
      if ts[0].Loop? {
        var body := ts[0].insts;
        ParseLoopClose(tail);
        ParseLoopText(body, [']'] + tail);
        assert body + [] == body;
        ParseOpenBracket(Unparse(body) + ([']'] + tail));
      } else {
        ParseLeafSymbol(ts[0], tail);
      }
      Concat3([ts[0]], ts[1..], after.body);
      assert [ts[0]] + ts[1..] == ts;
    }
  }

  /** Parsing the text of a tree followed by `]` gives back the tree as a
      loop body and stops right after that `]`. */
  lemma {:induction false} ParseLoopUnparse(ts: seq<Node>, rest: string)
    ensures ParseLoop(Unparse(ts) + [']'] + rest) == Parsed(ts, rest)
  {
    ParseLoopText(ts, [']'] + rest);
    ParseLoopClose(rest);
    assert Unparse(ts) + [']'] + rest == Unparse(ts) + ([']'] + rest);
    assert ts + [] == ts;
  }

  /** A `[` that is never closed, whatever balanced loops its body holds: the
      loop keeps every node parsed up to the end of the text, and no text
      remains. */
  lemma {:induction false} UnterminatedText(ts: seq<Node>)
    ensures ParseLoop(Unparse(ts)) == Parsed(ts, [])
    ensures Parse(['['] + Unparse(ts)) == [Loop(ts)]
  {
    ParseLoopText(ts, []);
    assert Unparse(ts) + [] == Unparse(ts);
    assert ts + [] == ts;
    ParseOpenBracket(Unparse(ts));
  }

  /** Parsing the text of a tree followed by more text gives the tree followed
      by what the rest parses to. */
  lemma {:induction false} ParseUnparse(ts: seq<Node>, rest: string)
    ensures Parse(Unparse(ts) + rest) == ts + Parse(rest)
  {
    if ts == [] {
      assert Unparse(ts) + rest == rest;
    } else {
      var tail := Unparse(ts[1..]) + rest;
      ParseUnparse(ts[1..], rest);
      UnparseHead(ts, rest);
      if ts[0].Loop? {
        var body := ts[0].insts;
        ParseLoopClose(tail);
        ParseLoopText(body, [']'] + tail);
        assert body + [] == body;
        ParseOpenBracket(Unparse(body) + ([']'] + tail));
      } else {
        ParseLeafSymbol(ts[0], tail);
      }
      Concat3([ts[0]], ts[1..], Parse(rest));
      assert [ts[0]] + ts[1..] == ts;
    }
  }

  /** Every tree is recovered from its text: each loop comes back from one
      balanced bracket pair. */
  lemma RoundTrip(ts: seq<Node>)
    ensures Parse(Unparse(ts)) == ts
  {
    ParseUnparse(ts, []);
    assert Unparse(ts) + [] == Unparse(ts);
  }

  /** A `]` after well-bracketed text produces no node, and parsing simply
      continues after it. */
  lemma StrayCloseDropped(ts: seq<Node>, rest: string)
    ensures Parse(Unparse(ts) + [']'] + rest) == ts + Parse(rest)
  {
    ParseUnparse(ts, [']'] + rest);
    assert Unparse(ts) + [']'] + rest == Unparse(ts) + ([']'] + rest);
  }
}

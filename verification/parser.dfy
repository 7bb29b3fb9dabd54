/**
  `Parse` (main.go:34-98): the scan, bracket-matching and flatten passes
  run one after the other, with the two panics returned as errors.
*/
module Parser {
  import opened Wrappers
  import opened Syntax
  import opened Scanner
  import opened Brackets
  import opened Flatten

  /**
    What `Parse` returns. `nodes` is the whole structural list from `root`
    after main.go:67, in `Next` order; a program node reaches through `Next`
    only the nodes after it, so some of `nodes` may be unreachable from the
    Go `AST`. `instructions` holds the positions in `nodes` of the
    program's nodes.
  */
  datatype Ast = Ast(nodes: seq<Instruction>, instructions: seq<nat>)

  /**
    The program refers, in list order, to every non-bracket node of the
    structural list and to nothing else; none of those nodes carries a link.
  */
  ghost predicate Flat(ast: Ast) {
    && (forall t :: 0 <= t < |ast.instructions| ==>
          && ast.instructions[t] < |ast.nodes|
          && !IsBracket(ast.nodes[ast.instructions[t]].op)
          && ast.nodes[ast.instructions[t]].offset == None)
    && (forall t, u :: 0 <= t < u < |ast.instructions| ==> ast.instructions[t] < ast.instructions[u])
    && (forall i :: 0 <= i < |ast.nodes| && !IsBracket(ast.nodes[i].op) ==> i in ast.instructions)
  }

  /** The tags of the program, in order. */
  function Program(ast: Ast): seq<Op>
    requires forall t :: 0 <= t < |ast.instructions| ==> ast.instructions[t] < |ast.nodes|
  {
    Select(seq(|ast.nodes|, i requires 0 <= i < |ast.nodes| => ast.nodes[i].op), ast.instructions)
  }

  lemma ProgramOfArena(ops: seq<Op>, ast: Ast)
    requires Arena(ops, ast.nodes)
    requires forall t :: 0 <= t < |ast.instructions| ==> ast.instructions[t] < |ast.nodes|
    ensures Program(ast) == Select(ops, ast.instructions)
  {
    assert seq(|ast.nodes|, i requires 0 <= i < |ast.nodes| => ast.nodes[i].op) == ops;
  }

  /** The flatten pass over a paired arena yields a flat program. */
  lemma KeptIsFlat(ops: seq<Op>, nodes: seq<Instruction>)
    requires Arena(ops, nodes)
    requires forall i :: 0 <= i < |ops| && !IsBracket(ops[i]) ==> nodes[i].offset == None
    ensures Flat(Ast(nodes, Kept(ops)))
  {
    var idx := Kept(ops);
    forall t | 0 <= t < |idx|
      ensures idx[t] < |nodes| && !IsBracket(nodes[idx[t]].op) && nodes[idx[t]].offset == None
    {
      assert nodes[idx[t]].op == ops[idx[t]];
    }
    forall i | 0 <= i < |nodes| && !IsBracket(nodes[i].op)
      ensures i in idx
    {
      assert nodes[i].op == ops[i];
    }
  }

  /**
    Matching and flattening of a structural list `ops`: fails exactly when
    the nesting of `ops` is broken, and otherwise returns the arena with
    every loop paired and the program of its non-bracket nodes.
  */
  function ParseOps(ops: seq<Op>): (r: Result<Ast, ParseError>)
    ensures r.Ok? <==> Balanced(ops)
    ensures r == Err(UnmatchedClose) <==> Depth(ops, 0).None?
    ensures r == Err(UnmatchedOpen) <==> Depth(ops, 0).Some? && Depth(ops, 0).value > 0
    ensures r.Ok? ==> Paired(ops, r.value.nodes) && Flat(r.value)
    ensures r.Ok? ==> Program(r.value) == RemoveBrackets(ops)
    ensures r.Ok? ==> |r.value.instructions| <= |ops|
  {
    match Match(ops)
    case Err(e) => Err(e)
    case Ok(nodes) =>
      KeptIsFlat(ops, nodes);
      KeptIsRemoveBrackets(ops);
      ProgramOfArena(ops, Ast(nodes, Kept(ops)));
      Ok(Ast(nodes, Kept(ops)))
  }

  /** Dropping non-bracket tags does not change the nesting of a list. */
  lemma {:induction false} DepthWithout(s: seq<Op>, x: Op, d: nat)
    requires !IsBracket(x)
    ensures Depth(Without(s, x), d) == Depth(s, d)
    decreases |s|
  {
    if |s| > 0 {
      if s[0] == JumpForward {
        DepthWithout(s[1..], x, d + 1);
        assert ([s[0]] + Without(s[1..], x))[1..] == Without(s[1..], x);
      } else if s[0] == JumpBackward {
        if d > 0 {
          DepthWithout(s[1..], x, d - 1);
        }
        assert ([s[0]] + Without(s[1..], x))[1..] == Without(s[1..], x);
      } else {
        DepthWithout(s[1..], x, d);
        if s[0] != x {
          assert ([s[0]] + Without(s[1..], x))[1..] == Without(s[1..], x);
        }
      }
    }
  }

  /** The dropped `>` nodes never change whether, or how, the brackets nest. */
  lemma ScanKeepsNesting(code: string)
    ensures Depth(Scan(code), 0) == Depth(Recognized(code), 0)
  {
    var r := Recognized(code);
    var w := Without(r, IncrementPointer);
    var t := TrailingIncrement(r);
    DepthAppend(w, t, 0);
    DepthWithout(r, IncrementPointer, 0);
    if t != [] {
      DepthOfTrailing(Depth(w, 0));
    }
  }

  lemma DepthOfTrailing(e: Option<nat>)
    ensures e.Some? ==> Depth([IncrementPointer], e.value) == e
  {
    assert [IncrementPointer][1..] == [];
  }

  /**
    The source's `Parse`: panics with "Unmatched ]!" exactly when some
    prefix of the operator characters closes more loops than it opens,
    with "Unmatched [!" exactly when the prefixes never underflow but loops
    are left open, and otherwise returns the paired arena and the program
    of its non-bracket nodes.
  */
  function Parse(code: string): (r: Result<Ast, ParseError>)
    ensures r.Ok? <==> Balanced(Recognized(code))
    ensures r == Err(UnmatchedClose) <==> Depth(Recognized(code), 0).None?
    ensures r == Err(UnmatchedOpen) <==>
      Depth(Recognized(code), 0).Some? && Depth(Recognized(code), 0).value > 0
    ensures r.Ok? ==> Paired(Scan(code), r.value.nodes) && Flat(r.value)
    ensures r.Ok? ==> Program(r.value) == RemoveBrackets(Scan(code))
  {
    ScanKeepsNesting(code);
    ParseOps(Scan(code))
  }

  /**
    `Parse` with the `>` defect corrected: every operator character
    contributes one node, and the program is every non-loop operator of
    the source, in order.
  */
  function ParseFixed(code: string): (r: Result<Ast, ParseError>)
    ensures r.Ok? <==> Balanced(Recognized(code))
    ensures r == Err(UnmatchedClose) <==> Depth(Recognized(code), 0).None?
    ensures r == Err(UnmatchedOpen) <==>
      Depth(Recognized(code), 0).Some? && Depth(Recognized(code), 0).value > 0
    ensures r.Ok? ==> Paired(Recognized(code), r.value.nodes) && Flat(r.value)
    ensures r.Ok? ==> Program(r.value) == RemoveBrackets(Recognized(code))
  {
    ParseOps(ScanFixed(code))
  }

  /** The program is never longer than the number of operator characters in the source. */
  lemma ProgramBound(code: string)
    ensures Parse(code).Ok? ==> |Parse(code).value.instructions| <= |Recognized(code)| <= |code|
  {
    ScanLength(code);
  }

  /** The defect never changes whether parsing fails, nor with which error. */
  lemma DefectKeepsVerdict(code: string)
    ensures Parse(code).Err? <==> ParseFixed(code).Err?
    ensures Parse(code).Err? ==> Parse(code).error == ParseFixed(code).error
  {
  }

  /** Without a `>` in the source both parses agree exactly. */
  lemma ParseAgreesWithoutIncrement(code: string)
    requires '>' !in code
    ensures Parse(code) == ParseFixed(code)
  {
    ScanAgreesWithoutIncrement(code);
  }

  /** Source with no operator character parses to an empty program. */
  lemma InertSource(code: string)
    requires forall i :: 0 <= i < |code| ==> FromChar(code[i]).None?
    ensures Parse(code) == Ok(Ast([], []))
  {
    RecognizedEmpty(code);
    assert Recognized(code) == [];
    assert Without([], IncrementPointer) == [];
    assert Scan(code) == [];
    assert Match([]) == Ok([]);
  }

  /** Characters that are not operators can be inserted anywhere without effect. */
  lemma ParseIgnoresInert(a: string, c: char, d: string)
    requires FromChar(c).None?
    ensures Parse(a + [c] + d) == Parse(a + d)
  {
    ScanIgnoresInert(a, c, d);
  }
}

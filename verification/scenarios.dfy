/**
  Concrete sources and what `Parse` makes of them: the `>` defect, the
  nesting order of loops and the four malformed-bracket cases.
*/
module Scenarios {
  import opened Wrappers
  import opened Syntax
  import opened Scanner
  import opened Brackets
  import opened Flatten
  import opened Parser

  /** A list without loop tags never underflows and ends at its start depth. */
  lemma {:induction false} DepthBracketFree(ops: seq<Op>, d: nat)
    requires forall i :: 0 <= i < |ops| ==> !IsBracket(ops[i])
    ensures Depth(ops, d) == Some(d)
    decreases |ops|
  {
    if |ops| > 0 {
      DepthBracketFree(ops[1..], d);
    }
  }

  /**
    A structural list without loop nodes parses to itself, unlinked, with
    every node in the program.
  */
  lemma BracketFreeParse(ops: seq<Op>)
    requires forall i :: 0 <= i < |ops| ==> !IsBracket(ops[i])
    ensures ParseOps(ops) == Ok(Ast(Fresh(ops), seq(|ops|, i => i)))
  {
    DepthBracketFree(ops, 0);
    KeptBracketFree(ops);
    var nodes := Match(ops).value;
    assert nodes == Fresh(ops);
  }

  /** `>.`: the `>` node is overwritten, so the program is the output node alone. */
  lemma IncrementOverwritten()
    ensures Parse(">.") == Ok(Ast([Instruction(OutputValue, None)], [0]))
  {
    DroppedIncrement();
    ParseOfOutput(Scan(">."));
  }

  /*
    The helpers below take the structural list as a parameter pinned by a
    `requires`, rather than as a literal in the `ensures`: with a literal
    argument the verifier unfolds `ParseOps` and its recursive helpers
    without bound.
  */

  lemma ParseOfOutput(ops: seq<Op>)
    requires ops == [OutputValue]
    ensures ParseOps(ops) == Ok(Ast([Instruction(OutputValue, None)], [0]))
  {
    assert Fresh(ops) == [Instruction(OutputValue, None)];
    assert seq(1, i => i) == [0];
    BracketFreeParse(ops);
  }

  /** `>.` with the defect corrected: both nodes reach the program. */
  lemma IncrementKeptWhenFixed()
    ensures ParseFixed(">.") == Ok(Ast([Instruction(IncrementPointer, None), Instruction(OutputValue, None)], [0, 1]))
  {
    DroppedIncrement();
    ParseOfMoveAndOutput(ScanFixed(">."));
  }

  lemma ParseOfMoveAndOutput(ops: seq<Op>)
    requires ops == [IncrementPointer, OutputValue]
    ensures ParseOps(ops) == Ok(Ast([Instruction(IncrementPointer, None), Instruction(OutputValue, None)], [0, 1]))
  {
    assert Fresh(ops) == [Instruction(IncrementPointer, None), Instruction(OutputValue, None)];
    assert seq(2, i => i) == [0, 1];
    BracketFreeParse(ops);
  }

  /** `[[]]`: the outer loop pairs positions 0 and 3, the inner one 1 and 2; the program is empty. */
  lemma NestedLoops()
    ensures Parse("[[]]") == Ok(Ast([
      Instruction(JumpForward, Some(3)), Instruction(JumpForward, Some(2)),
      Instruction(JumpBackward, Some(1)), Instruction(JumpBackward, Some(0))], []))
  {
    var ops := [JumpForward, JumpForward, JumpBackward, JumpBackward];
    assert Recognized("[[]]") == ops by {
      assert "[[]]"[1..] == "[]]" && "[]]"[1..] == "]]" && "]]"[1..] == "]";
    }
    WithoutAbsent(ops, IncrementPointer);
    assert Scan("[[]]") == ops;
    NestedPairing(ops);
  }

  lemma NestedPairing(ops: seq<Op>)
    requires ops == [JumpForward, JumpForward, JumpBackward, JumpBackward]
    ensures ParseOps(ops) == Ok(Ast([
      Instruction(JumpForward, Some(3)), Instruction(JumpForward, Some(2)),
      Instruction(JumpBackward, Some(1)), Instruction(JumpBackward, Some(0))], []))
  {
    var r := ParseOps(ops);
    NestedBalanced(ops);
    NestedNodes(ops, r.value.nodes);
    KeptAllBrackets(ops);
  }

  /** The only pairing of `[[]]` links 0 with 3 and 1 with 2. */
  lemma NestedNodes(ops: seq<Op>, nodes: seq<Instruction>)
    requires ops == [JumpForward, JumpForward, JumpBackward, JumpBackward]
    requires Paired(ops, nodes)
    ensures nodes == [
      Instruction(JumpForward, Some(3)), Instruction(JumpForward, Some(2)),
      Instruction(JumpBackward, Some(1)), Instruction(JumpBackward, Some(0))]
  {
    var expected := [
      Instruction(JumpForward, Some(3)), Instruction(JumpForward, Some(2)),
      Instruction(JumpBackward, Some(1)), Instruction(JumpBackward, Some(0))];
    NestedArena(ops, expected);
    PairingUnique(ops, nodes, expected);
  }

  lemma NestedBalanced(ops: seq<Op>)
    requires ops == [JumpForward, JumpForward, JumpBackward, JumpBackward]
    ensures Balanced(ops)
  {
    assert Balanced([]) by { assert Depth([], 0) == Some(0); }
    BalancedWrap([], [JumpForward, JumpBackward]);
    assert [] + [JumpForward] + [JumpForward, JumpBackward] + [JumpBackward] == ops;
  }

  lemma NestedArena(ops: seq<Op>, nodes: seq<Instruction>)
    requires ops == [JumpForward, JumpForward, JumpBackward, JumpBackward]
    requires nodes == [
      Instruction(JumpForward, Some(3)), Instruction(JumpForward, Some(2)),
      Instruction(JumpBackward, Some(1)), Instruction(JumpBackward, Some(0))]
    ensures Paired(ops, nodes)
  {
    assert ops[2..2] == [];
    assert ops[1..3] == [JumpForward, JumpBackward];
    assert Balanced([JumpForward, JumpBackward]) by {
      assert [JumpForward, JumpBackward][1..] == [JumpBackward];
    }
    assert MatchedPair(ops, nodes, 0, 3);
    assert MatchedPair(ops, nodes, 1, 2);
  }

  /** A lone `]` underflows at once. */
  lemma LoneClose()
    ensures Parse("]") == Err(UnmatchedClose)
  {
    var ops := [JumpBackward];
    assert Recognized("]") == ops;
    assert Depth(ops, 0) == None;
  }

  /** A lone `[` is never closed. */
  lemma LoneOpen()
    ensures Parse("[") == Err(UnmatchedOpen)
  {
    var ops := [JumpForward];
    assert Recognized("[") == ops;
    assert Depth(ops, 0) == Depth([], 1);
  }

  /** `[[]` leaves the outer loop open. */
  lemma OuterLeftOpen()
    ensures Parse("[[]") == Err(UnmatchedOpen)
  {
    var ops := [JumpForward, JumpForward, JumpBackward];
    assert Recognized("[[]") == ops by {
      assert "[[]"[1..] == "[]" && "[]"[1..] == "]";
    }
    assert ops[1..] == [JumpForward, JumpBackward] && ops[1..][1..] == [JumpBackward];
    assert Depth(ops, 0) == Depth([JumpForward, JumpBackward], 1) == Depth([JumpBackward], 2) == Some(1);
  }

  /** `[]]` closes one loop more than it opens. */
  lemma ExtraClose()
    ensures Parse("[]]") == Err(UnmatchedClose)
  {
    var ops := [JumpForward, JumpBackward, JumpBackward];
    assert Recognized("[]]") == ops by {
      assert "[]]"[1..] == "]]" && "]]"[1..] == "]";
    }
    assert ops[1..] == [JumpBackward, JumpBackward] && ops[1..][1..] == [JumpBackward];
    assert Depth(ops, 0) == Depth([JumpBackward, JumpBackward], 1) == Depth([JumpBackward], 0) == None;
  }
}

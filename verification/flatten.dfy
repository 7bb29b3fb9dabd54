/**
  The third pass of `Parse` (main.go:90-95): copy references to the nodes
  of the structural list into the program, skipping every bracket node.
*/
module Flatten {
  import opened Syntax

  /**
    Positions, in list order, of the nodes the flatten loop appends: every
    non-bracket node, each once, in increasing order.
  */
  function Kept(ops: seq<Op>): (r: seq<nat>)
    ensures |r| <= |ops|
    ensures forall t :: 0 <= t < |r| ==> r[t] < |ops| && !IsBracket(ops[r[t]])
    ensures forall t, u :: 0 <= t < u < |r| ==> r[t] < r[u]
    ensures forall i :: 0 <= i < |ops| && !IsBracket(ops[i]) ==> i in r
    decreases |ops|
  {
    if |ops| == 0 then []
    else
      var n := |ops| - 1;
      var init := Kept(ops[..n]);
      if IsBracket(ops[n]) then init else init + [n]
  }

  /** Reference filter: `s` with its loop tags removed, order kept. */
  function RemoveBrackets(s: seq<Op>): (r: seq<Op>)
    ensures |r| <= |s|
    ensures forall t :: 0 <= t < |r| ==> !IsBracket(r[t])
    ensures forall x :: !IsBracket(x) ==> multiset(r)[x] == multiset(s)[x]
    decreases |s|
  {
    if |s| == 0 then []
    else
      var n := |s| - 1;
      assert s == s[..n] + [s[n]];
      RemoveBrackets(s[..n]) + (if IsBracket(s[n]) then [] else [s[n]])
  }

  /** The tags at the given positions, in the given order. */
  function Select(ops: seq<Op>, idx: seq<nat>): (r: seq<Op>)
    requires forall t :: 0 <= t < |idx| ==> idx[t] < |ops|
    decreases |idx|
  {
    if |idx| == 0 then []
    else Select(ops, idx[..|idx| - 1]) + [ops[idx[|idx| - 1]]]
  }

  /** Positions inside a prefix select the same tags from the prefix. */
  lemma {:induction false} SelectPrefix(ops: seq<Op>, m: nat, idx: seq<nat>)
    requires m <= |ops|
    requires forall t :: 0 <= t < |idx| ==> idx[t] < m
    ensures Select(ops, idx) == Select(ops[..m], idx)
    decreases |idx|
  {
    if |idx| > 0 {
      SelectPrefix(ops, m, idx[..|idx| - 1]);
    }
  }

  /** The flattened program's tags are exactly the structural list's non-bracket tags, in order. */
  lemma {:induction false} KeptIsRemoveBrackets(ops: seq<Op>)
    ensures Select(ops, Kept(ops)) == RemoveBrackets(ops)
    decreases |ops|
  {
    if |ops| > 0 {
      var n := |ops| - 1;
      var init := ops[..n];
      var k := Kept(init);
      KeptIsRemoveBrackets(init);
      SelectPrefix(ops, n, k);
      if !IsBracket(ops[n]) {
        assert (k + [n])[..|k|] == k;
      }
    }
  }

  /** Without loop nodes the program is the whole list, every position in order. */
  lemma {:induction false} KeptBracketFree(ops: seq<Op>)
    requires forall i :: 0 <= i < |ops| ==> !IsBracket(ops[i])
    ensures Kept(ops) == seq(|ops|, i => i)
    decreases |ops|
  {
    if |ops| > 0 {
      KeptBracketFree(ops[..|ops| - 1]);
    }
  }

  /** A list made only of loop nodes leaves nothing in the program. */
  lemma {:induction false} KeptAllBrackets(ops: seq<Op>)
    requires forall i :: 0 <= i < |ops| ==> IsBracket(ops[i])
    ensures Kept(ops) == []
    decreases |ops|
  {
    if |ops| > 0 {
      KeptAllBrackets(ops[..|ops| - 1]);
    }
  }
}

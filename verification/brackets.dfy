/**
  The second pass of `Parse` (main.go:69-88): a stack-based walk over the
  structural list that links every `[` node with its `]` node through
  their `offset` fields, or aborts.
*/
module Brackets {
  import opened Wrappers
  import opened Syntax

  /**
    Reference nesting semantics: walk `s` from open-loop depth `d`;
    `None` when some `]` finds no open loop, otherwise the final depth.
  */
  function Depth(s: seq<Op>, d: nat): Option<nat>
    decreases |s|
  {
    if |s| == 0 then Some(d)
    else if s[0] == JumpForward then Depth(s[1..], d + 1)
    else if s[0] == JumpBackward then (if d == 0 then None else Depth(s[1..], d - 1))
    else Depth(s[1..], d)
  }

  /** Every `[` of `s` is closed inside `s` and every `]` closes one. */
  predicate Balanced(s: seq<Op>) {
    Depth(s, 0) == Some(0)
  }

  /** Opens minus closes, counted without regard to order. */
  function Net(s: seq<Op>): int {
    multiset(s)[JumpForward] as int - multiset(s)[JumpBackward] as int
  }

  lemma NetCons(x: Op, s: seq<Op>)
    ensures Net([x] + s) == Net([x]) + Net(s)
  {
    assert multiset([x] + s) == multiset([x]) + multiset(s);
  }

  /** A successful walk ends at the start depth plus the net count of opens. */
  lemma {:induction false} DepthIsNet(s: seq<Op>, d: nat)
    ensures Depth(s, d).Some? ==> Depth(s, d).value == d + Net(s)
    decreases |s|
  {
    if |s| > 0 {
      DepthIsNet(s[1..], if s[0] == JumpForward then d + 1 else if s[0] == JumpBackward && d > 0 then d - 1 else d);
      assert s == [s[0]] + s[1..];
      NetCons(s[0], s[1..]);
    }
  }

  /** The count of a non-empty prefix is that of its first tag plus that of the rest. */
  lemma PrefixNet(s: seq<Op>, k: nat)
    requires 1 <= k <= |s|
    ensures Net(s[..k]) == Net([s[0]]) + Net(s[1..][..k - 1])
  {
    assert s[..k] == [s[0]] + s[1..][..k - 1];
    NetCons(s[0], s[1..][..k - 1]);
  }

  /** The walk fails exactly when some prefix closes more loops than are open. */
  lemma {:induction false} DepthFailsIffPrefixUnderflows(s: seq<Op>, d: nat)
    ensures Depth(s, d).None? <==> exists k :: 0 <= k <= |s| && d + Net(s[..k]) < 0
    decreases |s|
  {
    assert s[..0] == [];
    if |s| == 0 {
      forall k | 0 <= k <= |s|
        ensures d + Net(s[..k]) >= 0
      {
        assert s[..k] == [];
      }
    } else {
      var x := s[0];
      if x == JumpBackward && d == 0 {
        PrefixNet(s, 1);
        assert s[1..][..0] == [];
      } else {
        var d' := if x == JumpForward then d + 1 else if x == JumpBackward then d - 1 else d;
        assert Depth(s, d) == Depth(s[1..], d');
        assert d + Net([x]) == d';
        DepthFailsIffPrefixUnderflows(s[1..], d');
        if Depth(s, d).None? {
          var k' :| 0 <= k' <= |s[1..]| && d' + Net(s[1..][..k']) < 0;
          PrefixNet(s, k' + 1);
        } else {
          forall k | 0 <= k <= |s|
            ensures d + Net(s[..k]) >= 0
          {
            if k > 0 {
              PrefixNet(s, k);
            }
          }
        }
      }
    }
  }

  /** Walking `a + b` is walking `a`, then `b` from where `a` ended. */
  lemma {:induction false} DepthAppend(a: seq<Op>, b: seq<Op>, d: nat)
    ensures Depth(a + b, d) == (if Depth(a, d).None? then None else Depth(b, Depth(a, d).value))
    decreases |a|
  {
    if |a| == 0 {
      assert a + b == b;
    } else {
      assert (a + b)[0] == a[0];
      assert (a + b)[1..] == a[1..] + b;
      if a[0] == JumpForward {
        DepthAppend(a[1..], b, d + 1);
      } else if a[0] == JumpBackward {
        if d > 0 {
          DepthAppend(a[1..], b, d - 1);
        }
      } else {
        DepthAppend(a[1..], b, d);
      }
    }
  }

  /** Starting deeper only adds to the final depth of a walk that succeeds. */
  lemma {:induction false} DepthShift(s: seq<Op>, d: nat, m: nat)
    requires Depth(s, d).Some?
    ensures Depth(s, d + m) == Some(Depth(s, d).value + m)
    decreases |s|
  {
    if |s| > 0 {
      if s[0] == JumpForward {
        DepthShift(s[1..], d + 1, m);
      } else if s[0] == JumpBackward {
        DepthShift(s[1..], d - 1, m);
      } else {
        DepthShift(s[1..], d, m);
      }
    }
  }

  lemma BalancedExtend(a: seq<Op>, x: Op)
    requires Balanced(a) && !IsBracket(x)
    ensures Balanced(a + [x])
  {
    DepthAppend(a, [x], 0);
    assert [x][1..] == [];
  }

  /** Wrapping a balanced list in a loop and appending it to another keeps balance. */
  lemma BalancedWrap(a: seq<Op>, b: seq<Op>)
    requires Balanced(a) && Balanced(b)
    ensures Balanced(a + [JumpForward] + b + [JumpBackward])
  {
    var w := [JumpForward] + b + [JumpBackward];
    assert a + [JumpForward] + b + [JumpBackward] == a + w;
    DepthAppend(a, w, 0);
    assert w[1..] == b + [JumpBackward];
    DepthShift(b, 0, 1);
    DepthAppend(b, [JumpBackward], 1);
    assert [JumpBackward][1..] == [];
  }

  /** `i` and `j` are a `[`/`]` pair linked both ways with balanced contents. */
  ghost predicate MatchedPair(ops: seq<Op>, nodes: seq<Instruction>, i: int, j: int) {
    && 0 <= i < j < |ops| && |nodes| == |ops|
    && ops[i] == JumpForward && ops[j] == JumpBackward
    && nodes[i].offset == Some(j) && nodes[j].offset == Some(i)
    && Balanced(ops[i + 1..j])
  }

  /** `nodes` carries the tags `ops`, in order. */
  ghost predicate Arena(ops: seq<Op>, nodes: seq<Instruction>) {
    |nodes| == |ops| && forall i :: 0 <= i < |ops| ==> nodes[i].op == ops[i]
  }

  /**
    The outcome of a successful matching pass: every bracket node is in a
    matched pair, reachable from either end, and no other node has an offset.
  */
  ghost predicate Paired(ops: seq<Op>, nodes: seq<Instruction>) {
    && Arena(ops, nodes)
    && (forall i :: 0 <= i < |ops| && !IsBracket(ops[i]) ==> nodes[i].offset == None)
    && (forall i :: 0 <= i < |ops| && ops[i] == JumpForward ==>
          nodes[i].offset.Some? && MatchedPair(ops, nodes, i, nodes[i].offset.value))
    && (forall j :: 0 <= j < |ops| && ops[j] == JumpBackward ==>
          nodes[j].offset.Some? && MatchedPair(ops, nodes, nodes[j].offset.value, j))
  }

  /** Where the open stretch after stack entry `t` currently ends. */
  function GapEnd(stack: seq<nat>, t: int, k: nat): int
    requires 0 <= t < |stack|
  {
    if t + 1 < |stack| then stack[t + 1] else k
  }

  /**
    The nodes after each stack entry, up to the next entry (or up to `k`
    after the top one), are balanced. The quantifier fires only on
    `GapEnd` terms, so that unfolding one gap does not reach the next.
  */
  ghost predicate GapsBalanced(ops: seq<Op>, stack: seq<nat>, k: nat) {
    forall t {:trigger GapEnd(stack, t, k)} :: 0 <= t < |stack| && stack[t] < GapEnd(stack, t, k) <= |ops| ==>
      Balanced(ops[stack[t] + 1..GapEnd(stack, t, k)])
  }

  /**
    Loop invariant on the stack after the first `k` nodes: it holds, bottom
    to top, the still-open `[` nodes, and the nodes between consecutive
    entries (and after the top one) are balanced.
  */
  ghost predicate Pending(ops: seq<Op>, nodes: seq<Instruction>, k: nat, stack: seq<nat>) {
    && k <= |ops| && Arena(ops, nodes)
    && (forall t :: 0 <= t < |stack| ==>
          stack[t] < k && ops[stack[t]] == JumpForward && nodes[stack[t]].offset == None)
    && (forall t, u :: 0 <= t < u < |stack| ==> stack[t] < stack[u])
    && GapsBalanced(ops, stack, k)
  }

  /**
    Loop invariant on the links after the first `k` nodes: every bracket
    already seen that is not on the stack is in a matched pair, and no
    other node has an offset.
  */
  ghost predicate Resolved(ops: seq<Op>, nodes: seq<Instruction>, k: nat, stack: seq<nat>) {
    && k <= |ops| && |nodes| == |ops|
    && (forall i :: k <= i < |ops| ==> nodes[i].offset == None)
    && (forall i :: 0 <= i < k && !IsBracket(ops[i]) ==> nodes[i].offset == None)
    && (forall i :: 0 <= i < k && ops[i] == JumpForward && i !in stack ==>
          nodes[i].offset.Some? && MatchedPair(ops, nodes, i, nodes[i].offset.value))
    && (forall j :: 0 <= j < k && ops[j] == JumpBackward ==>
          nodes[j].offset.Some? && MatchedPair(ops, nodes, nodes[j].offset.value, j))
  }

  /** A freshly pushed `[` starts with an empty gap; the gaps below it are unchanged. */
  lemma PushGaps(ops: seq<Op>, k: nat, stack: seq<nat>)
    requires k < |ops|
    requires forall t :: 0 <= t < |stack| ==> stack[t] < k
    requires forall t, u :: 0 <= t < u < |stack| ==> stack[t] < stack[u]
    requires GapsBalanced(ops, stack, k)
    ensures GapsBalanced(ops, stack + [k], k + 1)
  {
    var s, k' := stack + [k], k + 1;
    forall t {:trigger GapEnd(s, t, k')} | 0 <= t < |s| && s[t] < GapEnd(s, t, k') <= |ops|
      ensures Balanced(ops[s[t] + 1..GapEnd(s, t, k')])
    {
      if t < |stack| {
        if t + 1 < |stack| {
          assert stack[t] < stack[t + 1] < k;
        }
        assert stack[t] < GapEnd(stack, t, k) <= |ops|;
        PushGap(ops, k, stack, t);
      } else {
        PushTop(ops, k, stack);
      }
    }
  }

  /** A gap below the pushed `[` keeps its ends. */
  lemma PushGap(ops: seq<Op>, k: nat, stack: seq<nat>, t: nat)
    requires k < |ops| && t < |stack|
    requires stack[t] < k && (t + 1 < |stack| ==> stack[t] < stack[t + 1] < k)
    requires Balanced(ops[stack[t] + 1..GapEnd(stack, t, k)])
    ensures var s := stack + [k];
      s[t] < GapEnd(s, t, k + 1) <= |ops| && Balanced(ops[s[t] + 1..GapEnd(s, t, k + 1)])
  {
    var s := stack + [k];
    assert s[t] == stack[t];
    if t + 1 < |stack| {
      assert s[t + 1] == stack[t + 1];
    } else {
      assert s[t + 1] == k;
    }
  }

  /** The freshly pushed `[` starts with an empty gap. */
  lemma PushTop(ops: seq<Op>, k: nat, stack: seq<nat>)
    requires k < |ops|
    ensures var s := stack + [k];
      Balanced(ops[s[|stack|] + 1..GapEnd(s, |stack|, k + 1)])
  {
    var s := stack + [k];
    assert s[|stack|] == k && GapEnd(s, |stack|, k + 1) == k + 1;
    assert ops[k + 1..k + 1] == [];
    assert Depth([], 0) == Some(0);
  }

  lemma PushPending(ops: seq<Op>, nodes: seq<Instruction>, k: nat, stack: seq<nat>)
    requires Pending(ops, nodes, k, stack)
    requires k < |ops| && ops[k] == JumpForward && nodes[k].offset == None
    ensures Pending(ops, nodes, k + 1, stack + [k])
  {
    PushGaps(ops, k, stack);
  }

  lemma PushResolved(ops: seq<Op>, nodes: seq<Instruction>, k: nat, stack: seq<nat>)
    requires Resolved(ops, nodes, k, stack)
    requires k < |ops| && ops[k] == JumpForward
    ensures Resolved(ops, nodes, k + 1, stack + [k])
  {
  }

  lemma SkipPending(ops: seq<Op>, nodes: seq<Instruction>, k: nat, stack: seq<nat>)
    requires Pending(ops, nodes, k, stack)
    requires k < |ops| && !IsBracket(ops[k])
    ensures Pending(ops, nodes, k + 1, stack)
  {
    var k' := k + 1;
    forall t {:trigger GapEnd(stack, t, k')} | 0 <= t < |stack| && stack[t] < GapEnd(stack, t, k') <= |ops|
      ensures Balanced(ops[stack[t] + 1..GapEnd(stack, t, k')])
    {
      if t + 1 == |stack| {
        assert stack[t] < GapEnd(stack, t, k);
        assert ops[stack[t] + 1..k + 1] == ops[stack[t] + 1..k] + [ops[k]];
        BalancedExtend(ops[stack[t] + 1..k], ops[k]);
      } else {
        assert GapEnd(stack, t, k') == GapEnd(stack, t, k);
      }
    }
  }

  lemma SkipResolved(ops: seq<Op>, nodes: seq<Instruction>, k: nat, stack: seq<nat>)
    requires Resolved(ops, nodes, k, stack)
    requires k < |ops| && !IsBracket(ops[k])
    ensures Resolved(ops, nodes, k + 1, stack)
  {
  }

  /** The arena after a pop: only the `Offset` fields of the `[` at `open` and the `]` at `close` change, each naming the other. */
  function Link(nodes: seq<Instruction>, open: nat, close: nat): seq<Instruction>
    requires open < |nodes| && close < |nodes|
  {
    nodes[close := nodes[close].(offset := Some(open))][open := nodes[open].(offset := Some(close))]
  }

  /** A stretch of `ops` cut at two inner positions. */
  lemma SliceAround(ops: seq<Op>, lo: nat, top: nat, k: nat)
    requires lo < top < k < |ops|
    ensures ops[lo + 1..k + 1] == ops[lo + 1..top] + [ops[top]] + ops[top + 1..k] + [ops[k]]
  {
    assert ops[lo + 1..k + 1] == ops[lo + 1..top] + ops[top..k + 1];
    assert ops[top..k + 1] == [ops[top]] + ops[top + 1..k] + [ops[k]];
  }

  /** Closing the top loop merges its span into the gap of the loop below it. */
  lemma MergeGap(ops: seq<Op>, lo: nat, top: nat, k: nat)
    requires lo < top < k < |ops|
    requires ops[top] == JumpForward && ops[k] == JumpBackward
    requires Balanced(ops[lo + 1..top]) && Balanced(ops[top + 1..k])
    ensures Balanced(ops[lo + 1..k + 1])
  {
    SliceAround(ops, lo, top, k);
    BalancedWrap(ops[lo + 1..top], ops[top + 1..k]);
  }

  /** After a pop, every gap of the remaining stack is balanced again. */
  lemma PopGaps(ops: seq<Op>, k: nat, stack: seq<nat>)
    requires k < |ops| && ops[k] == JumpBackward && |stack| > 0
    requires forall t :: 0 <= t < |stack| ==> stack[t] < k && ops[stack[t]] == JumpForward
    requires forall t, u :: 0 <= t < u < |stack| ==> stack[t] < stack[u]
    requires GapsBalanced(ops, stack, k)
    ensures GapsBalanced(ops, stack[..|stack| - 1], k + 1)
  {
    var n := |stack|;
    var s, k' := stack[..n - 1], k + 1;
    assert GapEnd(stack, n - 1, k) == k;
    forall t {:trigger GapEnd(s, t, k')} | 0 <= t < |s| && s[t] < GapEnd(s, t, k') <= |ops|
      ensures Balanced(ops[s[t] + 1..GapEnd(s, t, k')])
    {
      assert stack[t] < stack[t + 1];
      if t + 2 < n {
        assert stack[t + 1] < k;
      }
      assert stack[t] < GapEnd(stack, t, k) <= |ops|;
      PopGap(ops, k, stack, t);
    }
  }

  /** One gap of the remaining stack after a pop: the one below the popped `[` absorbs its loop. */
  lemma PopGap(ops: seq<Op>, k: nat, stack: seq<nat>, t: nat)
    requires k < |ops| && ops[k] == JumpBackward && t + 1 < |stack|
    requires stack[t] < stack[t + 1] && stack[|stack| - 1] < k && ops[stack[|stack| - 1]] == JumpForward
    requires t + 2 < |stack| ==> stack[t + 1] < k
    requires Balanced(ops[stack[t] + 1..GapEnd(stack, t, k)])
    requires Balanced(ops[stack[|stack| - 1] + 1..k])
    ensures var s := stack[..|stack| - 1];
      stack[t] < GapEnd(s, t, k + 1) <= |ops| && Balanced(ops[s[t] + 1..GapEnd(s, t, k + 1)])
  {
    var n := |stack|;
    var s := stack[..n - 1];
    if t + 2 == n {
      MergeGap(ops, stack[t], stack[n - 1], k);
    } else {
      assert GapEnd(s, t, k + 1) == stack[t + 1] == GapEnd(stack, t, k);
    }
  }

  lemma PopPending(ops: seq<Op>, nodes: seq<Instruction>, k: nat, stack: seq<nat>)
    requires Pending(ops, nodes, k, stack)
    requires k < |ops| && ops[k] == JumpBackward && |stack| > 0
    ensures Pending(ops, Link(nodes, stack[|stack| - 1], k), k + 1, stack[..|stack| - 1])
  {
    var n := |stack|;
    var top := stack[n - 1];
    var s := stack[..n - 1];
    var nodes' := Link(nodes, top, k);
    PopGaps(ops, k, stack);
    forall t | 0 <= t < |s|
      ensures s[t] < k + 1 && ops[s[t]] == JumpForward && nodes'[s[t]].offset == None
    {
      assert s[t] < top;
    }
  }

  /** Linking a new pair leaves every pair that does not touch it intact. */
  lemma LinkKeepsPair(ops: seq<Op>, nodes: seq<Instruction>, i: nat, j: nat, open: nat, close: nat)
    requires MatchedPair(ops, nodes, i, j)
    requires open < |nodes| && close < |nodes|
    requires i != open && i != close && j != open && j != close
    ensures MatchedPair(ops, Link(nodes, open, close), i, j)
  {
  }

  lemma PopResolved(ops: seq<Op>, nodes: seq<Instruction>, k: nat, stack: seq<nat>)
    requires Resolved(ops, nodes, k, stack)
    requires k < |ops| && ops[k] == JumpBackward && |stack| > 0
    requires var top := stack[|stack| - 1];
      top < k && ops[top] == JumpForward && nodes[top].offset == None && Balanced(ops[top + 1..k])
    ensures Resolved(ops, Link(nodes, stack[|stack| - 1], k), k + 1, stack[..|stack| - 1])
  {
    var n := |stack|;
    var top := stack[n - 1];
    var s := stack[..n - 1];
    var nodes' := Link(nodes, top, k);
    assert MatchedPair(ops, nodes', top, k);
    assert forall i :: k + 1 <= i < |ops| ==> nodes'[i].offset == None;
    assert forall i :: 0 <= i < k + 1 && !IsBracket(ops[i]) ==> nodes'[i].offset == None;
    forall i | 0 <= i < k + 1 && ops[i] == JumpForward && i !in s
      ensures nodes'[i].offset.Some? && MatchedPair(ops, nodes', i, nodes'[i].offset.value)
    {
      if i != top {
        var j := nodes[i].offset.value;
        LinkKeepsPair(ops, nodes, i, j, top, k);
      }
    }
    forall j | 0 <= j < k + 1 && ops[j] == JumpBackward
      ensures nodes'[j].offset.Some? && MatchedPair(ops, nodes', nodes'[j].offset.value, j)
    {
      if j != k {
        var i := nodes[j].offset.value;
        LinkKeepsPair(ops, nodes, i, j, top, k);
      }
    }
  }

  /**
    The error a walk of the whole list calls for: none when it ends at depth
    zero, `UnmatchedClose` when a `]` underflows, `UnmatchedOpen` otherwise.
  */
  function Verdict(depth: Option<nat>): Option<ParseError> {
    if depth == Some(0) then None
    else if depth.None? then Some(UnmatchedClose)
    else Some(UnmatchedOpen)
  }

  /** The error carried by a result, if any. */
  function Failure<T>(r: Result<T, ParseError>): Option<ParseError> {
    if r.Ok? then None else Some(r.error)
  }

  /** One step of the reference walk, read at position `k` of `ops`. */
  lemma DepthAt(ops: seq<Op>, k: nat, d: nat)
    requires k < |ops|
    ensures Depth(ops[k..], d) ==
      if ops[k] == JumpForward then Depth(ops[k + 1..], d + 1)
      else if ops[k] == JumpBackward then (if d == 0 then None else Depth(ops[k + 1..], d - 1))
      else Depth(ops[k + 1..], d)
  {
    assert ops[k..][0] == ops[k] && ops[k..][1..] == ops[k + 1..];
  }

  /** Both loop invariants of the matching pass after the first `k` nodes. */
  ghost predicate Matching(ops: seq<Op>, nodes: seq<Instruction>, k: nat, stack: seq<nat>) {
    Pending(ops, nodes, k, stack) && Resolved(ops, nodes, k, stack)
  }

  /** A `[` is pushed. */
  lemma PushStep(ops: seq<Op>, nodes: seq<Instruction>, k: nat, stack: seq<nat>)
    requires Matching(ops, nodes, k, stack)
    requires k < |ops| && ops[k] == JumpForward
    ensures Matching(ops, nodes, k + 1, stack + [k])
  {
    PushPending(ops, nodes, k, stack);
    PushResolved(ops, nodes, k, stack);
  }

  /** A `]` pops its partner and the two are linked. */
  lemma PopStep(ops: seq<Op>, nodes: seq<Instruction>, k: nat, stack: seq<nat>)
    requires Matching(ops, nodes, k, stack)
    requires k < |ops| && ops[k] == JumpBackward && |stack| > 0
    ensures Matching(ops, Link(nodes, stack[|stack| - 1], k), k + 1, stack[..|stack| - 1])
  {
    PopPending(ops, nodes, k, stack);
    assert GapEnd(stack, |stack| - 1, k) == k;
    PopResolved(ops, nodes, k, stack);
  }

  /** Any other node is passed over. */
  lemma SkipStep(ops: seq<Op>, nodes: seq<Instruction>, k: nat, stack: seq<nat>)
    requires Matching(ops, nodes, k, stack)
    requires k < |ops| && !IsBracket(ops[k])
    ensures Matching(ops, nodes, k + 1, stack)
  {
    SkipPending(ops, nodes, k, stack);
    SkipResolved(ops, nodes, k, stack);
  }

  /** With every node seen and the stack empty, the invariants are the outcome. */
  lemma Finished(ops: seq<Op>, nodes: seq<Instruction>)
    requires Matching(ops, nodes, |ops|, [])
    ensures Paired(ops, nodes)
  {
  }

  /** What the matching loop needs of its state to run: every stacked index names a node already seen. */
  ghost predicate Shape(ops: seq<Op>, nodes: seq<Instruction>, k: nat, stack: seq<nat>) {
    k <= |ops| && |nodes| == |ops| && forall t :: 0 <= t < |stack| ==> stack[t] < k
  }

  /**
    The matching loop from node `k` on, with `stack` and `nodes` as the
    loop has left them: it fails exactly where the reference walk, started
    at the stack's height, does.
  */
  function MatchFrom(ops: seq<Op>, nodes: seq<Instruction>, k: nat, stack: seq<nat>): (r: Result<seq<Instruction>, ParseError>)
    requires Shape(ops, nodes, k, stack)
    ensures Failure(r) == Verdict(Depth(ops[k..], |stack|))
    decreases |ops| - k
  {
    if k == |ops| then
      assert ops[k..] == [];
      if |stack| == 0 then Ok(nodes) else Err(UnmatchedOpen)
    else
      DepthAt(ops, k, |stack|);
      if ops[k] == JumpForward then
        MatchFrom(ops, nodes, k + 1, stack + [k])
      else if ops[k] == JumpBackward then
        if |stack| == 0 then Err(UnmatchedClose)
        else MatchFrom(ops, Link(nodes, stack[|stack| - 1], k), k + 1, stack[..|stack| - 1])
      else
        MatchFrom(ops, nodes, k + 1, stack)
  }

  /** Started from a state that keeps both loop invariants, a successful loop links every bracket with its partner. */
  lemma {:induction false} MatchFromPaired(ops: seq<Op>, nodes: seq<Instruction>, k: nat, stack: seq<nat>)
    requires Matching(ops, nodes, k, stack)
    ensures Shape(ops, nodes, k, stack)
    ensures MatchFrom(ops, nodes, k, stack).Ok? ==> Paired(ops, MatchFrom(ops, nodes, k, stack).value)
    decreases |ops| - k
  {
    if k == |ops| {
      if |stack| == 0 {
        Finished(ops, nodes);
      }
    } else if ops[k] == JumpForward {
      PushStep(ops, nodes, k, stack);
      MatchFromPaired(ops, nodes, k + 1, stack + [k]);
    } else if ops[k] == JumpBackward {
      if |stack| > 0 {
        PopStep(ops, nodes, k, stack);
        MatchFromPaired(ops, Link(nodes, stack[|stack| - 1], k), k + 1, stack[..|stack| - 1]);
      }
    } else {
      SkipStep(ops, nodes, k, stack);
      MatchFromPaired(ops, nodes, k + 1, stack);
    }
  }

  /** The nodes of `ops` as the first pass creates them: no links yet. */
  function Fresh(ops: seq<Op>): (nodes: seq<Instruction>)
    ensures Arena(ops, nodes)
  {
    seq(|ops|, i requires 0 <= i < |ops| => Instruction(ops[i], None))
  }

  /**
    The matching pass: links every bracket node of `ops` with its partner,
    fails with `UnmatchedClose` when a `]` finds the stack empty and with
    `UnmatchedOpen` when `[` nodes are left on it.
  */
  function Match(ops: seq<Op>): (r: Result<seq<Instruction>, ParseError>)
    ensures r.Ok? <==> Balanced(ops)
    ensures r == Err(UnmatchedClose) <==> Depth(ops, 0).None?
    ensures r == Err(UnmatchedOpen) <==> Depth(ops, 0).Some? && Depth(ops, 0).value > 0
    ensures r.Ok? ==> Paired(ops, r.value)
  {
    assert ops[0..] == ops;
    assert Matching(ops, Fresh(ops), 0, []);
    MatchFromPaired(ops, Fresh(ops), 0, []);
    MatchFrom(ops, Fresh(ops), 0, [])
  }

  /** A `[` has at most one `]` with balanced contents after it. */
  lemma CloserUnique(ops: seq<Op>, i: nat, j: nat, j': nat)
    requires i < j < j' < |ops|
    requires ops[j] == JumpBackward
    requires Balanced(ops[i + 1..j])
    ensures !Balanced(ops[i + 1..j'])
  {
    assert ops[i + 1..j'] == ops[i + 1..j] + ([JumpBackward] + ops[j + 1..j']);
    DepthAppend(ops[i + 1..j], [JumpBackward] + ops[j + 1..j'], 0);
  }

  /** A `]` has at most one `[` with balanced contents before it. */
  lemma OpenerUnique(ops: seq<Op>, i: nat, i': nat, j: nat)
    requires i < i' < j < |ops|
    requires ops[i'] == JumpForward
    requires Balanced(ops[i' + 1..j])
    ensures !Balanced(ops[i + 1..j])
  {
    var a := ops[i + 1..i'];
    assert ops[i + 1..j] == a + ([JumpForward] + ops[i' + 1..j]);
    DepthAppend(a, [JumpForward] + ops[i' + 1..j], 0);
    if Depth(a, 0).Some? {
      var e := Depth(a, 0).value;
      assert ([JumpForward] + ops[i' + 1..j])[1..] == ops[i' + 1..j];
      DepthShift(ops[i' + 1..j], 0, e + 1);
    }
  }

  /** Two matched pairs that share an end share the other end too. */
  lemma PartnerUnique(ops: seq<Op>, a: seq<Instruction>, b: seq<Instruction>, i: nat, j: nat, i': nat, j': nat)
    requires MatchedPair(ops, a, i, j) && MatchedPair(ops, b, i', j')
    requires i == i' || j == j'
    ensures i == i' && j == j'
  {
    if i == i' {
      if j < j' { CloserUnique(ops, i, j, j'); }
      if j' < j { CloserUnique(ops, i, j', j); }
    } else {
      if i < i' { OpenerUnique(ops, i, i', j); }
      if i' < i { OpenerUnique(ops, i', i, j); }
    }
  }

  /**
    The pairing is determined by the nesting alone: any two results of a
    successful matching pass over the same tags are the same arena.
  */
  lemma PairingUnique(ops: seq<Op>, a: seq<Instruction>, b: seq<Instruction>)
    requires Paired(ops, a) && Paired(ops, b)
    ensures a == b
  {
    forall i | 0 <= i < |ops|
      ensures a[i].offset == b[i].offset
    {
      if ops[i] == JumpForward {
        PartnerUnique(ops, a, b, i, a[i].offset.value, i, b[i].offset.value);
      } else if ops[i] == JumpBackward {
        PartnerUnique(ops, a, b, a[i].offset.value, i, b[i].offset.value, i);
      }
    }
  }

  /**
    Following a bracket node's offset and then the partner's offset leads
    back to the node, and the `[` of every pair comes before its `]`.
  */
  lemma OffsetsSymmetric(ops: seq<Op>, nodes: seq<Instruction>, i: nat)
    requires Paired(ops, nodes)
    requires i < |nodes| && nodes[i].offset.Some?
    ensures nodes[i].offset.value < |nodes|
    ensures nodes[nodes[i].offset.value].offset == Some(i)
    ensures nodes[i].op == JumpForward ==> i < nodes[i].offset.value
    ensures nodes[i].op == JumpBackward ==> nodes[i].offset.value < i
  {
    if ops[i] == JumpForward {
      assert MatchedPair(ops, nodes, i, nodes[i].offset.value);
    } else {
      assert MatchedPair(ops, nodes, nodes[i].offset.value, i);
    }
  }
}

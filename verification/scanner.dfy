/**
  The first pass of `Parse` (main.go:35-64): a walk over the source
  characters that hangs one node per operator character off a cursor.
  `Scan` is the pass as written, where `>` does not move the cursor;
  `ScanFixed` is the pass with the cursor moved for every operator.
*/
module Scanner {
  import opened Wrappers
  import opened Syntax

  /** The tag one character contributes to the corrected list, if any. */
  function Tags(c: char): (r: seq<Op>)
    ensures |r| <= 1
  {
    match FromChar(c)
    case None => []
    case Some(op) => [op]
  }

  /** The tags of the operator characters of `code`, in source order. */
  function Recognized(code: string): (ops: seq<Op>)
    ensures |ops| <= |code|
    decreases |code|
  {
    if |code| == 0 then [] else Tags(code[0]) + Recognized(code[1..])
  }

  /** Only a source without any operator character has no tags. */
  lemma {:induction false} RecognizedEmpty(code: string)
    ensures |Recognized(code)| == 0 <==> forall i :: 0 <= i < |code| ==> FromChar(code[i]).None?
    decreases |code|
  {
    if |code| > 0 {
      RecognizedEmpty(code[1..]);
      assert forall i :: 1 <= i < |code| ==> code[1..][i - 1] == code[i];
    }
  }

  /** `s` with every occurrence of `x` removed, order kept. */
  function Without(s: seq<Op>, x: Op): (r: seq<Op>)
    ensures x !in r
    decreases |s|
  {
    if |s| == 0 then []
    else if s[0] == x then Without(s[1..], x)
    else [s[0]] + Without(s[1..], x)
  }

  /** Removing `x` keeps every other tag as often as it occurs. */
  lemma {:induction false} WithoutCounts(s: seq<Op>, x: Op, y: Op)
    requires y != x
    ensures multiset(Without(s, x))[y] == multiset(s)[y]
    decreases |s|
  {
    if |s| > 0 {
      WithoutCounts(s[1..], x, y);
      assert s == [s[0]] + s[1..];
      if s[0] != x {
        assert multiset([s[0]] + Without(s[1..], x)) == multiset([s[0]]) + multiset(Without(s[1..], x));
      }
    }
  }

  /** Removing `x` shortens `s` by exactly the number of times `x` occurs in it. */
  lemma {:induction false} WithoutLength(s: seq<Op>, x: Op)
    ensures |Without(s, x)| + multiset(s)[x] == |s|
    decreases |s|
  {
    if |s| > 0 {
      WithoutLength(s[1..], x);
      assert s == [s[0]] + s[1..];
      assert multiset(s) == multiset([s[0]]) + multiset(s[1..]);
    }
  }

  /**
    The list being built: `linked` runs from the first real node to the
    cursor `curr`; `dangling` is the node hanging off `curr.Next` when the
    cursor was not moved onto it (only ever an `IncrementPointer`).
  */
  datatype Builder = Builder(linked: seq<Op>, dangling: Option<Op>)

  /** The nodes reachable from the sentinel's successor once the walk stops. */
  function Reachable(b: Builder): seq<Op> {
    b.linked + (if b.dangling.Some? then [b.dangling.value] else [])
  }

  /**
    One operator case of the switch: `>` replaces `curr.Next` without
    moving the cursor; every other operator replaces `curr.Next` and moves
    onto it.
  */
  function Attach(b: Builder, op: Op): Builder {
    if op == IncrementPointer then Builder(b.linked, Some(op))
    else Builder(b.linked + [op], None)
  }

  /** One iteration of the character switch; non-operators are skipped. */
  function Step(b: Builder, c: char): Builder {
    match FromChar(c)
    case None => b
    case Some(op) => Attach(b, op)
  }

  function ScanFrom(b: Builder, code: string): Builder
    decreases |code|
  {
    if |code| == 0 then b else ScanFrom(Step(b, code[0]), code[1..])
  }

  /**
    The structural list the first pass leaves behind, as written: every
    recognised node except the `IncrementPointer` ones, and one
    `IncrementPointer` node at the end when `>` is the last operator
    character of the source.
  */
  function Scan(code: string): (r: seq<Op>)
    ensures r == Without(Recognized(code), IncrementPointer) + TrailingIncrement(Recognized(code))
  {
    ScanFromDropsIncrements(Builder([], None), code);
    Reachable(ScanFrom(Builder([], None), code))
  }

  /** `[IncrementPointer]` when the last recognised tag is `IncrementPointer`, else empty. */
  function TrailingIncrement(ops: seq<Op>): (r: seq<Op>)
    ensures |r| <= 1
  {
    if |ops| > 0 && ops[|ops| - 1] == IncrementPointer then [IncrementPointer] else []
  }

  /** One iteration of the switch with the cursor moved for every operator. */
  function StepFixed(acc: seq<Op>, c: char): seq<Op> {
    match FromChar(c)
    case None => acc
    case Some(op) => acc + [op]
  }

  function ScanFixedFrom(acc: seq<Op>, code: string): seq<Op>
    decreases |code|
  {
    if |code| == 0 then acc else ScanFixedFrom(StepFixed(acc, code[0]), code[1..])
  }

  /** The structural list with every operator character kept: one node per operator character, in source order. */
  function ScanFixed(code: string): (r: seq<Op>)
    ensures r == Recognized(code)
  {
    ScanFixedFromAppends([], code);
    ScanFixedFrom([], code)
  }

  lemma {:induction false} ScanFixedFromAppends(acc: seq<Op>, code: string)
    ensures ScanFixedFrom(acc, code) == acc + Recognized(code)
    decreases |code|
  {
    if |code| > 0 {
      ScanFixedFromAppends(StepFixed(acc, code[0]), code[1..]);
    }
  }

  /** The builder left after attaching the tags `r` to `b`, in closed form. */
  function Built(b: Builder, r: seq<Op>): Builder {
    Builder(
      b.linked + Without(r, IncrementPointer),
      if |r| == 0 then b.dangling
      else if TrailingIncrement(r) == [] then None
      else Some(IncrementPointer))
  }

  lemma BuiltCons(b: Builder, op: Op, rest: seq<Op>)
    ensures Built(b, [op] + rest) == Built(Attach(b, op), rest)
  {
    var r := [op] + rest;
    assert r[1..] == rest;
    if op != IncrementPointer {
      assert b.linked + ([op] + Without(rest, IncrementPointer))
        == (b.linked + [op]) + Without(rest, IncrementPointer);
    }
    if |rest| > 0 {
      assert r[|r| - 1] == rest[|rest| - 1];
    }
  }

  lemma {:induction false} ScanFromDropsIncrements(b: Builder, code: string)
    ensures ScanFrom(b, code) == Built(b, Recognized(code))
    decreases |code|
  {
    if |code| > 0 {
      ScanFromDropsIncrements(Step(b, code[0]), code[1..]);
      var rest := Recognized(code[1..]);
      match FromChar(code[0])
      case None =>
        assert Recognized(code) == rest;
      case Some(op) =>
        assert Recognized(code) == [op] + rest;
        BuiltCons(b, op, rest);
    }
  }

  /** One character adds a node of tag `op` exactly when it is `op`'s symbol. */
  lemma TagsCount(c: char, op: Op)
    ensures multiset(Tags(c))[op] == multiset([c])[Symbol(op)]
  {
    SymbolRoundTrip(op);
  }

  /** Each operator character contributes one node of its tag to the corrected list. */
  lemma {:induction false} RecognizedCounts(code: string, op: Op)
    ensures multiset(Recognized(code))[op] == multiset(code)[Symbol(op)]
    decreases |code|
  {
    if |code| > 0 {
      var rest := Recognized(code[1..]);
      RecognizedCounts(code[1..], op);
      TagsCount(code[0], op);
      assert multiset(Recognized(code)) == multiset(Tags(code[0])) + multiset(rest);
      assert code == [code[0]] + code[1..];
      assert multiset(code) == multiset([code[0]]) + multiset(code[1..]);
    }
  }

  /**
    As written, every operator other than `>` still contributes exactly one
    node of its tag, while all the `>` characters together leave at most one.
  */
  lemma ScanCounts(code: string, op: Op)
    ensures op != IncrementPointer ==> multiset(Scan(code))[op] == multiset(code)[Symbol(op)]
    ensures multiset(Scan(code))[IncrementPointer] <= 1
  {
    RecognizedCounts(code, op);
    var r := Recognized(code);
    assert multiset(Scan(code)) == multiset(Without(r, IncrementPointer)) + multiset(TrailingIncrement(r));
    if op != IncrementPointer {
      WithoutCounts(r, IncrementPointer, op);
    }
  }

  /**
    As written, the list has one node per operator character except `>`,
    plus one `IncrementPointer` node when the last operator is `>`; so it
    is never longer than the corrected list.
  */
  lemma ScanLength(code: string)
    ensures |Scan(code)| == |Recognized(code)| - multiset(code)['>'] + |TrailingIncrement(Recognized(code))|
    ensures |Scan(code)| <= |Recognized(code)|
  {
    var r := Recognized(code);
    WithoutLength(r, IncrementPointer);
    RecognizedCounts(code, IncrementPointer);
    if TrailingIncrement(r) != [] {
      assert r[|r| - 1] in multiset(r);
    }
  }

  /** Without a `>` in the source the defect is invisible. */
  lemma ScanAgreesWithoutIncrement(code: string)
    requires '>' !in code
    ensures Scan(code) == ScanFixed(code)
  {
    RecognizedCounts(code, IncrementPointer);
    var r := Recognized(code);
    assert IncrementPointer !in r by {
      assert multiset(r)[IncrementPointer] == 0;
    }
    WithoutAbsent(r, IncrementPointer);
  }

  lemma {:induction false} WithoutAbsent(s: seq<Op>, x: Op)
    requires x !in s
    ensures Without(s, x) == s
    decreases |s|
  {
    if |s| > 0 {
      WithoutAbsent(s[1..], x);
      assert s == [s[0]] + s[1..];
    }
  }

  /** Walking two pieces of source one after the other is walking their concatenation. */
  lemma {:induction false} ScanFromAppend(b: Builder, a: string, c: string)
    ensures ScanFrom(b, a + c) == ScanFrom(ScanFrom(b, a), c)
    decreases |a|
  {
    if |a| > 0 {
      assert (a + c)[0] == a[0];
      assert (a + c)[1..] == a[1..] + c;
      ScanFromAppend(Step(b, a[0]), a[1..], c);
    } else {
      assert a + c == c;
    }
  }

  /** A character that is not an operator can be inserted anywhere without effect. */
  lemma ScanIgnoresInert(a: string, c: char, d: string)
    requires FromChar(c).None?
    ensures Scan(a + [c] + d) == Scan(a + d)
  {
    var b0 := Builder([], None);
    ScanFromAppend(b0, a + [c], d);
    ScanFromAppend(b0, a, [c]);
    ScanFromAppend(b0, a, d);
    assert ScanFrom(ScanFrom(b0, a), [c]) == ScanFrom(b0, a) by {
      assert [c][1..] == [];
    }
  }

  /** `>.` keeps only the output node as written; the corrected scan keeps both. */
  lemma DroppedIncrement()
    ensures Scan(">.") == [OutputValue]
    ensures ScanFixed(">.") == [IncrementPointer, OutputValue]
  {
    assert ">."[1..] == ".";
  }
}

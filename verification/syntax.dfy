/**
  The operation tags of the language, the characters that spell them,
  the instruction node built by the parser and the two parse failures
  (main.go:9-32, main.go:77, main.go:87).
*/
module Syntax {
  import opened Wrappers

  /** Operation tags, declared in the order of the source's `iota` block. */
  datatype Op =
    | IncrementPointer
    | DecrementPointer
    | IncrementValue
    | DecrementValue
    | OutputValue
    | InputValue
    | JumpForward
    | JumpBackward

  /** The two loop tags; the flatten pass drops exactly these. */
  predicate IsBracket(op: Op) {
    op == JumpForward || op == JumpBackward
  }

  /** The integer value each tag carries in the source (`iota`, starting at 0). */
  function Ordinal(op: Op): nat {
    match op
    case IncrementPointer => 0
    case DecrementPointer => 1
    case IncrementValue => 2
    case DecrementValue => 3
    case OutputValue => 4
    case InputValue => 5
    case JumpForward => 6
    case JumpBackward => 7
  }

  /** Reads an integer back as a tag; only the eight declared values are tags. */
  function FromOrdinal(n: int): (r: Option<Op>)
    ensures r.Some? <==> 0 <= n < 8
    ensures r.Some? ==> Ordinal(r.value) == n
  {
    if n == 0 then Some(IncrementPointer)
    else if n == 1 then Some(DecrementPointer)
    else if n == 2 then Some(IncrementValue)
    else if n == 3 then Some(DecrementValue)
    else if n == 4 then Some(OutputValue)
    else if n == 5 then Some(InputValue)
    else if n == 6 then Some(JumpForward)
    else if n == 7 then Some(JumpBackward)
    else None
  }

  /** Distinct tags have distinct values, and every value reads back as its tag. */
  lemma OrdinalRoundTrip(op: Op)
    ensures FromOrdinal(Ordinal(op)) == Some(op)
  {
  }

  /** The source character that spells each tag. */
  function Symbol(op: Op): char {
    match op
    case IncrementPointer => '>'
    case DecrementPointer => '<'
    case IncrementValue => '+'
    case DecrementValue => '-'
    case OutputValue => '.'
    case InputValue => ','
    case JumpForward => '['
    case JumpBackward => ']'
  }

  /** The scanner's character switch: the eight operator characters and nothing else. */
  function FromChar(c: char): (r: Option<Op>)
    ensures r.Some? <==> c in "><+-.,[]"
    ensures r.Some? ==> Symbol(r.value) == c
  {
    match c
    case '>' => Some(IncrementPointer)
    case '<' => Some(DecrementPointer)
    case '+' => Some(IncrementValue)
    case '-' => Some(DecrementValue)
    case '.' => Some(OutputValue)
    case ',' => Some(InputValue)
    case '[' => Some(JumpForward)
    case ']' => Some(JumpBackward)
    case _ => None
  }

  /** Every tag's symbol is recognised as that tag. */
  lemma SymbolRoundTrip(op: Op)
    ensures FromChar(Symbol(op)) == Some(op)
  {
  }

  /**
    One node of the parsed list. `offset` is the index, in the same list,
    of the partner bracket; the source's `Next` link is the index order,
    and `Prev` and `Arg` are not modelled.
  */
  datatype Instruction = Instruction(op: Op, offset: Option<nat>)

  /** The two ways the bracket-matching pass can abort. */
  datatype ParseError = UnmatchedClose | UnmatchedOpen {
    /** The text the source panics with. */
    function Message(): string {
      match this
      case UnmatchedClose => "Unmatched ]!"
      case UnmatchedOpen => "Unmatched [!"
    }
  }
}

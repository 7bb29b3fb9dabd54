# Hearse `Parse` in Dafny

Hearse is a small Brainfuck front end written in Go. Its only logic is
`Parse` (main.go:34-98), which turns source text into a program in three
passes:

1. **Scan** (main.go:35-64). Walk the characters. Each of the eight
   operator characters `><+-.,[]` hangs a new `Instruction` node off the
   cursor `curr`, starting from a sentinel `root`. Every other character
   is ignored. The `>` case does not move the cursor, so its node is
   overwritten by the next operator's node.
2. **Match** (main.go:69-88). Walk the list with a stack of open `[`
   nodes. A `]` pops the most recent `[`, and the two are linked through
   `Offset` in both directions. A `]` on an empty stack panics with
   "Unmatched ]!". A non-empty stack at the end panics with
   "Unmatched [!".
3. **Flatten** (main.go:90-95). Copy, in list order, a reference to every
   node that is not a bracket into `AST.Instructions`.

The linked list is modelled as an arena:

- `Parser.Ast(nodes, instructions)` holds the structural list.
  - `nodes` is the whole list from `root` after main.go:67, and its index
    order is the `Next` order. A program node reaches through `Next` only
    the nodes after it, so bracket nodes before the first program node,
    and every node when the program is empty, are not reachable from the
    Go `AST`.
  - `instructions` holds the positions in `nodes` of the program's nodes.
- `Offset` is an `Option<nat>` index into `nodes`.
- The panics become `Err(UnmatchedClose)` and `Err(UnmatchedOpen)`.
  `ParseError.Message` gives the two panic strings.

Modules:

- `Syntax`: the `Op` constants, their characters and the node type.
- `Scanner`: the scan pass. `Scan` is the pass as written. `ScanFixed`
  moves the cursor for every operator, including `>`.
- `Brackets`: the matching pass. It comes with independent reference
  definitions of nesting:
  - `Depth`, a walk that fails when a `]` finds nothing open;
  - `Net`, the difference of `[` and `]` counts;
  - `MatchedPair` and `Paired`, the pairing a successful pass must produce.
- `Flatten`: the flatten pass, and `RemoveBrackets` as its reference.
- `Parser`: `Parse`, the three passes put together, and `ParseFixed`.
- `Scenarios`: concrete sources and what `Parse` makes of them.

The flatten pass drops the bracket nodes (main.go:92). The program never
holds a bracket node, and the links survive only on the bracket nodes of
`nodes`.

## Model

| member | source | states |
|---|---|---|
| Syntax.FromOrdinal | main.go:23-32 | the eight `Op` constants are exactly the ordinals 0 to 7, in declaration order |
| Syntax.OrdinalRoundTrip | main.go:23-32 | decoding an operation's ordinal gives back that operation |
| Syntax.FromChar | main.go:39-62 | exactly the characters `><+-.,[]` are recognised, each as the operation whose case handles it |
| Syntax.SymbolRoundTrip | main.go:39-62 | each operation is recognised from exactly one character, its own |
| Scanner.RecognizedEmpty | main.go:38-63 | a source yields no operator tag exactly when none of its characters is one of the eight operators |
| Scanner.RecognizedCounts | main.go:42-62 | the corrected list holds each operation as many times as the source holds its character |
| Scanner.Scan | main.go:35-64 | as written, the list is the source's operator tags with every `IncrementPointer` removed, plus one `IncrementPointer` at the end exactly when the last operator character is `>` |
| Scanner.ScanFixed | main.go:38-64 | with the cursor moved for every operator, the list is the source's operator tags, one per character, in source order |
| Scanner.ScanCounts | main.go:40-62 | as written, every operator other than `>` still contributes exactly one node of its tag, and all `>` together leave at most one |
| Scanner.WithoutLength | main.go:40-41 | removing every node of one tag shortens the list by exactly the number of such nodes |
| Scanner.ScanLength | main.go:38-63 | as written, the list has one node per operator character other than `>`, plus one when `>` is the last operator, so it is never longer than the corrected list |
| Scanner.ScanAgreesWithoutIncrement | main.go:40-41 | a source without `>` is scanned the same with and without the defect |
| Scanner.ScanIgnoresInert | main.go:38-63 | inserting a non-operator character anywhere leaves the scanned list unchanged |
| Scanner.DroppedIncrement | main.go:40-41 | `>.` scans to the output node alone, while the corrected scan keeps both nodes |
| Brackets.DepthIsNet | main.go:73-82 | when the walk over a list succeeds, it ends at the start depth plus the number of `[` minus the number of `]` |
| Brackets.DepthFailsIffPrefixUnderflows | main.go:75-78 | the walk fails exactly when some prefix closes more loops than were open |
| Brackets.MatchFrom | main.go:71-88 | from any state, the matching loop fails exactly when the reference walk started at the stack's height fails, and with the error that walk's end implies |
| Brackets.MatchFromPaired | main.go:71-84 | a matching loop started in a state that keeps the stack and link invariants links every bracket with its partner when it succeeds |
| Brackets.Match | main.go:69-88 | matching fails with "Unmatched ]!" exactly when some prefix underflows, fails with "Unmatched [!" exactly when loops are left open, and otherwise links every `[` to a later `]` with balanced contents, in both directions, leaving other nodes unlinked |
| Brackets.CloserUnique | main.go:79-82 | a `[` has at most one `]` after it with balanced contents |
| Brackets.OpenerUnique | main.go:79-82 | a `]` has at most one `[` before it with balanced contents |
| Brackets.PairingUnique | main.go:73-82 | any two pairings of the same list that meet the pairing rules are equal, so the stack discipline determines the links |
| Brackets.OffsetsSymmetric | main.go:81-82 | on success, the partner of a node's partner is the node itself, and the `[` always comes before its `]` |
| Flatten.Kept | main.go:90-95 | the flatten loop keeps every non-bracket position once, in increasing order, and nothing else |
| Flatten.RemoveBrackets | main.go:92-93 | the reference filter keeps no bracket tag and keeps every other tag as often as it occurs |
| Flatten.KeptIsRemoveBrackets | main.go:90-95 | the tags at the kept positions are the list with its brackets removed, in order |
| Flatten.KeptBracketFree | main.go:90-95 | a list without brackets is kept whole, position for position |
| Flatten.KeptAllBrackets | main.go:90-95 | a list of brackets only flattens to an empty program |
| Parser.KeptIsFlat | main.go:90-95 | over an arena whose non-bracket nodes are unlinked, the flatten pass yields a program of exactly those nodes, in list order |
| Parser.ParseOps | main.go:67-97 | matching and flattening a list fails exactly when its nesting is broken, with the matching error, and otherwise returns the paired arena and a program equal to the list with its brackets removed |
| Parser.ScanKeepsNesting | main.go:40-41 | the dropped `>` nodes never change how the brackets nest |
| Parser.Parse | main.go:34-98 | parsing fails with "Unmatched ]!" or "Unmatched [!" exactly as the source's operator characters dictate, and otherwise returns every loop paired and the scanned list's non-bracket nodes as the program |
| Parser.ParseFixed | main.go:34-98 | with the defect corrected, the program is every non-loop operator character of the source, in order |
| Parser.ProgramBound | main.go:90-95 | the program is never longer than the number of operator characters in the source |
| Parser.DefectKeepsVerdict | main.go:40-41 | the defect never changes whether parsing fails, nor the error |
| Parser.ParseAgreesWithoutIncrement | main.go:40-41 | without `>` in the source, both parses return the same result |
| Parser.InertSource | main.go:38-97 | a source with no operator character, the empty one included, parses to an empty program without error |
| Parser.ParseIgnoresInert | main.go:38-63 | inserting a non-operator character anywhere leaves the parse unchanged |
| Scenarios.BracketFreeParse | main.go:67-95 | a list without brackets parses to itself, unlinked, with every node in the program |
| Scenarios.IncrementOverwritten | main.go:40-41 | `>.` parses to a one-node program, the output node |
| Scenarios.IncrementKeptWhenFixed | main.go:40-41 | with the defect corrected, `>.` parses to the two-node program |
| Scenarios.NestedLoops | main.go:73-82 | `[[]]` pairs positions 0 and 3 and positions 1 and 2, and its program is empty |
| Scenarios.LoneClose | main.go:75-78 | `]` fails with "Unmatched ]!" |
| Scenarios.ExtraClose | main.go:75-78 | `[]]` fails with "Unmatched ]!" |
| Scenarios.LoneOpen | main.go:86-88 | `[` fails with "Unmatched [!" |
| Scenarios.OuterLeftOpen | main.go:86-88 | `[[]` fails with "Unmatched [!" |

## Left out

- The tree-walking interpreter, the tape and the bytecode compiler: none of them appears in main.go.
- `Prev` and `Arg`: `Parse` sets `Prev` but never reads it, and never touches `Arg`.
- The `fmt` and `os` imports, and any command-line or file handling: they are unused by `Parse`.
- Rune versus byte iteration: the source is a `seq<char>`, and only the eight ASCII operator characters matter.
- `panic`: each of the two panics is an error result carrying its message, not a process abort.
- Node identity: pointers are positions in `nodes`. A `>` node overwritten during the scan is unreachable and is not in the arena.
- The sentinel `root` node: it is reachable only through the first node's `Prev`, which is not modelled, so the arena starts at `root.Next`.
- `Parser.Ast.nodes` may hold nodes the returned Go `AST` cannot reach through `Next`: it keeps the whole structural list so that the links of every bracket node can be stated.

## Findings

| source | as written | input that shows it | evidently intended | confidence | as-written member | corrected member |
|---|---|---|---|---|---|---|
| main.go:40-41 | the `>` case sets `curr.Next` but never moves `curr`, so the next operator's node replaces the `IncrementPointer` node | `>.` parses to the single node `.`, with no pointer move | every operator character adds one node, like the other seven cases, so `>.` yields two nodes | high; not executed | Scenarios.IncrementOverwritten | Parser.ParseFixed |

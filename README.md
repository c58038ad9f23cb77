# A verified model of the Go record viewer and puzzle trainer

`app.js` is a browser application that loads a Go record in SGF (Smart Game
Format) and either lets the user explore it or drills it as a puzzle. The
puzzles come from a collection of one hundred 9x9 endgame problems. Apart from
drawing and event wiring, its logic is sequential, integer-only and
deterministic. This project models that logic in Dafny and proves what each
part promises.

The model follows the program's own structure, one module per concern:

- `Wrappers`: `Option` (JavaScript's `null`) and `Result` (an operation that throws).
- `Coords`: board points and colours; the two-letter SGF coordinate; the
  rotation between the logical and the displayed board.
- `PuzzleIndex`: problem numbers and paths (`001.sgf` … `100.sgf`); stepping to
  the next problem; the history of visited problems, as a class with the
  history fields.
- `Sgf`: the recursive-descent parser.
  - It is specified by functions from a cursor position to the value read and
    the position reached.
  - The methods of the class `Parser` run the source's loops on a cursor field
    and are proved to compute those functions.
  - A serializer that follows the game-tree grammar and the Text escaping of
    SGF FF[4] is the parser's partner: parsing what it writes gives back the
    tree.
- `ParseInt`: `Number.parseInt(s, 10)` as the SZ property is read. It skips
  leading white space, takes one sign, then the longest run of digits.
- `NodeTree`: the graph of record nodes as an arena.
  - An arena is a sequence of nodes with parent and child indices, owned by
    the class `NodeArena` together with the global id counter.
  - Also here: the builder, the walk to the root, the main line, and
    `getNodeMove`.
- `GoRules`: the board as an `array2` of cells.
  - The rules are stated on a map-valued grid: flood-fill group, liberties,
    capture, self-capture and the capture tally.
  - `collectGroup`, `removeStones` and `applyMove` change the array in place
    and are proved against those rules.
- `Replay`: `boardStateForNode`. It resolves the size, replays setup edits and
  moves along the path from the root, and reads the target node's labels and
  marks.
- `Viewer`: the session state (`state`) as a class. Its methods are the
  exploration moves, the responsive and answer-key puzzle controllers, and the
  load sequence that follows a record's text arriving.

## Model

| member | source | states |
|---|---|---|
| Coords.Opponent | app.js:395 | the opponent of a colour is the other colour |
| Coords.CoordToPoint | app.js:96-106 | a decoded point has non-negative coordinates |
| Coords.CoordToPointDefined | app.js:96-106 | a coordinate yields no point exactly when it is shorter than two units or either letter lies below 'a' |
| Coords.PointToCoord | app.js:108-110 | a point is written as two code units |
| Coords.CoordRoundTrip | app.js:96-110 | decoding the coordinate of any point with non-negative coordinates gives the point back |
| Coords.PointRoundTrip | app.js:96-110 | encoding a decoded point gives back the first two code units it was read from |
| Coords.SamePoint | app.js:1212-1214 | true exactly when both points are present and equal |
| Coords.DisplayPointFromLogical | app.js:134-149 | a point maps to a point and null maps to null |
| Coords.LogicalPointFromDisplay | app.js:151-166 | a point maps to a point and null maps to null |
| Coords.RotationRoundTrip | app.js:134-166 | for every size and rotation, the two maps undo each other in both orders |
| Coords.RotationKeepsBounds | app.js:134-166 | both maps keep an on-board point on the board |
| PuzzleIndex.DecimalString | app.js:126 | `String(n)` is a non-empty run of digits |
| PuzzleIndex.PadStart | app.js:126 | `padStart` has the longer of the two lengths and ends with the original text |
| PuzzleIndex.ParseProblemIndex | app.js:112-122 | the index read from any path lies in 1..100 |
| PuzzleIndex.PaddedDigits | app.js:126 | the padded number is three digits whose value is the number |
| PuzzleIndex.SgfPathForIndex | app.js:124-127 | the path is the collection directory, a slash, three characters and ".sgf" |
| PuzzleIndex.PathIndexRoundTrip | app.js:112-127 | reading the index back from the path built for any integer gives that integer clamped to 1..100 |
| PuzzleIndex.NextPuzzlePath | app.js:1176-1180 | the next path's index is the current index plus one, wrapping from 100 to 1 |
| PuzzleIndex.NextPuzzleCycles | app.js:1176-1180 | stepping from problem i lands on problem i mod 100 + 1 |
| PuzzleIndex.PuzzleHistory.constructor | app.js:78-79 | the history starts empty, with index -1 |
| PuzzleIndex.PuzzleHistory.RecordVisit | app.js:172-183 | revisiting the current path changes nothing; otherwise the forward entries are dropped and the path is appended and made current; the history stays well formed |
| PuzzleIndex.PuzzleHistory.GoBack | app.js:1185-1193 | at index 0 or -1 nothing changes and no path is returned; otherwise the index drops by one and the previous path is returned; the list itself is unchanged |
| Sgf.WsEnd | app.js:188-192 | skipping white space never moves the cursor back or past the end |
| Sgf.IdentEnd | app.js:226-230 | the identifier run ends on a non-letter or at the end |
| Sgf.ValueBody | app.js:199-216 | a value body ends just after a ']' or at the end of the text |
| Sgf.ValueAt | app.js:194-217 | off a '[' nothing is read and the cursor stays; on one the cursor advances |
| Sgf.ValuesAt | app.js:236-240 | the cursor never moves back and values are only appended |
| Sgf.PropertyAt | app.js:226-241 | reading a property always advances the cursor |
| Sgf.NodeAt | app.js:219-244 | reading a node never moves the cursor back |
| Sgf.SequenceAt | app.js:253-258 | reading the node sequence never moves the cursor back |
| Sgf.TreeAt | app.js:246-272 | a tree that is read ends just after a ')'; a tree that starts on '(' can only fail for a missing ')' |
| Sgf.TreeRest | app.js:260-272 | after the sequence, the children and ')' either end just after a ')' or fail for a missing ')' |
| Sgf.ChildrenAt | app.js:260-264 | the child trees can only fail for a missing ')' |
| Sgf.TreesAt | app.js:274-288 | the top-level loop only appends trees |
| Sgf.TreesFailClosing | app.js:266-268 | the top-level loop fails only with "Expected ')'" |
| Sgf.ParsedSgf | app.js:185-293 | parseSgf fails only with "No game tree found" or "Expected ')'", apart from the TypeError on an inherited property name (see Left out) |
| Sgf.Parser.constructor | app.js:186 | the cursor starts at 0 on the given text |
| Sgf.Parser.SkipWs | app.js:188-192 | the cursor moves to the end of the white-space run |
| Sgf.Parser.ParseValue | app.js:194-217 | the value and the new cursor are those ValueAt specifies |
| Sgf.Parser.ReadIdent | app.js:226-230 | the identifier is the letter run at the cursor and the cursor moves past it |
| Sgf.Parser.ParseValues | app.js:236-240 | the values and the new cursor are those ValuesAt specifies |
| Sgf.Parser.ParseProperty | app.js:226-241 | the property bag and the new cursor are those PropertyAt specifies |
| Sgf.Parser.ParseNode | app.js:219-244 | the node's properties and the new cursor are those NodeAt specifies |
| Sgf.Parser.ParseSequence | app.js:253-258 | the node sequence and the new cursor are those SequenceAt specifies |
| Sgf.Parser.ParseGameTree | app.js:246-272 | the tree or the error, and the new cursor, are those TreeAt specifies |
| Sgf.Parser.ParseChildren | app.js:260-264 | the child trees or the error, and the new cursor, are those ChildrenAt specifies |
| Sgf.ParseSgf | app.js:185-293 | the result is exactly ParsedSgf of the text |
| Sgf.Escape | app.js:201-207 | escaping never shortens a text |
| Sgf.CollectConcatenates | app.js:241 | a repeated identifier keeps all its values, in encounter order, after any it already had |
| Sgf.CollectKeys | app.js:241 | an identifier is in the bag exactly when it was there before or occurs in the node |
| Sgf.ValueBodyReadsEscaped | app.js:199-216 | a value body written with SGF Text escaping reads back as the original text, ending after its ']' |
| Sgf.ValuesReadBack | app.js:236-240 | written values read back, in order, up to the end of what was written |
| Sgf.IdentReadBack | app.js:226-230 | a written identifier reads back whole |
| Sgf.PropertyReadBack | app.js:226-241 | a written property reads back as its values appended to the identifier's entry |
| Sgf.PropertiesReadBack | app.js:219-244 | a written node reads back as the collected property bag |
| Sgf.NodesReadBack | app.js:253-258 | a written node sequence reads back node by node |
| Sgf.TreeReadBack | app.js:246-272 | a written tree reads back as itself, ending where it was written to end |
| Sgf.ChildrenReadBack | app.js:260-264 | written child trees read back in encounter order |
| Sgf.TreesReadBack | app.js:274-288 | the top-level loop reads a written tree whole and goes on after it |
| Sgf.ParseRoundTrip | app.js:185-293 | parsing the text the serializer writes for any well-formed tree gives that tree back |
| Sgf.FirstTreeKept | app.js:285-292 | with two top-level trees, the first is returned |
| Sgf.NoOpenParenFails | app.js:281-291 | a text without '(' fails with "No game tree found" |
| Sgf.UnclosedFails | app.js:266-268 | a text with a '(' but no ')' fails with "Expected ')'" |
| Sgf.EscapeExamples | app.js:199-216 | `\]` does not end a value, and a trailing lone backslash is dropped |
| Sgf.UnterminatedValueExample | app.js:199-216 | the text `(;C[a)`: its value swallows the ')' and the tree fails with "Expected ')'" at 6, an instance of Sgf.OpenValueFails |
| Sgf.PropertyToEnd | app.js:199-242 | a property whose value opens on '[' with no later ']' takes parseNode to the end of the text |
| Sgf.OpenTreeFails | app.js:246-268 | a tree written up to a value that is never closed, running to the end of the text, fails with "Expected ')'" at the end |
| Sgf.OpenValueFails | app.js:199-268 | every record cut short inside a value of its last node (no ']' after the value's '[') fails with "Expected ')'" at the end of the text, whatever nodes and properties precede the value |
| Sgf.VariationOpenValueFails | app.js:246-268 | the same when the open value is in a variation written after the tree's own nodes and any complete variations: the parent tree fails too, with "Expected ')'" at the end |
| Sgf.TreeAtEndFails | app.js:246-268 | a tree whose nodes and variations run to the very end of the text fails with "Expected ')'" at the end |
| Sgf.TruncatedTreeFails | app.js:185-293 | every record the serializer writes, cut short by its final ')', fails with "Expected ')'" at the end of the text |
| ParseInt.DigitsEnd | app.js:474 | the digit run is all digits and is followed by a non-digit or the end |
| ParseInt.ParseIntPrefix | app.js:474-475 | parseInt gives NaN exactly when no digit follows the white space and the optional sign |
| ParseInt.SignedValue | app.js:474 | without leading white space: NaN exactly when no digit follows the optional sign |
| ParseInt.DecimalValue | app.js:474 | the digits of the decimal spelling of n denote n |
| ParseInt.NoLeadingSpace | app.js:474 | without leading white space the text is read as it is |
| ParseInt.SignedDigits | app.js:474 | after an optional sign, a digit run gives its value, negated after '-' |
| ParseInt.ParseDecimal | app.js:474 | the decimal spelling of n, with an optional sign and before a non-digit, reads back as n or -n |
| ParseInt.ParseIntRoundTrip | app.js:474 | parseInt reads back the decimal spelling of n, unsigned, after '-' and after '+', whatever non-digit follows |
| NodeTree.OnlyParentListsChild | app.js:303-323 | in a linked arena a child listed by p has p as its parent |
| NodeTree.PreorderCountsEntries | app.js:303-323 | pre-order lists each sequence entry of the tree exactly once |
| NodeTree.AddChild | app.js:314-315 | adding a child appends exactly that node |
| NodeTree.AddChildKeepsLinked | app.js:307-316 | adding a fresh node to its parent's children list keeps the arena linked |
| NodeTree.ChainStep | app.js:305-316 | one round of the chain loop keeps the arena linked and extends the chain by one node, numbered next and hung from the chain's end |
| NodeTree.AppendChain | app.js:305-317 | a sequence becomes a chain of new nodes: the first hangs from `from`, each later one from the one before, with ids k, k+1, …; the cursor ends on the chain's last node; earlier nodes keep their contents and only `from`'s children list grows |
| NodeTree.ChainParents | app.js:305-316 | the first chain node's parent is `from`, each later one's the node just before it |
| NodeTree.ParentsCover | app.js:303-321 | the expected-parent list has one parent for every pre-order entry of the tree |
| NodeTree.TreeStep | app.js:319-321 | appending child tree k under the chain's end extends the numbering and the parents by that tree's own |
| NodeTree.NodeArena.constructor | app.js:60 | the arena starts empty, with the counter at 1 |
| NodeTree.NodeArena.BuildNodeTree | app.js:295-324 | a virtual root with id 0, empty properties and no parent is added; the tree's entries follow it in pre-order with ids k, k+1, …, each hung from the parent Parents gives (the sequence as a chain below the root, each variation below the chain's end); the counter ends at k plus the number of entries; the arena stays linked with every children list in creation order |
| NodeTree.NodeArena.AppendSequence | app.js:303-321 | the tree's entries are added in pre-order with consecutive ids, the sequence as a chain from `from` and each child tree hung from the chain's end (`from` itself when the sequence is empty); earlier nodes and other children lists are unchanged; the arena stays linked with every children list in creation order |
| NodeTree.PathToShape | app.js:419-428 | the path runs from a child of a parentless node to the node, each entry the parent of the next, and excludes the parentless root |
| NodeTree.GetPathTo | app.js:419-428 | the loop computes PathTo |
| NodeTree.MainlineShape | app.js:769-780 | the main line starts at the node, steps to each first child and ends at a leaf |
| NodeTree.MainlineInArena | app.js:769-780 | the main line is non-empty, starts at the node and names arena nodes |
| NodeTree.BuildMainlinePath | app.js:769-780 | the loop computes Mainline |
| NodeTree.GetNodeMove | app.js:456-466 | a move exists exactly when B or W is non-empty; it is Black exactly when B is non-empty, carries that list's first value and its decoded point |
| NodeTree.ChildMoveCoord | app.js:977 | the first B value if it is non-empty, else the first W value, else empty |
| NodeTree.ChildMoveAgreesWithNodeMove | app.js:977-979 | when getNodeMove finds a point, goToChildByMove's coordinate decodes to the same point |
| GoRules.Credit | app.js:414-416 | the tally of the colour grows by the amount and the other colour's is unchanged |
| GoRules.GridDescribes | app.js:326-332 | a square board is described by its grid |
| GoRules.Neighbors | app.js:338-345 | at most four distinct points; for an on-board point, exactly its on-board orthogonal neighbours |
| GoRules.NeighborsSymmetric | app.js:338-345 | adjacency is symmetric |
| GoRules.GroupSound | app.js:347-377 | every member of a group is on the board and has the start's colour |
| GoRules.GroupIsLeastClosed | app.js:347-377 | a set of the group that holds the start and is closed under same-coloured neighbours is the whole group |
| GoRules.ScanNeighbors | app.js:362-373 | one neighbour scan adds the same-coloured neighbours to seen and stack and the empty ones to the liberties |
| GoRules.VisitTop | app.js:358-373 | one pop-and-scan step keeps the walk's invariant and makes progress |
| GoRules.CollectGroup | app.js:347-377 | an empty start gives no stones and 0 liberties; otherwise the stones are exactly the connected group, without repeats, and libs is the number of distinct empty neighbours |
| GoRules.NewBoard | app.js:326-328 | a fresh square board of the size, all empty |
| GoRules.CloneBoard | app.js:330-332 | a fresh board with the same contents |
| GoRules.Cleared | app.js:379-383 | the listed points are empty and every other point is as before |
| GoRules.RemoveStones | app.js:379-383 | the board becomes its grid with the listed points emptied |
| GoRules.CaptureNeighbors | app.js:398-407 | the board and the count are those of capturing, in order, each neighbouring opponent group without liberties |
| GoRules.ApplyMove | app.js:385-417 | the board becomes Play's grid; only the mover's tally grows, by Play's count of captured stones |
| GoRules.ClearGroupTakes | app.js:402-406 | removing an opponent group adds exactly its stones to those taken |
| GoRules.CaptureAroundTakes | app.js:398-407 | the capture count equals the number of opponent stones that disappear |
| GoRules.ClearOwnTakesNothing | app.js:409-412 | removing the player's own group adds nothing to the opponent stones taken |
| GoRules.PlayCountsCaptures | app.js:385-417 | the count is exactly the number of opponent stones removed, so a self-captured group is not counted; every other point keeps its contents or becomes empty |
| GoRules.PlayLeavesLiberty | app.js:409-412 | if the played stone stays, its group has a liberty |
| Replay.SizeOf | app.js:473-477 | SZ sets a size exactly when its first value is non-empty and parses to an integer above 1 that is finite as a double (below 2^1024 - 2^970; a longer digit run reads as Infinity, which Number.isInteger rejects), and the size set is that parsed value |
| Replay.ExactSizesKept | app.js:473-477 | every SZ value from 2 up to 2^53 sets exactly that size |
| Replay.ResolvedSizeDefault | app.js:470-479 | with no usable SZ on the path, the configured size is kept |
| Replay.ResolvedSizeIsLast | app.js:470-479 | the size is the one set by the last usable SZ on the path |
| Replay.ResolveSize | app.js:470-479 | the loop computes ResolvedSize |
| Replay.SetupPoint | app.js:488-489 | a setup coordinate gives a point only when it decodes and lies on the board |
| Replay.SetupAt | app.js:486-504 | a setup list gives the cell to exactly the on-board points it names; every other point, including one named off the board, keeps its contents |
| Replay.SetStones | app.js:487-504 | the loop writes the setup list onto the board |
| Replay.ReplayCountsMoves | app.js:506-510 | moveNumber is the number of path nodes with a non-empty B or W, passes included |
| Replay.ReplayNoLastMove | app.js:484 | with no move on the path there is no last move |
| Replay.ReplayLastMove | app.js:506-510 | the last move is the point of the last node that records a move |
| Replay.ColonIndex | app.js:433 | the first ':' of the text, or its length when there is none |
| Replay.LabelOf | app.js:433-437 | a label has a non-empty text without ':' |
| Replay.LabelRoundTrip | app.js:433-437 | a coordinate and a text joined by ':' read back as that label |
| Replay.LabelsOfMembers | app.js:430-440 | each label comes from one LB value, and every value that gives a label contributes it |
| Replay.ParseLabels | app.js:430-440 | the loop computes the labels of the LB list |
| Replay.MarksForMembers | app.js:446-451 | the marks of one property are exactly its coordinates that decode, with that kind |
| Replay.MarkOrderUnfolds | app.js:444-452 | the marks come MA, then TR, then SQ, then CR |
| Replay.MarksMembers | app.js:442-454 | a mark is listed exactly when its kind's property has a coordinate that decodes to its point |
| Replay.AppendMarks | app.js:446-451 | the loop appends one property's marks |
| Replay.ParseMarks | app.js:442-454 | the loops compute the marks in the order MA, TR, SQ, CR |
| Replay.PathBags | app.js:469 | the properties of the path's nodes, one per node |
| Replay.ReplayStep | app.js:486-511 | one node's setup edits and move change the board, tally, count and last move as ReplayNode says |
| Replay.BoardStateForNode | app.js:468-523 | the size, board, captures, move number and last move are those of replaying the path from the root, which excludes the virtual root; labels and marks come from the target node alone |
| Viewer.SelectedChild | app.js:956-957 | goNext's child is a child of the node |
| Viewer.DescendDepth | app.js:961-967 | goLast goes down the tree, either to a leaf or exactly 1000 steps |
| Viewer.FirstChildAt | app.js:975-985 | the first child whose move lies at the point, or none when no child's does |
| Viewer.FindChildAt | app.js:975-985 | the loop computes FirstChildAt |
| Viewer.MovesWithPoints | app.js:784-793 | every answer move has a point |
| Viewer.MovesWithPointsMembers | app.js:782-795 | the answer moves are exactly the moves with a point of the nodes after the first |
| Viewer.ExtractAnswerMoves | app.js:782-795 | the loop computes the answer moves of the path |
| Viewer.NextTurnStops | app.js:828-848 | the stop never lies before the start; it is the last index, or the node after it is the player's move with a point; every node passed over is not |
| Viewer.NextTurnIndex | app.js:830-845 | the loop computes NextTurn |
| Viewer.ResponsiveStart | app.js:815-826 | the main line, the first answer move's colour (Black when there is none), and the first stop |
| Viewer.ExpectedPoint | app.js:989-998 | a move is expected exactly when a next node exists and holds the player's move with a point |
| Viewer.NextColorAlternates | app.js:1016-1023 | a move of the colour answerKeyNextColor gives keeps the attempt alternating from the first answer colour (Black when none) |
| Viewer.NextColor | app.js:1016-1023 | on an attempt that alternates from the first answer colour (Black when none), the next colour is that colour after an even number of moves and its opponent after an odd number |
| Viewer.ReplayMovesCounts | app.js:902 | replaying the attempt adds one to the move number per move |
| Viewer.BaseOf | app.js:875-882 | a fresh copy of the root's replayed position: size, board, captures, move number and last move |
| Viewer.ViewerState.constructor | app.js:54-83 | the initial session state, with an empty arena whose counter is 1 |
| Viewer.ViewerState.GoFirst | app.js:936-941 | moves to the virtual root's first child, or stays when it has none |
| Viewer.ViewerState.GoPrev | app.js:943-949 | moves to the parent unless there is none or it is the virtual root; the old node's path is the new node's path plus the old node |
| Viewer.ViewerState.GoNext | app.js:951-959 | stays on a leaf; otherwise moves to the remembered child (the first when none is remembered), limited to the last |
| Viewer.ViewerState.GoLast | app.js:932-967 | ends where up to 1000 goNext steps lead, each taken while canGoNext holds |
| Viewer.ViewerState.GoToChildByMove | app.js:969-986 | moves to the first child whose move is at the point and remembers its index for the node's id; otherwise nothing changes |
| Viewer.ViewerState.AdvanceResponsiveToPlayerTurn | app.js:828-848 | answerIndex becomes NextTurn from its old value, so it never decreases; the current node is the path's node at that index, or its last node |
| Viewer.ViewerState.ApplyResponsiveClick | app.js:988-1014 | no expected move: ignored; a wrong point: answerIndex and currentNode unchanged; the expected point: answerIndex strictly grows to the next stop, and the line is solved exactly when that is the last index |
| Viewer.ViewerState.SetupResponsivePuzzle | app.js:815-826 | ResponsiveReady: the answer path is the main line; the player is the first answer move's colour; answerIndex is the first stop and the current node is that path node |
| Viewer.ViewerState.RebuildAnswerAttemptBoard | app.js:887-907 | a fresh board that holds the base position with the attempt's moves replayed; the move number is the base number plus the number of moves; no labels or marks |
| Viewer.ViewerState.ApplyAnswerKeyClick | app.js:1025-1039 | accepted exactly when the point is empty on the rebuilt board; then exactly one move of answerKeyNextColor's colour is appended, else nothing changes |
| Viewer.ViewerState.SubmitAnswerKey | app.js:1041-1066 | correct exactly when both lengths are equal and every colour and point matches; nothing is modified |
| Viewer.ViewerState.ResetAnswerKeyAttempt | app.js:1068-1071 | the attempt is emptied |
| Viewer.ViewerState.SetAnswerLine | app.js:868-872 | the answer path is the main line from n, the answer moves are its moves, and the attempt is empty |
| Viewer.ViewerState.SaveBase | app.js:875-882 | the saved base is a fresh copy of the position at n |
| Viewer.ViewerState.SetupAnswerKeyPuzzle | app.js:867-885 | AnswerKeyReady: main line, answer moves, empty attempt, current node at the root, and a fresh saved board holding the root's replayed position, with its size, captures, move number and last move |
| Viewer.ViewerState.ResetForLoad | app.js:1095-1097 | the id counter restarts at 1, the variation memory and the attempt are cleared |
| Viewer.ViewerState.EnterRoot | app.js:1109-1110 | the root and the current node become n |
| Viewer.ViewerState.SetupForMode | app.js:1115-1121 | responsive: ResponsiveReady; answer key: AnswerKeyReady with a fresh board; exploration: nothing changes; each mode leaves the other mode's state untouched |
| Viewer.ViewerState.BuildTree | app.js:1102-1103 | Built: the new parentless virtual root follows the existing nodes, which stay as they were; the record's entries follow it numbered from the counter and hung as Parents says; the counter moves past them |
| Viewer.ViewerState.LoadTree | app.js:1103-1121 | Built; "SGF has no nodes" exactly when the virtual root has no child, and then nothing else changes; otherwise the root is its first child and the mode's setup holds as in StartAt |
| Viewer.ViewerState.StartAt | app.js:1109-1121 | the root becomes n; exploration: the current node is n and the puzzle state is untouched; responsive: ResponsiveReady, the answer-key state untouched; answer key: AnswerKeyReady with a fresh board, answerIndex and playerColor untouched |
| Viewer.ViewerState.LoadText | app.js:1095-1121 | ids restart at 1 and the variation memory and attempt are cleared; a parse error returns that error and changes nothing else (the counter stays at 1); otherwise Built with ids from 1, then as LoadTree; the mode and configured size are outside the frame, so never change |

## Left out

- Canvas drawing and the DOM are not modelled: `drawBoard`, the `render*` functions, `applyModeUi`, `initSelector`, the settings toggles, the hover and confirm-prompt handling and `wireEvents` are presentation only. The `render()` calls at the end of the navigation and puzzle operations are dropped for the same reason.
- `drawBoard` also writes `state.boardSize`. The model keeps `boardSize` as the configured size, set by the caller.
- The network side of `loadSgf`/`openPuzzle` is not modelled: `fetch`, promises and error reporting. `Viewer.ViewerState.LoadText` starts from the text and returns an error where the source throws.
- Randomness is not modelled: `randomBoardRotation`, and the shuffle branch of `goNextPuzzle` call `Math.random`. The rotation is a parameter of the rotation maps instead.
- `getBoardPointFromEvent` and `showConfirmPromptAt` are not modelled because they compute floating-point pixels.
- `showFeedback`'s overlay and timer are not modelled. Puzzle clicks return a `Feedback` value instead.
- `findAnswerComment`, `commentForNode`, `childPreviewText` and `answerComment` are not modelled; they only format text.
- JavaScript's `/\s/` is modelled as a fixed set of white-space code units, and strings as sequences of BMP code units.
- ParseInt.ParseIntPrefix: gives the exact integer. JavaScript's `Number.parseInt` gives a double, which rounds digit runs beyond 2^53 and turns runs of 2^1024 - 2^970 or more into Infinity. Replay.SizeOf applies the Infinity case itself through ParseInt.Finite, so such an SZ is ignored as in the source.
- Replay.SizeOf: for a finite SZ value above 2^53 the source sets the nearest double (ECMAScript also lets an engine zero every digit after the 20th), while the model sets the exact value. Only boards far beyond any memory are affected.
- Viewer.ViewerState.ApplyAnswerKeyClick: requires an on-board point whose coordinate letters are single code units. Clicks come from `getBoardPointFromEvent`, which only returns on-board points. The source would throw, or reject, for points off the board.
- Viewer.ViewerState.GoFirst: requires a loaded record. The source throws when `virtualRoot` is null.
- Viewer.ViewerState.GoNext: requires a current node; the source throws without one. GoLast and GoToChildByMove have the same requirement.
- Viewer.ViewerState.SetupResponsivePuzzle: does not state the intermediate `currentNode = path[0]`. It is overwritten by the advance before any other code can observe it.
- Viewer.ViewerState.LoadText: states "SGF has no nodes" through the arena. The virtual root it built has no children.
- Sgf.PropertyAt: assumes the bag has no inherited keys. A JavaScript object literal inherits `constructor`, `hasOwnProperty`, `isPrototypeOf`, `propertyIsEnumerable`, `toLocaleString`, `toString` and `valueOf`. When such a name is read as an identifier and the node has no value of its own for it, `props[ident] || []` yields the inherited function, and `.concat` throws a TypeError. The model merges the values as for any other name. The same holds for Sgf.Parser.ParseProperty, Sgf.ParsedSgf and Sgf.ParseSgf. Sgf.WellFormedProperty excludes these names, so the round trip is only claimed where the source agrees.
- Viewer.ViewerState.RebuildAnswerAttemptBoard: requires a saved base position. The source throws a TypeError when `baseBoardState` is null. That can only happen on a click in answer-key mode before any record has loaded. Viewer.ViewerState.ApplyAnswerKeyClick inherits the requirement.
- GoRules.NewBoard: does not model the RangeError that `Array.from`/`Array(size)` throw for a size from 2^32 up to the Infinity bound of Replay.SizeOf (an SZ at or above that bound is ignored and never reaches newBoard). Such a size comes from an SZ property through Replay.BoardStateForNode, so neither states the error. The model builds the board of any natural size.
- Viewer.ViewerState.SetupAnswerKeyPuzzle: the `captures` object copy is a copy of a value, a `Captures` datatype here.
- Viewer.ViewerState.AdvanceResponsiveToPlayerTurn: a record loaded in answer-key mode leaves `answerIndex` as it was. So the index may lie past the path, and then `path[i] || path[path.length - 1]` falls back to the last node; the contract states that fallback.
- The node objects of the source are heap records that point to each other. Here they are entries of one arena sequence named by index, and `Viewer.ViewerState` holds indices where the source holds references.
- Coords.PointToCoord: requires coordinate letters that stay single code units of the Basic Multilingual Plane; `String.fromCharCode` would wrap larger values.

/**
 * The viewer's session state (the `state` record of app.js:54-83) and the
 * operations that change it: exploring a record (app.js:932-986), the
 * responsive puzzle (app.js:815-848, 988-1014), the answer-key puzzle
 * (app.js:782-795, 867-907, 1016-1071) and loading a record's text
 * (app.js:1095-1121).
 */
module Viewer {
  import opened Wrappers
  import opened Coords
  import opened Sgf
  import opened NodeTree
  import opened GoRules
  import opened Replay

  datatype Mode = Exploration | Responsive | AnswerKey

  /** What a puzzle click reports instead of showFeedback's overlay. */
  datatype Feedback = Ignored | WrongMove | Advanced | Solved

  /** Why loading a record's text fails. */
  datatype LoadError = Unparsable(error: ParseError) | NoNodes

  /** The position an answer-key attempt starts from (state.puzzle.baseBoardState). */
  datatype BaseState = BaseState(board: array2<Cell>, captures: Captures, size: nat, moveNumber: nat, lastMove: Option<Point>)

  /** state.boardSize before any record sets it. */
  const DefaultBoardSize: nat := 9

  /** The most steps goLast takes. */
  const LastGuard: nat := 1000

  function Min(a: int, b: int): int {
    if a < b then a else b
  }

  /** n names a node of the arena, if it names one at all. */
  predicate Names(nodes: seq<Node>, n: Option<nat>) {
    n.Some? ==> n.value < |nodes|
  }

  // ---------------------------------------------------------------------
  // Exploration
  // ---------------------------------------------------------------------

  /**
   * The child goNext moves to: the one remembered for the node's id
   * (the first when none is), limited to the last child.
   */
  function SelectedChild(nodes: seq<Node>, selected: map<nat, nat>, n: nat): (c: nat)
    requires Linked(nodes) && n < |nodes| && nodes[n].children != []
    ensures c in nodes[n].children && c < |nodes| && nodes[c].parent == Some(n)
  {
    var children := nodes[n].children;
    var idx := if nodes[n].id in selected then selected[nodes[n].id] else 0;
    children[if idx < |children| - 1 then idx else |children| - 1]
  }

  /** Where up to `fuel` goNext steps lead from n. */
  ghost function Descend(nodes: seq<Node>, selected: map<nat, nat>, n: nat, fuel: nat): (d: nat)
    requires Linked(nodes) && n < |nodes|
    ensures d < |nodes|
    decreases fuel
  {
    if fuel == 0 || nodes[n].children == [] then n
    else Descend(nodes, selected, SelectedChild(nodes, selected, n), fuel - 1)
  }

  /**
   * goLast stays below its start: the start's path is a prefix of the end's,
   * and it stops at a node without children unless it took all `fuel` steps.
   */
  lemma {:induction false} DescendDepth(nodes: seq<Node>, selected: map<nat, nat>, n: nat, fuel: nat)
    requires Linked(nodes) && n < |nodes|
    ensures var d := Descend(nodes, selected, n, fuel);
              PathTo(nodes, n) <= PathTo(nodes, d) &&
              (nodes[d].children == [] || |PathTo(nodes, d)| == |PathTo(nodes, n)| + fuel)
    decreases fuel
  {
    if fuel > 0 && nodes[n].children != [] {
      var c := SelectedChild(nodes, selected, n);
      assert PathTo(nodes, c) == PathTo(nodes, n) + [c];
      DescendDepth(nodes, selected, c, fuel - 1);
    }
  }

  /** The point of the move a child records, as goToChildByMove reads it. */
  function ChildPoint(nodes: seq<Node>, c: nat): Option<Point>
    requires c < |nodes|
  {
    CoordToPoint(ChildMoveCoord(nodes[c].props))
  }

  /** The first of children[k..] whose move is at `point`, by its index in children. */
  function FirstChildAt(nodes: seq<Node>, children: seq<nat>, point: Point, k: nat): (r: Option<nat>)
    requires forall j :: 0 <= j < |children| ==> children[j] < |nodes|
    ensures r.Some? ==> k <= r.value < |children| && ChildPoint(nodes, children[r.value]) == Some(point) &&
                        forall j :: k <= j < r.value ==> ChildPoint(nodes, children[j]) != Some(point)
    ensures r.None? ==> forall j :: k <= j < |children| ==> ChildPoint(nodes, children[j]) != Some(point)
    decreases |children| - k
  {
    if k >= |children| then None
    else if ChildPoint(nodes, children[k]) == Some(point) then Some(k)
    else FirstChildAt(nodes, children, point, k + 1)
  }

  /** The search loop of goToChildByMove. */
  method FindChildAt(nodes: seq<Node>, children: seq<nat>, point: Point) returns (found: Option<nat>)
    requires forall j :: 0 <= j < |children| ==> children[j] < |nodes|
    ensures found == FirstChildAt(nodes, children, point, 0)
  {
    var i := 0;
    while i < |children|
      invariant 0 <= i <= |children|
      invariant FirstChildAt(nodes, children, point, i) == FirstChildAt(nodes, children, point, 0)
    {
      var m := CoordToPoint(ChildMoveCoord(nodes[children[i]].props));
      if m.Some? && m.value.x == point.x && m.value.y == point.y {
        return Some(i);
      }
      i := i + 1;
    }
    return None;
  }

  // ---------------------------------------------------------------------
  // Puzzle helpers
  // ---------------------------------------------------------------------

  /** The moves with a point recorded by a run of nodes, in order (extractAnswerMoves). */
  function MovesWithPoints(bags: seq<PropertyBag>): (moves: seq<Move>)
    ensures forall m :: m in moves ==> m.point.Some?
  {
    if bags == [] then []
    else
      var init := MovesWithPoints(bags[..|bags| - 1]);
      match GetNodeMove(bags[|bags| - 1])
      case Some(m) => if m.point.Some? then init + [m] else init
      case None => init
  }

  /** A move is an answer move exactly when some node of the run records it and it has a point. */
  lemma {:induction false} MovesWithPointsMembers(bags: seq<PropertyBag>)
    ensures forall m :: m in MovesWithPoints(bags) <==>
              m.point.Some? && exists k :: 0 <= k < |bags| && GetNodeMove(bags[k]) == Some(m)
  {
    if bags != [] {
      var init := bags[..|bags| - 1];
      MovesWithPointsMembers(init);
      assert forall k :: 0 <= k < |init| ==> init[k] == bags[k];
    }
  }

  /** The answer moves of a path: those of every node after the first. */
  function AnswerMoves(nodes: seq<Node>, path: seq<nat>): seq<Move> {
    if path == [] then [] else MovesWithPoints(PathBags(nodes, path)[1..])
  }

  /** extractAnswerMoves */
  method ExtractAnswerMoves(nodes: seq<Node>, path: seq<nat>) returns (moves: seq<Move>)
    requires forall k :: 0 <= k < |path| ==> path[k] < |nodes|
    ensures moves == AnswerMoves(nodes, path)
  {
    moves := [];
    if path == [] {
      return;
    }
    ghost var bags := PathBags(nodes, path)[1..];
    var i := 1;
    while i < |path|
      invariant 1 <= i <= |path|
      invariant moves == MovesWithPoints(bags[..i - 1])
    {
      assert bags[..i][..i - 1] == bags[..i - 1];
      var move := GetNodeMove(nodes[path[i]].props);
      if move.Some? && move.value.point.Some? {
        moves := moves + [move.value];
      }
      i := i + 1;
    }
    assert bags[..|path| - 1] == bags;
  }

  /** A node whose move has a point and the player's colour: the player's turn comes before it. */
  predicate IsPlayerMove(props: PropertyBag, color: Color) {
    var m := GetNodeMove(props);
    m.Some? && m.value.point.Some? && m.value.color == color
  }

  /** The index advanceResponsiveToPlayerTurn stops at, starting from `from`. */
  ghost function NextTurn(nodes: seq<Node>, path: seq<nat>, from: nat, color: Color): nat
    requires forall k :: 0 <= k < |path| ==> path[k] < |nodes|
    decreases |path| - from
  {
    if from + 1 >= |path| then from
    else if IsPlayerMove(nodes[path[from + 1]].props, color) then from
    else NextTurn(nodes, path, from + 1, color)
  }

  /**
   * The stop never lies before the start; it is the last node of the path or
   * the node just before one of the player's moves; every node passed over
   * is followed by a node that is not the player's move.
   */
  lemma {:induction false} NextTurnStops(nodes: seq<Node>, path: seq<nat>, from: nat, color: Color)
    requires forall k :: 0 <= k < |path| ==> path[k] < |nodes|
    ensures var t := NextTurn(nodes, path, from, color);
              from <= t && (from < |path| ==> t < |path|) &&
              (t + 1 >= |path| || IsPlayerMove(nodes[path[t + 1]].props, color)) &&
              forall j {:trigger path[j + 1]} :: from <= j < t ==> !IsPlayerMove(nodes[path[j + 1]].props, color)
    decreases |path| - from
  {
    if from + 1 < |path| && !IsPlayerMove(nodes[path[from + 1]].props, color) {
      NextTurnStops(nodes, path, from + 1, color);
    }
  }

  /** The loop of advanceResponsiveToPlayerTurn, on the index alone. */
  method NextTurnIndex(nodes: seq<Node>, path: seq<nat>, from: nat, color: Color) returns (index: nat)
    requires forall k :: 0 <= k < |path| ==> path[k] < |nodes|
    ensures index == NextTurn(nodes, path, from, color)
  {
    index := from;
    while index + 1 < |path|
      invariant from <= index
      invariant NextTurn(nodes, path, index, color) == NextTurn(nodes, path, from, color)
      decreases |path| - index
    {
      var move := GetNodeMove(nodes[path[index + 1]].props);
      if move.None? || move.value.point.None? {
        index := index + 1;
        continue;
      }
      if move.value.color != color {
        index := index + 1;
        continue;
      }
      break;
    }
  }

  /**
   * The values setupResponsivePuzzle computes: the main line from `start`,
   * the colour of its first answer move (Black when there is none) and the
   * player's first turn on it. The first node is shown only until the
   * advance replaces it, so only the advanced index is returned.
   */
  method ResponsiveStart(nodes: seq<Node>, start: nat) returns (path: seq<nat>, index: nat, color: Color)
    requires Linked(nodes) && start < |nodes|
    ensures ResponsiveLine(nodes, start, path, index, color)
  {
    MainlineInArena(nodes, start);
    path := BuildMainlinePath(nodes, start);
    var moves := ExtractAnswerMoves(nodes, path);
    color := if moves != [] then moves[0].color else Black;
    index := NextTurnIndex(nodes, path, 0, color);
    NextTurnStops(nodes, path, 0, color);
  }

  /**
   * The responsive puzzle's line from `start`: the main line, the colour of
   * its first answer move (Black when there is none) and the player's first
   * turn on it.
   */
  ghost predicate ResponsiveLine(nodes: seq<Node>, start: nat, path: seq<nat>, index: nat, color: Color) {
    Linked(nodes) && start < |nodes| && path == Mainline(nodes, start) &&
    (forall k :: 0 <= k < |path| ==> path[k] < |nodes|) &&
    color == StartColor(AnswerMoves(nodes, path)) &&
    index == NextTurn(nodes, path, 0, color) && index < |path|
  }

  /** The point the player must play after node `i` of the path, if the player is to move there. */
  function ExpectedPoint(nodes: seq<Node>, path: seq<nat>, i: nat, color: Color): (r: Option<Point>)
    requires forall k :: 0 <= k < |path| ==> path[k] < |nodes|
    ensures r.Some? <==> i + 1 < |path| && IsPlayerMove(nodes[path[i + 1]].props, color)
  {
    if i + 1 < |path| && IsPlayerMove(nodes[path[i + 1]].props, color) then GetNodeMove(nodes[path[i + 1]].props).value.point
    else None
  }

  /** The colour of the first answer move, Black when there is none. */
  function StartColor(answerMoves: seq<Move>): Color {
    if answerMoves != [] then answerMoves[0].color else Black
  }

  /** answerKeyNextColor */
  function NextColor(answerMoves: seq<Move>, userMoves: seq<Move>): (c: Color)
    ensures Alternating(userMoves, StartColor(answerMoves)) ==>
      c == if |userMoves| % 2 == 0 then StartColor(answerMoves) else Opponent(StartColor(answerMoves))
  {
    if userMoves == [] then StartColor(answerMoves)
    else
      var start := StartColor(answerMoves);
      assert Opponent(Opponent(start)) == start;
      Opponent(userMoves[|userMoves| - 1].color)
  }

  /** The moves alternate in colour, beginning with `start`. */
  ghost predicate Alternating(moves: seq<Move>, start: Color) {
    forall i :: 0 <= i < |moves| ==> moves[i].color == if i % 2 == 0 then start else Opponent(start)
  }

  /** A move of the colour answerKeyNextColor gives keeps the line alternating. */
  lemma NextColorAlternates(answerMoves: seq<Move>, userMoves: seq<Move>, m: Move)
    requires Alternating(userMoves, StartColor(answerMoves))
    requires m.color == NextColor(answerMoves, userMoves)
    ensures Alternating(userMoves + [m], StartColor(answerMoves))
  {
    var start := StartColor(answerMoves);
    var moves := userMoves + [m];
    forall i | 0 <= i < |moves|
      ensures moves[i].color == if i % 2 == 0 then start else Opponent(start)
    {
      if i < |userMoves| {
        assert moves[i] == userMoves[i];
      } else if i > 0 {
        assert userMoves[i - 1].color == if (i - 1) % 2 == 0 then start else Opponent(start);
        assert Opponent(Opponent(start)) == start;
      }
    }
  }

  /** The moves of an answer-key attempt replayed on a position. */
  ghost function ReplayMoves(r: Replayed, size: nat, moves: seq<Move>): Replayed {
    if moves == [] then r else PlayMove(ReplayMoves(r, size, moves[..|moves| - 1]), size, moves[|moves| - 1])
  }

  /** Replaying the attempt adds one to the move number per move, as the attempt's count does. */
  lemma {:induction false} ReplayMovesCounts(r: Replayed, size: nat, moves: seq<Move>)
    ensures ReplayMoves(r, size, moves).moveNumber == r.moveNumber + |moves|
  {
    if moves != [] {
      ReplayMovesCounts(r, size, moves[..|moves| - 1]);
    }
  }

  /** The attempt matches the answer key: same length, and the same colour and point move by move. */
  predicate Matches(expected: seq<Move>, actual: seq<Move>) {
    |expected| == |actual| &&
    forall i :: 0 <= i < |expected| ==> expected[i].color == actual[i].color && expected[i].point == actual[i].point
  }

  /** The saved copy of the position at node n that setupAnswerKeyPuzzle makes. */
  method BaseOf(nodes: seq<Node>, configured: nat, n: nat) returns (b: BaseState)
    requires Linked(nodes) && n < |nodes|
    ensures fresh(b.board) && Square(b.board) && b.board.Length0 == b.size
    ensures var bags := PathBags(nodes, PathTo(nodes, n));
            var r := ReplayPath(bags, b.size);
              b.size == ResolvedSize(bags, configured) &&
              Describes(b.board, r.grid) && b.captures == r.captures &&
              b.moveNumber == r.moveNumber && b.lastMove == r.lastMove
  {
    var start := BoardStateForNode(nodes, configured, n);
    ghost var g := ReplayPath(PathBags(nodes, PathTo(nodes, n)), start.size).grid;
    var copy := CloneBoard(start.board, g);
    b := BaseState(copy, start.captures, start.size, start.moveNumber, start.lastMove);
  }

  // ---------------------------------------------------------------------
  // The session state
  // ---------------------------------------------------------------------

  class ViewerState {
    /** Every node built so far; the other fields name nodes by their index here. */
    const arena: NodeArena
    var mode: Option<Mode>
    var root: Option<nat>
    var virtualRoot: Option<nat>
    var currentNode: Option<nat>
    /** The child goNext takes, by the id of the parent node. */
    var selectedChildByNodeId: map<nat, nat>
    var boardSize: nat
    var answerPath: seq<nat>
    var answerIndex: nat
    var playerColor: Color
    var answerMoves: seq<Move>
    var userMoves: seq<Move>
    var baseState: Option<BaseState>
    /** The contents of the base board. */
    ghost var baseGrid: Grid

    /** The record's roots name nodes of the arena; the virtual root has no parent. */
    ghost predicate RootsOk()
      reads this`root, this`virtualRoot, arena`nodes
    {
      Names(arena.nodes, root) && Names(arena.nodes, virtualRoot) &&
      (virtualRoot.Some? ==> arena.nodes[virtualRoot.value].parent.None?)
    }

    /** The current node names a node of the arena. */
    ghost predicate CurrentOk()
      reads this`currentNode, arena`nodes
    {
      Names(arena.nodes, currentNode)
    }

    /** The answer path names nodes. */
    ghost predicate PathOk()
      reads this`answerPath, arena`nodes
    {
      forall k :: 0 <= k < |answerPath| ==> answerPath[k] < |arena.nodes|
    }

    /** Answer and attempt moves all have points, and the attempt alternates from the start colour. */
    ghost predicate MovesOk()
      reads this`answerMoves, this`userMoves
    {
      (forall m :: m in answerMoves ==> m.point.Some?) &&
      (forall m :: m in userMoves ==> m.point.Some?) &&
      Alternating(userMoves, StartColor(answerMoves))
    }

    ghost function BaseFrame(): set<object>
      reads this`baseState
    {
      if baseState.Some? then {baseState.value.board} else {}
    }

    /** The saved base board is square, of the saved size, and holds baseGrid. */
    ghost predicate BaseOk()
      reads this`baseState, this`baseGrid, BaseFrame()
    {
      baseState.Some? ==>
        Square(baseState.value.board) && baseState.value.board.Length0 == baseState.value.size &&
        Describes(baseState.value.board, baseGrid)
    }

    ghost predicate Valid()
      reads this, arena, BaseFrame()
    {
      arena.Valid() && RootsOk() && CurrentOk() && PathOk() && MovesOk() && BaseOk()
    }

    /** The state setupResponsivePuzzle leaves for the record's first node n. */
    ghost predicate ResponsiveReady(n: nat)
      reads this, arena`nodes
    {
      ResponsiveLine(arena.nodes, n, answerPath, answerIndex, playerColor) &&
      currentNode == Some(answerPath[answerIndex])
    }

    /** The state setupAnswerKeyPuzzle leaves for the record's first node n. */
    ghost predicate AnswerKeyReady(n: nat)
      reads this, arena`nodes, BaseFrame()
    {
      Linked(arena.nodes) && n < |arena.nodes| && answerPath == Mainline(arena.nodes, n) &&
      answerMoves == AnswerMoves(arena.nodes, answerPath) &&
      userMoves == [] && currentNode == Some(n) && baseState.Some? &&
      var bags := PathBags(arena.nodes, PathTo(arena.nodes, n));
      var b := baseState.value;
      var r := ReplayPath(bags, b.size);
      b.size == ResolvedSize(bags, boardSize) &&
      Describes(b.board, r.grid) && b.captures == r.captures &&
      b.moveNumber == r.moveNumber && b.lastMove == r.lastMove
    }

    constructor ()
      ensures Valid() && fresh(arena) && arena.nodes == [] && arena.nextNodeId == 1
      ensures mode == None && root == None && virtualRoot == None && currentNode == None
      ensures selectedChildByNodeId == map[] && boardSize == DefaultBoardSize
      ensures answerPath == [] && answerIndex == 0 && playerColor == Black
      ensures answerMoves == [] && userMoves == [] && baseState == None
    {
      arena := new NodeArena();
      mode := None;
      root := None;
      virtualRoot := None;
      currentNode := None;
      selectedChildByNodeId := map[];
      boardSize := DefaultBoardSize;
      answerPath := [];
      answerIndex := 0;
      playerColor := Black;
      answerMoves := [];
      userMoves := [];
      baseState := None;
      baseGrid := map[];
    }

    /** goFirst: the first node of the record, when there is one. */
    method GoFirst()
      requires Valid() && virtualRoot.Some?
      modifies this`currentNode
      ensures Valid()
      ensures var children := arena.nodes[virtualRoot.value].children;
                currentNode == if children != [] then Some(children[0]) else old(currentNode)
    {
      var children := arena.nodes[virtualRoot.value].children;
      if children != [] {
        currentNode := Some(children[0]);
      }
    }

    /** goPrev: the parent, unless there is none or it is the virtual root. */
    method GoPrev()
      requires Valid()
      modifies this`currentNode
      ensures Valid()
      ensures old(currentNode).Some? && arena.nodes[old(currentNode).value].parent.Some? &&
              arena.nodes[old(currentNode).value].parent != virtualRoot ==>
                currentNode == arena.nodes[old(currentNode).value].parent
      ensures old(currentNode).None? || arena.nodes[old(currentNode).value].parent.None? ||
              arena.nodes[old(currentNode).value].parent == virtualRoot ==>
                currentNode == old(currentNode)
      ensures currentNode.Some? && currentNode != old(currentNode) ==>
                PathTo(arena.nodes, old(currentNode).value) == PathTo(arena.nodes, currentNode.value) + [old(currentNode).value]
    {
      if currentNode.None? {
        return;
      }
      var parent := arena.nodes[currentNode.value].parent;
      if parent.None? || parent == virtualRoot {
        return;
      }
      currentNode := parent;
    }

    /** goNext: the remembered child, or nothing at a node without children. */
    method GoNext()
      requires Valid() && currentNode.Some?
      modifies this`currentNode
      ensures Valid() && currentNode.Some?
      ensures arena.nodes[old(currentNode).value].children == [] ==> currentNode == old(currentNode)
      ensures arena.nodes[old(currentNode).value].children != [] ==>
                currentNode == Some(SelectedChild(arena.nodes, selectedChildByNodeId, old(currentNode).value)) &&
                arena.nodes[currentNode.value].parent == old(currentNode)
    {
      var n := currentNode.value;
      if arena.nodes[n].children == [] {
        return;
      }
      currentNode := Some(SelectedChild(arena.nodes, selectedChildByNodeId, n));
    }

    /** goLast: goNext until a node without children, at most LastGuard times. */
    method GoLast()
      requires Valid() && currentNode.Some?
      modifies this`currentNode
      ensures Valid() && currentNode.Some?
      ensures currentNode.value == Descend(arena.nodes, selectedChildByNodeId, old(currentNode).value, LastGuard)
    {
      var guard := LastGuard;
      while guard > 0 && arena.nodes[currentNode.value].children != []
        invariant Valid() && currentNode.Some?
        invariant Descend(arena.nodes, selectedChildByNodeId, currentNode.value, guard) ==
                  Descend(arena.nodes, selectedChildByNodeId, old(currentNode).value, LastGuard)
        decreases guard
      {
        guard := guard - 1;
        GoNext();
      }
    }

    /**
     * goToChildByMove: the first child whose move is at `point` becomes the
     * current node and is remembered as the parent's choice; with no such
     * child nothing changes.
     */
    method GoToChildByMove(point: Point)
      requires Valid() && currentNode.Some?
      modifies this`currentNode, this`selectedChildByNodeId
      ensures Valid()
      ensures var n := old(currentNode).value;
              var children := arena.nodes[n].children;
              match FirstChildAt(arena.nodes, children, point, 0)
              case None =>
                currentNode == old(currentNode) && selectedChildByNodeId == old(selectedChildByNodeId)
              case Some(i) =>
                currentNode == Some(children[i]) &&
                selectedChildByNodeId == old(selectedChildByNodeId)[arena.nodes[n].id := i]
    {
      var nodes := arena.nodes;
      var n := currentNode.value;
      var children := nodes[n].children;
      var found := FindChildAt(nodes, children, point);
      if found.Some? {
        selectedChildByNodeId := selectedChildByNodeId[nodes[n].id := found.value];
        currentNode := Some(children[found.value]);
      }
    }

    // -------------------------------------------------------------------
    // Responsive puzzle
    // -------------------------------------------------------------------

    /**
     * advanceResponsiveToPlayerTurn: skip the nodes that are not the
     * player's move and show the node just before the next one.
     */
    method AdvanceResponsiveToPlayerTurn()
      requires Valid()
      modifies this`answerIndex, this`currentNode
      ensures Valid()
      ensures answerIndex == NextTurn(arena.nodes, answerPath, old(answerIndex), playerColor)
      ensures currentNode == if answerPath == [] then None else Some(answerPath[Min(answerIndex, |answerPath| - 1)])
    {
      var path := answerPath;
      var index := NextTurnIndex(arena.nodes, path, answerIndex, playerColor);
      answerIndex := index;
      currentNode := if path == [] then None else if index < |path| then Some(path[index]) else Some(path[|path| - 1]);
    }

    /**
     * applyResponsiveClick: a click is ignored unless the player is to move
     * next; a click elsewhere than the expected point is wrong and changes
     * nothing; the expected point advances past the move to the player's
     * next turn, and solves the puzzle when the line is exhausted.
     */
    method ApplyResponsiveClick(point: Point) returns (fb: Feedback)
      requires Valid()
      modifies this`answerIndex, this`currentNode
      ensures Valid()
      ensures var expected := ExpectedPoint(arena.nodes, answerPath, old(answerIndex), playerColor);
                (expected.None? <==> fb == Ignored) &&
                (expected.Some? && expected.value != point <==> fb == WrongMove) &&
                (expected == Some(point) <==> fb in {Advanced, Solved})
      ensures fb in {Ignored, WrongMove} ==> answerIndex == old(answerIndex) && currentNode == old(currentNode)
      ensures fb in {Advanced, Solved} ==>
                answerIndex == NextTurn(arena.nodes, answerPath, old(answerIndex) + 1, playerColor) &&
                old(answerIndex) < answerIndex < |answerPath| && currentNode == Some(answerPath[answerIndex]) &&
                (fb == Solved <==> answerIndex + 1 >= |answerPath|)
    {
      var nodes := arena.nodes;
      var path := answerPath;
      var color := playerColor;
      var i := answerIndex;
      // no next node, or it is not the player's move with a point
      var expected := ExpectedPoint(nodes, path, i, color);
      if expected.None? {
        return Ignored;
      }
      var p := expected.value;
      if p.x != point.x || p.y != point.y {
        return WrongMove;
      }
      // one step past the move, then advanceResponsiveToPlayerTurn
      var index := NextTurnIndex(nodes, path, i + 1, color);
      NextTurnStops(nodes, path, i + 1, color);
      answerIndex := index;
      currentNode := Some(path[index]);
      fb := if index + 1 >= |path| then Solved else Advanced;
      assert arena.nodes == nodes && answerPath == path && playerColor == color;
    }

    /**
     * setupResponsivePuzzle: the main line from the record's first node is
     * the answer; the player takes the colour of its first move (Black when
     * it has none) and the puzzle starts at the player's first turn.
     */
    method SetupResponsivePuzzle()
      requires Valid() && root.Some?
      modifies this`answerPath, this`answerIndex, this`playerColor, this`currentNode
      ensures Valid()
      ensures ResponsiveReady(root.value)
    {
      var nodes := arena.nodes;
      var path, index, color := ResponsiveStart(nodes, root.value);
      answerPath := path;
      answerIndex := index;
      playerColor := color;
      currentNode := Some(path[index]);
      assert arena.nodes == nodes && answerPath == path && playerColor == color;
      assert PathOk() && CurrentOk();
    }

    // -------------------------------------------------------------------
    // Answer-key puzzle
    // -------------------------------------------------------------------

    /** The base position as the replay sees it. */
    ghost function BaseReplayed(): Replayed
      reads this
      requires baseState.Some?
    {
      var b := baseState.value;
      Replayed(baseGrid, b.captures, b.moveNumber, b.lastMove)
    }

    /**
     * rebuildAnswerAttemptBoard: a copy of the base board with the
     * attempt's moves played on it.
     */
    method RebuildAnswerAttemptBoard() returns (pos: Position)
      requires Valid() && baseState.Some?
      ensures fresh(pos.board) && Square(pos.board)
      ensures pos.size == baseState.value.size == pos.board.Length0
      ensures var r := ReplayMoves(BaseReplayed(), pos.size, userMoves);
                Describes(pos.board, r.grid) && pos.captures == r.captures && pos.lastMove == r.lastMove
      ensures pos.moveNumber == baseState.value.moveNumber + |userMoves|
      ensures pos.labels == [] && pos.marks == []
    {
      var base := baseState.value;
      var board := CloneBoard(base.board, baseGrid);
      var captures := base.captures;
      var lastMove := base.lastMove;
      ghost var r := BaseReplayed();
      for i := 0 to |userMoves|
        invariant fresh(board) && Square(board) && board.Length0 == base.size
        invariant var ri := ReplayMoves(r, base.size, userMoves[..i]);
                    Describes(board, ri.grid) && ri.captures == captures && ri.lastMove == lastMove
      {
        assert userMoves[..i + 1][..i] == userMoves[..i];
        var move := userMoves[i];
        captures := ApplyMove(board, move.color, move.point, captures, ReplayMoves(r, base.size, userMoves[..i]).grid);
        lastMove := move.point;
      }
      assert userMoves[..|userMoves|] == userMoves;
      pos := Position(board, captures, base.moveNumber + |userMoves|, lastMove, base.size, [], []);
    }

    /**
     * applyAnswerKeyClick: a click on an empty point of the attempt's board
     * adds exactly one move, of the colour answerKeyNextColor gives; a click
     * on a stone changes nothing.
     */
    method ApplyAnswerKeyClick(point: Point) returns (accepted: bool)
      requires Valid() && baseState.Some? && InBounds(point, baseState.value.size) && Encodable(point)
      modifies this`userMoves
      ensures Valid()
      ensures accepted <==> At(ReplayMoves(BaseReplayed(), baseState.value.size, old(userMoves)).grid, point) == Empty
      ensures accepted ==>
                userMoves == old(userMoves) + [Move(NextColor(answerMoves, old(userMoves)), Some(point), PointToCoord(point))]
      ensures !accepted ==> userMoves == old(userMoves)
    {
      var attempt := RebuildAnswerAttemptBoard();
      if attempt.board[point.y, point.x] != Empty {
        return false;
      }
      var move := Move(NextColor(answerMoves, userMoves), Some(point), PointToCoord(point));
      NextColorAlternates(answerMoves, userMoves, move);
      userMoves := userMoves + [move];
      accepted := true;
    }

    /** submitAnswerKey: reports whether the attempt matches the answer key, and changes nothing. */
    method SubmitAnswerKey() returns (correct: bool)
      requires Valid()
      ensures correct <==> Matches(answerMoves, userMoves)
    {
      var expected := answerMoves;
      var actual := userMoves;
      var sameLength := |expected| == |actual|;
      correct := sameLength;
      if sameLength {
        for i := 0 to |expected|
          invariant correct
          invariant forall j :: 0 <= j < i ==>
                      expected[j].color == actual[j].color && expected[j].point == actual[j].point
        {
          var e := expected[i];
          var a := actual[i];
          assert e in answerMoves && a in userMoves;
          if e.color != a.color || e.point.value.x != a.point.value.x || e.point.value.y != a.point.value.y {
            correct := false;
            break;
          }
        }
      }
    }

    /** resetAnswerKeyAttempt */
    method ResetAnswerKeyAttempt()
      requires Valid()
      modifies this`userMoves
      ensures Valid() && userMoves == []
    {
      userMoves := [];
    }

    /**
     * setupAnswerKeyPuzzle: the main line from the record's first node gives
     * the answer moves; the attempt starts empty from a saved copy of the
     * position at that node.
     */
    method SetupAnswerKeyPuzzle()
      requires Valid() && root.Some?
      modifies this`answerPath, this`answerMoves, this`userMoves, this`currentNode, this`baseState, this`baseGrid
      ensures Valid()
      ensures AnswerKeyReady(root.value) && fresh(baseState.value.board)
    {
      SetAnswerLine(root.value);
      currentNode := root;
      SaveBase(root.value);
    }

    /** The main line from n becomes the answer key and the attempt starts empty. */
    method SetAnswerLine(n: nat)
      requires Valid() && n < |arena.nodes|
      modifies this`answerPath, this`answerMoves, this`userMoves
      ensures Valid()
      ensures answerPath == Mainline(arena.nodes, n)
      ensures answerMoves == AnswerMoves(arena.nodes, answerPath) && userMoves == []
    {
      MainlineInArena(arena.nodes, n);
      var path := BuildMainlinePath(arena.nodes, n);
      var moves := ExtractAnswerMoves(arena.nodes, path);
      MovesWithPointsMembers(PathBags(arena.nodes, path)[1..]);
      answerPath := path;
      answerMoves := moves;
      userMoves := [];
    }

    /** A copy of the position at node n becomes the base of the attempt. */
    method SaveBase(n: nat)
      requires Valid() && n < |arena.nodes|
      modifies this`baseState, this`baseGrid
      ensures Valid()
      ensures baseState.Some? && fresh(baseState.value.board)
      ensures var bags := PathBags(arena.nodes, PathTo(arena.nodes, n));
              var b := baseState.value;
              var r := ReplayPath(bags, b.size);
                b.size == ResolvedSize(bags, boardSize) &&
                Describes(b.board, r.grid) && b.captures == r.captures &&
                b.moveNumber == r.moveNumber && b.lastMove == r.lastMove
    {
      var nodes := arena.nodes;
      var b := BaseOf(nodes, boardSize, n);
      baseState := Some(b);
      baseGrid := ReplayPath(PathBags(nodes, PathTo(nodes, n)), b.size).grid;
      assert arena.nodes == nodes && baseState.value == b;
    }

    // -------------------------------------------------------------------
    // Loading a record
    // -------------------------------------------------------------------

    /** The resets loadSgf makes before it parses: node ids from 1, no remembered choices, no attempt. */
    method ResetForLoad()
      requires Valid()
      modifies arena`nextNodeId, this`selectedChildByNodeId, this`userMoves
      ensures Valid()
      ensures arena.nextNodeId == 1 && selectedChildByNodeId == map[] && userMoves == []
    {
      arena.nextNodeId := 1;
      selectedChildByNodeId := map[];
      userMoves := [];
    }

    /**
     * What buildNodeTree leaves once the arena held `before` and the counter
     * stood at id0: a parentless virtual root with id 0 and no properties
     * after the old nodes, which stay as they were; the record's entries
     * after it in pre-order, numbered from id0, each hung from its parent
     * (the sequence as a chain, each child tree from the chain's end); and
     * the counter moved past them.
     */
    ghost predicate Built(tree: GameTree, before: seq<Node>, id0: nat)
      reads this, arena
    {
      var top := |before|;
      virtualRoot == Some(top) && |arena.nodes| == top + 1 + |Preorder(tree)| &&
      arena.nodes[..top] == before &&
      arena.nodes[top].id == 0 && arena.nodes[top].props == map[] && arena.nodes[top].parent == None &&
      Numbered(arena.nodes, top + 1, Preorder(tree), id0) &&
      Hung(arena.nodes, top + 1, Parents(tree, top, top + 1)) &&
      arena.nextNodeId == id0 + |Preorder(tree)|
    }

    /** buildNodeTree's result becomes the virtual root. */
    method BuildTree(tree: GameTree) returns (top: nat)
      requires Valid()
      modifies arena, this`virtualRoot
      ensures Valid()
      ensures top == old(|arena.nodes|) && Built(tree, old(arena.nodes), old(arena.nextNodeId))
    {
      top := arena.BuildNodeTree(tree);
      virtualRoot := Some(top);
    }

    /**
     * The part of loadSgf after the parse: build the node graph, fail when
     * the record has no node, otherwise start at its first node.
     */
    method LoadTree(tree: GameTree) returns (r: Result<(), LoadError>)
      requires Valid()
      modifies arena, this`virtualRoot, this`root, this`currentNode, this`answerPath, this`answerIndex,
               this`playerColor, this`answerMoves, this`userMoves, this`baseState, this`baseGrid
      ensures Valid() && Built(tree, old(arena.nodes), old(arena.nextNodeId))
      ensures r.Ok? || r == Err(NoNodes)
      ensures r == Err(NoNodes) <==> arena.nodes[virtualRoot.value].children == []
      ensures r == Err(NoNodes) ==>
                root == old(root) && currentNode == old(currentNode) && answerPath == old(answerPath) &&
                answerIndex == old(answerIndex) && playerColor == old(playerColor) &&
                answerMoves == old(answerMoves) && userMoves == old(userMoves) && baseState == old(baseState)
      ensures r.Ok? ==> root == Some(arena.nodes[virtualRoot.value].children[0])
      ensures r.Ok? && mode != Some(AnswerKey) && mode != Some(Responsive) ==>
                currentNode == root && answerPath == old(answerPath) && answerIndex == old(answerIndex) &&
                playerColor == old(playerColor) && answerMoves == old(answerMoves) &&
                userMoves == old(userMoves) && baseState == old(baseState)
      ensures r.Ok? && mode == Some(Responsive) ==>
                ResponsiveReady(root.value) && answerMoves == old(answerMoves) &&
                userMoves == old(userMoves) && baseState == old(baseState)
      ensures r.Ok? && mode == Some(AnswerKey) ==>
                AnswerKeyReady(root.value) && fresh(baseState.value.board) &&
                answerIndex == old(answerIndex) && playerColor == old(playerColor)
    {
      var top := BuildTree(tree);
      if arena.nodes[top].children == [] {
        return Err(NoNodes);
      }
      StartAt(arena.nodes[top].children[0]);
      r := Ok(());
    }

    /**
     * loadSgf once the text has arrived: reset the node ids, the remembered
     * choices and the attempt; parse; then build and start. A parse error
     * leaves everything but the resets as it was; the mode and the
     * configured board size are never touched.
     */
    method LoadText(text: string) returns (r: Result<(), LoadError>)
      requires Valid()
      modifies arena, this`virtualRoot, this`root, this`currentNode, this`selectedChildByNodeId,
               this`answerPath, this`answerIndex, this`playerColor, this`answerMoves, this`userMoves,
               this`baseState, this`baseGrid
      ensures Valid()
      ensures selectedChildByNodeId == map[]
      ensures ParsedSgf(text).Err? ==>
                r == Err(Unparsable(ParsedSgf(text).error)) &&
                arena.nodes == old(arena.nodes) && arena.nextNodeId == 1 && userMoves == [] &&
                virtualRoot == old(virtualRoot) && root == old(root) && currentNode == old(currentNode) &&
                answerPath == old(answerPath) && answerIndex == old(answerIndex) &&
                playerColor == old(playerColor) && answerMoves == old(answerMoves) && baseState == old(baseState)
      ensures ParsedSgf(text).Ok? ==>
                Built(ParsedSgf(text).value, old(arena.nodes), 1) &&
                (r == Err(NoNodes) <==> arena.nodes[virtualRoot.value].children == []) &&
                (r.Ok? || r == Err(NoNodes))
      ensures r == Err(NoNodes) ==>
                root == old(root) && currentNode == old(currentNode) && answerPath == old(answerPath) &&
                answerIndex == old(answerIndex) && playerColor == old(playerColor) &&
                answerMoves == old(answerMoves) && userMoves == [] && baseState == old(baseState)
      ensures r.Ok? ==>
                ParsedSgf(text).Ok? && virtualRoot.Some? && virtualRoot.value < |arena.nodes| &&
                arena.nodes[virtualRoot.value].children != [] &&
                root == Some(arena.nodes[virtualRoot.value].children[0])
      ensures r.Ok? && mode != Some(AnswerKey) && mode != Some(Responsive) ==>
                currentNode == root && answerPath == old(answerPath) && answerIndex == old(answerIndex) &&
                playerColor == old(playerColor) && answerMoves == old(answerMoves) &&
                userMoves == [] && baseState == old(baseState)
      ensures r.Ok? && mode == Some(Responsive) ==>
                ResponsiveReady(root.value) && answerMoves == old(answerMoves) &&
                userMoves == [] && baseState == old(baseState)
      ensures r.Ok? && mode == Some(AnswerKey) ==>
                AnswerKeyReady(root.value) && fresh(baseState.value.board) &&
                answerIndex == old(answerIndex) && playerColor == old(playerColor)
    {
      ResetForLoad();
      var tree := ParseSgf(text);
      if tree.Err? {
        return Err(Unparsable(tree.error));
      }
      r := LoadTree(tree.value);
    }

    /** The record's first node becomes the root and the current node. */
    method EnterRoot(n: nat)
      requires Valid() && n < |arena.nodes|
      modifies this`root, this`currentNode
      ensures Valid() && root == Some(n) && currentNode == root
    {
      root := Some(n);
      currentNode := root;
    }

    /** The puzzle the mode asks for, set up from the root; outside the puzzle modes nothing changes. */
    method SetupForMode()
      requires Valid() && root.Some?
      modifies this`currentNode, this`answerPath, this`answerIndex, this`playerColor,
               this`answerMoves, this`userMoves, this`baseState, this`baseGrid
      ensures Valid()
      ensures mode != Some(AnswerKey) && mode != Some(Responsive) ==>
                currentNode == old(currentNode) && answerPath == old(answerPath) && answerIndex == old(answerIndex) &&
                playerColor == old(playerColor) && answerMoves == old(answerMoves) &&
                userMoves == old(userMoves) && baseState == old(baseState)
      ensures mode == Some(Responsive) ==>
                ResponsiveReady(root.value) && answerMoves == old(answerMoves) &&
                userMoves == old(userMoves) && baseState == old(baseState)
      ensures mode == Some(AnswerKey) ==>
                AnswerKeyReady(root.value) && fresh(baseState.value.board) &&
                answerIndex == old(answerIndex) && playerColor == old(playerColor)
    {
      if mode == Some(Responsive) {
        SetupResponsivePuzzle();
      } else if mode == Some(AnswerKey) {
        SetupAnswerKeyPuzzle();
      }
    }

    /** The record's first node becomes the root and the current node; the mode's puzzle is set up from it. */
    method StartAt(n: nat)
      requires Valid() && n < |arena.nodes|
      modifies this`root, this`currentNode, this`answerPath, this`answerIndex, this`playerColor,
               this`answerMoves, this`userMoves, this`baseState, this`baseGrid
      ensures Valid() && root == Some(n)
      ensures mode != Some(AnswerKey) && mode != Some(Responsive) ==>
                currentNode == root && answerPath == old(answerPath) && answerIndex == old(answerIndex) &&
                playerColor == old(playerColor) && answerMoves == old(answerMoves) &&
                userMoves == old(userMoves) && baseState == old(baseState)
      ensures mode == Some(Responsive) ==>
                ResponsiveReady(n) && answerMoves == old(answerMoves) &&
                userMoves == old(userMoves) && baseState == old(baseState)
      ensures mode == Some(AnswerKey) ==>
                AnswerKeyReady(n) && fresh(baseState.value.board) &&
                answerIndex == old(answerIndex) && playerColor == old(playerColor)
    {
      EnterRoot(n);
      SetupForMode();
    }
  }
}

/**
 * Rebuilding the position at a node by replaying the path from the root
 * (boardStateForNode, app.js:468-523), and reading the labels and marks a
 * node carries (parseLabels and parseMarks, app.js:430-454).
 */
module Replay {
  import opened Wrappers
  import opened Coords
  import opened Sgf
  import opened NodeTree
  import opened GoRules
  import opened PuzzleIndex
  import opened ParseInt

  // ---------------------------------------------------------------------
  // The board size
  // ---------------------------------------------------------------------

  /**
   * The size an SZ property sets: its first value, when parseInt reads from
   * it an integer above 1 (a digit run too long for a double reads as
   * Infinity, which Number.isInteger rejects).
   */
  function SizeOf(props: PropertyBag): (r: Option<nat>)
    ensures r.Some? ==> 1 < r.value < InfinityFrom
    ensures r.Some? <==> |Lookup(props, "SZ")| > 0 && Lookup(props, "SZ")[0] != "" &&
                         ParseIntPrefix(Lookup(props, "SZ")[0]).Some? &&
                         ParseIntPrefix(Lookup(props, "SZ")[0]).value > 1 &&
                         Finite(ParseIntPrefix(Lookup(props, "SZ")[0]).value)
    ensures r.Some? ==> r.value == ParseIntPrefix(Lookup(props, "SZ")[0]).value
  {
    var sz := Lookup(props, "SZ");
    if |sz| > 0 && sz[0] != "" then
      match ParseIntPrefix(sz[0])
      case Some(v) => if v > 1 && Finite(v) then Some(v) else None
      case None => None
    else None
  }

  /** Every SZ value from 2 to 2^53, where a double is exact, sets the size. */
  lemma ExactSizesKept(props: PropertyBag, v: int)
    requires |Lookup(props, "SZ")| > 0 && Lookup(props, "SZ")[0] != ""
    requires ParseIntPrefix(Lookup(props, "SZ")[0]) == Some(v) && 1 < v <= ExactLimit
    ensures SizeOf(props) == Some(v)
  {
  }

  /** The size after the path's SZ properties have been read in order. */
  function ResolvedSize(bags: seq<PropertyBag>, configured: nat): nat {
    if bags == [] then configured
    else
      match SizeOf(bags[|bags| - 1])
      case Some(v) => v
      case None => ResolvedSize(bags[..|bags| - 1], configured)
  }

  /** With no usable SZ property on the path, the configured size is used. */
  lemma {:induction false} ResolvedSizeDefault(bags: seq<PropertyBag>, configured: nat)
    requires forall k :: 0 <= k < |bags| ==> SizeOf(bags[k]).None?
    ensures ResolvedSize(bags, configured) == configured
  {
    if bags != [] {
      var init := bags[..|bags| - 1];
      assert forall k :: 0 <= k < |init| ==> init[k] == bags[k];
      ResolvedSizeDefault(init, configured);
    }
  }

  /** Otherwise the size is that of the last node on the path with a usable SZ property. */
  lemma {:induction false} ResolvedSizeIsLast(bags: seq<PropertyBag>, configured: nat, k: nat)
    requires k < |bags| && SizeOf(bags[k]).Some?
    requires forall j :: k < j < |bags| ==> SizeOf(bags[j]).None?
    ensures ResolvedSize(bags, configured) == SizeOf(bags[k]).value
  {
    if k < |bags| - 1 {
      var init := bags[..|bags| - 1];
      assert forall j :: 0 <= j < |init| ==> init[j] == bags[j];
      ResolvedSizeIsLast(init, configured, k);
    }
  }

  /** The first loop of boardStateForNode. */
  method ResolveSize(bags: seq<PropertyBag>, configured: nat) returns (size: nat)
    ensures size == ResolvedSize(bags, configured)
  {
    size := configured;
    for i := 0 to |bags|
      invariant size == ResolvedSize(bags[..i], configured)
    {
      assert bags[..i + 1][..i] == bags[..i];
      var parsed := SizeOf(bags[i]);
      if parsed.Some? {
        size := parsed.value;
      }
    }
    assert bags[..|bags|] == bags;
  }

  // ---------------------------------------------------------------------
  // Setup properties
  // ---------------------------------------------------------------------

  /** The point a setup coordinate names, when it lies on a board of the given size. */
  function SetupPoint(coord: string, size: nat): (r: Option<Point>)
    ensures r.Some? ==> InBounds(r.value, size) && CoordToPoint(coord) == r
    ensures r.None? ==> CoordToPoint(coord).None? || !InBounds(CoordToPoint(coord).value, size)
  {
    var p := CoordToPoint(coord);
    if p.Some? && p.value.x < size && p.value.y < size then p else None
  }

  /** The grid after an AB, AW or AE list has been applied in order. */
  ghost function Setup(g: Grid, size: nat, coords: seq<string>, cell: Cell): Grid {
    if coords == [] then g
    else
      var h := Setup(g, size, coords[..|coords| - 1], cell);
      match SetupPoint(coords[|coords| - 1], size)
      case Some(p) => h[p := cell]
      case None => h
  }

  /**
   * A setup list gives `cell` to exactly the on-board points it names; every
   * other point, including any point named off the board, is left as it was.
   */
  lemma {:induction false} SetupAt(g: Grid, size: nat, coords: seq<string>, cell: Cell, q: Point)
    ensures At(Setup(g, size, coords, cell), q) ==
              if InBounds(q, size) && exists c :: c in coords && CoordToPoint(c) == Some(q) then cell else At(g, q)
  {
    if coords != [] {
      var init := coords[..|coords| - 1];
      var last := coords[|coords| - 1];
      SetupAt(g, size, init, cell, q);
      assert forall c :: c in coords <==> c in init || c == last;
    }
  }

  /** One setup loop of boardStateForNode. */
  method SetStones(board: array2<Cell>, coords: seq<string>, cell: Cell, ghost g: Grid)
    requires Square(board) && Describes(board, g)
    modifies board
    ensures Describes(board, Setup(g, board.Length0, coords, cell))
  {
    var size := board.Length0;
    for i := 0 to |coords|
      invariant Describes(board, Setup(g, size, coords[..i], cell))
    {
      assert coords[..i + 1][..i] == coords[..i];
      ghost var before := Setup(g, size, coords[..i], cell);
      var p := SetupPoint(coords[i], size);
      if p.Some? {
        var q := p.value;
        board[q.y, q.x] := cell;
        ghost var after := before[q := cell];
        forall r | InBounds(r, size) && r.x < board.Length1
          ensures board[r.y, r.x] == At(after, r)
        {
          if r != q {
            assert At(after, r) == At(before, r);
          }
        }
      }
    }
    assert coords[..|coords|] == coords;
  }

  // ---------------------------------------------------------------------
  // Replaying the path
  // ---------------------------------------------------------------------

  /** What replaying a path accumulates besides the board. */
  datatype Replayed = Replayed(grid: Grid, captures: Captures, moveNumber: nat, lastMove: Option<Point>)

  /** The setup edits of one node: black stones, then white stones, then cleared points. */
  ghost function SetupNode(g: Grid, size: nat, props: PropertyBag): Grid {
    var black := Setup(g, size, Lookup(props, "AB"), Stone(Black));
    var white := Setup(black, size, Lookup(props, "AW"), Stone(White));
    Setup(white, size, Lookup(props, "AE"), Empty)
  }

  /** A move played on the replayed position: applyMove, the move count and the last move. */
  ghost function PlayMove(r: Replayed, size: nat, m: Move): Replayed {
    var played := Play(r.grid, size, m.color, m.point);
    Replayed(played.grid, Credit(r.captures, m.color, played.removed), r.moveNumber + 1, m.point)
  }

  /** One node of the replay: its setup edits, then its move if it records one. */
  ghost function ReplayNode(r: Replayed, size: nat, props: PropertyBag): Replayed {
    var g := SetupNode(r.grid, size, props);
    match GetNodeMove(props)
    case None => r.(grid := g)
    case Some(m) => PlayMove(r.(grid := g), size, m)
  }

  /** The replay of a path from an empty board. */
  ghost function ReplayPath(bags: seq<PropertyBag>, size: nat): Replayed {
    if bags == [] then Replayed(map[], Captures(0, 0), 0, None)
    else ReplayNode(ReplayPath(bags[..|bags| - 1], size), size, bags[|bags| - 1])
  }

  /** A node counts as a move when it has a non-empty B or W list; a pass counts. */
  predicate HasMove(props: PropertyBag) {
    |Lookup(props, "B")| > 0 || |Lookup(props, "W")| > 0
  }

  /** The positions on the path of the nodes that record a move. */
  ghost function MoveNodes(bags: seq<PropertyBag>): set<nat> {
    set k: nat | k < |bags| && HasMove(bags[k])
  }

  lemma MoveNodesStep(bags: seq<PropertyBag>)
    requires bags != []
    ensures MoveNodes(bags) == MoveNodes(bags[..|bags| - 1]) + (if HasMove(bags[|bags| - 1]) then {|bags| - 1} else {})
  {
    var init := bags[..|bags| - 1];
    assert forall k :: 0 <= k < |init| ==> init[k] == bags[k];
  }

  /** The move number is the count of nodes on the path that record a move, passes included. */
  lemma {:induction false} ReplayCountsMoves(bags: seq<PropertyBag>, size: nat)
    ensures ReplayPath(bags, size).moveNumber == |MoveNodes(bags)|
  {
    if bags != [] {
      ReplayCountsMoves(bags[..|bags| - 1], size);
      MoveNodesStep(bags);
    }
  }

  /** With no node recording a move there is no last move. */
  lemma {:induction false} ReplayNoLastMove(bags: seq<PropertyBag>, size: nat)
    requires forall k :: 0 <= k < |bags| ==> !HasMove(bags[k])
    ensures ReplayPath(bags, size).lastMove == None
  {
    if bags != [] {
      var init := bags[..|bags| - 1];
      assert forall k :: 0 <= k < |init| ==> init[k] == bags[k];
      ReplayNoLastMove(init, size);
    }
  }

  /**
   * The last move is the point of the last node on the path that records a
   * move: none when that move is a pass or its coordinate names no point.
   */
  lemma {:induction false} ReplayLastMove(bags: seq<PropertyBag>, size: nat, k: nat)
    requires k < |bags| && HasMove(bags[k])
    requires forall j :: k < j < |bags| ==> !HasMove(bags[j])
    ensures ReplayPath(bags, size).lastMove == GetNodeMove(bags[k]).value.point
  {
    if k < |bags| - 1 {
      var init := bags[..|bags| - 1];
      assert forall j :: 0 <= j < |init| ==> init[j] == bags[j];
      ReplayLastMove(init, size, k);
    }
  }

  // ---------------------------------------------------------------------
  // Labels and marks
  // ---------------------------------------------------------------------

  /** A text label drawn at a point. */
  datatype Label = Label(point: Point, text: string)

  /** The four mark properties, in the order they are read. */
  datatype MarkKind = Cross | Triangle | SquareMark | Circle

  /** A mark drawn at a point. */
  datatype Mark = Mark(point: Point, kind: MarkKind)

  function MarkIdent(kind: MarkKind): string {
    match kind
    case Cross => "MA"
    case Triangle => "TR"
    case SquareMark => "SQ"
    case Circle => "CR"
  }

  /** The index of the first ':' in s, or |s| when there is none. */
  function ColonIndex(s: string): (i: nat)
    ensures i <= |s| && (i < |s| ==> s[i] == ':')
    ensures forall k :: 0 <= k < i ==> s[k] != ':'
  {
    if s == [] || s[0] == ':' then 0 else 1 + ColonIndex(s[1..])
  }

  /**
   * One LB value: split at the colons, the first piece is the coordinate and
   * the second the text; a label needs a point and a non-empty text.
   */
  function LabelOf(raw: string): (r: Option<Label>)
    ensures r.Some? ==> r.value.text != [] && ':' !in r.value.text
  {
    var i := ColonIndex(raw);
    if i == |raw| then None
    else
      var rest := raw[i + 1..];
      var text := rest[..ColonIndex(rest)];
      match CoordToPoint(raw[..i])
      case Some(p) => if text != [] then Some(Label(p, text)) else None
      case None => None
  }

  /** A coordinate and a text joined by a colon read back as that label. */
  lemma LabelRoundTrip(coord: string, text: string, more: string)
    requires ':' !in coord && ':' !in text && text != []
    requires CoordToPoint(coord).Some?
    requires more == [] || more[0] == ':'
    ensures LabelOf(coord + [':'] + text + more) == Some(Label(CoordToPoint(coord).value, text))
  {
    var raw := coord + [':'] + text + more;
    assert raw[|coord|] == ':';
    forall k | 0 <= k < |coord|
      ensures raw[k] != ':'
    {
      assert raw[k] == coord[k] && coord[k] in coord;
    }
    var i := ColonIndex(raw);
    assert i == |coord|;
    assert raw[..i] == coord;
    var rest := raw[i + 1..];
    assert rest == text + more;
    forall k | 0 <= k < |text|
      ensures rest[k] != ':'
    {
      assert rest[k] == text[k] && text[k] in text;
    }
    assert |text| < |rest| ==> rest[|text|] == ':';
    var j := ColonIndex(rest);
    assert j == |text|;
    assert rest[..j] == text;
  }

  /** The labels of a list of LB values, in order, skipping values that give none. */
  function LabelsOf(raws: seq<string>): seq<Label> {
    if raws == [] then []
    else
      var init := LabelsOf(raws[..|raws| - 1]);
      match LabelOf(raws[|raws| - 1])
      case Some(l) => init + [l]
      case None => init
  }

  /** Every label comes from one of the values, and every value that gives a label contributes it. */
  lemma {:induction false} LabelsOfMembers(raws: seq<string>)
    ensures forall l :: l in LabelsOf(raws) <==> exists raw :: raw in raws && LabelOf(raw) == Some(l)
  {
    if raws != [] {
      var init := raws[..|raws| - 1];
      LabelsOfMembers(init);
      assert forall raw :: raw in raws <==> raw in init || raw == raws[|raws| - 1];
    }
  }

  /** parseLabels. */
  method ParseLabels(props: PropertyBag) returns (labels: seq<Label>)
    ensures labels == LabelsOf(Lookup(props, "LB"))
  {
    var raws := Lookup(props, "LB");
    labels := [];
    for i := 0 to |raws|
      invariant labels == LabelsOf(raws[..i])
    {
      assert raws[..i + 1][..i] == raws[..i];
      var l := LabelOf(raws[i]);
      if l.Some? {
        labels := labels + [l.value];
      }
    }
    assert raws[..|raws|] == raws;
  }

  /** The marks of one mark property, in order, skipping coordinates without a point. */
  function MarksFor(coords: seq<string>, kind: MarkKind): seq<Mark> {
    if coords == [] then []
    else
      var init := MarksFor(coords[..|coords| - 1], kind);
      match CoordToPoint(coords[|coords| - 1])
      case Some(p) => init + [Mark(p, kind)]
      case None => init
  }

  /** The marks of the kinds listed, kind after kind. */
  function MarksOfKinds(props: PropertyBag, kinds: seq<MarkKind>): seq<Mark> {
    if kinds == [] then []
    else MarksOfKinds(props, kinds[..|kinds| - 1]) + MarksFor(Lookup(props, MarkIdent(kinds[|kinds| - 1])), kinds[|kinds| - 1])
  }

  const MarkOrder: seq<MarkKind> := [Cross, Triangle, SquareMark, Circle]

  lemma {:induction false} MarksForMembers(coords: seq<string>, kind: MarkKind)
    ensures forall m :: m in MarksFor(coords, kind) <==>
              m.kind == kind && exists c :: c in coords && CoordToPoint(c) == Some(m.point)
  {
    if coords != [] {
      var init := coords[..|coords| - 1];
      MarksForMembers(init, kind);
      assert forall c :: c in coords <==> c in init || c == coords[|coords| - 1];
    }
  }

  lemma MarkOrderUnfolds(props: PropertyBag)
    ensures MarksOfKinds(props, MarkOrder) ==
              MarksFor(Lookup(props, "MA"), Cross) + MarksFor(Lookup(props, "TR"), Triangle) +
              MarksFor(Lookup(props, "SQ"), SquareMark) + MarksFor(Lookup(props, "CR"), Circle)
  {
    var o := MarkOrder;
    var ma := MarksFor(Lookup(props, "MA"), Cross);
    var tr := MarksFor(Lookup(props, "TR"), Triangle);
    var sq := MarksFor(Lookup(props, "SQ"), SquareMark);
    assert MarksOfKinds(props, o[..1]) == ma by {
      assert o[..1][..0] == [];
    }
    assert MarksOfKinds(props, o[..2]) == ma + tr by {
      assert o[..2][..1] == o[..1];
    }
    assert MarksOfKinds(props, o[..3]) == ma + tr + sq by {
      assert o[..3][..2] == o[..2];
    }
    assert o[..|o| - 1] == o[..3];
  }

  /**
   * A node has a mark of a kind at a point exactly when that kind's property
   * holds a coordinate of the point.
   */
  lemma MarksMembers(props: PropertyBag, m: Mark)
    ensures m in MarksOfKinds(props, MarkOrder) <==>
              exists c :: c in Lookup(props, MarkIdent(m.kind)) && CoordToPoint(c) == Some(m.point)
  {
    MarkOrderUnfolds(props);
    MarksForMembers(Lookup(props, "MA"), Cross);
    MarksForMembers(Lookup(props, "TR"), Triangle);
    MarksForMembers(Lookup(props, "SQ"), SquareMark);
    MarksForMembers(Lookup(props, "CR"), Circle);
  }

  /** The inner loop of parseMarks: the marks of one property, appended in order. */
  method AppendMarks(marks: seq<Mark>, coords: seq<string>, kind: MarkKind) returns (marks': seq<Mark>)
    ensures marks' == marks + MarksFor(coords, kind)
  {
    marks' := marks;
    for k := 0 to |coords|
      invariant marks' == marks + MarksFor(coords[..k], kind)
    {
      assert coords[..k + 1][..k] == coords[..k];
      var p := CoordToPoint(coords[k]);
      if p.Some? {
        marks' := marks' + [Mark(p.value, kind)];
      }
    }
    assert coords[..|coords|] == coords;
  }

  /** parseMarks. */
  method ParseMarks(props: PropertyBag) returns (marks: seq<Mark>)
    ensures marks == MarksOfKinds(props, MarkOrder)
  {
    marks := [];
    for t := 0 to |MarkOrder|
      invariant marks == MarksOfKinds(props, MarkOrder[..t])
    {
      var kind := MarkOrder[t];
      assert MarkOrder[..t + 1][..t] == MarkOrder[..t];
      marks := AppendMarks(marks, Lookup(props, MarkIdent(kind)), kind);
    }
    assert MarkOrder[..|MarkOrder|] == MarkOrder;
  }

  // ---------------------------------------------------------------------
  // boardStateForNode
  // ---------------------------------------------------------------------

  /** The property bags of the nodes on a path. */
  function PathBags(nodes: seq<Node>, path: seq<nat>): (bags: seq<PropertyBag>)
    ensures |bags| == |path|
    ensures forall k :: 0 <= k < |path| && path[k] < |nodes| ==> bags[k] == nodes[path[k]].props
  {
    seq(|path|, k requires 0 <= k < |path| => if path[k] < |nodes| then nodes[path[k]].props else map[])
  }

  /** Everything boardStateForNode returns. */
  datatype Position = Position(
    board: array2<Cell>,
    captures: Captures,
    moveNumber: nat,
    lastMove: Option<Point>,
    size: nat,
    labels: seq<Label>,
    marks: seq<Mark>)

  /** The body of the replay loop for one node. */
  method ReplayStep(board: array2<Cell>, props: PropertyBag, captures: Captures, moveNumber: nat,
                    lastMove: Option<Point>, ghost r: Replayed)
    returns (captures': Captures, moveNumber': nat, lastMove': Option<Point>)
    requires Square(board) && Describes(board, r.grid)
    requires r.captures == captures && r.moveNumber == moveNumber && r.lastMove == lastMove
    modifies board
    ensures Describes(board, ReplayNode(r, board.Length0, props).grid)
    ensures ReplayNode(r, board.Length0, props) ==
              Replayed(ReplayNode(r, board.Length0, props).grid, captures', moveNumber', lastMove')
  {
    var size := board.Length0;
    SetStones(board, Lookup(props, "AB"), Stone(Black), r.grid);
    ghost var black := Setup(r.grid, size, Lookup(props, "AB"), Stone(Black));
    SetStones(board, Lookup(props, "AW"), Stone(White), black);
    ghost var white := Setup(black, size, Lookup(props, "AW"), Stone(White));
    SetStones(board, Lookup(props, "AE"), Empty, white);
    ghost var g := Setup(white, size, Lookup(props, "AE"), Empty);
    captures', moveNumber', lastMove' := captures, moveNumber, lastMove;
    var move := GetNodeMove(props);
    if move.Some? {
      moveNumber' := moveNumber + 1;
      captures' := ApplyMove(board, move.value.color, move.value.point, captures, g);
      lastMove' := move.value.point;
    }
  }

  /**
   * boardStateForNode: the position at `node`, replayed on a fresh board
   * along the path from the root, with the labels and marks of `node` itself.
   */
  method BoardStateForNode(nodes: seq<Node>, configured: nat, node: nat) returns (pos: Position)
    requires Linked(nodes) && node < |nodes|
    ensures fresh(pos.board) && Square(pos.board) && pos.board.Length0 == pos.size
    ensures pos.size == ResolvedSize(PathBags(nodes, PathTo(nodes, node)), configured)
    ensures var r := ReplayPath(PathBags(nodes, PathTo(nodes, node)), pos.size);
              Describes(pos.board, r.grid) && pos.captures == r.captures &&
              pos.moveNumber == r.moveNumber && pos.lastMove == r.lastMove
    ensures pos.labels == LabelsOf(Lookup(nodes[node].props, "LB"))
    ensures pos.marks == MarksOfKinds(nodes[node].props, MarkOrder)
  {
    var path := GetPathTo(nodes, node);
    var bags := PathBags(nodes, path);
    var size := ResolveSize(bags, configured);
    var board := NewBoard(size);
    var captures := Captures(0, 0);
    var moveNumber := 0;
    var lastMove := None;
    for i := 0 to |bags|
      invariant fresh(board) && Square(board) && board.Length0 == size
      invariant var r := ReplayPath(bags[..i], size);
                  Describes(board, r.grid) && r.captures == captures &&
                  r.moveNumber == moveNumber && r.lastMove == lastMove
    {
      assert bags[..i + 1][..i] == bags[..i];
      captures, moveNumber, lastMove :=
        ReplayStep(board, bags[i], captures, moveNumber, lastMove, ReplayPath(bags[..i], size));
    }
    assert bags[..|bags|] == bags;
    var labels := ParseLabels(nodes[node].props);
    var marks := ParseMarks(nodes[node].props);
    pos := Position(board, captures, moveNumber, lastMove, size, labels, marks);
  }
}

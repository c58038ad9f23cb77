/**
 * The board engine (app.js:326-417): boards, neighbours, flood-fill group and
 * liberty analysis, capture and self-capture.
 *
 * A board is a square `array2<Cell>` indexed [y, x], as the source's array of
 * rows is. Its contents as a value is a Grid, a map from the points of the
 * board to cells; the rules of play are stated on grids and the imperative
 * operations are proved against them.
 */
module GoRules {
  import opened Wrappers
  import opened Coords

  /** A board position as a value; a point outside the map reads as empty. */
  type Grid = map<Point, Cell>

  function At(g: Grid, p: Point): Cell {
    if p in g then g[p] else Empty
  }

  /** The stone tally of both players, the source's `captures` record. */
  datatype Captures = Captures(black: nat, white: nat)

  function CapturesOf(captures: Captures, color: Color): nat {
    if color == Black then captures.black else captures.white
  }

  /** `captures[color] += amount`. */
  function Credit(captures: Captures, color: Color, amount: nat): (r: Captures)
    ensures CapturesOf(r, color) == CapturesOf(captures, color) + amount
    ensures CapturesOf(r, Opponent(color)) == CapturesOf(captures, Opponent(color))
  {
    if color == Black then captures.(black := captures.black + amount)
    else captures.(white := captures.white + amount)
  }

  predicate Square(board: array2<Cell>) {
    board.Length0 == board.Length1
  }

  predicate Distinct(s: seq<Point>) {
    forall i, j :: 0 <= i < j < |s| ==> s[i] != s[j]
  }

  function Elements(s: seq<Point>): set<Point> {
    set x | x in s
  }

  /** The points of a size-by-size board. */
  ghost function Points(size: nat): set<Point> {
    set x, y | 0 <= x < size && 0 <= y < size :: Pt(x, y)
  }

  lemma InPoints(p: Point, size: nat)
    ensures p in Points(size) <==> InBounds(p, size)
  {
    if InBounds(p, size) {
      assert p == Pt(p.x, p.y);
    }
  }

  /** The contents of a board. */
  ghost function GridOf(board: array2<Cell>): Grid
    requires Square(board)
    reads board
  {
    map x, y | 0 <= x < board.Length1 && 0 <= y < board.Length0 :: Pt(x, y) := board[y, x]
  }

  lemma GridAt(board: array2<Cell>, p: Point)
    requires Square(board)
    ensures At(GridOf(board), p) == if InBounds(p, board.Length0) then board[p.y, p.x] else Empty
  {
    if InBounds(p, board.Length0) {
      assert p == Pt(p.x, p.y);
      assert p in GridOf(board);
    }
  }

  /** g holds the cells of the board. */
  ghost predicate Describes(board: array2<Cell>, g: Grid)
    reads board
  {
    forall p {:trigger At(g, p)} :: InBounds(p, board.Length0) && p.x < board.Length1 ==> board[p.y, p.x] == At(g, p)
  }

  lemma GridDescribes(board: array2<Cell>)
    requires Square(board)
    ensures Describes(board, GridOf(board))
  {
    forall p | InBounds(p, board.Length0)
      ensures board[p.y, p.x] == At(GridOf(board), p)
    {
      GridAt(board, p);
    }
  }

  /** Two boards of one size with the same cells have the same contents. */
  lemma GridExt(g: Grid, h: Grid, size: nat)
    requires g.Keys == Points(size) && h.Keys == Points(size)
    requires forall p :: InBounds(p, size) ==> At(g, p) == At(h, p)
    ensures g == h
  {
    forall p | p in g
      ensures g[p] == h[p]
    {
      InPoints(p, size);
      assert At(g, p) == At(h, p);
    }
  }

  lemma GridKeys(board: array2<Cell>)
    requires Square(board)
    ensures GridOf(board).Keys == Points(board.Length0)
  {
    forall p | p in Points(board.Length0)
      ensures p in GridOf(board)
    {
      InPoints(p, board.Length0);
      assert p == Pt(p.x, p.y);
    }
  }

  /** The board contents, read cell by cell. */
  lemma GridOfCells(board: array2<Cell>, g: Grid)
    requires Square(board) && g.Keys == Points(board.Length0)
    requires forall p :: InBounds(p, board.Length0) ==> board[p.y, p.x] == At(g, p)
    ensures GridOf(board) == g
  {
    GridKeys(board);
    forall p | InBounds(p, board.Length0)
      ensures At(GridOf(board), p) == At(g, p)
    {
      GridAt(board, p);
    }
    GridExt(GridOf(board), g, board.Length0);
  }

  // ---------------------------------------------------------------------
  // Neighbours, groups and liberties
  // ---------------------------------------------------------------------

  predicate Adjacent(p: Point, q: Point) {
    (p.y == q.y && (q.x == p.x - 1 || q.x == p.x + 1)) ||
    (p.x == q.x && (q.y == p.y - 1 || q.y == p.y + 1))
  }

  /** neighbors: left, right, up, down, each only when it is on the board. */
  function Neighbors(p: Point, size: int): (r: seq<Point>)
    ensures |r| <= 4 && Distinct(r)
    ensures InBounds(p, size) ==> forall q {:trigger q in r} :: q in r <==> InBounds(q, size) && Adjacent(p, q)
  {
    (if p.x > 0 then [Pt(p.x - 1, p.y)] else []) +
    (if p.x < size - 1 then [Pt(p.x + 1, p.y)] else []) +
    (if p.y > 0 then [Pt(p.x, p.y - 1)] else []) +
    (if p.y < size - 1 then [Pt(p.x, p.y + 1)] else [])
  }

  /** Adjacency on the board is symmetric. */
  lemma NeighborsSymmetric(p: Point, q: Point, size: int)
    requires InBounds(p, size) && InBounds(q, size)
    ensures q in Neighbors(p, size) <==> p in Neighbors(q, size)
  {
  }

  /** Every same-coloured neighbour of a point of s is in s. */
  ghost predicate Closed(g: Grid, size: nat, s: set<Point>, c: Color) {
    forall p, n {:trigger n in Neighbors(p, size), p in s} ::
      p in s && n in Neighbors(p, size) && At(g, n) == Stone(c) ==> n in s
  }

  /**
   * q belongs to the group of the stone at start: it lies in every set that
   * holds start and is closed under same-coloured neighbours.
   */
  ghost predicate InGroup(g: Grid, size: nat, start: Point, q: Point) {
    At(g, start).Stone? &&
    forall s {:trigger Closed(g, size, s, At(g, start).color)} ::
      start in s && Closed(g, size, s, At(g, start).color) ==> q in s
  }

  /** The chain of stones connected to start; empty when start is empty. */
  ghost function GroupOf(g: Grid, size: nat, start: Point): set<Point> {
    set q | q in Points(size) && InGroup(g, size, start, q)
  }

  /** The empty points next to some point of s. */
  ghost function Liberties(g: Grid, size: nat, s: set<Point>): set<Point> {
    set p, n | p in s && n in Neighbors(p, size) && At(g, n) == Empty :: n
  }

  /** The points among xs that hold `cell`, gathered from the front. */
  ghost function Among(g: Grid, xs: seq<Point>, cell: Cell): set<Point> {
    if xs == [] then {}
    else Among(g, xs[..|xs| - 1], cell) + (if At(g, xs[|xs| - 1]) == cell then {xs[|xs| - 1]} else {})
  }

  lemma AmongMembers(g: Grid, xs: seq<Point>, cell: Cell)
    ensures forall n {:trigger n in Among(g, xs, cell)} :: n in Among(g, xs, cell) <==> n in xs && At(g, n) == cell
  {
    if xs != [] {
      AmongMembers(g, xs[..|xs| - 1], cell);
      assert xs == xs[..|xs| - 1] + [xs[|xs| - 1]];
    }
  }

  lemma AmongStep(g: Grid, xs: seq<Point>, k: nat, cell: Cell)
    requires k < |xs|
    ensures At(g, xs[k]) == cell ==> Among(g, xs[..k + 1], cell) == Among(g, xs[..k], cell) + {xs[k]}
    ensures At(g, xs[k]) != cell ==> Among(g, xs[..k + 1], cell) == Among(g, xs[..k], cell)
  {
    assert xs[..k + 1][..k] == xs[..k];
  }

  lemma LibertiesAdd(g: Grid, size: nat, s: set<Point>, p: Point)
    ensures Liberties(g, size, s + {p}) == Liberties(g, size, s) + Among(g, Neighbors(p, size), Empty)
  {
    AmongMembers(g, Neighbors(p, size), Empty);
  }

  /** Every stone of a group has the colour of its start, and lies on the board. */
  lemma GroupSound(g: Grid, size: nat, start: Point, q: Point)
    requires InBounds(start, size) && InGroup(g, size, start, q)
    ensures InBounds(q, size) && At(g, q) == At(g, start)
  {
    var c := At(g, start).color;
    var s := set r | r in Points(size) && At(g, r) == Stone(c);
    InPoints(start, size);
    forall p, n | p in s && n in Neighbors(p, size) && At(g, n) == Stone(c)
      ensures n in s
    {
      InPoints(p, size);
      InPoints(n, size);
    }
    assert Closed(g, size, s, c);
    InPoints(q, size);
  }

  /** The start of a group is one of its stones. */
  lemma GroupHasStart(g: Grid, size: nat, start: Point)
    requires InBounds(start, size) && At(g, start).Stone?
    ensures start in GroupOf(g, size, start)
  {
    InPoints(start, size);
  }

  lemma GroupInBounds(g: Grid, size: nat, start: Point, p: Point)
    requires p in GroupOf(g, size, start)
    ensures InBounds(p, size)
  {
    InPoints(p, size);
  }

  /** A same-coloured neighbour of a stone of the group belongs to the group. */
  lemma GroupGrows(g: Grid, size: nat, start: Point, p: Point, n: Point)
    requires p in GroupOf(g, size, start) && n in Neighbors(p, size) && InBounds(n, size)
    requires At(g, n) == At(g, start)
    ensures n in GroupOf(g, size, start)
  {
    InPoints(n, size);
  }

  /** A closed set of stones that holds start and lies within its group is the whole group. */
  lemma GroupIsLeastClosed(g: Grid, size: nat, start: Point, c: Color, seen: set<Point>)
    requires At(g, start) == Stone(c) && start in seen && seen <= GroupOf(g, size, start)
    requires Closed(g, size, seen, c)
    ensures GroupOf(g, size, start) == seen
  {
  }

  lemma DistinctCard(s: seq<Point>)
    requires Distinct(s)
    ensures |Elements(s)| == |s|
  {
    if s != [] {
      var t := s[..|s| - 1];
      DistinctCard(t);
      assert Elements(s) == Elements(t) + {s[|s| - 1]};
    }
  }

  /** Pushing a point not yet on a duplicate-free stack keeps it duplicate-free. */
  lemma PushDistinct(s: seq<Point>, x: Point)
    requires Distinct(s) && x !in Elements(s)
    ensures Distinct(s + [x]) && Elements(s + [x]) == Elements(s) + {x}
  {
  }

  /** Popping the top of a duplicate-free stack removes exactly that point. */
  lemma PopDistinct(s: seq<Point>)
    requires Distinct(s) && s != []
    ensures Distinct(s[..|s| - 1])
    ensures Elements(s) == Elements(s[..|s| - 1]) + {s[|s| - 1]}
    ensures s[|s| - 1] !in Elements(s[..|s| - 1])
  {
    assert s == s[..|s| - 1] + [s[|s| - 1]];
  }

  /**
   * The inner loop of collectGroup, for the stone p just popped: each
   * on-board neighbour that is empty joins the liberties; each one of the
   * group's colour not seen before is marked seen and pushed.
   */
  method ScanNeighbors(board: array2<Cell>, ghost g: Grid, start: Point, color: Cell, p: Point,
                       seen0: set<Point>, stack0: seq<Point>, libs0: set<Point>, ghost done: set<Point>)
    returns (seen: set<Point>, stack: seq<Point>, libSet: set<Point>)
    requires Square(board) && Describes(board, g) && InBounds(p, board.Length0)
    requires color.Stone? && At(g, start) == color
    requires seen0 <= GroupOf(g, board.Length0, start) && p in GroupOf(g, board.Length0, start)
    requires seen0 == Elements(stack0) + done && Elements(stack0) !! done && Distinct(stack0)
    ensures seen == Elements(stack) + done && Elements(stack) !! done && Distinct(stack)
    ensures seen0 <= seen <= GroupOf(g, board.Length0, start)
    ensures seen == seen0 ==> stack == stack0
    ensures seen != seen0 ==> exists n :: n in seen && n !in seen0
    ensures Among(g, Neighbors(p, board.Length0), color) <= seen
    ensures libSet == libs0 + Among(g, Neighbors(p, board.Length0), Empty)
  {
    var size := board.Length0;
    seen, stack, libSet := seen0, stack0, libs0;
    ghost var added: Option<Point> := None;
    var ns := Neighbors(p, size);
    for k := 0 to |ns|
      invariant seen == Elements(stack) + done && Elements(stack) !! done && Distinct(stack)
      invariant seen0 <= seen <= GroupOf(g, size, start)
      invariant added.None? ==> seen == seen0 && stack == stack0
      invariant added.Some? ==> added.value in seen && added.value !in seen0
      invariant Among(g, ns[..k], color) <= seen
      invariant libSet == libs0 + Among(g, ns[..k], Empty)
    {
      var n := ns[k];
      assert n in ns;
      assert InBounds(n, size);
      AmongStep(g, ns, k, Empty);
      AmongStep(g, ns, k, color);
      var val := board[n.y, n.x];
      assert val == At(g, n);
      if val == Empty {
        libSet := libSet + {n};
      } else if val == color {
        if n !in seen {
          GroupGrows(g, size, start, p, n);
          PushDistinct(stack, n);
          seen := seen + {n};
          stack := stack + [n];
          added := Some(n);
        }
      }
    }
    assert ns[..|ns|] == ns;
  }

  /**
   * collectGroup: a depth-first flood fill from start over stones of its
   * colour, collecting the stones in the order they are popped and the
   * distinct empty neighbours met on the way.
   */
  method CollectGroup(board: array2<Cell>, start: Point, ghost g: Grid) returns (stones: seq<Point>, libs: nat)
    requires Square(board) && InBounds(start, board.Length0) && Describes(board, g)
    ensures board[start.y, start.x] == Empty ==> stones == [] && libs == 0
    ensures Distinct(stones)
    ensures Elements(stones) == GroupOf(g, board.Length0, start)
    ensures libs == |Liberties(g, board.Length0, Elements(stones))|
  {
    var size := board.Length0;
    var color := board[start.y, start.x];
    assert color == At(g, start);
    if color == Empty {
      assert GroupOf(g, size, start) == {};
      return [], 0;
    }
    var c := color.color;
    var stack := [start];
    var seen := {start};
    ghost var done: set<Point> := {};
    stones := [];
    var libSet: set<Point> := {};
    GroupHasStart(g, size, start);
    while stack != []
      invariant Walking(g, size, start, c, stack, seen, done, stones, libSet)
      decreases GroupOf(g, size, start) - seen, |stack|
    {
      stack, seen, stones, libSet, done := VisitTop(board, g, start, color, stack, seen, stones, libSet, done);
    }
    GroupIsLeastClosed(g, size, start, c, seen);
    libs := |libSet|;
  }

  /**
   * The state of collectGroup's walk: the seen points are those on the stack
   * and those done, all of the group; the stones collected are the done
   * points; the liberties are those of the done points; and every neighbour
   * of a done point that has the group's colour has been seen.
   */
  ghost predicate Walking(g: Grid, size: nat, start: Point, c: Color, stack: seq<Point>, seen: set<Point>,
                          done: set<Point>, stones: seq<Point>, libSet: set<Point>) {
    seen == Elements(stack) + done && Elements(stack) !! done && Distinct(stack) &&
    start in seen && seen <= GroupOf(g, size, start) &&
    Distinct(stones) && Elements(stones) == done &&
    libSet == Liberties(g, size, done) &&
    forall p, n {:trigger n in Neighbors(p, size), p in done} ::
      p in done && n in Neighbors(p, size) && At(g, n) == Stone(c) ==> n in seen
  }

  /** One round of collectGroup's walk: pop a stone, collect it and scan its neighbours. */
  method VisitTop(board: array2<Cell>, ghost g: Grid, start: Point, color: Cell, stack0: seq<Point>, seen0: set<Point>,
                  stones0: seq<Point>, libs0: set<Point>, ghost done0: set<Point>)
    returns (stack: seq<Point>, seen: set<Point>, stones: seq<Point>, libSet: set<Point>, ghost done: set<Point>)
    requires Square(board) && Describes(board, g) && color.Stone? && At(g, start) == color && stack0 != []
    requires Walking(g, board.Length0, start, color.color, stack0, seen0, done0, stones0, libs0)
    ensures Walking(g, board.Length0, start, color.color, stack, seen, done, stones, libSet)
    ensures GroupOf(g, board.Length0, start) - seen < GroupOf(g, board.Length0, start) - seen0 ||
            (seen == seen0 && |stack| < |stack0|)
  {
    var size := board.Length0;
    var p := stack0[|stack0| - 1];
    PopDistinct(stack0);
    GroupInBounds(g, size, start, p);
    stones := stones0 + [p];
    done := done0 + {p};
    seen, stack, libSet := ScanNeighbors(board, g, start, color, p, seen0, stack0[..|stack0| - 1], libs0, done);
    AmongMembers(g, Neighbors(p, size), color);
    LibertiesAdd(g, size, done0, p);
    if seen != seen0 {
      var x :| x in seen && x !in seen0;
      assert x in GroupOf(g, size, start) - seen0;
    }
  }

  // ---------------------------------------------------------------------
  // Boards
  // ---------------------------------------------------------------------

  /** newBoard: a size-by-size board of empty points. */
  method NewBoard(size: nat) returns (board: array2<Cell>)
    ensures fresh(board) && Square(board) && board.Length0 == size
    ensures Describes(board, map[])
  {
    board := new Cell[size, size]((y, x) => Empty);
  }

  /** cloneBoard: a fresh board with the same cells. */
  method CloneBoard(board: array2<Cell>, ghost g: Grid) returns (copy: array2<Cell>)
    requires Square(board) && Describes(board, g)
    ensures fresh(copy) && Square(copy) && copy.Length0 == board.Length0
    ensures Describes(copy, g)
  {
    copy := new Cell[board.Length0, board.Length1]((y, x) reads board =>
      if 0 <= y < board.Length0 && 0 <= x < board.Length1 then board[y, x] else Empty);
  }

  // ---------------------------------------------------------------------
  // Playing a move
  // ---------------------------------------------------------------------

  /** The grid with every point of s emptied. */
  ghost function Cleared(g: Grid, s: set<Point>): (r: Grid)
    ensures forall q {:trigger At(r, q)} :: At(r, q) == if q in s then Empty else At(g, q)
  {
    map q | q in g :: if q in s then Empty else g[q]
  }

  /** The position after a move and the number of opponent stones it captured. */
  datatype Played = Played(grid: Grid, removed: nat)

  /**
   * Visiting the neighbours of the new stone in order, each opponent group
   * left without a liberty is taken off the board and counted.
   */
  ghost function CaptureAround(g: Grid, size: nat, opp: Color, ns: seq<Point>): Played
    decreases |ns|
  {
    if ns == [] then Played(g, 0)
    else
      var group := GroupOf(g, size, ns[0]);
      if At(g, ns[0]) == Stone(opp) && Liberties(g, size, group) == {} then
        var rest := CaptureAround(Cleared(g, group), size, opp, ns[1..]);
        Played(rest.grid, |group| + rest.removed)
      else CaptureAround(g, size, opp, ns[1..])
  }

  /**
   * The rules applyMove follows: nothing happens for a pass or an off-board
   * point; otherwise the stone is set down, adjacent opponent groups without
   * liberties are captured, and then the player's own group is removed if it
   * has no liberty left, without being counted.
   */
  ghost function Play(g: Grid, size: nat, color: Color, point: Option<Point>): Played {
    if point.None? || !InBounds(point.value, size) then Played(g, 0)
    else
      var p := point.value;
      var around := CaptureAround(g[p := Stone(color)], size, Opponent(color), Neighbors(p, size));
      var own := GroupOf(around.grid, size, p);
      if Liberties(around.grid, size, own) == {} then Played(Cleared(around.grid, own), around.removed)
      else around
  }

  /** removeStones: every listed point becomes empty. */
  method RemoveStones(board: array2<Cell>, stones: seq<Point>, ghost g: Grid)
    requires Square(board) && Describes(board, g)
    requires forall q :: q in stones ==> InBounds(q, board.Length0)
    modifies board
    ensures Describes(board, Cleared(g, Elements(stones)))
  {
    for i := 0 to |stones|
      invariant Describes(board, Cleared(g, Elements(stones[..i])))
    {
      var q := stones[i];
      assert q in stones;
      ghost var before := Cleared(g, Elements(stones[..i]));
      ghost var after := Cleared(g, Elements(stones[..i + 1]));
      assert Elements(stones[..i + 1]) == Elements(stones[..i]) + {q} by {
        assert stones[..i + 1] == stones[..i] + [q];
      }
      board[q.y, q.x] := Empty;
      forall r | InBounds(r, board.Length0) && r.x < board.Length1
        ensures board[r.y, r.x] == At(after, r)
      {
        if r != q {
          assert At(after, r) == At(before, r);
        }
      }
    }
    assert stones[..|stones|] == stones;
  }

  /**
   * The loop of applyMove over the neighbours of the new stone: each adjacent
   * opponent group without a liberty is removed and its stones counted.
   */
  method CaptureNeighbors(board: array2<Cell>, opponent: Color, ns: seq<Point>, ghost g: Grid)
    returns (removed: nat)
    requires Square(board) && Describes(board, g)
    requires forall n :: n in ns ==> InBounds(n, board.Length0)
    modifies board
    ensures Describes(board, CaptureAround(g, board.Length0, opponent, ns).grid)
    ensures removed == CaptureAround(g, board.Length0, opponent, ns).removed
  {
    var size := board.Length0;
    removed := 0;
    ghost var cur := g;
    ghost var total := CaptureAround(g, size, opponent, ns);
    for k := 0 to |ns|
      invariant Describes(board, cur)
      invariant CaptureAround(cur, size, opponent, ns[k..]).grid == total.grid
      invariant removed + CaptureAround(cur, size, opponent, ns[k..]).removed == total.removed
    {
      var n := ns[k];
      assert n in ns;
      assert ns[k..][0] == n && ns[k..][1..] == ns[k + 1..];
      if board[n.y, n.x] == Stone(opponent) {
        var stones, libs := CollectGroup(board, n, cur);
        DistinctCard(stones);
        if libs == 0 {
          removed := removed + |stones|;
          forall q | q in GroupOf(cur, size, n) { GroupInBounds(cur, size, n, q); }
          RemoveStones(board, stones, cur);
          cur := Cleared(cur, Elements(stones));
        }
      }
    }
    assert ns[|ns|..] == [];
  }

  /**
   * applyMove: plays the move on the board and credits the player with the
   * stones it captured.
   */
  method ApplyMove(board: array2<Cell>, color: Color, point: Option<Point>, captures: Captures, ghost g: Grid)
    returns (result: Captures)
    requires Square(board) && Describes(board, g)
    modifies board
    ensures Describes(board, Play(g, board.Length0, color, point).grid)
    ensures result == Credit(captures, color, Play(g, board.Length0, color, point).removed)
  {
    result := captures;
    if point.None? {
      return;
    }
    var p := point.value;
    var size := board.Length0;
    if p.x < 0 || p.y < 0 || p.x >= size || p.y >= size {
      return;
    }
    board[p.y, p.x] := Stone(color);
    ghost var placed := g[p := Stone(color)];
    forall r | InBounds(r, size) && r.x < board.Length1
      ensures board[r.y, r.x] == At(placed, r)
    {
      if r != p {
        assert At(placed, r) == At(g, r);
      }
    }
    var removed := CaptureNeighbors(board, Opponent(color), Neighbors(p, size), placed);
    ghost var cur := CaptureAround(placed, size, Opponent(color), Neighbors(p, size)).grid;
    var own, ownLibs := CollectGroup(board, p, cur);
    if ownLibs == 0 {
      forall q | q in GroupOf(cur, size, p) { GroupInBounds(cur, size, p, q); }
      RemoveStones(board, own, cur);
      cur := Cleared(cur, Elements(own));
    }
    if removed > 0 {
      result := Credit(captures, color, removed);
    }
  }

  // ---------------------------------------------------------------------
  // What a move takes off the board
  // ---------------------------------------------------------------------

  /**
   * How a grid met while playing at p relates to the grid g0 before the
   * move: the new stone stands at p, and every other point is unchanged or
   * was an opponent stone that has been taken.
   */
  ghost predicate TakenOnly(g0: Grid, cur: Grid, size: nat, color: Color, p: Point) {
    At(cur, p) == Stone(color) &&
    forall q {:trigger At(cur, q)} :: InBounds(q, size) && q != p ==>
      At(cur, q) == At(g0, q) || (At(g0, q) == Stone(Opponent(color)) && At(cur, q) == Empty)
  }

  /** The opponent stones, away from p, that stood in g0 and are gone in cur. */
  ghost function Taken(g0: Grid, cur: Grid, size: nat, opp: Color, p: Point): set<Point> {
    set q | q in Points(size) && q != p && At(g0, q) == Stone(opp) && At(cur, q) == Empty
  }

  /** Removing an opponent group adds exactly its stones to what has been taken. */
  lemma ClearGroupTakes(g0: Grid, cur: Grid, size: nat, color: Color, p: Point, n: Point)
    requires InBounds(n, size)
    requires TakenOnly(g0, cur, size, color, p) && At(cur, n) == Stone(Opponent(color))
    ensures TakenOnly(g0, Cleared(cur, GroupOf(cur, size, n)), size, color, p)
    ensures Taken(g0, Cleared(cur, GroupOf(cur, size, n)), size, Opponent(color), p)
         == Taken(g0, cur, size, Opponent(color), p) + GroupOf(cur, size, n)
    ensures Taken(g0, cur, size, Opponent(color), p) !! GroupOf(cur, size, n)
  {
    var opp := Opponent(color);
    var group := GroupOf(cur, size, n);
    var next := Cleared(cur, group);
    forall q | q in group
      ensures InBounds(q, size) && q in Points(size) && q != p
      ensures At(cur, q) == Stone(opp) && At(g0, q) == Stone(opp)
    {
      GroupSound(cur, size, n, q);
      InPoints(q, size);
    }
    forall q | InBounds(q, size) && q != p
      ensures At(next, q) == At(g0, q) || (At(g0, q) == Stone(opp) && At(next, q) == Empty)
    {
      assert At(cur, q) == At(g0, q) || (At(g0, q) == Stone(opp) && At(cur, q) == Empty);
    }
    assert Taken(g0, next, size, opp, p) == Taken(g0, cur, size, opp, p) + group by {
      forall q | q in Taken(g0, next, size, opp, p)
        ensures q in Taken(g0, cur, size, opp, p) + group
      {
        assert At(next, q) == Empty;
      }
    }
  }

  /** Each group CaptureAround removes is counted once, and nothing else is. */
  lemma {:induction false} CaptureAroundTakes(g0: Grid, cur: Grid, size: nat, color: Color, p: Point, ns: seq<Point>)
    requires TakenOnly(g0, cur, size, color, p)
    requires forall n :: n in ns ==> InBounds(n, size)
    ensures TakenOnly(g0, CaptureAround(cur, size, Opponent(color), ns).grid, size, color, p)
    ensures |Taken(g0, cur, size, Opponent(color), p)| + CaptureAround(cur, size, Opponent(color), ns).removed
         == |Taken(g0, CaptureAround(cur, size, Opponent(color), ns).grid, size, Opponent(color), p)|
    decreases |ns|
  {
    if ns != [] {
      var opp := Opponent(color);
      var n := ns[0];
      assert n in ns;
      assert forall m :: m in ns[1..] ==> m in ns;
      var group := GroupOf(cur, size, n);
      if At(cur, n) == Stone(opp) && Liberties(cur, size, group) == {} {
        ClearGroupTakes(g0, cur, size, color, p, n);
        CaptureAroundTakes(g0, Cleared(cur, group), size, color, p, ns[1..]);
      } else {
        CaptureAroundTakes(g0, cur, size, color, p, ns[1..]);
      }
    }
  }

  /** Removing the player's own group takes no opponent stone. */
  lemma ClearOwnTakesNothing(g0: Grid, cur: Grid, size: nat, color: Color, p: Point)
    requires InBounds(p, size) && TakenOnly(g0, cur, size, color, p)
    ensures Taken(g0, Cleared(cur, GroupOf(cur, size, p)), size, Opponent(color), p)
         == Taken(g0, cur, size, Opponent(color), p)
  {
    var opp := Opponent(color);
    var own := GroupOf(cur, size, p);
    forall q | q in own && q != p
      ensures At(g0, q) == Stone(color)
    {
      GroupSound(cur, size, p, q);
    }
  }

  /**
   * The count applyMove credits is the number of opponent stones the move
   * took off the board; the player's own stones removed by a self-capture
   * are never counted. Every point other than p keeps its contents or is
   * emptied, and p ends up with the new stone or empty.
   */
  lemma PlayCountsCaptures(g: Grid, size: nat, color: Color, p: Point)
    requires InBounds(p, size)
    ensures Play(g, size, color, Some(p)).removed
         == |Taken(g, Play(g, size, color, Some(p)).grid, size, Opponent(color), p)|
    ensures forall q {:trigger At(Play(g, size, color, Some(p)).grid, q)} ::
              InBounds(q, size) && q != p ==>
                At(Play(g, size, color, Some(p)).grid, q) in {At(g, q), Empty}
    ensures At(Play(g, size, color, Some(p)).grid, p) in {Stone(color), Empty}
  {
    var opp := Opponent(color);
    var placed := g[p := Stone(color)];
    assert TakenOnly(g, placed, size, color, p);
    assert Taken(g, placed, size, opp, p) == {};
    var ns := Neighbors(p, size);
    CaptureAroundTakes(g, placed, size, color, p, ns);
    var around := CaptureAround(placed, size, opp, ns);
    var own := GroupOf(around.grid, size, p);
    if Liberties(around.grid, size, own) == {} {
      ClearOwnTakesNothing(g, around.grid, size, color, p);
      var r := Cleared(around.grid, own);
      forall q | InBounds(q, size) && q != p
        ensures At(r, q) in {At(g, q), Empty}
      {
        assert At(around.grid, q) == At(g, q) || (At(g, q) == Stone(opp) && At(around.grid, q) == Empty);
      }
    }
  }

  /** A stone that stays on the board after its move belongs to a group with a liberty. */
  lemma PlayLeavesLiberty(g: Grid, size: nat, color: Color, p: Point)
    requires InBounds(p, size)
    requires At(Play(g, size, color, Some(p)).grid, p) == Stone(color)
    ensures var r := Play(g, size, color, Some(p)).grid;
              Liberties(r, size, GroupOf(r, size, p)) != {}
  {
    var placed := g[p := Stone(color)];
    assert TakenOnly(g, placed, size, color, p);
    CaptureAroundTakes(g, placed, size, color, p, Neighbors(p, size));
    var around := CaptureAround(placed, size, Opponent(color), Neighbors(p, size));
    GroupHasStart(around.grid, size, p);
  }
}


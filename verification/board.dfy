/**
 * The `Board` of lib/src/tetris.rs: the playfield, the held piece, the queue
 * of upcoming pieces, and the combo and back-to-back counters; its
 * occupancy and collision queries; the per-pose moves (drop, shift, rotate
 * with kicks and T-spin detection, soft drop); move generation by
 * breadth-first search; and make_move, which locks a piece, clears rows and
 * advances hold and queue.
 */
module Boards {
  import opened Wrappers
  import opened Pieces
  import opened Grid
  import Ordering
  import Sorting

  /** The board snapshot a `start` message carries (TBPBoard in lib/src/tbp.rs). */
  datatype TbpBoard = TbpBoard(hold: Option<Piece>, queue: seq<Piece>, combo: nat, backToBack: bool, board: seq<seq<Cell>>)

  /** Where every search starts: facing North with the reference cell at (5, 19), no spin. */
  function Spawn(p: Piece): (r: Move)
    ensures r.location.piece == p && r.location.orientation == North && r.spin == NoSpin
    ensures p != G ==> AllInGrid(Footprint(r.location))
  {
    Move(Location(p, North, 5, 19), NoSpin)
  }

  /** The pose reached by trying kick `k` of the table for rotating `loc` in direction `rot`. */
  function Kicked(loc: Location, rot: Rotation, k: nat): (r: Location)
    requires loc.piece != G && k < 5
    ensures r.piece == loc.piece && r.orientation == Turn(loc.orientation, rot)
    ensures k == 0 ==> r.x == loc.x && r.y == loc.y
  {
    var d := SrsTable(loc.piece, loc.orientation, rot)[k];
    Location(loc.piece, Turn(loc.orientation, rot), loc.x + d.0, loc.y + d.1)
  }

  /** The four diagonal neighbours of a T's centre. */
  const Corners: seq<Offset> := [(1, 1), (-1, 1), (1, -1), (-1, -1)]

  /** The two corners flanking the cell a T in orientation `o` points at. */
  function MiniCorners(o: Orientation): (r: seq<Offset>)
    ensures |r| == 2 && r[0] != r[1]
    ensures forall i :: 0 <= i < 2 ==> r[i] in Corners
    ensures forall i :: 0 <= i < 2 ==>
      var point := Cells(T, o)[2];
      (r[i].0 == point.0 && (r[i].1 - point.1 == 1 || point.1 - r[i].1 == 1)) ||
      (r[i].1 == point.1 && (r[i].0 - point.0 == 1 || point.0 - r[i].0 == 1))
  {
    match o
    case North => [(-1, 1), (1, 1)]
    case East => [(1, 1), (1, -1)]
    case South => [(1, -1), (-1, -1)]
    case West => [(-1, -1), (-1, 1)]
  }

  /** No pose occurs twice. */
  ghost predicate NoDups(s: seq<Move>)
  {
    forall i, j :: 0 <= i < j < |s| ==> s[i] != s[j]
  }

  /** Every pose of piece `p` whose reference cell lies in the grid: the search never leaves this set. */
  ghost function Universe(p: Piece): set<Move>
  {
    set o: Orientation, x: int, y: int, s: Spin |
      o in {North, East, South, West} && 0 <= x < Width && 0 <= y < Height && s in {NoSpin, Mini, Full} ::
      Move(Location(p, o, x, y), s)
  }

  lemma InUniverse(m: Move)
    requires 0 <= m.location.x < Width && 0 <= m.location.y < Height
    ensures m in Universe(m.location.piece)
  {
    var l := m.location;
    assert l.orientation in {North, East, South, West} by {
      match l.orientation
      case North => case East => case South => case West =>
    }
    assert m.spin in {NoSpin, Mini, Full} by {
      match m.spin
      case NoSpin => case Mini => case Full =>
    }
    assert m == Move(Location(l.piece, l.orientation, l.x, l.y), m.spin);
  }

  function OptionSet(c: Option<Move>): set<Move>
  {
    if c.Some? then {c.value} else {}
  }

  /**
   * The queue and visited set have grown from (`frontier0`, `visited0`) by
   * the poses in `found`: visited by all of them, the queue by those not
   * visited before, in some order, once each.
   */
  ghost predicate Grown(frontier0: seq<Move>, visited0: set<Move>, frontier: seq<Move>, visited: set<Move>, found: set<Move>)
  {
    visited == visited0 + found &&
    |frontier| >= |frontier0| && frontier[..|frontier0|] == frontier0 &&
    (forall m :: m in frontier[|frontier0|..] <==> m in found && m !in visited0) &&
    NoDups(frontier[|frontier0|..])
  }

  /** Queues and marks a pose an action produced, unless it was visited before. */
  method Record(c: Option<Move>, frontier: seq<Move>, visited: set<Move>,
                ghost frontier0: seq<Move>, ghost visited0: set<Move>, ghost found: set<Move>)
    returns (frontier': seq<Move>, visited': set<Move>)
    requires Grown(frontier0, visited0, frontier, visited, found)
    ensures Grown(frontier0, visited0, frontier', visited', found + OptionSet(c))
    ensures visited <= visited' && (visited' == visited ==> frontier' == frontier)
  {
    frontier', visited' := frontier, visited;
    if c.Some? && c.value !in visited {
      frontier' := frontier + [c.value];
      visited' := visited + {c.value};
      assert frontier'[|frontier0|..] == frontier[|frontier0|..] + [c.value];
    } else if c.Some? {
      assert visited' == visited0 + (found + OptionSet(c));
    }
  }

  /** The poses collected from five options are the values among them. */
  lemma FoundAreOptions(options: seq<Option<Move>>, found: set<Move>)
    requires |options| == 5
    requires found == OptionSet(options[0]) + OptionSet(options[1]) + OptionSet(options[2]) +
                      OptionSet(options[3]) + OptionSet(options[4])
    ensures forall m :: m in found <==> Some(m) in options
  {
    forall m
      ensures m in found <==> Some(m) in options
    {
      if Some(m) in options {
        var i :| 0 <= i < 5 && options[i] == Some(m);
        assert m in OptionSet(options[i]);
      }
    }
  }

  /**
   * The body of the search loop for one dequeued pose, given what its five
   * actions produced: each result is queued and marked visited unless it was
   * visited before. Afterwards `visited` holds every result, and the queue has
   * grown by exactly the results not seen before, once each, in order.
   */
  method Expand(options: seq<Option<Move>>, frontier: seq<Move>, visited: set<Move>)
    returns (frontier': seq<Move>, visited': set<Move>)
    requires |options| == 5
    ensures forall m :: m in visited' <==> m in visited || Some(m) in options
    ensures |frontier'| >= |frontier| && frontier'[..|frontier|] == frontier
    ensures forall m :: m in frontier'[|frontier|..] <==> m !in visited && Some(m) in options
    ensures NoDups(frontier'[|frontier|..])
    ensures visited' == visited ==> frontier' == frontier
  {
    assert frontier[..|frontier|] == frontier;
    var f1, v1 := Record(options[0], frontier, visited, frontier, visited, {});
    var f2, v2 := Record(options[1], f1, v1, frontier, visited, OptionSet(options[0]));
    var f3, v3 := Record(options[2], f2, v2, frontier, visited, OptionSet(options[0]) + OptionSet(options[1]));
    var f4, v4 := Record(options[3], f3, v3, frontier, visited,
                         OptionSet(options[0]) + OptionSet(options[1]) + OptionSet(options[2]));
    frontier', visited' := Record(options[4], f4, v4, frontier, visited,
                                  OptionSet(options[0]) + OptionSet(options[1]) + OptionSet(options[2]) +
                                  OptionSet(options[3]));
    FoundAreOptions(options, OptionSet(options[0]) + OptionSet(options[1]) + OptionSet(options[2]) +
                             OptionSet(options[3]) + OptionSet(options[4]));
  }

  /** A table from poses to what their five actions produce. */
  type Successors = map<Move, seq<Option<Move>>>

  /** Every pose the table leads to is in the table again. */
  ghost predicate Closed(succ: Successors)
  {
    forall m :: m in succ ==> forall o :: o in succ[m] && o.Some? ==> o.value in succ
  }

  /** `path` starts at `start` and each pose is among the results recorded for the one before. */
  ghost predicate PathIn(succ: Successors, start: Move, path: seq<Move>)
  {
    |path| > 0 && path[0] == start &&
    forall i :: 0 <= i < |path| - 1 ==> path[i] in succ && Some(path[i + 1]) in succ[path[i]]
  }

  ghost predicate ReachableIn(succ: Successors, start: Move, v: Move)
  {
    exists path :: PathIn(succ, start, path) && path[|path| - 1] == v
  }

  lemma ReachableInStep(succ: Successors, start: Move, from: Move, to: Move)
    requires ReachableIn(succ, start, from) && from in succ && Some(to) in succ[from]
    ensures ReachableIn(succ, start, to)
  {
    var path :| PathIn(succ, start, path) && path[|path| - 1] == from;
    var q := path + [to];
    forall i | 0 <= i < |q| - 1
      ensures q[i] in succ && Some(q[i + 1]) in succ[q[i]]
    {
      if i < |path| - 1 {
        assert q[i] == path[i] && q[i + 1] == path[i + 1];
      }
    }
    assert PathIn(succ, start, q) && q[|q| - 1] == to;
  }

  /**
   * What holds between iterations of the search loop: every queued pose is
   * visited, once; a visited pose that has left the queue has had all its
   * results visited, and its resting placement recorded; every visited pose
   * is reachable from `start`.
   */
  ghost predicate SearchInv(succ: Successors, rest: map<Move, Move>, start: Move,
                            frontier: seq<Move>, seen: set<Move>, moveList: seq<Move>)
  {
    succ.Keys == rest.Keys && seen <= succ.Keys && start in seen &&
    (forall m :: m in frontier ==> m in seen) &&
    NoDups(frontier) &&
    (forall v :: v in seen && v !in frontier ==> forall o :: o in succ[v] && o.Some? ==> o.value in seen) &&
    (forall m :: m in moveList <==> exists v :: v in seen && v !in frontier && m == rest[v]) &&
    (forall v :: v in seen ==> ReachableIn(succ, start, v))
  }

  /** One iteration of the search loop keeps SearchInv, and either visits a new pose or shortens the queue. */
  lemma SearchStep(succ: Successors, rest: map<Move, Move>, start: Move,
                   frontier: seq<Move>, seen: set<Move>, moveList: seq<Move>,
                   frontier': seq<Move>, seen': set<Move>)
    requires SearchInv(succ, rest, start, frontier, seen, moveList) && frontier != []
    requires frontier[0] in succ && |succ[frontier[0]]| == 5
    requires forall m :: m in seen' <==> m in seen || Some(m) in succ[frontier[0]]
    requires |frontier'| >= |frontier| - 1 && frontier'[..|frontier| - 1] == frontier[1..]
    requires forall m :: m in frontier'[|frontier| - 1..] <==> m !in seen && Some(m) in succ[frontier[0]]
    requires NoDups(frontier'[|frontier| - 1..])
    requires seen' == seen ==> frontier' == frontier[1..]
    requires Closed(succ)
    ensures SearchInv(succ, rest, start, frontier', seen', moveList + [rest[frontier[0]]])
    ensures seen <= seen' && (seen' == seen ==> |frontier'| < |frontier|)
  {
    var mv := frontier[0];
    var tail := frontier[1..];
    var added := frontier'[|tail|..];
    assert frontier' == tail + added;
    assert frontier == [mv] + tail;
    NoDupsAppend(tail, added, seen);
    assert mv !in tail by {
      NoDupsHead(frontier);
    }
    forall v
      ensures (v in seen' && v !in frontier') <==> (v in seen && v !in frontier) || v == mv
    {
      assert v in frontier' <==> v in tail || v in added;
      assert v in frontier <==> v == mv || v in tail;
    }
    forall m | m in seen' && m !in seen
      ensures ReachableIn(succ, start, m)
    {
      ReachableInStep(succ, start, mv, m);
    }
  }

  /** Appending poses not yet seen to a queue of seen poses keeps it free of repeats. */
  lemma NoDupsAppend(a: seq<Move>, b: seq<Move>, seen: set<Move>)
    requires NoDups(a) && NoDups(b)
    requires forall m :: m in a ==> m in seen
    requires forall m :: m in b ==> m !in seen
    ensures NoDups(a + b)
    ensures forall m :: m in a + b <==> m in a || m in b
  {
    forall i, j | 0 <= i < j < |a + b|
      ensures (a + b)[i] != (a + b)[j]
    {
      if j >= |a| && i < |a| {
        assert (a + b)[i] == a[i] && (a + b)[j] == b[j - |a|];
        assert a[i] in seen && b[j - |a|] !in seen;
      }
    }
  }

  /** The head of a queue without repeats does not occur in its tail. */
  lemma NoDupsHead(s: seq<Move>)
    requires NoDups(s) && |s| > 0
    ensures s[0] !in s[1..]
  {
    forall i | 0 <= i < |s| - 1
      ensures s[1..][i] != s[0]
    {
      assert s[1..][i] == s[i + 1];
    }
  }

  /** Visiting a new pose of a finite domain leaves fewer to visit. */
  lemma FewerLeft(domain: set<Move>, seen: set<Move>, seen': set<Move>)
    requires seen <= seen' <= domain && seen' != seen
    ensures |domain - seen'| < |domain - seen|
  {
    var m :| m in seen' && m !in seen;
    SubsetCard(domain - seen', (domain - seen) - {m});
  }

  lemma {:induction false} SubsetCard(a: set<Move>, b: set<Move>)
    requires a <= b
    ensures |a| <= |b|
    decreases b
  {
    if a != {} {
      var x :| x in a;
      SubsetCard(a - {x}, b - {x});
    }
  }

  /** In a list of distinct offsets, the head does not recur in the tail. */
  lemma DistinctHead(s: seq<Offset>)
    requires |s| > 0 && forall i, j :: 0 <= i < j < |s| ==> s[i] != s[j]
    ensures s[0] !in s[1..]
  {
    forall i | 0 <= i < |s| - 1
      ensures s[1..][i] != s[0]
    {
      assert s[1..][i] == s[i + 1];
    }
  }

  /** The held piece as a list of zero or one pieces. */
  function HeldList(hold: Option<Piece>): (r: seq<Piece>)
    ensures |r| <= 1 && (hold.Some? <==> |r| == 1) && (hold.Some? ==> r[0] == hold.value)
  {
    if hold.Some? then [hold.value] else []
  }

  /**
   * The pieces gen_moves searches, in order: the current piece (the head of
   * the queue), then the held piece or, when nothing is held, the next one.
   */
  function Offered(hold: Option<Piece>, queue: seq<Piece>): (r: seq<Piece>)
    requires |queue| > 0
    ensures 1 <= |r| <= 2 && r[0] == queue[0]
    ensures |r| == 2 <==> hold.Some? || |queue| >= 2
    ensures forall q :: q in r ==> q in HeldList(hold) + queue
  {
    if hold.Some? then [queue[0], hold.value]
    else if |queue| >= 2 then [queue[0], queue[1]]
    else [queue[0]]
  }

  /**
   * make_move's update of hold and queue once `piece` is placed. Playing the
   * head of the queue pops it. Playing anything else puts the head into hold;
   * then, if nothing was held and a second piece is queued, that one was
   * played and is popped too, and otherwise the old held piece was played.
   */
  function AfterPlay(hold: Option<Piece>, queue: seq<Piece>, piece: Piece): (r: (Option<Piece>, seq<Piece>))
    requires |queue| > 0
    ensures piece == queue[0] ==> r == (hold, queue[1..])
    ensures piece != queue[0] ==> r.0 == Some(queue[0])
    ensures |r.1| == if piece != queue[0] && hold.None? && |queue| >= 2 then |queue| - 2 else |queue| - 1
    ensures r.1 == queue[|queue| - |r.1|..]
  {
    if piece != queue[0] then
      if hold == None && |queue| >= 2 then (Some(queue[0]), queue[2..])
      else (Some(queue[0]), queue[1..])
    else (hold, queue[1..])
  }

  /**
   * Hold and queue together lose exactly the piece played, whichever of the
   * pieces gen_moves offers it was: nothing is lost, duplicated or invented.
   */
  lemma PlayConserves(hold: Option<Piece>, queue: seq<Piece>, piece: Piece)
    requires |queue| > 0 && piece in Offered(hold, queue)
    ensures var r := AfterPlay(hold, queue, piece);
      multiset(HeldList(r.0) + r.1) + multiset{piece} == multiset(HeldList(hold) + queue)
  {
    if piece != queue[0] && hold == None {
      PlayNext(queue, piece);
    } else {
      PlayHeadOrHeld(hold, queue, piece);
    }
  }

  /** Playing the current piece, or the held one, gives up exactly that piece. */
  lemma PlayHeadOrHeld(hold: Option<Piece>, queue: seq<Piece>, piece: Piece)
    requires |queue| > 0 && (piece == queue[0] || hold == Some(piece))
    ensures var r := AfterPlay(hold, queue, piece);
      multiset(HeldList(r.0) + r.1) + multiset{piece} == multiset(HeldList(hold) + queue)
  {
    assert queue == [queue[0]] + queue[1..];
  }

  /** With nothing held, playing the next piece holds the current one and gives up the next. */
  lemma PlayNext(queue: seq<Piece>, piece: Piece)
    requires |queue| > 1 && piece != queue[0] && piece == queue[1]
    ensures var r := AfterPlay(None, queue, piece);
      multiset(HeldList(r.0) + r.1) + multiset{piece} == multiset(HeldList(None) + queue)
  {
    assert queue == [queue[0]] + [queue[1]] + queue[2..];
  }

  /** The cells of a 40 x 10 array as a playfield value. */
  ghost function RowsOf(a: array2<Cell>): (r: Rows)
    requires a.Length0 == Height && a.Length1 == Width
    reads a
    ensures IsGrid(r)
    ensures forall y, x :: 0 <= y < Height && 0 <= x < Width ==> r[y][x] == a[y, x]
  {
    seq(Height, y requires 0 <= y < Height reads a =>
      seq(Width, x requires 0 <= x < Width reads a => a[y, x]))
  }

  /** make_move's test whether row `y` is complete, stopping at the first empty cell. */
  method RowIsFull(a: array2<Cell>, y: int) returns (full: bool)
    requires a.Length0 == Height && a.Length1 == Width && 0 <= y < Height
    ensures full <==> RowFull(RowsOf(a)[y])
  {
    full := true;
    for x := 0 to Width
      invariant forall x' :: 0 <= x' < x ==> a[y, x'] != None
    {
      if a[y, x] == None {
        full := false;
        break;
      }
    }
  }

  /** Clears row `line` in place: each row above moves down one, and the top row is emptied. */
  method ClearRowInPlace(a: array2<Cell>, line: int)
    requires a.Length0 == Height && a.Length1 == Width && 0 <= line < Height
    modifies a
    ensures RowsOf(a) == ClearRow(old(RowsOf(a)), line)
  {
    for y := line to Height - 1
      invariant forall r, c :: 0 <= r < Height && 0 <= c < Width ==>
        a[r, c] == if line <= r < y then old(a[r + 1, c]) else old(a[r, c])
    {
      for x := 0 to Width
        invariant forall r, c :: 0 <= r < Height && 0 <= c < Width ==>
          a[r, c] == if line <= r < y || (r == y && c < x) then old(a[r + 1, c]) else old(a[r, c])
      {
        a[y, x] := a[y + 1, x];
      }
    }
    for x := 0 to Width
      invariant forall r, c :: 0 <= r < Height && 0 <= c < Width ==>
        a[r, c] == if line <= r < Height - 1 then old(a[r + 1, c])
                   else if r == Height - 1 && c < x then None
                   else old(a[r, c])
    {
      a[Height - 1, x] := None;
    }
    SameCells(RowsOf(a), ClearRow(old(RowsOf(a)), line));
  }

  /**
   * make_move's locking loop: writes the marker into each cell in turn and,
   * after each write, tests that cell's row unless it is already listed,
   * listing it when it is full. The result is the locked playfield and the
   * completed rows the piece touched, each listed once.
   */
  method LockAndScan(a: array2<Cell>, cells: seq<Coord>) returns (cleared: seq<int>)
    requires a.Length0 == Height && a.Length1 == Width && AllInGrid(cells)
    modifies a
    ensures RowsOf(a) == LockCells(old(RowsOf(a)), cells)
    ensures cleared == ScanFull(old(RowsOf(a)), cells, [])
  {
    ghost var g0 := RowsOf(a);
    cleared := [];
    for i := 0 to |cells|
      invariant AllInGrid(cells[i..])
      invariant LockCells(RowsOf(a), cells[i..]) == LockCells(g0, cells)
      invariant ScanFull(RowsOf(a), cells[i..], cleared) == ScanFull(g0, cells, [])
    {
      var x, y := cells[i].0, cells[i].1;
      ghost var before := RowsOf(a);
      a[y, x] := Marker;
      SameCells(RowsOf(a), Fill(before, cells[i]));
      assert cells[i..] == [cells[i]] + cells[i + 1..];
      if y !in cleared {
        var full := RowIsFull(a, y);
        if full {
          cleared := cleared + [y];
        }
      }
    }
  }

  /** The order make_move clears rows in: sorted, then reversed, so the highest row goes first. */
  method ClearOrder(cleared: seq<int>) returns (lines: seq<int>)
    requires Distinct(cleared)
    ensures |lines| == |cleared| && forall y :: y in lines <==> y in cleared
    ensures forall i, j :: 0 <= i < j < |lines| ==> lines[i] > lines[j]
  {
    var lt := (a: int, b: int) => a < b;
    var sorted := Sorting.Sort(cleared, lt);
    Sorting.SortedUniqueIncreasing(cleared, sorted, lt);
    lines := Sorting.Reversed(sorted);
    forall y
      ensures y in lines <==> y in cleared
    {
      assert y in sorted <==> y in multiset(sorted);
      assert y in cleared <==> y in multiset(cleared);
      if y in sorted {
        var k :| 0 <= k < |sorted| && sorted[k] == y;
        assert lines[|sorted| - 1 - k] == y;
      }
    }
    assert |sorted| == |multiset(sorted)| == |multiset(cleared)| == |cleared|;
  }

  /** make_move's clearing loop: clears the listed rows one after another. */
  method ClearAll(a: array2<Cell>, lines: seq<int>)
    requires a.Length0 == Height && a.Length1 == Width
    requires forall i :: 0 <= i < |lines| ==> 0 <= lines[i] < Height
    modifies a
    ensures RowsOf(a) == ClearLines(old(RowsOf(a)), lines)
  {
    ghost var g0 := RowsOf(a);
    for k := 0 to |lines|
      invariant ClearLines(RowsOf(a), lines[k..]) == ClearLines(g0, lines)
    {
      ClearRowInPlace(a, lines[k]);
      assert lines[k..][1..] == lines[k + 1..];
    }
  }

  /**
   * What make_move does to the playfield: lock the cells, then clear the
   * completed rows among those they touch, highest first.
   */
  method Place(a: array2<Cell>, cells: seq<Coord>)
    requires a.Length0 == Height && a.Length1 == Width && AllInGrid(cells)
    modifies a
    ensures RowsOf(a) == Placed(old(RowsOf(a)), cells)
  {
    ghost var g0 := RowsOf(a);
    var cleared := LockAndScan(a, cells);
    ScanFullFindsFullRows(g0, cells, []);
    FullRowsInGrid(LockCells(g0, cells), cells);
    var lines := ClearOrder(cleared);
    forall i | 0 <= i < |lines|
      ensures 0 <= lines[i] < Height
    {
      assert lines[i] in lines;
      assert lines[i] in cleared;
    }
    ClearAll(a, lines);
    ClearingPlaces(g0, cells, lines);
  }

  class Board {
    var hold: Option<Piece>
    var queue: seq<Piece>
    var combo: nat
    var backToBack: bool
    /** grid[y, x] is the cell in row y (0 = floor) and column x. */
    var grid: array2<Cell>

    ghost predicate Valid()
      reads this
    {
      grid.Length0 == Height && grid.Length1 == Width
    }

    /** The playfield as a value. */
    ghost function Rows(): (r: Rows)
      requires Valid()
      reads this, grid
      ensures IsGrid(r)
      ensures forall y, x :: 0 <= y < Height && 0 <= x < Width ==> r[y][x] == grid[y, x]
    {
      RowsOf(grid)
    }

    /** A board with the given parts. */
    constructor Of(hold: Option<Piece>, queue: seq<Piece>, combo: nat, backToBack: bool, grid: array2<Cell>)
      ensures this.hold == hold && this.queue == queue && this.combo == combo
      ensures this.backToBack == backToBack && this.grid == grid
    {
      this.hold := hold;
      this.queue := queue;
      this.combo := combo;
      this.backToBack := backToBack;
      this.grid := grid;
    }

    /**
     * `from_tbp`: the bottom 40 rows and left 10 columns of the snapshot's
     * cells, and its hold, queue, combo and back-to-back flag.
     */
    constructor FromTbp(tbp: TbpBoard)
      requires |tbp.board| >= Height && forall y :: 0 <= y < Height ==> |tbp.board[y]| >= Width
      ensures Valid() && fresh(grid)
      ensures forall y, x :: 0 <= y < Height && 0 <= x < Width ==> grid[y, x] == tbp.board[y][x]
      ensures hold == tbp.hold && queue == tbp.queue && combo == tbp.combo && backToBack == tbp.backToBack
    {
      var cells := new Cell[Height, Width]((_, _) => None);
      for i := 0 to Height
        invariant forall y, x :: 0 <= y < i && 0 <= x < Width ==> cells[y, x] == tbp.board[y][x]
      {
        for j := 0 to Width
          invariant forall y, x :: 0 <= y < i && 0 <= x < Width ==> cells[y, x] == tbp.board[y][x]
          invariant forall x :: 0 <= x < j ==> cells[i, x] == tbp.board[i][x]
        {
          cells[i, j] := tbp.board[i][j];
        }
      }
      hold := tbp.hold;
      queue := tbp.queue;
      combo := tbp.combo;
      backToBack := tbp.backToBack;
      grid := cells;
    }

    /** Everything outside the 10 x 40 grid counts as filled: walls, floor and ceiling. */
    predicate Occupied(x: int, y: int)
      requires Valid()
      reads this, grid
    {
      !(0 <= x < Width) || !(0 <= y < Height) || grid[y, x] != None
    }

    /** Occupancy read on the playfield value: outside the grid, or a filled cell. */
    lemma OccupiedCells(x: int, y: int)
      requires Valid()
      ensures Occupied(x, y) <==> !InGrid((x, y)) || Rows()[y][x].Some?
    {
    }

    /**
     * The reference definition of `collision`: a pose collides exactly when
     * one of its four cells is occupied. Collides is the source's loop.
     */
    function Collision(loc: Location): (r: bool)
      requires Valid() && loc.piece != G
      reads this, grid
      ensures r <==> exists i :: 0 <= i < 4 && Occupied(Footprint(loc)[i].0, Footprint(loc)[i].1)
    {
      var c := Footprint(loc);
      Occupied(c[0].0, c[0].1) || Occupied(c[1].0, c[1].1) || Occupied(c[2].0, c[2].1) || Occupied(c[3].0, c[3].1)
    }

    /** A pose that does not collide lies inside the grid, on empty cells, reference cell included. */
    lemma FreeInGrid(loc: Location)
      requires Valid() && loc.piece != G && !Collision(loc)
      ensures forall i :: 0 <= i < 4 ==>
        InGrid(Footprint(loc)[i]) && grid[Footprint(loc)[i].1, Footprint(loc)[i].0] == None
      ensures 0 <= loc.x < Width && 0 <= loc.y < Height
    {
      var c := Footprint(loc);
      assert !Occupied(c[0].0, c[0].1);
    }

    /** `collision`: tests the four cells in turn and stops at the first occupied one. */
    method Collides(loc: Location) returns (hit: bool)
      requires Valid() && loc.piece != G
      ensures hit == Collision(loc)
    {
      var cells := AbsoluteCells(loc);
      for i := 0 to 4
        invariant forall j :: 0 <= j < i ==> !Occupied(cells[j].0, cells[j].1)
      {
        if Occupied(cells[i].0, cells[i].1) {
          return true;
        }
      }
      return false;
    }

    /**
     * The row a pose comes to rest on when it falls from row `y`: it is free
     * on every row from there up to `y` and collides one row lower. It is
     * `y + 1` when the pose already collides at `y`.
     */
    function DropRow(loc: Location, y: int): (r: int)
      requires Valid() && loc.piece != G
      reads this, grid
      ensures r <= y + 1
      decreases y + 1
    {
      if Collision(loc.(y := y)) then y + 1 else DropRow(loc, y - 1)
    }

    /** The drop ends on a row directly above a collision, and every row it passed through is free. */
    lemma DropRowRests(loc: Location, y: int)
      requires Valid() && loc.piece != G
      ensures Collision(loc.(y := DropRow(loc, y) - 1))
      ensures forall k :: DropRow(loc, y) <= k <= y ==> !Collision(loc.(y := k))
    {
      DropRowLands(loc, y);
      DropRowPasses(loc, y);
    }

    /** The row below the end of a drop collides. */
    lemma {:induction false} DropRowLands(loc: Location, y: int)
      requires Valid() && loc.piece != G
      ensures Collision(loc.(y := DropRow(loc, y) - 1))
      decreases y + 1
    {
      if !Collision(loc.(y := y)) {
        DropRowFree(loc, y);
        DropRowLands(loc, y - 1);
      }
    }

    /** Every row a drop passes through, from where it starts to where it ends, is free. */
    lemma {:induction false} DropRowPasses(loc: Location, y: int)
      requires Valid() && loc.piece != G
      ensures forall k :: DropRow(loc, y) <= k <= y ==> !Collision(loc.(y := k))
      decreases y + 1
    {
      if !Collision(loc.(y := y)) {
        DropRowFree(loc, y);
        DropRowPasses(loc, y - 1);
        forall k | DropRow(loc, y) <= k <= y
          ensures !Collision(loc.(y := k))
        {
          if k < y {
            assert DropRow(loc, y - 1) <= k <= y - 1;
          }
        }
      }
    }

    /** `drop_y`: moves the pose down while it does not collide. */
    method DropY(loc: Location) returns (y: int)
      requires Valid() && loc.piece != G
      ensures y == DropRow(loc, loc.y)
    {
      y := loc.y;
      while true
        invariant DropRow(loc, y) == DropRow(loc, loc.y)
        decreases y + 1
      {
        var hit := Collides(loc.(y := y));
        if hit {
          break;
        }
        DropRowFree(loc, y);
        y := y - 1;
      }
      y := y + 1;
    }

    /** From a free row the drop goes on one row lower, and a free row is on the board. */
    lemma DropRowFree(loc: Location, y: int)
      requires Valid() && loc.piece != G && !Collision(loc.(y := y))
      ensures DropRow(loc, y) == DropRow(loc, y - 1) && 0 <= y
    {
      FreeInGrid(loc.(y := y));
    }

    /**
     * `drop_y` from a free pose: the row it returns is at or below the pose,
     * free, and directly above a collision.
     */
    lemma DropFromFree(loc: Location)
      requires Valid() && loc.piece != G && !Collision(loc)
      ensures var r := DropRow(loc, loc.y);
        r <= loc.y && !Collision(loc.(y := r)) && Collision(loc.(y := r - 1))
    {
      assert loc.(y := loc.y) == loc;
      DropRowFree(loc, loc.y);
      DropRowRests(loc, loc.y);
    }

    /**
     * `shift`: the pose moved `offset` columns, unless that collides. Shifting
     * never spins. The contract is the reference definition; TryShift is proved
     * against it.
     */
    function Shift(loc: Location, offset: int): (r: Option<Move>)
      requires Valid() && loc.piece != G
      reads this, grid
      ensures r.None? <==> Collision(loc.(x := loc.x + offset))
      ensures r.Some? ==> r.value.location == loc.(x := loc.x + offset) && r.value.spin == NoSpin
    {
      var moved := loc.(x := loc.x + offset);
      if Collision(moved) then None else Some(Move(moved, NoSpin))
    }

    /**
     * `soft_drop`: the pose dropped to where it rests, or None when it
     * already rests. For a free pose the result is free, lower, and rests.
     */
    function SoftDrop(loc: Location): (r: Option<Move>)
      requires Valid() && loc.piece != G
      reads this, grid
      ensures r.None? <==> DropRow(loc, loc.y) == loc.y
      ensures !Collision(loc) ==> (r.None? <==> Collision(loc.(y := loc.y - 1)))
      ensures r.Some? ==> r.value.location == loc.(y := DropRow(loc, loc.y)) && r.value.spin == NoSpin
      ensures r.Some? && !Collision(loc) ==>
        r.value.location.y < loc.y && !Collision(r.value.location) &&
        Collision(r.value.location.(y := r.value.location.y - 1))
    {
      DropRowRests(loc, loc.y);
      var y := DropRow(loc, loc.y);
      if y == loc.y then None else Some(Move(loc.(y := y), NoSpin))
    }

    /** How many of the cells at `offsets` from the pose's reference cell are occupied. */
    function CountOccupied(loc: Location, offsets: seq<Offset>): (n: nat)
      requires Valid()
      reads this, grid
      ensures n <= |offsets|
    {
      if offsets == [] then 0
      else (if Occupied(loc.x + offsets[0].0, loc.y + offsets[0].1) then 1 else 0) + CountOccupied(loc, offsets[1..])
    }

    /**
     * The spin a rotation into `loc` through kick `k` earns. Only a T spins.
     * With at least 3 of its 4 corners occupied it is Full when both corners
     * flanking its point are occupied or the last kick was used, and Mini
     * otherwise; with fewer than 3 occupied corners there is no spin.
     */
    function SpinFor(loc: Location, k: nat): (r: Spin)
      requires Valid()
      reads this, grid
      ensures loc.piece != T ==> r == NoSpin
    {
      if loc.piece != T then NoSpin
      else if CountOccupied(loc, Corners) >= 3 then
        (if CountOccupied(loc, MiniCorners(loc.orientation)) == 2 || k == 4 then Full else Mini)
      else NoSpin
    }

    /** The offsets whose cells, relative to the pose's reference cell, are occupied. */
    ghost function OccupiedAt(loc: Location, offsets: seq<Offset>): set<Offset>
      requires Valid()
      reads this, grid
    {
      set c | c in offsets && Occupied(loc.x + c.0, loc.y + c.1)
    }

    /** Counting occupied cells one offset at a time gives how many distinct offsets are occupied. */
    lemma {:induction false} CountOccupiedIsSize(loc: Location, offsets: seq<Offset>)
      requires Valid() && forall i, j :: 0 <= i < j < |offsets| ==> offsets[i] != offsets[j]
      ensures CountOccupied(loc, offsets) == |OccupiedAt(loc, offsets)|
      decreases |offsets|
    {
      if offsets != [] {
        var c, tail := offsets[0], offsets[1..];
        CountOccupiedIsSize(loc, tail);
        DistinctHead(offsets);
        var rest := OccupiedAt(loc, tail);
        if Occupied(loc.x + c.0, loc.y + c.1) {
          assert CountOccupied(loc, offsets) == 1 + CountOccupied(loc, tail);
          assert c in rest ==> c in tail;
          assert OccupiedAt(loc, offsets) == rest + {c};
          assert |rest + {c}| == |rest| + 1;
        } else {
          assert CountOccupied(loc, offsets) == CountOccupied(loc, tail);
          assert OccupiedAt(loc, offsets) == rest;
        }
      }
    }

    /**
     * The T-spin rule: only a T spins, and only with at least three of its
     * four diagonal corners occupied; the spin is then Full when both corners
     * flanking the T's point are occupied or the last kick was used, and
     * Mini otherwise.
     */
    lemma SpinClassification(loc: Location, k: nat)
      requires Valid()
      ensures var corners := |OccupiedAt(loc, Corners)| >= 3;
        var mini := MiniCorners(loc.orientation);
        var pointed := Occupied(loc.x + mini[0].0, loc.y + mini[0].1) && Occupied(loc.x + mini[1].0, loc.y + mini[1].1);
        && (SpinFor(loc, k) == Full <==> loc.piece == T && corners && (pointed || k == 4))
        && (SpinFor(loc, k) == Mini <==> loc.piece == T && corners && !pointed && k != 4)
        && (SpinFor(loc, k) == NoSpin <==> loc.piece != T || !corners)
    {
      CountOccupiedIsSize(loc, Corners);
      BothCorners(loc, MiniCorners(loc.orientation));
    }

    /** Two cells are counted exactly when both are occupied. */
    lemma BothCorners(loc: Location, pair: seq<Offset>)
      requires Valid() && |pair| == 2
      ensures CountOccupied(loc, pair) == 2 <==>
        Occupied(loc.x + pair[0].0, loc.y + pair[0].1) && Occupied(loc.x + pair[1].0, loc.y + pair[1].1)
    {
      var tail := pair[1..];
      assert tail[0] == pair[1] && tail[1..] == [];
      assert CountOccupied(loc, tail) == if Occupied(loc.x + pair[1].0, loc.y + pair[1].1) then 1 else 0;
    }

    /** Tries kicks `k`, `k + 1`, ..., 4 in order and takes the first pose that does not collide. */
    function RotateFrom(loc: Location, rot: Rotation, k: nat): (r: Option<Move>)
      requires Valid() && loc.piece != G && k <= 5
      reads this, grid
      ensures r.Some? ==> (r.value.location.piece == loc.piece &&
                           r.value.location.orientation == Turn(loc.orientation, rot) &&
                           !Collision(r.value.location) && (loc.piece != T ==> r.value.spin == NoSpin))
      decreases 5 - k
    {
      if k == 5 then None
      else
        var next := Kicked(loc, rot, k);
        if !Collision(next) then Some(Move(next, SpinFor(next, k)))
        else RotateFrom(loc, rot, k + 1)
    }

    /** Kick `j` is the first of kicks `k`, ..., 4 whose pose does not collide. */
    ghost predicate FirstFreeKick(loc: Location, rot: Rotation, k: nat, j: nat)
      requires Valid() && loc.piece != G
      reads this, grid
    {
      k <= j < 5 && !Collision(Kicked(loc, rot, j)) &&
      forall i :: k <= i < j ==> Collision(Kicked(loc, rot, i))
    }

    /**
     * RotateFrom fails exactly when every remaining kick collides, and
     * otherwise takes the first kick that does not, with the spin it earns.
     */
    lemma {:induction false} RotateFromKicks(loc: Location, rot: Rotation, k: nat)
      requires Valid() && loc.piece != G && k <= 5
      ensures RotateFrom(loc, rot, k).None? <==> forall j :: k <= j < 5 ==> Collision(Kicked(loc, rot, j))
      ensures RotateFrom(loc, rot, k).Some? ==>
        exists j :: FirstFreeKick(loc, rot, k, j) &&
          RotateFrom(loc, rot, k).value == Move(Kicked(loc, rot, j), SpinFor(Kicked(loc, rot, j), j))
      decreases 5 - k
    {
      if k < 5 {
        if Collision(Kicked(loc, rot, k)) {
          RotateFromKicks(loc, rot, k + 1);
          if RotateFrom(loc, rot, k + 1).Some? {
            var j :| FirstFreeKick(loc, rot, k + 1, j) &&
              RotateFrom(loc, rot, k + 1).value == Move(Kicked(loc, rot, j), SpinFor(Kicked(loc, rot, j), j));
            assert FirstFreeKick(loc, rot, k, j);
          }
        } else {
          assert FirstFreeKick(loc, rot, k, k);
        }
      }
    }

    /**
     * `rotate`: turns the pose one step in direction `rot`, trying the five
     * kicks of the table in order. A result is a free pose of the same piece
     * in the new orientation, spinning only if the piece is T.
     */
    function Rotate(loc: Location, rot: Rotation): (r: Option<Move>)
      requires Valid() && loc.piece != G
      reads this, grid
      ensures r.Some? ==> (r.value.location.piece == loc.piece &&
                           r.value.location.orientation == Turn(loc.orientation, rot) &&
                           !Collision(r.value.location) && (loc.piece != T ==> r.value.spin == NoSpin))
    {
      RotateFrom(loc, rot, 0)
    }

    /**
     * The result of `rotate` is None exactly when all five kicked poses
     * collide; otherwise it is the first kicked pose that does not, with the
     * spin that kick earns.
     */
    lemma RotateTriesKicksInOrder(loc: Location, rot: Rotation)
      requires Valid() && loc.piece != G
      ensures Rotate(loc, rot).None? <==> forall j :: 0 <= j < 5 ==> Collision(Kicked(loc, rot, j))
      ensures Rotate(loc, rot).Some? ==>
        exists j :: FirstFreeKick(loc, rot, 0, j) &&
          Rotate(loc, rot).value == Move(Kicked(loc, rot, j), SpinFor(Kicked(loc, rot, j), j))
    {
      RotateFromKicks(loc, rot, 0);
    }

    /** `shift`, as the search runs it. */
    method TryShift(loc: Location, offset: int) returns (r: Option<Move>)
      requires Valid() && loc.piece != G
      ensures r == Shift(loc, offset)
    {
      var moved := loc.(x := loc.x + offset);
      var hit := Collides(moved);
      if hit {
        return None;
      }
      return Some(Move(moved, NoSpin));
    }

    /** `rotate`, as the search runs it: the kicks are tried in a loop that returns at the first free pose. */
    method TryRotate(loc: Location, rot: Rotation) returns (r: Option<Move>)
      requires Valid() && loc.piece != G
      ensures r == Rotate(loc, rot)
    {
      var kicks := SrsTable(loc.piece, loc.orientation, rot);
      var orientation := Turn(loc.orientation, rot);
      for i := 0 to 5
        invariant forall j :: 0 <= j < i ==> Collision(Kicked(loc, rot, j))
      {
        var next := Location(loc.piece, orientation, loc.x + kicks[i].0, loc.y + kicks[i].1);
        assert next == Kicked(loc, rot, i);
        var hit := Collides(next);
        if !hit {
          RotateFromSkips(loc, rot, i);
          return Some(Move(next, SpinFor(next, i)));
        }
      }
      RotateFromSkips(loc, rot, 5);
      return None;
    }

    /** Kicks that collide are passed over: the first `k` of them, here. */
    lemma {:induction false} RotateFromSkips(loc: Location, rot: Rotation, k: nat)
      requires Valid() && loc.piece != G && k <= 5
      requires forall j :: 0 <= j < k ==> Collision(Kicked(loc, rot, j))
      ensures RotateFrom(loc, rot, 0) == RotateFrom(loc, rot, k)
    {
      if k > 0 {
        RotateFromSkips(loc, rot, k - 1);
      }
    }

    /** `soft_drop`, as the search runs it. */
    method TrySoftDrop(loc: Location) returns (r: Option<Move>)
      requires Valid() && loc.piece != G
      ensures r == SoftDrop(loc)
    {
      var y := DropY(loc);
      if y == loc.y {
        return None;
      }
      return Some(Move(loc.(y := y), NoSpin));
    }

    /**
     * The placement a search records for a pose it visits: the pose dropped
     * to rest, keeping its spin only if it did not move. A free pose rests
     * on a free row directly above an obstacle.
     */
    function Resting(v: Move): (r: Move)
      requires Valid() && v.location.piece != G
      reads this, grid
      ensures r.location.piece == v.location.piece && r.location.orientation == v.location.orientation
      ensures r.location.x == v.location.x
      ensures r.location.y == DropRow(v.location, v.location.y)
      ensures r.location.y != v.location.y ==> r.spin == NoSpin
      ensures r.location.y == v.location.y ==> r == v
      ensures !Collision(v.location) ==>
        r.location.y <= v.location.y && !Collision(r.location) &&
        Collision(r.location.(y := r.location.y - 1))
    {
      DropRowRests(v.location, v.location.y);
      var y := DropRow(v.location, v.location.y);
      if y == v.location.y then v else Move(v.location.(y := y), NoSpin)
    }

    /**
     * What the five actions of the search give, in the order it tries them:
     * shift left, shift right, rotate clockwise, rotate anticlockwise, soft
     * drop. None marks an action that is not possible.
     */
    function Options(loc: Location): (r: seq<Option<Move>>)
      requires Valid() && loc.piece != G
      reads this, grid
      ensures |r| == 5
    {
      [Shift(loc, -1), Shift(loc, 1), Rotate(loc, Clockwise), Rotate(loc, AntiClockwise), SoftDrop(loc)]
    }

    /**
     * Every action from a free pose leads to a free pose of the same piece,
     * without spin unless the piece is T.
     */
    lemma OptionsStay(loc: Location)
      requires Valid() && loc.piece != G && !Collision(loc)
      ensures forall o :: o in Options(loc) && o.Some? ==>
        o.value.location.piece == loc.piece && !Collision(o.value.location) &&
        (loc.piece != T ==> o.value.spin == NoSpin)
    {
      var r := Options(loc);
      assert r[0] == Shift(loc, -1) && r[1] == Shift(loc, 1) && r[2] == Rotate(loc, Clockwise);
      assert r[3] == Rotate(loc, AntiClockwise) && r[4] == SoftDrop(loc);
    }

    /** `to` is one action away from `from`: a shift, a rotation or a soft drop. */
    ghost predicate Step(from: Location, to: Move)
      requires Valid() && from.piece != G
      reads this, grid
    {
      Some(to) in Options(from)
    }

    /** A sequence of poses that starts at the spawn pose of `p` and takes one action per step. */
    ghost predicate IsRoute(p: Piece, path: seq<Move>)
      requires Valid() && p != G
      reads this, grid
    {
      |path| > 0 && path[0] == Spawn(p) &&
      (forall i :: 0 <= i < |path| ==> path[i].location.piece == p) &&
      (forall i :: 0 <= i < |path| - 1 ==> Step(path[i].location, path[i + 1]))
    }

    /** Poses of `p` a player can reach from spawn. */
    ghost predicate Reachable(p: Piece, m: Move)
      requires Valid() && p != G
      reads this, grid
    {
      exists path :: IsRoute(p, path) && path[|path| - 1] == m
    }

    /**
     * What gen_moves_for_piece returns: strictly increasing in the derived
     * order, and holding exactly the resting placements of the reachable poses.
     */
    ghost predicate MovesFor(p: Piece, moves: seq<Move>)
      requires Valid() && p != G
      reads this, grid
    {
      Sorting.Increasing(moves, Ordering.MoveLess) && forall m :: m in moves <==> Placement(p, m)
    }

    /** `m` is where some reachable pose of `p` comes to rest. */
    ghost predicate Placement(p: Piece, m: Move)
      requires Valid() && p != G
      reads this, grid
    {
      exists v: Move :: v.location.piece == p && Reachable(p, v) && m == Resting(v)
    }

    /** `m` is a free pose of `p` on an obstacle one row below it, spinning only if `p` is T. */
    ghost predicate Rests(p: Piece, m: Move)
      requires Valid() && p != G
      reads this, grid
    {
      m.location.piece == p && !Collision(m.location) &&
      Collision(m.location.(y := m.location.y - 1)) && (p != T ==> m.spin == NoSpin)
    }

    /** Every placement of a piece whose spawn pose fits rests. */
    lemma PlacementRests(p: Piece, m: Move)
      requires Valid() && p != G && !Collision(Spawn(p).location)
      requires Placement(p, m)
      ensures Rests(p, m)
    {
      var v: Move :| v.location.piece == p && Reachable(p, v) && m == Resting(v);
      ReachableIsPose(p, v);
      PoseRests(p, v);
    }

    /** A free pose, spinning only if the piece is T, comes to rest on an obstacle. */
    lemma PoseRests(p: Piece, v: Move)
      requires Valid() && p != G && v in Poses(p)
      ensures Rests(p, Resting(v))
    {
      assert v.location.piece == p && !Collision(v.location) && (p != T ==> v.spin == NoSpin);
    }

    /** Every reachable pose of a piece whose spawn pose fits is free, spinning only if the piece is T. */
    lemma ReachableIsPose(p: Piece, v: Move)
      requires Valid() && p != G && !Collision(Spawn(p).location)
      requires Reachable(p, v)
      ensures v in Poses(p)
    {
      var path :| IsRoute(p, path) && path[|path| - 1] == v;
      PosesStepClosed(p);
      FreeInGrid(Spawn(p).location);
      InUniverse(Spawn(p));
      ClosedHoldsRoutes(p, Poses(p), path);
    }

    /** The spawn pose's own resting placement is always among the moves: the list is never empty. */
    lemma SpawnPlacement(p: Piece, moves: seq<Move>)
      requires Valid() && p != G && MovesFor(p, moves)
      ensures Resting(Spawn(p)) in moves
    {
      assert IsRoute(p, [Spawn(p)]);
      assert Placement(p, Resting(Spawn(p)));
    }

    /** The list gen_moves_for_piece returns is determined by the board and the piece. */
    lemma MovesForUnique(p: Piece, a: seq<Move>, b: seq<Move>)
      requires Valid() && p != G && MovesFor(p, a) && MovesFor(p, b)
      ensures a == b
    {
      Ordering.MoveLessIsStrictTotalOrder();
      Sorting.IncreasingUnique(a, b, Ordering.MoveLess);
    }

    /** A set that holds the spawn pose and is closed under the actions holds every reachable pose. */
    lemma {:induction false} ClosedHoldsRoutes(p: Piece, visited: set<Move>, path: seq<Move>)
      requires Valid() && p != G && Spawn(p) in visited
      requires forall v :: v in visited ==> v.location.piece == p
      requires forall v, m :: v in visited && Step(v.location, m) ==> m in visited
      requires IsRoute(p, path)
      ensures path[|path| - 1] in visited
      decreases |path|
    {
      if |path| > 1 {
        var prefix := path[..|path| - 1];
        assert IsRoute(p, prefix);
        ClosedHoldsRoutes(p, visited, prefix);
        assert Step(path[|path| - 2].location, path[|path| - 1]);
      }
    }

    /** The free poses of `p`, spinning only if `p` is T: where every search stays. */
    ghost function Poses(p: Piece): set<Move>
      requires Valid() && p != G
      reads this, grid
    {
      set m | m in Universe(p) && !Collision(m.location) && (p != T ==> m.spin == NoSpin)
    }

    /**
     * `succ` and `rest` tabulate, for every pose of `p` in their domain, what
     * its five actions produce and where it comes to rest.
     */
    ghost predicate Explains(p: Piece, succ: Successors, rest: map<Move, Move>)
      requires Valid() && p != G
      reads this, grid
    {
      succ.Keys == rest.Keys &&
      (forall m :: m in succ ==> m.location.piece == p) &&
      (forall m {:trigger Options(m.location)} :: m in succ && m.location.piece == p ==> succ[m] == Options(m.location)) &&
      (forall m {:trigger Resting(m)} :: m in rest && m.location.piece == p ==> rest[m] == Resting(m))
    }

    /** The poses of `p` are members of its Universe, and every action from one leads to another. */
    lemma PosesClosed(p: Piece, m: Move)
      requires Valid() && p != G && m in Poses(p)
      ensures m.location.piece == p
      ensures forall o :: o in Options(m.location) && o.Some? ==> o.value in Poses(p)
    {
      OptionsStay(m.location);
      forall o | o in Options(m.location) && o.Some?
        ensures o.value in Poses(p)
      {
        FreeInGrid(o.value.location);
        InUniverse(o.value);
      }
    }

    /** What the five actions produce, for every pose of `p`. */
    ghost function SuccessorTable(p: Piece): (succ: Successors)
      requires Valid() && p != G
      reads this, grid
      ensures succ.Keys == Poses(p)
    {
      var poses := Poses(p);
      assert forall m :: m in poses ==> m.location.piece == p by {
        forall m | m in poses
          ensures m.location.piece == p
        {
          PosesClosed(p, m);
        }
      }
      map m | m in poses :: Options(m.location)
    }

    /** Where every pose of `p` comes to rest. */
    ghost function RestTable(p: Piece): (rest: map<Move, Move>)
      requires Valid() && p != G
      reads this, grid
      ensures rest.Keys == Poses(p)
    {
      var poses := Poses(p);
      assert forall m :: m in poses ==> m.location.piece == p by {
        forall m | m in poses
          ensures m.location.piece == p
        {
          PosesClosed(p, m);
        }
      }
      map m | m in poses :: Resting(m)
    }

    /** The tables explain the board. */
    lemma TablesExplain(p: Piece)
      requires Valid() && p != G
      ensures Explains(p, SuccessorTable(p), RestTable(p))
    {
      var succ := SuccessorTable(p);
      forall m | m in succ
        ensures m.location.piece == p
      {
        PosesClosed(p, m);
      }
    }

    /** Every action from a pose of `p` leads to a pose of `p`. */
    lemma TableClosed(p: Piece)
      requires Valid() && p != G
      ensures Closed(SuccessorTable(p))
    {
      var succ := SuccessorTable(p);
      forall m | m in succ
        ensures forall o: Option<Move> :: o in succ[m] && o.Some? ==> o.value in succ
      {
        PosesClosed(p, m);
      }
    }

    /** The five actions of the search loop, in its order, for a pose in the tables. */
    method Neighbours(mv: Move, ghost p: Piece, ghost succ: Successors, ghost rest: map<Move, Move>)
      returns (options: seq<Option<Move>>)
      requires Valid() && p != G && Explains(p, succ, rest) && mv in succ
      ensures options == succ[mv] && |options| == 5
    {
      options := Actions(mv.location);
    }

    /** Two lists of five actions that agree element by element are equal. */
    lemma FiveEqual(a: seq<Option<Move>>, b: seq<Option<Move>>)
      requires |a| == 5 && |b| == 5
      requires a[0] == b[0] && a[1] == b[1] && a[2] == b[2] && a[3] == b[3] && a[4] == b[4]
      ensures a == b
    {
    }

    /** The five actions the search tries from `loc`, each run by its method. */
    method Actions(loc: Location) returns (options: seq<Option<Move>>)
      requires Valid() && loc.piece != G
      ensures options == Options(loc)
    {
      var left, right := Shifts(loc);
      var clockwise, anticlockwise := Rotations(loc);
      var drop := TrySoftDrop(loc);
      options := [left, right, clockwise, anticlockwise, drop];
      OptionsAre(loc, options);
    }

    /** The two shifts, left then right. */
    method Shifts(loc: Location) returns (left: Option<Move>, right: Option<Move>)
      requires Valid() && loc.piece != G
      ensures left == Shift(loc, -1) && right == Shift(loc, 1)
    {
      left := TryShift(loc, -1);
      right := TryShift(loc, 1);
    }

    /** The two rotations, clockwise then anticlockwise. */
    method Rotations(loc: Location) returns (clockwise: Option<Move>, anticlockwise: Option<Move>)
      requires Valid() && loc.piece != G
      ensures clockwise == Rotate(loc, Clockwise) && anticlockwise == Rotate(loc, AntiClockwise)
    {
      clockwise := TryRotate(loc, Clockwise);
      anticlockwise := TryRotate(loc, AntiClockwise);
    }

    /** A list holding the five action results in order is Options. */
    lemma OptionsAre(loc: Location, options: seq<Option<Move>>)
      requires Valid() && loc.piece != G && |options| == 5
      requires options[0] == Shift(loc, -1) && options[1] == Shift(loc, 1)
      requires options[2] == Rotate(loc, Clockwise) && options[3] == Rotate(loc, AntiClockwise)
      requires options[4] == SoftDrop(loc)
      ensures options == Options(loc)
    {
      FiveEqual(options, Options(loc));
    }

    /** The placement the search records for a dequeued pose: dropped with drop_y, spin kept only if it did not move. */
    method RestingPlace(mv: Move, ghost p: Piece, ghost succ: Successors, ghost rest: map<Move, Move>)
      returns (r: Move)
      requires Valid() && p != G && Explains(p, succ, rest) && mv in rest
      ensures r == rest[mv]
    {
      var y := DropY(mv.location);
      var spin := NoSpin;
      if y == mv.location.y {
        spin := mv.spin;
      }
      r := Move(mv.location.(y := y), spin);
      assert r == Resting(mv);
    }

    /**
     * The breadth-first search of gen_moves_for_piece, against the tables: it
     * visits exactly the poses reachable from spawn, and records the resting
     * placement of each.
     */
    method Search(p: Piece, ghost succ: Successors, ghost rest: map<Move, Move>)
      returns (moveList: seq<Move>, ghost visited: set<Move>)
      requires Valid() && p != G && Explains(p, succ, rest) && Closed(succ) && Spawn(p) in succ
      ensures Spawn(p) in visited && visited <= succ.Keys
      ensures forall v :: v in visited ==> forall o :: o in succ[v] && o.Some? ==> o.value in visited
      ensures forall v :: v in visited ==> ReachableIn(succ, Spawn(p), v)
      ensures forall m :: m in moveList <==> exists v :: v in visited && m == rest[v]
    {
      var spawn := Spawn(p);
      assert PathIn(succ, spawn, [spawn]);
      var frontier := [spawn];
      var seen := {spawn};
      moveList := [];
      while frontier != []
        invariant SearchInv(succ, rest, spawn, frontier, seen, moveList)
        decreases |succ.Keys - seen|, |frontier|
      {
        var mv := frontier[0];
        ghost var frontierBefore := frontier;
        ghost var seenBefore := seen;
        frontier := frontier[1..];
        var r := RestingPlace(mv, p, succ, rest);
        var options := Neighbours(mv, p, succ, rest);
        frontier, seen := Expand(options, frontier, seen);
        SearchStep(succ, rest, spawn, frontierBefore, seenBefore, moveList, frontier, seen);
        moveList := moveList + [r];
        if seen != seenBefore {
          FewerLeft(succ.Keys, seenBefore, seen);
        }
      }
      visited := seen;
    }

    /** No action leads out of the poses of `p`. */
    lemma PosesStepClosed(p: Piece)
      requires Valid() && p != G
      ensures forall v :: v in Poses(p) ==> v.location.piece == p
      ensures forall v, m :: v in Poses(p) && Step(v.location, m) ==> m in Poses(p)
    {
      forall v | v in Poses(p)
        ensures v.location.piece == p
        ensures forall m :: Step(v.location, m) ==> m in Poses(p)
      {
        PosesClosed(p, v);
      }
    }

    /**
     * Tables for `p` that explain the board, are closed under the actions,
     * and hold the spawn pose when it fits.
     */
    lemma Tabulate(p: Piece) returns (succ: Successors, rest: map<Move, Move>)
      requires Valid() && p != G
      ensures Explains(p, succ, rest) && Closed(succ)
      ensures !Collision(Spawn(p).location) ==> Spawn(p) in succ
    {
      succ := SuccessorTable(p);
      rest := RestTable(p);
      TablesExplain(p);
      TableClosed(p);
      if !Collision(Spawn(p).location) {
        FreeInGrid(Spawn(p).location);
        InUniverse(Spawn(p));
      }
    }

    /** A path through the successor table is a route: each step is one of the five actions. */
    lemma {:induction false} PathIsRoute(p: Piece, succ: Successors, rest: map<Move, Move>, path: seq<Move>)
      requires Valid() && p != G && Explains(p, succ, rest) && Closed(succ) && Spawn(p) in succ
      requires PathIn(succ, Spawn(p), path)
      ensures IsRoute(p, path)
    {
      forall i | 0 <= i < |path|
        ensures path[i] in succ
      {
        if i > 0 {
          assert Some(path[i]) in succ[path[i - 1]];
        }
      }
      forall i | 0 <= i < |path| - 1
        ensures Step(path[i].location, path[i + 1])
      {
        assert succ[path[i]] == Options(path[i].location);
      }
    }

    /** A set of poses closed under the table is closed under the actions. */
    lemma ClosedUnderSteps(p: Piece, succ: Successors, rest: map<Move, Move>, visited: set<Move>)
      requires Valid() && p != G && Explains(p, succ, rest)
      requires visited <= succ.Keys
      requires forall v :: v in visited ==> forall o :: o in succ[v] && o.Some? ==> o.value in visited
      ensures forall v :: v in visited ==> v.location.piece == p
      ensures forall v, m :: v in visited && Step(v.location, m) ==> m in visited
    {
      forall v, m | v in visited && Step(v.location, m)
        ensures m in visited
      {
        assert succ[v] == Options(v.location);
        assert Some(m) in succ[v];
      }
    }

    /** Every pose the search visits is reachable on the board. */
    lemma VisitedAreReachable(p: Piece, succ: Successors, rest: map<Move, Move>, visited: set<Move>)
      requires Valid() && p != G && Explains(p, succ, rest) && Closed(succ) && Spawn(p) in succ
      requires forall v :: v in visited ==> ReachableIn(succ, Spawn(p), v)
      ensures forall v :: v in visited ==> Reachable(p, v)
    {
      forall v | v in visited
        ensures Reachable(p, v)
      {
        var path :| PathIn(succ, Spawn(p), path) && path[|path| - 1] == v;
        PathIsRoute(p, succ, rest, path);
      }
    }

    /** Every reachable pose is visited by a search whose visited set is closed under the table. */
    lemma ReachableAreVisited(p: Piece, succ: Successors, rest: map<Move, Move>, visited: set<Move>)
      requires Valid() && p != G && Explains(p, succ, rest)
      requires Spawn(p) in visited && visited <= succ.Keys
      requires forall v :: v in visited ==> forall o :: o in succ[v] && o.Some? ==> o.value in visited
      ensures forall v :: Reachable(p, v) ==> v in visited
    {
      ClosedUnderSteps(p, succ, rest, visited);
      forall v | Reachable(p, v)
        ensures v in visited
      {
        var path :| IsRoute(p, path) && path[|path| - 1] == v;
        ClosedHoldsRoutes(p, visited, path);
      }
    }

    /**
     * What the search visits, read back on the board: the poses it visits are
     * exactly the reachable ones, so its recorded placements are exactly the
     * resting placements of reachable poses.
     */
    lemma SearchFindsReachable(p: Piece, succ: Successors, rest: map<Move, Move>,
                               visited: set<Move>, moveList: seq<Move>)
      requires Valid() && p != G && Explains(p, succ, rest) && Closed(succ)
      requires Spawn(p) in visited && visited <= succ.Keys
      requires forall v :: v in visited ==> forall o :: o in succ[v] && o.Some? ==> o.value in visited
      requires forall v :: v in visited ==> ReachableIn(succ, Spawn(p), v)
      requires forall m :: m in moveList <==> exists v :: v in visited && m == rest[v]
      ensures forall m :: m in moveList <==> Placement(p, m)
    {
      VisitedAreReachable(p, succ, rest, visited);
      ReachableAreVisited(p, succ, rest, visited);
      forall m
        ensures m in moveList <==> Placement(p, m)
      {
        if m in moveList {
          var v :| v in visited && m == rest[v];
          assert rest[v] == Resting(v);
        }
        if Placement(p, m) {
          var v: Move :| v.location.piece == p && Reachable(p, v) && m == Resting(v);
          assert rest[v] == Resting(v);
        }
      }
    }

    /**
     * The search part of gen_moves_for_piece, before sorting: a list holding
     * exactly the resting placements of the poses reachable from spawn.
     */
    method SearchPlacements(p: Piece) returns (moveList: seq<Move>)
      requires Valid() && p != G && !Collision(Spawn(p).location)
      ensures forall m :: m in moveList <==> Placement(p, m)
    {
      ghost var succ, rest := Tabulate(p);
      ghost var visited;
      moveList, visited := Search(p, succ, rest);
      SearchFindsReachable(p, succ, rest, visited, moveList);
    }

    /**
     * `gen_moves_for_piece`: the placements found by the search, sorted and
     * deduplicated. The result is strictly increasing and holds exactly the
     * resting placements of the poses reachable from spawn.
     */
    method GenMovesForPiece(p: Piece) returns (moves: seq<Move>)
      requires Valid() && p != G && !Collision(Spawn(p).location)
      ensures MovesFor(p, moves)
    {
      var moveList := SearchPlacements(p);
      Ordering.MoveLessIsStrictTotalOrder();
      moves := Sorting.SortDedup(moveList, Ordering.MoveLess);
    }

    /** Every move gen_moves_for_piece returns places the piece it was asked for. */
    lemma PiecesOf(p: Piece, moves: seq<Move>)
      requires Valid() && p != G && MovesFor(p, moves)
      ensures forall m :: m in moves ==> m.location.piece == p
    {
    }

    /** Every move gen_moves_for_piece returns is a free pose resting on an obstacle. */
    lemma MovesForRest(p: Piece, moves: seq<Move>)
      requires Valid() && p != G && !Collision(Spawn(p).location) && MovesFor(p, moves)
      ensures forall m :: m in moves ==> Rests(p, m)
    {
      forall m | m in moves
        ensures Rests(p, m)
      {
        PlacementRests(p, m);
      }
    }

    /** A search for `p` can start: `p` is a real piece and its spawn pose fits. */
    predicate Spawnable(p: Piece)
      requires Valid()
      reads this, grid
    {
      p != G && !Collision(Spawn(p).location)
    }

    /**
     * `gen_moves`: the moves for the current piece, followed by those for the
     * held piece or, when nothing is held, for the next piece. Each block is
     * what gen_moves_for_piece returns for its piece.
     */
    method GenMoves() returns (moves: seq<Move>)
      requires Valid() && |queue| > 0 && Spawnable(queue[0])
      requires hold.Some? ==> Spawnable(hold.value)
      requires hold.None? && |queue| >= 2 ==> Spawnable(queue[1])
      ensures exists k :: (0 <= k <= |moves| && MovesFor(queue[0], moves[..k]) &&
        if hold.Some? then MovesFor(hold.value, moves[k..])
        else if |queue| >= 2 then MovesFor(queue[1], moves[k..])
        else k == |moves|)
      ensures forall m :: m in moves ==> m.location.piece in Offered(hold, queue)
    {
      var first := GenMovesForPiece(queue[0]);
      PiecesOf(queue[0], first);
      moves := first;
      if hold.Some? {
        var more := GenMovesForPiece(hold.value);
        PiecesOf(hold.value, more);
        moves := moves + more;
        assert moves[..|first|] == first && moves[|first|..] == more;
      } else if |queue| >= 2 {
        var more := GenMovesForPiece(queue[1]);
        PiecesOf(queue[1], more);
        moves := moves + more;
        assert moves[..|first|] == first && moves[|first|..] == more;
      } else {
        assert moves[..|first|] == first;
      }
    }

    /**
     * `make_move`: a new board with the piece's four cells locked, the rows
     * it completes cleared, and hold and queue advanced; this board is left
     * as it was. The cells must lie inside the grid.
     */
    method MakeMove(mv: Move) returns (next: Board)
      requires Valid() && mv.location.piece != G && |queue| > 0
      requires AllInGrid(Footprint(mv.location))
      ensures fresh(next) && fresh(next.grid) && next.Valid()
      ensures next.Rows() == Placed(Rows(), Footprint(mv.location))
      ensures (next.hold, next.queue) == AfterPlay(hold, queue, mv.location.piece)
      ensures next.combo == combo && next.backToBack == backToBack
    {
      var g := new Cell[Height, Width]((y, x) reads this, grid requires Valid() && 0 <= y < Height && 0 <= x < Width =>
        grid[y, x]);
      assert RowsOf(g) == Rows() by {
        SameCells(RowsOf(g), Rows());
      }
      var cells := AbsoluteCells(mv.location);
      Place(g, cells);

      var nextHold := hold;
      var nextQueue := queue;
      if mv.location.piece != nextQueue[0] {
        if nextHold == None && |nextQueue| >= 2 {
          nextHold := Some(nextQueue[0]);
          nextQueue := nextQueue[1..];
        } else {
          nextHold := Some(nextQueue[0]);
        }
      }
      nextQueue := nextQueue[1..];
      next := new Board.Of(nextHold, nextQueue, combo, backToBack, g);
    }

    /**
     * A pose that does not collide can be played: its cells lie in the grid,
     * and afterwards the playfield holds its four cells, every cleared row
     * was one it completed, and the top rows, one per cleared row, are empty.
     */
    lemma FreeMovePlaces(loc: Location)
      requires Valid() && loc.piece != G && !Collision(loc)
      ensures AllInGrid(Footprint(loc))
      ensures var cells := Footprint(loc);
        var full := FullRows(LockCells(Rows(), cells), cells);
        var r := Placed(Rows(), cells);
        && IsGrid(r)
        && (forall y :: y in full ==> exists i :: 0 <= i < 4 && cells[i].1 == y)
        && (forall y :: Height - |full| <= y < Height ==> r[y] == EmptyRow())
        && Count(r) == Count(Rows()) + 4 - Width * |full|
    {
      FreeInGrid(loc);
      FootprintShape(loc);
      PlacedFacts(Rows(), Footprint(loc));
    }

    /** `make_move_in_place`: this board becomes the board make_move returns. */
    method MakeMoveInPlace(mv: Move)
      requires Valid() && mv.location.piece != G && |queue| > 0
      requires AllInGrid(Footprint(mv.location))
      modifies this
      ensures Valid() && fresh(grid)
      ensures Rows() == Placed(old(Rows()), Footprint(mv.location))
      ensures (hold, queue) == AfterPlay(old(hold), old(queue), mv.location.piece)
      ensures combo == old(combo) && backToBack == old(backToBack)
    {
      var next := MakeMove(mv);
      hold, queue, combo, backToBack, grid := next.hold, next.queue, next.combo, next.backToBack, next.grid;
    }
  }
}

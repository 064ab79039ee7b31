/**
 * Pieces, orientations and the two geometry tables of lib/src/tetris.rs:
 * the four cell offsets of every piece in every orientation, and the
 * Super Rotation System kick offsets tried when a piece is rotated.
 * Coordinates are y-up: +y points towards the top of the board.
 */
module Pieces {

  /** The seven tetrominoes plus `G`, the marker for garbage cells, which is never placed. */
  datatype Piece = O | I | T | L | J | S | Z | G

  datatype Orientation = North | East | South | West

  /** `NoSpin` is the source's `Spin::None`. */
  datatype Spin = NoSpin | Mini | Full

  datatype Rotation = Clockwise | AntiClockwise

  /** A pose: piece, rotation state and the board position of the piece's reference cell. */
  datatype Location = Location(piece: Piece, orientation: Orientation, x: int, y: int)

  datatype Move = Move(location: Location, spin: Spin)

  type Offset = (int, int)

  /** Position of an orientation in the clockwise cycle North, East, South, West. */
  function Rank(o: Orientation): (r: nat)
    ensures r < 4
  {
    match o
    case North => 0
    case East => 1
    case South => 2
    case West => 3
  }

  /** The orientation reached by turning `o` one step in direction `rot`. */
  function Turn(o: Orientation, rot: Rotation): (r: Orientation)
    ensures rot == Clockwise ==> Rank(r) == (Rank(o) + 1) % 4
    ensures rot == AntiClockwise ==> Rank(r) == (Rank(o) + 3) % 4
  {
    match o
    case North => (match rot case Clockwise => East case AntiClockwise => West)
    case East => (match rot case Clockwise => South case AntiClockwise => North)
    case South => (match rot case Clockwise => West case AntiClockwise => East)
    case West => (match rot case Clockwise => North case AntiClockwise => South)
  }

  function Reverse(rot: Rotation): Rotation
  {
    match rot
    case Clockwise => AntiClockwise
    case AntiClockwise => Clockwise
  }

  lemma RankInjective(a: Orientation, b: Orientation)
    requires Rank(a) == Rank(b)
    ensures a == b
  {
  }

  /** Turning one way and then the other way returns to the start. */
  lemma {:induction false} TurnBack(o: Orientation, rot: Rotation)
    ensures Turn(Turn(o, rot), Reverse(rot)) == o
  {
    RankInjective(Turn(Turn(o, rot), Reverse(rot)), o);
  }

  /** Four clockwise quarter turns are the identity. */
  lemma {:induction false} FullTurn(o: Orientation)
    ensures Turn(Turn(Turn(Turn(o, Clockwise), Clockwise), Clockwise), Clockwise) == o
  {
    RankInjective(Turn(Turn(Turn(Turn(o, Clockwise), Clockwise), Clockwise), Clockwise), o);
  }

  /** The cell offsets of piece `p` in orientation `o`, relative to the reference cell. */
  function Cells(p: Piece, o: Orientation): (r: seq<Offset>)
    requires p != G
    ensures |r| == 4 && r[0] == (0, 0)
    ensures forall i, j :: 0 <= i < j < 4 ==> r[i] != r[j]
    ensures forall i :: 0 <= i < 4 ==> -2 <= r[i].0 <= 2 && -2 <= r[i].1 <= 2
  {
    match p
    case O =>
      (match o
       case North => [(0, 0), (1, 0), (0, 1), (1, 1)]
       case East => [(0, 0), (1, 0), (0, -1), (1, -1)]
       case South => [(0, 0), (-1, 0), (0, -1), (-1, -1)]
       case West => [(0, 0), (-1, 0), (0, 1), (-1, 1)])
    case I =>
      (match o
       case North => [(0, 0), (-1, 0), (1, 0), (2, 0)]
       case East => [(0, 0), (0, 1), (0, -1), (0, -2)]
       case South => [(0, 0), (1, 0), (-1, 0), (-2, 0)]
       case West => [(0, 0), (0, -1), (0, 1), (0, 2)])
    case T =>
      (match o
       case North => [(0, 0), (1, 0), (0, 1), (-1, 0)]
       case East => [(0, 0), (0, 1), (1, 0), (0, -1)]
       case South => [(0, 0), (1, 0), (0, -1), (-1, 0)]
       case West => [(0, 0), (0, 1), (-1, 0), (0, -1)])
    case L =>
      (match o
       case North => [(0, 0), (-1, 0), (1, 0), (1, 1)]
       case East => [(0, 0), (0, 1), (0, -1), (1, -1)]
       case South => [(0, 0), (1, 0), (-1, 0), (-1, -1)]
       case West => [(0, 0), (0, -1), (0, 1), (-1, 1)])
    case J =>
      (match o
       case North => [(0, 0), (-1, 0), (1, 0), (-1, 1)]
       case East => [(0, 0), (0, 1), (0, -1), (1, 1)]
       case South => [(0, 0), (1, 0), (-1, 0), (1, -1)]
       case West => [(0, 0), (0, -1), (0, 1), (-1, -1)])
    case S =>
      (match o
       case North => [(0, 0), (-1, 0), (0, 1), (1, 1)]
       case East => [(0, 0), (0, 1), (1, 0), (1, -1)]
       case South => [(0, 0), (1, 0), (0, -1), (-1, -1)]
       case West => [(0, 0), (0, -1), (-1, 0), (-1, 1)])
    case Z =>
      (match o
       case North => [(0, 0), (1, 0), (0, 1), (-1, 1)]
       case East => [(0, 0), (0, -1), (1, 0), (1, 1)]
       case South => [(0, 0), (-1, 0), (0, -1), (1, -1)]
       case West => [(0, 0), (0, 1), (-1, 0), (-1, -1)])
  }

  /** A quarter turn clockwise about the reference cell, in y-up coordinates. */
  function RotateOffset(c: Offset): Offset
  {
    (c.1, -c.0)
  }

  /**
   * Every orientation's cells are the previous orientation's cells turned a
   * quarter clockwise about the reference cell: the table is one shape per
   * piece, rotated, and never a reflection or a shift.
   */
  lemma CellsTurnClockwise(p: Piece, o: Orientation)
    requires p != G
    ensures forall c :: c in Cells(p, o) ==> RotateOffset(c) in Cells(p, Turn(o, Clockwise))
    ensures forall c :: c in Cells(p, Turn(o, Clockwise)) ==> exists d :: d in Cells(p, o) && RotateOffset(d) == c
  {
    var next := Cells(p, Turn(o, Clockwise));
    forall c | c in next
      ensures exists d :: d in Cells(p, o) && RotateOffset(d) == c
    {
      var d := (-c.1, c.0);
      assert RotateOffset(d) == c;
    }
  }

  /** The five kick offsets tried, in order, when rotating `p` from `o` in direction `rot`. */
  function SrsTable(p: Piece, o: Orientation, rot: Rotation): (r: seq<Offset>)
    requires p != G
    ensures |r| == 5 && r[0] == (0, 0)
    ensures p == O ==> forall i :: 0 <= i < 5 ==> r[i] == (0, 0)
  {
    match p
    case I =>
      (match o
       case North =>
         (match rot
          case Clockwise => [(0, 0), (-2, 0), (1, 0), (-2, -1), (1, 2)]
          case AntiClockwise => [(0, 0), (-1, 0), (2, 0), (-1, 2), (2, -1)])
       case East =>
         (match rot
          case Clockwise => [(0, 0), (-1, 0), (2, 0), (-1, 2), (2, -1)]
          case AntiClockwise => [(0, 0), (2, 0), (-1, 0), (2, 1), (-1, -2)])
       case South =>
         (match rot
          case Clockwise => [(0, 0), (2, 0), (-1, 0), (2, 1), (-1, -2)]
          case AntiClockwise => [(0, 0), (1, 0), (-2, 0), (1, -2), (-2, 1)])
       case West =>
         (match rot
          case Clockwise => [(0, 0), (1, 0), (-2, 0), (1, -2), (-2, 1)]
          case AntiClockwise => [(0, 0), (-2, 0), (1, 0), (-2, -1), (1, 2)]))
    case O => [(0, 0), (0, 0), (0, 0), (0, 0), (0, 0)]
    case _ =>
      (match o
       case North =>
         (match rot
          case Clockwise => [(0, 0), (-1, 0), (-1, 1), (0, -2), (-1, -2)]
          case AntiClockwise => [(0, 0), (1, 0), (1, 1), (0, -2), (1, -2)])
       case East =>
         (match rot
          case Clockwise => [(0, 0), (1, 0), (1, -1), (0, 2), (1, 2)]
          case AntiClockwise => [(0, 0), (1, 0), (1, -1), (0, 2), (1, 2)])
       case South =>
         (match rot
          case Clockwise => [(0, 0), (1, 0), (1, 1), (0, -2), (1, -2)]
          case AntiClockwise => [(0, 0), (-1, 0), (-1, 1), (0, -2), (-1, -2)])
       case West =>
         (match rot
          case Clockwise => [(0, 0), (-1, 0), (-1, -1), (0, 2), (-1, 2)]
          case AntiClockwise => [(0, 0), (-1, 0), (-1, -1), (0, 2), (-1, 2)]))
  }

  /** J, L, S, T and Z share one kick table. */
  lemma SharedKicks(p: Piece, o: Orientation, rot: Rotation)
    requires p in {J, L, S, T, Z}
    ensures SrsTable(p, o, rot) == SrsTable(T, o, rot)
  {
  }

  /**
   * The kicks for turning back are the negated kicks for turning there, in the
   * same order: rotating `o` one way and the result the other way try mirrored
   * offsets, so a kicked rotation can be undone by the opposite rotation.
   */
  lemma KickReversal(p: Piece, o: Orientation, rot: Rotation, i: int)
    requires p != G && 0 <= i < 5
    ensures SrsTable(p, Turn(o, rot), Reverse(rot))[i].0 == -SrsTable(p, o, rot)[i].0
    ensures SrsTable(p, Turn(o, rot), Reverse(rot))[i].1 == -SrsTable(p, o, rot)[i].1
  {
  }

  /** The four board cells covered by a pose: the table's offsets moved to the reference cell. */
  function Footprint(loc: Location): (r: seq<Offset>)
    requires loc.piece != G
    ensures |r| == 4 && r[0] == (loc.x, loc.y)
  {
    var c := Cells(loc.piece, loc.orientation);
    [(c[0].0 + loc.x, c[0].1 + loc.y), (c[1].0 + loc.x, c[1].1 + loc.y),
     (c[2].0 + loc.x, c[2].1 + loc.y), (c[3].0 + loc.x, c[3].1 + loc.y)]
  }

  /** A pose covers four different cells, within two columns and two rows of its reference cell. */
  lemma FootprintShape(loc: Location)
    requires loc.piece != G
    ensures forall i, j :: 0 <= i < j < 4 ==> Footprint(loc)[i] != Footprint(loc)[j]
    ensures forall i :: 0 <= i < 4 ==>
      loc.x - 2 <= Footprint(loc)[i].0 <= loc.x + 2 && loc.y - 2 <= Footprint(loc)[i].1 <= loc.y + 2
  {
  }

  /** Adds (x, y) to every offset, one element at a time. */
  method Translate(offsets: seq<Offset>, x: int, y: int) returns (cells: seq<Offset>)
    ensures |cells| == |offsets|
    ensures forall j :: 0 <= j < |offsets| ==> cells[j] == (offsets[j].0 + x, offsets[j].1 + y)
  {
    cells := offsets;
    for i := 0 to |offsets|
      invariant |cells| == |offsets|
      invariant forall j :: 0 <= j < i ==> cells[j] == (offsets[j].0 + x, offsets[j].1 + y)
      invariant forall j :: i <= j < |offsets| ==> cells[j] == offsets[j]
    {
      cells := cells[i := (cells[i].0 + x, cells[i].1 + y)];
    }
  }

  /** `Location::cells`: starts from the table and moves each offset to the reference cell. */
  method AbsoluteCells(loc: Location) returns (cells: seq<Offset>)
    requires loc.piece != G
    ensures cells == Footprint(loc)
  {
    cells := Translate(Cells(loc.piece, loc.orientation), loc.x, loc.y);
  }
}

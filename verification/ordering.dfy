/**
 * The orderings Rust derives for the types of lib/src/tetris.rs: enums
 * compare by declaration order, structs field by field. A Location compares
 * by (piece, orientation, x, y) and a Move by its location, then its spin.
 */
module Ordering {
  import opened Pieces
  import Sorting

  /** Declaration order of `Piece`: O, I, T, L, J, S, Z, G. */
  function PieceRank(p: Piece): nat
  {
    match p
    case O => 0
    case I => 1
    case T => 2
    case L => 3
    case J => 4
    case S => 5
    case Z => 6
    case G => 7
  }

  /** Declaration order of `Spin`: None, Mini, Full. */
  function SpinRank(s: Spin): nat
  {
    match s
    case NoSpin => 0
    case Mini => 1
    case Full => 2
  }

  /** The fields a Move is compared on, most significant first. */
  function MoveKey(m: Move): (k: seq<int>)
    ensures |k| == 5
  {
    [PieceRank(m.location.piece), Rank(m.location.orientation), m.location.x, m.location.y, SpinRank(m.spin)]
  }

  /** Lexicographic "less than" on keys of equal length. */
  predicate LexLess(a: seq<int>, b: seq<int>)
    requires |a| == |b|
  {
    |a| > 0 && (a[0] < b[0] || (a[0] == b[0] && LexLess(a[1..], b[1..])))
  }

  /** The derived `<` on Move. */
  predicate MoveLess(a: Move, b: Move)
  {
    LexLess(MoveKey(a), MoveKey(b))
  }

  lemma {:induction false} LexIrreflexive(a: seq<int>)
    ensures !LexLess(a, a)
  {
    if |a| > 0 {
      LexIrreflexive(a[1..]);
    }
  }

  lemma {:induction false} LexTransitive(a: seq<int>, b: seq<int>, c: seq<int>)
    requires |a| == |b| == |c|
    requires LexLess(a, b) && LexLess(b, c)
    ensures LexLess(a, c)
  {
    if a[0] == b[0] == c[0] {
      LexTransitive(a[1..], b[1..], c[1..]);
    }
  }

  lemma {:induction false} LexTotal(a: seq<int>, b: seq<int>)
    requires |a| == |b| && a != b
    ensures LexLess(a, b) || LexLess(b, a)
  {
    if a[0] == b[0] {
      assert a == [a[0]] + a[1..] && b == [b[0]] + b[1..];
      LexTotal(a[1..], b[1..]);
    }
  }

  /** Different moves have different keys: the order sees every field. */
  lemma MoveKeyInjective(a: Move, b: Move)
    ensures MoveKey(a) == MoveKey(b) ==> a == b
  {
    if MoveKey(a) == MoveKey(b) {
      assert MoveKey(a)[0] == MoveKey(b)[0] && MoveKey(a)[1] == MoveKey(b)[1] && MoveKey(a)[4] == MoveKey(b)[4];
      RankInjective(a.location.orientation, b.location.orientation);
    }
  }

  /** The derived order on Move is a strict total order, as `Ord` promises. */
  lemma MoveLessIsStrictTotalOrder()
    ensures Sorting.StrictTotalOrder(MoveLess)
  {
    forall a: Move
      ensures !MoveLess(a, a)
    {
      LexIrreflexive(MoveKey(a));
    }
    forall a: Move, b: Move, c: Move | MoveLess(a, b) && MoveLess(b, c)
      ensures MoveLess(a, c)
    {
      LexTransitive(MoveKey(a), MoveKey(b), MoveKey(c));
    }
    forall a: Move, b: Move | a != b
      ensures MoveLess(a, b) || MoveLess(b, a)
    {
      MoveKeyInjective(a, b);
      LexTotal(MoveKey(a), MoveKey(b));
    }
  }
}

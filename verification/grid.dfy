/**
 * The 40 x 10 playfield of lib/src/tetris.rs as a value: row 0 is the floor,
 * row 39 the top, and `g[y][x]` is the cell in column x of row y. This module
 * states what make_move does to the playfield (lock the piece's cells, then
 * clear the completed rows among the ones the piece touched) and proves the
 * facts the rest of the engine relies on.
 */
module Grid {
  import opened Wrappers

  const Width := 10
  const Height := 40

  type Cell = Option<char>
  type Rows = seq<seq<Cell>>

  /** An absolute board position (x, y). */
  type Coord = (int, int)

  /** The marker make_move writes into every locked cell, whatever the piece. */
  const Marker: Cell := Some('T')

  predicate IsGrid(g: Rows)
  {
    |g| == Height && forall y :: 0 <= y < Height ==> |g[y]| == Width
  }

  predicate InGrid(c: Coord)
  {
    0 <= c.0 < Width && 0 <= c.1 < Height
  }

  predicate AllInGrid(cells: seq<Coord>)
  {
    forall i :: 0 <= i < |cells| ==> InGrid(cells[i])
  }

  predicate Distinct(s: seq<int>)
  {
    forall i, j :: 0 <= i < j < |s| ==> s[i] != s[j]
  }

  function EmptyRow(): (r: seq<Cell>)
    ensures |r| == Width && forall x :: 0 <= x < Width ==> r[x] == None
  {
    seq(Width, _ => None)
  }

  predicate RowFull(row: seq<Cell>)
  {
    forall x :: 0 <= x < |row| ==> row[x].Some?
  }

  /** `n` empty rows. */
  function Blank(n: nat): (r: Rows)
    ensures |r| == n && forall y :: 0 <= y < n ==> r[y] == EmptyRow()
  {
    seq(n, _ => EmptyRow())
  }

  /** Writes the marker into cell `c`. */
  function Fill(g: Rows, c: Coord): (r: Rows)
    requires IsGrid(g) && InGrid(c)
    ensures IsGrid(r)
    ensures forall y, x :: 0 <= y < Height && 0 <= x < Width ==>
      r[y][x] == if (x, y) == c then Marker else g[y][x]
  {
    g[c.1 := g[c.1][c.0 := Marker]]
  }

  /** Writes the marker into the cells one after the other, as make_move's loop does. */
  function LockCells(g: Rows, cells: seq<Coord>): (r: Rows)
    requires IsGrid(g) && AllInGrid(cells)
    ensures IsGrid(r)
    decreases |cells|
  {
    if cells == [] then g
    else LockCells(Fill(g, cells[0]), cells[1..])
  }

  /** Locking marks exactly the listed cells and leaves every other cell as it was. */
  lemma {:induction false} LockCellsAt(g: Rows, cells: seq<Coord>)
    requires IsGrid(g) && AllInGrid(cells)
    ensures forall y, x :: 0 <= y < Height && 0 <= x < Width ==>
      LockCells(g, cells)[y][x] == if (x, y) in cells then Marker else g[y][x]
    decreases |cells|
  {
    if cells != [] {
      LockCellsAt(Fill(g, cells[0]), cells[1..]);
      assert cells == [cells[0]] + cells[1..];
    }
  }

  /**
   * The rows make_move finds completed: the cells are written one at a time
   * and, after each write, that cell's row is tested (unless it is already
   * listed); a full row is appended to `cleared`.
   */
  function ScanFull(g: Rows, cells: seq<Coord>, cleared: seq<int>): (r: seq<int>)
    requires IsGrid(g) && AllInGrid(cells)
    ensures |cleared| <= |r| <= |cleared| + |cells|
    ensures forall i :: 0 <= i < |cleared| ==> r[i] == cleared[i]
    decreases |cells|
  {
    if cells == [] then cleared
    else
      var g' := Fill(g, cells[0]);
      var y := cells[0].1;
      if y in cleared then ScanFull(g', cells[1..], cleared)
      else if RowFull(g'[y]) then ScanFull(g', cells[1..], cleared + [y])
      else ScanFull(g', cells[1..], cleared)
  }

  /** The rows touched by `cells` that are full in `g`. */
  function FullRows(g: Rows, cells: seq<Coord>): set<int>
    requires IsGrid(g) && AllInGrid(cells)
  {
    set c | c in cells && RowFull(g[c.1]) :: c.1
  }

  /**
   * The scan lists each touched row that is full once all the cells are
   * written, exactly once, and no other row: untouched rows are never tested.
   */
  lemma {:induction false} ScanFullFindsFullRows(g: Rows, cells: seq<Coord>, cleared: seq<int>)
    requires IsGrid(g) && AllInGrid(cells)
    requires Distinct(cleared)
    requires forall y :: y in cleared ==> 0 <= y < Height && RowFull(g[y])
    ensures Distinct(ScanFull(g, cells, cleared))
    ensures forall y :: y in ScanFull(g, cells, cleared) <==>
      y in cleared || y in FullRows(LockCells(g, cells), cells)
    decreases |cells|
  {
    if cells != [] {
      var c := cells[0];
      var g' := Fill(g, c);
      var y := c.1;
      var rest := cells[1..];
      assert cells == [c] + rest;
      var locked := LockCells(g, cells);
      assert locked == LockCells(g', rest);
      LockCellsAt(g', rest);
      assert forall y0 :: y0 in cleared ==> RowFull(g'[y0]);
      if y in cleared {
        ScanFullFindsFullRows(g', rest, cleared);
        forall y0
          ensures y0 in FullRows(locked, cells) ==> y0 == y || y0 in FullRows(locked, rest)
          ensures y0 in FullRows(locked, rest) ==> y0 in FullRows(locked, cells)
        {
          if y0 in FullRows(locked, cells) && y0 != y {
            var d :| d in cells && RowFull(locked[d.1]) && d.1 == y0;
            assert d in rest;
          }
        }
      } else if RowFull(g'[y]) {
        var cleared' := cleared + [y];
        assert forall y0 :: y0 in cleared' ==> 0 <= y0 < Height && RowFull(g'[y0]);
        ScanFullFindsFullRows(g', rest, cleared');
        assert RowFull(locked[y]);
        assert y in FullRows(locked, cells);
        forall y0
          ensures y0 in FullRows(locked, cells) ==> y0 == y || y0 in FullRows(locked, rest)
          ensures y0 in FullRows(locked, rest) ==> y0 in FullRows(locked, cells)
        {
          if y0 in FullRows(locked, cells) && y0 != y {
            var d :| d in cells && RowFull(locked[d.1]) && d.1 == y0;
            assert d in rest;
          }
        }
      } else {
        ScanFullFindsFullRows(g', rest, cleared);
        forall y0
          ensures y0 in FullRows(locked, cells) <==> y0 in FullRows(locked, rest)
        {
          if y0 in FullRows(locked, cells) {
            var d :| d in cells && RowFull(locked[d.1]) && d.1 == y0;
            if d !in rest {
              assert d == c;
              var x :| 0 <= x < Width && g'[y][x].None?;
              assert locked[y][x].Some?;
              assert (x, y) in rest;
              assert RowFull(locked[(x, y).1]);
            }
          }
        }
      }
    }
  }

  /** Removes row `line`: rows above it move down one, and an empty row enters at the top. */
  function ClearRow(g: Rows, line: int): (r: Rows)
    requires 0 <= line < |g|
    ensures |r| == |g|
    ensures forall y :: 0 <= y < line ==> r[y] == g[y]
    ensures forall y :: line <= y < |g| - 1 ==> r[y] == g[y + 1]
    ensures r[|g| - 1] == EmptyRow()
  {
    g[..line] + g[line + 1..] + [EmptyRow()]
  }

  /** Clears the given rows one after the other, in the order listed. */
  function ClearLines(g: Rows, lines: seq<int>): (r: Rows)
    requires forall i :: 0 <= i < |lines| ==> 0 <= lines[i] < |g|
    ensures |r| == |g|
    decreases |lines|
  {
    if lines == [] then g else ClearLines(ClearRow(g, lines[0]), lines[1..])
  }

  /** The rows of `rows` whose index is not in `gone`, bottom to top. */
  function Without(rows: Rows, gone: set<int>): Rows
  {
    if rows == [] then []
    else Without(rows[..|rows| - 1], gone) + (if |rows| - 1 in gone then [] else [rows[|rows| - 1]])
  }

  /**
   * The playfield after a piece locks into `cells`: every touched row that
   * the piece completes is removed, the other rows keep their order and move
   * down, and as many empty rows enter at the top.
   */
  function Placed(g: Rows, cells: seq<Coord>): (r: Rows)
    requires IsGrid(g) && AllInGrid(cells)
    ensures IsGrid(r)
  {
    var locked := LockCells(g, cells);
    var full := FullRows(locked, cells);
    FullRowsInGrid(locked, cells);
    KeptIsGrid(locked, full);
    Without(locked, full) + Blank(|full|)
  }

  /** Removing rows of a playfield and adding as many empty rows on top gives a playfield. */
  lemma KeptIsGrid(g: Rows, gone: set<int>)
    requires IsGrid(g) && forall y :: y in gone ==> 0 <= y < Height
    ensures IsGrid(Without(g, gone) + Blank(|gone|))
  {
    WithoutLength(g, gone);
    var kept := Without(g, gone);
    var r := kept + Blank(|gone|);
    forall y | 0 <= y < Height
      ensures |r[y]| == Width
    {
      if y >= |kept| {
        assert r[y] == Blank(|gone|)[y - |kept|];
      } else {
        assert r[y] == kept[y];
        KeptRowWidth(g, gone, y);
      }
    }
  }

  /** Rows above every removed index are appended unchanged. */
  lemma {:induction false} WithoutAppendAbove(a: Rows, b: Rows, gone: set<int>)
    requires forall y :: y in gone ==> y < |a|
    ensures Without(a + b, gone) == Without(a, gone) + b
    decreases |b|
  {
    if b != [] {
      var b' := b[..|b| - 1];
      assert (a + b)[..|a + b| - 1] == a + b';
      WithoutAppendAbove(a, b', gone);
      assert b == b' + [b[|b| - 1]];
    } else {
      assert a + b == a;
    }
  }

  /** Only the members of `gone` that index a row matter. */
  lemma {:induction false} WithoutAgree(a: Rows, gone: set<int>, gone': set<int>)
    requires forall y :: 0 <= y < |a| ==> (y in gone <==> y in gone')
    ensures Without(a, gone) == Without(a, gone')
    decreases |a|
  {
    if a != [] {
      WithoutAgree(a[..|a| - 1], gone, gone');
    }
  }

  /** Removing nothing that indexes a row leaves the rows as they are. */
  lemma {:induction false} WithoutNothing(a: Rows, gone: set<int>)
    requires forall y :: y in gone ==> y < 0 || y >= |a|
    ensures Without(a, gone) == a
    decreases |a|
  {
    if a != [] {
      WithoutNothing(a[..|a| - 1], gone);
      assert a == a[..|a| - 1] + [a[|a| - 1]];
    }
  }

  lemma {:induction false} WithoutLength(a: Rows, gone: set<int>)
    requires forall y :: y in gone ==> 0 <= y < |a|
    ensures |Without(a, gone)| == |a| - |gone|
    decreases |a|
  {
    if a != [] {
      var a' := a[..|a| - 1];
      var top := |a| - 1;
      assert Without(a, gone) == Without(a', gone) + (if top in gone then [] else [a[top]]);
      if top in gone {
        var gone' := gone - {top};
        assert |gone| == |gone'| + 1;
        assert Without(a', gone) + [] == Without(a', gone);
        WithoutAgree(a', gone, gone');
        WithoutLength(a', gone');
      } else {
        WithoutLength(a', gone);
      }
    } else {
      assert forall y :: y !in gone;
      assert gone == {};
    }
  }

  /** Rows below the lowest removed index keep their place. */
  lemma {:induction false} WithoutPrefix(a: Rows, gone: set<int>, k: nat)
    requires k <= |a|
    requires forall y :: y in gone ==> y >= k
    ensures |Without(a, gone)| >= k
    ensures forall j :: 0 <= j < k ==> Without(a, gone)[j] == a[j]
    decreases |a|
  {
    if |a| == k {
      WithoutNothing(a, gone);
    } else {
      WithoutPrefix(a[..|a| - 1], gone, k);
    }
  }

  /**
   * Clearing rows from the highest down removes exactly those rows and adds
   * one empty row per cleared row at the top: no row is shifted twice.
   */
  lemma {:induction false} ClearLinesDescending(g: Rows, lines: seq<int>)
    requires forall i :: 0 <= i < |lines| ==> 0 <= lines[i] < |g|
    requires forall i, j :: 0 <= i < j < |lines| ==> lines[i] > lines[j]
    ensures ClearLines(g, lines) == Without(g, set y | y in lines) + Blank(|lines|)
    decreases |lines|
  {
    if lines == [] {
      assert (set y | y in lines) == {};
      WithoutNothing(g, {});
    } else {
      var top := lines[0];
      var rest := lines[1..];
      var below := set y | y in rest;
      var all := set y | y in lines;
      assert all == below + {top};
      ClearLinesDescending(ClearRow(g, top), rest);
      WithoutClearRow(g, top, below);
      assert Blank(|lines|) == [EmptyRow()] + Blank(|rest|);
    }
  }

  /** Clearing the highest of the rows to remove takes it out and adds an empty row on top. */
  lemma WithoutClearRow(g: Rows, top: int, below: set<int>)
    requires 0 <= top < |g|
    requires forall y :: y in below ==> y < top
    ensures Without(ClearRow(g, top), below) == Without(g, below + {top}) + [EmptyRow()]
  {
    var shifted := g[..top] + g[top + 1..];
    var g' := ClearRow(g, top);
    assert g' == shifted + [EmptyRow()];
    assert g'[..|g'| - 1] == shifted;
    assert Without(g', below) == Without(shifted, below) + [EmptyRow()];
    WithoutAppendAbove(g[..top], g[top + 1..], below);
    assert g == g[..top + 1] + g[top + 1..];
    WithoutAppendAbove(g[..top + 1], g[top + 1..], below + {top});
    assert g[..top + 1][..top] == g[..top];
    assert Without(g[..top + 1], below + {top}) == Without(g[..top], below + {top});
    WithoutAgree(g[..top], below + {top}, below);
  }

  /** Number of occupied cells in a row. */
  function RowCount(row: seq<Cell>): nat
  {
    if row == [] then 0 else (if row[0].Some? then 1 else 0) + RowCount(row[1..])
  }

  /** Number of occupied cells in the playfield. */
  function Count(g: Rows): nat
  {
    if g == [] then 0 else RowCount(g[0]) + Count(g[1..])
  }

  lemma {:induction false} RowCountFull(row: seq<Cell>)
    requires RowFull(row)
    ensures RowCount(row) == |row|
  {
    if row != [] {
      RowCountFull(row[1..]);
    }
  }

  lemma {:induction false} RowCountEmpty(row: seq<Cell>)
    requires forall x :: 0 <= x < |row| ==> row[x] == None
    ensures RowCount(row) == 0
  {
    if row != [] {
      RowCountEmpty(row[1..]);
    }
  }

  lemma {:induction false} RowCountSet(row: seq<Cell>, x: nat, v: Cell)
    requires x < |row| && row[x] == None && v.Some?
    ensures RowCount(row[x := v]) == RowCount(row) + 1
  {
    if x > 0 {
      assert row[x := v][1..] == row[1..][x - 1 := v];
      RowCountSet(row[1..], x - 1, v);
    } else {
      assert row[x := v][1..] == row[1..];
    }
  }

  lemma {:induction false} CountAppend(a: Rows, b: Rows)
    ensures Count(a + b) == Count(a) + Count(b)
  {
    if a != [] {
      assert (a + b)[1..] == a[1..] + b;
      CountAppend(a[1..], b);
    } else {
      assert a + b == b;
    }
  }

  lemma {:induction false} CountSet(g: Rows, y: nat, row: seq<Cell>)
    requires y < |g|
    ensures Count(g[y := row]) == Count(g) - RowCount(g[y]) + RowCount(row)
  {
    if y > 0 {
      assert g[y := row][1..] == g[1..][y - 1 := row];
      CountSet(g[1..], y - 1, row);
    } else {
      assert g[y := row][1..] == g[1..];
    }
  }

  lemma {:induction false} CountBlank(n: nat)
    ensures Count(Blank(n)) == 0
  {
    if n > 0 {
      assert Blank(n)[1..] == Blank(n - 1);
      RowCountEmpty(EmptyRow());
      CountBlank(n - 1);
    }
  }

  /** Locking distinct empty cells adds one occupied cell each. */
  lemma {:induction false} CountLock(g: Rows, cells: seq<Coord>)
    requires IsGrid(g) && AllInGrid(cells)
    requires forall i, j :: 0 <= i < j < |cells| ==> cells[i] != cells[j]
    requires forall i :: 0 <= i < |cells| ==> g[cells[i].1][cells[i].0] == None
    ensures Count(LockCells(g, cells)) == Count(g) + |cells|
    decreases |cells|
  {
    if cells != [] {
      var c := cells[0];
      RowCountSet(g[c.1], c.0, Marker);
      CountSet(g, c.1, g[c.1][c.0 := Marker]);
      var g' := Fill(g, c);
      forall i | 0 <= i < |cells[1..]|
        ensures g'[cells[1..][i].1][cells[1..][i].0] == None
      {
        assert cells[1..][i] == cells[i + 1] != c;
      }
      CountLock(g', cells[1..]);
    }
  }

  /** Removing full rows of `Width` cells removes `Width` occupied cells each. */
  lemma {:induction false} CountWithout(a: Rows, gone: set<int>)
    requires forall y :: y in gone ==> 0 <= y < |a| && |a[y]| == Width && RowFull(a[y])
    ensures Count(Without(a, gone)) + Width * |gone| == Count(a)
    decreases |a|
  {
    if a != [] {
      var a' := a[..|a| - 1];
      var top := |a| - 1;
      assert a == a' + [a[top]];
      CountAppend(a', [a[top]]);
      assert Count([a[top]]) == RowCount(a[top]);
      assert Without(a, gone) == Without(a', gone) + (if top in gone then [] else [a[top]]);
      if top in gone {
        var gone' := gone - {top};
        assert |gone| == |gone'| + 1;
        WithoutAgree(a', gone, gone');
        CountWithout(a', gone');
        RowCountFull(a[top]);
        assert Without(a', gone) + [] == Without(a', gone);
        assert Without(a, gone) == Without(a', gone');
        assert Count(a) == Count(a') + Width;
      } else {
        CountWithout(a', gone);
        CountAppend(Without(a', gone), [a[top]]);
      }
    } else {
      assert forall y :: y !in gone;
      assert gone == {};
    }
  }

  /**
   * What make_move promises about the playfield, for a piece whose cells are
   * distinct, inside the grid and empty: the result is a 40 x 10 playfield;
   * the piece's cells are occupied before clearing; every cleared row was
   * touched by the piece and full; rows below the lowest cleared row are the
   * locked rows unchanged; the top rows, one per cleared row, are empty; and
   * the count of occupied cells grows by 4 and drops by 10 per cleared row.
   */
  lemma PlacedFacts(g: Rows, cells: seq<Coord>)
    requires IsGrid(g) && AllInGrid(cells) && |cells| == 4
    requires forall i, j :: 0 <= i < j < 4 ==> cells[i] != cells[j]
    requires forall i :: 0 <= i < 4 ==> g[cells[i].1][cells[i].0] == None
    ensures var locked := LockCells(g, cells);
      var full := FullRows(locked, cells);
      var r := Placed(g, cells);
      && IsGrid(r)
      && (forall i :: 0 <= i < 4 ==> locked[cells[i].1][cells[i].0] == Marker)
      && (forall y :: y in full ==> (exists i :: 0 <= i < 4 && cells[i].1 == y) && RowFull(locked[y]))
      && (forall y :: 0 <= y < Height && (forall k :: k in full ==> y < k) ==> r[y] == locked[y])
      && (forall y :: Height - |full| <= y < Height ==> r[y] == EmptyRow())
      && Count(r) == Count(g) + 4 - Width * |full|
  {
    var locked := LockCells(g, cells);
    var full := FullRows(locked, cells);
    var r := Placed(g, cells);
    LockCellsAt(g, cells);
    assert forall y :: y in full ==> 0 <= y < Height && RowFull(locked[y]);
    WithoutLength(locked, full);
    var kept := Without(locked, full);
    assert |kept| == Height - |full|;
    forall y | y in full
      ensures exists i :: 0 <= i < 4 && cells[i].1 == y
    {
      var c :| c in cells && RowFull(locked[c.1]) && c.1 == y;
    }
    forall y | 0 <= y < Height && (forall k :: k in full ==> y < k)
      ensures r[y] == locked[y]
    {
      WithoutPrefix(locked, full, y + 1);
    }
    CountLock(g, cells);
    CountWithout(locked, full);
    CountAppend(kept, Blank(|full|));
    CountBlank(|full|);
  }

  /** Every row that survives a removal has the playfield's width. */
  lemma {:induction false} KeptRowWidth(a: Rows, gone: set<int>, j: int)
    requires forall y :: 0 <= y < |a| ==> |a[y]| == Width
    requires 0 <= j < |Without(a, gone)|
    ensures |Without(a, gone)[j]| == Width
    decreases |a|
  {
    var a' := a[..|a| - 1];
    if j < |Without(a', gone)| {
      KeptRowWidth(a', gone, j);
    }
  }

  /** Two playfields that agree cell by cell are equal. */
  lemma SameCells(a: Rows, b: Rows)
    requires IsGrid(a) && IsGrid(b)
    requires forall y, x :: 0 <= y < Height && 0 <= x < Width ==> a[y][x] == b[y][x]
    ensures a == b
  {
    forall y | 0 <= y < Height
      ensures a[y] == b[y]
    {
    }
  }

  /** A duplicate-free sequence has as many elements as its set. */
  lemma {:induction false} DistinctCard(s: seq<int>)
    requires Distinct(s)
    ensures |set y | y in s| == |s|
  {
    if s != [] {
      var rest := s[1..];
      DistinctCard(rest);
      assert (set y | y in s) == (set y | y in rest) + {s[0]};
      assert s[0] !in (set y | y in rest);
    } else {
      assert (set y | y in s) == {};
    }
  }

  /** A completed row the piece touched lies inside the playfield. */
  lemma FullRowsInGrid(g: Rows, cells: seq<Coord>)
    requires IsGrid(g) && AllInGrid(cells)
    ensures forall y :: y in FullRows(g, cells) ==> 0 <= y < Height
  {
  }

  /**
   * Clearing the completed rows the piece touched, highest first, gives the
   * playfield Placed describes.
   */
  lemma ClearingPlaces(g: Rows, cells: seq<Coord>, lines: seq<int>)
    requires IsGrid(g) && AllInGrid(cells)
    requires forall y :: y in lines <==> y in FullRows(LockCells(g, cells), cells)
    requires forall i :: 0 <= i < |lines| ==> 0 <= lines[i] < Height
    requires forall i, j :: 0 <= i < j < |lines| ==> lines[i] > lines[j]
    ensures ClearLines(LockCells(g, cells), lines) == Placed(g, cells)
  {
    var locked := LockCells(g, cells);
    ClearLinesDescending(locked, lines);
    DistinctCard(lines);
    assert (set y | y in lines) == FullRows(locked, cells);
  }
}

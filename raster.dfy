/** The binarised sheet image and the option rectangles sampled from it.

    A raster is indexed as numpy indexes the image array: `g[y][x]`, row first.
    Rectangles hold non-negative coordinates only; a negative coordinate would make
    Python's slicing wrap around, which this model does not describe. */
module Raster {

  /** Pixel rows of the binarised image (top row first). */
  type Grid = seq<seq<int>>

  /** An option rectangle `(x, y, w, h)` in pixels of the resized image. */
  datatype Rect = Rect(x: nat, y: nat, w: nat, h: nat) {
    function Area(): nat { w * h }
  }

  function Min(a: int, b: int): int { if a <= b then a else b }

  /** Python's `s[start:start+len]` for non-negative bounds: the slice is clipped at the
      end of `s` and is empty when `start` lies beyond it. */
  function Slice<T>(s: seq<T>, start: nat, len: nat): (r: seq<T>)
    ensures |r| == if start < |s| then Min(len, |s| - start) else 0
    ensures forall i :: 0 <= i < |r| ==> start + i < |s| && r[i] == s[start + i]
  {
    s[Min(start, |s|)..Min(start + len, |s|)]
  }

  /** The pixel predicate `box == 0` of the detector: the binarised value 0. */
  predicate IsInk(v: int) { v == 0 }

  /** Number of elements of `s` that satisfy `p`. */
  function Count(s: seq<int>, p: int -> bool): (n: nat)
    ensures n <= |s|
  {
    if s == [] then 0 else Count(s[..|s| - 1], p) + (if p(s[|s| - 1]) then 1 else 0)
  }

  /** The positions of `s` whose element satisfies `p`. */
  ghost function Positions(s: seq<int>, p: int -> bool): set<nat>
  {
    set i: nat | i < |s| && p(s[i])
  }

  /** `Count` is the size of the set of satisfying positions. */
  lemma {:induction false} CountIsPositions(s: seq<int>, p: int -> bool)
    ensures Count(s, p) == |Positions(s, p)|
  {
    if s != [] {
      var n := |s| - 1;
      var front := s[..n];
      CountIsPositions(front, p);
      var before := Positions(front, p);
      assert forall i :: 0 <= i < n ==> front[i] == s[i];
      if p(s[n]) {
        assert Positions(s, p) == before + {n} by {
          forall i: nat | i < |s| ensures i in Positions(s, p) <==> i in before + {n} {
            if i < n { assert (i in before) == p(s[i]); }
          }
        }
        assert n !in before;
      } else {
        assert Positions(s, p) == before by {
          forall i: nat | i < |s| ensures i in Positions(s, p) <==> i in before {
            if i < n { assert (i in before) == p(s[i]); }
          }
        }
      }
    }
  }

  /** `Count` depends only on which elements satisfy the predicate. */
  lemma {:induction false} CountPointwise(s: seq<int>, p: int -> bool, t: seq<int>, q: int -> bool)
    requires |s| == |t|
    requires forall i :: 0 <= i < |s| ==> (p(s[i]) <==> q(t[i]))
    ensures Count(s, p) == Count(t, q)
  {
    if s != [] {
      CountPointwise(s[..|s| - 1], p, t[..|t| - 1], q);
    }
  }

  /** Every element satisfies `p` exactly when the count is the full length. */
  lemma {:induction false} CountFull(s: seq<int>, p: int -> bool)
    ensures Count(s, p) == |s| <==> forall i :: 0 <= i < |s| ==> p(s[i])
  {
    if s != [] {
      CountFull(s[..|s| - 1], p);
    }
  }

  /** No element satisfies `p` exactly when the count is zero. */
  lemma {:induction false} CountNone(s: seq<int>, p: int -> bool)
    ensures Count(s, p) == 0 <==> forall i :: 0 <= i < |s| ==> !p(s[i])
  {
    if s != [] {
      CountNone(s[..|s| - 1], p);
    }
  }

  lemma MulMono(a: nat, b: nat, c: nat)
    requires a <= b
    ensures a * c <= b * c
  {
  }

  lemma MulSucc(a: nat, c: nat)
    ensures (a + 1) * c == a * c + c
  {
  }

  /** Sum over `rows` of the cells in columns `x .. x+w-1` (clipped per row) that satisfy `p`. */
  function RowsCount(rows: seq<seq<int>>, x: nat, w: nat, p: int -> bool): (n: nat)
    ensures n <= |rows| * w
  {
    if rows == [] then 0
    else
      MulSucc(|rows| - 1, w);
      Count(Slice(rows[0], x, w), p) + RowsCount(rows[1..], x, w, p)
  }

  /** Cells of the clipped rectangle `g[y:y+h, x:x+w]` that satisfy `p`. */
  function RegionCount(g: Grid, r: Rect, p: int -> bool): (n: nat)
    ensures n <= r.Area()
  {
    var rows := Slice(g, r.y, r.h);
    MulMono(|rows|, r.h, r.w);
    RowsCount(rows, r.x, r.w, p)
  }

  /** The cells `(j, i)` of row `j`, holding `row`, in columns `x .. x+w-1` that satisfy `p`. */
  ghost function RowCells(row: seq<int>, j: nat, x: nat, w: nat, p: int -> bool): set<(nat, nat)>
  {
    set i: nat | x <= i < x + w && i < |row| && p(row[i]) :: (j, i)
  }

  /** Widening the slice `row[x:x+w-1]` by one column adds that column's cell, if it exists. */
  lemma CountSliceStep(row: seq<int>, x: nat, w: nat, p: int -> bool)
    requires w > 0
    ensures Count(Slice(row, x, w), p)
         == Count(Slice(row, x, w - 1), p) + (if x + w - 1 < |row| && p(row[x + w - 1]) then 1 else 0)
  {
    var s := Slice(row, x, w);
    if x + w - 1 < |row| {
      assert s[..w - 1] == Slice(row, x, w - 1);
    } else {
      assert s == Slice(row, x, w - 1);
    }
  }

  /** Widening the column range by one adds that column's cell when it exists and satisfies `p`. */
  lemma RowCellsStep(row: seq<int>, j: nat, x: nat, w: nat, p: int -> bool)
    requires w > 0
    ensures RowCells(row, j, x, w, p)
         == RowCells(row, j, x, w - 1, p) + (if x + w - 1 < |row| && p(row[x + w - 1]) then {(j, x + w - 1)} else {})
  {
    var c := x + w - 1;
    var now := RowCells(row, j, x, w, p);
    var before := RowCells(row, j, x, w - 1, p);
    var added: set<(nat, nat)> := if c < |row| && p(row[c]) then {(j, c)} else {};
    forall cell | cell in now ensures cell in before + added {
      var i :| x <= i < x + w && i < |row| && p(row[i]) && cell == (j, i);
      if i < c { assert cell in before; }
    }
    forall cell | cell in before + added ensures cell in now {
      if cell in before {
        var i :| x <= i < x + w - 1 && i < |row| && p(row[i]) && cell == (j, i);
      }
    }
  }

  /** The count over the clipped slice `row[x:x+w]` is the number of satisfying cells of the row. */
  lemma {:induction false} RowCellsCount(row: seq<int>, j: nat, x: nat, w: nat, p: int -> bool)
    ensures Count(Slice(row, x, w), p) == |RowCells(row, j, x, w, p)|
  {
    if w == 0 {
      var now := RowCells(row, j, x, w, p);
      assert now == {} by {
        forall cell | cell in now ensures false {
        }
      }
    } else {
      RowCellsCount(row, j, x, w - 1, p);
      CountSliceStep(row, x, w, p);
      RowCellsStep(row, j, x, w, p);
      assert (j, x + w - 1) !in RowCells(row, j, x, w - 1, p);
    }
  }

  /** `RowsCount` taken apart at its last row instead of its first. */
  lemma {:induction false} RowsCountLast(rows: seq<seq<int>>, x: nat, w: nat, p: int -> bool)
    requires |rows| > 0
    ensures RowsCount(rows, x, w, p) == RowsCount(rows[..|rows| - 1], x, w, p) + Count(Slice(rows[|rows| - 1], x, w), p)
  {
    if |rows| > 1 {
      var n := |rows|;
      RowsCountLast(rows[1..], x, w, p);
      assert rows[1..][..n - 2] == rows[..n - 1][1..];
      assert rows[1..][n - 2] == rows[n - 1];
      assert rows[..n - 1][0] == rows[0];
    } else {
      assert rows[..0] == [];
    }
  }

  /** The cells `(j, i)` of the clipped rectangle `g[y:y+h, x:x+w]` that satisfy `p`. */
  ghost function RegionCells(g: Grid, r: Rect, p: int -> bool): set<(nat, nat)>
  {
    set j: nat, i: nat | r.y <= j < r.y + r.h && j < |g| && r.x <= i < r.x + r.w && i < |g[j]| && p(g[j][i]) :: (j, i)
  }

  /** Taller by one row: the region count gains the count of that row, if it exists. */
  lemma RegionCountStep(g: Grid, r: Rect, p: int -> bool)
    requires r.h > 0
    ensures RegionCount(g, r, p)
         == RegionCount(g, Rect(r.x, r.y, r.w, r.h - 1), p)
            + (if r.y + r.h - 1 < |g| then Count(Slice(g[r.y + r.h - 1], r.x, r.w), p) else 0)
  {
    var rows := Slice(g, r.y, r.h);
    if r.y + r.h - 1 < |g| {
      assert rows[..r.h - 1] == Slice(g, r.y, r.h - 1);
      assert rows[r.h - 1] == g[r.y + r.h - 1];
      RowsCountLast(rows, r.x, r.w, p);
    } else {
      assert rows == Slice(g, r.y, r.h - 1);
    }
  }

  /** Taller by one row: the cell set gains the cells of that row, which are new. */
  lemma RegionCellsStep(g: Grid, r: Rect, p: int -> bool)
    requires r.h > 0
    ensures var before := RegionCells(g, Rect(r.x, r.y, r.w, r.h - 1), p);
            var added := if r.y + r.h - 1 < |g| then RowCells(g[r.y + r.h - 1], r.y + r.h - 1, r.x, r.w, p) else {};
            RegionCells(g, r, p) == before + added && before * added == {}
  {
    var j := r.y + r.h - 1;
    var now := RegionCells(g, r, p);
    var before := RegionCells(g, Rect(r.x, r.y, r.w, r.h - 1), p);
    var added := if j < |g| then RowCells(g[j], j, r.x, r.w, p) else {};
    forall cell | cell in now ensures cell in before + added {
      var j', i :| r.y <= j' < r.y + r.h && j' < |g| && r.x <= i < r.x + r.w && i < |g[j']| && p(g[j'][i]) && cell == (j', i);
      if j' < j { assert cell in before; } else { assert cell in added; }
    }
    forall cell | cell in before + added ensures cell in now {
      if cell in before {
        var j', i :| r.y <= j' < j && j' < |g| && r.x <= i < r.x + r.w && i < |g[j']| && p(g[j'][i]) && cell == (j', i);
      } else {
        var i :| r.x <= i < r.x + r.w && i < |g[j]| && p(g[j][i]) && cell == (j, i);
      }
    }
    forall cell | cell in added ensures cell !in before {
      var i :| r.x <= i < r.x + r.w && i < |g[j]| && p(g[j][i]) && cell == (j, i);
    }
    assert before * added == {};
  }

  /** `RegionCount` counts exactly the satisfying cells of the clipped rectangle, each once. */
  lemma {:induction false} RegionCountIsCells(g: Grid, r: Rect, p: int -> bool)
    ensures RegionCount(g, r, p) == |RegionCells(g, r, p)|
    decreases r.h
  {
    if r.h == 0 {
      var now := RegionCells(g, r, p);
      assert now == {} by {
        forall cell | cell in now ensures false {
        }
      }
    } else {
      var j := r.y + r.h - 1;
      RegionCountIsCells(g, Rect(r.x, r.y, r.w, r.h - 1), p);
      RegionCountStep(g, r, p);
      RegionCellsStep(g, r, p);
      if j < |g| {
        RowCellsCount(g[j], j, r.x, r.w, p);
      }
    }
  }

  /** `np.sum(img[y:y+h, x:x+w] == 0)`: the fill count of one option rectangle. */
  function FillCount(g: Grid, r: Rect): (n: nat)
    ensures n <= r.Area()
    ensures r.Area() == 0 ==> n == 0
  {
    RegionCount(g, r, IsInk)
  }

  /** The rectangle lies inside the grid, so no clipping happens. */
  predicate Inside(g: Grid, r: Rect)
  {
    r.y + r.h <= |g| && forall j :: r.y <= j < r.y + r.h ==> r.x + r.w <= |g[j]|
  }

  /** Every cell of the (in-bounds) rectangle satisfies `p`. */
  predicate AllCells(g: Grid, r: Rect, p: int -> bool)
    requires Inside(g, r)
  {
    forall j, i :: r.y <= j < r.y + r.h && r.x <= i < r.x + r.w ==> p(g[j][i])
  }

  /** No cell of the clipped rectangle satisfies `p`. */
  predicate NoCell(g: Grid, r: Rect, p: int -> bool)
  {
    forall j, i :: r.y <= j < |g| && j < r.y + r.h && r.x <= i < |g[j]| && i < r.x + r.w ==> !p(g[j][i])
  }

  lemma {:induction false} RowsCountFull(rows: seq<seq<int>>, x: nat, w: nat, p: int -> bool)
    requires forall k :: 0 <= k < |rows| ==> x + w <= |rows[k]|
    requires forall k, i :: 0 <= k < |rows| && x <= i < x + w ==> p(rows[k][i])
    ensures RowsCount(rows, x, w, p) == |rows| * w
  {
    if rows != [] {
      var s := Slice(rows[0], x, w);
      assert |s| == w;
      assert forall i :: 0 <= i < w ==> p(s[i]);
      CountFull(s, p);
      RowsCountFull(rows[1..], x, w, p);
      MulSucc(|rows| - 1, w);
    }
  }

  lemma {:induction false} RowsCountNone(rows: seq<seq<int>>, x: nat, w: nat, p: int -> bool)
    requires forall k, i :: 0 <= k < |rows| && x <= i < |rows[k]| && i < x + w ==> !p(rows[k][i])
    ensures RowsCount(rows, x, w, p) == 0
  {
    if rows != [] {
      var s := Slice(rows[0], x, w);
      CountNone(s, p);
      RowsCountNone(rows[1..], x, w, p);
    }
  }

  /** A fully inked in-bounds rectangle has fill count equal to its area. */
  lemma FullRegion(g: Grid, r: Rect, p: int -> bool)
    requires Inside(g, r) && AllCells(g, r, p)
    ensures RegionCount(g, r, p) == r.Area()
  {
    var rows := Slice(g, r.y, r.h);
    assert forall k :: 0 <= k < |rows| ==> rows[k] == g[r.y + k];
    RowsCountFull(rows, r.x, r.w, p);
  }

  /** A rectangle with no satisfying cell counts zero, wherever it lies. */
  lemma EmptyRegion(g: Grid, r: Rect, p: int -> bool)
    requires NoCell(g, r, p)
    ensures RegionCount(g, r, p) == 0
  {
    var rows := Slice(g, r.y, r.h);
    assert forall k :: 0 <= k < |rows| ==> rows[k] == g[r.y + k];
    RowsCountNone(rows, r.x, r.w, p);
  }

  /** A rectangle of zero area never counts a cell (no division, no crash). */
  lemma ZeroAreaRegion(g: Grid, r: Rect, p: int -> bool)
    requires r.Area() == 0
    ensures RegionCount(g, r, p) == 0
  {
  }

  /** `RegionCount` depends only on which cells satisfy the predicate, for grids of the same shape. */
  lemma {:induction false} RowsCountPointwise(rows: seq<seq<int>>, p: int -> bool, rows': seq<seq<int>>, q: int -> bool, x: nat, w: nat)
    requires |rows| == |rows'|
    requires forall k :: 0 <= k < |rows| ==> |rows[k]| == |rows'[k]|
    requires forall k, i :: 0 <= k < |rows| && 0 <= i < |rows[k]| ==> (p(rows[k][i]) <==> q(rows'[k][i]))
    ensures RowsCount(rows, x, w, p) == RowsCount(rows', x, w, q)
  {
    if rows != [] {
      CountPointwise(Slice(rows[0], x, w), p, Slice(rows'[0], x, w), q);
      RowsCountPointwise(rows[1..], p, rows'[1..], q, x, w);
    }
  }

  lemma RegionCountPointwise(g: Grid, p: int -> bool, g': Grid, q: int -> bool, r: Rect)
    requires |g| == |g'|
    requires forall k :: 0 <= k < |g| ==> |g[k]| == |g'[k]|
    requires forall k, i :: 0 <= k < |g| && 0 <= i < |g[k]| ==> (p(g[k][i]) <==> q(g'[k][i]))
    ensures RegionCount(g, r, p) == RegionCount(g', r, q)
  {
    RowsCountPointwise(Slice(g, r.y, r.h), p, Slice(g', r.y, r.h), q, r.x, r.w);
  }
}

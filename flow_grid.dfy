/**
 * The grid partition of strip_drone_movement: the h × w optical-flow field is
 * cut into g × g cells of (h / g) rows and (w / g) columns each, scanned row of
 * cells by row of cells, and one motion score is appended per cell. The score
 * of a cell (the magnitude of its mean flow vector) is an opaque function of
 * the cell.
 */
module FlowGrid {

  /** Cells per axis of the motion grid in strip_drone_movement. */
  const GridSize: nat := 16

  /** The part of the flow field a cell covers: rows top .. bottom - 1 and
      columns left .. right - 1. */
  datatype Cell = Cell(top: int, bottom: int, left: int, right: int)

  predicate Contains(c: Cell, y: int, x: int)
  {
    c.top <= y < c.bottom && c.left <= x < c.right
  }

  /** Cell (i, j) of the grid over an h × w field. */
  function CellAt(h: nat, w: nat, g: nat, i: nat, j: nat): Cell
    requires g >= 1
  {
    var cellH, cellW := h / g, w / g;
    Cell(i * cellH, (i + 1) * cellH, j * cellW, (j + 1) * cellW)
  }

  /** The k-th cell in scan order. */
  function CellOf(h: nat, w: nat, g: nat, k: nat): Cell
    requires g >= 1
  {
    CellAt(h, w, g, k / g, k % g)
  }

  lemma MulMono(a: nat, b: nat, c: nat)
    requires a <= b
    ensures a * c <= b * c
  {
  }

  /** Position k = i * g + j in scan order is cell (i, j). */
  lemma ScanIndex(g: nat, i: nat, j: nat)
    requires j < g
    ensures (i * g + j) / g == i && (i * g + j) % g == j
  {
    var n := i * g + j;
    var q, r := n / g, n % g;
    assert n == q * g + r;
    if q < i {
      MulMono(q + 1, i, g);
    } else if i < q {
      MulMono(i + 1, q, g);
    }
  }

  /** The rows (or columns) the cells cover are the first g * (h / g), which is
      h - h mod g. */
  lemma CoveredExtent(h: nat, g: nat)
    requires g >= 1
    ensures g * (h / g) == h - h % g
  {
  }

  /** Appends one score per cell, cell rows outermost: the result holds exactly
      g * g scores, the k-th being the score of the k-th cell in scan order. */
  method MotionScores(h: nat, w: nat, g: nat, magnitude: Cell -> real) returns (scores: seq<real>)
    requires g >= 1
    ensures |scores| == g * g
    ensures forall k :: 0 <= k < g * g ==> scores[k] == magnitude(CellOf(h, w, g, k))
  {
    var cellH, cellW := h / g, w / g;
    scores := [];
    var i := 0;
    while i < g
      invariant 0 <= i <= g
      invariant |scores| == i * g
      invariant forall k :: 0 <= k < |scores| ==> scores[k] == magnitude(CellOf(h, w, g, k))
    {
      var j := 0;
      while j < g
        invariant 0 <= j <= g
        invariant |scores| == i * g + j
        invariant forall k :: 0 <= k < |scores| ==> scores[k] == magnitude(CellOf(h, w, g, k))
      {
        var cell := Cell(i * cellH, (i + 1) * cellH, j * cellW, (j + 1) * cellW);
        ScanIndex(g, i, j);
        scores := scores + [magnitude(cell)];
        j := j + 1;
      }
      i := i + 1;
    }
  }

  /** The scan of strip_drone_movement, with its fixed 16 × 16 grid: 256 scores,
      one per cell in scan order. */
  method GridMotionScores(h: nat, w: nat, magnitude: Cell -> real) returns (scores: seq<real>)
    ensures |scores| == 256
    ensures forall k :: 0 <= k < 256 ==> scores[k] == magnitude(CellOf(h, w, GridSize, k))
  {
    scores := MotionScores(h, w, GridSize, magnitude);
  }

  /** Every cell lies inside the h × w field. */
  lemma CellInFrame(h: nat, w: nat, g: nat, i: nat, j: nat)
    requires g >= 1 && i < g && j < g
    ensures 0 <= CellAt(h, w, g, i, j).top <= CellAt(h, w, g, i, j).bottom <= h
    ensures 0 <= CellAt(h, w, g, i, j).left <= CellAt(h, w, g, i, j).right <= w
  {
    MulMono(i + 1, g, h / g);
    MulMono(j + 1, g, w / g);
  }

  /** Two different cells share no position. */
  lemma CellsDisjoint(h: nat, w: nat, g: nat, i1: nat, j1: nat, i2: nat, j2: nat, y: int, x: int)
    requires g >= 1 && (i1 != i2 || j1 != j2)
    ensures !(Contains(CellAt(h, w, g, i1, j1), y, x) && Contains(CellAt(h, w, g, i2, j2), y, x))
  {
    if i1 < i2 {
      MulMono(i1 + 1, i2, h / g);
    } else if i2 < i1 {
      MulMono(i2 + 1, i1, h / g);
    } else if j1 < j2 {
      MulMono(j1 + 1, j2, w / g);
    } else {
      MulMono(j2 + 1, j1, w / g);
    }
  }

  /** A scan position below g * g names a cell of the grid. */
  lemma ScanPosition(g: nat, k: nat)
    requires g >= 1 && k < g * g
    ensures k / g < g && k % g < g
  {
    if k / g >= g {
      MulMono(g, k / g, g);
    }
  }

  /** Different scan positions name different cells. */
  lemma ScanDistinct(g: nat, k1: nat, k2: nat)
    requires g >= 1 && k1 != k2
    ensures k1 / g != k2 / g || k1 % g != k2 % g
  {
    assert k1 == (k1 / g) * g + k1 % g && k2 == (k2 / g) * g + k2 % g;
  }

  /** The k-th scanned cell lies inside the field. */
  lemma ScanCellInFrame(h: nat, w: nat, g: nat, k: nat)
    requires g >= 1 && k < g * g
    ensures 0 <= CellOf(h, w, g, k).top <= CellOf(h, w, g, k).bottom <= h
    ensures 0 <= CellOf(h, w, g, k).left <= CellOf(h, w, g, k).right <= w
  {
    ScanPosition(g, k);
    CellInFrame(h, w, g, k / g, k % g);
  }

  /** The g * g scores come from pairwise disjoint cells. */
  lemma ScanCellsDisjoint(h: nat, w: nat, g: nat, k1: nat, k2: nat, y: int, x: int)
    requires g >= 1 && k1 != k2
    ensures !(Contains(CellOf(h, w, g, k1), y, x) && Contains(CellOf(h, w, g, k2), y, x))
  {
    ScanDistinct(g, k1, k2);
    CellsDisjoint(h, w, g, k1 / g, k1 % g, k2 / g, k2 % g, y, x);
  }

  /** The last h mod g rows and the last w mod g columns lie in no cell: the
      scan never examines them. */
  lemma RemainderUnexamined(h: nat, w: nat, g: nat, i: nat, j: nat, y: int, x: int)
    requires g >= 1 && i < g && j < g
    requires h - h % g <= y < h || w - w % g <= x < w
    ensures !Contains(CellAt(h, w, g, i, j), y, x)
  {
    CoveredExtent(h, g);
    CoveredExtent(w, g);
    MulMono(i + 1, g, h / g);
    MulMono(j + 1, g, w / g);
  }

  /** Every other position lies in a cell: position (y, x) with y below
      h - h mod g and x below w - w mod g lies in cell (y / (h / g), x / (w / g)). */
  lemma CoveredPosition(h: nat, w: nat, g: nat, y: nat, x: nat)
    requires g >= 1 && y < h - h % g && x < w - w % g
    ensures h / g > 0 && w / g > 0
    ensures y / (h / g) < g && x / (w / g) < g
    ensures Contains(CellAt(h, w, g, y / (h / g), x / (w / g)), y, x)
  {
    var cellH, cellW := h / g, w / g;
    CoveredExtent(h, g);
    CoveredExtent(w, g);
    assert cellH > 0 && cellW > 0;
    var i, j := y / cellH, x / cellW;
    assert i * cellH <= y < (i + 1) * cellH;
    assert j * cellW <= x < (j + 1) * cellW;
    if i >= g {
      MulMono(g, i, cellH);
    }
    if j >= g {
      MulMono(g, j, cellW);
    }
  }
}

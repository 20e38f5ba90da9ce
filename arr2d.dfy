/**
 * `Arr2d` (`src/collections/arr_2d.rs`): a `rows × cols` grid stored row by
 * row in one vector, cell `(r, c)` at position `r * cols + c`. Indexing,
 * `swap` and the row/column views assert their indices are in range; those
 * panics are preconditions here.
 */
module Array2d {
  import opened Arith
  import opened Wrappers

  // ---------------------------------------------------------------------
  // Row-major positions
  // ---------------------------------------------------------------------

  lemma CellIndex(r: int, c: int, rows: int, cols: int)
    requires 0 <= r < rows && 0 <= c < cols
    ensures 0 <= r * cols + c < rows * cols
    ensures (r + 1) * cols <= rows * cols
  {
    MulLe(r + 1, rows, cols);
  }

  /** Different cells have different positions. */
  lemma CellIndexInjective(r1: int, c1: int, r2: int, c2: int, cols: int)
    requires 0 <= c1 < cols && 0 <= c2 < cols
    requires r1 * cols + c1 == r2 * cols + c2
    ensures r1 == r2 && c1 == c2
  {
    var k := r1 * cols + c1;
    DivModUnique(k, cols, r1, c1);
    DivModUnique(k, cols, r2, c2);
  }

  /** Every position belongs to a cell. */
  lemma CellOfIndex(k: int, rows: nat, cols: nat)
    requires 0 <= k < rows * cols
    ensures cols > 0 && 0 <= k / cols < rows && 0 <= k % cols < cols
    ensures k == (k / cols) * cols + k % cols
  {
    if k / cols >= rows {
      MulLe(rows, k / cols, cols);
    }
  }

  // ---------------------------------------------------------------------
  // transpose, on the stored vectors
  // ---------------------------------------------------------------------

  /** Cell `(r, c)` of a grid with `cols` columns stored row by row in `d`. */
  function At<T>(d: seq<T>, cols: nat, r: nat, c: nat): T
    requires r * cols + c < |d|
  {
    d[r * cols + c]
  }

  /** `t` holds the `cols × rows` transpose of the `rows × cols` grid `d`. */
  ghost predicate IsTransposeOf<T>(t: seq<T>, d: seq<T>, rows: nat, cols: nat) {
    |t| == rows * cols && |d| == rows * cols
    && forall i, j :: 0 <= i < cols && 0 <= j < rows ==> SwappedAt(t, d, rows, cols, i, j)
  }

  /** Cell `(i, j)` of the `cols × rows` grid `t` is cell `(j, i)` of the `rows × cols` grid `d`. */
  ghost predicate SwappedAt<T>(t: seq<T>, d: seq<T>, rows: nat, cols: nat, i: nat, j: nat) {
    i * rows + j < |t| && j * cols + i < |d| && At(t, rows, i, j) == At(d, cols, j, i)
  }

  /** Transposing twice gives the original grid back. */
  lemma TransposeTwice<T>(d: seq<T>, t: seq<T>, u: seq<T>, rows: nat, cols: nat)
    requires IsTransposeOf(t, d, rows, cols) && IsTransposeOf(u, t, cols, rows)
    ensures u == d
  {
    forall k | 0 <= k < |d|
      ensures u[k] == d[k]
    {
      CellOfIndex(k, rows, cols);
      var r, c := k / cols, k % cols;
      CellIndex(r, c, rows, cols);
      CellIndex(c, r, cols, rows);
      assert SwappedAt(u, t, cols, rows, r, c) && SwappedAt(t, d, rows, cols, c, r);
    }
  }

  /** The transpose is unique. */
  lemma TransposeUnique<T>(d: seq<T>, t1: seq<T>, t2: seq<T>, rows: nat, cols: nat)
    requires IsTransposeOf(t1, d, rows, cols) && IsTransposeOf(t2, d, rows, cols)
    ensures t1 == t2
  {
    forall k | 0 <= k < |t1|
      ensures t1[k] == t2[k]
    {
      CellOfIndex(k, cols, rows);
      var i, j := k / rows, k % rows;
      CellIndex(i, j, cols, rows);
      CellIndex(j, i, rows, cols);
      assert SwappedAt(t1, d, rows, cols, i, j) && SwappedAt(t2, d, rows, cols, i, j);
    }
  }

  /** Cell `(j, i)` of the `rows × cols` grid `d`: what the transpose puts at `(i, j)`. */
  function SwappedCell<T>(d: seq<T>, rows: nat, cols: nat, i: nat, j: nat): T
    requires j < rows && i < cols && |d| == rows * cols
  {
    CellIndex(j, i, rows, cols);
    d[j * cols + i]
  }

  /** A grid generated by reading `d` at the swapped position is its transpose. */
  lemma TransposeFromGenerator<T>(t: seq<T>, d: seq<T>, rows: nat, cols: nat, g: (nat, nat) --> T)
    requires |t| == rows * cols && |d| == rows * cols
    requires RowsFilled(t, cols, cols, rows, g)
    requires forall i: nat, j: nat :: j < rows && i < cols ==> g.requires(i, j) && g(i, j) == SwappedCell(d, rows, cols, i, j)
    ensures IsTransposeOf(t, d, rows, cols)
  {
    forall i, j | 0 <= i < cols && 0 <= j < rows
      ensures SwappedAt(t, d, rows, cols, i, j)
    {
      CellIndex(j, i, rows, cols);
      RowsFilledAt(t, cols, cols, rows, g, i, j);
      assert g(i, j) == SwappedCell(d, rows, cols, i, j);
    }
  }

  // ---------------------------------------------------------------------
  // step_by
  // ---------------------------------------------------------------------

  /** `Iterator::step_by(step)`: the first element, then every `step`-th. */
  function StepBy<T>(s: seq<T>, step: nat): seq<T>
    requires step >= 1
  {
    if |s| == 0 then []
    else [s[0]] + (if step <= |s| then StepBy(s[step..], step) else [])
  }

  /** `step_by` yields one element per started block of `step`. */
  lemma {:induction false} StepByLength<T>(s: seq<T>, step: nat)
    requires step >= 1
    ensures |StepBy(s, step)| == (|s| + step - 1) / step
  {
    if |s| == 0 {
      DivModUnique(step - 1, step, 0, step - 1);
    } else if step <= |s| {
      var x := |s| - step + step - 1;
      StepByLength(s[step..], step);
      DivPlusDivisor(x, step);
    } else {
      DivModUnique(|s| + step - 1, step, 1, |s| - 1);
    }
  }

  /** Element `k` of `step_by` is element `k * step` (here `pos`) of the input. */
  lemma {:induction false} StepByIndex<T>(s: seq<T>, step: nat, k: nat, pos: nat)
    requires step >= 1 && k < |StepBy(s, step)| && pos == k * step
    ensures pos < |s| && StepBy(s, step)[k] == s[pos]
  {
    var t := StepBy(s, step);
    if k > 0 {
      assert step <= |s|;
      var rest := s[step..];
      var u := StepBy(rest, step);
      assert t == [s[0]] + u;
      MulSucc(k - 1, step);
      StepByIndex(rest, step, k - 1, pos - step);
      assert t[k] == u[k - 1] == rest[pos - step];
    }
  }

  lemma MulSucc(k: int, step: int)
    ensures k * step + step == (k + 1) * step
  {
  }

  /** The first `i` rows of `d` hold the generated cells. */
  ghost predicate RowsFilled<T>(d: seq<T>, i: nat, rows: nat, cols: nat, g: (nat, nat) --> T) {
    forall a, b :: 0 <= a < i && a < rows && 0 <= b < cols ==> a * cols + b < |d| && g.requires(a, b) && At(d, cols, a, b) == g(a, b)
  }

  lemma RowsFilledAt<T>(d: seq<T>, i: nat, rows: nat, cols: nat, g: (nat, nat) --> T, a: nat, b: nat)
    requires RowsFilled(d, i, rows, cols, g) && a < i && a < rows && b < cols
    ensures a * cols + b < |d| && g.requires(a, b) && At(d, cols, a, b) == g(a, b)
  {
  }

  lemma RowsFilledStep<T>(before: seq<T>, d: seq<T>, i: nat, rows: nat, cols: nat, g: (nat, nat) --> T)
    requires forall a, b :: 0 <= a < rows && 0 <= b < cols ==> g.requires(a, b)
    requires i < rows && |before| == i * cols && |d| == i * cols + cols && d[..i * cols] == before
    requires RowsFilled(before, i, rows, cols, g)
    requires forall b :: 0 <= b < cols ==> d[i * cols + b] == g(i, b)
    ensures |d| == (i + 1) * cols && RowsFilled(d, i + 1, rows, cols, g)
  {
    forall a, b | 0 <= a < i + 1 && a < rows && 0 <= b < cols
      ensures a * cols + b < |d| && g.requires(a, b) && At(d, cols, a, b) == g(a, b)
    {
      if a < i {
        CellIndex(a, b, i, cols);
        assert d[a * cols + b] == before[a * cols + b];
      }
    }
  }

  // ---------------------------------------------------------------------
  // Diagonals
  // ---------------------------------------------------------------------

  /**
   * Diagonal `i` (in either direction) of a `rows × cols` grid crosses the
   * rows `start .. start + len`: `start = max(0, i - cols + 1)` and the last
   * row is `min(rows - 1, i)`.
   */
  function DiagRows(rows: nat, cols: nat, i: nat): (r: (nat, nat))
    requires i < rows + cols - 1
    ensures r.0 == (if i < cols then 0 else i - cols + 1)
    ensures r.0 + r.1 == Min(rows, i + 1)
  {
    var start := if i < cols then 0 else i - cols + 1;
    var len := if i < cols then Min(i + 1, rows) else Min(cols + rows - i - 1, cols);
    (start, len)
  }

  /** The cells `(r, i - r)` of "/" diagonal `i`, top row first. */
  function AntiDiagonal(rows: nat, cols: nat, i: nat): (ps: seq<(int, int)>)
    requires i < rows + cols - 1
  {
    var (start, len) := DiagRows(rows, cols, i);
    seq(len, j => (start + j, i - start - j))
  }

  /** The cells `(r, r + cols - 1 - i)` of "\" diagonal `i`, top row first. */
  function MainDiagonal(rows: nat, cols: nat, i: nat): (ps: seq<(int, int)>)
    requires i < rows + cols - 1
  {
    var (start, len) := DiagRows(rows, cols, i);
    seq(len, j => (start + j, start + j + cols - 1 - i))
  }

  lemma AntiDiagonalMembers(rows: nat, cols: nat, i: nat)
    requires i < rows + cols - 1
    ensures forall p :: p in AntiDiagonal(rows, cols, i) <==> 0 <= p.0 < rows && 0 <= p.1 < cols && p.0 + p.1 == i
    ensures forall j :: 0 < j < |AntiDiagonal(rows, cols, i)| ==> AntiDiagonal(rows, cols, i)[j].0 == AntiDiagonal(rows, cols, i)[j - 1].0 + 1
  {
    var ps := AntiDiagonal(rows, cols, i);
    var (start, len) := DiagRows(rows, cols, i);
    forall p: (int, int) | 0 <= p.0 < rows && 0 <= p.1 < cols && p.0 + p.1 == i
      ensures p in ps
    {
      assert ps[p.0 - start] == p;
    }
  }

  lemma MainDiagonalMembers(rows: nat, cols: nat, i: nat)
    requires i < rows + cols - 1
    ensures forall p :: p in MainDiagonal(rows, cols, i) <==> 0 <= p.0 < rows && 0 <= p.1 < cols && cols - (p.1 + 1) + p.0 == i
    ensures forall j :: 0 < j < |MainDiagonal(rows, cols, i)| ==> MainDiagonal(rows, cols, i)[j].0 == MainDiagonal(rows, cols, i)[j - 1].0 + 1
  {
    var ps := MainDiagonal(rows, cols, i);
    var (start, len) := DiagRows(rows, cols, i);
    forall p: (int, int) | 0 <= p.0 < rows && 0 <= p.1 < cols && cols - (p.1 + 1) + p.0 == i
      ensures p in ps
    {
      assert ps[p.0 - start] == p;
    }
  }

  /**
   * The orthogonal neighbours (distance 1) and the diagonal ones (1 in each
   * direction) together are the eight surrounding in-grid cells.
   */
  lemma NeighbourhoodUnion(orth: seq<(int, int)>, diag: seq<(int, int)>, rows: int, cols: int, r: int, c: int)
    requires forall p :: p in orth <==> 0 <= p.0 < rows && 0 <= p.1 < cols && Abs(p.0 - r) + Abs(p.1 - c) == 1
    requires forall p :: p in diag <==> 0 <= p.0 < rows && 0 <= p.1 < cols && Abs(p.0 - r) == 1 && Abs(p.1 - c) == 1
    ensures forall p :: p in orth + diag <==> 0 <= p.0 < rows && 0 <= p.1 < cols && p != (r, c) && Abs(p.0 - r) <= 1 && Abs(p.1 - c) <= 1
  {
    forall p: (int, int)
      ensures p in orth + diag <==> 0 <= p.0 < rows && 0 <= p.1 < cols && p != (r, c) && Abs(p.0 - r) <= 1 && Abs(p.1 - c) <= 1
    {
      var dr, dc := Abs(p.0 - r), Abs(p.1 - c);
      assert p != (r, c) <==> dr + dc > 0;
    }
  }

  /** The loop of `min_by_key`: the first position whose cell has the smallest key. */
  method FirstMinPosition<T>(d: seq<T>, cols: nat, key: (nat, nat, T) -> int) returns (best: nat, bestKey: int)
    requires |d| > 0 && cols > 0
    ensures best < |d| && bestKey == key(best / cols, best % cols, d[best])
    ensures forall l :: 0 <= l < |d| ==> bestKey <= key(l / cols, l % cols, d[l])
    ensures forall l :: 0 <= l < best ==> bestKey < key(l / cols, l % cols, d[l])
  {
    best := 0;
    bestKey := key(0, 0, d[0]);
    for k := 1 to |d|
      invariant 0 <= best < k
      invariant bestKey == key(best / cols, best % cols, d[best])
      invariant forall l :: 0 <= l < k ==> bestKey <= key(l / cols, l % cols, d[l])
      invariant forall l :: 0 <= l < best ==> bestKey < key(l / cols, l % cols, d[l])
    {
      var kk := key(k / cols, k % cols, d[k]);
      if kk < bestKey {
        best, bestKey := k, kk;
      }
    }
  }

  /**
   * A key no smaller than the one at position `best = q * cols + r`, and
   * larger at every earlier position, is so at every cell, and larger at
   * every cell before `(q, r)` in row-major order.
   */
  lemma MinimumAtCell<T>(d: seq<T>, rows: nat, cols: nat, key: (nat, nat, T) -> int, best: nat, bestKey: int, q: nat, r: nat, a: nat, b: nat)
    requires |d| == rows * cols && best == q * cols + r && r < cols && best < |d|
    requires forall l :: 0 <= l < |d| ==> bestKey <= key(l / cols, l % cols, d[l])
    requires forall l :: 0 <= l < best ==> bestKey < key(l / cols, l % cols, d[l])
    requires a < rows && b < cols
    ensures a * cols + b < |d| && bestKey <= key(a, b, At(d, cols, a, b))
      && ((a < q || (a == q && b < r)) ==> bestKey < key(a, b, At(d, cols, a, b)))
  {
    CellIndex(a, b, rows, cols);
    var l := a * cols + b;
    DivModUnique(l, cols, a, b);
    assert bestKey <= key(l / cols, l % cols, d[l]);
    if a < q {
      MulLe(a + 1, q, cols);
    }
    if a < q || (a == q && b < r) {
      assert l < best;
      assert bestKey < key(l / cols, l % cols, d[l]);
    }
  }

  // ---------------------------------------------------------------------
  // The grid
  // ---------------------------------------------------------------------

  class Arr2d<T> {
    var data: seq<T>
    const rows: nat
    const cols: nat

    ghost predicate Valid()
      reads this
    {
      |data| == rows * cols
    }

    /** Cell `(r, c)`: `self[(r, c)]`. */
    function Get(r: int, c: int): T
      requires Valid() && 0 <= r < rows && 0 <= c < cols
      reads this
    {
      CellIndex(r, c, rows, cols);
      At(data, cols, r, c)
    }

    /** `Arr2d::new(rows, cols, default)`: every cell holds `default`. */
    constructor New(rows: nat, cols: nat, default: T)
      ensures Valid() && this.rows == rows && this.cols == cols
      ensures forall r, c :: 0 <= r < rows && 0 <= c < cols ==> Get(r, c) == default
    {
      this.rows := rows;
      this.cols := cols;
      data := seq(rows * cols, _ => default);
      new;
      forall r, c | 0 <= r < rows && 0 <= c < cols
        ensures Get(r, c) == default
      {
        CellIndex(r, c, rows, cols);
      }
    }

    /** `with_generator(rows, cols, g)`: cell `(i, j)` holds `g(i, j)`, filled row by row. */
    constructor WithGenerator(rows: nat, cols: nat, g: (nat, nat) --> T)
      requires forall i, j :: 0 <= i < rows && 0 <= j < cols ==> g.requires(i, j)
      ensures Valid() && this.rows == rows && this.cols == cols
      ensures forall i, j :: 0 <= i < rows && 0 <= j < cols ==> Get(i, j) == g(i, j)
      ensures RowsFilled(data, rows, rows, cols, g)
    {
      var d: seq<T> := [];
      for i := 0 to rows
        invariant |d| == i * cols
        invariant RowsFilled(d, i, rows, cols, g)
      {
        ghost var before := d;
        for j := 0 to cols
          invariant |d| == i * cols + j
          invariant d[..i * cols] == before
          invariant forall b :: 0 <= b < j ==> d[i * cols + b] == g(i, b)
        {
          d := d + [g(i, j)];
        }
        RowsFilledStep(before, d, i, rows, cols, g);
      }
      this.rows := rows;
      this.cols := cols;
      data := d;
      new;
      forall i, j | 0 <= i < rows && 0 <= j < cols
        ensures Get(i, j) == g(i, j)
      {
        CellIndex(i, j, rows, cols);
      }
    }

    /** `transpose()`: a new `cols × rows` grid whose cell `(i, j)` is cell `(j, i)` here. */
    method Transpose() returns (t: Arr2d<T>)
      requires Valid()
      ensures fresh(t) && t.Valid() && t.rows == cols && t.cols == rows
      ensures IsTransposeOf(t.data, data, rows, cols)
    {
      var d := data;
      var r, c := rows, cols;
      var g := (i: nat, j: nat) requires j < r && i < c && |d| == r * c => SwappedCell(d, r, c, i, j);
      t := new Arr2d.WithGenerator(cols, rows, g);
      TransposeFromGenerator(t.data, d, rows, cols, g);
    }

    /** `row(idx)` and `self[idx]`: the `cols` cells of row `idx`, left to right. */
    function Row(idx: nat): (r: seq<T>)
      requires Valid() && idx < rows
      reads this
      ensures |r| == cols
      ensures forall j :: 0 <= j < cols ==> r[j] == Get(idx, j)
    {
      CellIndex(idx, 0, rows, cols + 1);
      MulLe(idx + 1, rows, cols);
      data[idx * cols..(idx + 1) * cols]
    }

    /** `col(idx)`: skip `idx` cells, then take every `cols`-th one. */
    function Col(idx: nat): (r: seq<T>)
      requires Valid() && idx < cols
      reads this
    {
      StepBy(if idx <= |data| then data[idx..] else [], cols)
    }

    /** The column view holds the `rows` cells of column `idx`, top to bottom. */
    lemma ColCells(idx: nat)
      requires Valid() && idx < cols
      ensures |Col(idx)| == rows
      ensures forall i :: 0 <= i < rows ==> Col(idx)[i] == Get(i, idx)
    {
      if rows > 0 {
        CellIndex(0, idx, rows, cols);
        var s := data[idx..];
        StepByLength(s, cols);
        assert |s| + cols - 1 == rows * cols + (cols - 1 - idx);
        DivModUnique(|s| + cols - 1, cols, rows, cols - 1 - idx);
        forall i | 0 <= i < rows
          ensures Col(idx)[i] == Get(i, idx)
        {
          CellIndex(i, idx, rows, cols);
          StepByIndex(s, cols, i, i * cols);
        }
      }
    }

    /** `self[(r, c)] = v`: only that cell changes. */
    method Set(r: nat, c: nat, v: T)
      requires Valid() && r < rows && c < cols
      modifies this
      ensures Valid()
      ensures Get(r, c) == v
      ensures forall a, b :: 0 <= a < rows && 0 <= b < cols && (a, b) != (r, c) ==> Get(a, b) == old(Get(a, b))
    {
      CellIndex(r, c, rows, cols);
      data := data[r * cols + c := v];
      forall a, b | 0 <= a < rows && 0 <= b < cols && (a, b) != (r, c)
        ensures Get(a, b) == old(Get(a, b))
      {
        CellIndex(a, b, rows, cols);
        if a * cols + b == r * cols + c {
          CellIndexInjective(a, b, r, c, cols);
        }
      }
    }

    /** `swap(r1, c1, r2, c2)`: the two cells exchange values and nothing else changes. */
    method Swap(r1: nat, c1: nat, r2: nat, c2: nat)
      requires Valid() && r1 < rows && r2 < rows && c1 < cols && c2 < cols
      modifies this
      ensures Valid()
      ensures Get(r1, c1) == old(Get(r2, c2)) && Get(r2, c2) == old(Get(r1, c1))
      ensures forall a, b :: 0 <= a < rows && 0 <= b < cols && (a, b) != (r1, c1) && (a, b) != (r2, c2) ==> Get(a, b) == old(Get(a, b))
      ensures (r1, c1) == (r2, c2) ==> data == old(data)
    {
      CellIndex(r1, c1, rows, cols);
      CellIndex(r2, c2, rows, cols);
      var i1, i2 := r1 * cols + c1, r2 * cols + c2;
      var x1, x2 := data[i1], data[i2];
      data := data[i1 := x2][i2 := x1];
      if i1 == i2 {
        CellIndexInjective(r1, c1, r2, c2, cols);
      }
      forall a, b | 0 <= a < rows && 0 <= b < cols && (a, b) != (r1, c1) && (a, b) != (r2, c2)
        ensures Get(a, b) == old(Get(a, b))
      {
        CellIndex(a, b, rows, cols);
        if a * cols + b == i1 {
          CellIndexInjective(a, b, r1, c1, cols);
        }
        if a * cols + b == i2 {
          CellIndexInjective(a, b, r2, c2, cols);
        }
      }
    }

    /** `row_mut(idx).for_each(f)`: each cell of row `idx` is replaced by `f` of it. */
    method MapRow(idx: nat, f: T -> T)
      requires Valid() && idx < rows
      modifies this
      ensures Valid()
      ensures forall a, b :: 0 <= a < rows && 0 <= b < cols ==> Get(a, b) == if a == idx then f(old(Get(a, b))) else old(Get(a, b))
    {
      CellIndex(idx, 0, rows, cols + 1);
      MulLe(idx + 1, rows, cols);
      var start := idx * cols;
      for j := 0 to cols
        invariant |data| == rows * cols
        invariant forall k :: 0 <= k < |data| ==> data[k] == if start <= k < start + j then f(old(data[k])) else old(data[k])
      {
        data := data[start + j := f(data[start + j])];
      }
      forall a, b | 0 <= a < rows && 0 <= b < cols
        ensures Get(a, b) == if a == idx then f(old(Get(a, b))) else old(Get(a, b))
      {
        CellIndex(a, b, rows, cols);
        if a < idx {
          MulLe(a + 1, idx, cols);
        } else if a > idx {
          MulLe(idx + 1, a, cols);
        }
      }
    }

    /** `col_mut(idx).for_each(f)`: each cell of column `idx` is replaced by `f` of it. */
    method MapCol(idx: nat, f: T -> T)
      requires Valid() && idx < cols
      modifies this
      ensures Valid()
      ensures forall a, b :: 0 <= a < rows && 0 <= b < cols ==> Get(a, b) == if b == idx then f(old(Get(a, b))) else old(Get(a, b))
    {
      for i := 0 to rows
        invariant Valid()
        invariant forall a, b :: 0 <= a < rows && 0 <= b < cols ==> Get(a, b) == if b == idx && a < i then f(old(Get(a, b))) else old(Get(a, b))
      {
        Set(i, idx, f(Get(i, idx)));
      }
    }

    // -------------------------------------------------------------------
    // Diagonals
    // -------------------------------------------------------------------

    predicate InGrid(p: (int, int)) {
      0 <= p.0 < rows && 0 <= p.1 < cols
    }

    /** The cells of "/" diagonal `i`, from the top row down. */
    function RightDiagCoords(i: nat): (ps: seq<(int, int)>)
      requires i < rows + cols - 1
      ensures forall p :: p in ps <==> InGrid(p) && p.0 + p.1 == i
      ensures forall j :: 0 < j < |ps| ==> ps[j].0 == ps[j - 1].0 + 1
    {
      AntiDiagonalMembers(rows, cols, i);
      AntiDiagonal(rows, cols, i)
    }

    /** The cells of "\" diagonal `i`, from the top row down. */
    function LeftDiagCoords(i: nat): (ps: seq<(int, int)>)
      requires i < rows + cols - 1
      ensures forall p :: p in ps <==> InGrid(p) && cols - (p.1 + 1) + p.0 == i
      ensures forall j :: 0 < j < |ps| ==> ps[j].0 == ps[j - 1].0 + 1
    {
      MainDiagonalMembers(rows, cols, i);
      MainDiagonal(rows, cols, i)
    }


    /** The values at the given cells. */
    function Values(ps: seq<(int, int)>): (vs: seq<T>)
      requires Valid() && forall j :: 0 <= j < |ps| ==> InGrid(ps[j])
      reads this
      ensures |vs| == |ps|
      ensures forall j :: 0 <= j < |ps| ==> InGrid(ps[j]) && vs[j] == Get(ps[j].0, ps[j].1)
    {
      if |ps| == 0 then [] else assert InGrid(ps[0]); [Get(ps[0].0, ps[0].1)] + Values(ps[1..])
    }

    /** The given cells, each with its value. */
    function WithValues(ps: seq<(int, int)>): (vs: seq<(int, int, T)>)
      requires Valid() && forall j :: 0 <= j < |ps| ==> InGrid(ps[j])
      reads this
      ensures |vs| == |ps|
      ensures forall j :: 0 <= j < |ps| ==> InGrid(ps[j]) && vs[j] == (ps[j].0, ps[j].1, Get(ps[j].0, ps[j].1))
    {
      if |ps| == 0 then [] else assert InGrid(ps[0]); [(ps[0].0, ps[0].1, Get(ps[0].0, ps[0].1))] + WithValues(ps[1..])
    }

    /** `right_diags()`: `rows + cols - 1` diagonals, the first at the top left. */
    function RightDiags(): (ds: seq<seq<T>>)
      requires Valid() && rows + cols >= 1
      reads this
      ensures |ds| == rows + cols - 1
      ensures forall i :: 0 <= i < |ds| ==> ds[i] == Values(RightDiagCoords(i))
    {
      seq(rows + cols - 1, i requires 0 <= i < rows + cols - 1 && Valid() reads this => Values(RightDiagCoords(i)))
    }

    /** `left_diags()`: `rows + cols - 1` diagonals, the first at the top right. */
    function LeftDiags(): (ds: seq<seq<T>>)
      requires Valid() && rows + cols >= 1
      reads this
      ensures |ds| == rows + cols - 1
      ensures forall i :: 0 <= i < |ds| ==> ds[i] == Values(LeftDiagCoords(i))
    {
      seq(rows + cols - 1, i requires 0 <= i < rows + cols - 1 && Valid() reads this => Values(LeftDiagCoords(i)))
    }

    /** `cell_diags_pos(r, c)`: the "/" and "\" diagonals through the cell. */
    function CellDiagsPos(r: nat, c: nat): (d: (nat, nat))
      requires c < cols
      ensures r < rows ==> d.0 < rows + cols - 1 && (r, c) in RightDiagCoords(d.0)
      ensures r < rows ==> d.1 < rows + cols - 1 && (r, c) in LeftDiagCoords(d.1)
    {
      (r + c, cols - (c + 1) + r)
    }

    // -------------------------------------------------------------------
    // Neighbours
    // -------------------------------------------------------------------

    /** `neigh_coords(r, c)`: the in-grid cells above, left, below and right, in that order. */
    function NeighCoords(r: nat, c: nat): (ns: seq<(int, int)>)
      ensures |ns| <= 4
      ensures InGrid((r, c)) ==> forall p :: p in ns <==> InGrid(p) && Abs(p.0 - r) + Abs(p.1 - c) == 1
    {
      (if r > 0 then [(r - 1, c)] else [])
      + (if c > 0 then [(r, c - 1)] else [])
      + (if r + 1 < rows then [(r + 1, c)] else [])
      + (if c + 1 < cols then [(r, c + 1)] else [])
    }

    /** `diag_neigh_coords(r, c)`: the in-grid diagonal neighbours. */
    function DiagNeighCoords(r: nat, c: nat): (ns: seq<(int, int)>)
      ensures |ns| <= 4
      ensures InGrid((r, c)) ==> forall p :: p in ns <==> InGrid(p) && Abs(p.0 - r) == 1 && Abs(p.1 - c) == 1
    {
      (if r > 0 && c > 0 then [(r - 1, c - 1)] else [])
      + (if r > 0 && c + 1 < cols then [(r - 1, c + 1)] else [])
      + (if r + 1 < rows && c > 0 then [(r + 1, c - 1)] else [])
      + (if r + 1 < rows && c + 1 < cols then [(r + 1, c + 1)] else [])
    }

    /** `all_neigh_coords(r, c)`: the eight surrounding cells that are in the grid. */
    function AllNeighCoords(r: nat, c: nat): seq<(int, int)> {
      NeighCoords(r, c) + DiagNeighCoords(r, c)
    }

    /** The eight-neighbourhood: the orthogonal and the diagonal neighbours together. */
    lemma AllNeighCoordsMembers(r: nat, c: nat)
      requires InGrid((r, c))
      ensures |AllNeighCoords(r, c)| <= 8
      ensures forall p :: p in AllNeighCoords(r, c) <==> InGrid(p) && p != (r, c) && Abs(p.0 - r) <= 1 && Abs(p.1 - c) <= 1
    {
      NeighbourhoodUnion(NeighCoords(r, c), DiagNeighCoords(r, c), rows, cols, r, c);
    }

    /** `neigh_vals(r, c)`: the orthogonal neighbours with their values. */
    function NeighVals(r: nat, c: nat): seq<(int, int, T)>
      requires Valid() && InGrid((r, c))
      reads this
    {
      WithValues(NeighCoords(r, c))
    }

    /**
     * `min_by_key(f)`: the first cell, in row-major order, whose key is
     * smallest; `None` for an empty grid.
     */
    method MinByKey(key: (nat, nat, T) -> int) returns (m: Option<(nat, nat)>)
      requires Valid()
      ensures m.None? <==> rows * cols == 0
      ensures m.Some? ==> m.value.0 < rows && m.value.1 < cols
      ensures m.Some? ==> forall a, b :: 0 <= a < rows && 0 <= b < cols ==> key(m.value.0, m.value.1, Get(m.value.0, m.value.1)) <= key(a, b, Get(a, b))
      ensures m.Some? ==> forall a, b :: 0 <= a < rows && 0 <= b < cols && (a < m.value.0 || (a == m.value.0 && b < m.value.1)) ==> key(m.value.0, m.value.1, Get(m.value.0, m.value.1)) < key(a, b, Get(a, b))
    {
      if |data| == 0 {
        return None;
      }
      CellOfIndex(0, rows, cols);
      var best, bestKey := FirstMinPosition(data, cols, key);
      CellOfIndex(best, rows, cols);
      var q, r := best / cols, best % cols;
      m := Some((q, r));
      forall a, b | 0 <= a < rows && 0 <= b < cols
        ensures bestKey <= key(a, b, Get(a, b))
        ensures (a < q || (a == q && b < r)) ==> bestKey < key(a, b, Get(a, b))
      {
        MinimumAtCell(data, rows, cols, key, best, bestKey, q, r, a, b);
      }
    }
  }

  /** The examples of the test module on the `2 × 3` grid `0 1 2 / 3 4 5`. */
  method Examples() returns (t: Arr2d<nat>)
    ensures t.Valid() && t.rows == 3 && t.cols == 2
    ensures t.data == [0, 3, 1, 4, 2, 5]
  {
    var a := new Arr2d.WithGenerator(2, 3, (i: nat, j: nat) => i * 3 + j);
    t := a.Transpose();
    assert SwappedAt(t.data, a.data, 2, 3, 0, 0) && a.Get(0, 0) == 0;
    assert SwappedAt(t.data, a.data, 2, 3, 0, 1) && a.Get(1, 0) == 3;
    assert SwappedAt(t.data, a.data, 2, 3, 1, 0) && a.Get(0, 1) == 1;
    assert SwappedAt(t.data, a.data, 2, 3, 1, 1) && a.Get(1, 1) == 4;
    assert SwappedAt(t.data, a.data, 2, 3, 2, 0) && a.Get(0, 2) == 2;
    assert SwappedAt(t.data, a.data, 2, 3, 2, 1) && a.Get(1, 2) == 5;
  }

  /** The neighbour lists of the test module on a `2 × 3` grid. */
  lemma NeighExamples(a: Arr2d<nat>)
    requires a.rows == 2 && a.cols == 3
    ensures a.NeighCoords(0, 0) == [(1, 0), (0, 1)]
    ensures a.NeighCoords(0, 1) == [(0, 0), (1, 1), (0, 2)]
  {
  }
}

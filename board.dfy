/** Board generation, shared verbatim by both minesweeper programs:
    `count_mines` and `create_reference`. A reference grid holds -1 for a
    mine and, elsewhere, the number of mines among the cell's in-grid Moore
    neighbours. */
module Board {
  import opened Grid

  /** The flat array before shuffling: `mines` entries -1, the rest 0. */
  function Initial(m: nat, n: nat, mines: nat): (r: seq<int>)
    requires mines <= m * n
    ensures |r| == m * n
  {
    seq(mines, _ => -1) + seq(m * n - mines, _ => 0)
  }

  /** Every entry is a mine marker or an empty marker. */
  predicate MarkersOnly(s: seq<int>) {
    forall k :: 0 <= k < |s| ==> s[k] == -1 || s[k] == 0
  }

  lemma {:induction false} ConstantCount(c: nat, v: int, w: int)
    ensures multiset(seq(c, _ => v))[w] == if v == w then c else 0
  {
    if c > 0 {
      ConstantCount(c - 1, v, w);
      assert seq(c, _ => v) == seq(c - 1, _ => v) + [v];
    }
  }

  /** Any shuffle of the initial array holds only markers, exactly `mines`
      of them mines. */
  lemma ShuffleMarkers(m: nat, n: nat, mines: nat, arr: seq<int>)
    requires mines <= m * n
    requires multiset(arr) == multiset(Initial(m, n, mines))
    ensures |arr| == m * n
    ensures MarkersOnly(arr)
    ensures multiset(arr)[-1] == mines
  {
    var init := Initial(m, n, mines);
    assert |arr| == |multiset(arr)| == |multiset(init)| == m * n;
    ConstantCount(mines, -1, -1);
    ConstantCount(m * n - mines, 0, -1);
    assert init == seq(mines, _ => -1) + seq(m * n - mines, _ => 0);
    forall k | 0 <= k < |arr| ensures arr[k] == -1 || arr[k] == 0 {
      assert arr[k] in multiset(arr);
      assert arr[k] in init;
    }
  }

  /** Row-major flat index of an in-grid cell, as np.reshape lays it out. */
  function Index(m: nat, n: nat, i: int, j: int): (k: nat)
    requires 0 <= i < m && 0 <= j < n
    ensures k < m * n
  {
    MulMono(i + 1, m, n);
    i * n + j
  }

  lemma MulMono(i: nat, m: nat, n: nat)
    requires i <= m
    ensures i * n <= m * n
    ensures i > 0 ==> (i - 1) * n + n == i * n
  {
    assert m * n - i * n == (m - i) * n;
  }

  /** Mines among the in-grid Moore neighbours of (i, j), over the first k
      offsets: the count every non-mine cell must hold. */
  function NeighbourMines(g: array2<int>, i: int, j: int, k: nat): (c: nat)
    requires k <= |Offsets|
    reads g
    ensures c <= k
  {
    if k == 0 then 0
    else
      var q := Shift((i, j), k - 1);
      NeighbourMines(g, i, j, k - 1) + (if InGrid(q, g.Length0, g.Length1) && g[q.0, q.1] == -1 then 1 else 0)
  }

  /** The invariant of a reference grid: every cell is a mine or holds the
      number of its in-grid neighbours that are mines. */
  predicate Consistent(g: array2<int>)
    reads g
  {
    forall i, j :: 0 <= i < g.Length0 && 0 <= j < g.Length1 ==>
      g[i, j] == -1 || g[i, j] == NeighbourMines(g, i, j, |Offsets|)
  }

  lemma {:induction false} NoMineCounted(g: array2<int>, i: int, j: int, k: nat, t: nat)
    requires t < k <= |Offsets|
    requires NeighbourMines(g, i, j, k) == 0
    ensures var q := Shift((i, j), t); !(InGrid(q, g.Length0, g.Length1) && g[q.0, q.1] == -1)
  {
    if t < k - 1 {
      NoMineCounted(g, i, j, k - 1, t);
    }
  }

  /** On a consistent grid, no neighbour of a 0 cell is a mine. */
  lemma ZeroCellSafe(g: array2<int>, i: int, j: int, q: Pos)
    requires Consistent(g)
    requires InGrid((i, j), g.Length0, g.Length1) && g[i, j] == 0
    requires Adjacent((i, j), q) && InGrid(q, g.Length0, g.Length1)
    ensures g[q.0, q.1] != -1
  {
    NoMineCounted(g, i, j, |Offsets|, OffsetOf((i, j), q));
  }

  /** The zero-padded copy `np.pad(g, [(1, 1), (1, 1)])`, as a value. */
  function Padded(g: array2<int>): (p: seq<seq<int>>)
    reads g
    ensures |p| == g.Length0 + 2
    ensures forall r :: 0 <= r < |p| ==> |p[r]| == g.Length1 + 2
    ensures forall r, c :: 0 <= r < |p| && 0 <= c < g.Length1 + 2 ==>
      p[r][c] == if 1 <= r <= g.Length0 && 1 <= c <= g.Length1 then g[r - 1, c - 1] else 0
  {
    seq(g.Length0 + 2, r reads g =>
      seq(g.Length1 + 2, c reads g =>
        if 1 <= r <= g.Length0 && 1 <= c <= g.Length1 then g[r - 1, c - 1] else 0))
  }

  /** (i, j) lies strictly inside the rectangle `p`, so all eight offsets
      index it without wrapping. */
  predicate Interior(p: seq<seq<int>>, i: int, j: int) {
    1 <= i < |p| - 1 && 1 <= j && j + 1 < |p[i - 1]| && j + 1 < |p[i]| && j + 1 < |p[i + 1]|
  }

  predicate MarkerGrid(p: seq<seq<int>>) {
    forall r, c :: 0 <= r < |p| && 0 <= c < |p[r]| ==> p[r][c] == -1 || p[r][c] == 0
  }

  /** Sum of the entries at the first k offsets around (i, j). */
  function Around(p: seq<seq<int>>, i: int, j: int, k: nat): int
    requires k <= |Offsets| && Interior(p, i, j)
  {
    if k == 0 then 0
    else
      var q := Shift((i, j), k - 1);
      assert q.0 == i - 1 || q.0 == i || q.0 == i + 1;
      Around(p, i, j, k - 1) + p[q.0][q.1]
  }

  /** Number of entries equal to -1 at the first k offsets around (i, j). */
  function MinesAround(p: seq<seq<int>>, i: int, j: int, k: nat): nat
    requires k <= |Offsets| && Interior(p, i, j)
  {
    if k == 0 then 0
    else
      var q := Shift((i, j), k - 1);
      assert q.0 == i - 1 || q.0 == i || q.0 == i + 1;
      MinesAround(p, i, j, k - 1) + (if p[q.0][q.1] == -1 then 1 else 0)
  }

  lemma {:induction false} SumIsMines(p: seq<seq<int>>, i: int, j: int, k: nat)
    requires k <= |Offsets| && Interior(p, i, j) && MarkerGrid(p)
    ensures Around(p, i, j, k) + MinesAround(p, i, j, k) == 0
    ensures MinesAround(p, i, j, k) <= k
  {
    if k > 0 {
      SumIsMines(p, i, j, k - 1);
    }
  }

  /** `count_mines`: minus the sum of the eight entries around (i, j). On a
      grid of markers, that is the number of mines around (i, j). */
  method CountMines(i: int, j: int, grid: seq<seq<int>>) returns (r: int)
    requires Interior(grid, i, j)
    ensures r == -Around(grid, i, j, |Offsets|)
    ensures MarkerGrid(grid) ==> r == MinesAround(grid, i, j, |Offsets|) && 0 <= r <= 8
  {
    var count := 0;
    for t := 0 to |Offsets|
      invariant count == Around(grid, i, j, t)
    {
      var pos := Shift((i, j), t);
      assert pos.0 == i - 1 || pos.0 == i || pos.0 == i + 1;
      count := count + grid[pos.0][pos.1];
    }
    r := -count;
    if MarkerGrid(grid) {
      SumIsMines(grid, i, j, |Offsets|);
    }
  }

  /** Counting on the padded copy counts the in-grid neighbours of the grid,
      as long as the two agree on where the mines are. */
  lemma {:induction false} PaddedCount(p: seq<seq<int>>, g: array2<int>, i: int, j: int, k: nat)
    requires |p| == g.Length0 + 2 && forall r :: 0 <= r < |p| ==> |p[r]| == g.Length1 + 2
    requires forall r, c :: 0 <= r < |p| && 0 <= c < g.Length1 + 2 ==>
      (p[r][c] == -1 <==> 1 <= r <= g.Length0 && 1 <= c <= g.Length1 && g[r - 1, c - 1] == -1)
    requires InGrid((i, j), g.Length0, g.Length1) && k <= |Offsets|
    ensures Interior(p, i + 1, j + 1)
    ensures MinesAround(p, i + 1, j + 1, k) == NeighbourMines(g, i, j, k)
  {
    if k > 0 {
      PaddedCount(p, g, i, j, k - 1);
    }
  }

  /** Number of entries of `s` equal to `v`. */
  function Occurrences(s: seq<int>, v: int): nat {
    if s == [] then 0 else Occurrences(s[..|s| - 1], v) + (if s[|s| - 1] == v then 1 else 0)
  }

  lemma {:induction false} OccurrencesConcat(a: seq<int>, b: seq<int>, v: int)
    ensures Occurrences(a + b, v) == Occurrences(a, v) + Occurrences(b, v)
  {
    if b != [] {
      assert (a + b)[..|a + b| - 1] == a + b[..|b| - 1];
      OccurrencesConcat(a, b[..|b| - 1], v);
    } else {
      assert a + b == a;
    }
  }

  lemma {:induction false} OccurrencesCount(s: seq<int>, v: int)
    ensures Occurrences(s, v) == multiset(s)[v]
  {
    if s != [] {
      OccurrencesCount(s[..|s| - 1], v);
      assert s == s[..|s| - 1] + [s[|s| - 1]];
    }
  }

  lemma {:induction false} RowMineCount(g: array2<int>, arr: seq<int>, i: int, lo: nat, j: nat)
    requires 0 <= i < g.Length0 && j <= g.Length1 && lo + g.Length1 <= |arr|
    requires forall c :: 0 <= c < g.Length1 ==> (g[i, c] == -1 <==> arr[lo + c] == -1)
    ensures |RowHits(g, -1, i, j)| == Occurrences(arr[lo .. lo + j], -1)
  {
    if j > 0 {
      RowMineCount(g, arr, i, lo, j - 1);
      assert arr[lo .. lo + j][.. j - 1] == arr[lo .. lo + j - 1];
    }
  }

  /** `g` has a mine exactly where the row-major flat array `arr` has one. */
  predicate MinesAt(g: array2<int>, arr: seq<int>)
    reads g
  {
    |arr| == g.Length0 * g.Length1 &&
    forall r, c :: 0 <= r < g.Length0 && 0 <= c < g.Length1 ==>
      (g[r, c] == -1 <==> arr[Index(g.Length0, g.Length1, r, c)] == -1)
  }

  lemma RowOfMines(g: array2<int>, arr: seq<int>, row: int, lo: nat)
    requires MinesAt(g, arr) && 0 <= row < g.Length0 && lo == row * g.Length1
    ensures lo + g.Length1 <= |arr|
    ensures forall c :: 0 <= c < g.Length1 ==> (g[row, c] == -1 <==> arr[lo + c] == -1)
  {
    MulMono(row + 1, g.Length0, g.Length1);
    assert lo + g.Length1 == (row + 1) * g.Length1;
    forall c | 0 <= c < g.Length1 ensures g[row, c] == -1 <==> arr[lo + c] == -1 {
      assert Index(g.Length0, g.Length1, row, c) == lo + c;
    }
  }

  lemma {:induction false} GridMineCount(g: array2<int>, arr: seq<int>, i: nat)
    requires i <= g.Length0 && MinesAt(g, arr)
    ensures i * g.Length1 <= |arr|
    ensures |Hits(g, -1, i)| == Occurrences(arr[.. i * g.Length1], -1)
  {
    var n := g.Length1;
    MulMono(i, g.Length0, n);
    if i > 0 {
      var row := i - 1;
      var lo, hi := row * n, i * n;
      assert lo + n == hi;
      GridMineCount(g, arr, row);
      RowOfMines(g, arr, row, lo);
      RowMineCount(g, arr, row, lo, n);
      assert arr[.. hi] == arr[.. lo] + arr[lo .. hi];
      OccurrencesConcat(arr[.. lo], arr[lo .. hi], -1);
    }
  }

  /** `copy` has the shape of an m x n grid padded by one cell on each side. */
  predicate PadShape(copy: seq<seq<int>>, m: nat, n: nat) {
    |copy| == m + 2 && forall r :: 0 <= r < |copy| ==> |copy[r]| == n + 2
  }

  /** What `create_reference` leaves in cell (r, c) once it has (`done`) or
      has not yet visited it. */
  function Filling(copy: seq<seq<int>>, m: nat, n: nat, r: int, c: int, done: bool): int
    requires PadShape(copy, m, n) && 0 <= r < m && 0 <= c < n
  {
    if done && copy[r + 1][c + 1] != -1 then MinesAround(copy, r + 1, c + 1, |Offsets|) else copy[r + 1][c + 1]
  }

  /** `np.reshape(arr, (m, n))`: a fresh m x n array laid out row-major. */
  method Reshape(arr: seq<int>, m: nat, n: nat) returns (g: array2<int>)
    requires |arr| == m * n
    ensures fresh(g) && g.Length0 == m && g.Length1 == n
    ensures forall i, j :: 0 <= i < m && 0 <= j < n ==> g[i, j] == arr[Index(m, n, i, j)]
  {
    g := new int[m, n]((i, j) requires 0 <= i < m && 0 <= j < n => arr[Index(m, n, i, j)]);
  }

  /** The padded copy of the reshaped array, described without the heap. */
  lemma PaddedMarkers(g: array2<int>, arr: seq<int>, copy: seq<seq<int>>)
    requires |arr| == g.Length0 * g.Length1 && MarkersOnly(arr)
    requires forall i, j :: 0 <= i < g.Length0 && 0 <= j < g.Length1 ==> g[i, j] == arr[Index(g.Length0, g.Length1, i, j)]
    requires copy == Padded(g)
    ensures MarkerGrid(copy) && PadShape(copy, g.Length0, g.Length1)
    ensures forall r, c :: 0 <= r < g.Length0 && 0 <= c < g.Length1 ==> copy[r + 1][c + 1] == arr[Index(g.Length0, g.Length1, r, c)]
    ensures forall r, c :: 0 <= r < g.Length0 + 2 && 0 <= c < g.Length1 + 2 && !(1 <= r <= g.Length0 && 1 <= c <= g.Length1) ==> copy[r][c] == 0
  {
    forall r, c | 0 <= r < |copy| && 0 <= c < |copy[r]| ensures copy[r][c] == -1 || copy[r][c] == 0 {
      if 1 <= r <= g.Length0 && 1 <= c <= g.Length1 {
        assert copy[r][c] == arr[Index(g.Length0, g.Length1, r - 1, c - 1)];
      }
    }
  }

  /** The nested loops of `create_reference`: every cell of `g` that is not
      a mine is overwritten by `count_mines` on the padded copy taken before
      the loops start. */
  method FillCounts(g: array2<int>, copy: seq<seq<int>>)
    requires PadShape(copy, g.Length0, g.Length1) && MarkerGrid(copy)
    requires forall r, c :: 0 <= r < g.Length0 && 0 <= c < g.Length1 ==> g[r, c] == copy[r + 1][c + 1]
    modifies g
    ensures forall r, c :: 0 <= r < g.Length0 && 0 <= c < g.Length1 ==>
      g[r, c] == Filling(copy, g.Length0, g.Length1, r, c, true)
  {
    var m, n := g.Length0, g.Length1;
    for i := 0 to m
      invariant forall r, c :: 0 <= r < i && 0 <= c < n ==> g[r, c] == Filling(copy, m, n, r, c, true)
      invariant forall r, c :: i <= r < m && 0 <= c < n ==> g[r, c] == copy[r + 1][c + 1]
    {
      for j := 0 to n
        invariant forall r, c :: 0 <= r < i && 0 <= c < n ==> g[r, c] == Filling(copy, m, n, r, c, true)
        invariant forall c :: 0 <= c < j ==> g[i, c] == Filling(copy, m, n, i, c, true)
        invariant forall c :: j <= c < n ==> g[i, c] == copy[i + 1][c + 1]
        invariant forall r, c :: i < r < m && 0 <= c < n ==> g[r, c] == copy[r + 1][c + 1]
      {
        if g[i, j] != -1 {
          g[i, j] := CountMines(i + 1, j + 1, copy);
        }
      }
    }
  }

  /** Once every cell of `g` has been filled from the padded copy, `g` is a
      consistent reference grid with the copy's mines. */
  lemma FilledGrid(g: array2<int>, copy: seq<seq<int>>)
    requires PadShape(copy, g.Length0, g.Length1) && MarkerGrid(copy)
    requires forall r, c :: 0 <= r < g.Length0 + 2 && 0 <= c < g.Length1 + 2 && !(1 <= r <= g.Length0 && 1 <= c <= g.Length1) ==> copy[r][c] == 0
    requires forall r, c :: 0 <= r < g.Length0 && 0 <= c < g.Length1 ==>
      g[r, c] == Filling(copy, g.Length0, g.Length1, r, c, true)
    ensures Consistent(g)
    ensures forall i, j :: 0 <= i < g.Length0 && 0 <= j < g.Length1 ==> (g[i, j] == -1 <==> copy[i + 1][j + 1] == -1)
    ensures forall i, j :: 0 <= i < g.Length0 && 0 <= j < g.Length1 ==> -1 <= g[i, j] <= 8
  {
    forall r, c | 0 <= r < |copy| && 0 <= c < g.Length1 + 2
      ensures copy[r][c] == -1 <==> 1 <= r <= g.Length0 && 1 <= c <= g.Length1 && g[r - 1, c - 1] == -1
    {
      if 1 <= r <= g.Length0 && 1 <= c <= g.Length1 {
        SumIsMines(copy, r, c, |Offsets|);
      }
    }
    forall i, j | 0 <= i < g.Length0 && 0 <= j < g.Length1
      ensures g[i, j] != -1 ==> g[i, j] == NeighbourMines(g, i, j, |Offsets|)
      ensures -1 <= g[i, j] <= 8
    {
      SumIsMines(copy, i + 1, j + 1, |Offsets|);
      PaddedCount(copy, g, i, j, |Offsets|);
    }
  }

  /** `create_reference`, with the shuffle supplied by the caller as the
      already-shuffled flat array `arr`. The mines sit where `arr` put them,
      there are exactly `mines` of them, and every other cell holds its
      number of mine neighbours. */
  method CreateReference(m: nat, n: nat, mines: nat, arr: seq<int>) returns (g: array2<int>)
    requires mines <= m * n
    requires multiset(arr) == multiset(Initial(m, n, mines))
    ensures fresh(g) && g.Length0 == m && g.Length1 == n
    ensures |arr| == m * n
    ensures forall i, j :: 0 <= i < m && 0 <= j < n ==> (g[i, j] == -1 <==> arr[Index(m, n, i, j)] == -1)
    ensures Consistent(g)
    ensures forall i, j :: 0 <= i < m && 0 <= j < n ==> -1 <= g[i, j] <= 8
    ensures |Where(g, -1)| == mines
  {
    ShuffleMarkers(m, n, mines, arr);
    g := Reshape(arr, m, n);
    var copy := Padded(g);
    PaddedMarkers(g, arr, copy);
    FillCounts(g, copy);
    FilledGrid(g, copy);
    assert forall i, j :: 0 <= i < m && 0 <= j < n ==> (g[i, j] == -1 <==> arr[Index(m, n, i, j)] == -1);
    assert MinesAt(g, arr);
    GridMineCount(g, arr, m);
    assert arr[.. m * n] == arr;
    OccurrencesCount(arr, -1);
  }
}

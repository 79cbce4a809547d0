/** Shared vocabulary of the two minesweeper programs: positions, numpy-style
    indexing, the player's view of a cell, and numpy's row-major `where`. */
module Grid {

  /** A (row, column) index pair as the programs hand it to numpy. */
  type Pos = (int, int)

  /** What the player sees of one cell: "-", "F", a revealed value, "*". */
  datatype Cell = Hidden | Flag | Shown(k: int) | Exploded

  /** The eight Moore offsets, in the order both programs list them. */
  const Offsets: seq<Pos> := [(1, 0), (1, 1), (0, 1), (-1, 1), (-1, 0), (-1, -1), (0, -1), (1, -1)]

  /** numpy accepts index `p` on an axis of length `len` iff -len <= p < len;
      any other index raises IndexError. */
  predicate IndexOk(p: int, len: int) {
    -len <= p < len
  }

  /** The axis position numpy reads for an accepted index: negative indices
      count from the end. */
  function Wrap(p: int, len: int): (r: int)
    requires IndexOk(p, len)
    ensures 0 <= r < len
    ensures p >= 0 ==> r == p
    ensures (r - p) % len == 0
  {
    if p < 0 then p + len else p
  }

  /** `p` moved by the t-th Moore offset. */
  function Shift(p: Pos, t: nat): (q: Pos)
    requires t < |Offsets|
    ensures Adjacent(p, q)
  {
    assert t == 0 || t == 1 || t == 2 || t == 3 || t == 4 || t == 5 || t == 6 || t == 7;
    (p.0 + Offsets[t].0, p.1 + Offsets[t].1)
  }

  /** `q` is one of the (up to) eight cells around `p`. */
  predicate Adjacent(p: Pos, q: Pos) {
    p != q && -1 <= q.0 - p.0 <= 1 && -1 <= q.1 - p.1 <= 1
  }

  /** The index in `Offsets` of the offset that leads from `p` to an adjacent `q`. */
  function OffsetOf(p: Pos, q: Pos): (t: nat)
    requires Adjacent(p, q)
    ensures t < |Offsets| && Shift(p, t) == q
  {
    var d := (q.0 - p.0, q.1 - p.1);
    if d == (1, 0) then 0 else if d == (1, 1) then 1 else if d == (0, 1) then 2
    else if d == (-1, 1) then 3 else if d == (-1, 0) then 4 else if d == (-1, -1) then 5
    else if d == (0, -1) then 6 else 7
  }

  /** The eight offsets are exactly the Moore neighbourhood, each listed once. */
  lemma OffsetsExact(p: Pos, q: Pos)
    ensures Adjacent(p, q) <==> exists t :: 0 <= t < |Offsets| && Shift(p, t) == q
    ensures |Offsets| == 8
    ensures forall s, t :: 0 <= s < t < |Offsets| ==> Shift(p, s) != Shift(p, t)
  {
    if Adjacent(p, q) {
      var t := OffsetOf(p, q);
    }
  }

  predicate InGrid(p: Pos, m: int, n: int) {
    0 <= p.0 < m && 0 <= p.1 < n
  }

  /** Row-major order on positions, the order in which np.where lists them. */
  predicate Before(p: Pos, q: Pos) {
    p.0 < q.0 || (p.0 == q.0 && p.1 < q.1)
  }

  predicate Increasing(s: seq<Pos>) {
    forall a, b :: 0 <= a < b < |s| ==> Before(s[a], s[b])
  }

  /** Positions (i, c), c < j, of row i that hold `v`, left to right. */
  function RowHits<T(==)>(g: array2<T>, v: T, i: int, j: nat): seq<Pos>
    requires 0 <= i < g.Length0 && j <= g.Length1
    reads g
  {
    if j == 0 then []
    else RowHits(g, v, i, j - 1) + (if g[i, j - 1] == v then [(i, j - 1)] else [])
  }

  /** Positions in rows 0 .. i-1 that hold `v`, in row-major order. */
  function Hits<T(==)>(g: array2<T>, v: T, i: nat): seq<Pos>
    requires i <= g.Length0
    reads g
  {
    if i == 0 then [] else Hits(g, v, i - 1) + RowHits(g, v, i - 1, g.Length1)
  }

  /** `np.where(g == v)`, zipped: every position holding `v`, row-major. */
  function Where<T(==)>(g: array2<T>, v: T): seq<Pos>
    reads g
  {
    Hits(g, v, g.Length0)
  }

  /** `np.where(...)[0]` and `np.where(...)[1]`: the row and column lists. */
  function RowsOf(s: seq<Pos>): (r: seq<int>)
    ensures |r| == |s| && forall k :: 0 <= k < |s| ==> r[k] == s[k].0
  {
    seq(|s|, k requires 0 <= k < |s| => s[k].0)
  }

  function ColsOf(s: seq<Pos>): (r: seq<int>)
    ensures |r| == |s| && forall k :: 0 <= k < |s| ==> r[k] == s[k].1
  {
    seq(|s|, k requires 0 <= k < |s| => s[k].1)
  }

  lemma {:induction false} RowHitsSpec<T>(g: array2<T>, v: T, i: int, j: nat)
    requires 0 <= i < g.Length0 && j <= g.Length1
    ensures forall p :: p in RowHits(g, v, i, j) <==> p.0 == i && 0 <= p.1 < j && g[i, p.1] == v
    ensures Increasing(RowHits(g, v, i, j))
  {
    if j > 0 {
      RowHitsSpec(g, v, i, j - 1);
    }
  }

  lemma {:induction false} HitsSpec<T>(g: array2<T>, v: T, i: nat)
    requires i <= g.Length0
    ensures forall p :: p in Hits(g, v, i) <==> 0 <= p.0 < i && 0 <= p.1 < g.Length1 && g[p.0, p.1] == v
    ensures Increasing(Hits(g, v, i))
  {
    if i > 0 {
      HitsSpec(g, v, i - 1);
      RowHitsSpec(g, v, i - 1, g.Length1);
      var a, b := Hits(g, v, i - 1), RowHits(g, v, i - 1, g.Length1);
      forall x, y | 0 <= x < y < |a + b| ensures Before((a + b)[x], (a + b)[y]) {
        if y < |a| {
        } else if x < |a| {
          assert a[x] in a && b[y - |a|] in b;
        } else {
          assert (a + b)[x] == b[x - |a|] && (a + b)[y] == b[y - |a|];
        }
      }
    }
  }

  /** `Where` lists exactly the positions holding `v`, in increasing order. */
  lemma WhereSpec<T>(g: array2<T>, v: T)
    ensures forall p :: p in Where(g, v) <==> InGrid(p, g.Length0, g.Length1) && g[p.0, p.1] == v
    ensures Increasing(Where(g, v))
  {
    HitsSpec(g, v, g.Length0);
  }

  /** Two row-major increasing lists with the same elements are equal. */
  lemma {:induction false} IncreasingUnique(a: seq<Pos>, b: seq<Pos>)
    requires Increasing(a) && Increasing(b)
    requires forall p :: p in a <==> p in b
    ensures a == b
  {
    if a != [] { assert a[0] in b; }
    if b != [] { assert b[0] in a; }
    if a != [] && b != [] {
      var x :| 0 <= x < |b| && b[x] == a[0];
      var y :| 0 <= y < |a| && a[y] == b[0];
      assert x == 0 || Before(b[0], a[0]);
      assert y == 0 || Before(a[0], b[0]);
      forall p ensures p in a[1..] <==> p in b[1..] {
        if p in a[1..] {
          var x :| 1 <= x < |a| && a[x] == p;
          assert Before(a[0], p) && p in a && p in b;
          var z :| 0 <= z < |b| && b[z] == p;
          assert z != 0 && b[1..][z - 1] == p;
        }
        if p in b[1..] {
          var x :| 1 <= x < |b| && b[x] == p;
          assert Before(b[0], p) && p in b && p in a;
          var z :| 0 <= z < |a| && a[z] == p;
          assert z != 0 && a[1..][z - 1] == p;
        }
      }
      IncreasingUnique(a[1..], b[1..]);
      assert a == [a[0]] + a[1..] && b == [b[0]] + b[1..];
    }
  }

  /** Comparing the row lists and the column lists separately is comparing
      the position lists. */
  lemma Unzip(a: seq<Pos>, b: seq<Pos>)
    ensures RowsOf(a) == RowsOf(b) && ColsOf(a) == ColsOf(b) <==> a == b
  {
    if RowsOf(a) == RowsOf(b) && ColsOf(a) == ColsOf(b) {
      assert |a| == |RowsOf(a)| == |b|;
      forall k | 0 <= k < |a| ensures a[k] == b[k] {
        assert RowsOf(a)[k] == RowsOf(b)[k] && ColsOf(a)[k] == ColsOf(b)[k];
      }
    }
  }
}

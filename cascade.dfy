/** The click cascade shared by both minesweeper programs: `neighbours`, the
    recursive flood `f`, `zero_method` and the reveal that follows a click on
    a cell that is not a mine. The two programs differ only in which
    positions `neighbours` keeps, so every member takes the `Variant`. */
module Cascade {
  import opened Grid
  import opened Board

  /** Pygame keeps only non-negative positions; Terminal keeps every
      position numpy accepts, so -1 names the last row or column. */
  datatype Variant = Pygame | Terminal

  /** `neighbours` keeps `p` iff reading `ref_grid[p]` raises no IndexError
      and, in the graphics program, both coordinates are non-negative. */
  predicate Kept(v: Variant, m: int, n: int, p: Pos) {
    IndexOk(p.0, m) && IndexOk(p.1, n) && (v == Pygame ==> p.0 >= 0 && p.1 >= 0)
  }

  /** `q` is one of the positions `neighbours(c)` returns. */
  predicate IsNbr(v: Variant, m: int, n: int, c: Pos, q: Pos) {
    Kept(v, m, n, q) && Adjacent(c, q)
  }

  /** `neighbours(x, y)`: the eight Moore offsets in order, keeping those the
      variant accepts. */
  method Neighbours(v: Variant, m: nat, n: nat, x: int, y: int) returns (r: seq<Pos>)
    ensures forall q :: q in r <==> IsNbr(v, m, n, (x, y), q)
    ensures |r| <= 8 && (x, y) !in r
    ensures forall a, b :: 0 <= a < b < |r| ==> r[a] != r[b]
    ensures v == Pygame ==> forall q :: q in r ==> InGrid(q, m, n)
    ensures InGrid((x, y), m, n) ==> forall q :: q in r ==> -1 <= q.0 < m && -1 <= q.1 < n
  {
    r := [];
    for t := 0 to |Offsets|
      invariant |r| <= t
      invariant forall q :: q in r <==> Kept(v, m, n, q) && exists s :: 0 <= s < t && Shift((x, y), s) == q
      invariant forall a, b :: 0 <= a < b < |r| ==> r[a] != r[b]
    {
      var q := Shift((x, y), t);
      OffsetsExact((x, y), q);
      if Kept(v, m, n, q) {
        r := r + [q];
      }
    }
    forall q ensures q in r <==> IsNbr(v, m, n, (x, y), q) {
      OffsetsExact((x, y), q);
    }
  }

  /** `ref_grid[p] == 0`, reading through numpy's negative-index wrap. */
  predicate Zero(ref: array2<int>, p: Pos)
    reads ref
  {
    IndexOk(p.0, ref.Length0) && IndexOk(p.1, ref.Length1)
    && ref[Wrap(p.0, ref.Length0), Wrap(p.1, ref.Length1)] == 0
  }

  /** Every position `f` could ever put in `zero_list`; its size bounds the
      recursion. */
  ghost function ZeroTuples(v: Variant, ref: array2<int>): set<Pos>
    reads ref
  {
    set a, b | -ref.Length0 <= a < ref.Length0 && -ref.Length1 <= b < ref.Length1
      && Kept(v, ref.Length0, ref.Length1, (a, b)) && Zero(ref, (a, b)) :: (a, b)
  }

  predicate Distinct(s: seq<Pos>) {
    forall a, b :: 0 <= a < b < |s| ==> s[a] != s[b]
  }

  /** What `f` keeps true of its two lists: no duplicates, only zero cells
      in `zero_list`, only accepted positions in both, and a zero in
      `border_list` only when it is already in `zero_list`. */
  predicate Inv(v: Variant, ref: array2<int>, zl: seq<Pos>, bl: seq<Pos>)
    reads ref
  {
    Distinct(zl) && Distinct(bl)
    && (forall k :: 0 <= k < |zl| ==> Kept(v, ref.Length0, ref.Length1, zl[k]) && Zero(ref, zl[k]))
    && (forall k :: 0 <= k < |bl| ==> Kept(v, ref.Length0, ref.Length1, bl[k]))
    && (forall k :: 0 <= k < |bl| && Zero(ref, bl[k]) ==> bl[k] in zl)
  }

  /** A neighbour `q` that `f` has dealt with: a zero is in `zero_list`,
      anything else in `border_list`. */
  predicate Handled(ref: array2<int>, q: Pos, zl: seq<Pos>, bl: seq<Pos>)
    reads ref
  {
    (Zero(ref, q) ==> q in zl) && (!Zero(ref, q) ==> q in bl)
  }

  /** Every neighbour of `c` has been dealt with. */
  ghost predicate Done(v: Variant, ref: array2<int>, c: Pos, zl: seq<Pos>, bl: seq<Pos>)
    reads ref
  {
    forall q :: IsNbr(v, ref.Length0, ref.Length1, c, q) ==> Handled(ref, q, zl, bl)
  }

  /** The entries of `zl` from index `lo` on have all been expanded. */
  ghost predicate AllDone(v: Variant, ref: array2<int>, lo: nat, zl: seq<Pos>, bl: seq<Pos>)
    reads ref
  {
    forall k :: lo <= k < |zl| ==> Done(v, ref, zl[k], zl, bl)
  }

  /** `zl[k]` was reached from the root `c` or from an earlier entry. */
  predicate Linked(v: Variant, m: int, n: int, c: Pos, zl: seq<Pos>, k: int)
    requires 0 <= k < |zl|
  {
    IsNbr(v, m, n, c, zl[k]) || exists l :: 0 <= l < k && IsNbr(v, m, n, zl[l], zl[k])
  }

  /** Every entry of `zl` from index `lo` on is linked. */
  predicate Chain(v: Variant, m: int, n: int, c: Pos, lo: nat, zl: seq<Pos>) {
    forall k :: lo <= k < |zl| ==> Linked(v, m, n, c, zl, k)
  }

  /** `q` is a neighbour of the root `c` or of some entry of `zl`. */
  predicate Near(v: Variant, m: int, n: int, c: Pos, zl: seq<Pos>, q: Pos) {
    IsNbr(v, m, n, c, q) || exists l :: 0 <= l < |zl| && IsNbr(v, m, n, zl[l], q)
  }

  /** Every entry of `bl` from index `lo` on is near the explored region. */
  predicate BorderNear(v: Variant, m: int, n: int, c: Pos, lo: nat, zl: seq<Pos>, bl: seq<Pos>) {
    forall k :: lo <= k < |bl| ==> Near(v, m, n, c, zl, bl[k])
  }

  function Elems(s: seq<Pos>): set<Pos> {
    set p | p in s
  }

  lemma PrefixIn(a: seq<Pos>, b: seq<Pos>)
    requires a <= b
    ensures forall q :: q in a ==> q in b
    ensures forall k :: 0 <= k < |a| ==> b[k] == a[k]
  {
    forall q | q in a ensures q in b {
      var k :| 0 <= k < |a| && a[k] == q;
      assert b[k] == q;
    }
  }

  lemma DoneMono(v: Variant, ref: array2<int>, c: Pos, zl: seq<Pos>, bl: seq<Pos>, zl2: seq<Pos>, bl2: seq<Pos>)
    requires zl <= zl2 && bl <= bl2 && Done(v, ref, c, zl, bl)
    ensures Done(v, ref, c, zl2, bl2)
  {
    PrefixIn(zl, zl2);
    PrefixIn(bl, bl2);
  }

  /** Adding a new zero position strictly shrinks the set of zero positions
      not yet listed. */
  lemma Shrinks(z: set<Pos>, zl: seq<Pos>, z0: seq<Pos>, pos: Pos)
    requires zl <= z0 && pos in z && pos !in z0
    ensures |z - Elems(z0 + [pos])| < |z - Elems(zl)|
  {
    PrefixIn(zl, z0);
    var a, b := z - Elems(z0 + [pos]), z - Elems(zl);
    assert a <= b - {pos};
    SubsetCard(a, b - {pos});
    assert pos in b;
  }

  lemma {:induction false} SubsetCard(a: set<Pos>, b: set<Pos>)
    requires a <= b
    ensures |a| <= |b|
    decreases |a|
  {
    if a != {} {
      var x :| x in a;
      SubsetCard(a - {x}, b - {x});
    }
  }

  /** `f(x, y)`: walk the neighbours of (x, y); a zero not yet in `zero_list`
      is appended and explored at once, anything else not yet in
      `border_list` is appended to it. */
  method Flood(v: Variant, ref: array2<int>, x: int, y: int, zl: seq<Pos>, bl: seq<Pos>)
    returns (zeros: seq<Pos>, border: seq<Pos>)
    requires Inv(v, ref, zl, bl)
    ensures zl <= zeros && bl <= border
    ensures Inv(v, ref, zeros, border)
    ensures Done(v, ref, (x, y), zeros, border)
    ensures AllDone(v, ref, |zl|, zeros, border)
    ensures Chain(v, ref.Length0, ref.Length1, (x, y), |zl|, zeros)
    ensures BorderNear(v, ref.Length0, ref.Length1, (x, y), |bl|, zeros, border)
    decreases |ZeroTuples(v, ref) - Elems(zl)|
  {
    var m, n := ref.Length0, ref.Length1;
    var nbrs := Neighbours(v, m, n, x, y);
    zeros, border := zl, bl;
    for t := 0 to |nbrs|
      invariant Loop(v, ref, (x, y), nbrs[..t], zl, bl, zeros, border)
    {
      var pos := nbrs[t];
      assert nbrs[..t + 1] == nbrs[..t] + [pos];
      if Zero(ref, pos) && pos !in zeros {
        var zs, bs := zeros, border;
        EnterZero(v, ref, (x, y), nbrs, t, zl, bl, zs, bs);
        zeros, border := Flood(v, ref, pos.0, pos.1, zs + [pos], bs);
        FloodStep(v, ref, (x, y), nbrs[..t], pos, zl, bl, zs, bs, zeros, border);
      } else if pos !in border {
        ghost var bs := border;
        border := border + [pos];
        BorderStep(v, ref, (x, y), nbrs[..t], pos, zl, bl, zeros, bs, border);
      } else {
        KeepStep(v, ref, (x, y), nbrs[..t], pos, zl, bl, zeros, border);
      }
    }
    LoopEnd(v, ref, (x, y), nbrs, zl, bl, zeros, border);
  }

  /** The recursive call on a new zero `nbrs[t]` starts from a valid state
      and a strictly smaller measure. */
  lemma EnterZero(v: Variant, ref: array2<int>, c: Pos, nbrs: seq<Pos>, t: nat,
                  zl: seq<Pos>, bl: seq<Pos>, zs: seq<Pos>, bs: seq<Pos>)
    requires t < |nbrs| && forall q :: q in nbrs ==> IsNbr(v, ref.Length0, ref.Length1, c, q)
    requires Loop(v, ref, c, nbrs[..t], zl, bl, zs, bs)
    requires Zero(ref, nbrs[t]) && nbrs[t] !in zs
    ensures Inv(v, ref, zs + [nbrs[t]], bs)
    ensures |ZeroTuples(v, ref) - Elems(zs + [nbrs[t]])| < |ZeroTuples(v, ref) - Elems(zl)|
  {
    var pos := nbrs[t];
    assert pos in nbrs;
    assert pos in ZeroTuples(v, ref) by {
      assert pos == (pos.0, pos.1);
    }
    Shrinks(ZeroTuples(v, ref), zl, zs, pos);
    var z := zs + [pos];
    forall k | 0 <= k < |bs| && Zero(ref, bs[k]) ensures bs[k] in z {
      assert bs[k] in zs;
    }
  }

  /** A neighbour already dealt with leaves the lists as they are. */
  lemma KeepStep(v: Variant, ref: array2<int>, c: Pos, seen: seq<Pos>, pos: Pos,
                 zl: seq<Pos>, bl: seq<Pos>, zs: seq<Pos>, bs: seq<Pos>)
    requires Loop(v, ref, c, seen, zl, bl, zs, bs)
    requires !(Zero(ref, pos) && pos !in zs) && pos in bs
    ensures Loop(v, ref, c, seen + [pos], zl, bl, zs, bs)
  {
    forall q | q in seen + [pos] ensures Handled(ref, q, zs, bs) {
      if q != pos {
        assert q in seen;
      }
    }
  }

  /** Once every neighbour of `c` has been seen, `c` is done. */
  lemma LoopEnd(v: Variant, ref: array2<int>, c: Pos, nbrs: seq<Pos>,
                zl: seq<Pos>, bl: seq<Pos>, zs: seq<Pos>, bs: seq<Pos>)
    requires forall q :: q in nbrs <==> IsNbr(v, ref.Length0, ref.Length1, c, q)
    requires Loop(v, ref, c, nbrs[..|nbrs|], zl, bl, zs, bs)
    ensures Done(v, ref, c, zs, bs)
  {
    assert nbrs[..|nbrs|] == nbrs;
  }

  /** The loop state of `f` before handling neighbour `pos` of `c`. */
  ghost predicate Loop(v: Variant, ref: array2<int>, c: Pos, seen: seq<Pos>, zl: seq<Pos>, bl: seq<Pos>, zs: seq<Pos>, bs: seq<Pos>)
    reads ref
  {
    zl <= zs && bl <= bs && Inv(v, ref, zs, bs)
    && (forall q :: q in seen ==> Handled(ref, q, zs, bs))
    && AllDone(v, ref, |zl|, zs, bs)
    && Chain(v, ref.Length0, ref.Length1, c, |zl|, zs)
    && BorderNear(v, ref.Length0, ref.Length1, c, |bl|, zs, bs)
  }

  /** Appending the zero `pos` and exploring it keeps the loop state. */
  lemma FloodStep(v: Variant, ref: array2<int>, c: Pos, seen: seq<Pos>, pos: Pos,
                  zl: seq<Pos>, bl: seq<Pos>, zs: seq<Pos>, bs: seq<Pos>, zeros: seq<Pos>, border: seq<Pos>)
    requires Loop(v, ref, c, seen, zl, bl, zs, bs)
    requires IsNbr(v, ref.Length0, ref.Length1, c, pos) && Zero(ref, pos) && pos !in zs
    requires zs + [pos] <= zeros && bs <= border && Inv(v, ref, zeros, border)
    requires Done(v, ref, pos, zeros, border) && AllDone(v, ref, |zs| + 1, zeros, border)
    requires Chain(v, ref.Length0, ref.Length1, pos, |zs| + 1, zeros)
    requires BorderNear(v, ref.Length0, ref.Length1, pos, |bs|, zeros, border)
    ensures Loop(v, ref, c, seen + [pos], zl, bl, zeros, border)
  {
    var m, n := ref.Length0, ref.Length1;
    PrefixIn(zs + [pos], zeros);
    PrefixIn(bs, border);
    PrefixIn(zl, zs);
    assert zeros[|zs|] == pos;
    forall q | q in seen + [pos] ensures Handled(ref, q, zeros, border) {
      if q != pos {
        assert q in seen;
      }
    }
    forall k | |zl| <= k < |zeros| ensures Done(v, ref, zeros[k], zeros, border) {
      if k < |zs| {
        assert zeros[k] == zs[k];
        DoneMono(v, ref, zs[k], zs, bs, zeros, border);
      }
    }
    forall k | |zl| <= k < |zeros| ensures Linked(v, m, n, c, zeros, k) {
      if k < |zs| {
        assert Linked(v, m, n, c, zs, k);
        assert zeros[k] == zs[k];
        if !IsNbr(v, m, n, c, zs[k]) {
          var l :| 0 <= l < k && IsNbr(v, m, n, zs[l], zs[k]);
          assert zeros[l] == zs[l];
        }
      } else if k > |zs| {
        assert Linked(v, m, n, pos, zeros, k);
        if IsNbr(v, m, n, pos, zeros[k]) {
          assert IsNbr(v, m, n, zeros[|zs|], zeros[k]);
        }
      }
    }
    forall k | |bl| <= k < |border| ensures Near(v, m, n, c, zeros, border[k]) {
      if k < |bs| {
        assert Near(v, m, n, c, zs, bs[k]);
        assert border[k] == bs[k];
        if !IsNbr(v, m, n, c, bs[k]) {
          var l :| 0 <= l < |zs| && IsNbr(v, m, n, zs[l], bs[k]);
          assert zeros[l] == zs[l];
        }
      } else {
        assert Near(v, m, n, pos, zeros, border[k]);
        if IsNbr(v, m, n, pos, border[k]) {
          assert IsNbr(v, m, n, zeros[|zs|], border[k]);
        }
      }
    }
  }

  /** Appending `pos` to `border_list` keeps the loop state. */
  lemma BorderStep(v: Variant, ref: array2<int>, c: Pos, seen: seq<Pos>, pos: Pos,
                   zl: seq<Pos>, bl: seq<Pos>, zs: seq<Pos>, bs: seq<Pos>, border: seq<Pos>)
    requires Loop(v, ref, c, seen, zl, bl, zs, bs)
    requires IsNbr(v, ref.Length0, ref.Length1, c, pos) && !(Zero(ref, pos) && pos !in zs) && pos !in bs
    requires border == bs + [pos]
    ensures Loop(v, ref, c, seen + [pos], zl, bl, zs, border)
  {
    PrefixIn(bs, border);
    forall k | |zl| <= k < |zs| ensures Done(v, ref, zs[k], zs, border) {
      DoneMono(v, ref, zs[k], zs, bs, zs, border);
    }
    forall q | q in seen + [pos] ensures Handled(ref, q, zs, border) {
      if q != pos {
        assert q in seen;
      }
    }
  }

  /** The numpy index `q` names grid cell `p`. */
  predicate Names(m: int, n: int, q: Pos, p: Pos) {
    IndexOk(q.0, m) && IndexOk(q.1, n) && Wrap(q.0, m) == p.0 && Wrap(q.1, n) == p.1
  }

  /** Some entry of `s` names grid cell `p`. */
  predicate Covers(s: seq<Pos>, m: int, n: int, p: Pos) {
    exists k :: 0 <= k < |s| && Names(m, n, s[k], p)
  }

  lemma CoversConcat(a: seq<Pos>, b: seq<Pos>, m: int, n: int, p: Pos)
    ensures Covers(a + b, m, n, p) <==> Covers(a, m, n, p) || Covers(b, m, n, p)
  {
    if Covers(a + b, m, n, p) {
      var k :| 0 <= k < |a + b| && Names(m, n, (a + b)[k], p);
      if k >= |a| {
        assert b[k - |a|] == (a + b)[k];
      }
    }
    if Covers(b, m, n, p) {
      var k :| 0 <= k < |b| && Names(m, n, b[k], p);
      assert (a + b)[k + |a|] == b[k];
    }
    if Covers(a, m, n, p) {
      var k :| 0 <= k < |a| && Names(m, n, a[k], p);
      assert (a + b)[k] == a[k];
    }
  }

  lemma CoversOne(q: Pos, m: int, n: int, p: Pos)
    ensures Covers([q], m, n, p) <==> Names(m, n, q, p)
  {
    if Names(m, n, q, p) {
      assert [q][0] == q;
    }
  }

  /** After `f` has run to completion from `c` on empty lists, the two lists
      together hold exactly the neighbours of `c` and of the zeros found. */
  lemma Region(v: Variant, ref: array2<int>, c: Pos, zl: seq<Pos>, bl: seq<Pos>)
    requires Done(v, ref, c, zl, bl) && AllDone(v, ref, 0, zl, bl)
    requires Chain(v, ref.Length0, ref.Length1, c, 0, zl)
    requires BorderNear(v, ref.Length0, ref.Length1, c, 0, zl, bl)
    ensures forall q :: q in zl || q in bl <==> Near(v, ref.Length0, ref.Length1, c, zl, q)
  {
    var m, n := ref.Length0, ref.Length1;
    forall q ensures q in zl || q in bl <==> Near(v, m, n, c, zl, q) {
      if q in zl {
        var k :| 0 <= k < |zl| && zl[k] == q;
        assert Linked(v, m, n, c, zl, k);
      }
      if q in bl {
        var k :| 0 <= k < |bl| && bl[k] == q;
      }
      if Near(v, m, n, c, zl, q) && !IsNbr(v, m, n, c, q) {
        var l :| 0 <= l < |zl| && IsNbr(v, m, n, zl[l], q);
        assert Done(v, ref, zl[l], zl, bl);
      }
    }
  }

  /** The copy loops of `zero_method`: `player_grid[pos] = ref_grid[pos]`
      for every `pos` of `s` in turn. */
  method Show(ref: array2<int>, player: array2<Cell>, s: seq<Pos>)
    requires player.Length0 == ref.Length0 && player.Length1 == ref.Length1
    requires forall k :: 0 <= k < |s| ==> IndexOk(s[k].0, ref.Length0) && IndexOk(s[k].1, ref.Length1)
    modifies player
    ensures forall i, j :: 0 <= i < ref.Length0 && 0 <= j < ref.Length1 ==>
      player[i, j] == if Covers(s, ref.Length0, ref.Length1, (i, j)) then Shown(ref[i, j]) else old(player[i, j])
  {
    var m, n := ref.Length0, ref.Length1;
    for k := 0 to |s|
      invariant forall i, j :: 0 <= i < m && 0 <= j < n ==>
        player[i, j] == if Covers(s[..k], m, n, (i, j)) then Shown(ref[i, j]) else old(player[i, j])
    {
      var p := s[k];
      var a, b := Wrap(p.0, m), Wrap(p.1, n);
      player[a, b] := Shown(ref[a, b]);
      assert s[..k + 1] == s[..k] + [p];
      forall i, j | 0 <= i < m && 0 <= j < n
        ensures Covers(s[..k + 1], m, n, (i, j)) <==> Covers(s[..k], m, n, (i, j)) || (i, j) == (a, b)
      {
        CoversConcat(s[..k], [p], m, n, (i, j));
        CoversOne(p, m, n, (i, j));
      }
    }
    assert s[..|s|] == s;
  }

  /** `zero_method(x, y, ref_grid, player_grid)`: run `f` from (x, y) on
      empty lists, then copy `ref_grid` into `player_grid` at every listed
      position, zeros first, then the border (one pass over `zl + bl`
      makes the same writes in the same order as the two loops). */
  method ZeroMethod(v: Variant, ref: array2<int>, player: array2<Cell>, x: int, y: int)
    returns (zl: seq<Pos>, bl: seq<Pos>)
    requires player.Length0 == ref.Length0 && player.Length1 == ref.Length1
    modifies player
    ensures Inv(v, ref, zl, bl)
    ensures Done(v, ref, (x, y), zl, bl) && AllDone(v, ref, 0, zl, bl)
    ensures Chain(v, ref.Length0, ref.Length1, (x, y), 0, zl)
    ensures forall q :: q in zl || q in bl <==> Near(v, ref.Length0, ref.Length1, (x, y), zl, q)
    ensures forall i, j :: 0 <= i < ref.Length0 && 0 <= j < ref.Length1 ==>
      player[i, j] == if Covers(zl + bl, ref.Length0, ref.Length1, (i, j)) then Shown(ref[i, j]) else old(player[i, j])
  {
    zl, bl := Flood(v, ref, x, y, [], []);
    Region(v, ref, (x, y), zl, bl);
    forall k | 0 <= k < |zl + bl|
      ensures IndexOk((zl + bl)[k].0, ref.Length0) && IndexOk((zl + bl)[k].1, ref.Length1)
    {
      assert (zl + bl)[k] in zl || (zl + bl)[k] in bl;
    }
    Show(ref, player, zl + bl);
  }

  /** Every entry of `reach` is an accepted zero, and every zero neighbour
      of an entry is itself an entry. */
  ghost predicate Zone(v: Variant, ref: array2<int>, reach: seq<Pos>)
    reads ref
  {
    (forall k :: 0 <= k < |reach| ==> Kept(v, ref.Length0, ref.Length1, reach[k]) && Zero(ref, reach[k]))
    && (forall k, r :: 0 <= k < |reach| && IsNbr(v, ref.Length0, ref.Length1, reach[k], r) && Zero(ref, r) ==> r in reach)
  }

  /** Every entry of `reach` is the clicked cell `c` or is linked to it. */
  predicate Rooted(v: Variant, m: int, n: int, c: Pos, reach: seq<Pos>) {
    forall k :: 0 <= k < |reach| ==> reach[k] == c || Linked(v, m, n, c, reach, k)
  }

  /** `names` lists exactly the neighbours of the entries of `reach`. */
  ghost predicate Borders(v: Variant, m: int, n: int, reach: seq<Pos>, names: seq<Pos>) {
    forall q :: q in names <==> exists l :: 0 <= l < |reach| && IsNbr(v, m, n, reach[l], q)
  }

  /** The zeros of a completed run, with its start, are a zone. */
  lemma RunIsZone(v: Variant, ref: array2<int>, s: Pos, zl: seq<Pos>, bl: seq<Pos>)
    requires Kept(v, ref.Length0, ref.Length1, s) && Zero(ref, s)
    requires Inv(v, ref, zl, bl)
    requires Done(v, ref, s, zl, bl) && AllDone(v, ref, 0, zl, bl)
    ensures Zone(v, ref, [s] + zl)
    ensures forall r :: IsNbr(v, ref.Length0, ref.Length1, s, r) && Zero(ref, r) ==> r in zl
  {
    var m, n := ref.Length0, ref.Length1;
    var run := [s] + zl;
    forall k, r | 0 <= k < |run| && IsNbr(v, m, n, run[k], r) && Zero(ref, r) ensures r in run {
      if k > 0 {
        assert run[k] == zl[k - 1];
        assert Done(v, ref, zl[k - 1], zl, bl);
      }
      assert r in zl;
    }
  }

  /** A run from `s` is rooted at the click `c` next to or at `s`. */
  lemma RunRooted(v: Variant, m: int, n: int, c: Pos, s: Pos, zl: seq<Pos>)
    requires s == c || IsNbr(v, m, n, c, s)
    requires Chain(v, m, n, s, 0, zl)
    ensures Rooted(v, m, n, c, [s] + zl)
  {
    var run := [s] + zl;
    forall k | 0 <= k < |run| ensures run[k] == c || Linked(v, m, n, c, run, k) {
      if k > 0 {
        assert run[k] == zl[k - 1] && run[0] == s;
        assert Linked(v, m, n, s, zl, k - 1);
        if IsNbr(v, m, n, s, zl[k - 1]) {
          assert IsNbr(v, m, n, run[0], run[k]);
        } else {
          var l :| 0 <= l < k - 1 && IsNbr(v, m, n, zl[l], zl[k - 1]);
          assert run[l + 1] == zl[l];
        }
      } else if s != c {
        assert IsNbr(v, m, n, c, run[0]);
      }
    }
  }

  /** What a run from `s` reveals is exactly the neighbours of its zeros. */
  lemma RunBorders(v: Variant, m: int, n: int, s: Pos, zl: seq<Pos>, bl: seq<Pos>)
    requires forall q :: q in zl || q in bl <==> Near(v, m, n, s, zl, q)
    ensures Borders(v, m, n, [s] + zl, zl + bl)
  {
    var run := [s] + zl;
    forall q ensures q in zl + bl <==> exists l :: 0 <= l < |run| && IsNbr(v, m, n, run[l], q) {
      if q in zl + bl {
        assert q in zl || q in bl;
        if !IsNbr(v, m, n, s, q) {
          var l :| 0 <= l < |zl| && IsNbr(v, m, n, zl[l], q);
          assert run[l + 1] == zl[l];
        } else {
          assert IsNbr(v, m, n, run[0], q);
        }
      }
      if exists l :: 0 <= l < |run| && IsNbr(v, m, n, run[l], q) {
        var l :| 0 <= l < |run| && IsNbr(v, m, n, run[l], q);
        if l > 0 {
          assert run[l] == zl[l - 1];
        }
        assert Near(v, m, n, s, zl, q);
      }
    }
  }

  /** One completed `zero_method` run from the zero `s`, seen from the click
      `c` next to or at `s`. */
  lemma RunZone(v: Variant, ref: array2<int>, c: Pos, s: Pos, zl: seq<Pos>, bl: seq<Pos>)
    requires Kept(v, ref.Length0, ref.Length1, s) && Zero(ref, s)
    requires s == c || IsNbr(v, ref.Length0, ref.Length1, c, s)
    requires Inv(v, ref, zl, bl)
    requires Done(v, ref, s, zl, bl) && AllDone(v, ref, 0, zl, bl)
    requires Chain(v, ref.Length0, ref.Length1, s, 0, zl)
    requires forall q :: q in zl || q in bl <==> Near(v, ref.Length0, ref.Length1, s, zl, q)
    ensures Zone(v, ref, [s] + zl)
    ensures Rooted(v, ref.Length0, ref.Length1, c, [s] + zl)
    ensures Borders(v, ref.Length0, ref.Length1, [s] + zl, zl + bl)
    ensures forall r :: IsNbr(v, ref.Length0, ref.Length1, s, r) && Zero(ref, r) ==> r in zl
  {
    RunIsZone(v, ref, s, zl, bl);
    RunRooted(v, ref.Length0, ref.Length1, c, s, zl);
    RunBorders(v, ref.Length0, ref.Length1, s, zl, bl);
  }

  /** Two zones together are a zone. */
  lemma AddZone(v: Variant, ref: array2<int>, reach: seq<Pos>, run: seq<Pos>)
    requires Zone(v, ref, reach) && Zone(v, ref, run)
    ensures Zone(v, ref, reach + run)
  {
    var m, n := ref.Length0, ref.Length1;
    var all := reach + run;
    forall k | 0 <= k < |all| ensures Kept(v, m, n, all[k]) && Zero(ref, all[k]) {
      if k >= |reach| {
        assert all[k] == run[k - |reach|];
      }
    }
    forall k, r | 0 <= k < |all| && IsNbr(v, m, n, all[k], r) && Zero(ref, r) ensures r in all {
      if k < |reach| {
        assert r in reach;
      } else {
        assert all[k] == run[k - |reach|];
        assert r in run;
      }
    }
  }

  /** Two lists rooted at `c` together are rooted at `c`. */
  lemma AddRooted(v: Variant, m: int, n: int, c: Pos, reach: seq<Pos>, run: seq<Pos>)
    requires Rooted(v, m, n, c, reach) && Rooted(v, m, n, c, run)
    ensures Rooted(v, m, n, c, reach + run)
  {
    var all := reach + run;
    forall k | 0 <= k < |all| ensures all[k] == c || Linked(v, m, n, c, all, k) {
      if k < |reach| {
        assert all[k] == reach[k];
        if reach[k] != c && !IsNbr(v, m, n, c, reach[k]) {
          assert Linked(v, m, n, c, reach, k);
          var l :| 0 <= l < k && IsNbr(v, m, n, reach[l], reach[k]);
          assert all[l] == reach[l];
        }
      } else {
        var k' := k - |reach|;
        assert all[k] == run[k'];
        if run[k'] != c && !IsNbr(v, m, n, c, run[k']) {
          assert Linked(v, m, n, c, run, k');
          var l :| 0 <= l < k' && IsNbr(v, m, n, run[l], run[k']);
          assert all[l + |reach|] == run[l];
        }
      }
    }
  }

  /** The borders of two lists together are the two border lists together. */
  lemma AddBorders(v: Variant, m: int, n: int, reach: seq<Pos>, names: seq<Pos>, run: seq<Pos>, more: seq<Pos>)
    requires Borders(v, m, n, reach, names) && Borders(v, m, n, run, more)
    ensures Borders(v, m, n, reach + run, names + more)
  {
    var all := reach + run;
    forall q ensures q in names + more <==> exists l :: 0 <= l < |all| && IsNbr(v, m, n, all[l], q) {
      if q in names {
        var l :| 0 <= l < |reach| && IsNbr(v, m, n, reach[l], q);
        assert all[l] == reach[l];
      }
      if q in more {
        var l :| 0 <= l < |run| && IsNbr(v, m, n, run[l], q);
        assert all[l + |reach|] == run[l];
      }
      if exists l :: 0 <= l < |all| && IsNbr(v, m, n, all[l], q) {
        var l :| 0 <= l < |all| && IsNbr(v, m, n, all[l], q);
        if l < |reach| {
          assert all[l] == reach[l];
          assert q in names;
        } else {
          assert all[l] == run[l - |reach|];
          assert q in more;
        }
      }
    }
  }

  /** Appending a further run keeps the three facts about the cascade. */
  lemma AddRun(v: Variant, ref: array2<int>, c: Pos, reach: seq<Pos>, names: seq<Pos>, run: seq<Pos>, more: seq<Pos>)
    requires Zone(v, ref, reach) && Zone(v, ref, run)
    requires Rooted(v, ref.Length0, ref.Length1, c, reach) && Rooted(v, ref.Length0, ref.Length1, c, run)
    requires Borders(v, ref.Length0, ref.Length1, reach, names) && Borders(v, ref.Length0, ref.Length1, run, more)
    ensures Zone(v, ref, reach + run)
    ensures Rooted(v, ref.Length0, ref.Length1, c, reach + run)
    ensures Borders(v, ref.Length0, ref.Length1, reach + run, names + more)
    ensures forall q :: q in reach ==> q in reach + run
  {
    AddZone(v, ref, reach, run);
    AddRooted(v, ref.Length0, ref.Length1, c, reach, run);
    AddBorders(v, ref.Length0, ref.Length1, reach, names, run, more);
  }

  /** One call `zero_method(pos[0], pos[1], ...)` from the zero `pos` at or
      next to the click `c`: `run` lists `pos` and the zeros found, `more`
      every position the call reveals. */
  method ZeroRun(v: Variant, ref: array2<int>, player: array2<Cell>, c: Pos, pos: Pos)
    returns (ghost run: seq<Pos>, ghost more: seq<Pos>)
    requires player.Length0 == ref.Length0 && player.Length1 == ref.Length1
    requires Kept(v, ref.Length0, ref.Length1, pos) && Zero(ref, pos)
    requires pos == c || IsNbr(v, ref.Length0, ref.Length1, c, pos)
    modifies player
    ensures Zone(v, ref, run) && Rooted(v, ref.Length0, ref.Length1, c, run)
    ensures Borders(v, ref.Length0, ref.Length1, run, more)
    ensures pos in run
    ensures forall a, b :: 0 <= a < ref.Length0 && 0 <= b < ref.Length1 ==>
      player[a, b] == if Covers(more, ref.Length0, ref.Length1, (a, b)) then Shown(ref[a, b]) else old(player[a, b])
  {
    var zl, bl := ZeroMethod(v, ref, player, pos.0, pos.1);
    RunZone(v, ref, c, pos, zl, bl);
    run, more := [pos] + zl, zl + bl;
    assert run[0] == pos;
  }

  /** The reveal after a click on (i, j) that is not a mine: show the cell,
      then run `zero_method` from it when it is 0, or else from each zero
      neighbour in turn. `reach` lists the zeros the runs started from or
      found, `names` every position some run revealed. */
  method Reveal(v: Variant, ref: array2<int>, player: array2<Cell>, i: int, j: int)
    returns (ghost reach: seq<Pos>, ghost names: seq<Pos>)
    requires player.Length0 == ref.Length0 && player.Length1 == ref.Length1
    requires Kept(v, ref.Length0, ref.Length1, (i, j))
    modifies player
    ensures forall a, b :: 0 <= a < ref.Length0 && 0 <= b < ref.Length1 ==>
      player[a, b] == if Names(ref.Length0, ref.Length1, (i, j), (a, b)) || Covers(names, ref.Length0, ref.Length1, (a, b))
                      then Shown(ref[a, b]) else old(player[a, b])
    ensures Zone(v, ref, reach)
    ensures Rooted(v, ref.Length0, ref.Length1, (i, j), reach)
    ensures Borders(v, ref.Length0, ref.Length1, reach, names)
    ensures forall r :: IsNbr(v, ref.Length0, ref.Length1, (i, j), r) && Zero(ref, r) ==> r in reach
    ensures Zero(ref, (i, j)) ==> (i, j) in reach
  {
    var m, n := ref.Length0, ref.Length1;
    var wi, wj := Wrap(i, m), Wrap(j, n);
    player[wi, wj] := Shown(ref[wi, wj]);
    if ref[wi, wj] == 0 {
      reach, names := ZeroRun(v, ref, player, (i, j), (i, j));
    } else {
      var nbs := Neighbours(v, m, n, i, j);
      reach, names := [], [];
      for t := 0 to |nbs|
        invariant forall a, b :: 0 <= a < m && 0 <= b < n ==>
          player[a, b] == if (a, b) == (wi, wj) || Covers(names, m, n, (a, b)) then Shown(ref[a, b]) else old(player[a, b])
        invariant Zone(v, ref, reach) && Rooted(v, m, n, (i, j), reach) && Borders(v, m, n, reach, names)
        invariant forall r :: r in nbs[..t] && Zero(ref, r) ==> r in reach
      {
        var pos := nbs[t];
        assert nbs[..t + 1] == nbs[..t] + [pos];
        if Zero(ref, pos) {
          assert pos in nbs;
          ghost var run, more := ZeroRun(v, ref, player, (i, j), pos);
          AddRun(v, ref, (i, j), reach, names, run, more);
          forall a, b | 0 <= a < m && 0 <= b < n
            ensures Covers(names + more, m, n, (a, b)) <==> Covers(names, m, n, (a, b)) || Covers(more, m, n, (a, b))
          {
            CoversConcat(names, more, m, n, (a, b));
          }
          reach, names := reach + run, names + more;
        }
      }
      assert nbs[..|nbs|] == nbs;
    }
  }
}

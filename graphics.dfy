/** The pygame minesweeper: the state `Game` keeps between frames and the
    board logic of its `update` step. Window, sprites, event handling and
    drawing are not modelled. */
module Graphics {
  import opened Grid
  import opened Board
  import opened Cascade

  /** `self.type`: "" (nothing pending), "f" (right click) or "click". */
  datatype Move = NoMove | FlagMove | Click

  /** The flag toggle: "F" becomes "-", every other entry becomes "F". */
  function Toggle(c: Cell): (r: Cell)
    ensures r == Hidden <==> c == Flag
    ensures r == Flag <==> c != Flag
  {
    if c == Flag then Hidden else Flag
  }

  /** Two flag moves on a hidden or flagged cell put it back as it was; on a
      revealed number they leave it hidden. */
  lemma FlagTwice(c: Cell)
    ensures c == Hidden || c == Flag ==> Toggle(Toggle(c)) == c
    ensures c.Shown? || c == Exploded ==> Toggle(Toggle(c)) == Hidden
  {
  }

  /** The win check: the row lists and the column lists of
      `np.where(ref_grid == -1)` and `np.where(player_grid == "F")` agree. */
  predicate Won(ref: array2<int>, player: array2<Cell>)
    reads ref, player
  {
    RowsOf(Where(ref, -1)) == RowsOf(Where(player, Flag))
    && ColsOf(Where(ref, -1)) == ColsOf(Where(player, Flag))
  }

  /** Comparing the two coordinate lists is comparing the sets: the game is
      won exactly when the flags sit on the mines and nowhere else. */
  lemma WonIff(ref: array2<int>, player: array2<Cell>)
    requires player.Length0 == ref.Length0 && player.Length1 == ref.Length1
    ensures Won(ref, player) <==>
      forall i, j :: 0 <= i < ref.Length0 && 0 <= j < ref.Length1 ==> (ref[i, j] == -1 <==> player[i, j] == Flag)
  {
    var a, b := Where(ref, -1), Where(player, Flag);
    WhereSpec(ref, -1);
    WhereSpec(player, Flag);
    Unzip(a, b);
    if forall i, j :: 0 <= i < ref.Length0 && 0 <= j < ref.Length1 ==> (ref[i, j] == -1 <==> player[i, j] == Flag) {
      IncreasingUnique(a, b);
    }
    if a == b {
      forall i, j | 0 <= i < ref.Length0 && 0 <= j < ref.Length1 ensures ref[i, j] == -1 <==> player[i, j] == Flag {
        assert (i, j) in a <==> ref[i, j] == -1;
        assert (i, j) in b <==> player[i, j] == Flag;
      }
    }
  }

  /** In the graphics program a cascade never reveals a mine on a board from
      `create_reference`: every revealed cell is an in-grid neighbour of an
      in-grid zero. */
  lemma NoMineRevealed(ref: array2<int>, reach: seq<Pos>, names: seq<Pos>)
    requires Consistent(ref)
    requires Zone(Pygame, ref, reach) && Borders(Pygame, ref.Length0, ref.Length1, reach, names)
    ensures forall a, b :: 0 <= a < ref.Length0 && 0 <= b < ref.Length1 && Covers(names, ref.Length0, ref.Length1, (a, b)) ==>
      ref[a, b] != -1
  {
    var m, n := ref.Length0, ref.Length1;
    forall a, b | 0 <= a < m && 0 <= b < n && Covers(names, m, n, (a, b)) ensures ref[a, b] != -1 {
      var k :| 0 <= k < |names| && Names(m, n, names[k], (a, b));
      var q := names[k];
      assert q in names;
      var l :| 0 <= l < |reach| && IsNbr(Pygame, m, n, reach[l], q);
      var z := reach[l];
      assert Kept(Pygame, m, n, z) && Zero(ref, z);
      assert q == (a, b);
      ZeroCellSafe(ref, z.0, z.1, q);
    }
  }

  /** The flag branch of `update`. */
  method FlagCell(player: array2<Cell>, i: int, j: int)
    requires 0 <= i < player.Length0 && 0 <= j < player.Length1
    modifies player
    ensures forall a, b :: 0 <= a < player.Length0 && 0 <= b < player.Length1 ==>
      player[a, b] == if (a, b) == (i, j) then Toggle(old(player[a, b])) else old(player[a, b])
  {
    if player[i, j] == Flag {
      player[i, j] := Hidden;
    } else {
      player[i, j] := Flag;
    }
  }

  /** The click branch of `update`: a mine explodes (`hit`), anything else
      is revealed with the cascade, which on a board from `create_reference`
      never shows a mine. */
  method ClickCell(ref: array2<int>, player: array2<Cell>, i: int, j: int)
    returns (hit: bool, ghost reach: seq<Pos>, ghost names: seq<Pos>)
    requires player.Length0 == ref.Length0 && player.Length1 == ref.Length1
    requires InGrid((i, j), ref.Length0, ref.Length1) && Consistent(ref)
    modifies player
    ensures hit <==> ref[i, j] == -1
    ensures hit ==> forall a, b :: 0 <= a < ref.Length0 && 0 <= b < ref.Length1 ==>
      player[a, b] == if (a, b) == (i, j) then Exploded else old(player[a, b])
    ensures !hit ==> Zone(Pygame, ref, reach) && Rooted(Pygame, ref.Length0, ref.Length1, (i, j), reach)
    ensures !hit ==> Borders(Pygame, ref.Length0, ref.Length1, reach, names)
    ensures !hit ==> forall r :: IsNbr(Pygame, ref.Length0, ref.Length1, (i, j), r) && Zero(ref, r) ==> r in reach
    ensures !hit && ref[i, j] == 0 ==> (i, j) in reach
    ensures !hit ==> forall a, b :: 0 <= a < ref.Length0 && 0 <= b < ref.Length1 ==>
      player[a, b] == if (a, b) == (i, j) || Covers(names, ref.Length0, ref.Length1, (a, b)) then Shown(ref[a, b]) else old(player[a, b])
    ensures !hit ==> forall a, b :: 0 <= a < ref.Length0 && 0 <= b < ref.Length1 && player[a, b] != old(player[a, b]) ==>
      ref[a, b] != -1
  {
    reach, names := [], [];
    hit := ref[i, j] == -1;
    if hit {
      player[i, j] := Exploded;
    } else {
      reach, names := Reveal(Pygame, ref, player, i, j);
      NoMineRevealed(ref, reach, names);
    }
  }

  class Game {
    const m: nat
    const n: nat
    /** `ref_grid`: mines as -1, every other cell its mine count. */
    const refGrid: array2<int>
    /** `player_grid`: what the player sees. */
    const playerGrid: array2<Cell>
    var running: bool
    /** The cell of the pending move, row `x` and column `y`. */
    var x: int
    var y: int
    var kind: Move

    ghost predicate Valid()
      reads this, refGrid, playerGrid
    {
      refGrid.Length0 == m && refGrid.Length1 == n
      && playerGrid.Length0 == m && playerGrid.Length1 == n
      && Consistent(refGrid)
    }

    /** `Game(m, n, mines)` with the board logic only; `arr` is the
        shuffled flat array `create_reference` draws. */
    constructor (m: nat, n: nat, mines: nat, arr: seq<int>)
      requires mines <= m * n
      requires multiset(arr) == multiset(Initial(m, n, mines))
      ensures Valid() && fresh(refGrid) && fresh(playerGrid)
      ensures this.m == m && this.n == n
      ensures running && x == 0 && y == 0 && kind == NoMove
      ensures |Where(refGrid, -1)| == mines
      ensures forall i, j :: 0 <= i < m && 0 <= j < n ==> -1 <= refGrid[i, j] <= 8
      ensures forall i, j :: 0 <= i < m && 0 <= j < n ==> playerGrid[i, j] == Hidden
    {
      this.m, this.n := m, n;
      var g := CreateReference(m, n, mines, arr);
      refGrid := g;
      playerGrid := new Cell[m, n]((i, j) => Hidden);
      running := true;
      x, y := 0, 0;
      kind := NoMove;
    }

    /** `update`: apply the pending move, then run the win check and clear
        the move. A click on a cell that is not a mine returns the zeros
        the cascade went through (`reach`) and every position it revealed
        (`names`). */
    method Update() returns (ghost reach: seq<Pos>, ghost names: seq<Pos>)
      requires Valid()
      requires kind != NoMove ==> InGrid((x, y), m, n)
      modifies this, playerGrid
      ensures Valid() && kind == NoMove && x == old(x) && y == old(y)
      ensures old(kind) == NoMove ==> unchanged(playerGrid)
      ensures old(kind) == FlagMove ==>
        forall i, j :: 0 <= i < m && 0 <= j < n ==>
          playerGrid[i, j] == if (i, j) == (x, y) then Toggle(old(playerGrid[i, j])) else old(playerGrid[i, j])
      ensures old(kind) == Click && refGrid[x, y] == -1 ==>
        forall i, j :: 0 <= i < m && 0 <= j < n ==>
          playerGrid[i, j] == if (i, j) == (x, y) then Exploded else old(playerGrid[i, j])
      ensures old(kind) == Click && refGrid[x, y] != -1 ==>
        Zone(Pygame, refGrid, reach) && Rooted(Pygame, m, n, (x, y), reach)
        && Borders(Pygame, m, n, reach, names)
        && (forall r :: IsNbr(Pygame, m, n, (x, y), r) && Zero(refGrid, r) ==> r in reach)
        && (refGrid[x, y] == 0 ==> (x, y) in reach)
        && (forall i, j :: 0 <= i < m && 0 <= j < n ==>
          playerGrid[i, j] == if (i, j) == (x, y) || Covers(names, m, n, (i, j)) then Shown(refGrid[i, j]) else old(playerGrid[i, j]))
      ensures old(kind) == Click && refGrid[x, y] != -1 ==>
        forall i, j :: 0 <= i < m && 0 <= j < n && playerGrid[i, j] != old(playerGrid[i, j]) ==> refGrid[i, j] != -1
      ensures running == (old(running) && !(old(kind) == Click && refGrid[x, y] == -1) && !Won(refGrid, playerGrid))
    {
      reach, names := [], [];
      if kind == FlagMove {
        FlagCell(playerGrid, x, y);
      } else if kind == Click {
        var hit;
        hit, reach, names := ClickCell(refGrid, playerGrid, x, y);
        if hit {
          running := false;
        }
      }
      var won := Won(refGrid, playerGrid);
      if won {
        running := false;
      }
      kind := NoMove;
    }
  }
}

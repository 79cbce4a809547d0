/** The terminal minesweeper: one `player_move` and the `game` loop that
    repeats it until the game is lost or the counters say it is won. Input
    parsing and printing are not modelled: moves arrive already parsed. */
module Console {
  import opened Grid
  import opened Board
  import opened Cascade

  /** One parsed move: `Row`, `Col` and whether the answer to "Flag (f)?"
      was "f". */
  datatype Input = Input(row: int, col: int, flag: bool)

  /** numpy accepts the move's indices. */
  predicate Accepted(m: int, n: int, mv: Input) {
    IndexOk(mv.row, m) && IndexOk(mv.col, n)
  }

  /** Flag moves among `moves`; a cell flagged twice counts twice. */
  function FlagCount(moves: seq<Input>): (c: nat)
    ensures c <= |moves|
  {
    if moves == [] then 0
    else FlagCount(moves[..|moves| - 1]) + (if moves[|moves| - 1].flag then 1 else 0)
  }

  /** Flag moves among `moves` whose cell holds a mine. */
  ghost function MineFlagCount(ref: array2<int>, moves: seq<Input>): (c: nat)
    requires forall k :: 0 <= k < |moves| ==> Accepted(ref.Length0, ref.Length1, moves[k])
    reads ref
  {
    if moves == [] then 0
    else
      var mv := moves[|moves| - 1];
      assert Accepted(ref.Length0, ref.Length1, moves[|moves| - 1]);
      MineFlagCount(ref, moves[..|moves| - 1])
      + (if mv.flag && ref[Wrap(mv.row, ref.Length0), Wrap(mv.col, ref.Length1)] == -1 then 1 else 0)
  }

  /** Every correct flag is a flag: `mines_flagged <= flags` throughout. */
  lemma {:induction false} MineFlagsBounded(ref: array2<int>, moves: seq<Input>)
    requires forall k :: 0 <= k < |moves| ==> Accepted(ref.Length0, ref.Length1, moves[k])
    ensures MineFlagCount(ref, moves) <= FlagCount(moves)
  {
    if moves != [] {
      MineFlagsBounded(ref, moves[..|moves| - 1]);
    }
  }

  /** The counters do not look at positions: after any moves, flagging
      the same mine twice adds two flags and two correct flags. */
  lemma ReflagCountsTwice(ref: array2<int>, moves: seq<Input>, r: int, c: int)
    requires forall k :: 0 <= k < |moves| ==> Accepted(ref.Length0, ref.Length1, moves[k])
    requires IndexOk(r, ref.Length0) && IndexOk(c, ref.Length1)
    requires ref[Wrap(r, ref.Length0), Wrap(c, ref.Length1)] == -1
    ensures var f := Input(r, c, true);
      FlagCount(moves + [f, f]) == FlagCount(moves) + 2
      && MineFlagCount(ref, moves + [f, f]) == MineFlagCount(ref, moves) + 2
  {
    var f := Input(r, c, true);
    var more := moves + [f, f];
    assert more[..|more| - 1] == moves + [f];
    assert (moves + [f])[..|moves|] == moves;
  }

  /** The move `mv` clicks a mine and loses the game. */
  predicate Lost(ref: array2<int>, mv: Input)
    requires Accepted(ref.Length0, ref.Length1, mv)
    reads ref
  {
    !mv.flag && ref[Wrap(mv.row, ref.Length0), Wrap(mv.col, ref.Length1)] == -1
  }

  /** `mines == flags and mines == mines_flagged` after the moves `moves`. */
  ghost predicate WinTest(ref: array2<int>, mines: int, moves: seq<Input>)
    requires forall k :: 0 <= k < |moves| ==> Accepted(ref.Length0, ref.Length1, moves[k])
    reads ref
  {
    mines == FlagCount(moves) && mines == MineFlagCount(ref, moves)
  }

  /** Play went on after each of the first `p - 1` moves: none of them lost
      and none met the win test. */
  ghost predicate Going(ref: array2<int>, mines: int, moves: seq<Input>, p: nat)
    requires forall k :: 0 <= k < |moves| ==> Accepted(ref.Length0, ref.Length1, moves[k])
    requires p <= |moves|
    reads ref
  {
    forall k :: 0 <= k < p - 1 ==> !Lost(ref, moves[k]) && !WinTest(ref, mines, moves[..k + 1])
  }

  /** Move `p` adds to the counters what `player_move` adds. */
  lemma CountStep(ref: array2<int>, moves: seq<Input>, p: nat)
    requires forall k :: 0 <= k < |moves| ==> Accepted(ref.Length0, ref.Length1, moves[k])
    requires p < |moves|
    ensures FlagCount(moves[..p + 1]) == FlagCount(moves[..p]) + (if moves[p].flag then 1 else 0)
    ensures MineFlagCount(ref, moves[..p + 1]) == MineFlagCount(ref, moves[..p])
      + (if moves[p].flag && ref[Wrap(moves[p].row, ref.Length0), Wrap(moves[p].col, ref.Length1)] == -1 then 1 else 0)
  {
    assert moves[..p + 1][..p] == moves[..p];
  }

  /** Play going on after move `p - 1` extends `Going` by one move. */
  lemma GoingStep(ref: array2<int>, mines: int, moves: seq<Input>, p: nat)
    requires forall k :: 0 <= k < |moves| ==> Accepted(ref.Length0, ref.Length1, moves[k])
    requires p < |moves| && Going(ref, mines, moves, p)
    requires p > 0 ==> !Lost(ref, moves[p - 1]) && !WinTest(ref, mines, moves[..p])
    ensures Going(ref, mines, moves, p + 1)
  {
    forall k | 0 <= k < p ensures !Lost(ref, moves[k]) && !WinTest(ref, mines, moves[..k + 1]) {
      if k == p - 1 {
        assert moves[..k + 1] == moves[..p];
      }
    }
  }

  /** `player_move` on an already-parsed move (i, j, flag). */
  method PlayerMove(ref: array2<int>, player: array2<Cell>, i: int, j: int, flag: bool,
                    flags: int, minesFlagged: int, gamestate: bool)
    returns (flags': int, minesFlagged': int, gamestate': bool, ghost reach: seq<Pos>, ghost names: seq<Pos>)
    requires player.Length0 == ref.Length0 && player.Length1 == ref.Length1
    requires IndexOk(i, ref.Length0) && IndexOk(j, ref.Length1)
    modifies player
    ensures var c := (Wrap(i, ref.Length0), Wrap(j, ref.Length1));
      flag ==>
        (flags' == flags + 1 && gamestate' == gamestate
         && minesFlagged' == minesFlagged + (if ref[c.0, c.1] == -1 then 1 else 0)
         && forall a, b :: 0 <= a < ref.Length0 && 0 <= b < ref.Length1 ==>
              player[a, b] == if (a, b) == c then Flag else old(player[a, b]))
    ensures var c := (Wrap(i, ref.Length0), Wrap(j, ref.Length1));
      !flag && ref[c.0, c.1] == -1 ==>
        (flags' == flags && minesFlagged' == minesFlagged && !gamestate'
         && forall a, b :: 0 <= a < ref.Length0 && 0 <= b < ref.Length1 ==>
              player[a, b] == if (a, b) == c then Exploded else old(player[a, b]))
    ensures var c := (Wrap(i, ref.Length0), Wrap(j, ref.Length1));
      !flag && ref[c.0, c.1] != -1 ==>
        (flags' == flags && minesFlagged' == minesFlagged && gamestate' == gamestate
         && Zone(Terminal, ref, reach) && Rooted(Terminal, ref.Length0, ref.Length1, (i, j), reach)
         && Borders(Terminal, ref.Length0, ref.Length1, reach, names)
         && (forall r :: IsNbr(Terminal, ref.Length0, ref.Length1, (i, j), r) && Zero(ref, r) ==> r in reach)
         && (ref[c.0, c.1] == 0 ==> (i, j) in reach)
         && forall a, b :: 0 <= a < ref.Length0 && 0 <= b < ref.Length1 ==>
              player[a, b] == if (a, b) == c || Covers(names, ref.Length0, ref.Length1, (a, b))
                              then Shown(ref[a, b]) else old(player[a, b]))
  {
    flags', minesFlagged', gamestate' := flags, minesFlagged, gamestate;
    reach, names := [], [];
    var m, n := ref.Length0, ref.Length1;
    var a, b := Wrap(i, m), Wrap(j, n);
    if flag {
      player[a, b] := Flag;
      flags' := flags' + 1;
      if ref[a, b] == -1 {
        minesFlagged' := minesFlagged' + 1;
      }
    } else if ref[a, b] == -1 {
      player[a, b] := Exploded;
      gamestate' := false;
    } else {
      reach, names := Reveal(Terminal, ref, player, i, j);
    }
  }

  /** `game(m, n, mines)` fed the moves `moves`, with `arr` the shuffled
      flat array. It stops after the first move that explodes a mine or
      after which `mines == flags == mines_flagged`, or when the moves run
      out; `played` moves were made and `won` says whether the last of them
      announced a win. */
  method Game(m: nat, n: nat, mines: nat, arr: seq<int>, moves: seq<Input>)
    returns (ref: array2<int>, player: array2<Cell>, flags: int, minesFlagged: int,
             gamestate: bool, played: nat, won: bool)
    requires mines <= m * n
    requires multiset(arr) == multiset(Initial(m, n, mines))
    requires forall k :: 0 <= k < |moves| ==> Accepted(m, n, moves[k])
    ensures fresh(ref) && fresh(player)
    ensures ref.Length0 == m && ref.Length1 == n && player.Length0 == m && player.Length1 == n
    ensures Consistent(ref) && |Where(ref, -1)| == mines
    ensures played <= |moves|
    ensures flags == FlagCount(moves[..played])
    ensures minesFlagged == MineFlagCount(ref, moves[..played]) && minesFlagged <= flags
    ensures won <==> played > 0 && mines == flags && mines == minesFlagged
    ensures Going(ref, mines, moves, played)
    ensures !gamestate <==> played > 0 && (won || Lost(ref, moves[played - 1]))
    ensures gamestate ==> played == |moves|
  {
    ref := CreateReference(m, n, mines, arr);
    player := new Cell[m, n]((i, j) => Hidden);
    gamestate, flags, minesFlagged := true, 0, 0;
    played, won := 0, false;
    while gamestate && played < |moves|
      modifies player
      invariant played <= |moves|
      invariant forall k :: 0 <= k < played ==> Accepted(m, n, moves[k])
      invariant flags == FlagCount(moves[..played])
      invariant minesFlagged == MineFlagCount(ref, moves[..played])
      invariant won <==> played > 0 && mines == flags && mines == minesFlagged
      invariant Going(ref, mines, moves, played)
      invariant !gamestate <==> played > 0 && (won || Lost(ref, moves[played - 1]))
      decreases |moves| - played
    {
      var mv := moves[played];
      CountStep(ref, moves, played);
      GoingStep(ref, mines, moves, played);
      ghost var reach, names;
      flags, minesFlagged, gamestate, reach, names :=
        PlayerMove(ref, player, mv.row, mv.col, mv.flag, flags, minesFlagged, gamestate);
      played := played + 1;
      won := mines == flags && mines == minesFlagged;
      if won {
        gamestate := false;
      }
    }
    MineFlagsBounded(ref, moves[..played]);
  }
}

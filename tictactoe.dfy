/** Noughts and crosses: the win test `check` over the eight lines of a
    nine-cell board, the single-cell move of `game`, and the game loop on
    moves that arrive already parsed. Player 1 plays 1, player 2 plays -1
    and an empty cell is 0. */
module TicTacToe {
  import opened Grid

  /** `solves`: the three rows, the three columns and the two diagonals. */
  const Solves: seq<(nat, nat, nat)> :=
    [(0, 1, 2), (3, 4, 5), (6, 7, 8),
     (0, 3, 6), (1, 4, 7), (2, 5, 8),
     (0, 4, 8), (2, 4, 6)]

  /** Line `l` of `solves`; its cells are on the board. */
  function Line(l: nat): (t: (nat, nat, nat))
    requires l < 8
    ensures t.0 < 9 && t.1 < 9 && t.2 < 9
    ensures t.0 != t.1 && t.1 != t.2 && t.0 != t.2
  {
    Solves[l]
  }

  /** `scores[l]`: the sum of the three cells of line `l`. */
  function Score(state: seq<int>, l: nat): int
    requires |state| >= 9 && l < 8
  {
    var t := Line(l);
    state[t.0] + state[t.1] + state[t.2]
  }

  /** `scores` as the list comprehension builds it. */
  function Scores(state: seq<int>): seq<int>
    requires |state| >= 9
  {
    seq(8, l requires 0 <= l < 8 => Score(state, l))
  }

  /** `check(state)`: false once some line scores 3 ("p1 wins") or -3
      ("p2 wins"), true while play goes on. */
  function Check(state: seq<int>): (r: bool)
    requires |state| >= 9
    ensures !r <==> exists l :: 0 <= l < 8 && (Score(state, l) == 3 || Score(state, l) == -3)
  {
    var scores := Scores(state);
    assert forall l :: 0 <= l < 8 ==> scores[l] == Score(state, l);
    if 3 in scores then false
    else if -3 in scores then false
    else true
  }

  /** A board the game can reach: nine cells, each 1, -1 or 0. */
  predicate Legal(state: seq<int>) {
    |state| == 9 && forall k :: 0 <= k < 9 ==> -1 <= state[k] <= 1
  }

  /** All three cells of line `l` hold `v`. */
  predicate Complete(state: seq<int>, l: nat, v: int)
    requires |state| >= 9 && l < 8
  {
    var t := Line(l);
    state[t.0] == v && state[t.1] == v && state[t.2] == v
  }

  /** Player `v` holds a whole line. */
  predicate Wins(state: seq<int>, v: int)
    requires |state| >= 9
  {
    exists l :: 0 <= l < 8 && Complete(state, l, v)
  }

  /** On a legal board a line scores 3 exactly when player 1 holds all of
      it, and -3 exactly when player 2 does. */
  lemma ScoreIff(state: seq<int>, l: nat)
    requires Legal(state) && l < 8
    ensures Score(state, l) == 3 <==> Complete(state, l, 1)
    ensures Score(state, l) == -3 <==> Complete(state, l, -1)
  {
    var t := Line(l);
    assert -1 <= state[t.0] <= 1 && -1 <= state[t.1] <= 1 && -1 <= state[t.2] <= 1;
  }

  /** On a legal board `check` stops the game exactly when one player holds
      a whole line. */
  lemma CheckIff(state: seq<int>)
    requires Legal(state)
    ensures !Check(state) <==> Wins(state, 1) || Wins(state, -1)
  {
    forall l | 0 <= l < 8 {
      ScoreIff(state, l);
    }
  }

  /** The starting board `[0] * 9` lets play begin. */
  lemma EmptyContinues()
    ensures Check(seq(9, _ => 0))
  {
    var s := seq(9, _ => 0);
    forall l | 0 <= l < 8 ensures Score(s, l) == 0 {
      var t := Line(l);
      assert s[t.0] == 0 && s[t.1] == 0 && s[t.2] == 0;
    }
  }

  /** `gamestate[pos] = v`: Python indexing, so -9 <= pos < 9 is accepted
      and a negative `pos` counts from the end. Only that cell changes, and
      whatever it held is overwritten. */
  function Play(state: seq<int>, pos: int, v: int): (r: seq<int>)
    requires IndexOk(pos, |state|)
    ensures |r| == |state| && r[Wrap(pos, |state|)] == v
    ensures forall k :: 0 <= k < |state| && k != Wrap(pos, |state|) ==> r[k] == state[k]
  {
    state[Wrap(pos, |state|) := v]
  }

  /** There is no occupancy check: a second move on a cell replaces the
      first. */
  lemma PlayOverwrites(state: seq<int>, pos: int, v: int, w: int)
    requires IndexOk(pos, |state|)
    ensures Play(Play(state, pos, v), pos, w) == Play(state, pos, w)
  {
    var a, b := Play(Play(state, pos, v), pos, w), Play(state, pos, w);
    assert forall k :: 0 <= k < |a| ==> a[k] == b[k];
  }

  /** A mover never completes a line for the other player: if play was
      going on before the move, every full line afterwards is the mover's. */
  lemma MoverWins(state: seq<int>, pos: int, v: int)
    requires Legal(state) && Check(state) && (v == 1 || v == -1) && IndexOk(pos, 9)
    ensures !Wins(Play(state, pos, v), -v)
  {
    var s' := Play(state, pos, v);
    if Wins(s', -v) {
      var l :| 0 <= l < 8 && Complete(s', l, -v);
      var t := Line(l);
      var p := Wrap(pos, 9);
      assert t.0 != p && t.1 != p && t.2 != p;
      assert Complete(state, l, -v);
      ScoreIff(state, l);
      assert false;
    }
  }

  /** The mark of move number `k`: player 1 moves first. */
  function Mark(k: nat): int {
    if k % 2 == 0 then 1 else -1
  }

  /** The board after the moves `moves`, players alternating. */
  function Replay(moves: seq<int>): (s: seq<int>)
    requires forall k :: 0 <= k < |moves| ==> IndexOk(moves[k], 9)
    ensures |s| == 9
  {
    if moves == [] then seq(9, _ => 0)
    else Play(Replay(moves[..|moves| - 1]), moves[|moves| - 1], Mark(|moves| - 1))
  }

  /** Every replayed board is legal. */
  lemma {:induction false} ReplayLegal(moves: seq<int>)
    requires forall k :: 0 <= k < |moves| ==> IndexOk(moves[k], 9)
    ensures Legal(Replay(moves))
  {
    if moves != [] {
      ReplayLegal(moves[..|moves| - 1]);
    }
  }

  /** One more move extends the replay by one `Play`. */
  lemma ReplayStep(moves: seq<int>, p: nat)
    requires forall k :: 0 <= k < |moves| ==> IndexOk(moves[k], 9)
    requires p < |moves|
    ensures Replay(moves[..p + 1]) == Play(Replay(moves[..p]), moves[p], Mark(p))
  {
    assert moves[..p + 1][..p] == moves[..p];
  }

  /** Play was still going on after each of the first `p - 1` moves. */
  predicate Ongoing(moves: seq<int>, p: nat)
    requires forall k :: 0 <= k < |moves| ==> IndexOk(moves[k], 9)
    requires p <= |moves|
  {
    forall k :: 0 < k < p ==> Check(Replay(moves[..k]))
  }

  lemma OngoingStep(moves: seq<int>, p: nat)
    requires forall k :: 0 <= k < |moves| ==> IndexOk(moves[k], 9)
    requires p < |moves| && Ongoing(moves, p) && Check(Replay(moves[..p]))
    ensures Ongoing(moves, p + 1)
  {
  }

  /** `game()` fed the parsed squares `moves`: players alternate, `check`
      runs after every move, and play stops at the first move after which
      it is false, or when the moves run out. */
  method Game(moves: seq<int>) returns (state: seq<int>, played: nat)
    requires forall k :: 0 <= k < |moves| ==> IndexOk(moves[k], 9)
    ensures played <= |moves| && state == Replay(moves[..played]) && Legal(state)
    ensures Ongoing(moves, played)
    ensures played < |moves| ==> !Check(state)
    ensures !Check(state) ==> 0 < played && Wins(state, Mark(played - 1)) && !Wins(state, -Mark(played - 1))
  {
    state, played := seq(9, _ => 0), 0;
    var go := true;
    EmptyContinues();
    assert moves[..0] == [];
    while go && played < |moves|
      invariant played <= |moves| && state == Replay(moves[..played]) && Legal(state)
      invariant Ongoing(moves, played)
      invariant go <==> Check(state)
      invariant !go ==> 0 < played && Wins(state, Mark(played - 1)) && !Wins(state, -Mark(played - 1))
      decreases |moves| - played
    {
      ghost var before := state;
      ReplayStep(moves, played);
      ReplayLegal(moves[..played + 1]);
      OngoingStep(moves, played);
      state := Play(state, moves[played], Mark(played));
      played := played + 1;
      go := Check(state);
      if !go {
        CheckIff(state);
        MoverWins(before, moves[played - 1], Mark(played - 1));
      }
    }
  }
}

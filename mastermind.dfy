/** Mastermind: scoring a guess against the answer with greens first and
    then greedy yellows, and the validity test on a typed guess. Random code
    generation and terminal input are not modelled. */
module Mastermind {

  datatype Option<T> = None | Some(value: T)

  /** "G", "Y" and "_". */
  datatype Mark = Green | Yellow | Blank

  function Min(a: int, b: int): int {
    if a <= b then a else b
  }

  /** How many of the first `k` entries of `a` equal `x`. */
  function Occ(a: seq<int>, x: int, k: nat): nat
    requires k <= |a|
  {
    if k == 0 then 0 else Occ(a, x, k - 1) + (if a[k - 1] == x then 1 else 0)
  }

  /** How many of the first `k` slots of `temp_answer` still hold `x`;
      `None` marks a used slot. */
  function Slots(s: seq<Option<int>>, x: int, k: nat): nat
    requires k <= |s|
  {
    if k == 0 then 0 else Slots(s, x, k - 1) + (if s[k - 1] == Some(x) then 1 else 0)
  }

  /** How many positions below `k` are marked `c` and guessed `x`. */
  function Marks(guess: seq<int>, result: seq<Mark>, c: Mark, x: int, k: nat): nat
    requires k <= |guess| && k <= |result|
  {
    if k == 0 then 0
    else Marks(guess, result, c, x, k - 1) + (if result[k - 1] == c && guess[k - 1] == x then 1 else 0)
  }

  /** How many positions below `k` guess `x` and, as `exact` says, agree
      or disagree with the answer there. */
  function Matches(guess: seq<int>, answer: seq<int>, x: int, k: nat, exact: bool): nat
    requires k <= |guess| && k <= |answer|
  {
    if k == 0 then 0
    else Matches(guess, answer, x, k - 1, exact)
         + (if guess[k - 1] == x && (guess[k - 1] == answer[k - 1]) == exact then 1 else 0)
  }

  /** `temp_answer.index(x)`: the first slot holding `x`. */
  function FirstIndex(s: seq<Option<int>>, x: int): (k: nat)
    requires Some(x) in s
    ensures k < |s| && s[k] == Some(x)
    ensures forall l :: 0 <= l < k ==> s[l] != Some(x)
  {
    if s[0] == Some(x) then 0 else FirstIndex(s[1..], x) + 1
  }

  /** `answer.copy()`, as slots that all still hold their value. */
  function Copy(answer: seq<int>): (t: seq<Option<int>>)
    ensures |t| == |answer| && forall k :: 0 <= k < |t| ==> t[k] == Some(answer[k])
  {
    seq(|answer|, k requires 0 <= k < |answer| => Some(answer[k]))
  }

  /** The copy holds each value as often as the answer does. */
  lemma {:induction false} SlotsCopy(answer: seq<int>, x: int, k: nat)
    requires k <= |answer|
    ensures Slots(Copy(answer), x, k) == Occ(answer, x, k)
  {
    if k > 0 {
      SlotsCopy(answer, x, k - 1);
    }
  }

  /** Slots that agree below `k` hold the same values there. */
  lemma {:induction false} SlotsSame(s: seq<Option<int>>, t: seq<Option<int>>, x: int, k: nat)
    requires k <= |s| && k <= |t|
    requires forall l :: 0 <= l < k ==> t[l] == s[l]
    ensures Slots(t, x, k) == Slots(s, x, k)
  {
    if k > 0 {
      SlotsSame(s, t, x, k - 1);
    }
  }

  /** Emptying slot `i < k`, which held `v`, removes one `v`. */
  lemma {:induction false} SlotsUsed(s: seq<Option<int>>, t: seq<Option<int>>, i: nat, v: int, x: int, k: nat)
    requires i < k <= |s| == |t| && s[i] == Some(v) && t[i] == None
    requires forall l :: 0 <= l < |s| && l != i ==> t[l] == s[l]
    ensures Slots(t, x, k) + (if x == v then 1 else 0) == Slots(s, x, k)
  {
    if k == i + 1 {
      SlotsSame(s, t, x, i);
    } else {
      SlotsUsed(s, t, i, v, x, k - 1);
    }
  }

  /** `x in temp_answer` is there being a slot that still holds `x`. */
  lemma {:induction false} SlotsHas(s: seq<Option<int>>, x: int, k: nat)
    requires k <= |s|
    ensures (exists l :: 0 <= l < k && s[l] == Some(x)) <==> Slots(s, x, k) > 0
  {
    if k > 0 {
      SlotsHas(s, x, k - 1);
    }
  }

  lemma AvailHas(s: seq<Option<int>>, x: int)
    ensures Some(x) in s <==> Slots(s, x, |s|) > 0
  {
    SlotsHas(s, x, |s|);
    if Some(x) in s {
      var l :| 0 <= l < |s| && s[l] == Some(x);
    }
  }

  /** Marks at positions at or after `k` do not affect the count below `k`. */
  lemma {:induction false} MarksFrame(guess: seq<int>, r: seq<Mark>, r': seq<Mark>, c: Mark, x: int, k: nat)
    requires k <= |guess| && k <= |r| && k <= |r'|
    requires forall l :: 0 <= l < k ==> r[l] == r'[l]
    ensures Marks(guess, r, c, x, k) == Marks(guess, r', c, x, k)
  {
    if k > 0 {
      MarksFrame(guess, r, r', c, x, k - 1);
    }
  }

  /** With only greens and blanks, the two kinds split the guess. */
  lemma {:induction false} Split(guess: seq<int>, r: seq<Mark>, x: int, k: nat)
    requires k <= |guess| && k <= |r|
    requires forall l :: 0 <= l < k ==> r[l] != Yellow
    ensures Marks(guess, r, Green, x, k) + Marks(guess, r, Blank, x, k) == Occ(guess, x, k)
  {
    if k > 0 {
      Split(guess, r, x, k - 1);
    }
  }

  /** Where exactly the agreeing positions are green and nothing is
      yellow, greens and blanks count the agreeing and the disagreeing
      positions. */
  lemma {:induction false} MarksMatch(guess: seq<int>, answer: seq<int>, r: seq<Mark>, x: int, k: nat)
    requires k <= |guess| && k <= |answer| && k <= |r|
    requires forall l :: 0 <= l < k ==> (r[l] == Green <==> guess[l] == answer[l]) && r[l] != Yellow
    ensures Marks(guess, r, Green, x, k) == Matches(guess, answer, x, k, true)
    ensures Marks(guess, r, Blank, x, k) == Matches(guess, answer, x, k, false)
  {
    if k > 0 {
      MarksMatch(guess, answer, r, x, k - 1);
    }
  }

  /** Greens are unchanged by the yellow pass. */
  lemma {:induction false} GreensKept(guess: seq<int>, r: seq<Mark>, r': seq<Mark>, x: int, k: nat)
    requires k <= |guess| && k <= |r| && k <= |r'|
    requires forall l :: 0 <= l < k ==> (r[l] == Green <==> r'[l] == Green)
    ensures Marks(guess, r, Green, x, k) == Marks(guess, r', Green, x, k)
  {
    if k > 0 {
      GreensKept(guess, r, r', x, k - 1);
    }
  }

  /** What the first loop of `check` keeps after `i` positions. */
  ghost predicate GreenInv(guess: seq<int>, answer: seq<int>, ln: nat, result: seq<Mark>, temp: seq<Option<int>>, i: nat)
    requires ln <= |guess| && ln <= |answer|
  {
    i <= ln && |result| == ln && |temp| == |answer|
    && (forall k :: 0 <= k < |temp| ==> temp[k] == None || temp[k] == Some(answer[k]))
    && (forall k :: 0 <= k < i ==> (result[k] == Green <==> guess[k] == answer[k]) && result[k] != Yellow)
    && (forall k :: 0 <= k < i ==> (temp[k] == None <==> result[k] == Green))
    && (forall k :: i <= k < ln ==> result[k] == Blank)
    && (forall k :: i <= k < |temp| ==> temp[k] == Some(answer[k]))
    && forall x :: Slots(temp, x, |temp|) + Marks(guess, result, Green, x, i) == Occ(answer, x, |answer|)
  }

  lemma GreenInit(guess: seq<int>, answer: seq<int>, ln: nat)
    requires ln <= |guess| && ln <= |answer|
    ensures GreenInv(guess, answer, ln, seq(ln, _ => Blank), Copy(answer), 0)
  {
    forall x ensures Slots(Copy(answer), x, |answer|) == Occ(answer, x, |answer|) {
      SlotsCopy(answer, x, |answer|);
    }
  }

  lemma GreenTaken(guess: seq<int>, answer: seq<int>, ln: nat, result: seq<Mark>, temp: seq<Option<int>>, i: nat)
    requires ln <= |guess| && ln <= |answer| && i < ln
    requires GreenInv(guess, answer, ln, result, temp, i) && temp[i] == Some(guess[i])
    ensures GreenInv(guess, answer, ln, result[i := Green], temp[i := None], i + 1)
  {
    var r', t' := result[i := Green], temp[i := None];
    forall x ensures Slots(t', x, |t'|) + Marks(guess, r', Green, x, i + 1) == Occ(answer, x, |answer|) {
      SlotsUsed(temp, t', i, guess[i], x, |temp|);
      MarksFrame(guess, result, r', Green, x, i);
    }
  }

  lemma GreenMissed(guess: seq<int>, answer: seq<int>, ln: nat, result: seq<Mark>, temp: seq<Option<int>>, i: nat)
    requires ln <= |guess| && ln <= |answer| && i < ln
    requires GreenInv(guess, answer, ln, result, temp, i) && temp[i] != Some(guess[i])
    ensures GreenInv(guess, answer, ln, result, temp, i + 1)
  {
    forall x ensures Slots(temp, x, |temp|) + Marks(guess, result, Green, x, i + 1) == Occ(answer, x, |answer|) {
    }
  }

  /** The first loop of `check`: exact matches become green and their
      slot of `temp_answer` is used up. */
  method GreenPass(guess: seq<int>, answer: seq<int>, ln: nat) returns (result: seq<Mark>, temp: seq<Option<int>>)
    requires ln <= |guess| && ln <= |answer|
    ensures GreenInv(guess, answer, ln, result, temp, ln)
  {
    result := seq(ln, _ => Blank);
    temp := Copy(answer);
    GreenInit(guess, answer, ln);
    for i := 0 to ln
      invariant GreenInv(guess, answer, ln, result, temp, i)
    {
      if temp[i] == Some(guess[i]) {
        GreenTaken(guess, answer, ln, result, temp, i);
        result := result[i := Green];
        temp := temp[i := None];
      } else {
        GreenMissed(guess, answer, ln, result, temp, i);
      }
    }
  }

  /** What the second loop of `check` keeps after `i` positions; `temp0`
      is what the greens left of the answer. */
  ghost predicate YellowInv(guess: seq<int>, answer: seq<int>, first: seq<Mark>, temp0: seq<Option<int>>, ln: nat,
                            result: seq<Mark>, temp: seq<Option<int>>, i: nat)
    requires ln <= |guess| && |first| == ln
  {
    i <= ln && |result| == ln && |temp| == |answer| && |temp0| == |answer|
    && (forall k :: 0 <= k < |temp| ==> temp[k] == None || temp[k] == Some(answer[k]))
    && (forall k :: 0 <= k < ln ==> (result[k] == Green <==> first[k] == Green))
    && (forall k :: i <= k < ln ==> result[k] == first[k])
    && (forall k :: 0 <= k < i && result[k] == Yellow ==> guess[k] in answer)
    && (forall k :: 0 <= k < i ==>
          (result[k] == Yellow <==> first[k] == Blank && Marks(guess, first, Blank, guess[k], k) < Slots(temp0, guess[k], |temp0|)))
    && (forall x :: Slots(temp, x, |temp|) + Marks(guess, result, Yellow, x, i) == Slots(temp0, x, |temp0|))
    && forall x :: Marks(guess, result, Yellow, x, i) == Min(Marks(guess, first, Blank, x, i), Slots(temp0, x, |temp0|))
  }

  lemma YellowTaken(guess: seq<int>, answer: seq<int>, first: seq<Mark>, temp0: seq<Option<int>>, ln: nat,
                    result: seq<Mark>, temp: seq<Option<int>>, i: nat, at: nat)
    requires ln <= |guess| && |first| == ln && i < ln
    requires forall k :: 0 <= k < ln ==> first[k] != Yellow
    requires YellowInv(guess, answer, first, temp0, ln, result, temp, i)
    requires at < |temp| && temp[at] == Some(guess[i]) && result[i] != Green
    ensures YellowInv(guess, answer, first, temp0, ln, result[i := Yellow], temp[at := None], i + 1)
  {
    var g, r', t' := guess[i], result[i := Yellow], temp[at := None];
    assert answer[at] == g;
    SlotsHas(temp, g, |temp|);
    assert first[i] == Blank && Marks(guess, first, Blank, g, i) < Slots(temp0, g, |temp0|);
    forall x
      ensures Slots(t', x, |t'|) + Marks(guess, r', Yellow, x, i + 1) == Slots(temp0, x, |temp0|)
      ensures Marks(guess, r', Yellow, x, i + 1) == Min(Marks(guess, first, Blank, x, i + 1), Slots(temp0, x, |temp0|))
    {
      SlotsUsed(temp, t', at, g, x, |temp|);
      MarksFrame(guess, result, r', Yellow, x, i);
    }
  }

  lemma YellowMissed(guess: seq<int>, answer: seq<int>, first: seq<Mark>, temp0: seq<Option<int>>, ln: nat,
                     result: seq<Mark>, temp: seq<Option<int>>, i: nat)
    requires ln <= |guess| && |first| == ln && i < ln
    requires forall k :: 0 <= k < ln ==> first[k] != Yellow
    requires YellowInv(guess, answer, first, temp0, ln, result, temp, i)
    requires !(Some(guess[i]) in temp && result[i] != Green)
    ensures YellowInv(guess, answer, first, temp0, ln, result, temp, i + 1)
  {
    AvailHas(temp, guess[i]);
    assert result[i] != Yellow;
    assert first[i] == Blank ==> Marks(guess, first, Blank, guess[i], i) >= Slots(temp0, guess[i], |temp0|);
    forall x
      ensures Slots(temp, x, |temp|) + Marks(guess, result, Yellow, x, i + 1) == Slots(temp0, x, |temp0|)
      ensures Marks(guess, result, Yellow, x, i + 1) == Min(Marks(guess, first, Blank, x, i + 1), Slots(temp0, x, |temp0|))
    {
    }
  }

  /** The second loop of `check`: a non-green position whose value is
      still in `temp_answer` becomes yellow and uses up the first slot
      holding it. */
  method YellowPass(guess: seq<int>, answer: seq<int>, first: seq<Mark>, temp0: seq<Option<int>>, ln: nat)
    returns (result: seq<Mark>)
    requires ln <= |guess| && |first| == ln && |temp0| == |answer|
    requires forall k :: 0 <= k < |temp0| ==> temp0[k] == None || temp0[k] == Some(answer[k])
    requires forall k :: 0 <= k < ln ==> first[k] != Yellow
    ensures |result| == ln
    ensures forall k :: 0 <= k < ln ==> (result[k] == Green <==> first[k] == Green)
    ensures forall k :: 0 <= k < ln && result[k] == Yellow ==> guess[k] in answer
    ensures forall x :: Marks(guess, result, Yellow, x, ln) == Min(Marks(guess, first, Blank, x, ln), Slots(temp0, x, |temp0|))
    ensures forall k :: 0 <= k < ln ==>
      (result[k] == Yellow <==> first[k] == Blank && Marks(guess, first, Blank, guess[k], k) < Slots(temp0, guess[k], |temp0|))
  {
    result := first;
    var temp := temp0;
    for i := 0 to ln
      invariant YellowInv(guess, answer, first, temp0, ln, result, temp, i)
    {
      if Some(guess[i]) in temp && result[i] != Green {
        var at := FirstIndex(temp, guess[i]);
        YellowTaken(guess, answer, first, temp0, ln, result, temp, i, at);
        result := result[i := Yellow];
        temp := temp[at := None];
      } else {
        YellowMissed(guess, answer, first, temp0, ln, result, temp, i);
      }
    }
  }

  /** Greens exactly at the agreeing positions make the all-green answer
      the same as a correct guess. */
  lemma AllGreen(guess: seq<int>, answer: seq<int>, result: seq<Mark>, ln: nat)
    requires ln <= |guess| && ln <= |answer| && |result| == ln
    requires forall i :: 0 <= i < ln ==> (result[i] == Green <==> guess[i] == answer[i])
    ensures result == seq(ln, _ => Green) <==> guess[..ln] == answer[..ln]
  {
    if guess[..ln] == answer[..ln] {
      forall i | 0 <= i < ln ensures result[i] == Green {
        assert guess[..ln][i] == answer[..ln][i];
      }
    }
    if result == seq(ln, _ => Green) {
      forall i | 0 <= i < ln ensures guess[..ln][i] == answer[..ln][i] {
        assert result[i] == Green;
      }
    }
  }

  /** `check(guess, answer, ln)`: greens are the exact matches; for every
      value, its greens and yellows together number the smaller of its
      counts in the guess and in the answer (so greens and yellows are the
      multiset intersection); and the result is "G" * ln exactly for a
      correct guess. */
  method Check(guess: seq<int>, answer: seq<int>, ln: nat) returns (result: seq<Mark>)
    requires ln <= |guess| && ln <= |answer|
    ensures |result| == ln
    ensures forall i :: 0 <= i < ln ==> (result[i] == Green <==> guess[i] == answer[i])
    ensures forall i :: 0 <= i < ln && result[i] == Yellow ==> guess[i] in answer
    ensures forall x ::
      Marks(guess, result, Green, x, ln) + Marks(guess, result, Yellow, x, ln) == Min(Occ(guess, x, ln), Occ(answer, x, |answer|))
    ensures forall i :: 0 <= i < ln ==>
      (result[i] == Yellow <==>
         (guess[i] != answer[i]
          && Matches(guess, answer, guess[i], i, false) + Matches(guess, answer, guess[i], ln, true) < Occ(answer, guess[i], |answer|)))
    ensures result == seq(ln, _ => Green) <==> guess[..ln] == answer[..ln]
  {
    var first, temp := GreenPass(guess, answer, ln);
    result := YellowPass(guess, answer, first, temp, ln);
    forall i | 0 <= i < ln
      ensures result[i] == Yellow <==>
        (guess[i] != answer[i]
         && Matches(guess, answer, guess[i], i, false) + Matches(guess, answer, guess[i], ln, true) < Occ(answer, guess[i], |answer|))
    {
      MarksMatch(guess, answer, first, guess[i], i);
      MarksMatch(guess, answer, first, guess[i], ln);
    }
    forall x ensures Marks(guess, result, Green, x, ln) + Marks(guess, result, Yellow, x, ln)
      == Min(Occ(guess, x, ln), Occ(answer, x, |answer|))
    {
      Split(guess, first, x, ln);
      GreensKept(guess, first, result, x, ln);
    }
    AllGreen(guess, answer, result, ln);
  }

  /** What `user_guess` accepts: `ln` numbers, each between 1 and `cmp`. */
  predicate Legal(guess: seq<int>, cmp: int, ln: int) {
    |guess| == ln && forall k :: 0 <= k < |guess| ==> 1 <= guess[k] <= cmp
  }

  /** One round of the `while not valid` loop on an already-parsed guess. */
  method Validate(guess: seq<int>, cmp: int, ln: int) returns (valid: bool)
    ensures valid <==> Legal(guess, cmp, ln)
  {
    valid := true;
    for t := 0 to |guess|
      invariant valid <==> forall k :: 0 <= k < t ==> 1 <= guess[k] <= cmp
    {
      if guess[t] < 1 || guess[t] > cmp {
        valid := false;
      }
    }
    if |guess| != ln {
      valid := false;
    }
  }

  /** `user_guess` fed the parsed lines `attempts`: it reads until a line
      is legal and returns that line; `used` lines were read. If no line is
      legal the input runs out and there is no guess. */
  method UserGuess(attempts: seq<seq<int>>, cmp: int, ln: int) returns (used: nat, guess: Option<seq<int>>)
    ensures used <= |attempts|
    ensures guess.Some? ==> 0 < used && guess.value == attempts[used - 1] && Legal(guess.value, cmp, ln)
    ensures guess.Some? ==> forall t :: 0 <= t < used - 1 ==> !Legal(attempts[t], cmp, ln)
    ensures guess.None? ==> used == |attempts| && forall t :: 0 <= t < |attempts| ==> !Legal(attempts[t], cmp, ln)
  {
    used, guess := 0, None;
    var valid := false;
    while !valid && used < |attempts|
      invariant used <= |attempts|
      invariant valid ==> 0 < used && Legal(attempts[used - 1], cmp, ln)
      invariant forall t :: 0 <= t < (if valid then used - 1 else used) ==> !Legal(attempts[t], cmp, ln)
      decreases |attempts| - used
    {
      valid := Validate(attempts[used], cmp, ln);
      used := used + 1;
    }
    if valid {
      guess := Some(attempts[used - 1]);
    }
  }
}

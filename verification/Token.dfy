/** The random-token loops: at most ten draws on QSEE and Kinibi, no bound at all on iSee and Trusty. */
module Token {
  import opened Common

  const TOKEN_LEN := 8
  const TRIES := 10

  /** What one call to the random generator returns, and what it leaves in the token. */
  datatype Draw = Draw(len: int, value: nat)

  predicate Good(d: Draw) {
    d.len == TOKEN_LEN
  }

  /** Kinibi also refuses a zero token. */
  predicate KinibiGood(d: Draw) {
    d.len == TOKEN_LEN && d.value != 0
  }

  /** The first of the draws before `n` that is good, or `n`. */
  function FirstGood(rng: nat -> Draw, n: nat, good: Draw -> bool): (j: nat)
    ensures j <= n && (j < n ==> good(rng(j))) && forall i | 0 <= i < j :: !good(rng(i))
  {
    if n == 0 then 0
    else
      var j := FirstGood(rng, n - 1, good);
      if j < n - 1 || good(rng(n - 1)) then j else n
  }

  /** qsee_get_token: the first good draw among ten is the token; ten bad ones set the status to ERR. */
  method QseeToken(rng: nat -> Draw, token0: nat) returns (token: nat, ok: bool, used: nat)
    ensures ok <==> exists i :: 0 <= i < 10 && rng(i).len == 8
    ensures 1 <= used <= 10 && token == rng(used - 1).value && (ok ==> rng(used - 1).len == 8) && (!ok ==> used == 10)
    ensures forall i | 0 <= i < used - 1 :: rng(i).len != 8
    ensures var j := FirstGood(rng, TRIES, Good);
      ok == (j < TRIES) && used == (if ok then j + 1 else TRIES)
  {
    token, ok, used := token0, true, 0;
    var attempts := TRIES;
    while attempts != 0
      invariant 0 <= attempts <= TRIES && used == TRIES - attempts && ok
      invariant FirstGood(rng, used, Good) == used
      invariant used > 0 ==> token == rng(used - 1).value
    {
      attempts := attempts - 1;
      var d := rng(used);
      used := used + 1;
      token := d.value;
      if Good(d) {
        FirstGoodStays(rng, used, TRIES, Good);
        return;
      }
    }
    ok := false;
  }

  method KinibiToken(rng: nat -> Draw, token0: nat) returns (token: nat, ok: bool, used: nat)
    ensures ok <==> exists i :: 0 <= i < 10 && rng(i).len == 8 && rng(i).value != 0
    ensures 1 <= used <= 10 && token == rng(used - 1).value && (!ok ==> used == 10)
    ensures ok ==> rng(used - 1).len == 8 && token != 0
    ensures forall i | 0 <= i < used - 1 :: rng(i).len != 8 || rng(i).value == 0
    ensures var j := FirstGood(rng, TRIES, KinibiGood);
      ok == (j < TRIES) && used == (if ok then j + 1 else TRIES)
  {
    token, ok, used := token0, true, 0;
    var attempts := TRIES;
    while attempts != 0
      invariant 0 <= attempts <= TRIES && used == TRIES - attempts && ok
      invariant FirstGood(rng, used, KinibiGood) == used
      invariant used > 0 ==> token == rng(used - 1).value
    {
      attempts := attempts - 1;
      var d := rng(used);
      used := used + 1;
      token := d.value;
      if KinibiGood(d) {
        FirstGoodStays(rng, used, TRIES, KinibiGood);
        return;
      }
    }
    ok := false;
  }

  lemma {:induction false} FirstGoodStays(rng: nat -> Draw, m: nat, n: nat, good: Draw -> bool)
    requires m <= n && FirstGood(rng, m, good) < m
    ensures FirstGood(rng, n, good) == FirstGood(rng, m, good)
  {
    if m < n {
      FirstGoodStays(rng, m, n - 1, good);
    }
  }

  // ------------------------------------------------------------------ the loop as written elsewhere

  /** Where a token loop stands after some of its steps: the guard is evaluated at each. */
  datatype Loop = Trying(attempts: int, draws: nat) | Returned(draw: nat) | GaveUp

  /**
   * One step.  On iSee and Trusty the loop tests `try > 0` and never changes `try`; `counts` says whether
   * it is decremented, as on the other platforms.
   */
  function Step(rng: nat -> Draw, counts: bool, s: Loop): Loop {
    match s
    case Trying(attempts, draws) =>
      if attempts <= 0 then GaveUp
      else if Good(rng(draws)) then Returned(draws)
      else Trying(if counts then attempts - 1 else attempts, draws + 1)
    case _ => s
  }

  function After(rng: nat -> Draw, counts: bool, steps: nat): Loop {
    if steps == 0 then Trying(TRIES, 0) else Step(rng, counts, After(rng, counts, steps - 1))
  }

  /** The uncounted loop: it returns with the first good draw, else it is still trying; it never gives up. */
  lemma {:induction false} UncountedLoop(rng: nat -> Draw, steps: nat)
    ensures var j := FirstGood(rng, steps, Good);
      && After(rng, false, steps) == (if j < steps then Returned(j) else Trying(TRIES, steps))
      && (j < steps ==> rng(j).len == 8) && forall i | 0 <= i < j :: rng(i).len != 8
  {
    if steps > 0 {
      UncountedLoop(rng, steps - 1);
    }
  }

  /** The counted loop has ended after eleven tests of its guard, one way or the other. */
  lemma {:induction false} CountedLoop(rng: nat -> Draw, steps: nat)
    requires steps <= TRIES
    ensures var j := FirstGood(rng, steps, Good);
      After(rng, true, steps) == if j < steps then Returned(j) else Trying(TRIES - steps, steps)
    ensures steps == TRIES ==>
      After(rng, true, TRIES + 1) == if FirstGood(rng, TRIES, Good) < TRIES then Returned(FirstGood(rng, TRIES, Good)) else GaveUp
  {
    if steps > 0 {
      CountedLoop(rng, steps - 1);
    }
  }

  /** A generator that always fails keeps the uncounted loop busy forever, and the counted one for ten draws. */
  lemma UncountedLoopHangs(steps: nat)
    ensures var dead: nat -> Draw := _ => Draw(0, 0);
      After(dead, false, steps).Trying? && After(dead, true, TRIES + 1) == GaveUp
  {
    var dead: nat -> Draw := _ => Draw(0, 0);
    UncountedLoop(dead, steps);
    CountedLoop(dead, TRIES);
  }

  /** The two loops come to the same end exactly when one of the first ten draws is good. */
  lemma LoopsAgreeExactly(rng: nat -> Draw)
    ensures (exists steps: nat :: After(rng, false, steps) == After(rng, true, TRIES + 1))
            <==> FirstGood(rng, TRIES, Good) < TRIES
  {
    CountedLoop(rng, TRIES);
    if FirstGood(rng, TRIES, Good) < TRIES {
      UncountedLoop(rng, TRIES);
    } else {
      forall steps: nat ensures After(rng, false, steps) != GaveUp {
        UncountedLoop(rng, steps);
      }
    }
  }
}

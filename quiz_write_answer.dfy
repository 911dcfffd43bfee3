/** The rounds of `write_answer_quiz` (quiz_write_answer.py): type the back of the card shown. */
module QuizWriteAnswer {
  import opened Cards
  import Lists
  import opened Draws

  /** How many of the pairs asked were answered by typing exactly their back. */
  function Score(asked: seq<Card>, guesses: seq<string>): (s: nat)
    requires |asked| <= |guesses|
    ensures s <= |asked|
  {
    if asked == [] then 0
    else
      var k := |asked| - 1;
      Score(asked[..k], guesses) + (if guesses[k] == asked[k].back then 1 else 0)
  }

  /** Full marks exactly when every reply is the back of the pair it answers. */
  lemma {:induction false} FullMarks(asked: seq<Card>, guesses: seq<string>)
    requires |asked| <= |guesses|
    ensures Score(asked, guesses) == |asked| <==> forall k :: 0 <= k < |asked| ==> guesses[k] == asked[k].back
  {
    if asked != [] {
      var k := |asked| - 1;
      FullMarks(asked[..k], guesses);
      assert forall j :: 0 <= j < k ==> asked[..k][j] == asked[j];
    }
  }

  lemma ScoreSnoc(asked: seq<Card>, p: Card, guesses: seq<string>)
    requires |asked| < |guesses|
    ensures Score(asked + [p], guesses) == Score(asked, guesses) + (if guesses[|asked|] == p.back then 1 else 0)
  {
    assert (asked + [p])[..|asked|] == asked;
  }

  /**
   * `while f_b_pairs`: show a random remaining pair, read a guess, score it when
   * it equals the back, and remove the pair. `picks` are the `randrange`
   * results and `guesses` the typed replies. The pairs are asked in the order
   * the picks pop them; the quiz ends after every pair was asked once, or
   * earlier when picks or replies run out.
   */
  method WriteAnswerRounds(fbPairs: seq<Card>, picks: seq<nat>, guesses: seq<string>) returns (score: nat, rounds: nat)
    requires Lists.Distinct(fbPairs) && ValidDraws(|fbPairs|, picks)
    ensures rounds == if |picks| <= |guesses| then |picks| else |guesses|
    ensures score == Score(Picks(fbPairs, picks)[..rounds], guesses)
    ensures score <= rounds <= |fbPairs|
    ensures rounds == |fbPairs| ==> multiset(Picks(fbPairs, picks)[..rounds]) == multiset(fbPairs)
  {
    var pool := fbPairs;
    score, rounds := 0, 0;
    ghost var asked: seq<Card> := [];
    ghost var whole := Picks(fbPairs, picks);
    DrawsBound(|fbPairs|, picks);
    while pool != [] && rounds < |picks| && rounds < |guesses|
      invariant rounds <= |guesses| && |pool| == |fbPairs| - rounds
      invariant Draining(pool, picks, rounds, asked, whole)
      invariant score == Score(asked, guesses)
    {
      DrainStep(pool, picks, rounds, asked, whole);
      var randomPair := pool[picks[rounds]];
      var guess := guesses[rounds];
      ScoreSnoc(asked, randomPair, guesses);
      if guess == randomPair.back {
        score := score + 1;
        pool := Lists.RemoveFirst(pool, randomPair);
      } else {
        pool := Lists.RemoveFirst(pool, randomPair);
      }
      asked := asked + [randomPair];
      rounds := rounds + 1;
    }
    DrainedPrefix(pool, picks, rounds, asked, whole);
    if rounds == |fbPairs| {
      PicksAll(fbPairs, picks);
      assert whole[..rounds] == whole;
    }
  }
}

/**
 * The opening the three quizzes share (lines 16-37 of quiz_write_answer.py,
 * quiz_self_report.py and quiz_multiple_choice.py): the length prompt, the
 * random sample of distinct pairs, and the direction switch.
 */
module QuizSetup {
  import opened Wrappers
  import opened Strings
  import opened Cards
  import Lists

  // ---------------------------------------------------------------------------
  // The length prompt
  // ---------------------------------------------------------------------------

  /** How the length prompt ends. */
  datatype LengthOutcome =
    | Chosen(n: nat, at: nat)   // the reply on line `at` is accepted
    | NotANumber(at: nat)       // `int()` raises ValueError on the reply on line `at`
    | NoMoreInput               // every line was a number out of range

  /** A reply that is a number, but not one in `1 .. pairCount - 1`: the prompt repeats. */
  predicate OutOfRange(line: string, pairCount: nat) {
    ParseInt(line).Some? && !(0 < ParseInt(line).value < pairCount)
  }

  /**
   * `while not length_chosen`: ask until `int(reply)` is strictly between 0 and
   * the number of pairs. A reply that is not a number aborts the quiz.
   */
  method ChooseQuizLength(lines: seq<string>, pairCount: nat) returns (r: LengthOutcome)
    ensures r.Chosen? ==> r.at < |lines| && ParseInt(lines[r.at]) == Some(r.n as int) && 0 < r.n < pairCount
    ensures r.NotANumber? ==> r.at < |lines| && ParseInt(lines[r.at]).None?
    ensures !r.NoMoreInput? ==> forall j :: 0 <= j < r.at ==> OutOfRange(lines[j], pairCount)
    ensures r.NoMoreInput? ==> forall j :: 0 <= j < |lines| ==> OutOfRange(lines[j], pairCount)
  {
    var i := 0;
    while i < |lines|
      invariant i <= |lines|
      invariant forall j :: 0 <= j < i ==> OutOfRange(lines[j], pairCount)
    {
      var quizLength := ParseInt(lines[i]);
      if quizLength.None? {
        return NotANumber(i);
      }
      if 0 < quizLength.value < pairCount {
        return Chosen(quizLength.value as nat, i);
      }
      assert OutOfRange(lines[i], pairCount);
      i := i + 1;
    }
    return NoMoreInput;
  }

  /** Every length the prompt can accept, typed as plain digits, is accepted. */
  lemma LengthTyped(n: nat, pairCount: nat)
    requires 0 < n < pairCount
    ensures ParseInt(DecimalText(n)) == Some(n as int)
    ensures !OutOfRange(DecimalText(n), pairCount)
  {
    DecimalParses(n);
  }

  /** With one pair or none no reply is ever accepted: the prompt repeats forever. */
  lemma NoLengthForTinyDeck(line: string, pairCount: nat)
    requires pairCount <= 1 && ParseInt(line).Some?
    ensures OutOfRange(line, pairCount)
  {
  }

  // ---------------------------------------------------------------------------
  // The sample
  // ---------------------------------------------------------------------------

  /** Each draw names a pair of the deck: `initial_pairs[randrange(len(initial_pairs))]`. */
  predicate InRange(size: nat, draws: seq<nat>) {
    forall k :: 0 <= k < |draws| ==> draws[k] < size
  }

  /** The quiz after the given draws: each drawn pair is appended unless it is already in. */
  function Sampled<T(==)>(pairs: seq<T>, draws: seq<nat>): seq<T>
    requires InRange(|pairs|, draws)
  {
    if draws == [] then []
    else
      var before := Sampled(pairs, draws[..|draws| - 1]);
      var quest := pairs[draws[|draws| - 1]];
      if quest in before then before else before + [quest]
  }

  /**
   * The sample has no repeated pair, holds only pairs of the deck, holds every
   * pair that was drawn, and is no longer than the number of draws.
   */
  lemma {:induction false} SampledProperties<T>(pairs: seq<T>, draws: seq<nat>)
    requires InRange(|pairs|, draws)
    ensures Lists.Distinct(Sampled(pairs, draws))
    ensures forall x :: x in Sampled(pairs, draws) ==> x in pairs
    ensures forall k :: 0 <= k < |draws| ==> pairs[draws[k]] in Sampled(pairs, draws)
    ensures |Sampled(pairs, draws)| <= |draws|
  {
    if draws != [] {
      var front := draws[..|draws| - 1];
      SampledProperties(pairs, front);
      var before := Sampled(pairs, front);
      var quest := pairs[draws[|draws| - 1]];
      if quest !in before {
        SnocDistinct(before, quest);
      }
      forall k | 0 <= k < |draws| ensures pairs[draws[k]] in Sampled(pairs, draws) {
        if k < |draws| - 1 {
          assert draws[k] == front[k];
        }
      }
    }
  }

  lemma SnocDistinct<T>(xs: seq<T>, x: T)
    requires Lists.Distinct(xs) && x !in xs
    ensures Lists.Distinct(xs + [x])
  {
    var ys := xs + [x];
    forall i, j | 0 <= i < j < |ys| ensures ys[i] != ys[j] {
      assert ys[i] == xs[i];
      if j < |xs| {
        assert ys[j] == xs[j];
      }
    }
  }

  /**
   * `while len(f_b_pairs) < int(quiz_length)`: draw pairs until the quiz has
   * `n` of them. The result is the sample after the draws used, it stops as
   * soon as it has `n` pairs, and it only stops short when the draws run out.
   */
  method SampleQuiz<T(==)>(pairs: seq<T>, n: nat, draws: seq<nat>) returns (fbPairs: seq<T>, used: nat)
    requires InRange(|pairs|, draws)
    ensures used <= |draws| && fbPairs == Sampled(pairs, draws[..used])
    ensures |fbPairs| <= n
    ensures |fbPairs| == n || used == |draws|
    ensures forall u :: 0 <= u < used ==> |Sampled(pairs, draws[..u])| < n
  {
    fbPairs, used := [], 0;
    while |fbPairs| < n && used < |draws|
      invariant used <= |draws| && fbPairs == Sampled(pairs, draws[..used])
      invariant |fbPairs| <= n
      invariant forall u :: 0 <= u < used ==> |Sampled(pairs, draws[..u])| < n
    {
      var questToAdd := pairs[draws[used]];
      assert draws[..used + 1][..used] == draws[..used];
      if questToAdd !in fbPairs {
        fbPairs := fbPairs + [questToAdd];
      }
      used := used + 1;
    }
  }

  // ---------------------------------------------------------------------------
  // The direction
  // ---------------------------------------------------------------------------

  /** The two halves of a pair. */
  datatype Side = Front | Back

  function Shown(card: Card, side: Side): (s: string)
    ensures s == card.front || s == card.back
  {
    if side == Front then card.front else card.back
  }

  /**
   * `front = 0; back = 1`, and under `quiz_direction == "b"` the same again:
   * the side the quiz shows and the side it asks for.
   */
  function QuizSides(direction: string): (Side, Side) {
    if direction == "b" then (Front, Back) else (Front, Back)
  }

  /** The direction has no effect: every quiz shows the front and asks for the back. */
  lemma DirectionIgnored(direction: string)
    ensures QuizSides(direction) == QuizSides("f")
    ensures forall card :: Shown(card, QuizSides(direction).0) == card.front
    ensures forall card :: Shown(card, QuizSides(direction).1) == card.back
  {
  }
}

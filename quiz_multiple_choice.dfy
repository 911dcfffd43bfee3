/**
 * The rounds of `multiple_choice_quiz` (quiz_multiple_choice.py): the card's
 * back is hidden among four options filled from the deck, and the user picks
 * `a`, `b`, `c` or `d`.
 */
module QuizMultipleChoice {
  import opened Wrappers
  import opened Cards
  import Lists
  import opened Draws
  import opened QuizSetup

  // ---------------------------------------------------------------------------
  // The options
  // ---------------------------------------------------------------------------

  /** The placeholder of an option not filled yet. */
  const Blank: string := " "

  /** `[" ", " ", " ", " "]`. */
  function NoChoices(): seq<string> {
    [Blank, Blank, Blank, Blank]
  }

  /** No filled option is repeated. */
  predicate ChoicesDistinct(options: seq<string>) {
    forall i, j :: 0 <= i < j < |options| && options[i] != Blank ==> options[i] != options[j]
  }

  /** Where `multi_dict.index(back)` finds the answer after it was written at `slot`. */
  function Answer(back: string, slot: nat): nat
    requires slot < 4
  {
    assert NoChoices()[slot := back][slot] == back;
    Lists.FirstIndexOf(NoChoices()[slot := back], back)
  }

  /**
   * The answer is found where it was written, except for a back that is
   * itself `" "`: then every option looks alike and `index` finds slot 0.
   */
  lemma AnswerAtSlot(back: string, slot: nat)
    requires slot < 4
    ensures back != Blank ==> Answer(back, slot) == slot
    ensures back == Blank ==> Answer(back, slot) == 0
  {
    var options := NoChoices()[slot := back];
    if back != Blank {
      assert forall j :: 0 <= j < 4 && j != slot ==> options[j] != back;
    } else {
      assert options[0] == back;
    }
  }

  /**
   * `multi_dict = [" "] * 4; multi_dict[randrange(0, 4)] = back;
   * answer = multi_dict.index(back)`.
   */
  method PlaceAnswer(back: string, slot: nat) returns (multiDict: array<string>, answer: nat)
    requires slot < 4
    ensures fresh(multiDict) && multiDict.Length == 4
    ensures multiDict[..] == NoChoices()[slot := back]
    ensures answer == Answer(back, slot) && multiDict[answer] == back
  {
    multiDict := new string[4] [Blank, Blank, Blank, Blank];
    multiDict[slot] := back;
    assert multiDict[..] == NoChoices()[slot := back];
    answer := Lists.FirstIndexOf(multiDict[..], back);
  }

  /**
   * One deck item offered to the options: its back goes to the drawn
   * location when it is not shown yet, the location is not the answer's, and
   * the location is still blank.
   */
  function Offer(options: seq<string>, answer: nat, back: string, loc: nat): seq<string>
    requires |options| == 4 && loc < 4
  {
    if back !in options && loc != answer && options[loc] == Blank then options[loc := back] else options
  }

  /** The position within the deck of the `k`-th item offered: the deck is walked round and round. */
  function Phase(k: nat, n: nat): (p: nat)
    requires n > 0
    ensures p < n
  {
    if k == 0 then 0 else if Phase(k - 1, n) + 1 == n then 0 else Phase(k - 1, n) + 1
  }

  /** The options after the given fill locations, one per deck item offered in turn. */
  function Offers(options: seq<string>, answer: nat, backs: seq<string>, locs: seq<nat>): (r: seq<string>)
    requires |options| == 4 && |backs| > 0 && InRange(4, locs)
    ensures |r| == 4
  {
    if locs == [] then options
    else
      var k := |locs| - 1;
      Offer(Offers(options, answer, backs, locs[..k]), answer, backs[Phase(k, |backs|)], locs[k])
  }

  /**
   * Filling never touches the answer nor an option already filled, fills a
   * blank only with a back of the deck, and never shows a back twice.
   */
  lemma {:induction false} OffersKeep(options: seq<string>, answer: nat, backs: seq<string>, locs: seq<nat>)
    requires |options| == 4 && answer < 4 && |backs| > 0 && InRange(4, locs)
    ensures Offers(options, answer, backs, locs)[answer] == options[answer]
    ensures forall i :: 0 <= i < 4 && options[i] != Blank ==> Offers(options, answer, backs, locs)[i] == options[i]
    ensures forall i :: 0 <= i < 4 && Offers(options, answer, backs, locs)[i] != options[i] ==>
              options[i] == Blank && Offers(options, answer, backs, locs)[i] in backs
    ensures ChoicesDistinct(options) ==> ChoicesDistinct(Offers(options, answer, backs, locs))
  {
    if locs != [] {
      var k := |locs| - 1;
      OffersKeep(options, answer, backs, locs[..k]);
      var before := Offers(options, answer, backs, locs[..k]);
      OfferKeeps(before, answer, backs[Phase(k, |backs|)], locs[k]);
    }
  }

  lemma OfferKeeps(options: seq<string>, answer: nat, back: string, loc: nat)
    requires |options| == 4 && loc < 4
    ensures answer < 4 ==> Offer(options, answer, back, loc)[answer] == options[answer]
    ensures forall i :: 0 <= i < 4 && options[i] != Blank ==> Offer(options, answer, back, loc)[i] == options[i]
    ensures forall i :: 0 <= i < 4 && Offer(options, answer, back, loc)[i] != options[i] ==>
              options[i] == Blank && Offer(options, answer, back, loc)[i] == back
    ensures ChoicesDistinct(options) ==> ChoicesDistinct(Offer(options, answer, back, loc))
  {
  }

  /**
   * A completed fill shows four different options: the answer where it was
   * written and three backs taken from the deck.
   */
  lemma FilledOptions(back: string, slot: nat, backs: seq<string>, locs: seq<nat>)
    requires back != Blank && slot < 4 && |backs| > 0 && InRange(4, locs)
    requires Blank !in Offers(NoChoices()[slot := back], Answer(back, slot), backs, locs)
    ensures var options := Offers(NoChoices()[slot := back], Answer(back, slot), backs, locs);
            && options[slot] == back
            && (forall i :: 0 <= i < 4 && i != slot ==> options[i] in backs)
            && (forall i, j :: 0 <= i < j < 4 ==> options[i] != options[j])
  {
    var start := NoChoices()[slot := back];
    AnswerAtSlot(back, slot);
    PlacedDistinct(back, slot);
    OffersKeep(start, slot, backs, locs);
    var options := Offers(start, slot, backs, locs);
    forall i | 0 <= i < 4 && i != slot ensures options[i] in backs {
      assert start[i] == Blank;
      assert options[i] != Blank by {
        assert options[i] in options;
      }
    }
    forall i, j | 0 <= i < j < 4 ensures options[i] != options[j] {
      assert options[i] != Blank by {
        assert options[i] in options;
      }
    }
  }

  /** Before the fill only the answer is shown. */
  lemma PlacedDistinct(back: string, slot: nat)
    requires slot < 4
    ensures ChoicesDistinct(NoChoices()[slot := back])
  {
    var start := NoChoices()[slot := back];
    forall i, j | 0 <= i < j < 4 && start[i] != Blank ensures start[i] != start[j] {
      assert i == slot && start[j] == Blank;
    }
  }

  lemma OffersSnoc(options: seq<string>, answer: nat, backs: seq<string>, locs: seq<nat>, k: nat)
    requires |options| == 4 && |backs| > 0 && InRange(4, locs) && k < |locs|
    ensures Offers(options, answer, backs, locs[..k + 1])
            == Offer(Offers(options, answer, backs, locs[..k]), answer, backs[Phase(k, |backs|)], locs[k])
  {
    assert locs[..k + 1][..k] == locs[..k];
  }

  /** The body of the `for` loop: offer one back at the drawn location. */
  method OfferOne(multiDict: array<string>, answer: nat, back: string, fillLocation: nat)
    requires multiDict.Length == 4 && fillLocation < 4
    modifies multiDict
    ensures multiDict[..] == Offer(old(multiDict[..]), answer, back, fillLocation)
  {
    if back !in multiDict[..] {
      if fillLocation != answer && multiDict[fillLocation] == Blank {
        multiDict[fillLocation] := back;
      }
    }
  }

  /**
   * `while multi_dict.count(" ") > 0: for pair in deck_dict.items(): ...`:
   * offer the deck's backs in turn, one fill location drawn per item, until
   * no option is blank at the end of a full walk through the deck. `locs`
   * are the `randrange(0, 4)` results; the fill stops short only when they
   * run out.
   */
  method FillChoices(multiDict: array<string>, answer: nat, backs: seq<string>, locs: seq<nat>) returns (used: nat)
    requires multiDict.Length == 4 && |backs| > 0 && InRange(4, locs)
    modifies multiDict
    ensures used <= |locs| && multiDict[..] == Offers(old(multiDict[..]), answer, backs, locs[..used])
    ensures used == |locs| || (Blank !in multiDict[..] && Phase(used, |backs|) == 0)
  {
    ghost var start := multiDict[..];
    used := 0;
    while Blank in multiDict[..] && used < |locs|
      invariant used <= |locs| && multiDict[..] == Offers(start, answer, backs, locs[..used])
      invariant used == |locs| || Phase(used, |backs|) == 0
      decreases |locs| - used
    {
      var i := 0;
      ghost var first := used;
      while i < |backs| && used < |locs|
        invariant i <= |backs| && used == first + i <= |locs|
        invariant multiDict[..] == Offers(start, answer, backs, locs[..used])
        invariant Phase(used, |backs|) == if i == |backs| then 0 else i
      {
        var fillLocation := locs[used];
        var back := backs[i];
        OffersSnoc(start, answer, backs, locs, used);
        OfferOne(multiDict, answer, back, fillLocation);
        used := used + 1;
        i := i + 1;
      }
    }
  }

  // ---------------------------------------------------------------------------
  // The guess
  // ---------------------------------------------------------------------------

  /** `a`, `b`, `c` and `d` name the four options; any other reply asks again. */
  function GuessIndex(guess: string): (r: Option<nat>)
    ensures r.Some? ==> r.value < 4
  {
    if guess == "a" then Some(0)
    else if guess == "b" then Some(1)
    else if guess == "c" then Some(2)
    else if guess == "d" then Some(3)
    else None
  }

  /** The labels printed before the options (`a) `, `b) `, ...) name exactly those options. */
  lemma LabelsName(guess: string, i: nat)
    requires i < 4
    ensures GuessIndex(guess) == Some(i) <==> guess == ["abcd"[i]]
  {
  }

  /** The options picked, one per accepted reply, in the order typed. */
  function Choices(lines: seq<string>): seq<nat> {
    if lines == [] then []
    else (if GuessIndex(lines[0]).Some? then [GuessIndex(lines[0]).value] else []) + Choices(lines[1..])
  }

  /** Picks made over two stretches of replies are those of the first, then those of the second. */
  lemma {:induction false} ChoicesAppend(a: seq<string>, b: seq<string>)
    ensures Choices(a + b) == Choices(a) + Choices(b)
  {
    if a != [] {
      assert (a + b)[0] == a[0] && (a + b)[1..] == a[1..] + b;
      ChoicesAppend(a[1..], b);
      var head := if GuessIndex(a[0]).Some? then [GuessIndex(a[0]).value] else [];
      assert Choices(a + b) == head + (Choices(a[1..]) + Choices(b));
      assert head + (Choices(a[1..]) + Choices(b)) == (head + Choices(a[1..])) + Choices(b);
    } else {
      assert a + b == b;
    }
  }

  lemma ChoicesAt(lines: seq<string>, i: nat)
    requires i < |lines|
    ensures Choices(lines[i..]) ==
              (if GuessIndex(lines[i]).Some? then [GuessIndex(lines[i]).value] else []) + Choices(lines[i + 1..])
  {
    assert lines[i..][1..] == lines[i + 1..];
  }

  /**
   * `while keep_guessing`: read replies from line `pos` on until one is `a`,
   * `b`, `c` or `d`. The option picked is the next one of the stream and
   * `next` is where the following round starts reading.
   */
  method AskChoice(lines: seq<string>, pos: nat) returns (guessTest: Option<nat>, next: nat)
    requires pos <= |lines|
    ensures pos <= next <= |lines|
    ensures guessTest.None? ==> next == |lines| && Choices(lines[pos..]) == []
    ensures guessTest.Some? ==> Choices(lines[pos..]) == [guessTest.value] + Choices(lines[next..])
  {
    var keepGuessing := true;
    guessTest, next := None, pos;
    while keepGuessing && next < |lines|
      invariant pos <= next <= |lines|
      invariant keepGuessing ==> guessTest.None? && Choices(lines[pos..]) == Choices(lines[next..])
      invariant !keepGuessing ==> guessTest.Some? && Choices(lines[pos..]) == [guessTest.value] + Choices(lines[next..])
    {
      var guess := lines[next];
      ChoicesAt(lines, next);
      next := next + 1;
      var test := 0;
      if guess == "a" {
        test, keepGuessing := 0, false;
      } else if guess == "b" {
        test, keepGuessing := 1, false;
      } else if guess == "c" {
        test, keepGuessing := 2, false;
      } else if guess == "d" {
        test, keepGuessing := 3, false;
      } else {
        keepGuessing := true;
      }
      if !keepGuessing {
        guessTest := Some(test);
      }
    }
    if keepGuessing {
      assert lines[next..] == [];
    }
  }

  // ---------------------------------------------------------------------------
  // The rounds
  // ---------------------------------------------------------------------------

  /** How many rounds picked the option holding the answer. */
  function Score(asked: seq<Card>, slots: seq<nat>, choices: seq<nat>): (s: nat)
    requires |asked| <= |slots| && |asked| <= |choices| && InRange(4, slots)
    ensures s <= |asked|
  {
    if asked == [] then 0
    else
      var k := |asked| - 1;
      Score(asked[..k], slots, choices) + (if choices[k] == Answer(asked[k].back, slots[k]) then 1 else 0)
  }

  /** How many of the first `n` picks name the slot the answer was written to. */
  function Hits(slots: seq<nat>, choices: seq<nat>, n: nat): nat
    requires n <= |slots| && n <= |choices|
  {
    if n == 0 then 0 else Hits(slots, choices, n - 1) + (if choices[n - 1] == slots[n - 1] then 1 else 0)
  }

  /** Unless a back is itself `" "`, a round scores exactly when the pick is where the answer was written. */
  lemma {:induction false} ScoreIsHits(asked: seq<Card>, slots: seq<nat>, choices: seq<nat>)
    requires |asked| <= |slots| && |asked| <= |choices| && InRange(4, slots)
    requires forall k :: 0 <= k < |asked| ==> asked[k].back != Blank
    ensures Score(asked, slots, choices) == Hits(slots, choices, |asked|)
  {
    if asked != [] {
      var k := |asked| - 1;
      ScoreIsHits(asked[..k], slots, choices);
      AnswerAtSlot(asked[k].back, slots[k]);
    }
  }

  /** Only the first picks, one per round asked, matter to the score. */
  lemma {:induction false} ScoreSameChoices(asked: seq<Card>, slots: seq<nat>, c: seq<nat>, d: seq<nat>)
    requires |asked| <= |slots| && |asked| <= |c| && |asked| <= |d| && InRange(4, slots)
    requires forall k :: 0 <= k < |asked| ==> c[k] == d[k]
    ensures Score(asked, slots, c) == Score(asked, slots, d)
  {
    if asked != [] {
      ScoreSameChoices(asked[..|asked| - 1], slots, c, d);
    }
  }

  /** `score` counts the rounds asked so far that picked the answer. */
  predicate Scored(asked: seq<Card>, slots: seq<nat>, marks: seq<nat>, score: nat) {
    |asked| == |marks| <= |slots| && InRange(4, slots) && score == Score(asked, slots, marks)
  }

  lemma ScoredStep(asked: seq<Card>, p: Card, slots: seq<nat>, marks: seq<nat>, g: nat, score: nat, answer: nat)
    requires Scored(asked, slots, marks, score) && |asked| < |slots| && answer == Answer(p.back, slots[|asked|])
    ensures Scored(asked + [p], slots, marks + [g], score + if g == answer then 1 else 0)
  {
    ScoreSnoc(asked, p, slots, marks + [g]);
    ScoreSameChoices(asked, slots, marks, marks + [g]);
  }

  lemma ScoreSnoc(asked: seq<Card>, p: Card, slots: seq<nat>, choices: seq<nat>)
    requires |asked| < |slots| && |asked| < |choices| && InRange(4, slots)
    ensures Score(asked + [p], slots, choices)
            == Score(asked, slots, choices) + (if choices[|asked|] == Answer(p.back, slots[|asked|]) then 1 else 0)
  {
    assert (asked + [p])[..|asked|] == asked;
  }

  /** The picks made so far, followed by what the unread lines will give, are the whole stream's. */
  predicate ChosenUpTo(lines: seq<string>, pos: nat, marks: seq<nat>) {
    pos <= |lines| && marks + Choices(lines[pos..]) == Choices(lines)
  }

  lemma ChosenStep(lines: seq<string>, pos: nat, next: nat, marks: seq<nat>, c: nat)
    requires ChosenUpTo(lines, pos, marks) && next <= |lines|
    requires Choices(lines[pos..]) == [c] + Choices(lines[next..])
    ensures ChosenUpTo(lines, next, marks + [c])
  {
    Lists.Assoc(marks, [c], Choices(lines[next..]));
  }

  lemma ChosenAll(lines: seq<string>, pos: nat, marks: seq<nat>)
    requires ChosenUpTo(lines, pos, marks)
    ensures |marks| <= |Choices(lines)| && Choices(lines)[..|marks|] == marks
  {
  }

  /**
   * One round once the pair is drawn: place its back, fill the other options,
   * then read replies until one picks an option. The round is left unfinished
   * (`guessTest` is `None`) when the fill locations or the replies run out.
   */
  method AskRound(backs: seq<string>, back: string, slot: nat, locs: seq<nat>, lines: seq<string>, pos: nat)
    returns (guessTest: Option<nat>, answer: nat, used: nat, next: nat)
    requires |backs| > 0 && slot < 4 && InRange(4, locs) && pos <= |lines|
    ensures answer == Answer(back, slot) && used <= |locs| && pos <= next <= |lines|
    ensures guessTest.None? ==> used == |locs| || Choices(lines[pos..]) == []
    ensures used < |locs| && Choices(lines[pos..]) != [] ==> guessTest.Some?
    ensures guessTest.Some? ==> Choices(lines[pos..]) == [guessTest.value] + Choices(lines[next..])
  {
    var multiDict;
    multiDict, answer := PlaceAnswer(back, slot);
    used := FillChoices(multiDict, answer, backs, locs);
    if Blank in multiDict[..] {
      return None, answer, used, pos;
    }
    guessTest, next := AskChoice(lines, pos);
  }

  /** The state of the quiz after the rounds asked so far. */
  ghost predicate Progress(fbPairs: seq<Card>, picks: seq<nat>, slots: seq<nat>, lines: seq<string>, whole: seq<Card>,
                           pool: seq<Card>, asked: seq<Card>, marks: seq<nat>, pos: nat, score: nat) {
    && |pool| == |fbPairs| - |asked| && Draining(pool, picks, |asked|, asked, whole)
    && ChosenUpTo(lines, pos, marks) && Scored(asked, slots, marks, score)
  }

  lemma ProgressPick(fbPairs: seq<Card>, picks: seq<nat>, slots: seq<nat>, lines: seq<string>, whole: seq<Card>,
                     pool: seq<Card>, asked: seq<Card>, marks: seq<nat>, pos: nat, score: nat)
    requires Progress(fbPairs, picks, slots, lines, whole, pool, asked, marks, pos, score) && |asked| < |picks|
    ensures picks[|asked|] < |pool|
  {
    DrainStep(pool, picks, |asked|, asked, whole);
  }

  /** A finished round: the pair is removed, its pick recorded, and the score counts it when right. */
  lemma ProgressStep(fbPairs: seq<Card>, picks: seq<nat>, slots: seq<nat>, lines: seq<string>, whole: seq<Card>,
                     pool: seq<Card>, asked: seq<Card>, marks: seq<nat>, pos: nat, score: nat,
                     g: nat, next: nat, answer: nat)
    requires Progress(fbPairs, picks, slots, lines, whole, pool, asked, marks, pos, score)
    requires |asked| < |picks| && |asked| < |slots| && next <= |lines|
    requires Choices(lines[pos..]) == [g] + Choices(lines[next..])
    requires picks[|asked|] < |pool| && answer == Answer(pool[picks[|asked|]].back, slots[|asked|])
    ensures var p := pool[picks[|asked|]];
            Progress(fbPairs, picks, slots, lines, whole, Lists.RemoveFirst(pool, p), asked + [p], marks + [g], next,
                     score + if g == answer then 1 else 0)
  {
    DrainStep(pool, picks, |asked|, asked, whole);
    ScoredStep(asked, pool[picks[|asked|]], slots, marks, g, score, answer);
    ChosenStep(lines, pos, next, marks, g);
  }

  /** After the last round: the rounds asked are the first picks, scored against the first choices. */
  lemma ProgressDone(fbPairs: seq<Card>, picks: seq<nat>, slots: seq<nat>, lines: seq<string>, whole: seq<Card>,
                     pool: seq<Card>, asked: seq<Card>, marks: seq<nat>, pos: nat, score: nat)
    requires Progress(fbPairs, picks, slots, lines, whole, pool, asked, marks, pos, score)
    ensures |asked| <= |whole| && |asked| <= |Choices(lines)| && |asked| <= |slots| && |asked| <= |fbPairs|
    ensures Choices(lines[pos..]) == [] ==> |asked| == |Choices(lines)|
    ensures score == Score(whole[..|asked|], slots, Choices(lines))
  {
    DrainedPrefix(pool, picks, |asked|, asked, whole);
    ChosenAll(lines, pos, marks);
    ScoreSameChoices(asked, slots, marks, Choices(lines));
  }

  /**
   * `while len(f_b_pairs) > 0`: a random remaining pair, its back written to a
   * random slot, the other options filled from the deck, then a pick; the
   * round scores when the pick is the answer's slot, and the pair is removed.
   * `picks`, `slots` and `locs` are the `randrange` results: one pick and one
   * slot per round, and as many fill locations as the fill uses. `lines` are
   * the replies typed. The quiz ends after every pair, or earlier when the
   * draws or the replies run out.
   */
  method MultipleChoiceRounds(deck: seq<Card>, fbPairs: seq<Card>, picks: seq<nat>, slots: seq<nat>,
                              locs: seq<nat>, lines: seq<string>)
    returns (score: nat, rounds: nat, usedLocs: nat)
    requires Lists.Distinct(fbPairs) && ValidDraws(|fbPairs|, picks)
    requires forall p :: p in fbPairs ==> p in deck
    requires InRange(4, slots) && |slots| == |picks| && InRange(4, locs)
    ensures rounds <= |picks| && rounds <= |Choices(lines)| && usedLocs <= |locs|
    ensures score == Score(Picks(fbPairs, picks)[..rounds], slots, Choices(lines))
    ensures score <= rounds <= |fbPairs|
    ensures rounds == |picks| || rounds == |Choices(lines)| || usedLocs == |locs|
  {
    var pool := fbPairs;
    var pos: nat := 0;
    var stalled := false;
    score, rounds, usedLocs := 0, 0, 0;
    ghost var asked: seq<Card> := [];
    ghost var marks: seq<nat> := [];
    ghost var whole := Picks(fbPairs, picks);
    DrawsBound(|fbPairs|, picks);
    var backs := Backs(deck);
    if fbPairs != [] {
      assert fbPairs[0] in deck;
    }
    assert |backs| > 0 || |fbPairs| == 0;
    while |pool| > 0 && rounds < |picks| && !stalled
      invariant Progress(fbPairs, picks, slots, lines, whole, pool, asked, marks, pos, score)
      invariant usedLocs <= |locs| && |asked| == rounds
      invariant stalled ==> usedLocs == |locs| || Choices(lines[pos..]) == []
      decreases |picks| - rounds, if stalled then 0 else 1
    {
      ProgressPick(fbPairs, picks, slots, lines, whole, pool, asked, marks, pos, score);
      var randomPair := pool[picks[rounds]];
      var guessTest, answer, used, next := AskRound(backs, randomPair.back, slots[rounds], locs[usedLocs..], lines, pos);
      usedLocs := usedLocs + used;
      if guessTest.None? {
        stalled := true;
      } else {
        ProgressStep(fbPairs, picks, slots, lines, whole, pool, asked, marks, pos, score, guessTest.value, next, answer);
        if guessTest.value == answer {
          score := score + 1;
        }
        pool := Lists.RemoveFirst(pool, randomPair);
        asked := asked + [randomPair];
        marks := marks + [guessTest.value];
        rounds := rounds + 1;
        pos := next;
      }
    }
    ProgressDone(fbPairs, picks, slots, lines, whole, pool, asked, marks, pos, score);
  }
}

/**
 * The rounds of `self_report_quiz` (quiz_self_report.py): the card is shown,
 * any reply reveals the answer, and the user says whether they knew it.
 */
module QuizSelfReport {
  import opened Wrappers
  import opened Cards
  import Lists
  import opened Draws

  /** The reply to "Did you guess correctly?": `"y"` counts, `"n"` does not, anything else asks again. */
  function Verdict(line: string): Option<bool> {
    if line == "y" then Some(true) else if line == "n" then Some(false) else None
  }

  /** None of the first `n` lines is `"y"` or `"n"`. */
  predicate NoVerdictBefore(lines: seq<string>, n: nat)
    requires n <= |lines|
  {
    forall j :: 0 <= j < n ==> Verdict(lines[j]).None?
  }

  /** The first line that is `"y"` or `"n"`, with what it says; `None` when there is none. */
  function NextVerdict(lines: seq<string>): (r: Option<(nat, bool)>)
    ensures r.Some? ==> r.value.0 < |lines| && Verdict(lines[r.value.0]) == Some(r.value.1)
    ensures r.Some? ==> NoVerdictBefore(lines, r.value.0)
    ensures r.None? ==> NoVerdictBefore(lines, |lines|)
  {
    if lines == [] then None
    else if Verdict(lines[0]).Some? then Some((0, Verdict(lines[0]).value))
    else
      match NextVerdict(lines[1..])
      case None => None
      case Some((j, b)) => Some((j + 1, b))
  }

  /**
   * The self-assessments a stream of replies gives: per round one reply that
   * reveals the answer, then lines up to the first `"y"` or `"n"`.
   */
  function Verdicts(lines: seq<string>): seq<bool>
    decreases |lines|
  {
    if lines == [] then []
    else
      var next := NextVerdict(lines[1..]);
      if next.None? then [] else [next.value.1] + Verdicts(lines[next.value.0 + 2..])
  }

  /** How many rounds were marked as known. */
  function CountTrue(marks: seq<bool>): (n: nat)
    ensures n <= |marks|
  {
    if marks == [] then 0
    else CountTrue(marks[..|marks| - 1]) + (if marks[|marks| - 1] then 1 else 0)
  }

  /** Every round counts exactly when every self-assessment is `y`. */
  lemma {:induction false} AllKnown(marks: seq<bool>)
    ensures CountTrue(marks) == |marks| <==> forall k :: 0 <= k < |marks| ==> marks[k]
  {
    if marks != [] {
      var k := |marks| - 1;
      AllKnown(marks[..k]);
      assert forall j :: 0 <= j < k ==> marks[..k][j] == marks[j];
    }
  }

  /** A round read from position `pos` of the stream. */
  lemma VerdictsAt(lines: seq<string>, pos: nat)
    requires pos < |lines|
    ensures NextVerdict(lines[pos + 1..]).None? ==> Verdicts(lines[pos..]) == []
    ensures NextVerdict(lines[pos + 1..]).Some? ==>
              var next := NextVerdict(lines[pos + 1..]).value;
              Verdicts(lines[pos..]) == [next.1] + Verdicts(lines[pos + next.0 + 2..])
  {
    assert lines[pos..][1..] == lines[pos + 1..];
    var next := NextVerdict(lines[pos + 1..]);
    if next.Some? {
      assert lines[pos..][next.value.0 + 2..] == lines[pos + next.value.0 + 2..];
    }
  }

  /** A reply other than `"y"` and `"n"` only makes the question come again. */
  lemma RepromptIgnored(response: string, junk: string, rest: seq<string>)
    requires Verdict(junk).None?
    ensures Verdicts([response, junk] + rest) == Verdicts([response] + rest)
  {
    var long := [response, junk] + rest;
    var short := [response] + rest;
    assert long[1..] == [junk] + rest && short[1..] == rest;
    SkipReply(junk, rest);
    var next := NextVerdict(rest);
    if next.Some? {
      assert long[next.value.0 + 3..] == rest[next.value.0 + 1..] == short[next.value.0 + 2..];
    }
  }

  /** Looking for the verdict past a line that is not one. */
  lemma SkipReply(junk: string, rest: seq<string>)
    requires Verdict(junk).None?
    ensures NextVerdict(rest).None? ==> NextVerdict([junk] + rest).None?
    ensures NextVerdict(rest).Some? ==>
              NextVerdict([junk] + rest) == Some((NextVerdict(rest).value.0 + 1, NextVerdict(rest).value.1))
  {
    assert ([junk] + rest)[1..] == rest;
  }

  /** What the user types to reveal the answer does not matter. */
  lemma AnyResponse(response: string, other: string, rest: seq<string>)
    ensures Verdicts([response] + rest) == Verdicts([other] + rest)
  {
    var one := [response] + rest;
    var two := [other] + rest;
    assert one[1..] == rest == two[1..];
    var next := NextVerdict(rest);
    if next.Some? {
      assert one[next.value.0 + 2..] == rest[next.value.0 + 1..] == two[next.value.0 + 2..];
    }
  }

  /**
   * `while len(response) >= 0 and not stop`: ask "Did you guess correctly?"
   * from line `pos` on until the reply is `"y"` or `"n"`. `next` is the first
   * line not read.
   */
  method AskVerdict(response: string, lines: seq<string>, pos: nat) returns (verdict: Option<bool>, next: nat)
    requires pos <= |lines|
    ensures next <= |lines|
    ensures NextVerdict(lines[pos..]).None? ==> verdict.None? && next == |lines|
    ensures NextVerdict(lines[pos..]).Some? ==>
              verdict == Some(NextVerdict(lines[pos..]).value.1) && next == pos + NextVerdict(lines[pos..]).value.0 + 1
  {
    var stop := false;
    verdict, next := None, pos;
    while |response| >= 0 && !stop && next < |lines|
      invariant pos <= next <= |lines|
      invariant forall j :: pos <= j < next - (if stop then 1 else 0) ==> Verdict(lines[j]).None?
      invariant stop ==> pos < next && verdict == Verdict(lines[next - 1]) && verdict.Some?
      invariant !stop ==> verdict.None?
    {
      var correctOrNot := lines[next];
      next := next + 1;
      if correctOrNot == "y" {
        verdict, stop := Some(true), true;
      } else if correctOrNot == "n" {
        verdict, stop := Some(false), true;
      }
    }
    assert forall j :: 0 <= j < next - pos - (if stop then 1 else 0) ==> lines[pos..][j] == lines[pos + j];
  }

  /**
   * One round's replies from line `pos` on: any reply reveals the answer, then
   * the self-assessment is asked for. The verdict is the next one of the
   * stream, and `next` is where the following round starts reading.
   */
  method ReportRound(lines: seq<string>, pos: nat) returns (verdict: Option<bool>, next: nat)
    requires pos <= |lines|
    ensures pos <= next <= |lines|
    ensures verdict.None? ==> next == |lines| && Verdicts(lines[pos..]) == []
    ensures verdict.Some? ==> Verdicts(lines[pos..]) == [verdict.value] + Verdicts(lines[next..])
  {
    if pos == |lines| {
      return None, pos;
    }
    var response := lines[pos];
    VerdictsAt(lines, pos);
    verdict, next := AskVerdict(response, lines, pos + 1);
  }

  /**
   * `while len(f_b_pairs) > 0`: show a random remaining pair, read any reply,
   * then the self-assessment; `"y"` scores, and either way the pair is removed.
   * `picks` are the `randrange` results and `lines` every reply typed. The
   * score is the number of rounds marked known, among as many rounds as
   * there are picks and completed self-assessments.
   */
  method SelfReportRounds(fbPairs: seq<Card>, picks: seq<nat>, lines: seq<string>) returns (score: nat, rounds: nat)
    requires Lists.Distinct(fbPairs) && ValidDraws(|fbPairs|, picks)
    ensures rounds == if |picks| <= |Verdicts(lines)| then |picks| else |Verdicts(lines)|
    ensures score == CountTrue(Verdicts(lines)[..rounds])
    ensures score <= rounds <= |fbPairs|
  {
    var pool := fbPairs;
    var pos: nat := 0;
    var stalled := false;
    score, rounds := 0, 0;
    ghost var asked: seq<Card> := [];
    ghost var marks: seq<bool> := [];
    ghost var whole := Picks(fbPairs, picks);
    DrawsBound(|fbPairs|, picks);
    while |pool| > 0 && rounds < |picks| && !stalled
      invariant |pool| == |fbPairs| - rounds && |marks| == rounds
      invariant Draining(pool, picks, rounds, asked, whole)
      invariant ReadUpTo(lines, pos, marks)
      invariant stalled ==> pos == |lines|
      invariant score == CountTrue(marks)
      decreases |picks| - rounds, if stalled then 0 else 1
    {
      DrainStep(pool, picks, rounds, asked, whole);
      var randomPair := pool[picks[rounds]];
      var verdict, next := ReportRound(lines, pos);
      if verdict.None? {
        stalled := true;
      } else {
        CountSnoc(marks, verdict.value);
        ReadStep(lines, pos, next, marks, verdict.value);
        if verdict.value {
          score := score + 1;
        }
        pool := Lists.RemoveFirst(pool, randomPair);
        asked := asked + [randomPair];
        marks := marks + [verdict.value];
        rounds := rounds + 1;
      }
      pos := next;
    }
    ReadAll(lines, pos, marks, stalled);
  }

  /** The marks of the rounds so far, followed by what the unread lines will give, are the whole stream's. */
  predicate ReadUpTo(lines: seq<string>, pos: nat, marks: seq<bool>) {
    pos <= |lines| && marks + Verdicts(lines[pos..]) == Verdicts(lines)
  }

  lemma ReadStep(lines: seq<string>, pos: nat, next: nat, marks: seq<bool>, b: bool)
    requires ReadUpTo(lines, pos, marks) && next <= |lines|
    requires Verdicts(lines[pos..]) == [b] + Verdicts(lines[next..])
    ensures ReadUpTo(lines, next, marks + [b])
  {
    Lists.Assoc(marks, [b], Verdicts(lines[next..]));
  }

  /** When the loop ends, the marks are the first verdicts of the stream, all of them when it stalled. */
  lemma ReadAll(lines: seq<string>, pos: nat, marks: seq<bool>, stalled: bool)
    requires ReadUpTo(lines, pos, marks) && (stalled ==> pos == |lines|)
    ensures |marks| <= |Verdicts(lines)| && Verdicts(lines)[..|marks|] == marks
    ensures stalled ==> |Verdicts(lines)| == |marks|
  {
    if stalled {
      assert lines[pos..] == [];
    }
  }

  lemma CountSnoc(marks: seq<bool>, b: bool)
    ensures CountTrue(marks + [b]) == CountTrue(marks) + (if b then 1 else 0)
  {
    assert (marks + [b])[..|marks|] == marks;
  }
}

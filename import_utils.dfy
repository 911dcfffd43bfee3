/**
 * The Quizlet text import parser (`import_quizlet_lineskip_fix`): raw export text
 * becomes a front -> back mapping plus the piece lists it dropped with a diagnostic.
 *
 * The file read, the diagnostic `print` and the `.json` write are left out; the
 * method takes the lines `readlines()` returned and gives back what the function
 * returns. The specification is `ParseQuizlet`, built from one function per pass.
 */
module ImportUtils {
  import opened Wrappers
  import opened Strings
  import Lists

  /** The only exception the parser raises on non-empty separators. */
  datatype ImportError = IndexError

  /** The resulting deck and, in order, the piece lists reported as "not included in the deck". */
  datatype Imported = Imported(deck: map<string, string>, skipped: seq<seq<string>>)

  // ---------------------------------------------------------------------------
  // Merge pass (only when the card separator is a line break)
  // ---------------------------------------------------------------------------

  /** How many leading segments contain `fbsep`: the `clean_counter` one scan reaches. */
  function CleanPrefix(segs: seq<string>, fbsep: string): (k: nat)
    requires |fbsep| > 0
    ensures k <= |segs|
    ensures forall j :: 0 <= j < k ==> Contains(segs[j], fbsep)
    ensures k < |segs| ==> !Contains(segs[k], fbsep)
  {
    if segs == [] || !Contains(segs[0], fbsep) then 0 else 1 + CleanPrefix(segs[1..], fbsep)
  }

  /**
   * Segment `j` is appended, after a line break, to the segment before it; for
   * `j == 0` Python's index -1 picks the last segment. With one segment the store
   * goes into an emptied list, which raises (None).
   */
  function MergeAt(segs: seq<string>, j: nat): (r: Option<seq<string>>)
    requires j < |segs|
    ensures r.None? <==> |segs| == 1
    ensures r.Some? ==> |r.value| == |segs| - 1
  {
    if |segs| == 1 then None
    else if j == 0 then Some(segs[1..|segs| - 1] + [segs[|segs| - 1] + "\n" + segs[0]])
    else Some(segs[..j - 1] + [segs[j - 1] + "\n" + segs[j]] + segs[j + 1..])
  }

  /** Repeat the scan-and-merge until every segment contains `fbsep`; None if it raises. */
  function MergeContinuations(segs: seq<string>, fbsep: string): (r: Option<seq<string>>)
    requires |fbsep| > 0
    ensures r.Some? ==> |r.value| <= |segs|
    ensures r.Some? ==> forall k :: 0 <= k < |r.value| ==> Contains(r.value[k], fbsep)
    decreases |segs|
  {
    var k := CleanPrefix(segs, fbsep);
    if k == |segs| then Some(segs)
    else
      match MergeAt(segs, k)
      case None => None
      case Some(next) => MergeContinuations(next, fbsep)
  }

  // ---------------------------------------------------------------------------
  // Overflow pass
  // ---------------------------------------------------------------------------

  /** Segment `i` has more than one `fbsep`, so its last one is to become a line break. */
  predicate Overflows(seg: string, fbsep: string)
    requires |fbsep| > 0
  {
    Count(seg, fbsep) > 1
  }

  /** The loop body at index `i`: the result is stored at `data3.index(itm1)`. */
  function OverflowStep(segs: seq<string>, fbsep: string, i: nat): (r: seq<string>)
    requires |fbsep| > 0 && i < |segs|
    ensures |r| == |segs|
  {
    if Overflows(segs[i], fbsep)
    then segs[Lists.FirstIndexOf(segs, segs[i]) := ReplaceLast(segs[i], fbsep)]
    else segs
  }

  /** The loop from index `i` to the end. */
  function OverflowFrom(segs: seq<string>, fbsep: string, i: nat): (r: seq<string>)
    requires |fbsep| > 0
    ensures |r| == |segs|
    decreases |segs| - i
  {
    if i >= |segs| then segs else OverflowFrom(OverflowStep(segs, fbsep, i), fbsep, i + 1)
  }

  /** What the overflow pass does to one segment on its own. */
  function Resolved(seg: string, fbsep: string): string
    requires |fbsep| > 0
  {
    if Overflows(seg, fbsep) then ReplaceLast(seg, fbsep) else seg
  }

  /** Each segment resolved on its own. */
  function ResolvedAll(segs: seq<string>, fbsep: string): (r: seq<string>)
    requires |fbsep| > 0
    ensures |r| == |segs| && forall k :: 0 <= k < |r| ==> r[k] == Resolved(segs[k], fbsep)
  {
    if segs == [] then []
    else ResolvedAll(segs[..|segs| - 1], fbsep) + [Resolved(segs[|segs| - 1], fbsep)]
  }

  // ---------------------------------------------------------------------------
  // Pair split, validation and assembly
  // ---------------------------------------------------------------------------

  /** Segments that are neither "" nor a bare line break. */
  predicate NonBlank(seg: string) {
    seg != "" && seg != "\n"
  }

  /** `data4`: every non-blank segment split on every `fbsep`. */
  function PieceLists(segs: seq<string>, fbsep: string): (r: seq<seq<string>>)
    requires |fbsep| > 0
    ensures |r| == |segs| - multiset(segs)[""] - multiset(segs)["\n"]
    ensures forall i, p :: 0 <= i < |r| && 0 <= p < |r[i]| ==> !Contains(r[i][p], fbsep)
  {
    if segs == [] then []
    else
      var init := PieceLists(segs[..|segs| - 1], fbsep);
      var last := segs[|segs| - 1];
      assert segs == segs[..|segs| - 1] + [last];
      if NonBlank(last) then init + [Split(last, fbsep)] else init
  }

  /** Every non-blank segment contributes its split, and every list is one such split. */
  lemma {:induction false} PieceListsKeepAll(segs: seq<string>, fbsep: string)
    requires |fbsep| > 0
    ensures forall k :: 0 <= k < |segs| && NonBlank(segs[k]) ==> Split(segs[k], fbsep) in PieceLists(segs, fbsep)
    ensures forall i :: 0 <= i < |PieceLists(segs, fbsep)| ==>
      exists k :: 0 <= k < |segs| && NonBlank(segs[k]) && PieceLists(segs, fbsep)[i] == Split(segs[k], fbsep)
  {
    if segs != [] {
      var n := |segs| - 1;
      var init := segs[..n];
      PieceListsKeepAll(init, fbsep);
      var r := PieceLists(segs, fbsep);
      var ri := PieceLists(init, fbsep);
      assert r == if NonBlank(segs[n]) then ri + [Split(segs[n], fbsep)] else ri;
      assert forall i :: 0 <= i < |ri| ==> r[i] == ri[i];
      forall k | 0 <= k < |segs| && NonBlank(segs[k]) ensures Split(segs[k], fbsep) in r {
        if k < n {
          assert init[k] == segs[k];
        }
      }
      forall i | 0 <= i < |r| ensures exists k :: 0 <= k < |segs| && NonBlank(segs[k]) && r[i] == Split(segs[k], fbsep) {
        if i < |ri| {
          var k :| 0 <= k < n && NonBlank(init[k]) && ri[i] == Split(init[k], fbsep);
          assert segs[k] == init[k];
        } else {
          assert NonBlank(segs[n]) && r[i] == Split(segs[n], fbsep);
        }
      }
    } else {
      assert PieceLists(segs, fbsep) == [];
    }
  }

  /** A text of blank segments only gives no lists, so nothing is reported. */
  lemma BlankSegmentsGiveNothing(segs: seq<string>, fbsep: string)
    requires |fbsep| > 0
    requires forall k :: 0 <= k < |segs| ==> !NonBlank(segs[k])
    ensures PieceLists(segs, fbsep) == [] && Skipped(PieceLists(segs, fbsep)) == []
  {
    PieceListsKeepAll(segs, fbsep);
  }

  /** `data5`: the two-piece lists, as (front, back). */
  function Pairs(lists: seq<seq<string>>): (r: seq<(string, string)>)
    ensures |r| <= |lists|
    ensures forall k :: 0 <= k < |r| ==> exists i :: 0 <= i < |lists| && lists[i] == [r[k].0, r[k].1]
    ensures forall i :: 0 <= i < |lists| && |lists[i]| == 2 ==> (lists[i][0], lists[i][1]) in r
  {
    if lists == [] then []
    else
      var init := Pairs(lists[..|lists| - 1]);
      var last := lists[|lists| - 1];
      if |last| == 2 then
        var r := init + [(last[0], last[1])];
        assert forall k :: 0 <= k < |init| ==> r[k] == init[k];
        r
      else init
  }

  /** The lists reported and left out: every one whose length is not 2, in order. */
  function Skipped(lists: seq<seq<string>>): (r: seq<seq<string>>)
    ensures forall k :: 0 <= k < |r| ==> |r[k]| != 2
    ensures forall i :: 0 <= i < |lists| && |lists[i]| != 2 ==> lists[i] in r
    ensures |Pairs(lists)| + |r| == |lists|
  {
    if lists == [] then []
    else
      var last := lists[|lists| - 1];
      Skipped(lists[..|lists| - 1]) + (if |last| == 2 then [] else [last])
  }

  /** `dict(pairs)`: the pairs stored in order into an empty dictionary. */
  function DictOf(pairs: seq<(string, string)>): map<string, string> {
    if pairs == [] then map[]
    else
      var last := pairs[|pairs| - 1];
      DictOf(pairs[..|pairs| - 1])[last.0 := last.1]
  }

  /**
   * Every front becomes a key, every entry comes from a pair, and a repeated front
   * keeps the back of its last pair.
   */
  lemma {:induction false} DictOfSpec(pairs: seq<(string, string)>)
    ensures forall k :: 0 <= k < |pairs| ==> pairs[k].0 in DictOf(pairs)
    ensures forall f :: f in DictOf(pairs) ==> exists k :: 0 <= k < |pairs| && pairs[k] == (f, DictOf(pairs)[f])
    ensures forall k :: 0 <= k < |pairs| && (forall j :: k < j < |pairs| ==> pairs[j].0 != pairs[k].0)
              ==> DictOf(pairs)[pairs[k].0] == pairs[k].1
  {
    if pairs != [] {
      var n := |pairs| - 1;
      var init := pairs[..n];
      DictOfSpec(init);
      var m := DictOf(pairs);
      assert m == DictOf(init)[pairs[n].0 := pairs[n].1];
      forall k | 0 <= k < n ensures pairs[k].0 in m {
        assert init[k] == pairs[k];
      }
      forall f | f in m ensures exists k :: 0 <= k < |pairs| && pairs[k] == (f, m[f]) {
        if f != pairs[n].0 {
          var k :| 0 <= k < n && init[k] == (f, DictOf(init)[f]);
          assert pairs[k] == (f, m[f]);
        } else {
          assert pairs[n] == (f, m[f]);
        }
      }
      forall k | 0 <= k < |pairs| && (forall j :: k < j < |pairs| ==> pairs[j].0 != pairs[k].0)
        ensures m[pairs[k].0] == pairs[k].1
      {
        if k < n {
          assert init[k] == pairs[k];
          assert pairs[n].0 != pairs[k].0;
          assert forall j :: k < j < n ==> init[j].0 != init[k].0 by {
            forall j | k < j < n ensures init[j].0 != init[k].0 {
              assert init[j] == pairs[j];
            }
          }
        }
      }
    }
  }

  // ---------------------------------------------------------------------------
  // The whole parser
  // ---------------------------------------------------------------------------

  /** Lines 24-59 of the parser on the whole text. */
  function ParseQuizlet(text: string, fbsep: string, cardsep: string): Result<Imported, ImportError>
    requires |fbsep| > 0 && |cardsep| > 0
  {
    var data3 := Split(text, cardsep);
    var merged := if cardsep == "\n" then MergeContinuations(data3, fbsep) else Some(data3);
    match merged
    case None => Err(IndexError)
    case Some(segs) =>
      var data4 := PieceLists(OverflowFrom(segs, fbsep, 0), fbsep);
      Ok(Imported(DictOf(Pairs(data4)), Skipped(data4)))
  }

  /** `"".join(lines)` as the accumulation loop builds it. */
  function Concat(lines: seq<string>): string {
    if lines == [] then "" else Concat(lines[..|lines| - 1]) + lines[|lines| - 1]
  }

  /** Python's resolution of a list index: negative indices count from the end. */
  function PyIndex(i: int, len: nat): (r: Option<nat>)
    ensures r.Some? ==> r.value < len
  {
    if 0 <= i < len then Some(i) else if 0 <= i + len < len then Some(i + len) else None
  }

  /**
   * One scan of the merge loop's inner `for`: count leading segments that contain
   * `fbsep` and, at the first that does not, run
   * `data3[data3.index(itm0) - 1] += "\n" + data3.pop(data3.index(itm0))` and break.
   * `next` is None when that store raises.
   */
  method ScanAndMerge(data3: seq<string>, fbsep: string)
    returns (next: Option<seq<string>>, cleanCounter: nat, merged: bool)
    requires |fbsep| > 0 && |data3| >= 1
    ensures cleanCounter == CleanPrefix(data3, fbsep)
    ensures merged <==> cleanCounter < |data3|
    ensures next == if merged then MergeAt(data3, cleanCounter) else Some(data3)
  {
    cleanCounter := 0;
    merged := false;
    next := Some(data3);
    var j := 0;
    while j < |data3| && !merged
      invariant 0 <= j <= |data3|
      invariant !merged ==> next == Some(data3) && cleanCounter == j
      invariant !merged ==> forall k :: 0 <= k < j ==> Contains(data3[k], fbsep)
      invariant merged ==> cleanCounter == CleanPrefix(data3, fbsep) < |data3|
      invariant merged ==> next == MergeAt(data3, cleanCounter)
      decreases |data3| - j
    {
      var itm0 := data3[j];
      if !Contains(itm0, fbsep) {
        var idx := Lists.FirstIndexOf(data3, itm0);
        assert idx == j by {
          forall k | 0 <= k < j ensures data3[k] != itm0 { }
        }
        assert CleanPrefix(data3, fbsep) == j;
        var readAt := PyIndex(idx as int - 1, |data3|);
        var prefix := data3[readAt.value];
        var popped := data3[idx];
        var rest := data3[..idx] + data3[idx + 1..];
        var storeAt := PyIndex(idx as int - 1, |rest|);
        if storeAt.None? {
          next := None;
        } else {
          next := Some(rest[storeAt.value := prefix + "\n" + popped]);
          if idx == 0 {
            PopFirstThenStoreLast(data3, prefix + "\n" + popped);
          } else {
            PopThenStore(data3, j, prefix + "\n" + popped);
          }
        }
        merged := true;
      } else {
        cleanCounter := cleanCounter + 1;
      }
      j := j + 1;
    }
  }

  /** `pop(j)` followed by a store at `j - 1` is a splice. */
  lemma PopThenStore<T>(s: seq<T>, j: nat, x: T)
    requires 1 <= j < |s|
    ensures (s[..j] + s[j + 1..])[j - 1 := x] == s[..j - 1] + [x] + s[j + 1..]
  {
    var a := (s[..j] + s[j + 1..])[j - 1 := x];
    var b := s[..j - 1] + [x] + s[j + 1..];
    assert |a| == |b|;
    forall m | 0 <= m < |a| ensures a[m] == b[m] {
      if m < j - 1 {
      } else if m == j - 1 {
      } else {
        assert a[m] == s[m + 1];
      }
    }
  }

  /** `pop(0)` followed by a store at index -1 replaces the last element. */
  lemma PopFirstThenStoreLast<T>(s: seq<T>, x: T)
    requires |s| >= 2
    ensures (s[..0] + s[1..])[|s| - 2 := x] == s[1..|s| - 1] + [x]
  {
    var a := (s[..0] + s[1..])[|s| - 2 := x];
    var b := s[1..|s| - 1] + [x];
    assert |a| == |b|;
    forall m | 0 <= m < |a| ensures a[m] == b[m] {
      if m < |s| - 2 {
        assert a[m] == s[m + 1];
      }
    }
  }

  /** A merge at the last segment leaves every segment containing `fbsep`. */
  lemma MergeLastDone(segs: seq<string>, fbsep: string)
    requires |fbsep| > 0 && |segs| >= 2
    requires CleanPrefix(segs, fbsep) == |segs| - 1
    ensures MergeAt(segs, |segs| - 1).Some?
    ensures CleanPrefix(MergeAt(segs, |segs| - 1).value, fbsep) == |segs| - 1
  {
    var k := |segs| - 1;
    var next := MergeAt(segs, k).value;
    forall m | 0 <= m < |next| ensures Contains(next[m], fbsep) {
      if m == k - 1 {
        ContainsAppend(segs[k - 1], "\n" + segs[k], fbsep);
        assert next[m] == segs[k - 1] + ("\n" + segs[k]);
      } else {
        assert next[m] == segs[m];
      }
    }
    CleanPrefixAll(next, fbsep);
  }

  /** When every segment contains `fbsep`, the scan counts them all. */
  lemma {:induction false} CleanPrefixAll(segs: seq<string>, fbsep: string)
    requires |fbsep| > 0
    requires forall m :: 0 <= m < |segs| ==> Contains(segs[m], fbsep)
    ensures CleanPrefix(segs, fbsep) == |segs|
  {
    if segs != [] {
      CleanPrefixAll(segs[1..], fbsep);
    }
  }

  /** Lines 31-40: rescan and merge until a scan counts every segment. */
  method MergePass(split: seq<string>, fbsep: string) returns (r: Option<seq<string>>)
    requires |fbsep| > 0 && |split| >= 1
    ensures r == MergeContinuations(split, fbsep)
  {
    var data3 := split;
    var cleanCounter := 0;
    while cleanCounter < |data3|
      invariant |data3| >= 1
      invariant MergeContinuations(data3, fbsep) == MergeContinuations(split, fbsep)
      invariant cleanCounter <= |data3|
      invariant cleanCounter == |data3| ==> CleanPrefix(data3, fbsep) == |data3|
      decreases |data3|, |data3| - cleanCounter
    {
      var next, merged;
      ghost var before := data3;
      next, cleanCounter, merged := ScanAndMerge(data3, fbsep);
      if next.None? {
        return None;
      }
      data3 := next.value;
      if merged && cleanCounter == |data3| {
        MergeLastDone(before, fbsep);
      }
    }
    r := Some(data3);
  }

  /** Lines 42-45: the overflow loop, storing at `data3.index(itm1)`. */
  method OverflowPass(segs: seq<string>, fbsep: string) returns (data3: seq<string>)
    requires |fbsep| > 0
    ensures data3 == OverflowFrom(segs, fbsep, 0)
  {
    data3 := segs;
    for i := 0 to |data3|
      invariant |data3| == |segs|
      invariant OverflowFrom(data3, fbsep, i) == OverflowFrom(segs, fbsep, 0)
    {
      var itm1 := data3[i];
      if Count(itm1, fbsep) > 1 {
        data3 := data3[Lists.FirstIndexOf(data3, itm1) := ReplaceLast(itm1, fbsep)];
      }
    }
  }

  /** Lines 47-57: split the non-blank segments, then keep the two-piece lists. */
  method SplitPass(data3: seq<string>, fbsep: string)
    returns (data5: seq<(string, string)>, skipped: seq<seq<string>>)
    requires |fbsep| > 0
    ensures data5 == Pairs(PieceLists(data3, fbsep))
    ensures skipped == Skipped(PieceLists(data3, fbsep))
  {
    var data4: seq<seq<string>> := [];
    for i := 0 to |data3|
      invariant data4 == PieceLists(data3[..i], fbsep)
    {
      assert data3[..i + 1][..i] == data3[..i];
      var itm2 := data3[i];
      if itm2 != "" && itm2 != "\n" {
        data4 := data4 + [Split(itm2, fbsep)];
      }
    }
    assert data3[..|data3|] == data3;
    data5 := [];
    skipped := [];
    for i := 0 to |data4|
      invariant data5 == Pairs(data4[..i]) && skipped == Skipped(data4[..i])
    {
      assert data4[..i + 1][..i] == data4[..i];
      var itm3 := data4[i];
      if |itm3| != 2 {
        skipped := skipped + [itm3];
      } else {
        data5 := data5 + [(itm3[0], itm3[1])];
      }
    }
    assert data4[..|data4|] == data4;
  }

  /** The parser as the source runs it, pass by pass, on a Python-style list. */
  method ImportQuizletLineskipFix(lines: seq<string>, fbsep: string, cardsep: string)
    returns (r: Result<Imported, ImportError>)
    requires |fbsep| > 0 && |cardsep| > 0
    ensures r == ParseQuizlet(Concat(lines), fbsep, cardsep)
  {
    var data1 := "";
    for i := 0 to |lines|
      invariant data1 == Concat(lines[..i])
    {
      assert lines[..i + 1][..i] == lines[..i];
      data1 := data1 + lines[i];
    }
    assert lines[..|lines|] == lines;
    var data3 := Split(data1, cardsep);
    if cardsep == "\n" {
      var merged := MergePass(data3, fbsep);
      if merged.None? {
        return Err(IndexError);
      }
      data3 := merged.value;
    }
    data3 := OverflowPass(data3, fbsep);
    var data5, skipped := SplitPass(data3, fbsep);
    r := Ok(Imported(DictOf(data5), skipped));
  }

  // ---------------------------------------------------------------------------
  // Properties
  // ---------------------------------------------------------------------------

  /**
   * When the first line holds a separator the merge pass never raises, and it only
   * turns card separators back into the line breaks they were: the text is kept.
   */
  lemma {:induction false} MergeKeepsText(segs: seq<string>, fbsep: string)
    requires |fbsep| > 0 && |segs| >= 1 && Contains(segs[0], fbsep)
    ensures MergeContinuations(segs, fbsep).Some?
    ensures Join(MergeContinuations(segs, fbsep).value, "\n") == Join(segs, "\n")
    decreases |segs|
  {
    var k := CleanPrefix(segs, fbsep);
    if k < |segs| {
      var next := MergeAt(segs, k).value;
      assert segs == segs[..k - 1] + [segs[k - 1], segs[k]] + segs[k + 1..];
      JoinGlue(segs[..k - 1], segs[k - 1], segs[k], segs[k + 1..], "\n");
      if k == 1 {
        ContainsAppend(segs[0], "\n" + segs[1], fbsep);
        assert next[0] == segs[0] + ("\n" + segs[1]);
      } else {
        assert next[0] == segs[0];
      }
      MergeKeepsText(next, fbsep);
    }
  }

  /**
   * A first line without a separator is moved to the end, appended after a line
   * break to the last line (Python's index -1).
   */
  lemma MergeRotatesFirst(segs: seq<string>, fbsep: string)
    requires |fbsep| > 0 && |segs| >= 2 && !Contains(segs[0], fbsep)
    ensures CleanPrefix(segs, fbsep) == 0
    ensures MergeAt(segs, 0).Some?
    ensures Join(MergeAt(segs, 0).value, "\n") == Join(segs[1..], "\n") + "\n" + segs[0]
  {
    var n := |segs|;
    assert segs[1..] == segs[1..n - 1] + [segs[n - 1]];
    JoinExtendLast(segs[1..n - 1], segs[n - 1], segs[0], "\n");
  }

  /** The merge pass succeeds as soon as any segment holds the separator. */
  lemma {:induction false} MergeSucceedsWithSeparator(segs: seq<string>, fbsep: string, m: nat)
    requires |fbsep| > 0 && m < |segs| && Contains(segs[m], fbsep)
    ensures MergeContinuations(segs, fbsep).Some?
    decreases |segs|
  {
    var k := CleanPrefix(segs, fbsep);
    var n := |segs|;
    if k == 0 {
      var next := MergeAt(segs, 0).value;
      if m < n - 1 {
        assert next[m - 1] == segs[m];
        MergeSucceedsWithSeparator(next, fbsep, m - 1);
      } else {
        ContainsAppend(segs[n - 1], "\n" + segs[0], fbsep);
        assert next[n - 2] == segs[n - 1] + ("\n" + segs[0]);
        MergeSucceedsWithSeparator(next, fbsep, n - 2);
      }
    } else if k < n {
      MergeKeepsText(segs, fbsep);
    }
  }

  /**
   * With a one-character separator other than a line break, segments that all lack
   * it stay that way under every merge, until one is left and the store raises.
   */
  lemma {:induction false} MergeRaisesWithoutSeparator(segs: seq<string>, c: char)
    requires c != '\n' && |segs| >= 1
    requires forall m :: 0 <= m < |segs| ==> c !in segs[m]
    ensures MergeContinuations(segs, [c]) == None
    decreases |segs|
  {
    ContainsChar(segs[0], c);
    if |segs| > 1 {
      var n := |segs|;
      var next := MergeAt(segs, 0).value;
      forall m | 0 <= m < |next| ensures c !in next[m] {
        if m < n - 2 {
          assert next[m] == segs[m + 1];
        } else {
          assert next[m] == segs[n - 1] + "\n" + segs[0];
        }
      }
      MergeRaisesWithoutSeparator(next, c);
    }
  }

  /**
   * In line-break mode with a one-character field separator other than a line
   * break, the parser raises exactly when the separator does not occur in the text.
   */
  lemma ParseRaisesIff(text: string, c: char)
    requires c != '\n'
    ensures ParseQuizlet(text, [c], "\n").Err? <==> c !in text
  {
    var segs := Split(text, "\n");
    InSplit(text, "\n", c);
    if c in text {
      var m :| 0 <= m < |segs| && c in segs[m];
      ContainsChar(segs[m], c);
      MergeSucceedsWithSeparator(segs, [c], m);
    } else {
      MergeRaisesWithoutSeparator(segs, c);
    }
  }

  /** Only line-break mode can raise, and only when no line holds the separator. */
  lemma RaisesOnlyWithoutSeparator(text: string, fbsep: string, cardsep: string)
    requires |fbsep| > 0 && |cardsep| > 0
    requires ParseQuizlet(text, fbsep, cardsep).Err?
    ensures cardsep == "\n"
    ensures forall m :: 0 <= m < |Split(text, "\n")| ==> !Contains(Split(text, "\n")[m], fbsep)
  {
    forall m | 0 <= m < |Split(text, "\n")| ensures !Contains(Split(text, "\n")[m], fbsep) {
      if Contains(Split(text, "\n")[m], fbsep) {
        MergeSucceedsWithSeparator(Split(text, "\n"), fbsep, m);
      }
    }
  }

  /** No front and no back of an imported card holds the field separator. */
  lemma NoSeparatorInCards(text: string, fbsep: string, cardsep: string)
    requires |fbsep| > 0 && |cardsep| > 0
    requires ParseQuizlet(text, fbsep, cardsep).Ok?
    ensures var deck := ParseQuizlet(text, fbsep, cardsep).value.deck;
      forall f :: f in deck ==> !Contains(f, fbsep) && !Contains(deck[f], fbsep)
  {
    var data3 := Split(text, cardsep);
    var segs := (if cardsep == "\n" then MergeContinuations(data3, fbsep) else Some(data3)).value;
    var data4 := PieceLists(OverflowFrom(segs, fbsep, 0), fbsep);
    var pairs := Pairs(data4);
    var deck := DictOf(pairs);
    DictOfSpec(pairs);
    forall f | f in deck ensures !Contains(f, fbsep) && !Contains(deck[f], fbsep) {
      var k :| 0 <= k < |pairs| && pairs[k] == (f, deck[f]);
      var i :| 0 <= i < |data4| && data4[i] == [f, deck[f]];
      assert data4[i][0] == f && data4[i][1] == deck[f];
    }
  }

  /** One step of the overflow loop, in multiset terms. */
  lemma OverflowStepMultiset(segs: seq<string>, fbsep: string, i: nat)
    requires |fbsep| > 0 && i < |segs|
    ensures multiset(OverflowStep(segs, fbsep, i))
      == multiset(segs) - multiset{segs[i]} + multiset{Resolved(segs[i], fbsep)}
    ensures forall k :: i < k < |segs| ==> OverflowStep(segs, fbsep, i)[k] == segs[k]
  {
    if Overflows(segs[i], fbsep) {
      var j := Lists.FirstIndexOf(segs, segs[i]);
      assert j <= i;
      assert multiset(segs[j := ReplaceLast(segs[i], fbsep)])
        == multiset(segs) - multiset{segs[j]} + multiset{ReplaceLast(segs[i], fbsep)};
    }
  }

  /** Resolving one more segment extends the resolved prefix by one. */
  lemma ResolvedAllSnoc(segs: seq<string>, fbsep: string, i: nat)
    requires |fbsep| > 0 && i < |segs|
    ensures ResolvedAll(segs[..i + 1], fbsep) == ResolvedAll(segs[..i], fbsep) + [Resolved(segs[i], fbsep)]
  {
    assert segs[..i + 1][..i] == segs[..i];
  }

  /**
   * The multiset bookkeeping of one overflow step: the element at `i` of the
   * unprocessed part is swapped for `y`, which joins the processed part.
   */
  lemma SnocExchange<T>(orig: seq<T>, cur: seq<T>, next: seq<T>, done: seq<T>, i: nat, y: T)
    requires i < |orig| && i < |cur| && cur[i] == orig[i]
    requires multiset(cur) == multiset(done) + multiset(orig[i..])
    requires multiset(next) == multiset(cur) - multiset{cur[i]} + multiset{y}
    ensures multiset(next) == multiset(done + [y]) + multiset(orig[i + 1..])
  {
    assert orig[i..] == [orig[i]] + orig[i + 1..];
    assert multiset(done + [y]) == multiset(done) + multiset{y};
  }

  /** One step of the overflow loop keeps the multiset invariant of `OverflowFromMultiset`. */
  lemma OverflowStepKeeps(orig: seq<string>, cur: seq<string>, fbsep: string, i: nat)
    requires |fbsep| > 0 && i < |orig| == |cur|
    requires forall k :: i <= k < |orig| ==> cur[k] == orig[k]
    requires multiset(cur) == multiset(ResolvedAll(orig[..i], fbsep)) + multiset(orig[i..])
    ensures |OverflowStep(cur, fbsep, i)| == |orig|
    ensures forall k :: i + 1 <= k < |orig| ==> OverflowStep(cur, fbsep, i)[k] == orig[k]
    ensures multiset(OverflowStep(cur, fbsep, i))
      == multiset(ResolvedAll(orig[..i + 1], fbsep)) + multiset(orig[i + 1..])
  {
    OverflowStepMultiset(cur, fbsep, i);
    ResolvedAllSnoc(orig, fbsep, i);
    SnocExchange(orig, cur, OverflowStep(cur, fbsep, i), ResolvedAll(orig[..i], fbsep), i, Resolved(orig[i], fbsep));
  }

  lemma {:induction false} OverflowFromMultiset(orig: seq<string>, cur: seq<string>, fbsep: string, i: nat)
    requires |fbsep| > 0 && i <= |orig| == |cur|
    requires forall k :: i <= k < |orig| ==> cur[k] == orig[k]
    requires multiset(cur) == multiset(ResolvedAll(orig[..i], fbsep)) + multiset(orig[i..])
    ensures multiset(OverflowFrom(cur, fbsep, i)) == multiset(ResolvedAll(orig, fbsep))
    decreases |orig| - i
  {
    if i == |orig| {
      assert orig[..i] == orig;
    } else {
      OverflowStepKeeps(orig, cur, fbsep, i);
      OverflowFromMultiset(orig, OverflowStep(cur, fbsep, i), fbsep, i + 1);
    }
  }


  /**
   * The overflow pass resolves every segment exactly once, though not always in
   * place: its result is a rearrangement of the segments each resolved on its own.
   */
  lemma OverflowKeepsMultiset(segs: seq<string>, fbsep: string)
    requires |fbsep| > 0
    ensures multiset(OverflowFrom(segs, fbsep, 0)) == multiset(ResolvedAll(segs, fbsep))
  {
    OverflowFromMultiset(segs, segs, fbsep, 0);
  }

  /**
   * Storing `res[i]` at `cur.index(cur[i])` when no element equals an earlier one
   * or an earlier one's replacement: the store lands on position `i` itself.
   */
  lemma StoreFirstInPlace<T>(orig: seq<T>, res: seq<T>, cur: seq<T>, i: nat)
    requires |res| == |orig| && i < |orig|
    requires forall a, b :: 0 <= a < b < |orig| ==> orig[b] != orig[a] && orig[b] != res[a]
    requires cur == res[..i] + orig[i..]
    ensures cur[Lists.FirstIndexOf(cur, cur[i]) := res[i]] == res[..i + 1] + orig[i + 1..]
  {
    assert cur[i] == orig[i];
    forall k | 0 <= k < i ensures cur[k] != cur[i] {
      assert cur[k] == res[k];
    }
    assert Lists.FirstIndexOf(cur, cur[i]) == i;
  }

  /** The overflow step always stores the resolved segment at its first copy. */
  lemma OverflowStepStore(segs: seq<string>, fbsep: string, i: nat)
    requires |fbsep| > 0 && i < |segs|
    ensures OverflowStep(segs, fbsep, i) == segs[Lists.FirstIndexOf(segs, segs[i]) := Resolved(segs[i], fbsep)]
  {
  }

  /**
   * One step of the overflow loop changes at most one position: the first copy of
   * segment `i`, at or before `i`, which receives segment `i` resolved.
   */
  lemma OverflowStepChangesOne(segs: seq<string>, fbsep: string, i: nat)
    requires |fbsep| > 0 && i < |segs|
    ensures exists j :: (0 <= j <= i && segs[j] == segs[i] && (forall k :: 0 <= k < j ==> segs[k] != segs[i]) &&
                         OverflowStep(segs, fbsep, i)[j] == Resolved(segs[i], fbsep) &&
                         (forall k :: 0 <= k < |segs| && k != j ==> OverflowStep(segs, fbsep, i)[k] == segs[k]))
  {
    var j := Lists.FirstIndexOf(segs, segs[i]);
    OverflowStepStore(segs, fbsep, i);
    assert j <= i;
  }

  /** One step of the overflow loop on a partly resolved list resolves the next segment in place. */
  lemma OverflowStepInPlace(orig: seq<string>, res: seq<string>, cur: seq<string>, fbsep: string, i: nat)
    requires |fbsep| > 0 && i < |orig| && res == ResolvedAll(orig, fbsep)
    requires forall a, b :: 0 <= a < b < |orig| ==> orig[b] != orig[a] && orig[b] != res[a]
    requires cur == res[..i] + orig[i..]
    ensures OverflowStep(cur, fbsep, i) == res[..i + 1] + orig[i + 1..]
  {
    assert cur[i] == orig[i];
    OverflowStepStore(cur, fbsep, i);
    StoreFirstInPlace(orig, res, cur, i);
  }

  lemma {:induction false} OverflowFromInPlace(orig: seq<string>, res: seq<string>, cur: seq<string>, fbsep: string, i: nat)
    requires |fbsep| > 0 && i <= |orig| && res == ResolvedAll(orig, fbsep)
    requires forall a, b :: 0 <= a < b < |orig| ==> orig[b] != orig[a] && orig[b] != res[a]
    requires cur == res[..i] + orig[i..]
    ensures OverflowFrom(cur, fbsep, i) == res
    decreases |orig| - i
  {
    if i == |orig| {
      assert res[..i] == res && orig[i..] == [];
    } else {
      OverflowStepInPlace(orig, res, cur, fbsep, i);
      OverflowFromInPlace(orig, res, OverflowStep(cur, fbsep, i), fbsep, i + 1);
    }
  }

  /**
   * When no segment equals an earlier one or an earlier one's replacement, the
   * `data3.index(itm1)` store hits the segment itself and the pass is positional.
   */
  lemma OverflowInPlace(segs: seq<string>, fbsep: string)
    requires |fbsep| > 0
    requires forall a, b :: 0 <= a < b < |segs| ==> segs[b] != segs[a] && segs[b] != Resolved(segs[a], fbsep)
    ensures OverflowFrom(segs, fbsep, 0) == ResolvedAll(segs, fbsep)
  {
    var res := ResolvedAll(segs, fbsep);
    assert res[..0] + segs[0..] == segs;
    OverflowFromInPlace(segs, res, segs, fbsep, 0);
  }

  /**
   * With a one-character separator other than a line break, a resolved segment
   * splits into one piece more than its separators if it had at most one, else
   * into as many pieces as it had separators: it becomes a card exactly when it had
   * one or two.
   */
  lemma ResolvedPieces(seg: string, c: char)
    requires c != '\n'
    ensures |Split(Resolved(seg, [c]), [c])|
      == if Count(seg, [c]) <= 1 then Count(seg, [c]) + 1 else Count(seg, [c])
    ensures |Split(Resolved(seg, [c]), [c])| == 2 <==> 1 <= Count(seg, [c]) <= 2
  {
    SplitLength(Resolved(seg, [c]), [c]);
    if Overflows(seg, [c]) {
      ReplaceLastCount(seg, c);
    }
  }

  // ---------------------------------------------------------------------------
  // Worked cases
  // ---------------------------------------------------------------------------

  /** The parser on an empty file in line-break mode raises. */
  lemma EmptyTextRaises(fbsep: string)
    requires |fbsep| > 0
    ensures ParseQuizlet("", fbsep, "\n") == Err(IndexError)
  {
    assert Split("", "\n") == [""];
    assert !Contains("", fbsep);
  }

  /** Composing the passes: what the parser returns for known intermediate results. */
  lemma ParseByPasses(text: string, fbsep: string, cardsep: string, segs: seq<string>, lists: seq<seq<string>>)
    requires |fbsep| > 0 && |cardsep| > 0
    requires (if cardsep == "\n" then MergeContinuations(Split(text, cardsep), fbsep) else Some(Split(text, cardsep)))
      == Some(segs)
    requires PieceLists(OverflowFrom(segs, fbsep, 0), fbsep) == lists
    ensures ParseQuizlet(text, fbsep, cardsep) == Ok(Imported(DictOf(Pairs(lists)), Skipped(lists)))
  {
  }

  /** A single two-piece list makes a one-card deck with nothing skipped. */
  lemma OneCardDeck(f: string, b: string)
    ensures DictOf(Pairs([[f, b]])) == map[f := b] && Skipped([[f, b]]) == []
  {
    var lists := [[f, b]];
    assert lists[..0] == [];
    assert Pairs(lists) == [(f, b)];
    assert [(f, b)][..0] == [];
  }

  /** A lone segment that holds the separator survives the merge pass. */
  lemma MergeOne(seg: string, fbsep: string)
    requires |fbsep| > 0 && Contains(seg, fbsep)
    ensures MergeContinuations([seg], fbsep) == Some([seg])
  {
  }

  /** A line without the separator is appended to the line before it. */
  lemma MergeTwo(s0: string, c: string, fbsep: string)
    requires |fbsep| > 0 && Contains(s0, fbsep) && !Contains(c, fbsep)
    ensures MergeContinuations([s0, c], fbsep) == Some([s0 + "\n" + c])
  {
    var segs := [s0, c];
    var m := s0 + "\n" + c;
    assert segs[1..] == [c];
    assert CleanPrefix([c], fbsep) == 0;
    assert CleanPrefix(segs, fbsep) == 1;
    assert segs[..0] + [segs[0] + "\n" + segs[1]] + segs[2..] == [m];
    assert MergeAt(segs, 1) == Some([m]);
    ContainsAppend(s0, "\n" + c, fbsep);
    assert m == s0 + ("\n" + c);
    MergeOne(m, fbsep);
  }

  /** The overflow pass on a lone segment resolves it. */
  lemma OverflowOne(seg: string, fbsep: string)
    requires |fbsep| > 0
    ensures OverflowFrom([seg], fbsep, 0) == [Resolved(seg, fbsep)]
  {
    assert OverflowStep([seg], fbsep, 0) == [Resolved(seg, fbsep)];
  }

  /** A lone non-blank segment gives one piece list. */
  lemma PieceListsOne(seg: string, fbsep: string)
    requires |fbsep| > 0 && NonBlank(seg)
    ensures PieceLists([seg], fbsep) == [Split(seg, fbsep)]
  {
    assert [seg][..0] == [];
  }

  /** A segment with at most one tab is left alone by the overflow pass. */
  lemma ResolvedFew(seg: string)
    requires multiset(seg)['\t'] <= 1
    ensures Resolved(seg, "\t") == seg
  {
    assert "\t" == ['\t'];
    CountChar(seg, '\t');
  }

  /** A segment with exactly two tabs has its second tab turned into a line break. */
  lemma ResolvedTwo(head: string, tail: string)
    requires '\t' !in tail && multiset(head)['\t'] == 1
    ensures Resolved(head + "\t" + tail, "\t") == head + "\n" + tail
  {
    var text := head + "\t" + tail;
    assert "\t" == ['\t'];
    CountChar(text, '\t');
    assert multiset(text)['\t'] == 2;
    ReplaceLastAround(head, '\t', tail);
  }

  /** Tab-free `f` and `v` joined by one tab become the single card `f -> v`. */
  lemma OneCardPieces(f: string, v: string)
    requires '\t' !in f && '\t' !in v
    ensures PieceLists(OverflowFrom([f + "\t" + v], "\t", 0), "\t") == [[f, v]]
  {
    var seg := f + "\t" + v;
    ResolvedFew(seg);
    OverflowOne(seg, "\t");
    PieceListsOne(seg, "\t");
    assert "\t" == ['\t'];
    SplitAround(f, '\t', v);
  }

  /** The merge pass on a one-line text with two tabs keeps it as it is. */
  lemma ThreeFieldsMerge(f: string, b1: string, b2: string)
    requires '\n' !in f && '\n' !in b1 && '\n' !in b2
    ensures MergeContinuations(Split(f + "\t" + b1 + "\t" + b2, "\n"), "\t") == Some([f + "\t" + b1 + "\t" + b2])
  {
    var text := f + "\t" + b1 + "\t" + b2;
    assert "\n" == ['\n'] && "\t" == ['\t'];
    SplitCharNone(text, '\n');
    ContainsChar(text, '\t');
    MergeOne(text, "\t");
  }

  /** The overflow pass and the split on a line with two tabs give `[f, b1 + "\n" + b2]`. */
  lemma ThreeFieldsPieces(f: string, b1: string, b2: string)
    requires '\t' !in f && '\t' !in b1 && '\t' !in b2
    ensures PieceLists(OverflowFrom([f + "\t" + b1 + "\t" + b2], "\t", 0), "\t") == [[f, b1 + "\n" + b2]]
  {
    var head := f + "\t" + b1;
    var v := b1 + "\n" + b2;
    var seg := f + "\t" + v;
    ResolvedTwo(head, b2);
    OverflowOne(head + "\t" + b2, "\t");
    assert head + "\n" + b2 == seg;
    PieceListsOne(seg, "\t");
    assert "\t" == ['\t'];
    SplitAround(f, '\t', v);
  }

  /**
   * A line `front<TAB>b1<TAB>b2` becomes the card `front -> b1 + "\n" + b2`: the
   * last tab, not the first, is the one turned into a line break.
   */
  lemma ThreeFields(f: string, b1: string, b2: string)
    requires '\t' !in f && '\t' !in b1 && '\t' !in b2
    requires '\n' !in f && '\n' !in b1 && '\n' !in b2
    ensures ParseQuizlet(f + "\t" + b1 + "\t" + b2, "\t", "\n") == Ok(Imported(map[f := b1 + "\n" + b2], []))
  {
    var text := f + "\t" + b1 + "\t" + b2;
    ThreeFieldsMerge(f, b1, b2);
    ThreeFieldsPieces(f, b1, b2);
    ParseByPasses(text, "\t", "\n", [text], [[f, b1 + "\n" + b2]]);
    OneCardDeck(f, b1 + "\n" + b2);
  }

  /** The merge pass on `front<TAB>b`, a line break and a tab-free `c`. */
  lemma ContinuationMerge(f: string, b: string, c: string)
    requires '\t' !in f && '\t' !in b && '\t' !in c
    requires '\n' !in f && '\n' !in b && '\n' !in c
    ensures MergeContinuations(Split(f + "\t" + b + "\n" + c, "\n"), "\t") == Some([f + "\t" + b + "\n" + c])
  {
    var s0 := f + "\t" + b;
    assert "\n" == ['\n'] && "\t" == ['\t'];
    SplitAround(s0, '\n', c);
    ContainsChar(s0, '\t');
    ContainsChar(c, '\t');
    MergeTwo(s0, c, "\t");
  }

  /**
   * A line with no tab continues the back of the card before it: `front<TAB>b`
   * followed by the line `c` becomes the card `front -> b + "\n" + c`.
   */
  lemma ContinuationLine(f: string, b: string, c: string)
    requires '\t' !in f && '\t' !in b && '\t' !in c
    requires '\n' !in f && '\n' !in b && '\n' !in c
    ensures ParseQuizlet(f + "\t" + b + "\n" + c, "\t", "\n") == Ok(Imported(map[f := b + "\n" + c], []))
  {
    var v := b + "\n" + c;
    var seg := f + "\t" + v;
    assert f + "\t" + b + "\n" + c == seg;
    ContinuationMerge(f, b, c);
    OneCardPieces(f, v);
    ParseByPasses(seg, "\t", "\n", [seg], [[f, v]]);
    OneCardDeck(f, v);
  }

  /** Two lines that each hold one tab survive the merge pass as they are. */
  lemma TwoCardsMerge(s0: string, s1: string)
    requires '\n' !in s0 && '\n' !in s1 && '\t' in s0 && '\t' in s1
    ensures MergeContinuations(Split(s0 + "\n" + s1, "\n"), "\t") == Some([s0, s1])
  {
    assert "\n" == ['\n'] && "\t" == ['\t'];
    SplitAround(s0, '\n', s1);
    ContainsChar(s0, '\t');
    ContainsChar(s1, '\t');
    CleanPrefixAll([s0, s1], "\t");
  }

  /** The overflow pass leaves alone segments that have at most one separator. */
  lemma {:induction false} NoOverflowFrom(segs: seq<string>, fbsep: string, i: nat)
    requires |fbsep| > 0
    requires forall k :: 0 <= k < |segs| ==> !Overflows(segs[k], fbsep)
    ensures OverflowFrom(segs, fbsep, i) == segs
    decreases |segs| - i
  {
    if i < |segs| {
      assert OverflowStep(segs, fbsep, i) == segs;
      NoOverflowFrom(segs, fbsep, i + 1);
    }
  }

  /** Two non-blank segments give their two splits. */
  lemma PieceListsTwo(s0: string, s1: string, fbsep: string)
    requires |fbsep| > 0 && NonBlank(s0) && NonBlank(s1)
    ensures PieceLists([s0, s1], fbsep) == [Split(s0, fbsep), Split(s1, fbsep)]
  {
    assert [s0, s1][..1] == [s0];
    PieceListsOne(s0, fbsep);
  }

  /** Two segments with at most one tab each pass the overflow loop unchanged. */
  lemma TwoLinesStay(s0: string, s1: string)
    requires multiset(s0)['\t'] <= 1 && multiset(s1)['\t'] <= 1
    ensures OverflowFrom([s0, s1], "\t", 0) == [s0, s1]
  {
    assert "\t" == ['\t'];
    CountChar(s0, '\t');
    CountChar(s1, '\t');
    NoOverflowFrom([s0, s1], "\t", 0);
  }

  /** A tab between two tab-free parts splits back into those parts. */
  lemma OneTabLine(f: string, b: string)
    requires '\t' !in f && '\t' !in b
    ensures NonBlank(f + "\t" + b) && multiset(f + "\t" + b)['\t'] == 1
    ensures Split(f + "\t" + b, "\t") == [f, b]
  {
    var s0 := f + "\t" + b;
    assert s0[|f|] == '\t';
    assert multiset(s0) == multiset(f) + multiset{'\t'} + multiset(b);
    assert "\t" == ['\t'];
    SplitAround(f, '\t', b);
  }

  /** The overflow pass and the split on two one-tab lines give their two piece lists. */
  lemma TwoCardsPieces(f1: string, b1: string, f2: string, b2: string)
    requires '\t' !in f1 && '\t' !in b1 && '\t' !in f2 && '\t' !in b2
    ensures PieceLists(OverflowFrom([f1 + "\t" + b1, f2 + "\t" + b2], "\t", 0), "\t") == [[f1, b1], [f2, b2]]
  {
    var s0, s1 := f1 + "\t" + b1, f2 + "\t" + b2;
    OneTabLine(f1, b1);
    OneTabLine(f2, b2);
    TwoLinesStay(s0, s1);
    PieceListsTwo(s0, s1, "\t");
  }

  /** Two two-piece lists make a deck of their pairs, the second stored last. */
  lemma TwoCardDeck(f1: string, b1: string, f2: string, b2: string)
    ensures DictOf(Pairs([[f1, b1], [f2, b2]])) == map[f1 := b1][f2 := b2]
    ensures Skipped([[f1, b1], [f2, b2]]) == []
  {
    var lists := [[f1, b1], [f2, b2]];
    assert lists[..1] == [[f1, b1]];
    OneCardDeck(f1, b1);
    assert Pairs(lists) == [(f1, b1), (f2, b2)];
    assert [(f1, b1), (f2, b2)][..1] == [(f1, b1)];
    assert [(f1, b1)][..0] == [];
  }

  /**
   * Two lines `f1<TAB>b1` and `f2<TAB>b2` become two cards; when the fronts are
   * the same, the second line's back is the one kept.
   */
  lemma TwoCards(f1: string, b1: string, f2: string, b2: string)
    requires '\t' !in f1 && '\t' !in b1 && '\t' !in f2 && '\t' !in b2
    requires '\n' !in f1 && '\n' !in b1 && '\n' !in f2 && '\n' !in b2
    ensures ParseQuizlet(f1 + "\t" + b1 + "\n" + f2 + "\t" + b2, "\t", "\n")
      == Ok(Imported(map[f1 := b1][f2 := b2], []))
  {
    var s0, s1 := f1 + "\t" + b1, f2 + "\t" + b2;
    assert f1 + "\t" + b1 + "\n" + f2 + "\t" + b2 == s0 + "\n" + s1;
    assert '\t' in s0 && '\t' in s1 by {
      assert s0[|f1|] == '\t' && s1[|f2|] == '\t';
    }
    TwoCardsMerge(s0, s1);
    TwoCardsPieces(f1, b1, f2, b2);
    ParseByPasses(s0 + "\n" + s1, "\t", "\n", [s0, s1], [[f1, b1], [f2, b2]]);
    TwoCardDeck(f1, b1, f2, b2);
  }

  /** The default separators on `"a<TAB>b\nc<TAB>d"` give `{"a": "b", "c": "d"}`. */
  lemma TwoCardsExample()
    ensures ParseQuizlet("a\tb\nc\td", "\t", "\n") == Ok(Imported(map["a" := "b", "c" := "d"], []))
  {
    assert "a" + "\t" + "b" + "\n" + "c" + "\t" + "d" == "a\tb\nc\td";
    TwoCards("a", "b", "c", "d");
  }

  /** The default separators on `"a<TAB>b\nc"` give `{"a": "b\nc"}`. */
  lemma ContinuationExample()
    ensures ParseQuizlet("a\tb\nc", "\t", "\n") == Ok(Imported(map["a" := "b\nc"], []))
  {
    assert "a" + "\t" + "b" + "\n" + "c" == "a\tb\nc";
    assert "b" + "\n" + "c" == "b\nc";
    ContinuationLine("a", "b", "c");
  }

  /** The default separators on `"x<TAB>y<TAB>z"` give `{"x": "y\nz"}`. */
  lemma ThreeFieldsExample()
    ensures ParseQuizlet("x\ty\tz", "\t", "\n") == Ok(Imported(map["x" := "y\nz"], []))
  {
    assert "x" + "\t" + "y" + "\t" + "z" == "x\ty\tz";
    assert "y" + "\n" + "z" == "y\nz";
    ThreeFields("x", "y", "z");
  }
}

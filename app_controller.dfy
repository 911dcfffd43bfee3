/**
 * The deck editor and the prompts of app_controller.py. The deck dictionary is
 * a `Deck` object whose cards the add and remove handlers change in place; the
 * `while True` prompts read from a given sequence of typed lines.
 */
module AppController {
  import opened Wrappers
  import opened Strings
  import opened Cards
  import Lists
  import Prompts

  // ---------------------------------------------------------------------------
  // The deck as a dictionary
  // ---------------------------------------------------------------------------

  /** The `key in deck` test and the `deck[key]` lookup. */
  function Get(cards: seq<Card>, key: string): (r: Option<string>)
    ensures r.None? <==> key !in Fronts(cards)
    ensures r.Some? ==> Card(key, r.value) in cards
  {
    var at := Lookup(cards, key);
    if at < 0 then None else Some(cards[at].back)
  }

  /** In a dictionary the card holding a key is the only one holding it. */
  lemma LookupUnique(cards: seq<Card>, i: nat)
    requires UniqueFronts(cards) && i < |cards|
    ensures Lookup(cards, cards[i].front) == i
  {
    var at := Lookup(cards, cards[i].front);
    assert Fronts(cards)[at] == Fronts(cards)[i];
  }

  /** `deck[front] = back` for a key not yet in the deck: the card goes last. */
  function Insert(cards: seq<Card>, front: string, back: string): seq<Card> {
    cards + [Card(front, back)]
  }

  /** `del deck[key]`: the card holding the key leaves, the others keep their order. */
  function Delete(cards: seq<Card>, key: string): (r: seq<Card>)
    ensures |r| == if key in Fronts(cards) then |cards| - 1 else |cards|
  {
    var at := Lookup(cards, key);
    if at < 0 then cards else cards[..at] + cards[at + 1..]
  }

  /** Inserting a new key keeps a dictionary. */
  lemma InsertUnique(cards: seq<Card>, front: string, back: string)
    requires UniqueFronts(cards) && front !in Fronts(cards)
    ensures UniqueFronts(Insert(cards, front, back))
  {
    assert Fronts(Insert(cards, front, back)) == Fronts(cards) + [front];
  }

  /** After an insertion of a new key, that key holds the new back and every other key what it held. */
  lemma InsertGet(cards: seq<Card>, front: string, back: string, key: string)
    requires UniqueFronts(cards) && front !in Fronts(cards)
    ensures UniqueFronts(Insert(cards, front, back))
    ensures Get(Insert(cards, front, back), key) == if key == front then Some(back) else Get(cards, key)
  {
    var r := Insert(cards, front, back);
    assert Fronts(r) == Fronts(cards) + [front];
    if key == front {
      LookupUnique(r, |cards|);
    } else if key in Fronts(cards) {
      var i := Lookup(cards, key);
      assert r[i] == cards[i];
      LookupUnique(r, i);
    }
  }

  /** After a deletion the key is gone. */
  lemma DeleteGone(cards: seq<Card>, key: string)
    requires UniqueFronts(cards)
    ensures UniqueFronts(Delete(cards, key))
    ensures Get(Delete(cards, key), key) == None
  {
    var at := Lookup(cards, key);
    if at >= 0 {
      var r := Delete(cards, key);
      DeleteUnique(cards, at);
    }
  }

  /** After a deletion every other key holds what it held. */
  lemma DeleteKeepsOthers(cards: seq<Card>, key: string, other: string)
    requires UniqueFronts(cards) && other != key
    ensures Get(Delete(cards, key), other) == Get(cards, other)
  {
    var at := Lookup(cards, key);
    if at >= 0 {
      var r := Delete(cards, key);
      DeleteUnique(cards, at);
      if other in Fronts(cards) {
        var i := Lookup(cards, other);
        var i' := if i < at then i else i - 1;
        assert r[i'] == cards[i];
        LookupUnique(r, i');
      }
    }
  }

  /** Taking one card out of a dictionary leaves a dictionary. */
  lemma DeleteUnique(cards: seq<Card>, at: nat)
    requires UniqueFronts(cards) && at < |cards|
    ensures UniqueFronts(cards[..at] + cards[at + 1..])
  {
    var r := cards[..at] + cards[at + 1..];
    forall i, j | 0 <= i < j < |r| ensures Fronts(r)[i] != Fronts(r)[j] {
      var i' := if i < at then i else i + 1;
      var j' := if j < at then j else j + 1;
      assert r[i] == cards[i'] && r[j] == cards[j'];
      assert Fronts(cards)[i'] != Fronts(cards)[j'];
    }
  }

  /** Deleting a key just inserted gives back the deck as it was. */
  lemma DeleteUndoesInsert(cards: seq<Card>, front: string, back: string)
    requires UniqueFronts(cards) && front !in Fronts(cards)
    ensures Delete(Insert(cards, front, back), front) == cards
  {
    var r := Insert(cards, front, back);
    assert Fronts(r) == Fronts(cards) + [front];
    LookupUnique(r, |cards|);
    assert r[..|cards|] == cards;
  }

  // ---------------------------------------------------------------------------
  // Adding and removing cards
  // ---------------------------------------------------------------------------

  /** What `handle_add_card` reports. */
  datatype AddOutcome = EmptyFront | EmptyBack | DuplicateFront | Added

  /** What `handle_remove_card` reports; `Removed` carries the back it printed. */
  datatype RemoveOutcome = DeckEmpty | EmptyInput | Removed(back: string) | NotFound

  /** The report of `handle_add_card` on the two typed lines. */
  function AddOutcomeOf(cards: seq<Card>, frontLine: string, backLine: string): AddOutcome {
    if Strip(frontLine) == [] then EmptyFront
    else if Strip(backLine) == [] then EmptyBack
    else if Strip(frontLine) in Fronts(cards) then DuplicateFront
    else Added
  }

  /** The deck after `handle_add_card`: unchanged unless the card was added. */
  function AfterAdd(cards: seq<Card>, frontLine: string, backLine: string): seq<Card> {
    if AddOutcomeOf(cards, frontLine, backLine) == Added
    then Insert(cards, Strip(frontLine), Strip(backLine))
    else cards
  }

  /** The report of `handle_remove_card` on the typed line. */
  function RemoveOutcomeOf(cards: seq<Card>, line: string): RemoveOutcome {
    if cards == [] then DeckEmpty
    else if Strip(line) == [] then EmptyInput
    else match Get(cards, Strip(line))
      case Some(back) => Removed(back)
      case None => NotFound
  }

  /** The deck after `handle_remove_card`: unchanged unless a card was removed. */
  function AfterRemove(cards: seq<Card>, line: string): seq<Card> {
    if RemoveOutcomeOf(cards, line).Removed? then Delete(cards, Strip(line)) else cards
  }

  /**
   * Adding keeps a dictionary, changes the deck exactly when it reports `Added`,
   * and then holds the stripped back under the stripped front and nothing else new.
   */
  lemma AddCardEffect(cards: seq<Card>, frontLine: string, backLine: string, key: string)
    requires UniqueFronts(cards)
    ensures UniqueFronts(AfterAdd(cards, frontLine, backLine))
    ensures AfterAdd(cards, frontLine, backLine) != cards <==> AddOutcomeOf(cards, frontLine, backLine) == Added
    ensures AddOutcomeOf(cards, frontLine, backLine) == Added ==>
      Get(AfterAdd(cards, frontLine, backLine), key)
        == if key == Strip(frontLine) then Some(Strip(backLine)) else Get(cards, key)
  {
    if AddOutcomeOf(cards, frontLine, backLine) == Added {
      InsertGet(cards, Strip(frontLine), Strip(backLine), key);
      assert |AfterAdd(cards, frontLine, backLine)| == |cards| + 1;
    }
  }

  /** A card just added is refused a second time as a duplicate. */
  lemma AddTwice(cards: seq<Card>, frontLine: string, backLine: string, otherBack: string)
    requires UniqueFronts(cards) && AddOutcomeOf(cards, frontLine, backLine) == Added
    requires Strip(otherBack) != []
    ensures AddOutcomeOf(AfterAdd(cards, frontLine, backLine), frontLine, otherBack) == DuplicateFront
  {
    var r := AfterAdd(cards, frontLine, backLine);
    assert Fronts(r) == Fronts(cards) + [Strip(frontLine)];
  }

  /**
   * Removing keeps a dictionary, changes the deck exactly when it reports
   * `Removed` with the card's back, and then only the named key is gone.
   */
  lemma RemoveCardEffect(cards: seq<Card>, line: string, key: string)
    requires UniqueFronts(cards)
    ensures UniqueFronts(AfterRemove(cards, line))
    ensures AfterRemove(cards, line) != cards <==> RemoveOutcomeOf(cards, line).Removed?
    ensures RemoveOutcomeOf(cards, line).Removed? ==>
      && Get(cards, Strip(line)) == Some(RemoveOutcomeOf(cards, line).back)
      && Get(AfterRemove(cards, line), key) == if key == Strip(line) then None else Get(cards, key)
  {
    if RemoveOutcomeOf(cards, line).Removed? {
      DeleteGone(cards, Strip(line));
      if key != Strip(line) {
        DeleteKeepsOthers(cards, Strip(line), key);
      }
      assert |AfterRemove(cards, line)| == |cards| - 1;
    }
  }

  /** Removing the front of a card just added restores the deck. */
  lemma RemoveUndoesAdd(cards: seq<Card>, frontLine: string, backLine: string)
    requires UniqueFronts(cards) && AddOutcomeOf(cards, frontLine, backLine) == Added
    ensures RemoveOutcomeOf(AfterAdd(cards, frontLine, backLine), frontLine) == Removed(Strip(backLine))
    ensures AfterRemove(AfterAdd(cards, frontLine, backLine), frontLine) == cards
  {
    InsertGet(cards, Strip(frontLine), Strip(backLine), Strip(frontLine));
    DeleteUndoesInsert(cards, Strip(frontLine), Strip(backLine));
  }

  /** The open deck: a dictionary from fronts to backs that the handlers change in place. */
  class Deck {
    var cards: seq<Card>

    /** Each front is a key of the dictionary, so it appears once. */
    ghost predicate Valid()
      reads this
    {
      UniqueFronts(cards)
    }

    constructor (initial: seq<Card>)
      requires UniqueFronts(initial)
      ensures Valid() && cards == initial
    {
      cards := initial;
    }

    /**
     * `handle_add_card`: the front is typed first and the back is read only when
     * the front is not empty; a card is added only under a new front.
     */
    method HandleAddCard(frontLine: string, backLine: string) returns (outcome: AddOutcome)
      requires Valid()
      modifies this
      ensures Valid()
      ensures outcome == AddOutcomeOf(old(cards), frontLine, backLine)
      ensures cards == AfterAdd(old(cards), frontLine, backLine)
    {
      var newItemFront := Strip(frontLine);
      if newItemFront == [] {
        outcome := EmptyFront;
        assert AddOutcomeOf(cards, frontLine, backLine) == outcome;
      } else {
        var newItemBack := Strip(backLine);
        if newItemBack == [] {
          outcome := EmptyBack;
          assert AddOutcomeOf(cards, frontLine, backLine) == outcome;
        } else if Lookup(cards, newItemFront) < 0 {
          InsertUnique(cards, newItemFront, newItemBack);
          assert AddOutcomeOf(cards, frontLine, backLine) == Added;
          cards := Insert(cards, newItemFront, newItemBack);
          outcome := Added;
        } else {
          outcome := DuplicateFront;
          assert AddOutcomeOf(cards, frontLine, backLine) == outcome;
        }
      }
    }

    /**
     * `handle_remove_card`: nothing is read from an empty deck; otherwise the
     * card under the stripped line is deleted when there is one.
     */
    method HandleRemoveCard(line: string) returns (outcome: RemoveOutcome)
      requires Valid()
      modifies this
      ensures Valid()
      ensures outcome == RemoveOutcomeOf(old(cards), line)
      ensures cards == AfterRemove(old(cards), line)
    {
      if cards == [] {
        return DeckEmpty;
      }
      var remove := Strip(line);
      if remove == [] {
        return EmptyInput;
      }
      var at := Lookup(cards, remove);
      if at >= 0 {
        var back := cards[at].back;
        DeleteUnique(cards, at);
        cards := cards[..at] + cards[at + 1..];
        return Removed(back);
      } else {
        return NotFound;
      }
    }
  }

  // ---------------------------------------------------------------------------
  // The prompts
  // ---------------------------------------------------------------------------

  /** A reply stripped and lower-cased, as the prompts compare it. */
  function Normalised(line: string): string {
    Lower(Strip(line))
  }

  /**
   * One reply to the deck prompt: `i` in any case opens the importer, a number
   * from 1 to the number of decks picks one and is returned as typed (stripped).
   */
  function DeckChoice(line: string, deckCount: nat): (r: Option<string>)
    ensures Normalised(line) == "i" ==> r == Some("i")
    ensures r.Some? ==> r.value == "i" || r.value == Strip(line)
    ensures r.Some? && r.value != "i" ==> ParseInt(r.value).Some? && 1 <= ParseInt(r.value).value <= deckCount
  {
    var deckChoice := Strip(line);
    if Normalised(line) == "i" then Some("i")
    else
      var choiceNum := ParseInt(deckChoice);
      if choiceNum.Some? && 1 <= choiceNum.value <= deckCount then Some(deckChoice) else None
  }

  /** A number never reads as the importer key, so it is judged by its value alone. */
  lemma NumberIsNotImporter(line: string, deckCount: nat)
    requires ParseInt(Strip(line)).Some?
    ensures DeckChoice(line, deckCount).Some? <==> 1 <= ParseInt(Strip(line)).value <= deckCount
  {
    var t := Strip(line);
    StripIdempotent(line);
    assert IsDigit(t[0]) || t[0] == '+' || t[0] == '-';
    assert Lower(t)[0] == t[0];
  }

  /** Typing the number of any listed deck selects it. */
  lemma DeckNumberTyped(k: nat, deckCount: nat)
    requires 1 <= k <= deckCount
    ensures DeckChoice(DecimalText(k), deckCount) == Some(DecimalText(k))
  {
    DecimalParses(k);
    NumberIsNotImporter(DecimalText(k), deckCount);
  }

  /** `get_valid_deck_choice`: ask until a reply is `i` or the number of a deck. */
  method GetValidDeckChoice(decks: seq<string>, lines: seq<string>) returns (r: Option<(nat, string)>)
    ensures r.Some? ==> r.value.0 < |lines| && DeckChoice(lines[r.value.0], |decks|) == Some(r.value.1)
    ensures r.Some? ==> forall j :: 0 <= j < r.value.0 ==> DeckChoice(lines[j], |decks|).None?
    ensures r.None? <==> forall j :: 0 <= j < |lines| ==> DeckChoice(lines[j], |decks|).None?
  {
    var deckCount := |decks|;
    r := Prompts.FirstAccepted(lines, s => DeckChoice(s, deckCount));
  }

  /** The index a number picks from the file menu, which counts from 1. */
  function FileIndex(choiceNum: Option<int>, fileCount: nat): (r: Option<nat>)
    ensures r.Some? ==> r.value < fileCount
  {
    if choiceNum.Some? && 1 <= choiceNum.value <= fileCount then Some((choiceNum.value - 1) as nat) else None
  }

  /** One reply to the file prompt: a number from 1 to the number of files, as an index from 0. */
  function FileChoice(line: string, fileCount: nat): (r: Option<nat>)
    ensures r.Some? ==> r.value < fileCount
  {
    FileIndex(ParseInt(Strip(line)), fileCount)
  }

  /** A number selects the file at `index` exactly when it is `index + 1`. */
  lemma FileIndexMeaning(choiceNum: Option<int>, fileCount: nat, index: nat)
    ensures FileIndex(choiceNum, fileCount) == Some(index) <==> index < fileCount && choiceNum == Some(index + 1)
  {
  }

  /** Typing the number shown beside a file selects that file's index; nothing else does. */
  lemma FileNumberTyped(index: nat, fileCount: nat)
    requires index < fileCount
    ensures FileChoice(DecimalText(index + 1), fileCount) == Some(index)
  {
    var t := DecimalText(index + 1);
    DecimalParses(index + 1);
    FileIndexMeaning(ParseInt(Strip(t)), fileCount, index);
  }

  /** `get_valid_file_choice`: ask until a reply is the number of a file; the answer is its index. */
  method GetValidFileChoice(files: seq<string>, lines: seq<string>) returns (r: Option<(nat, nat)>)
    ensures r.Some? ==> r.value.0 < |lines| && FileChoice(lines[r.value.0], |files|) == Some(r.value.1)
    ensures r.Some? ==> r.value.1 < |files|
    ensures r.Some? ==> forall j :: 0 <= j < r.value.0 ==> FileChoice(lines[j], |files|).None?
    ensures r.None? <==> forall j :: 0 <= j < |lines| ==> FileChoice(lines[j], |files|).None?
  {
    var fileCount := |files|;
    r := Prompts.FirstAccepted(lines, s => FileChoice(s, fileCount));
  }

  /** One reply to a yes/no question. */
  function YesNo(line: string): Option<bool> {
    var response := Normalised(line);
    if response in ["y", "yes"] then Some(true)
    else if response in ["n", "no"] then Some(false)
    else None
  }

  /** The question accepts the four replies y, yes, n and no, and only them. */
  lemma YesNoReplies(line: string)
    ensures YesNo(line) == Some(true) <==> Normalised(line) == "y" || Normalised(line) == "yes"
    ensures YesNo(line) == Some(false) <==> Normalised(line) == "n" || Normalised(line) == "no"
  {
  }

  /** Normalising a reply again changes nothing, so a reply is judged only by its normal form. */
  lemma NormalisedIdempotent(line: string)
    ensures Normalised(Normalised(line)) == Normalised(line)
  {
    var t := Strip(line);
    LowerIdempotent(t);
    StripIdempotent(line);
    if t != [] {
      assert !IsSpace(t[0]) && !IsSpace(t[|t| - 1]);
      NoSpaceStrip(Lower(t));
    }
  }

  /** The yes/no prompt accepts the same replies whatever their case and surrounding whitespace. */
  lemma YesNoNormalised(line: string)
    ensures YesNo(Normalised(line)) == YesNo(line)
  {
    NormalisedIdempotent(line);
  }

  /** `get_yes_no_input`: ask until the reply is y, yes, n or no. */
  method GetYesNoInput(lines: seq<string>) returns (r: Option<(nat, bool)>)
    ensures r.Some? ==> r.value.0 < |lines| && YesNo(lines[r.value.0]) == Some(r.value.1)
    ensures r.Some? ==> forall j :: 0 <= j < r.value.0 ==> YesNo(lines[j]).None?
    ensures r.None? <==> forall j :: 0 <= j < |lines| ==> YesNo(lines[j]).None?
  {
    r := Prompts.FirstAccepted(lines, YesNo);
  }

  /** One reply to the direction prompt: `f` or `b`, returned in lower case. */
  function Direction(line: string): Option<string> {
    var direction := Normalised(line);
    if direction in ["f", "b"] then Some(direction) else None
  }

  /** The direction prompt, like the yes/no one, ignores case and surrounding whitespace. */
  lemma DirectionNormalised(line: string)
    ensures Direction(Normalised(line)) == Direction(line)
  {
    NormalisedIdempotent(line);
  }

  /** The direction prompt accepts f and b, in either case, and nothing else. */
  lemma DirectionReplies(line: string)
    ensures Direction(line).Some? <==> Normalised(line) == "f" || Normalised(line) == "b"
    ensures Direction(line).Some? ==> Direction(line).value == Normalised(line)
  {
  }

  /** `get_valid_direction`: ask until the reply is f or b. */
  method GetValidDirection(lines: seq<string>) returns (r: Option<(nat, string)>)
    ensures r.Some? ==> r.value.0 < |lines| && Direction(lines[r.value.0]) == Some(r.value.1)
    ensures r.Some? ==> r.value.1 == "f" || r.value.1 == "b"
    ensures r.Some? ==> forall j :: 0 <= j < r.value.0 ==> Direction(lines[j]).None?
    ensures r.None? <==> forall j :: 0 <= j < |lines| ==> Direction(lines[j]).None?
  {
    r := Prompts.FirstAccepted(lines, Direction);
    if r.Some? {
      DirectionReplies(lines[r.value.0]);
    }
  }
}

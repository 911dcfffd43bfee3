/** A flashcard and a deck of them, kept in the order the deck's dictionary iterates. */
module Cards {
  import Lists

  /** One `front: back` entry of a deck dictionary. */
  datatype Card = Card(front: string, back: string)

  /** The deck's keys, in iteration order. */
  function Fronts(cards: seq<Card>): (r: seq<string>)
    ensures |r| == |cards|
    ensures forall i :: 0 <= i < |cards| ==> r[i] == cards[i].front
  {
    if cards == [] then [] else Fronts(cards[..|cards| - 1]) + [cards[|cards| - 1].front]
  }

  /** The deck's values, in iteration order. */
  function Backs(cards: seq<Card>): (r: seq<string>)
    ensures |r| == |cards|
    ensures forall i :: 0 <= i < |cards| ==> r[i] == cards[i].back
  {
    if cards == [] then [] else Backs(cards[..|cards| - 1]) + [cards[|cards| - 1].back]
  }

  /** A dictionary holds each key once. */
  predicate UniqueFronts(cards: seq<Card>) {
    Lists.Distinct(Fronts(cards))
  }

  /** The card under `front`, when there is one. */
  function Lookup(cards: seq<Card>, front: string): (r: int)
    ensures -1 <= r < |cards|
    ensures r >= 0 ==> cards[r].front == front
    ensures r < 0 <==> front !in Fronts(cards)
  {
    if cards == [] then -1
    else if cards[|cards| - 1].front == front then |cards| - 1
    else Lookup(cards[..|cards| - 1], front)
  }
}

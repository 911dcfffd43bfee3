/**
 * The memory game: the chosen cards' fronts and backs lie face down on a grid of
 * cells, the player turns over two at a time, and a matching pair is taken off.
 * An empty cell holds the marker `"0"`.
 */
module MemoryGame {
  import opened Wrappers
  import opened Strings
  import opened Cards
  import Lists
  import Prompts
  import opened Draws

  /** The marker of a cell with no card. */
  const Empty: string := "0"

  /** The largest game the coordinate scheme allows, in pairs. */
  const MaxPairs: nat := 24

  /** Rows of cells; `grid[r][c]` is the cell in row `r`, column `c`. */
  type Grid = seq<seq<string>>

  predicate IsGrid(g: Grid, rows: nat, cols: nat) {
    |g| == rows && forall r :: 0 <= r < rows ==> |g[r]| == cols
  }

  predicate AllEmpty(g: Grid) {
    forall r, c :: 0 <= r < |g| && 0 <= c < |g[r]| ==> g[r][c] == Empty
  }

  // ---------------------------------------------------------------------------
  // The cards on the board, as a multiset
  // ---------------------------------------------------------------------------

  /** What a cell shows: nothing when empty, else its card. */
  function Face(x: string): multiset<string> {
    if x == Empty then multiset{} else multiset{x}
  }

  /** The cards lying in a row (or any list of cells): every cell but the empty ones. */
  function RowFaces(row: seq<string>): multiset<string> {
    multiset(row)[Empty := 0]
  }

  /** The cards lying on the board. */
  function GridFaces(g: Grid): multiset<string> {
    if g == [] then multiset{} else GridFaces(g[..|g| - 1]) + RowFaces(g[|g| - 1])
  }

  /** The board after writing `v` into one cell. */
  function SetCell(g: Grid, r: nat, c: nat, v: string): (h: Grid)
    requires r < |g| && c < |g[r]|
    ensures |h| == |g| && forall i :: 0 <= i < |g| ==> |h[i]| == |g[i]|
  {
    g[r := g[r][c := v]]
  }

  /** Writing one cell takes its old card off the board and puts the new one on. */
  lemma RowFacesUpdate(row: seq<string>, c: nat, v: string)
    requires c < |row|
    ensures RowFaces(row[c := v]) + Face(row[c]) == RowFaces(row) + Face(v)
  {
    assert row == row[..c] + [row[c]] + row[c + 1..];
    assert row[c := v] == row[..c] + [v] + row[c + 1..];
  }

  lemma {:induction false} GridFacesUpdate(g: Grid, r: nat, c: nat, v: string)
    requires r < |g| && c < |g[r]|
    ensures GridFaces(SetCell(g, r, c, v)) + Face(g[r][c]) == GridFaces(g) + Face(v)
  {
    var n := |g| - 1;
    if r == n {
      GridFacesUpdateLast(g, c, v);
    } else {
      var h := SetCell(g, r, c, v);
      UpdatePrefix(g, r, g[r][c := v], n);
      assert g[..n][r] == g[r];
      GridFacesUpdate(g[..n], r, c, v);
      Rebalance(GridFaces(h[..n]), GridFaces(g[..n]), RowFaces(g[n]), Face(g[r][c]), Face(v));
    }
  }

  /** Updating before position `n` commutes with cutting at `n`. */
  lemma UpdatePrefix<T>(s: seq<T>, i: nat, x: T, n: nat)
    requires i < n <= |s|
    ensures s[i := x][..n] == s[..n][i := x]
    ensures n < |s| ==> s[i := x][n] == s[n]
  {
  }

  lemma GridFacesUpdateLast(g: Grid, c: nat, v: string)
    requires g != [] && c < |g[|g| - 1]|
    ensures GridFaces(SetCell(g, |g| - 1, c, v)) + Face(g[|g| - 1][c]) == GridFaces(g) + Face(v)
  {
    var n := |g| - 1;
    var h := SetCell(g, n, c, v);
    assert h[..n] == g[..n];
    RowFacesUpdate(g[n], c, v);
    Rebalance(RowFaces(h[n]), RowFaces(g[n]), GridFaces(g[..n]), Face(g[n][c]), Face(v));
  }

  /** Adding the same part to both sides of a balance keeps it. */
  lemma Rebalance<T>(after: multiset<T>, before: multiset<T>, common: multiset<T>, x: multiset<T>, y: multiset<T>)
    requires after + x == before + y
    ensures common + after + x == common + before + y
    ensures after + common + x == before + common + y
  {
    forall o ensures (common + after + x)[o] == (common + before + y)[o] {
      assert (after + x)[o] == (before + y)[o];
    }
    assert common + after + x == common + before + y;
    assert after + common + x == common + after + x;
    assert before + common + y == common + before + y;
  }

  lemma RowFacesNone(row: seq<string>)
    ensures RowFaces(row) == multiset{} <==> forall c :: 0 <= c < |row| ==> row[c] == Empty
  {
    if forall c :: 0 <= c < |row| ==> row[c] == Empty {
      forall x ensures RowFaces(row)[x] == 0 {
        if x != Empty {
          assert x !in row;
        }
      }
    } else {
      var c :| 0 <= c < |row| && row[c] != Empty;
      assert row[c] in multiset(row);
      assert RowFaces(row)[row[c]] > 0;
    }
  }

  /** The board is clear exactly when no card lies on it. */
  lemma {:induction false} AllEmptyNoFaces(g: Grid)
    ensures AllEmpty(g) <==> GridFaces(g) == multiset{}
  {
    if g != [] {
      var n := |g| - 1;
      AllEmptyNoFaces(g[..n]);
      RowFacesNone(g[n]);
      if AllEmpty(g[..n]) && forall c :: 0 <= c < |g[n]| ==> g[n][c] == Empty {
        forall r, c | 0 <= r < |g| && 0 <= c < |g[r]| ensures g[r][c] == Empty {
          if r < n {
            assert g[r] == g[..n][r];
          }
        }
      } else if !AllEmpty(g[..n]) {
        var r, c :| 0 <= r < n && 0 <= c < |g[..n][r]| && g[..n][r][c] != Empty;
        assert g[r][c] != Empty;
      }
    }
  }

  /** `grid_maker(h, w)`: `h` rows of `w` empty cells. */
  function GridMaker(h: nat, w: nat): (g: Grid)
    ensures IsGrid(g, h, w) && AllEmpty(g)
    ensures GridFaces(g) == multiset{}
  {
    var g := seq(h, _ => seq(w, _ => Empty));
    AllEmptyNoFaces(g);
    g
  }

  /** Each pair's front and back, pair by pair: the cards dealt onto the board. */
  function AllCards(pairs: seq<Card>): (r: seq<string>)
    ensures |r| == 2 * |pairs|
  {
    if pairs == [] then []
    else AllCards(pairs[..|pairs| - 1]) + [pairs[|pairs| - 1].front, pairs[|pairs| - 1].back]
  }

  /** Every dealt card is a side of one of the pairs, and every side is dealt. */
  lemma {:induction false} AllCardsSides(pairs: seq<Card>, x: string)
    ensures x in AllCards(pairs) <==> exists i :: 0 <= i < |pairs| && (pairs[i].front == x || pairs[i].back == x)
  {
    if pairs != [] {
      var n := |pairs| - 1;
      AllCardsSides(pairs[..n], x);
      assert AllCards(pairs) == AllCards(pairs[..n]) + [pairs[n].front, pairs[n].back];
      if exists i :: 0 <= i < n && (pairs[..n][i].front == x || pairs[..n][i].back == x) {
        var i :| 0 <= i < n && (pairs[..n][i].front == x || pairs[..n][i].back == x);
        assert pairs[i] == pairs[..n][i];
      }
      if exists i :: 0 <= i < |pairs| && (pairs[i].front == x || pairs[i].back == x) {
        var i :| 0 <= i < |pairs| && (pairs[i].front == x || pairs[i].back == x);
        if i < n {
          assert pairs[..n][i] == pairs[i];
        }
      }
    }
  }

  /** When no side is the empty marker, every dealt card shows on the board. */
  lemma RowFacesAllShown(row: seq<string>)
    requires forall k :: 0 <= k < |row| ==> row[k] != Empty
    ensures RowFaces(row) == multiset(row)
  {
    assert Empty !in multiset(row);
  }

  // ---------------------------------------------------------------------------
  // Choosing the game length and the cards
  // ---------------------------------------------------------------------------

  function Min(a: nat, b: nat): nat {
    if a <= b then a else b
  }

  /** The game length a typed line asks for, when it is acceptable. */
  function GameLengthChoice(s: string, maxCards: nat): (r: Option<nat>)
    ensures r.Some? ==> 2 <= r.value <= MaxPairs && r.value <= maxCards
    ensures r.Some? ==> AllDigits(s) && r.value == DigitsValue(s)
  {
    if AllDigits(s) && 2 <= DigitsValue(s) <= Min(MaxPairs, maxCards) then Some(DigitsValue(s)) else None
  }

  /** Every length in range, typed as a number, is accepted. */
  lemma GameLengthTyped(n: nat, maxCards: nat)
    requires 2 <= n <= Min(MaxPairs, maxCards)
    ensures GameLengthChoice(DecimalText(n), maxCards) == Some(n)
  {
    var s := DecimalText(n);
    assert AllDigits(s) && DigitsValue(s) == n;
  }

  /** With fewer than two pairs no length is ever accepted: the reason for the guard in `play`. */
  lemma NoLengthForSmallDeck(s: string, maxCards: nat)
    requires maxCards < 2
    ensures GameLengthChoice(s, maxCards) == None
  {
  }

  // ---------------------------------------------------------------------------
  // Board size
  // ---------------------------------------------------------------------------

  /** `floor(sqrt(k))`. */
  function ISqrt(k: nat): (r: nat)
    ensures r * r <= k < (r + 1) * (r + 1)
  {
    if k == 0 then 0
    else
      var s := ISqrt(k - 1);
      if (s + 1) * (s + 1) <= k then s + 1 else s
  }

  /** `ceil(a / b)`. */
  function CeilDiv(a: nat, b: nat): (q: nat)
    requires b > 0
    ensures q * b >= a && (q == 0 || (q - 1) * b < a)
  {
    (a + b - 1) / b
  }

  /** A quotient rounded up is at most any `q` with `a <= q * b`. */
  lemma CeilDivAtMost(a: nat, b: nat, q: nat)
    requires b > 0 && a <= q * b
    ensures CeilDiv(a, b) <= q
  {
  }

  /** The square root of a card count between 4 and 48 lies between 2 and 6. */
  lemma ISqrtRange(k: nat)
    requires 1 <= k
    ensures ISqrt(k) >= 1
    ensures 4 <= k <= 48 ==> 2 <= ISqrt(k) <= 6
  {
    var r := ISqrt(k);
    if r >= 7 {
      MulAtLeast(r, 7);
    }
    if r <= 1 {
      assert (r + 1) * (r + 1) <= 4;
    }
  }

  lemma NextSquare(c: nat)
    ensures (c + 1) * (c + 1) == (c + 2) * c + 1
  {
  }

  lemma MulAtLeast(r: nat, m: nat)
    requires r >= m
    ensures r * r >= m * m
  {
    assert r * r >= m * r;
  }

  /** The board has room for every card. */
  lemma BoardRoom(n: nat)
    requires 1 <= n
    ensures ISqrt(2 * n) >= 1
    ensures CeilDiv(2 * n, ISqrt(2 * n)) * ISqrt(2 * n) >= 2 * n
  {
    ISqrtRange(2 * n);
  }

  /**
   * For a game of 2 to 24 pairs the board has 2 to 6 columns and at most 8 rows,
   * so each cell is named by one digit and one letter.
   */
  lemma BoardFits(n: nat)
    requires 2 <= n <= MaxPairs
    ensures 2 <= ISqrt(2 * n) <= 6
    ensures CeilDiv(2 * n, ISqrt(2 * n)) <= ISqrt(2 * n) + 2 <= 8
  {
    ISqrtRange(2 * n);
    RowsAtMost(2 * n, ISqrt(2 * n));
  }

  /** Fewer cards than the next square need at most two rows more than columns. */
  lemma RowsAtMost(k: nat, c: nat)
    requires 1 <= c && k < (c + 1) * (c + 1)
    ensures CeilDiv(k, c) <= c + 2
  {
    NextSquare(c);
    CeilDivAtMost(k, c, c + 2);
  }

  // ---------------------------------------------------------------------------
  // Naming cells
  // ---------------------------------------------------------------------------

  /** The zero-based row and column a two-character pick such as `"3b"` names. */
  function Coordinates(choice: string): (r: Option<(int, int)>)
    ensures r.Some? <==> |choice| == 2 && IsDigit(choice[0]) && IsAlpha(choice[1])
    ensures r.Some? ==> r.value.0 == DigitsValue(choice[..1]) - 1 && -1 <= r.value.0 <= 8
    ensures r.Some? ==> r.value.1 == choice[1] as int - 97
  {
    if |choice| == 2 && IsDigit(choice[0]) && IsAlpha(choice[1]) then
      Some(((choice[0] as int - '0' as int) - 1, choice[1] as int - 97))
    else None
  }

  /** The pick that names the cell in row `row`, column `col`. */
  function CellName(row: nat, col: nat): string
    requires row < 9 && col < 26
  {
    [('1' as int + row) as char, ('a' as int + col) as char]
  }

  /** A cell's name names that cell, and a pick naming a cell on the board is that cell's name. */
  lemma CellNameRoundTrip(row: nat, col: nat, choice: string)
    requires row < 9 && col < 26
    ensures Coordinates(CellName(row, col)) == Some((row, col))
    ensures Coordinates(choice) == Some((row, col)) ==> choice == CellName(row, col)
  {
    var s := CellName(row, col);
    assert IsDigit(s[0]) && IsAlpha(s[1]);
    if Coordinates(choice) == Some((row, col)) {
      assert choice[0] == s[0] && choice[1] == s[1];
    }
  }

  /** The card a pick turns over, when the pick is accepted. */
  function PickedCard(choice: string, g: Grid, rows: nat, cols: nat, excluded: Option<string>): (r: Option<string>)
    requires IsGrid(g, rows, cols)
    ensures r.Some? <==> (Coordinates(choice).Some? &&
      (var (row, col) := Coordinates(choice).value;
       0 <= row < rows && 0 <= col < cols && g[row][col] != Empty && excluded != Some(g[row][col])))
    ensures r.Some? ==> r.value != Empty && r.value in GridFaces(g)
  {
    match Coordinates(choice)
    case Some((row, col)) =>
      if 0 <= row < rows && 0 <= col < cols && g[row][col] != Empty && excluded != Some(g[row][col]) then
        FaceOnBoard(g, row, col);
        Some(g[row][col])
      else None
    case None => None
  }

  /** The second pick excludes the first card, so it is a different cell. */
  lemma SecondPickElsewhere(g: Grid, rows: nat, cols: nat, choice1: string, choice2: string)
    requires IsGrid(g, rows, cols)
    requires PickedCard(choice1, g, rows, cols, None).Some?
    requires PickedCard(choice2, g, rows, cols, PickedCard(choice1, g, rows, cols, None)).Some?
    ensures Coordinates(choice1) != Coordinates(choice2)
  {
    var card1 := PickedCard(choice1, g, rows, cols, None).value;
    var (r1, c1) := Coordinates(choice1).value;
    var (r2, c2) := Coordinates(choice2).value;
    assert g[r1][c1] == card1 && g[r2][c2] != card1;
  }

  // ---------------------------------------------------------------------------
  // The game
  // ---------------------------------------------------------------------------

  /** A side `x` belongs to a pair. */
  predicate InPair(x: string, p: Card) {
    x == p.front || x == p.back
  }

  /** Some chosen pair has both cards among its sides: what `check_match` tests. */
  predicate Matches(pairs: seq<Card>, card1: string, card2: string) {
    exists i :: 0 <= i < |pairs| && InPair(card1, pairs[i]) && InPair(card2, pairs[i])
  }

  /** `all_cards`: the front and back of each chosen pair, pair by pair. */
  method DealtCards(pairs: seq<Card>) returns (allCards: seq<string>)
    ensures allCards == AllCards(pairs)
  {
    allCards := [];
    for p := 0 to |pairs|
      invariant allCards == AllCards(pairs[..p])
    {
      assert pairs[..p + 1][..p] == pairs[..p];
      allCards := allCards + [pairs[p].front, pairs[p].back];
    }
    assert pairs[..|pairs|] == pairs;
  }

  lemma RowFacesSnoc(cards: seq<string>, i: nat)
    requires i < |cards|
    ensures RowFaces(cards[..i + 1]) == RowFaces(cards[..i]) + Face(cards[i])
  {
    assert cards[..i + 1] == cards[..i] + [cards[i]];
  }

  /** How `play` ends: the guard, typed lines or draws running out, or a won game. */
  datatype PlayEnd = TooFewPairs | OutOfInput | OutOfDraws | Won(lengthLine: nat, rounds: nat)

  /** Line `at` is the first line from `from` on that picks a card of `g`. */
  predicate FirstPickAt(lines: seq<string>, from: nat, at: nat, g: Grid, rows: nat, cols: nat, excluded: Option<string>)
    requires IsGrid(g, rows, cols)
  {
    from <= at < |lines| && PickedCard(lines[at], g, rows, cols, excluded).Some? &&
    forall j :: from <= j < at ==> PickedCard(lines[j], g, rows, cols, excluded).None?
  }

  /** No line from `from` on picks a card of `g`. */
  predicate NoPickFrom(lines: seq<string>, from: nat, g: Grid, rows: nat, cols: nat, excluded: Option<string>)
    requires IsGrid(g, rows, cols)
  {
    forall j :: from <= j < |lines| ==> PickedCard(lines[j], g, rows, cols, excluded).None?
  }

  class MemoryGame {
    var initialPairs: seq<Card>
    var fbPairs: seq<Card>
    var grid: Grid
    var rowsCount: nat
    var columnsCount: nat
    var gameRound: nat

    /** A game over the deck's pairs, in the deck's order, with nothing chosen yet. */
    constructor(deck: seq<Card>)
      ensures initialPairs == deck && fbPairs == [] && grid == []
      ensures rowsCount == 0 && columnsCount == 0 && gameRound == 0
    {
      initialPairs := deck;
      fbPairs := [];
      grid := [];
      rowsCount := 0;
      columnsCount := 0;
      gameRound := 0;
    }

    /** `play` starts a game only when there are at least two pairs. */
    predicate EnoughPairs()
      reads this
    {
      |initialPairs| >= 2
    }

    /** Ask for a game length until one is acceptable; the first acceptable line wins. */
    method ChooseGameLength(lines: seq<string>) returns (r: Option<(nat, nat)>)
      ensures r.Some? ==> r.value.0 < |lines| && GameLengthChoice(lines[r.value.0], |initialPairs|) == Some(r.value.1)
      ensures r.Some? ==> forall j :: 0 <= j < r.value.0 ==> GameLengthChoice(lines[j], |initialPairs|).None?
      ensures r.None? <==> forall j :: 0 <= j < |lines| ==> GameLengthChoice(lines[j], |initialPairs|).None?
    {
      var maxCards := |initialPairs|;
      r := Prompts.FirstAccepted(lines, s => GameLengthChoice(s, maxCards));
    }

    /** Pop `gameLength` pairs at the drawn positions from a copy of the deck's pairs. */
    method SelectCards(gameLength: nat, draws: seq<nat>)
      requires gameLength <= |initialPairs| && |draws| == gameLength
      requires ValidDraws(|initialPairs|, draws)
      modifies this
      ensures initialPairs == old(initialPairs) && grid == old(grid) && gameRound == old(gameRound)
      ensures fbPairs == Picks(initialPairs, draws)
      ensures rowsCount == old(rowsCount) && columnsCount == old(columnsCount)
    {
      var picked: seq<Card> := [];
      var available := initialPairs;
      while |picked| < gameLength
        modifies {}
        invariant |picked| <= gameLength
        invariant |available| == |initialPairs| - |picked|
        invariant ValidDraws(|available|, draws[|picked|..])
        invariant picked + Picks(available, draws[|picked|..]) == Picks(initialPairs, draws)
        decreases gameLength - |picked|
      {
        var k := |picked|;
        SelectStep(picked, available, draws[k..], Picks(initialPairs, draws));
        assert draws[k..][1..] == draws[k + 1..];
        var d := draws[k];
        var questToAdd := available[d];
        available := available[..d] + available[d + 1..];
        picked := picked + [questToAdd];
      }
      fbPairs := picked;
    }

    /** Columns: the square root of the card count, rounded down; rows: as many as the cards need. */
    method CalculateBoardSize(gameLength: nat)
      requires gameLength >= 1
      modifies this
      ensures columnsCount == ISqrt(2 * gameLength) >= 1
      ensures rowsCount == CeilDiv(2 * gameLength, columnsCount)
      ensures initialPairs == old(initialPairs) && fbPairs == old(fbPairs)
      ensures grid == old(grid) && gameRound == old(gameRound)
    {
      BoardRoom(gameLength);
      var totalCards := gameLength * 2;
      columnsCount := ISqrt(totalCards);
      rowsCount := CeilDiv(totalCards, columnsCount);
    }

    /**
     * An empty board, then each card of each chosen pair put in the first drawn
     * cell that is still empty. All cards are placed unless the draws run out.
     */
    method CreateGrid(draws: seq<(nat, nat)>) returns (used: nat, placedAll: bool)
      requires forall k :: 0 <= k < |draws| ==> draws[k].0 < rowsCount && draws[k].1 < columnsCount
      modifies this
      ensures IsGrid(grid, rowsCount, columnsCount)
      ensures placedAll ==> GridFaces(grid) == RowFaces(AllCards(fbPairs))
      ensures used <= |draws| && (!placedAll ==> used == |draws|)
      ensures initialPairs == old(initialPairs) && fbPairs == old(fbPairs) && gameRound == old(gameRound)
      ensures rowsCount == old(rowsCount) && columnsCount == old(columnsCount)
    {
      grid := GridMaker(rowsCount, columnsCount);
      var allCards := DealtCards(fbPairs);
      used := 0;
      for i := 0 to |allCards|
        invariant used <= |draws|
        invariant IsGrid(grid, rowsCount, columnsCount)
        invariant GridFaces(grid) == RowFaces(allCards[..i])
        invariant initialPairs == old(initialPairs) && fbPairs == old(fbPairs) && gameRound == old(gameRound)
        invariant rowsCount == old(rowsCount) && columnsCount == old(columnsCount)
      {
        var placed;
        used, placed := PlaceCard(allCards[i], draws, used);
        if !placed {
          return used, false;
        }
        RowFacesSnoc(allCards, i);
      }
      assert allCards[..|allCards|] == allCards;
      placedAll := true;
    }

    /** Keep drawing cells until one is empty, and put the card there. */
    method PlaceCard(card: string, draws: seq<(nat, nat)>, from: nat) returns (used: nat, placed: bool)
      requires from <= |draws|
      requires forall k :: 0 <= k < |draws| ==> draws[k].0 < rowsCount && draws[k].1 < columnsCount
      requires IsGrid(grid, rowsCount, columnsCount)
      modifies this
      ensures from <= used <= |draws| && (!placed ==> used == |draws|)
      ensures IsGrid(grid, rowsCount, columnsCount)
      ensures GridFaces(grid) == old(GridFaces(grid)) + (if placed then Face(card) else multiset{})
      ensures initialPairs == old(initialPairs) && fbPairs == old(fbPairs) && gameRound == old(gameRound)
      ensures rowsCount == old(rowsCount) && columnsCount == old(columnsCount)
    {
      used := from;
      placed := false;
      while !placed
        invariant from <= used <= |draws|
        invariant IsGrid(grid, rowsCount, columnsCount)
        invariant GridFaces(grid) == old(GridFaces(grid)) + (if placed then Face(card) else multiset{})
        invariant initialPairs == old(initialPairs) && fbPairs == old(fbPairs) && gameRound == old(gameRound)
        invariant rowsCount == old(rowsCount) && columnsCount == old(columnsCount)
        decreases |draws| - used, !placed
      {
        if used == |draws| {
          return;
        }
        var (targetRow, targetCol) := draws[used];
        used := used + 1;
        if grid[targetRow][targetCol] == Empty {
          PlaceOnEmpty(grid, targetRow, targetCol, card);
          grid := SetCell(grid, targetRow, targetCol, card);
          placed := true;
        }
      }
    }

    /** Ask for a cell until the pick is acceptable; the answer is the line's position and the card. */
    method GetCardChoice(lines: seq<string>, excludedCard: Option<string>) returns (r: Option<(nat, string)>)
      requires IsGrid(grid, rowsCount, columnsCount)
      ensures r.Some? ==> r.value.0 < |lines|
      ensures r.Some? ==> PickedCard(lines[r.value.0], grid, rowsCount, columnsCount, excludedCard) == Some(r.value.1)
      ensures r.Some? ==> forall j :: 0 <= j < r.value.0 ==> PickedCard(lines[j], grid, rowsCount, columnsCount, excludedCard).None?
      ensures r.None? <==> forall j :: 0 <= j < |lines| ==> PickedCard(lines[j], grid, rowsCount, columnsCount, excludedCard).None?
    {
      var g, rows, cols := grid, rowsCount, columnsCount;
      r := Prompts.FirstAccepted(lines, s => PickedCard(s, g, rows, cols, excludedCard));
    }

    /** Whether some chosen pair has both cards as its sides. */
    method CheckMatch(card1: string, card2: string) returns (r: bool)
      ensures r <==> Matches(fbPairs, card1, card2)
    {
      for i := 0 to |fbPairs|
        invariant forall j :: 0 <= j < i ==> !(InPair(card1, fbPairs[j]) && InPair(card2, fbPairs[j]))
      {
        var pair := fbPairs[i];
        if InPair(card1, pair) && InPair(card2, pair) {
          return true;
        }
      }
      return false;
    }

    /** Empty the two picked cells; nothing else changes. */
    method RemoveMatchedCards(choice1: string, choice2: string)
      requires Coordinates(choice1).Some? && Coordinates(choice2).Some?
      requires var (r1, c1) := Coordinates(choice1).value; 0 <= r1 < |grid| && 0 <= c1 < |grid[r1]|
      requires var (r2, c2) := Coordinates(choice2).value; 0 <= r2 < |grid| && 0 <= c2 < |grid[r2]|
      modifies this
      ensures var (r1, c1) := Coordinates(choice1).value; var (r2, c2) := Coordinates(choice2).value;
        grid == SetCell(SetCell(old(grid), r1, c1, Empty), r2, c2, Empty)
      ensures initialPairs == old(initialPairs) && fbPairs == old(fbPairs) && gameRound == old(gameRound)
      ensures rowsCount == old(rowsCount) && columnsCount == old(columnsCount)
    {
      var (row1, col1) := Coordinates(choice1).value;
      var (row2, col2) := Coordinates(choice2).value;
      grid := SetCell(grid, row1, col1, Empty);
      grid := SetCell(grid, row2, col2, Empty);
    }

    /** Whether every cell is empty. */
    method IsGameComplete() returns (r: bool)
      ensures r <==> AllEmpty(grid)
    {
      for row := 0 to |grid|
        invariant forall i, c :: 0 <= i < row && 0 <= c < |grid[i]| ==> grid[i][c] == Empty
      {
        for col := 0 to |grid[row]|
          invariant forall c :: 0 <= c < col ==> grid[row][c] == Empty
        {
          if grid[row][col] != Empty {
            return false;
          }
        }
      }
      return true;
    }

    /**
     * The rounds of `play`: until the board is clear, pick a card, pick a second
     * one, and take both off when they are a pair. Stops early when the typed
     * lines run out. A finished game took at least one round per two cards on the
     * board, and each round read at least two lines.
     */
    method PlayRounds(lines: seq<string>) returns (complete: bool)
      requires IsGrid(grid, rowsCount, columnsCount)
      modifies this
      ensures IsGrid(grid, rowsCount, columnsCount)
      ensures complete ==> AllEmpty(grid)
      ensures complete ==> |old(GridFaces(grid))| <= 2 * gameRound <= |lines|
      ensures GridFaces(grid) <= old(GridFaces(grid))
      ensures initialPairs == old(initialPairs) && fbPairs == old(fbPairs)
      ensures rowsCount == old(rowsCount) && columnsCount == old(columnsCount)
    {
      gameRound := 0;
      var pos := 0;
      complete := IsGameComplete();
      while !complete
        invariant IsGrid(grid, rowsCount, columnsCount)
        invariant complete ==> AllEmpty(grid)
        invariant 2 * gameRound <= pos <= |lines|
        invariant |old(GridFaces(grid))| <= |GridFaces(grid)| + 2 * gameRound
        invariant GridFaces(grid) <= old(GridFaces(grid))
        invariant initialPairs == old(initialPairs) && fbPairs == old(fbPairs)
        invariant rowsCount == old(rowsCount) && columnsCount == old(columnsCount)
        decreases |lines| - pos, !complete
      {
        var consumed, answered, _, _ := PlayRound(lines[pos..]);
        if !answered {
          return false;
        }
        pos := pos + consumed;
        complete := IsGameComplete();
      }
      AllEmptyNoFaces(grid);
    }

    /**
     * `play`: with fewer than two pairs nothing changes. Otherwise the first
     * acceptable line gives the length, that many pairs are drawn, the board is
     * sized and dealt, and the rounds read the lines after the length. A won game
     * reports how many rounds it took.
     */
    method Play(lines: seq<string>, pairDraws: seq<nat>, cellDraws: seq<(nat, nat)>) returns (r: PlayEnd)
      modifies this
      ensures r == TooFewPairs <==> !old(EnoughPairs())
      ensures r == TooFewPairs ==> fbPairs == old(fbPairs) && grid == old(grid) && gameRound == old(gameRound)
      ensures r == TooFewPairs ==> rowsCount == old(rowsCount) && columnsCount == old(columnsCount)
      ensures initialPairs == old(initialPairs)
      ensures r.Won? ==> r.lengthLine < |lines| && GameLengthChoice(lines[r.lengthLine], |initialPairs|) == Some(|fbPairs|)
      ensures r.Won? ==> forall j :: 0 <= j < r.lengthLine ==> GameLengthChoice(lines[j], |initialPairs|).None?
      ensures r.Won? ==> |fbPairs| <= |pairDraws| && ValidDraws(|initialPairs|, pairDraws[..|fbPairs|])
      ensures r.Won? ==> fbPairs == Picks(initialPairs, pairDraws[..|fbPairs|])
      ensures r.Won? ==> columnsCount == ISqrt(2 * |fbPairs|) && rowsCount == CeilDiv(2 * |fbPairs|, columnsCount)
      ensures r.Won? ==> IsGrid(grid, rowsCount, columnsCount) && AllEmpty(grid) && gameRound == r.rounds
      ensures r.Won? ==> |RowFaces(AllCards(fbPairs))| <= 2 * r.rounds <= |lines| - r.lengthLine - 1
    {
      if !EnoughPairs() {
        return TooFewPairs;
      }
      var choice := ChooseGameLength(lines);
      if choice.None? {
        return OutOfInput;
      }
      var (at, gameLength) := choice.value;
      if |pairDraws| < gameLength || !ValidDraws(|initialPairs|, pairDraws[..gameLength]) {
        return OutOfDraws;
      }
      SelectCards(gameLength, pairDraws[..gameLength]);
      CalculateBoardSize(gameLength);
      if !forall k :: 0 <= k < |cellDraws| ==> cellDraws[k].0 < rowsCount && cellDraws[k].1 < columnsCount {
        return OutOfDraws;
      }
      var used, placedAll := CreateGrid(cellDraws);
      if !placedAll {
        return OutOfDraws;
      }
      var complete := PlayRounds(lines[at + 1..]);
      if !complete {
        return OutOfInput;
      }
      return Won(at, gameRound);
    }

    /**
     * One round: count it, read the two picks, and play them. The first pick is
     * the first acceptable line, the second the first acceptable line after it
     * that does not show the first card again; a pair is then taken off the
     * board. `answered` is false when the lines run out first, and then the
     * board is as it was; `consumed` is how many lines the round read.
     */
    method PlayRound(lines: seq<string>) returns (consumed: nat, answered: bool, at1: nat, at2: nat)
      requires IsGrid(grid, rowsCount, columnsCount)
      modifies this
      ensures initialPairs == old(initialPairs) && fbPairs == old(fbPairs)
      ensures rowsCount == old(rowsCount) && columnsCount == old(columnsCount)
      ensures 2 <= consumed <= |lines| || !answered
      ensures gameRound == old(gameRound) + 1
      ensures IsGrid(grid, rowsCount, columnsCount)
      ensures GridFaces(grid) <= old(GridFaces(grid))
      ensures |old(GridFaces(grid))| <= |GridFaces(grid)| + 2
      ensures !answered ==> grid == old(grid)
      ensures answered ==> at1 < at2 < |lines| && consumed == at2 + 1
      ensures answered ==> FirstPickAt(lines, 0, at1, old(grid), rowsCount, columnsCount, None)
      ensures answered ==> FirstPickAt(lines, at1 + 1, at2, old(grid), rowsCount, columnsCount,
                                       PickedCard(lines[at1], old(grid), rowsCount, columnsCount, None))
      ensures answered ==>
        var card1 := PickedCard(lines[at1], old(grid), rowsCount, columnsCount, None).value;
        var card2 := PickedCard(lines[at2], old(grid), rowsCount, columnsCount, Some(card1)).value;
        var (r1, c1) := Coordinates(lines[at1]).value; var (r2, c2) := Coordinates(lines[at2]).value;
        grid == if Matches(fbPairs, card1, card2) then SetCell(SetCell(old(grid), r1, c1, Empty), r2, c2, Empty) else old(grid)
      ensures !answered ==>
        (NoPickFrom(lines, 0, old(grid), rowsCount, columnsCount, None) ||
         (FirstPickAt(lines, 0, at1, old(grid), rowsCount, columnsCount, None) &&
          NoPickFrom(lines, at1 + 1, old(grid), rowsCount, columnsCount,
                     PickedCard(lines[at1], old(grid), rowsCount, columnsCount, None))))
    {
      gameRound := gameRound + 1;
      var first := GetCardChoice(lines, None);
      if first.None? {
        return 0, false, 0, 0;
      }
      at1 := first.value.0;
      var choice1 := lines[at1];
      var rest := lines[at1 + 1..];
      var second := GetCardChoice(rest, Some(first.value.1));
      assert forall j :: at1 < j < |lines| ==> lines[j] == rest[j - at1 - 1];
      if second.None? {
        return 0, false, at1, 0;
      }
      at2 := at1 + 1 + second.value.0;
      var choice2 := lines[at2];
      var matched := TakeTurn(choice1, choice2);
      return at2 + 1, true, at1, at2;
    }

    /**
     * One round after both picks are accepted: the two cards go when they are a
     * pair, and a match takes exactly those two cards off the board.
     */
    method TakeTurn(choice1: string, choice2: string) returns (matched: bool)
      requires IsGrid(grid, rowsCount, columnsCount)
      requires PickedCard(choice1, grid, rowsCount, columnsCount, None).Some?
      requires PickedCard(choice2, grid, rowsCount, columnsCount, PickedCard(choice1, grid, rowsCount, columnsCount, None)).Some?
      modifies this
      ensures IsGrid(grid, rowsCount, columnsCount)
      ensures var card1 := old(PickedCard(choice1, grid, rowsCount, columnsCount, None)).value;
        var card2 := old(PickedCard(choice2, grid, rowsCount, columnsCount, Some(card1))).value;
        && (matched <==> Matches(fbPairs, card1, card2))
        && (matched ==> GridFaces(grid) + multiset{card1, card2} == old(GridFaces(grid)))
      ensures matched ==> var (r1, c1) := Coordinates(choice1).value; var (r2, c2) := Coordinates(choice2).value;
        grid == SetCell(SetCell(old(grid), r1, c1, Empty), r2, c2, Empty)
      ensures !matched ==> grid == old(grid)
      ensures initialPairs == old(initialPairs) && fbPairs == old(fbPairs) && gameRound == old(gameRound)
      ensures rowsCount == old(rowsCount) && columnsCount == old(columnsCount)
    {
      var card1 := PickedCard(choice1, grid, rowsCount, columnsCount, None).value;
      var card2 := PickedCard(choice2, grid, rowsCount, columnsCount, Some(card1)).value;
      matched := CheckMatch(card1, card2);
      if matched {
        var (row1, col1) := Coordinates(choice1).value;
        var (row2, col2) := Coordinates(choice2).value;
        MatchTakesTwo(grid, row1, col1, row2, col2);
        RemoveMatchedCards(choice1, choice2);
      }
    }
  }

  /** Emptying two different cells that hold cards takes exactly those two cards off the board. */
  lemma MatchTakesTwo(g: Grid, r1: nat, c1: nat, r2: nat, c2: nat)
    requires r1 < |g| && c1 < |g[r1]| && r2 < |g| && c2 < |g[r2]|
    requires (r1, c1) != (r2, c2) && g[r1][c1] != Empty && g[r2][c2] != Empty
    ensures GridFaces(SetCell(SetCell(g, r1, c1, Empty), r2, c2, Empty)) + multiset{g[r1][c1], g[r2][c2]} == GridFaces(g)
  {
    var h := SetCell(g, r1, c1, Empty);
    ClearCell(g, r1, c1);
    assert h[r2][c2] == g[r2][c2];
    ClearCell(h, r2, c2);
  }

  /** Writing a card into an empty cell adds that card to the board. */
  lemma PlaceOnEmpty(g: Grid, r: nat, c: nat, v: string)
    requires r < |g| && c < |g[r]| && g[r][c] == Empty
    ensures GridFaces(SetCell(g, r, c, v)) == GridFaces(g) + Face(v)
  {
    GridFacesUpdate(g, r, c, v);
  }

  /** Emptying a cell that holds a card takes that card off the board. */
  lemma ClearCell(g: Grid, r: nat, c: nat)
    requires r < |g| && c < |g[r]| && g[r][c] != Empty
    ensures GridFaces(SetCell(g, r, c, Empty)) + multiset{g[r][c]} == GridFaces(g)
  {
    GridFacesUpdate(g, r, c, Empty);
  }

  /** A card in a cell is one of the cards on the board. */
  lemma {:induction false} FaceOnBoard(g: Grid, r: nat, c: nat)
    requires r < |g| && c < |g[r]| && g[r][c] != Empty
    ensures g[r][c] in GridFaces(g)
  {
    ClearCell(g, r, c);
  }
}

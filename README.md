# PythonFlashCards in Dafny

A model of the logic of the PythonFlashCards command-line flashcard program,
with proofs about it. Everything the program takes from outside is a
parameter: the lines the user types, the cell and pair indices `randrange`
returns, and the text of an imported file.

It covers:

- **The Quizlet text importer** (`ImportUtils`, over `Strings`). It splits the
  text into cards, merges continuation lines, turns the last extra field
  separator into a line break, drops malformed entries and builds the
  front → back map.
- **The memory game** (`MemoryGame`, a class with the Python object's fields).
  It chooses pairs without replacement, sizes the board, deals the cards by
  rejection sampling, validates picks like `3b`, detects matches, clears cells
  and tests for completion.
- **The box renderer** (`DisplayUtils`). It hard-wraps a card with hyphens
  (`grid_builder`), frames it (`out_put_builder`), and lists a deck
  (`card_displayer`, `display_deck`).
- **The three quizzes.** `QuizSetup` holds the shared opening: the length
  prompt, the sample of distinct pairs and the ignored direction. The rounds
  are in `QuizWriteAnswer`, `QuizSelfReport` and `QuizMultipleChoice`; the last
  fills a four-slot option array in place. `Draws` models drawing a pair from
  the pool and removing it.
- **The deck editor and prompts** (`AppController`). Adding and removing cards
  changes a `Deck` object in place. The module also holds the reply-acceptance
  rule of each `while True` prompt.
- **The deck menu** (`DeckUtils`).

A Python `dict` that the program iterates in insertion order is a sequence of
`Cards.Card` whose fronts are unique. The importer's result is a Dafny `map`.

Behaviour of the code worth knowing, modelled as written:

- **Three fields.** A line `x<TAB>y<TAB>z` imports as the card `x → "y\nz"`,
  because the overflow pass replaces the *last* extra tab.
- **Empty files.** In line-break mode an empty file, or any text without a
  field separator, raises `IndexError` instead of giving an empty deck.
- **Repeated fronts.** The last pair wins; duplicates are not dropped.
- **Overflow store.** The overflow pass writes each rewritten segment to
  `data3.index(itm1)`. When an earlier segment is equal to the current one,
  the rewrite lands on that earlier copy. The segments that come out are
  always the same multiset, but they are in place only under the condition
  `ImportUtils.OverflowInPlace` states.

## Model

| member | source | states |
|---|---|---|
| ImportUtils.ImportQuizletLineskipFix | import_utils.py:24-59 | The parser, run pass by pass on the read lines, returns exactly the result `ParseQuizlet` specifies for the concatenated text |
| ImportUtils.CleanPrefix | import_utils.py:32-40 | One scan counts the leading segments that contain `fbsep`; the segment it stops at lacks `fbsep` |
| ImportUtils.MergeAt | import_utils.py:37 | The merge fails (IndexError) exactly when one segment is left; otherwise the list shrinks by one |
| ImportUtils.MergeContinuations | import_utils.py:31-40 | When the merge loop ends, every segment contains `fbsep` and the list is no longer than before |
| ImportUtils.ScanAndMerge | import_utils.py:34-40 | One inner scan gives the clean count, merges exactly when the count is short, and gives the `MergeAt` result |
| ImportUtils.MergePass | import_utils.py:31-40 | The `while` loop computes `MergeContinuations` (terminating because each merge removes a segment) |
| ImportUtils.MergeKeepsText | import_utils.py:31-40 | When the first segment holds `fbsep` the merge never raises, and joining the segments with line breaks gives the same text |
| ImportUtils.MergeRotatesFirst | import_utils.py:36-37 | A first segment without `fbsep` is appended, after a line break, to the last segment (index -1) |
| ImportUtils.MergeSucceedsWithSeparator | import_utils.py:31-40 | When any segment holds the separator, the merge loop does not raise |
| ImportUtils.MergeRaisesWithoutSeparator | import_utils.py:31-40 | When no segment holds a one-character separator, the merge loop raises |
| ImportUtils.ParseRaisesIff | import_utils.py:29-40 | In line-break mode with a one-character separator, the parser raises exactly when the separator is absent from the text |
| ImportUtils.RaisesOnlyWithoutSeparator | import_utils.py:29-40 | Only line-break mode raises, and only when no line holds the separator |
| ImportUtils.EmptyTextRaises | import_utils.py:29-37 | An empty file in line-break mode raises IndexError instead of giving an empty deck |
| ImportUtils.OverflowPass | import_utils.py:42-45 | The overflow loop, with its store at `data3.index(itm1)`, computes `OverflowFrom` |
| ImportUtils.OverflowStepChangesOne | import_utils.py:43-45 | One step changes at most one position: the first copy of segment `i`, at or before `i`, which receives segment `i` resolved; every other position keeps its segment |
| ImportUtils.OverflowKeepsMultiset | import_utils.py:42-45 | After the pass, the segments are a rearrangement of the segments each resolved on its own |
| ImportUtils.OverflowInPlace | import_utils.py:42-45 | When no segment equals an earlier one or an earlier one's replacement, the pass is positional |
| ImportUtils.ResolvedAll | import_utils.py:43-45 | Resolving each segment keeps the list's length and resolves position by position |
| ImportUtils.ResolvedPieces | import_utils.py:43-54 | A resolved segment splits into two pieces exactly when it had one or two separators; three or more still give too many pieces |
| ImportUtils.PieceLists | import_utils.py:47-50 | `data4` has one list per segment other than `""` and `"\n"`, and no piece contains `fbsep` |
| ImportUtils.PieceListsKeepAll | import_utils.py:47-50 | Every non-blank segment's split is in `data4`, and every list in `data4` is the split of a non-blank segment |
| ImportUtils.BlankSegmentsGiveNothing | import_utils.py:47-55 | Segments that are all `""` or `"\n"` give no lists, so nothing is reported as not included |
| ImportUtils.Pairs | import_utils.py:52-57 | Every kept pair comes from a two-piece list, and every two-piece list is kept |
| ImportUtils.Skipped | import_utils.py:53-55 | Every list reported as not included has a length other than 2, every such list is reported, and kept and reported lists together number all lists |
| ImportUtils.SplitPass | import_utils.py:47-57 | The split and cull loops compute `data5` and the reported lists as `Pairs` and `Skipped` of `PieceLists` |
| ImportUtils.DictOfSpec | import_utils.py:59 | Every front of a kept pair is a key, every entry comes from a pair, and a repeated front keeps the back of its last pair |
| ImportUtils.NoSeparatorInCards | import_utils.py:47-59 | No front and no back of an imported card contains the field separator |
| ImportUtils.OneCardDeck | import_utils.py:52-59 | A single two-piece list gives a one-card deck, with nothing skipped |
| ImportUtils.MergeTwo | import_utils.py:35-37 | A line without the separator is appended, after a line break, to the line before it |
| ImportUtils.OneCardPieces | import_utils.py:42-50 | `f<TAB>v` becomes the single piece list `[f, v]` |
| ImportUtils.ThreeFields | import_utils.py:29-59 | `f<TAB>b1<TAB>b2` imports as `{f: b1 + "\n" + b2}`, with nothing skipped |
| ImportUtils.ContinuationLine | import_utils.py:29-59 | `f<TAB>b`, a line break and a tab-free `c` import as `{f: b + "\n" + c}` |
| ImportUtils.TwoCards | import_utils.py:29-59 | Two lines `f1<TAB>b1` and `f2<TAB>b2` import as `{f1: b1}` then `f2: b2` stored over it, so a repeated front keeps the second back |
| ImportUtils.TwoCardsExample | import_utils.py:29-59 | `"a\tb\nc\td"` imports as `{"a": "b", "c": "d"}` |
| ImportUtils.ContinuationExample | import_utils.py:29-59 | `"a\tb\nc"` imports as `{"a": "b\nc"}` |
| ImportUtils.ThreeFieldsExample | import_utils.py:29-59 | `"x\ty\tz"` imports as `{"x": "y\nz"}` |
| ImportUtils.ResolvedTwo | import_utils.py:45 | With exactly two tabs, the second tab becomes a line break |
| ImportUtils.ResolvedFew | import_utils.py:43 | A segment with at most one tab is left alone |
| Strings.Split | import_utils.py:29 | `split` gives at least one piece, and no piece contains the separator |
| Strings.JoinSplit | import_utils.py:29-37 | Joining the pieces of a split with the separator gives the text back |
| Strings.SplitLength | import_utils.py:43-53 | `split` gives one piece more than `count` counts |
| Strings.ReplaceLastCount | import_utils.py:45 | `"\n".join(s.rsplit(c, 1))` removes exactly one occurrence of `c` |
| Strings.StripIdempotent | app_controller.py:45-48 | `strip()` is idempotent |
| Strings.DecimalParses | app_controller.py:53 | `int(str(n))` is `n`, and decimal text has nothing to strip |
| Strings.LowerIdempotent | app_controller.py:159 | `lower()` is idempotent and keeps whitespace where it is |
| MemoryGame.GridMaker | memory_game.py:175-177 | `grid_maker(h, w)` is an `h × w` board with every cell empty and no card on it |
| MemoryGame.AllEmptyNoFaces | memory_game.py:118-124 | The board is clear exactly when the multiset of cards on it is empty |
| MemoryGame.MemoryGame.constructor | memory_game.py:22-34 | The initial pairs are the deck's items in order; everything else starts empty or zero |
| MemoryGame.GameLengthChoice | memory_game.py:44-48 | An accepted length is all digits, with a value from 2 to `min(24, pairs)` |
| MemoryGame.GameLengthTyped | memory_game.py:44-48 | Every length in that range, typed in decimal, is accepted |
| MemoryGame.NoLengthForSmallDeck | memory_game.py:44-46 | With fewer than two pairs no typed length is accepted |
| MemoryGame.MemoryGame.ChooseGameLength | memory_game.py:36-52 | The answer is the first acceptable line; no earlier line is acceptable; none only when no line is acceptable |
| MemoryGame.MemoryGame.SelectCards | memory_game.py:54-61 | `f_b_pairs` is the pairs popped at the drawn positions from a copy of `initial_pairs`, which stays unchanged |
| Draws.PicksFromPool | memory_game.py:57-61 | One pick per draw, and the picks form a sub-multiset of the pool: no replacement |
| Draws.PicksAll | memory_game.py:57-61 | Drawing as many times as there are pairs takes every pair exactly once |
| Draws.PicksDistinct | memory_game.py:57-61 | Picks from a pool without repeats have no repeats |
| MemoryGame.ISqrt | memory_game.py:66 | `floor(sqrt(k))`: `r² ≤ k < (r+1)²` |
| MemoryGame.CeilDiv | memory_game.py:67 | `ceil(a / b)`: the least `q` with `q·b ≥ a` |
| MemoryGame.MemoryGame.CalculateBoardSize | memory_game.py:63-67 | The board has `floor(sqrt(2n))` columns (at least 1) and `ceil(2n / columns)` rows; nothing else changes |
| MemoryGame.BoardRoom | memory_game.py:63-67 | rows × columns ≥ 2n: the board has room for every card |
| MemoryGame.BoardFits | memory_game.py:63-67 | For 2 to 24 pairs the board has 2 to 6 columns and at most 8 rows, so one digit and one letter name every cell |
| MemoryGame.AllCardsSides | memory_game.py:73-76 | The dealt cards are exactly the fronts and the backs of the chosen pairs |
| MemoryGame.DealtCards | memory_game.py:74-76 | The extend loop builds `AllCards`: the front and the back of each pair, in order |
| MemoryGame.MemoryGame.CreateGrid | memory_game.py:69-86 | The board is rows × columns; when every card is placed, the cards on it are exactly the multiset of dealt cards |
| MemoryGame.MemoryGame.PlaceCard | memory_game.py:80-86 | The rejection loop adds the card to the cards on the board exactly once; if the draws run out first, the cards on the board are unchanged |
| MemoryGame.PlaceOnEmpty | memory_game.py:84-85 | A card written into an empty cell is added to the cards on the board |
| MemoryGame.Coordinates | memory_game.py:93-95 | A pick has coordinates exactly when it is a digit then a letter; the row is the digit's value minus one (-1 to 8) and the column is `ord(letter) - 97` |
| MemoryGame.CellNameRoundTrip | memory_game.py:93-95 | A cell's name names that cell, and the only pick that names a cell is that cell's name |
| MemoryGame.PickedCard | memory_game.py:93-100 | A pick is accepted exactly when it is a digit then a letter, inside the board, on a card that is not the excluded one; the card returned is on the board |
| MemoryGame.SecondPickElsewhere | memory_game.py:148-152 | The second pick, which excludes the first card, names a different cell |
| MemoryGame.MemoryGame.GetCardChoice | memory_game.py:88-102 | The answer is the first accepted pick and its card; none only when no line is accepted |
| MemoryGame.MemoryGame.CheckMatch | memory_game.py:104-109 | True exactly when some chosen pair has both cards among its sides |
| MemoryGame.MemoryGame.RemoveMatchedCards | memory_game.py:111-116 | The two picked cells become empty; nothing else changes |
| MemoryGame.MatchTakesTwo | memory_game.py:111-116 | Emptying two different occupied cells removes exactly those two cards from the board |
| MemoryGame.MemoryGame.IsGameComplete | memory_game.py:118-124 | True exactly when every cell is empty |
| MemoryGame.MemoryGame.TakeTurn | memory_game.py:155-160 | A match removes exactly the two picked cards; a miss leaves the board as it was |
| MemoryGame.MemoryGame.PlayRound | memory_game.py:144-160 | A round counts itself and reads the first acceptable pick, then the first acceptable pick after it that does not show the first card; the two cells are emptied exactly when `check_match` holds, and otherwise the board is unchanged. When the lines run out first, either no line was acceptable or no second pick followed, and the board is as it was |
| MemoryGame.MemoryGame.PlayRounds | memory_game.py:141-160 | The cards on the board only ever leave it; when the loop reports the game complete, the board is clear and the round count is at least half the cards that were on the board and at most half the lines read |
| MemoryGame.MemoryGame.Play | memory_game.py:126-162 | With fewer than two pairs nothing changes; a won game used the first acceptable length, drew that many pairs, sized the board from them, cleared it, and reports between half the dealt cards and half the remaining lines as its round count |
| DisplayUtils.WrapLine | display_utils.py:13-25 | A line longer than `rowlen` becomes `len // rowlen + 1` pieces |
| DisplayUtils.WrapLineShape | display_utils.py:16-25 | The first pieces are cuts at 0, r, 2r, …; later ones are the remainder; every piece is at most `rowlen + 1` wide |
| DisplayUtils.CutCountQuotient | display_utils.py:16-25 | The number of cuts is `len // rowlen`, or one less when the length is a multiple of `rowlen` |
| DisplayUtils.TailRepeats | display_utils.py:16-25 | When the length is a multiple of `rowlen`, the remainder is emitted twice |
| DisplayUtils.NextPiece | display_utils.py:17-25 | While the rest is longer than `rowlen`, the piece is the slice at `x` lstripped, with a hyphen when a letter is followed by a non-space; after that, the lstripped rest |
| DisplayUtils.CutLine | display_utils.py:13-25 | The cutting loop produces `WrapLine` |
| DisplayUtils.ShortLinesKept | display_utils.py:7-11 | A card whose lines all fit comes back line for line |
| DisplayUtils.ZeroWidthFails | display_utils.py:10-16 | With `rowlen` 0 the card fails exactly when one of its lines is non-empty (ZeroDivisionError) |
| DisplayUtils.EmptyCardGrid | display_utils.py:7-11 | `""` gives `[""]` at any width |
| DisplayUtils.BreaksGrid | display_utils.py:7-11 | `"\n\n\n"` gives four empty lines at any width |
| DisplayUtils.TrailingBreakGrid | display_utils.py:7-11 | A line that fits followed by a line break gives the line and a final `""` |
| DisplayUtils.ShortestWidthGrid | display_utils.py:16-25 | `"ABC"` at width 1 gives four pieces, the last two equal |
| DisplayUtils.WrapLines | display_utils.py:9-29 | A positive `rowlen` never fails |
| DisplayUtils.WrapLinesWidth | display_utils.py:9-29 | Every line is at most `rowlen + 1` wide |
| DisplayUtils.GridBuilder | display_utils.py:5-29 | `grid_builder` computes `GridOf`: split on line breaks, short lines kept, long ones cut |
| DisplayUtils.LongestLine | display_utils.py:34-38 | The max loop computes `Longest` |
| DisplayUtils.LongestBounds | display_utils.py:35-38 | The longest length bounds every line and is the length of one of them, or 0 for no lines |
| DisplayUtils.TextLineShape | display_utils.py:43-46 | A text line is `"| "`, the item, spaces up to the longest line, then `" |\n"` |
| DisplayUtils.BodyLine | display_utils.py:48-50 | Text line `i` sits at offset `i·(w+5)` of the body, in grid order |
| DisplayUtils.OutPutLength | display_utils.py:39-51 | The framed card is a line break plus `|grid| + 3` lines of `longest + 5` characters |
| DisplayUtils.OutPutBuilder | display_utils.py:32-52 | The builder returns `OutPut`: top border, blank line, one text line per grid line, bottom border |
| DisplayUtils.EmptyLineBoxed | display_utils.py:39-51 | An empty line is framed as `"\n____\n|  |\n|  |\n|__|\n"` |
| DisplayUtils.CardDisplayer | display_utils.py:54-56 | `card_displayer` is `out_put_builder(grid_builder(card))` with `rowlen` 80 |
| DisplayUtils.CardWidth | display_utils.py:54-56 | A framed card's text is at most 81 characters wide |
| DisplayUtils.ShortCard | display_utils.py:54-56 | A one-line card of at most 80 characters is framed as it is, in four lines of its width plus 5 |
| DisplayUtils.DisplayDeck | display_utils.py:59-64 | The printout is the Front/Back heading and then each pair, in the deck's order |
| DisplayUtils.DisplayPairs | display_utils.py:62-63 | The `printout +=` loop appends every card's boxed front, arrow and boxed back |
| DisplayUtils.DeckEntryAt | display_utils.py:61-63 | Card `i`'s entry follows the heading and the entries of the cards before it |
| QuizSetup.ChooseQuizLength | quiz_write_answer.py:18-22 | Accepted: the first reply with `0 < int(reply) < pairs`. A non-number raises ValueError. Every earlier reply was a number out of range |
| QuizSetup.LengthTyped | quiz_multiple_choice.py:18-22 | Every acceptable length, typed in decimal, is accepted |
| QuizSetup.NoLengthForTinyDeck | quiz_self_report.py:18-22 | With at most one pair no length is accepted |
| QuizSetup.SampledProperties | quiz_write_answer.py:24-28 | The sample has no repeats, holds only deck pairs, holds every drawn pair and is no longer than the draws |
| QuizSetup.SampleQuiz | quiz_multiple_choice.py:24-28 | The loop stops with exactly `n` distinct pairs, or when the draws run out, and not earlier |
| QuizSetup.DirectionIgnored | quiz_self_report.py:29-35 | Both directions show the front and ask for the back |
| Draws.DrainStep | quiz_write_answer.py:42-50 | `remove(random_pair)` on a pool without repeats pops exactly the drawn pair |
| QuizWriteAnswer.FullMarks | quiz_write_answer.py:43-47 | Full marks exactly when every guess equals the back of its pair |
| QuizWriteAnswer.WriteAnswerRounds | quiz_write_answer.py:40-50 | One round per draw while guesses last; the score counts the exact matches, is at most the rounds, and a finished quiz asks each pair once |
| QuizSelfReport.NextVerdict | quiz_self_report.py:45-56 | The first `y` or `n` reply and what it says, with no such reply before it |
| QuizSelfReport.RepromptIgnored | quiz_self_report.py:55-56 | A reply other than `y` and `n` only asks again |
| QuizSelfReport.AnyResponse | quiz_self_report.py:43-45 | The reveal reply does not matter, because `len(response) >= 0` always holds |
| QuizSelfReport.AllKnown | quiz_self_report.py:48-51 | The score is full exactly when every self-assessment is `y` |
| QuizSelfReport.AskVerdict | quiz_self_report.py:45-56 | The loop reads up to the next `y` or `n` and reports it, or ends with the input |
| QuizSelfReport.ReportRound | quiz_self_report.py:43-56 | One round consumes exactly the next verdict of the reply stream |
| QuizSelfReport.SelfReportRounds | quiz_self_report.py:40-56 | One round per draw while verdicts last; the score counts the `y` verdicts and is at most the rounds |
| QuizMultipleChoice.AnswerAtSlot | quiz_multiple_choice.py:44-46 | The answer index is the drawn slot, unless the back is `" "`, which `index` finds at slot 0 |
| QuizMultipleChoice.PlaceAnswer | quiz_multiple_choice.py:44-46 | The array is four blanks with the back at the drawn slot, and `multi_dict[answer]` is the back |
| QuizMultipleChoice.OfferOne | quiz_multiple_choice.py:51-54 | One offer writes the back at the location only when it is not shown, the location is not the answer, and the option is blank |
| QuizMultipleChoice.OffersKeep | quiz_multiple_choice.py:49-54 | Filling never overwrites the answer or a filled option, fills only with deck backs, and keeps the options distinct |
| QuizMultipleChoice.FilledOptions | quiz_multiple_choice.py:44-54 | A completed fill shows four different options: the answer and three backs of the deck |
| QuizMultipleChoice.FillChoices | quiz_multiple_choice.py:49-54 | The nested loops compute `Offers`, ending at a full pass over the deck once no option is blank, or when the draws run out |
| QuizMultipleChoice.GuessIndex | quiz_multiple_choice.py:60-74 | Only `a` to `d` are accepted, as options 0 to 3 |
| QuizMultipleChoice.LabelsName | quiz_multiple_choice.py:58-72 | Option `i` is picked exactly by the label printed before it |
| QuizMultipleChoice.AskRound | quiz_multiple_choice.py:44-74 | The answer is the slot `index` finds for the back; the round is unfinished only when the fill draws or the replies run out, and unfinished with replies left only when the fill draws ran out; otherwise its pick is the next accepted reply |
| QuizMultipleChoice.AskChoice | quiz_multiple_choice.py:56-74 | The loop reads up to the next accepted reply and reports its option, or ends with the input |
| QuizMultipleChoice.ScoreIsHits | quiz_multiple_choice.py:75-77 | Unless a back is `" "`, a round scores exactly when the pick is the answer's slot |
| QuizMultipleChoice.MultipleChoiceRounds | quiz_multiple_choice.py:40-83 | The score counts the rounds whose pick is the answer and is at most the rounds; the rounds stop only when pairs, replies or fill draws run out |
| Prompts.FirstAccepted | app_controller.py:158-162 | A retry loop returns the first accepted line; none only when no line is accepted |
| AppController.Get | app_controller.py:144-145 | The `key in deck` test fails exactly when the key is absent, and `deck[key]` is the back of that key's card |
| AppController.InsertGet | app_controller.py:127 | After storing a new key, that key holds its back and every other key keeps its value |
| AppController.DeleteGone | app_controller.py:146 | After `del`, the key is gone and the deck stays a dictionary |
| AppController.DeleteKeepsOthers | app_controller.py:146 | After `del`, every other key keeps its value |
| AppController.DeleteUndoesInsert | app_controller.py:127-146 | Deleting a key just stored gives back the deck |
| AppController.AddCardEffect | app_controller.py:114-130 | Adding keeps a dictionary and changes the deck exactly when it reports success; then the stripped front holds the stripped back and nothing else changes |
| AppController.AddTwice | app_controller.py:126-130 | Adding the same front again is refused as a duplicate |
| AppController.RemoveCardEffect | app_controller.py:133-148 | Removing changes the deck exactly when a card is removed, reporting its back; only the named key goes |
| AppController.RemoveUndoesAdd | app_controller.py:114-148 | Removing the front of a card just added restores the deck |
| AppController.Deck.HandleAddCard | app_controller.py:114-130 | On empty front, empty back or duplicate front the deck is unchanged; otherwise exactly the new card is added |
| AppController.Deck.HandleRemoveCard | app_controller.py:133-148 | On an empty deck or an empty reply nothing changes; otherwise exactly the named card is deleted, or nothing if absent |
| AppController.DeckChoice | app_controller.py:45-57 | `i` in any case and with any spacing gives the importer; any other accepted reply is the stripped text of a number from 1 to the deck count |
| AppController.NumberIsNotImporter | app_controller.py:50-57 | A number is accepted exactly when it is from 1 to the deck count |
| AppController.DeckNumberTyped | app_controller.py:53-55 | Typing any listed deck's number selects it |
| AppController.GetValidDeckChoice | app_controller.py:43-62 | The first acceptable reply wins; none only when no reply is acceptable |
| AppController.FileIndexMeaning | app_controller.py:221-223 | The number `index + 1` selects `index`, and nothing else does |
| AppController.FileChoice | app_controller.py:220-223 | An accepted reply gives an index below the file count |
| AppController.FileNumberTyped | app_controller.py:221-223 | Typing a listed file's number selects that file's index |
| AppController.GetValidFileChoice | app_controller.py:218-227 | The first acceptable reply wins, as an index below the file count |
| AppController.YesNoReplies | app_controller.py:241-247 | True exactly for `y` and `yes`, false exactly for `n` and `no`, after strip and lower |
| AppController.YesNoNormalised | app_controller.py:241 | Case and surrounding whitespace do not change the judgement |
| AppController.GetYesNoInput | app_controller.py:240-247 | The first yes/no reply wins; none only when no reply is one |
| AppController.DirectionReplies | app_controller.py:159-161 | Accepted exactly when the normalised reply is `f` or `b`, which is returned |
| AppController.DirectionNormalised | app_controller.py:159 | Case and surrounding whitespace do not change the judgement |
| AppController.GetValidDirection | app_controller.py:158-162 | The first `f` or `b` reply wins, returned as `f` or `b` |
| DeckUtils.LastIndexOfChar | deck_utils.py:18-19 | `rfind`: the last occurrence, with none after it, or -1 |
| DeckUtils.Basename | deck_utils.py:18 | A base name has no '/' |
| DeckUtils.SplitExt | deck_utils.py:19 | Root + extension is the name; the extension is empty or one dot with no other; a non-empty name has a non-empty root |
| DeckUtils.DotsHaveNoExt | deck_utils.py:19 | A name made only of dots has no extension |
| DeckUtils.StemOfFile | deck_utils.py:18-19 | `dir/stem.json` is listed as `stem` |
| DeckUtils.DeckMenuConstructor | deck_utils.py:15-23 | One entry per path, in order, numbered from 1, with the base name without extension and the path itself |

## Left out

- File access. It covers the read and the `.json` write in import_utils.py (lines 22-23, 61-64), `load_deck`/`save_deck` and all of main.py. The importer takes the file's lines as its input.
- Menus and printing. It covers `run_main_menu`, `run_deck_menu`, `run_game_menu`, `handle_import_functionality`, `handle_quiz_selection`, `handle_memory_game`, `handle_display_deck`, `print_grid` and `KeyboardInterrupt` handling. These only print or dispatch to the modelled operations.
- The prompt text that `get_valid_deck_choice` and `get_valid_file_choice` build from the menu entries. It is only printed; its numbers are those of `DeckUtils.DeckMenuConstructor`.
- Randomness is a list of indices the caller supplies, with no claim about their distribution. Rejection loops stop when the supplied indices run out. This covers `create_grid`, the quiz sampling and the multiple-choice fill.
- Typed input is a list of lines. A `while True` prompt that runs out of lines returns none (`NoMoreInput`, `None`, an unanswered round) instead of waiting forever.
- Floating point:
  - the `round(100 * score / top_score, 2)` percentage is left out (the integer score and round count are modelled);
  - `math.sqrt` is the integer square root `MemoryGame.ISqrt`.
- Python library semantics:
  - `isdigit`, `isalpha` and `lower` cover ASCII letters and digits only;
  - `strip` uses Python's whitespace characters;
  - `int()` accepts an optional sign and ASCII digits with single underscores;
  - `os.path.basename` and `os.path.splitext` are the POSIX ones, with '/' as the only separator.
- `display_utils.grid_builder` with a negative `rowlen` is not modelled (`rowlen` is a `nat`). `rowlen` 0 is modelled and fails.
- Empty separators, which make Python's `split` raise ValueError, are excluded by `requires |fbsep| > 0 && |cardsep| > 0`. The program always passes non-empty ones.
- app_controller.py line 19 imports `MENU_DECK`, `MENU_MAIN` and `MENU_GAME`, which constants.py does not define. The module's functions are modelled from their text.
- AppController.Deck.HandleRemoveCard: takes the typed line as a parameter even when the deck is empty; the source reads no line then, and the model does not record whether that `input()` happened.
- AppController.Deck.HandleAddCard: takes both typed lines at once. The back line is used only when the stripped front is non-empty, as in the source, but the model does not record whether that second `input()` happened.
- MemoryGame.MemoryGame.SelectCards: requires exactly one draw per chosen pair, each within what is left of the pool; the source's `randrange(len(available_pairs))` always satisfies this.
- MemoryGame.MemoryGame.CreateGrid: states the card multiset only when all cards are placed. A card whose text is `"0"` is counted as no card on both sides, because the source cannot tell it from an empty cell.
- MemoryGame.MemoryGame.RemoveMatchedCards: requires both picks to name cells on the board, which `get_card_choice` guarantees before the call.
- MemoryGame.MemoryGame.Play: the pair and cell draws are supplied up front. Too few pair draws, or a cell draw outside the board that `calculate_board_size` gives, ends the game as `OutOfDraws`; `randrange` never returns such a draw.
- MemoryGame.MemoryGame.PlayRounds: does not prove the game ends. A player can keep missing, and the loop stops only when the typed lines run out.
- QuizSetup.ChooseQuizLength: a deck of at most one pair makes the source prompt forever (`NoLengthForTinyDeck`); the model returns `NoMoreInput` when the lines run out.
- QuizSetup.QuizSides: the two directions are the same by the source's own text (front 0, back 1 both times), so `DirectionIgnored` is the whole content.
- QuizMultipleChoice.FillChoices: requires a non-empty deck. With fewer than four distinct backs the source's fill loop never ends; the model stops when the fill draws run out.
- QuizMultipleChoice.MultipleChoiceRounds: requires one slot draw per pair draw. A back equal to `" "` is modelled as in the source: `index` returns 0, and `ScoreIsHits` excludes it.
- The quizzes are modelled stage by stage: setup in `QuizSetup`, then the rounds on the sampled pairs with the same draws and lines. There is no single method per quiz function that chains them.

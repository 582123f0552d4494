# Emoji memory game: a Dafny model of the game engine

Two players take turns turning over cards of a sixteen-card deck that holds
eight emoji faces, each twice. The repository holds two snapshots of the game
engine, and this project models both as pure functions over immutable records.
It proves the invariants each engine keeps.

**The later engine** (`src/gameReducer.ts` with `src/gameFunctions.ts`) is
modelled in the modules `GameTypes`, `GameFunctions` and `GameReducer`.

- A board is `BoardState(currentPlayer, round, cards)`.
- Each card records which player turned it face up (`displayedBy`) and in
  which round (`displayedOnRound`).
- The reducer `memoryGameReducer` handles three actions:
  - `reset` deals a fresh shuffled deck;
  - `display_one` turns a card face up for the current player;
  - `revert_incorrect_guess` turns the previous round's last two cards face
    down again.
- The helper `getTwoMostRecentlyDisplayedCardsInRound` copies the cards and
  sorts the copy by round, with cards never shown last. It keeps the cards of
  one round and returns the last two of them.
- JavaScript's `Array.prototype.sort` is stable (ECMA-262, section 23.1.3.30).
  The standard fixes the result only for a consistent comparator, and the
  model proves that the round comparator is one. So the sort is modelled as
  a stable insertion sort.
- The model proves that this sort has no effect on the result. The function
  returns the last two (or fewer) cards of that round in board order, which is
  not necessarily the order in which they were shown.
- `front/src/gameFunctions.ts` is the same code as `src/gameFunctions.ts`
  (only the name of the card type differs), so `GameFunctions` models both.

**The earlier engine** (`front/src/Game.tsx`) is modelled in the module
`FrontGame`.

- It has a fixed deck and no rounds.
- Its reducer has two actions, `reset` and `display_one`.
- It defines the game-over test, and `getRows`, which cuts the cards into
  rows of four for display.
- `getRows` is the one imperative piece of the core: a `method` with a loop
  and its invariants, proved against its specification.

Shared pieces:

- `Emojis` holds the eight faces.
- `Wrappers` holds `Option`, which models `null`.
- `Seqs` holds small facts about sequences of any element type.

Three places where the code decides and the model follows it:

- After the second card of a round, `display_one` always passes the turn,
  whether or not the two faces match.
- `display_one` takes the displayed count before the action and adds one,
  without checking the selected card. A card that is already face up, or an
  id that is not on the board, leaves no more cards face up, yet it can still
  pass the turn and advance the round.
- When only one card was shown in the previous round, `revert_incorrect_guess`
  turns that one card face down. The action is a no-op only when no card was
  shown in that round.

## Model

| member | source | states |
|---|---|---|
| Emojis.DistinctOccursOnce | src/gameReducer.ts:33 | In a list of distinct faces, each listed face occurs once and no other face occurs |
| Emojis.PairedDeckHasEachFaceTwice | src/gameReducer.ts:33-34 | The emoji list after `emojis.push(...emojis)` has 16 entries, its 8 faces are distinct, and any reordering of it holds each face exactly twice and no other face |
| GameTypes.OtherPlayer | src/gameReducer.ts:76 | The player switch gives the other of the two players |
| GameFunctions.IsTruthy | src/gameFunctions.ts:4 | A `displayedBy` value is truthy exactly when it is set, because a player number is never 0 |
| GameFunctions.FilterDisplayed | src/gameFunctions.ts:4 | Filtering on `displayedBy` keeps at most as many cards as it is given |
| GameFunctions.CountDisplayedCards | src/gameFunctions.ts:3-5 | The displayed count is between 0 and the number of cards |
| GameFunctions.CountDisplayedCardsIsFaceUpCount | src/gameFunctions.ts:3-5 | The count of truthy `displayedBy` equals the number of positions whose `displayedBy` is non-null, because player numbers are 1 or 2 |
| GameFunctions.CompareByRound | src/gameFunctions.ts:12-22 | The comparator is negative exactly when `a` was shown and `b` was not, or `a` was shown in an earlier round than `b`. It is zero exactly when both have the same `displayedOnRound`, null included |
| GameFunctions.CompareByRoundIsConsistent | src/gameFunctions.ts:12-22 | The comparator is consistent: swapping the arguments flips the sign, a zero result is symmetric, and both "not after" and "before" are transitive |
| GameFunctions.InsertByRound | src/gameFunctions.ts:12-22 | Inserting a card with the comparator adds exactly that card, and the result starts with the card or with the old first card |
| GameFunctions.InsertKeepsSorted | src/gameFunctions.ts:12-22 | Inserting into a sequence sorted by the comparator keeps it sorted |
| GameFunctions.SortByRound | src/gameFunctions.ts:11-22 | The sorted copy is a permutation of the cards and is ordered by round, with cards never shown last |
| GameFunctions.FilterByRoundKey | src/gameFunctions.ts:23 | Every card kept by the filter has `displayedOnRound` equal to the round asked for |
| GameFunctions.FilterAtPositions | src/gameFunctions.ts:23 | The filter keeps exactly the cards shown in the round, in input order: the k-th kept card is the card at the k-th position of the reference list |
| GameFunctions.NoneShownFrom | src/gameFunctions.ts:23 | When no card was shown in the round, the reference list of positions is empty |
| GameFunctions.SpliceLastTwo | src/gameFunctions.ts:24 | `splice(-2)` returns min(2, length) elements, and they are the last elements of the input, in order |
| GameFunctions.GetTwoMostRecentlyDisplayedCardsInRound | src/gameFunctions.ts:7-25 | At most two cards are returned, and each was shown in the given round, so a card never shown is never returned |
| GameFunctions.FilterInsert | src/gameFunctions.ts:12-23 | Filtering by a key after inserting a card gives the card (if it has the key) followed by the filtered rest: insertion never moves a card past one with the same key |
| GameFunctions.SortByRoundIsStable | src/gameFunctions.ts:11-23 | For every key, filtering the sorted copy gives the same cards in the same order as filtering the input: the sort is stable |
| GameFunctions.GetTwoIgnoresSort | src/gameFunctions.ts:11-24 | The result equals `splice(-2)` applied to the plain filter of the input: the sort has no effect |
| GameFunctions.PositionsInRoundFrom | src/gameFunctions.ts:23 | Lists, in strictly increasing order, every position from `i` on whose card was shown in the round, and no other position |
| GameFunctions.LastTwoPositions | src/gameFunctions.ts:23-24 | At most two positions, increasing, each holding a card shown in the round |
| GameFunctions.LastTwoPositionsAreTheLast | src/gameFunctions.ts:23-24 | Exactly min(2, number shown in the round) positions are kept, and every card shown in the round that is left out lies before all kept positions |
| GameFunctions.LastTwoPositionsAreAll | src/gameFunctions.ts:23-24 | When at most two cards were shown in the round, the kept positions are exactly the positions of the cards shown in it |
| GameFunctions.GetTwoIsLastTwoShownInRound | src/gameFunctions.ts:7-25 | The k-th returned card is the input card at the k-th of the last two positions shown in the round: distinct input cards, in input (array) order |
| GameFunctions.GetTwoTakesUpToTwo | src/gameFunctions.ts:7-25 | The result has exactly min(2, number of cards shown in the round) cards |
| GameReducer.PlayerForRound | src/gameReducer.ts:47-49 | The player of a round is player 1 exactly when the round is odd |
| GameReducer.DoubledEmojisRepeatFaces | src/gameReducer.ts:33-34 | After `push(...emojis)` the list has 16 entries, entry i and entry i + 8 are the i-th face, and no other two entries are equal |
| GameReducer.CreateCardsToStartGame | src/gameReducer.ts:36-45 | A deck dealt from a shuffle of the doubled list has 16 cards, ids equal to positions, every card face down, and the faces in shuffle order |
| GameReducer.InitialState | src/gameReducer.ts:47-51 | The initial state has player 1, round 1, a fresh face-down deck, and satisfies the invariant |
| GameReducer.FreshDeckHasEachFaceTwice | src/gameReducer.ts:33-45 | Every face of the fresh deck occurs exactly twice, and no other face occurs |
| GameReducer.Reveal | src/gameReducer.ts:87-91 | A shown card keeps its id and face and records the player and round |
| GameReducer.Hide | src/gameReducer.ts:106 | A hidden card keeps its id and face and has both display fields null |
| GameReducer.FindById | src/gameReducer.ts:105 | `find` returns a card exactly when some card has the id. The card it returns has that id and is the first one that does |
| GameReducer.OnDisplayOne | src/gameReducer.ts:68-96 | Cards with the selected id are shown by the current player in the current round, and all others are unchanged. Player and round both change exactly when the prior count plus one is even, even for a card already face up or absent |
| GameReducer.OnRevertIncorrectGuess | src/gameReducer.ts:97-109 | Player and round are unchanged. A card is hidden exactly when its id is among the cards returned for round `round - 1`; every other card is unchanged and faces are not compared |
| GameReducer.MemoryGameReducer | src/gameReducer.ts:58-113 | Reset gives player 1, round 1 and all cards face down. The other actions keep the number of cards, move the round by 0 or 1, and change the player exactly when the round moves. Revert keeps both |
| GameReducer.DisplayOnePreservesValid | src/gameReducer.ts:68-96 | `display_one` keeps the invariant |
| GameReducer.RevertPreservesValid | src/gameReducer.ts:97-109 | `revert_incorrect_guess` keeps the invariant |
| GameReducer.ReducerPreservesValid | src/gameReducer.ts:58-113 | Every action keeps the invariant: 16 cards with ids equal to positions and each face twice, round at least 1, player 1 exactly in odd rounds, both display fields null together, and every shown card recorded with a round no later than the current one, shown by that round's player |
| GameReducer.RevertHidesLastTwoOfPreviousRound | src/gameReducer.ts:97-109 | With ids equal to positions, revert hides exactly the cards at the last two (or fewer) positions shown in the previous round, so at most two cards change |
| GameReducer.RevertWithoutPreviousRoundIsNoOp | src/gameReducer.ts:98-108 | When no card was shown in the previous round, revert returns the state unchanged |
| GameReducer.InitialStateIsPaired | src/gameReducer.ts:47-51 | The initial state is in paired play: no round has a card shown |
| GameReducer.RevealCountsOneMore | src/gameReducer.ts:69-70 | Showing a face-down card raises the displayed count by exactly one |
| GameReducer.DisplayOneKeepsPairs | src/gameReducer.ts:68-96 | Selecting a face-down card raises the count by one, advances the round exactly when it is the second card of its round, and keeps paired play |
| GameReducer.RevealKeepsPairs | src/gameReducer.ts:69-95 | Showing one face-down card keeps paired play when the round moves on as the reducer moves it |
| GameReducer.HideCountsFewer | src/gameReducer.ts:102-108 | Hiding every card of one round lowers the displayed count by the number of cards shown in that round |
| GameReducer.RevertHidesWholePreviousRound | src/gameReducer.ts:97-109 | When the previous round has zero or two cards shown, revert hides all of them and changes nothing else |
| GameReducer.RevertKeepsPairs | src/gameReducer.ts:97-109 | In paired play, revert empties the previous round, leaves every other round as it was, lowers the count by what it hid, and keeps paired play |
| GameReducer.ReducerKeepsPairs | src/gameReducer.ts:58-113 | Played as the board allows it (face-down cards only), every action keeps paired play: each earlier round has 0 or 2 cards shown, and the current round has one exactly when the count is odd |
| FrontGame.FaceDownInOrder | front/src/Game.tsx:23-40 | The dealt cards have ids equal to positions, the given faces in order, and no player |
| FrontGame.InitialState | front/src/Game.tsx:21-41 | `initialState` has player 1 and 16 cards, card i being `Card(i, face i of the layout, null)`, and no card is displayed |
| FrontGame.InitialFacesArePaired | front/src/Game.tsx:24-39 | The fixed deck is a rearrangement of the eight faces listed twice |
| FrontGame.InitialStateIsValid | front/src/Game.tsx:21-41 | The initial state satisfies the invariant, counts no card displayed, and holds each face exactly twice |
| FrontGame.FilterDisplayed | front/src/Game.tsx:87 | The filter keeps every card exactly when every card's `displayedBy` is truthy |
| FrontGame.CountDisplayedCards | front/src/Game.tsx:86-88 | The displayed count is between 0 and the number of cards |
| FrontGame.CountDisplayedCardsIsFaceUpCount | front/src/Game.tsx:86-88 | When no card holds player 0, the count equals the number of cards with non-null `displayedBy` |
| FrontGame.IsTruthy | front/src/Game.tsx:87 | A `displayedBy` value is falsy exactly when it is `null` or `0` |
| FrontGame.IsGameOver | front/src/Game.tsx:125-126 | The game is over exactly when every card's `displayedBy` is truthy |
| FrontGame.GameOverWhenAllFaceUp | front/src/Game.tsx:125-126 | Under the invariant, the game is over exactly when every card is face up |
| FrontGame.OtherPlayer | front/src/Game.tsx:60 | The switch gives a player in {1, 2} other than the given one |
| FrontGame.OnDisplayOne | front/src/Game.tsx:53-73 | Cards with the selected id show the current player and all others are unchanged. The player switches to the other of 1 and 2 exactly when the prior count plus one is even |
| FrontGame.MemoryGameReducer | front/src/Game.tsx:47-75 | Reset returns the initial state whatever the state; `display_one` keeps the number of cards; a player in {1, 2} stays in {1, 2} |
| FrontGame.DisplayOnePreservesValid | front/src/Game.tsx:53-73 | `display_one` keeps the invariant |
| FrontGame.ReducerPreservesValid | front/src/Game.tsx:47-75 | Every action keeps the invariant: player in {1, 2}, 16 cards with ids equal to positions and each face twice, and every `displayedBy` null, 1 or 2 |
| FrontGame.DisplayFaceDownCard | front/src/Game.tsx:53-73 | Selecting a face-down card updates exactly that card, raises the count by one, and changes the player exactly when the new count is even |
| FrontGame.ShowingOneCountsOneMore | front/src/Game.tsx:54-55 | Giving a face-down card a non-zero player raises the displayed count by one |
| FrontGame.GetRows | front/src/Game.tsx:77-84 | There are ceil(n/4) rows. Row k has id 4k and holds the cards from 4k up to 4k+4 (fewer in the last row). Every row but the last holds 4 cards, and the rows concatenated give back the cards |
| FrontGame.FullRowsWhenMultipleOfFour | front/src/Game.tsx:77-84 | When the number of cards is a multiple of four, every row holds exactly four cards: 16 cards give 4 rows of 4 |

## Left out

- The React view components (`Board`, `Card`, `RowView`, and the JSX of
  `Game`), `useReducer` and `dispatch`, the card-flip animation, and the DOM
  test harness are not part of this model. They only render and wire events.
- The shuffle in `./utils` is not part of this model. The `Reset` action of
  the later engine carries the order the shuffle produced, and the model
  requires only that this order is a rearrangement of the doubled face list.
- The delayed automatic revert, the guess status and the score are not part of
  this model. Their code is not in the core, and only the `GuessStatus`
  values are modelled.
- Of the click rule of the view, only "the card is face down" is modelled
  (`IsSelectable`, a precondition of the paired-play lemmas). The condition on
  the guess status is not modelled. The invariant lemmas hold for any
  selected card.
- JavaScript numbers are modelled as unbounded integers; overflow, `NaN` and
  fractional values cannot arise in the game's own arithmetic.
- The `default` branch that throws on an unknown action type is not modelled.
  The `Action` datatype admits only the three actions.
- That the helper leaves its input array unchanged holds by construction.
  Sequences are values, so the copy `[...cards]` and the in-place `sort` and
  `splice` on it cannot reach the caller's cards. No separate property states
  it.
- The emoji strings are modelled by their code points. The rules use only
  that the eight faces differ.
- GameReducer.RevertHidesLastTwoOfPreviousRound: requires ids equal to
  positions (part of the invariant). Revert matches cards by id, so without
  it a hidden card is named by id rather than by position.

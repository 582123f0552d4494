/**
 * The later game engine (src/gameReducer.ts): a pure reducer over a board of
 * sixteen cards, with rounds, turns and the revert of an incorrect guess.
 */
module GameReducer {
  import opened Wrappers
  import opened Emojis
  import opened GameTypes
  import opened GameFunctions
  import opened Seqs

  const DeckSize := 16

  /** `emojis` after `emojis.push(...emojis)`: every face listed twice. */
  const DoubledEmojis: seq<Emoji> := Faces + Faces

  /**
   * `push(...emojis)` appends a copy of the eight faces to themselves: the
   * list has sixteen entries and entry `i + 8` repeats entry `i`.
   */
  lemma DoubledEmojisRepeatFaces()
    ensures |DoubledEmojis| == DeckSize
    ensures forall i :: 0 <= i < 8 ==> DoubledEmojis[i] == Faces[i] && DoubledEmojis[i + 8] == Faces[i]
    ensures forall i, j :: 0 <= i < j < DeckSize && DoubledEmojis[i] == DoubledEmojis[j] ==> j == i + 8
  {
    assert Distinct(Faces);
  }

  /**
   * What the external `shuffle` leaves in the copy it is given: the doubled
   * list of faces, in some order.
   */
  predicate IsShuffleOfDeck(shuffled: seq<Emoji>) {
    multiset(shuffled) == multiset(DoubledEmojis)
  }

  /** The faces of the cards, in board order. */
  function EmojisOf(cards: seq<Card>): (faces: seq<Emoji>)
    ensures |faces| == |cards|
    ensures forall i :: 0 <= i < |cards| ==> faces[i] == cards[i].emoji
  {
    seq(|cards|, i requires 0 <= i < |cards| => cards[i].emoji)
  }

  /** Every card's id is its position on the board. */
  predicate IdsArePositions(cards: seq<Card>) {
    forall i :: 0 <= i < |cards| ==> cards[i].id == i
  }

  predicate IsFaceDown(c: Card) {
    c.displayedBy.None? && c.displayedOnRound.None?
  }

  predicate AllFaceDown(cards: seq<Card>) {
    forall i :: 0 <= i < |cards| ==> IsFaceDown(cards[i])
  }

  /** The player whose turn it is in `round`: player 1 in odd rounds, player 2 in even ones. */
  function PlayerForRound(round: int): (p: PlayerNumber)
    ensures (p == 1) == (round % 2 == 1)
  {
    if round % 2 == 1 then 1 else 2
  }

  // ---------------------------------------------------------------------------
  // Fresh decks and the initial state

  /** `createCardsToStartGame`, given the order the shuffle produced. */
  function CreateCardsToStartGame(shuffled: seq<Emoji>): (cards: seq<Card>)
    requires IsShuffleOfDeck(shuffled)
    ensures |cards| == DeckSize
    ensures IdsArePositions(cards) && AllFaceDown(cards)
    ensures EmojisOf(cards) == shuffled
  {
    assert |shuffled| == |multiset(shuffled)| == |DoubledEmojis|;
    seq(|shuffled|, i requires 0 <= i < |shuffled| => Card(i, shuffled[i], None, None))
  }

  /**
   * `initialState`, and also what `reset` returns: `reset` keeps the player
   * and round of `initialState` and deals a new deck.
   */
  function InitialState(shuffled: seq<Emoji>): (s: BoardState)
    requires IsShuffleOfDeck(shuffled)
    ensures s.currentPlayer == 1 && s.round == 1
    ensures |s.cards| == DeckSize && IdsArePositions(s.cards) && AllFaceDown(s.cards)
    ensures EmojisOf(s.cards) == shuffled
    ensures Valid(s)
  {
    BoardState(1, 1, CreateCardsToStartGame(shuffled))
  }

  /**
   * A deck dealt from a shuffle of the doubled list holds each of the eight
   * faces exactly twice and no other face.
   */
  lemma FreshDeckHasEachFaceTwice(shuffled: seq<Emoji>, e: Emoji)
    requires IsShuffleOfDeck(shuffled)
    ensures multiset(EmojisOf(CreateCardsToStartGame(shuffled)))[e] == if e in Faces then 2 else 0
  {
    PairedDeckHasEachFaceTwice(shuffled, e);
  }

  // ---------------------------------------------------------------------------
  // The invariant of every state the reducer can reach

  /**
   * The display fields of a card are set together, to a round not later than
   * the current one and to the player whose turn that round was.
   */
  predicate DisplayConsistent(c: Card, round: int) {
    match c.displayedOnRound
    case None => c.displayedBy.None?
    case Some(r) => 1 <= r <= round && c.displayedBy == Some(PlayerForRound(r))
  }

  ghost predicate Valid(s: BoardState) {
    && |s.cards| == DeckSize
    && IdsArePositions(s.cards)
    && IsShuffleOfDeck(EmojisOf(s.cards))
    && s.round >= 1
    && s.currentPlayer == PlayerForRound(s.round)
    && forall i :: 0 <= i < |s.cards| ==> DisplayConsistent(s.cards[i], s.round)
  }

  // ---------------------------------------------------------------------------
  // The actions

  datatype Action =
    | Reset(shuffled: seq<Emoji>)  // carries the order the shuffle produced for the new deck
    | DisplayOne(selectedCard: Card)
    | RevertIncorrectGuess

  /** The card shown by `player` in `round`. */
  function Reveal(c: Card, player: PlayerNumber, round: int): (d: Card)
    ensures d.id == c.id && d.emoji == c.emoji
    ensures d.displayedBy == Some(player) && d.displayedOnRound == Some(round)
  {
    c.(displayedBy := Some(player), displayedOnRound := Some(round))
  }

  /** The card turned face down again. */
  function Hide(c: Card): (d: Card)
    ensures d.id == c.id && d.emoji == c.emoji && IsFaceDown(d)
  {
    c.(displayedBy := None, displayedOnRound := None)
  }

  /**
   * `display_one`: the cards whose id is the selected card's are shown by the
   * current player in the current round. Player and round move on when the
   * displayed count before the action, plus one, is even; that count is taken
   * before the action even when the selected card is already face up or is
   * not on the board.
   */
  function OnDisplayOne(state: BoardState, selected: Card): (next: BoardState)
    ensures |next.cards| == |state.cards|
    ensures forall i :: 0 <= i < |state.cards| && state.cards[i].id == selected.id ==>
              next.cards[i] == Reveal(state.cards[i], state.currentPlayer, state.round)
    ensures forall i :: 0 <= i < |state.cards| && state.cards[i].id != selected.id ==>
              next.cards[i] == state.cards[i]
    ensures (CountDisplayedCards(state.cards) + 1) % 2 == 0 ==>
              next.currentPlayer != state.currentPlayer && next.round == state.round + 1
    ensures (CountDisplayedCards(state.cards) + 1) % 2 != 0 ==>
              next.currentPlayer == state.currentPlayer && next.round == state.round
  {
    var displayedCardsCountAfterThisAction := CountDisplayedCards(state.cards) + 1;
    var mustSwitchPlayers := displayedCardsCountAfterThisAction % 2 == 0;
    var newCurrentPlayer := if mustSwitchPlayers then OtherPlayer(state.currentPlayer) else state.currentPlayer;
    var newRound := if mustSwitchPlayers then state.round + 1 else state.round;
    var cards := seq(|state.cards|, i requires 0 <= i < |state.cards| =>
      if state.cards[i].id == selected.id then Reveal(state.cards[i], state.currentPlayer, state.round)
      else state.cards[i]);
    BoardState(newCurrentPlayer, newRound, cards)
  }

  /** Some card of `cards` has the id `id`. */
  predicate HasCardWithId(cards: seq<Card>, id: int) {
    exists k :: 0 <= k < |cards| && cards[k].id == id
  }

  /**
   * `cards.find((q) => q.id === id)`: the first card with that id, or
   * `undefined` (None) when there is none. A found card is an object, so the
   * result is truthy exactly when it is Some.
   */
  function FindById(cards: seq<Card>, id: int): (r: Option<Card>)
    ensures r.Some? <==> HasCardWithId(cards, id)
    ensures r.Some? ==> exists k :: 0 <= k < |cards| && cards[k] == r.value && r.value.id == id &&
                          forall j :: 0 <= j < k ==> cards[j].id != id
  {
    if cards == [] then None
    else if cards[0].id == id then Some(cards[0])
    else
      var r := FindById(cards[1..], id);
      assert forall k :: 1 <= k < |cards| ==> cards[k] == cards[1..][k - 1];
      r
  }

  /**
   * `revert_incorrect_guess`: the cards whose id is that of one of the two
   * most recently shown in the previous round are turned face down again;
   * faces are not compared, and player and round stay as they are.
   */
  function OnRevertIncorrectGuess(state: BoardState): (next: BoardState)
    ensures next.currentPlayer == state.currentPlayer && next.round == state.round
    ensures |next.cards| == |state.cards|
    ensures forall i :: 0 <= i < |state.cards| ==>
              var lastTwoCards := GetTwoMostRecentlyDisplayedCardsInRound(state.cards, state.round - 1);
              next.cards[i] == if HasCardWithId(lastTwoCards, state.cards[i].id) then Hide(state.cards[i]) else state.cards[i]
  {
    var lastTwoCards := GetTwoMostRecentlyDisplayedCardsInRound(state.cards, state.round - 1);
    var cards := seq(|state.cards|, i requires 0 <= i < |state.cards| =>
      if FindById(lastTwoCards, state.cards[i].id).Some? then Hide(state.cards[i]) else state.cards[i]);
    state.(cards := cards)
  }

  /** `memoryGameReducer`: one step of the game. */
  function MemoryGameReducer(state: BoardState, action: Action): (next: BoardState)
    requires action.Reset? ==> IsShuffleOfDeck(action.shuffled)
    ensures action.Reset? ==> next.currentPlayer == 1 && next.round == 1 && AllFaceDown(next.cards)
    ensures !action.Reset? ==> |next.cards| == |state.cards| && state.round <= next.round <= state.round + 1
    ensures action.RevertIncorrectGuess? ==> next.currentPlayer == state.currentPlayer && next.round == state.round
    ensures !action.Reset? ==> (next.round == state.round + 1 <==> next.currentPlayer != state.currentPlayer)
  {
    match action
    case Reset(shuffled) => InitialState(shuffled)
    case DisplayOne(selectedCard) => OnDisplayOne(state, selectedCard)
    case RevertIncorrectGuess => OnRevertIncorrectGuess(state)
  }

  // ---------------------------------------------------------------------------
  // Every action keeps the invariant

  lemma DisplayOnePreservesValid(state: BoardState, selected: Card)
    requires Valid(state)
    ensures Valid(OnDisplayOne(state, selected))
  {
    var next := OnDisplayOne(state, selected);
    SameElements(EmojisOf(next.cards), EmojisOf(state.cards));
    assert next.currentPlayer == PlayerForRound(next.round);
    forall i | 0 <= i < |next.cards| ensures DisplayConsistent(next.cards[i], next.round) {
      assert DisplayConsistent(state.cards[i], state.round);
    }
  }

  lemma RevertPreservesValid(state: BoardState)
    requires Valid(state)
    ensures Valid(OnRevertIncorrectGuess(state))
  {
    var next := OnRevertIncorrectGuess(state);
    forall i | 0 <= i < |state.cards| ensures next.cards[i] == state.cards[i] || next.cards[i] == Hide(state.cards[i]) {
    }
    HidingKeepsValid(state, next);
  }

  /** Turning any cards face down, and nothing else, keeps the invariant. */
  lemma HidingKeepsValid(state: BoardState, next: BoardState)
    requires Valid(state)
    requires next.round == state.round && next.currentPlayer == state.currentPlayer && |next.cards| == |state.cards|
    requires forall i :: 0 <= i < |state.cards| ==> next.cards[i] == state.cards[i] || next.cards[i] == Hide(state.cards[i])
    ensures Valid(next)
  {
    forall i | 0 <= i < |next.cards|
      ensures next.cards[i].emoji == state.cards[i].emoji && DisplayConsistent(next.cards[i], next.round)
    {
      assert DisplayConsistent(state.cards[i], state.round);
    }
    SameElements(EmojisOf(next.cards), EmojisOf(state.cards));
  }

  /**
   * From `initialState` on, every state satisfies Valid: player 1 plays the
   * odd rounds and player 2 the even ones, a card's two display fields are
   * null together, no card was shown after the current round, and the deck
   * keeps its sixteen cards with each face twice.
   */
  lemma ReducerPreservesValid(state: BoardState, action: Action)
    requires Valid(state)
    requires action.Reset? ==> IsShuffleOfDeck(action.shuffled)
    ensures Valid(MemoryGameReducer(state, action))
  {
    match action
    case Reset(_) =>
    case DisplayOne(selectedCard) => DisplayOnePreservesValid(state, selectedCard);
    case RevertIncorrectGuess => RevertPreservesValid(state);
  }

  // ---------------------------------------------------------------------------
  // What revert_incorrect_guess hides

  /**
   * With ids equal to positions, revert hides exactly the cards at the last
   * two (or fewer) positions shown in the previous round, and no other card.
   */
  lemma RevertHidesLastTwoOfPreviousRound(state: BoardState)
    requires IdsArePositions(state.cards)
    ensures var next := OnRevertIncorrectGuess(state);
            var q := LastTwoPositions(state.cards, state.round - 1);
            forall i :: 0 <= i < |state.cards| ==>
              next.cards[i] == if i in q then Hide(state.cards[i]) else state.cards[i]
  {
    var cards := state.cards;
    var next := OnRevertIncorrectGuess(state);
    var lastTwoCards := GetTwoMostRecentlyDisplayedCardsInRound(cards, state.round - 1);
    var q := LastTwoPositions(cards, state.round - 1);
    GetTwoIsLastTwoShownInRound(cards, state.round - 1);
    forall i | 0 <= i < |cards| ensures next.cards[i] == if i in q then Hide(cards[i]) else cards[i] {
      var found := HasCardWithId(lastTwoCards, cards[i].id);
      assert next.cards[i] == if found then Hide(cards[i]) else cards[i];
      if found {
        var k :| 0 <= k < |lastTwoCards| && lastTwoCards[k].id == cards[i].id;
        assert lastTwoCards[k] == cards[q[k]];
      }
      if i in q {
        var k :| 0 <= k < |q| && q[k] == i;
        assert lastTwoCards[k] == cards[i];
      }
      assert found <==> i in q;
    }
  }

  /** When no card was shown in the previous round, revert changes nothing. */
  lemma RevertWithoutPreviousRoundIsNoOp(state: BoardState)
    requires forall i :: 0 <= i < |state.cards| ==> state.cards[i].displayedOnRound != Some(state.round - 1)
    ensures OnRevertIncorrectGuess(state) == state
  {
    var next := OnRevertIncorrectGuess(state);
    var lastTwoCards := GetTwoMostRecentlyDisplayedCardsInRound(state.cards, state.round - 1);
    GetTwoIsLastTwoShownInRound(state.cards, state.round - 1);
    NoneShownFrom(state.cards, state.round - 1, 0);
    assert lastTwoCards == [];
    forall i | 0 <= i < |state.cards| ensures next.cards[i] == state.cards[i] {
      assert !HasCardWithId(lastTwoCards, state.cards[i].id);
    }
    SameElements(next.cards, state.cards);
  }

  // ---------------------------------------------------------------------------
  // Play as the board allows it: pairs, rounds and turns

  /** Positions of the cards shown in round `r`. */
  ghost function ShownInRound(cards: seq<Card>, r: int): set<int> {
    set i | 0 <= i < |cards| && cards[i].displayedOnRound == Some(r)
  }

  /**
   * A game played as the board allows it: only face-down cards are selected,
   * and the other action is revert. Every earlier round has left either its
   * pair face up or nothing (the pair was reverted), and the current round has
   * one card face up exactly when the displayed count is odd.
   */
  ghost predicate PairedPlay(s: BoardState) {
    && (forall r :: r < s.round ==> |ShownInRound(s.cards, r)| in {0, 2})
    && |ShownInRound(s.cards, s.round)| == CountDisplayedCards(s.cards) % 2
  }

  /** A card may be selected on the board only while it is face down. */
  predicate IsSelectable(state: BoardState, selected: Card) {
    0 <= selected.id < |state.cards| && IsFaceDown(state.cards[selected.id])
  }

  /** The positions listed in `p`. */
  ghost function Elements(p: seq<nat>): set<nat> {
    set x | x in p
  }

  lemma {:induction false} IncreasingSeqSize(p: seq<nat>)
    requires forall a, b :: 0 <= a < b < |p| ==> p[a] < p[b]
    ensures |Elements(p)| == |p|
  {
    if p != [] {
      var n := |p| - 1;
      IncreasingSeqSize(p[..n]);
      assert p[n] !in Elements(p[..n]);
      assert Elements(p) == Elements(p[..n]) + {p[n]};
    }
  }

  lemma PositionsCountShown(cards: seq<Card>, r: int)
    ensures |PositionsInRound(cards, r)| == |ShownInRound(cards, r)|
  {
    var p := PositionsInRound(cards, r);
    assert Elements(p) == ShownInRound(cards, r);
    IncreasingSeqSize(p);
  }

  lemma InitialStateIsPaired(shuffled: seq<Emoji>)
    requires IsShuffleOfDeck(shuffled)
    ensures PairedPlay(InitialState(shuffled))
  {
    var s := InitialState(shuffled);
    assert DisplayedPositions(s.cards) == {};
    CountDisplayedCardsIsFaceUpCount(s.cards);
    forall r ensures ShownInRound(s.cards, r) == {} {
    }
  }

  /** `after` is `before` with the face-down card at `j` shown by `player` in `round`. */
  ghost predicate RevealedAt(before: seq<Card>, after: seq<Card>, j: int, player: PlayerNumber, round: int) {
    && |after| == |before|
    && 0 <= j < |before|
    && IsFaceDown(before[j])
    && after[j] == Reveal(before[j], player, round)
    && forall i :: 0 <= i < |before| && i != j ==> after[i] == before[i]
  }

  lemma RevealCountsOneMore(before: seq<Card>, after: seq<Card>, j: int, player: PlayerNumber, round: int)
    requires RevealedAt(before, after, j, player, round)
    ensures CountDisplayedCards(after) == CountDisplayedCards(before) + 1
  {
    assert DisplayedPositions(after) == DisplayedPositions(before) + {j};
    assert j !in DisplayedPositions(before);
    CountDisplayedCardsIsFaceUpCount(before);
    CountDisplayedCardsIsFaceUpCount(after);
  }

  lemma RevealAddsToItsRound(before: seq<Card>, after: seq<Card>, j: int, player: PlayerNumber, round: int, r: int)
    requires RevealedAt(before, after, j, player, round)
    ensures ShownInRound(after, r) == ShownInRound(before, r) + (if r == round then {j} else {})
    ensures r == round ==> j !in ShownInRound(before, r)
  {
  }

  /**
   * Selecting a face-down card counts one more card displayed; the round and
   * the turn move on exactly when that card is the second one of its round.
   */
  lemma DisplayOneKeepsPairs(state: BoardState, selected: Card)
    requires Valid(state) && PairedPlay(state) && IsSelectable(state, selected)
    ensures var next := OnDisplayOne(state, selected);
            && CountDisplayedCards(next.cards) == CountDisplayedCards(state.cards) + 1
            && (next.round == state.round + 1 <==> |ShownInRound(state.cards, state.round)| == 1)
            && PairedPlay(next)
  {
    var next := OnDisplayOne(state, selected);
    var cards := state.cards;
    assert RevealedAt(cards, next.cards, selected.id, state.currentPlayer, state.round);
    forall i | 0 <= i < |cards| ensures cards[i].displayedOnRound != Some(state.round + 1) {
      assert DisplayConsistent(cards[i], state.round);
    }
    RevealKeepsPairs(state, next, selected.id);
  }

  /**
   * Paired play survives showing one face-down card in the current round,
   * when the round moves on exactly as the reducer moves it.
   */
  lemma RevealKeepsPairs(state: BoardState, next: BoardState, j: int)
    requires PairedPlay(state)
    requires RevealedAt(state.cards, next.cards, j, state.currentPlayer, state.round)
    requires forall i :: 0 <= i < |state.cards| ==> state.cards[i].displayedOnRound != Some(state.round + 1)
    requires next.round == if (CountDisplayedCards(state.cards) + 1) % 2 == 0 then state.round + 1 else state.round
    ensures CountDisplayedCards(next.cards) == CountDisplayedCards(state.cards) + 1
    ensures next.round == state.round + 1 <==> |ShownInRound(state.cards, state.round)| == 1
    ensures PairedPlay(next)
  {
    RevealCountsOneMore(state.cards, next.cards, j, state.currentPlayer, state.round);
    RevealKeepsEarlierRounds(state, next, j);
    RevealKeepsCurrentRound(state, next, j);
  }

  lemma RevealKeepsEarlierRounds(state: BoardState, next: BoardState, j: int)
    requires PairedPlay(state)
    requires RevealedAt(state.cards, next.cards, j, state.currentPlayer, state.round)
    requires next.round == if (CountDisplayedCards(state.cards) + 1) % 2 == 0 then state.round + 1 else state.round
    ensures forall r :: r < next.round ==> |ShownInRound(next.cards, r)| in {0, 2}
  {
    var cards := state.cards;
    RevealAddsToItsRound(cards, next.cards, j, state.currentPlayer, state.round, state.round);
    forall r | r < next.round ensures |ShownInRound(next.cards, r)| in {0, 2} {
      RevealAddsToItsRound(cards, next.cards, j, state.currentPlayer, state.round, r);
    }
  }

  lemma RevealKeepsCurrentRound(state: BoardState, next: BoardState, j: int)
    requires PairedPlay(state)
    requires RevealedAt(state.cards, next.cards, j, state.currentPlayer, state.round)
    requires forall i :: 0 <= i < |state.cards| ==> state.cards[i].displayedOnRound != Some(state.round + 1)
    requires next.round == if (CountDisplayedCards(state.cards) + 1) % 2 == 0 then state.round + 1 else state.round
    requires CountDisplayedCards(next.cards) == CountDisplayedCards(state.cards) + 1
    ensures next.round == state.round + 1 <==> |ShownInRound(state.cards, state.round)| == 1
    ensures |ShownInRound(next.cards, next.round)| == CountDisplayedCards(next.cards) % 2
  {
    var cards := state.cards;
    assert ShownInRound(cards, state.round + 1) == {};
    RevealAddsToItsRound(cards, next.cards, j, state.currentPlayer, state.round, next.round);
  }

  /** `after` is `before` with every card shown in round `prev` turned face down. */
  ghost predicate HiddenRound(before: seq<Card>, after: seq<Card>, prev: int) {
    && |after| == |before|
    && forall i :: 0 <= i < |before| ==>
         after[i] == if before[i].displayedOnRound == Some(prev) then Hide(before[i]) else before[i]
  }

  lemma HideCountsFewer(before: seq<Card>, after: seq<Card>, prev: int)
    requires HiddenRound(before, after, prev)
    requires forall i :: 0 <= i < |before| && before[i].displayedOnRound.Some? ==> before[i].displayedBy.Some?
    ensures CountDisplayedCards(after) == CountDisplayedCards(before) - |ShownInRound(before, prev)|
  {
    var shown := ShownInRound(before, prev);
    var rest := DisplayedPositions(after);
    assert DisplayedPositions(before) == rest + shown;
    assert rest * shown == {};
    CountDisplayedCardsIsFaceUpCount(before);
    CountDisplayedCardsIsFaceUpCount(after);
  }

  lemma HideEmptiesItsRound(before: seq<Card>, after: seq<Card>, prev: int, r: int)
    requires HiddenRound(before, after, prev)
    ensures ShownInRound(after, r) == if r == prev then {} else ShownInRound(before, r)
  {
  }

  /**
   * In paired play revert turns face down both cards of the previous round,
   * or nothing when that round has none face up; no other card changes.
   */
  lemma RevertKeepsPairs(state: BoardState)
    requires Valid(state) && PairedPlay(state)
    ensures var next := OnRevertIncorrectGuess(state);
            && ShownInRound(next.cards, state.round - 1) == {}
            && (forall r :: r != state.round - 1 ==> ShownInRound(next.cards, r) == ShownInRound(state.cards, r))
            && CountDisplayedCards(next.cards)
               == CountDisplayedCards(state.cards) - |ShownInRound(state.cards, state.round - 1)|
            && PairedPlay(next)
  {
    var next := OnRevertIncorrectGuess(state);
    var cards := state.cards;
    assert |ShownInRound(cards, state.round - 1)| in {0, 2};
    RevertHidesWholePreviousRound(state);
    forall i | 0 <= i < |cards| && cards[i].displayedOnRound.Some? ensures cards[i].displayedBy.Some? {
      assert DisplayConsistent(cards[i], state.round);
    }
    HidingPreviousRoundKeepsPairs(state, next);
  }

  /** Paired play survives turning face down the zero or two cards of the previous round. */
  lemma HidingPreviousRoundKeepsPairs(state: BoardState, next: BoardState)
    requires PairedPlay(state) && next.round == state.round
    requires HiddenRound(state.cards, next.cards, state.round - 1)
    requires forall i :: 0 <= i < |state.cards| && state.cards[i].displayedOnRound.Some? ==>
               state.cards[i].displayedBy.Some?
    ensures ShownInRound(next.cards, state.round - 1) == {}
    ensures forall r :: r != state.round - 1 ==> ShownInRound(next.cards, r) == ShownInRound(state.cards, r)
    ensures CountDisplayedCards(next.cards)
            == CountDisplayedCards(state.cards) - |ShownInRound(state.cards, state.round - 1)|
    ensures PairedPlay(next)
  {
    var cards := state.cards;
    var prev := state.round - 1;
    var hidden := |ShownInRound(cards, prev)|;
    assert hidden in {0, 2};
    HideCountsFewer(cards, next.cards, prev);
    forall r ensures ShownInRound(next.cards, r) == if r == prev then {} else ShownInRound(cards, r) {
      HideEmptiesItsRound(cards, next.cards, prev, r);
    }
    var count := CountDisplayedCards(cards);
    if hidden == 2 {
      SameParity(count);
    }
    assert ShownInRound(next.cards, state.round) == ShownInRound(cards, state.round);
  }

  lemma SameParity(count: int)
    ensures (count - 2) % 2 == count % 2
  {
  }

  /** When the previous round has zero or two cards shown, revert hides all of them. */
  lemma RevertHidesWholePreviousRound(state: BoardState)
    requires IdsArePositions(state.cards)
    requires |ShownInRound(state.cards, state.round - 1)| in {0, 2}
    ensures HiddenRound(state.cards, OnRevertIncorrectGuess(state).cards, state.round - 1)
  {
    var cards := state.cards;
    var prev := state.round - 1;
    PositionsCountShown(cards, prev);
    LastTwoPositionsAreAll(cards, prev);
    RevertHidesLastTwoOfPreviousRound(state);
  }

  /**
   * Played as the board allows it, the game stays paired whatever the
   * sequence of actions.
   */
  lemma ReducerKeepsPairs(state: BoardState, action: Action)
    requires Valid(state) && PairedPlay(state)
    requires action.Reset? ==> IsShuffleOfDeck(action.shuffled)
    requires action.DisplayOne? ==> IsSelectable(state, action.selectedCard)
    ensures PairedPlay(MemoryGameReducer(state, action))
  {
    match action
    case Reset(shuffled) => InitialStateIsPaired(shuffled);
    case DisplayOne(selectedCard) => DisplayOneKeepsPairs(state, selectedCard);
    case RevertIncorrectGuess => RevertKeepsPairs(state);
  }
}

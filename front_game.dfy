/**
 * The earlier snapshot of the game (front/src/Game.tsx): a fixed deck of
 * sixteen cards, turns without rounds, no revert, and the rows of four the
 * board is drawn from.
 */
module FrontGame {
  import opened Wrappers
  import opened Emojis
  import opened Seqs

  /** In this snapshot a player is any `number`; the reducer only ever stores 1 or 2. */
  datatype Card = Card(id: int, emoji: Emoji, displayedBy: Option<int>)

  datatype BoardState = BoardState(currentPlayer: int, cards: seq<Card>)

  datatype Row = Row(id: int, cards: seq<Card>)

  datatype Action = Reset | DisplayOne(selectedCardId: int)

  const DeckSize := 16

  /** The faces of the fixed deck, four cards at a time. */
  const InitialFaces: seq<Emoji> :=
    [Heart, Rose, Heart, HeartEyes] + [HeartEyes, House, ThumbsUp, Joy] +
    [Joy, House, Rose, ThumbsUp] + [Cake, CatDragon, CatDragon, Cake]

  /** `initialState`: player 1, and the sixteen cards face down with ids 0 to 15. */
  function InitialState(): (s: BoardState)
    ensures s.currentPlayer == 1 && |s.cards| == DeckSize
    ensures forall i :: 0 <= i < DeckSize ==> s.cards[i] == Card(i, InitialFaces[i], None)
    ensures CountDisplayedCards(s.cards) == 0
  {
    FaceDownDeck(InitialFaces);
    BoardState(1, FaceDownInOrder(InitialFaces))
  }

  /** One face-down card per face, each card's id being its position. */
  function FaceDownInOrder(faces: seq<Emoji>): (cards: seq<Card>)
    ensures |cards| == |faces|
    ensures forall i :: 0 <= i < |cards| ==> cards[i] == Card(i, faces[i], None)
  {
    seq(|faces|, i requires 0 <= i < |faces| => Card(i, faces[i], None))
  }

  // ---------------------------------------------------------------------------
  // countDisplayedCards and the end of the game

  /**
   * JavaScript truthiness of a `displayedBy` value, a number or `null`: the
   * falsy values are `null` and `0`, and every other player number is truthy.
   */
  predicate IsTruthy(p: Option<int>): (t: bool)
    ensures !t <==> p == None || p == Some(0)
  {
    p.Some? && p.value != 0
  }

  /** `cards.filter((card) => card.displayedBy)`. */
  function FilterDisplayed(cards: seq<Card>): (r: seq<Card>)
    ensures |r| <= |cards|
    ensures |r| == |cards| <==> forall i :: 0 <= i < |cards| ==> IsTruthy(cards[i].displayedBy)
  {
    if cards == [] then []
    else
      var last := cards[|cards| - 1];
      FilterDisplayed(cards[..|cards| - 1]) + (if IsTruthy(last.displayedBy) then [last] else [])
  }

  /** `cards.filter((card) => card.displayedBy).length`. */
  function CountDisplayedCards(cards: seq<Card>): (n: nat)
    ensures n <= |cards|
  {
    |FilterDisplayed(cards)|
  }

  /** Positions of the cards that are face up (`displayedBy !== null`). */
  ghost function DisplayedPositions(cards: seq<Card>): set<int> {
    set i | 0 <= i < |cards| && cards[i].displayedBy.Some?
  }

  /** While no card holds player 0, the count is the number of face-up cards. */
  lemma {:induction false} CountDisplayedCardsIsFaceUpCount(cards: seq<Card>)
    requires forall i :: 0 <= i < |cards| ==> cards[i].displayedBy != Some(0)
    ensures CountDisplayedCards(cards) == |DisplayedPositions(cards)|
  {
    if cards != [] {
      var n := |cards| - 1;
      CountDisplayedCardsIsFaceUpCount(cards[..n]);
      assert DisplayedPositions(cards)
          == DisplayedPositions(cards[..n]) + (if cards[n].displayedBy.Some? then {n} else {});
    }
  }

  /** `isGameOver` in `Game`: the displayed count equals the number of cards. */
  function IsGameOver(state: BoardState): (over: bool)
    ensures over <==> forall i :: 0 <= i < |state.cards| ==> IsTruthy(state.cards[i].displayedBy)
  {
    CountDisplayedCards(state.cards) == |state.cards|
  }

  // ---------------------------------------------------------------------------
  // The reducer

  /** The other player: `currentPlayer === 1 ? 2 : 1`. */
  function OtherPlayer(p: int): (q: int)
    ensures q in {1, 2} && q != p
  {
    if p == 1 then 2 else 1
  }

  /**
   * `display_one`: the cards whose id is the selected one show the current
   * player; the turn passes when the displayed count before the action, plus
   * one, is even.
   */
  function OnDisplayOne(state: BoardState, selectedCardId: int): (next: BoardState)
    ensures |next.cards| == |state.cards|
    ensures forall i :: 0 <= i < |state.cards| && state.cards[i].id == selectedCardId ==>
              next.cards[i] == state.cards[i].(displayedBy := Some(state.currentPlayer))
    ensures forall i :: 0 <= i < |state.cards| && state.cards[i].id != selectedCardId ==>
              next.cards[i] == state.cards[i]
    ensures (CountDisplayedCards(state.cards) + 1) % 2 == 0 ==>
              next.currentPlayer != state.currentPlayer && next.currentPlayer in {1, 2}
    ensures (CountDisplayedCards(state.cards) + 1) % 2 != 0 ==> next.currentPlayer == state.currentPlayer
  {
    var numberOfCardsAfterThisAction := CountDisplayedCards(state.cards) + 1;
    var mustSwitchPlayers := numberOfCardsAfterThisAction % 2 == 0;
    var newCurrentPlayer := if mustSwitchPlayers then OtherPlayer(state.currentPlayer) else state.currentPlayer;
    var cards := seq(|state.cards|, i requires 0 <= i < |state.cards| =>
      if state.cards[i].id == selectedCardId then state.cards[i].(displayedBy := Some(state.currentPlayer))
      else state.cards[i]);
    BoardState(newCurrentPlayer, cards)
  }

  /** `memoryGameReducer`: `reset` returns `initialState` whatever the state. */
  function MemoryGameReducer(state: BoardState, action: Action): (next: BoardState)
    ensures action.Reset? ==> next == InitialState() && next.currentPlayer == 1 && |next.cards| == DeckSize
    ensures action.DisplayOne? ==> |next.cards| == |state.cards|
    ensures state.currentPlayer in {1, 2} ==> next.currentPlayer in {1, 2}
  {
    match action
    case Reset => InitialState()
    case DisplayOne(selectedCardId) => OnDisplayOne(state, selectedCardId)
  }

  // ---------------------------------------------------------------------------
  // The invariant of every state the reducer can reach

  /** The faces of the cards, in board order. */
  function EmojisOf(cards: seq<Card>): (faces: seq<Emoji>)
    ensures |faces| == |cards|
    ensures forall i :: 0 <= i < |cards| ==> faces[i] == cards[i].emoji
  {
    seq(|cards|, i requires 0 <= i < |cards| => cards[i].emoji)
  }

  predicate IdsArePositions(cards: seq<Card>) {
    forall i :: 0 <= i < |cards| ==> cards[i].id == i
  }

  /** A card is face down, or shows player 1 or player 2. */
  predicate HasPlayerOrNone(c: Card) {
    c.displayedBy == None || c.displayedBy == Some(1) || c.displayedBy == Some(2)
  }

  ghost predicate Valid(s: BoardState) {
    && s.currentPlayer in {1, 2}
    && |s.cards| == DeckSize
    && IdsArePositions(s.cards)
    && multiset(EmojisOf(s.cards)) == multiset(Faces + Faces)
    && forall i :: 0 <= i < |s.cards| ==> HasPlayerOrNone(s.cards[i])
  }

  /**
   * The layout of the fixed deck, over the multisets of any eight faces
   * `a`..`h`: its four rows hold every face twice.
   */
  lemma DeckLayoutHoldsEachTwice<T>(a: multiset<T>, b: multiset<T>, c: multiset<T>, d: multiset<T>,
                                    e: multiset<T>, f: multiset<T>, g: multiset<T>, h: multiset<T>)
    ensures (a + b + a + c) + (c + d + e + h) + (h + d + b + e) + (f + g + g + f)
         == ((a + b + c + d) + (e + f + g + h)) + ((a + b + c + d) + (e + f + g + h))
  {
  }

  /** The fixed deck pairs the eight faces. */
  lemma InitialFacesArePaired()
    ensures multiset(InitialFaces) == multiset(Faces + Faces)
  {
    FourOf(Heart, Rose, Heart, HeartEyes);
    FourOf(HeartEyes, House, ThumbsUp, Joy);
    FourOf(Joy, House, Rose, ThumbsUp);
    FourOf(Cake, CatDragon, CatDragon, Cake);
    FourOf(Heart, Rose, HeartEyes, House);
    FourOf(ThumbsUp, Cake, CatDragon, Joy);
    DeckLayoutHoldsEachTwice(multiset{Heart}, multiset{Rose}, multiset{HeartEyes}, multiset{House},
                             multiset{ThumbsUp}, multiset{Cake}, multiset{CatDragon}, multiset{Joy});
  }

  /** A deck dealt face down has ids equal to positions, shows the faces dealt and counts nothing. */
  lemma FaceDownDeck(faces: seq<Emoji>)
    ensures IdsArePositions(FaceDownInOrder(faces))
    ensures EmojisOf(FaceDownInOrder(faces)) == faces
    ensures forall i :: 0 <= i < |faces| ==> HasPlayerOrNone(FaceDownInOrder(faces)[i])
    ensures CountDisplayedCards(FaceDownInOrder(faces)) == 0
  {
    var cards := FaceDownInOrder(faces);
    assert DisplayedPositions(cards) == {};
    CountDisplayedCardsIsFaceUpCount(cards);
  }

  /** `initialState` is valid, with every card face down and each face twice. */
  lemma InitialStateIsValid(e: Emoji)
    ensures Valid(InitialState())
    ensures CountDisplayedCards(InitialState().cards) == 0
    ensures multiset(EmojisOf(InitialState().cards))[e] == if e in Faces then 2 else 0
  {
    FaceDownDeck(InitialFaces);
    InitialFacesArePaired();
    PairedDeckHasEachFaceTwice(InitialFaces, e);
  }

  lemma DisplayOnePreservesValid(state: BoardState, selectedCardId: int)
    requires Valid(state)
    ensures Valid(OnDisplayOne(state, selectedCardId))
  {
    var next := OnDisplayOne(state, selectedCardId);
    SameElements(EmojisOf(next.cards), EmojisOf(state.cards));
    forall i | 0 <= i < |next.cards| ensures HasPlayerOrNone(next.cards[i]) {
      assert HasPlayerOrNone(state.cards[i]);
    }
  }

  /** From `initialState` on, every state satisfies Valid. */
  lemma ReducerPreservesValid(state: BoardState, action: Action)
    requires Valid(state)
    ensures Valid(MemoryGameReducer(state, action))
  {
    match action
    case Reset => InitialStateIsValid(Heart);
    case DisplayOne(selectedCardId) => DisplayOnePreservesValid(state, selectedCardId);
  }

  /**
   * Selecting a face-down card on the board shows exactly that card, counts
   * one more card displayed, and passes the turn on every second card.
   */
  lemma DisplayFaceDownCard(state: BoardState, selectedCardId: int)
    requires Valid(state)
    requires 0 <= selectedCardId < |state.cards| && state.cards[selectedCardId].displayedBy == None
    ensures var next := OnDisplayOne(state, selectedCardId);
            && next.cards == state.cards[selectedCardId := state.cards[selectedCardId].(displayedBy := Some(state.currentPlayer))]
            && CountDisplayedCards(next.cards) == CountDisplayedCards(state.cards) + 1
            && (next.currentPlayer != state.currentPlayer <==> CountDisplayedCards(next.cards) % 2 == 0)
  {
    var next := OnDisplayOne(state, selectedCardId);
    var j := selectedCardId;
    var shown := state.cards[j := state.cards[j].(displayedBy := Some(state.currentPlayer))];
    SameElements(next.cards, shown);
    forall i | 0 <= i < |state.cards| ensures state.cards[i].displayedBy != Some(0) {
      assert HasPlayerOrNone(state.cards[i]);
    }
    ShowingOneCountsOneMore(state.cards, j, state.currentPlayer);
  }

  /** Showing a face-down card by a player other than 0 counts one more card displayed. */
  lemma ShowingOneCountsOneMore(cards: seq<Card>, j: int, player: int)
    requires 0 <= j < |cards| && cards[j].displayedBy == None && player != 0
    requires forall i :: 0 <= i < |cards| ==> cards[i].displayedBy != Some(0)
    ensures CountDisplayedCards(cards[j := cards[j].(displayedBy := Some(player))]) == CountDisplayedCards(cards) + 1
  {
    var shown := cards[j := cards[j].(displayedBy := Some(player))];
    assert DisplayedPositions(shown) == DisplayedPositions(cards) + {j};
    assert j !in DisplayedPositions(cards);
    CountDisplayedCardsIsFaceUpCount(cards);
    CountDisplayedCardsIsFaceUpCount(shown);
  }

  /** With players 1 and 2 only, the game is over exactly when every card is face up. */
  lemma GameOverWhenAllFaceUp(state: BoardState)
    requires Valid(state)
    ensures IsGameOver(state) <==> forall i :: 0 <= i < |state.cards| ==> state.cards[i].displayedBy.Some?
  {
    forall i | 0 <= i < |state.cards| ensures IsTruthy(state.cards[i].displayedBy) == state.cards[i].displayedBy.Some? {
      assert HasPlayerOrNone(state.cards[i]);
    }
  }

  // ---------------------------------------------------------------------------
  // getRows

  /** The cards of the rows, one row after the other. */
  function Flatten(rows: seq<Row>): seq<Card> {
    if rows == [] then [] else Flatten(rows[..|rows| - 1]) + rows[|rows| - 1].cards
  }

  function Min(a: int, b: int): int {
    if a < b then a else b
  }

  /**
   * `getRows`: cuts the cards into rows of four, the last row holding what is
   * left; row `k` has id `4 * k`.
   */
  method GetRows(squares: seq<Card>) returns (rows: seq<Row>)
    ensures |rows| == (|squares| + 3) / 4
    ensures forall k :: 0 <= k < |rows| ==>
              rows[k].id == 4 * k && rows[k].cards == squares[4 * k .. Min(4 * k + 4, |squares|)]
    ensures forall k :: 0 <= k < |rows| ==> 1 <= |rows[k].cards| <= 4
    ensures forall k :: 0 <= k < |rows| - 1 ==> |rows[k].cards| == 4
    ensures |squares| % 4 == 0 ==> forall k :: 0 <= k < |rows| ==> |rows[k].cards| == 4
    ensures Flatten(rows) == squares
  {
    rows := [];
    var i := 0;
    while i < |squares|
      invariant i == 4 * |rows|
      invariant i == 0 || i - 4 < |squares|
      invariant forall k :: 0 <= k < |rows| ==>
                  rows[k].id == 4 * k && rows[k].cards == squares[4 * k .. Min(4 * k + 4, |squares|)]
      invariant Flatten(rows) == squares[..Min(i, |squares|)]
    {
      var cellsInRow := squares[i .. Min(i + 4, |squares|)];
      FlattenAppend(rows, Row(i, cellsInRow));
      PrefixThenSlice(squares, i, Min(i + 4, |squares|));
      rows := rows + [Row(i, cellsInRow)];
      i := i + 4;
    }
    WholePrefix(squares);
    FullRowsWhenMultipleOfFour(squares, rows);
  }

  lemma FullRowsWhenMultipleOfFour(squares: seq<Card>, rows: seq<Row>)
    requires |rows| == (|squares| + 3) / 4
    requires forall k :: 0 <= k < |rows| ==> rows[k].cards == squares[4 * k .. Min(4 * k + 4, |squares|)]
    ensures |squares| % 4 == 0 ==> forall k :: 0 <= k < |rows| ==> |rows[k].cards| == 4
  {
  }

  lemma FlattenAppend(rows: seq<Row>, row: Row)
    ensures Flatten(rows + [row]) == Flatten(rows) + row.cards
  {
    assert (rows + [row])[..|rows|] == rows;
  }
}

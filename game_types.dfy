/** The records of the later game engine (src/gameReducer.ts). */
module GameTypes {
  import opened Wrappers
  import opened Emojis

  /** `PlayerNumber = 1 | 2`. */
  type PlayerNumber = p: int | p == 1 || p == 2 witness 1

  /**
   * A card of the deck. `displayedBy` and `displayedOnRound` are `null` while
   * the card is face down.
   */
  datatype Card = Card(
    id: int,
    emoji: Emoji,
    displayedBy: Option<PlayerNumber>,
    displayedOnRound: Option<int>)

  datatype BoardState = BoardState(currentPlayer: PlayerNumber, round: int, cards: seq<Card>)

  /** The outcome of the last completed round, as the view layer reports it. */
  datatype GuessStatus = Unknown | Correct | Incorrect

  /** The other player: `currentPlayer === 1 ? 2 : 1`. */
  function OtherPlayer(p: PlayerNumber): (q: PlayerNumber)
    ensures q != p
  {
    if p == 1 then 2 else 1
  }
}

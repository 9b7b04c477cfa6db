/**
 * The plain records around a game: the game row itself, the history view of a
 * finished game, and the result type of the add-player dialogs. They carry no
 * behaviour of their own.
 */
module Games {
  import opened ScoreEntries
  import opened Players

  /** A game row. The start time is the clock reading taken when the game is created. */
  datatype Game = Game(id: int, startTime: int, isFinished: bool)

  /** A score row joined with the player it belongs to. */
  datatype ScoreWithPlayer = ScoreWithPlayer(score: ScoreEntry, player: Player)

  /** A game row with its score rows, as the history list shows it. */
  datatype GameHistory = GameHistory(game: Game, scores: seq<ScoreWithPlayer>)

  /** The outcome of adding a player by name; no command of the view model produces it. */
  datatype AddPlayerResult = Success | AlreadyExists | DeletedExists(player: Player)
}

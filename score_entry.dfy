/**
 * One player's row on the scoring sheet of one game: seven category scores
 * (each an `Int`, all defaulting to 0) and the derived `total`.
 */
module ScoreEntries {
  import opened Primitives

  datatype ScoreEntry = ScoreEntry(
    id: int,
    gameId: int,
    playerId: int,
    io: Int32,
    europa: Int32,
    ganymede: Int32,
    callisto: Int32,
    technologies: Int32,
    achievements: Int32,
    assistants: Int32)
  {
    /** The exact sum of the seven categories. */
    function Sum(): int
    {
      io + europa + ganymede + callisto + technologies + achievements + assistants
    }

    /** The `total` property: the same sum computed in Kotlin `Int`, which wraps around. */
    function Total(): (t: Int32)
      ensures MinInt32 <= Sum() <= MaxInt32 ==> t == Sum()
      ensures (Sum() - t) % Modulus32 == 0
    {
      Wrap32(Sum())
    }
  }

  /** The primary constructor with its defaults: `id = 0` asks the store to generate a key. */
  function NewScoreEntry(
    gameId: int,
    playerId: int,
    id: int := 0,
    io: Int32 := 0,
    europa: Int32 := 0,
    ganymede: Int32 := 0,
    callisto: Int32 := 0,
    technologies: Int32 := 0,
    achievements: Int32 := 0,
    assistants: Int32 := 0): ScoreEntry
  {
    ScoreEntry(id, gameId, playerId, io, europa, ganymede, callisto, technologies, achievements, assistants)
  }

  /** An entry built from a game and a player only is all zero, with a total of 0. */
  lemma FreshEntryIsZero(gameId: int, playerId: int)
    ensures var e := NewScoreEntry(gameId, playerId);
      && e.id == 0 && e.gameId == gameId && e.playerId == playerId
      && e.io == 0 && e.europa == 0 && e.ganymede == 0 && e.callisto == 0
      && e.technologies == 0 && e.achievements == 0 && e.assistants == 0
      && e.Total() == 0
  {
  }

  /** The total depends on the seven categories only, not on the three keys. */
  lemma TotalIgnoresKeys(e: ScoreEntry, id: int, gameId: int, playerId: int)
    ensures e.(id := id, gameId := gameId, playerId := playerId).Total() == e.Total()
  {
  }
}

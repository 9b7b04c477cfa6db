/**
 * The local database behind the two data-access objects: the `players`,
 * `games` and `scores` tables held in memory, each in row order, with SQLite's
 * AUTOINCREMENT sequence per table. Queries are functions of the tables; the
 * statements that change rows are methods.
 *
 * `scores.gameId` and `scores.playerId` are foreign keys with no ON DELETE
 * action. Whether SQLite enforces them depends on the connection, so the
 * database is created with `foreignKeys` on or off and both behaviours are
 * modelled: when enforced, a statement that would break a reference fails and
 * changes nothing; when not, score rows outlive the game they belong to.
 */
module Store {
  import opened Primitives
  import opened Seqs
  import opened ScoreEntries
  import opened Players
  import opened Games

  // ---------------------------------------------------------------------------
  // Keys

  predicate DistinctPlayerIds(s: seq<Player>) { forall i, j | 0 <= i < j < |s| :: s[i].id != s[j].id }
  predicate DistinctGameIds(s: seq<Game>) { forall i, j | 0 <= i < j < |s| :: s[i].id != s[j].id }
  predicate DistinctScoreIds(s: seq<ScoreEntry>) { forall i, j | 0 <= i < j < |s| :: s[i].id != s[j].id }

  predicate HasPlayer(s: seq<Player>, id: int) { exists p | p in s :: p.id == id }
  predicate HasGame(s: seq<Game>, id: int) { exists g | g in s :: g.id == id }
  predicate HasScore(s: seq<ScoreEntry>, id: int) { exists e | e in s :: e.id == id }

  /** The first player in `s` with this id (Kotlin's `find { it.id == id }`). */
  function FirstWithId(s: seq<Player>, id: int): (r: Option<Player>)
    ensures r.Some? ==> r.value in s && r.value.id == id
    ensures r.None? <==> !HasPlayer(s, id)
  {
    if s == [] then None
    else if s[0].id == id then Some(s[0])
    else FirstWithId(s[1..], id)
  }

  /** With distinct ids the first match is the only one. */
  lemma {:induction false} FirstWithIdUnique(s: seq<Player>, p: Player)
    requires DistinctPlayerIds(s)
    requires p in s
    ensures FirstWithId(s, p.id) == Some(p)
  {
    if s[0] != p {
      assert s[1..] == s[1..] && p in s[1..];
      assert DistinctPlayerIds(s[1..]) by {
        forall i, j | 0 <= i < j < |s| - 1 ensures s[1..][i].id != s[1..][j].id {
          assert s[1..][i] == s[i + 1] && s[1..][j] == s[j + 1];
        }
      }
      var k :| 0 <= k < |s| && s[k] == p;
      assert s[0].id != p.id;
      FirstWithIdUnique(s[1..], p);
    }
  }

  // ---------------------------------------------------------------------------
  // Row changes

  /** `UPDATE players SET isDeleted = flag WHERE id = :id`. */
  function SetDeleted(s: seq<Player>, id: int, flag: bool): (r: seq<Player>)
    ensures |r| == |s|
    ensures forall i | 0 <= i < |s| :: r[i].id == s[i].id && r[i].name == s[i].name
    ensures forall i | 0 <= i < |s| :: r[i].isDeleted == if s[i].id == id then flag else s[i].isDeleted
  {
    seq(|s|, i requires 0 <= i < |s| => if s[i].id == id then s[i].(isDeleted := flag) else s[i])
  }

  /** Restoring a row that a soft delete has just flagged gives the table it had before. */
  lemma RestoreUndoesSoftDelete(s: seq<Player>, id: int)
    requires forall p | p in s && p.id == id :: !p.isDeleted
    ensures SetDeleted(SetDeleted(s, id, true), id, false) == s
  {
    var r := SetDeleted(SetDeleted(s, id, true), id, false);
    forall i | 0 <= i < |s| ensures r[i] == s[i] {
      assert s[i] in s;
    }
  }

  /** `@Update` of a player: the row with the same primary key takes the new value. */
  function ReplacePlayer(s: seq<Player>, p: Player): (r: seq<Player>)
    ensures |r| == |s|
    ensures forall i | 0 <= i < |s| :: r[i] == if s[i].id == p.id then p else s[i]
  {
    seq(|s|, i requires 0 <= i < |s| => if s[i].id == p.id then p else s[i])
  }

  /** `@Update` of a score row, by primary key. */
  function ReplaceScore(s: seq<ScoreEntry>, e: ScoreEntry): (r: seq<ScoreEntry>)
    ensures |r| == |s|
    ensures forall i | 0 <= i < |s| :: r[i] == if s[i].id == e.id then e else s[i]
  {
    seq(|s|, i requires 0 <= i < |s| => if s[i].id == e.id then e else s[i])
  }

  /** `UPDATE games SET isFinished = 1 WHERE id = :gameId`. */
  function MarkFinished(s: seq<Game>, id: int): (r: seq<Game>)
    ensures |r| == |s|
    ensures forall i | 0 <= i < |s| :: r[i] == if s[i].id == id then s[i].(isFinished := true) else s[i]
  {
    seq(|s|, i requires 0 <= i < |s| => if s[i].id == id then s[i].(isFinished := true) else s[i])
  }

  /** `DELETE FROM games WHERE id = :gameId`. */
  function RemoveGame(s: seq<Game>, id: int): (r: seq<Game>)
    ensures forall g :: g in r <==> g in s && g.id != id
    ensures IsSubsequence(r, s)
  {
    FilterIsSubsequence(s, (g: Game) => g.id != id);
    Filter(s, (g: Game) => g.id != id)
  }

  // ---------------------------------------------------------------------------
  // Orders of the SELECT statements

  /** `ORDER BY isDeleted, name ASC`: present players first, then by NOCASE name. */
  predicate ListedBefore(p: Player, q: Player)
  {
    (!p.isDeleted && q.isDeleted) || (p.isDeleted == q.isDeleted && NameAtMost(p.name, q.name))
  }

  /** `ORDER BY name ASC` under NOCASE. */
  predicate NameBefore(p: Player, q: Player)
  {
    NameAtMost(p.name, q.name)
  }

  /** `ORDER BY startTime DESC`. */
  predicate StartedNoEarlier(g: Game, h: Game)
  {
    g.startTime >= h.startTime
  }

  lemma ListedBeforeIsOrder()
    ensures TotalOrder(ListedBefore) && Transitive(ListedBefore)
  {
    forall p: Player, q: Player ensures ListedBefore(p, q) || ListedBefore(q, p) {
      NameAtMostTotal(p.name, q.name);
    }
    forall p: Player, q: Player, o: Player | ListedBefore(p, q) && ListedBefore(q, o)
      ensures ListedBefore(p, o)
    {
      if p.isDeleted == q.isDeleted && q.isDeleted == o.isDeleted {
        NameAtMostTransitive(p.name, q.name, o.name);
      }
    }
  }

  lemma NameBeforeIsOrder()
    ensures TotalOrder(NameBefore) && Transitive(NameBefore)
  {
    forall p: Player, q: Player ensures NameBefore(p, q) || NameBefore(q, p) {
      NameAtMostTotal(p.name, q.name);
    }
    forall p: Player, q: Player, o: Player | NameBefore(p, q) && NameBefore(q, o)
      ensures NameBefore(p, o)
    {
      NameAtMostTransitive(p.name, q.name, o.name);
    }
  }

  // ---------------------------------------------------------------------------
  // Joins

  /** The latest unfinished game, the first in row order among equal start times. */
  function LatestActive(s: seq<Game>): (r: Option<Game>)
    ensures r.None? <==> forall g | g in s :: g.isFinished
    ensures r.Some? ==> r.value in s && !r.value.isFinished
    ensures r.Some? ==> forall h | h in s && !h.isFinished :: h.startTime <= r.value.startTime
  {
    if s == [] then None
    else
      assert s == [s[0]] + s[1..];
      match LatestActive(s[1..])
      case None => if s[0].isFinished then None else Some(s[0])
      case Some(g) => if !s[0].isFinished && s[0].startTime >= g.startTime then Some(s[0]) else Some(g)
  }

  /** `players JOIN scores ON players.id = scores.playerId`, one output row per matching pair. */
  function JoinPlayers(players: seq<Player>, entries: seq<ScoreEntry>): (r: seq<Player>)
    ensures forall p | p in r :: p in players && exists e | e in entries :: e.playerId == p.id
    ensures forall e, p | e in entries && p in players && p.id == e.playerId :: p in r
  {
    if entries == [] then []
    else
      var here := Filter(players, (p: Player) => p.id == entries[0].playerId);
      var rest := JoinPlayers(players, entries[1..]);
      assert forall e | e in entries :: e == entries[0] || e in entries[1..];
      here + rest
  }

  /** Each score row paired with its player (`@Relation`); rows whose player is missing are dropped. */
  function JoinScores(players: seq<Player>, entries: seq<ScoreEntry>): (r: seq<ScoreWithPlayer>)
    ensures |r| <= |entries|
    ensures forall x | x in r :: x.score in entries && x.player in players && x.player.id == x.score.playerId
  {
    if entries == [] then []
    else
      var tail := entries[1..];
      var rest := JoinScores(players, tail);
      assert forall e | e in tail :: e in entries;
      match FirstWithId(players, entries[0].playerId)
      case None => rest
      case Some(p) => [ScoreWithPlayer(entries[0], p)] + rest
  }

  /** When every row's player is stored, the join keeps every row, in row order. */
  lemma {:induction false} JoinScoresKeepsEveryRow(players: seq<Player>, entries: seq<ScoreEntry>)
    requires forall e | e in entries :: HasPlayer(players, e.playerId)
    ensures |JoinScores(players, entries)| == |entries|
    ensures forall k | 0 <= k < |entries| :: JoinScores(players, entries)[k].score == entries[k]
  {
    if entries != [] {
      var tail := entries[1..];
      assert forall e | e in tail :: e in entries;
      JoinScoresKeepsEveryRow(players, tail);
      assert entries[0] in entries;
      var r := JoinScores(players, entries);
      assert r == [ScoreWithPlayer(entries[0], FirstWithId(players, entries[0].playerId).value)] + JoinScores(players, tail);
      forall k | 1 <= k < |entries| ensures r[k].score == entries[k] {
        assert r[k] == JoinScores(players, tail)[k - 1] && entries[k] == tail[k - 1];
      }
    }
  }

  // ---------------------------------------------------------------------------
  // The database

  class Database {
    const foreignKeys: bool
    var players: seq<Player>
    var games: seq<Game>
    var scores: seq<ScoreEntry>
    // The AUTOINCREMENT sequence of each table: the largest id it has ever held.
    var lastPlayerId: int
    var lastGameId: int
    var lastScoreId: int

    /** Primary keys are unique, lie within the sequences, and enforced references hold. */
    ghost predicate Valid()
      reads this
    {
      && DistinctPlayerIds(players) && DistinctGameIds(games) && DistinctScoreIds(scores)
      && 0 <= lastPlayerId && 0 <= lastGameId && 0 <= lastScoreId
      && (forall p | p in players :: p.id <= lastPlayerId)
      && (forall g | g in games :: g.id <= lastGameId)
      && (forall e | e in scores :: e.id <= lastScoreId)
      && (foreignKeys ==> forall e | e in scores :: HasGame(games, e.gameId) && HasPlayer(players, e.playerId))
    }

    /** A new, empty database. */
    constructor (foreignKeys: bool)
      ensures Valid()
      ensures this.foreignKeys == foreignKeys
      ensures players == [] && games == [] && scores == []
    {
      this.foreignKeys := foreignKeys;
      players, games, scores := [], [], [];
      lastPlayerId, lastGameId, lastScoreId := 0, 0, 0;
    }

    // -------------------------------------------------------------------------
    // PlayerDao

    /** `getAllPlayers`: every row, present players before deleted ones, then by name. */
    function AllPlayers(): (r: seq<Player>)
      reads this
      ensures multiset(r) == multiset(players)
      ensures SortedBy(r, ListedBefore)
      ensures forall i, j | 0 <= i < j < |r| && r[i].isDeleted :: r[j].isDeleted
    {
      ListedBeforeIsOrder();
      SortedPairwise(players, ListedBefore);
      SortBy(players, ListedBefore)
    }

    /** `getActivePlayers`: exactly the rows not soft-deleted, by name. */
    function ActivePlayers(): (r: seq<Player>)
      reads this
      ensures forall p :: multiset(r)[p] == if p.isDeleted then 0 else multiset(players)[p]
      ensures SortedBy(r, NameBefore)
    {
      var present := Filter(players, (p: Player) => !p.isDeleted);
      FilterMultiset(players, (p: Player) => !p.isDeleted);
      NameBeforeIsOrder();
      SortedPairwise(present, NameBefore);
      SortBy(present, NameBefore)
    }

    /** `getPlayerByName`: one row whose name equals `name` under NOCASE, if any. */
    function PlayerByName(name: string): (r: Option<Player>)
      reads this
      ensures r.Some? ==> r.value in players && NameEquals(r.value.name, name)
      ensures r.None? <==> forall p | p in players :: !NameEquals(p.name, name)
    {
      var matching := Filter(players, (p: Player) => NameEquals(p.name, name));
      if matching == [] then None else Some(matching[0])
    }

    /**
     * `insert` with `OnConflictStrategy.IGNORE`. Id 0 means "not set": the row gets the
     * next generated id. A row whose explicit id is taken is ignored and -1 is returned.
     */
    method InsertPlayer(p: Player) returns (rowId: int)
      requires Valid()
      modifies this
      ensures Valid()
      ensures games == old(games) && scores == old(scores)
      ensures lastGameId == old(lastGameId) && lastScoreId == old(lastScoreId)
      ensures p.id == 0 ==>
        rowId == old(lastPlayerId) + 1 && lastPlayerId == rowId
        && players == old(players) + [p.(id := rowId)]
      ensures p.id != 0 && HasPlayer(old(players), p.id) ==>
        rowId == -1 && players == old(players) && lastPlayerId == old(lastPlayerId)
      ensures p.id != 0 && !HasPlayer(old(players), p.id) ==>
        rowId == p.id && players == old(players) + [p]
        && lastPlayerId == if p.id > old(lastPlayerId) then p.id else old(lastPlayerId)
    {
      if p.id == 0 {
        rowId := lastPlayerId + 1;
        players := players + [p.(id := rowId)];
        lastPlayerId := rowId;
      } else if HasPlayer(players, p.id) {
        rowId := -1;
      } else {
        rowId := p.id;
        players := players + [p];
        if p.id > lastPlayerId { lastPlayerId := p.id; }
      }
    }

    /** `update`: overwrites the row with the same id; nothing happens if there is none. */
    method UpdatePlayer(p: Player)
      requires Valid()
      modifies this`players
      ensures Valid()
      ensures players == ReplacePlayer(old(players), p)
    {
      players := ReplacePlayer(players, p);
      assert forall i | 0 <= i < |players| :: players[i].id == old(players)[i].id;
      KeepsPlayerIds(old(players), players);
    }

    /** `softDeletePlayer`: sets the deleted flag of that id's row. */
    method SoftDeletePlayer(id: int)
      requires Valid()
      modifies this`players
      ensures Valid()
      ensures players == SetDeleted(old(players), id, true)
    {
      players := SetDeleted(players, id, true);
      KeepsPlayerIds(old(players), players);
    }

    /** `restorePlayer`: clears the deleted flag of that id's row. */
    method RestorePlayer(id: int)
      requires Valid()
      modifies this`players
      ensures Valid()
      ensures players == SetDeleted(old(players), id, false)
    {
      players := SetDeleted(players, id, false);
      KeepsPlayerIds(old(players), players);
    }

    // -------------------------------------------------------------------------
    // GameDao

    /** `insertGame`: returns the new row's id; an explicit id that is taken aborts. */
    method InsertGame(g: Game) returns (ok: bool, rowId: int)
      requires Valid()
      modifies this`games, this`lastGameId
      ensures Valid()
      ensures g.id == 0 ==>
        ok && rowId == old(lastGameId) + 1 && lastGameId == rowId
        && games == old(games) + [g.(id := rowId)]
      ensures g.id != 0 ==> (ok <==> !HasGame(old(games), g.id))
      ensures g.id != 0 && ok ==>
        rowId == g.id && games == old(games) + [g]
        && lastGameId == if g.id > old(lastGameId) then g.id else old(lastGameId)
      ensures !ok ==> games == old(games) && lastGameId == old(lastGameId)
    {
      if g.id == 0 {
        ok, rowId := true, lastGameId + 1;
        games := games + [g.(id := rowId)];
        lastGameId := rowId;
      } else if HasGame(games, g.id) {
        ok, rowId := false, -1;
      } else {
        ok, rowId := true, g.id;
        games := games + [g];
        if g.id > lastGameId { lastGameId := g.id; }
      }
      KeepsScoreReferences(old(games), games);
    }

    /** Whether the score row's references may be stored. */
    predicate ReferencesExist(e: ScoreEntry)
      reads this
    {
      !foreignKeys || (HasGame(games, e.gameId) && HasPlayer(players, e.playerId))
    }

    /** `insertScoreEntry`: aborts on an enforced missing reference or a taken explicit id. */
    method InsertScoreEntry(e: ScoreEntry) returns (ok: bool)
      requires Valid()
      modifies this`scores, this`lastScoreId
      ensures Valid()
      ensures ok <==> ReferencesExist(e) && (e.id == 0 || !HasScore(old(scores), e.id))
      ensures ok && e.id == 0 ==>
        lastScoreId == old(lastScoreId) + 1 && scores == old(scores) + [e.(id := lastScoreId)]
      ensures ok && e.id != 0 ==>
        scores == old(scores) + [e]
        && lastScoreId == if e.id > old(lastScoreId) then e.id else old(lastScoreId)
      ensures !ok ==> scores == old(scores) && lastScoreId == old(lastScoreId)
    {
      if !ReferencesExist(e) || (e.id != 0 && HasScore(scores, e.id)) {
        return false;
      }
      ok := true;
      if e.id == 0 {
        lastScoreId := lastScoreId + 1;
        scores := scores + [e.(id := lastScoreId)];
      } else {
        scores := scores + [e];
        if e.id > lastScoreId { lastScoreId := e.id; }
      }
    }

    /** `updateScoreEntry`: replaces the row with the same id, unless that breaks an enforced reference. */
    method UpdateScoreEntry(e: ScoreEntry) returns (ok: bool)
      requires Valid()
      modifies this`scores
      ensures Valid()
      ensures ok <==> !HasScore(old(scores), e.id) || ReferencesExist(e)
      ensures scores == if ok then ReplaceScore(old(scores), e) else old(scores)
    {
      ok := !HasScore(scores, e.id) || ReferencesExist(e);
      if ok {
        var before := scores;
        scores := ReplaceScore(scores, e);
        forall x | x in scores ensures x.id <= lastScoreId && (x == e || x in before) {
          var i :| 0 <= i < |scores| && scores[i] == x;
          if before[i].id == e.id { assert before[i] in before; } else { assert x in before; }
        }
      }
    }

    /** `getScoresForGame` and `getScoresForGameList`: the game's score rows, in row order. */
    function ScoresForGame(gameId: int): (r: seq<ScoreEntry>)
      reads this
      ensures forall e :: multiset(r)[e] == if e.gameId == gameId then multiset(scores)[e] else 0
      ensures forall e | e in r :: e in scores && e.gameId == gameId
      ensures forall e | e in scores && e.gameId == gameId :: e in r
      ensures IsSubsequence(r, scores)
    {
      RowsOfGame(scores, gameId)
    }

    /** `deleteGameById`: removes that row; an enforced reference from a score row aborts it. */
    method DeleteGameById(gameId: int) returns (ok: bool)
      requires Valid()
      modifies this`games
      ensures Valid()
      ensures ok <==> !(foreignKeys && HasGame(old(games), gameId) && HasScoreFor(gameId))
      ensures games == if ok then RemoveGame(old(games), gameId) else old(games)
    {
      if foreignKeys && HasGame(games, gameId) && HasScoreFor(gameId) {
        return false;
      }
      ok := true;
      var before := games;
      games := RemoveGame(games, gameId);
      assert forall g | g in games :: g in before;
      SubsequenceKeepsDistinct(games, before);
      if foreignKeys {
        forall e | e in scores ensures HasGame(games, e.gameId) {
          var g :| g in before && g.id == e.gameId;
          assert g.id != gameId;
          assert g in games;
        }
      }
    }

    predicate HasScoreFor(gameId: int)
      reads this
    {
      exists e | e in scores :: e.gameId == gameId
    }

    /** `getLatestActiveGameId`: null iff every game is finished, else an unfinished game started last. */
    function LatestActiveGameId(): (r: Option<int>)
      reads this
      ensures r.None? <==> forall g | g in games :: g.isFinished
      ensures r.Some? ==> exists g | g in games :: g.id == r.value && !g.isFinished
                            && forall h | h in games && !h.isFinished :: h.startTime <= g.startTime
    {
      match LatestActive(games)
      case None => None
      case Some(g) => Some(g.id)
    }

    /** `getPlayersForGame`: the players that the game's score rows reference, deleted or not. */
    function PlayersForGame(gameId: int): (r: seq<Player>)
      reads this
      ensures forall p | p in r :: p in players && exists e | e in scores :: e.gameId == gameId && e.playerId == p.id
      ensures forall e, p | e in scores && e.gameId == gameId && p in players && p.id == e.playerId :: p in r
    {
      JoinPlayers(players, ScoresForGame(gameId))
    }

    /** `markGameFinished`: sets the finished flag of that game only. */
    method MarkGameFinished(gameId: int)
      requires Valid()
      modifies this`games
      ensures Valid()
      ensures games == MarkFinished(old(games), gameId)
    {
      MarkFinishedKeepsIds(games, gameId);
      games := MarkFinished(games, gameId);
    }

    /**
     * `getScoresWithPlayers`: the game's score rows, each with its player; when every row's
     * player is stored, every row of the game appears once, in row order.
     */
    function ScoresWithPlayers(gameId: int): (r: seq<ScoreWithPlayer>)
      reads this
      ensures forall x | x in r :: x.score in scores && x.score.gameId == gameId
                                   && x.player in players && x.player.id == x.score.playerId
      ensures (forall e | e in ScoresForGame(gameId) :: HasPlayer(players, e.playerId)) ==>
                |r| == |ScoresForGame(gameId)| && forall k | 0 <= k < |r| :: r[k].score == ScoresForGame(gameId)[k]
    {
      var rows := ScoresForGame(gameId);
      if forall e | e in rows :: HasPlayer(players, e.playerId) then
        JoinScoresKeepsEveryRow(players, rows);
        JoinScores(players, rows)
      else JoinScores(players, rows)
    }

    /** `getFullHistory`: the finished games, latest start first, each with its score rows. */
    function FullHistory(): (r: seq<GameHistory>)
      reads this
      ensures forall g :: multiset(GamesOf(r))[g] == if g.isFinished then multiset(games)[g] else 0
      ensures forall i, j | 0 <= i < j < |r| :: r[i].game.startTime >= r[j].game.startTime
      ensures forall i | 0 <= i < |r| :: r[i].scores == JoinScores(players, ScoresForGame(r[i].game.id))
    {
      var finished := Filter(games, (g: Game) => g.isFinished);
      FilterMultiset(games, (g: Game) => g.isFinished);
      SortedPairwise(finished, StartedNoEarlier);
      WithScores(SortBy(finished, StartedNoEarlier), players, scores)
    }
  }

  /** A database that enforces foreign keys pairs every row of a game with its player, in row order. */
  lemma EnforcedJoinIsComplete(db: Database, gameId: int)
    requires db.Valid() && db.foreignKeys
    ensures |db.ScoresWithPlayers(gameId)| == |db.ScoresForGame(gameId)|
    ensures forall k | 0 <= k < |db.ScoresForGame(gameId)| ::
              db.ScoresWithPlayers(gameId)[k].score == db.ScoresForGame(gameId)[k]
              && db.ScoresWithPlayers(gameId)[k].player.id == db.ScoresForGame(gameId)[k].playerId
  {
    var r := db.ScoresWithPlayers(gameId);
    forall k | 0 <= k < |r| ensures r[k].player.id == r[k].score.playerId {
      assert r[k] in r;
    }
  }

  /** The rows of one game, in row order. */
  function RowsOfGame(scores: seq<ScoreEntry>, gameId: int): (r: seq<ScoreEntry>)
    ensures forall e :: multiset(r)[e] == if e.gameId == gameId then multiset(scores)[e] else 0
    ensures forall e | e in r :: e in scores && e.gameId == gameId
    ensures forall e | e in scores && e.gameId == gameId :: e in r
    ensures IsSubsequence(r, scores)
  {
    FilterIsSubsequence(scores, (e: ScoreEntry) => e.gameId == gameId);
    FilterMultiset(scores, (e: ScoreEntry) => e.gameId == gameId);
    Filter(scores, (e: ScoreEntry) => e.gameId == gameId)
  }

  /** Each game with its joined score rows. */
  function WithScores(gs: seq<Game>, players: seq<Player>, scores: seq<ScoreEntry>): (r: seq<GameHistory>)
    ensures GamesOf(r) == gs
    ensures forall i | 0 <= i < |r| :: r[i].scores == JoinScores(players, RowsOfGame(scores, gs[i].id))
  {
    if gs == [] then []
    else [GameHistory(gs[0], JoinScores(players, RowsOfGame(scores, gs[0].id)))] + WithScores(gs[1..], players, scores)
  }

  function GamesOf(r: seq<GameHistory>): (gs: seq<Game>)
    ensures |gs| == |r| && forall i | 0 <= i < |r| :: gs[i] == r[i].game
  {
    if r == [] then [] else [r[0].game] + GamesOf(r[1..])
  }

  // ---------------------------------------------------------------------------
  // Frame helpers for the invariant

  lemma KeepsPlayerIds(before: seq<Player>, after: seq<Player>)
    requires |before| == |after|
    requires forall i | 0 <= i < |before| :: after[i].id == before[i].id
    ensures DistinctPlayerIds(before) ==> DistinctPlayerIds(after)
    ensures forall x :: HasPlayer(before, x) <==> HasPlayer(after, x)
    ensures forall p | p in after :: exists q | q in before :: q.id == p.id
  {
    forall x | HasPlayer(before, x) ensures HasPlayer(after, x) {
      var q :| q in before && q.id == x;
      var i :| 0 <= i < |before| && before[i] == q;
      assert after[i] in after;
    }
    forall p | p in after ensures exists q | q in before :: q.id == p.id {
      var i :| 0 <= i < |after| && after[i] == p;
      assert before[i] in before;
    }
  }

  /** Marking a game finished keeps every game id, and no other. */
  lemma MarkFinishedKeepsIds(before: seq<Game>, id: int)
    ensures DistinctGameIds(before) ==> DistinctGameIds(MarkFinished(before, id))
    ensures forall x :: HasGame(before, x) <==> HasGame(MarkFinished(before, id), x)
    ensures forall g | g in MarkFinished(before, id) :: exists h | h in before :: h.id == g.id
  {
    var after := MarkFinished(before, id);
    assert forall i | 0 <= i < |after| :: after[i].id == before[i].id;
    forall x | HasGame(before, x) ensures HasGame(after, x) {
      var g :| g in before && g.id == x;
      var i :| 0 <= i < |before| && before[i] == g;
      assert after[i] in after;
    }
    forall g | g in after ensures exists h | h in before :: h.id == g.id {
      var i :| 0 <= i < |after| && after[i] == g;
      assert before[i] in before;
    }
  }

  lemma KeepsScoreReferences(before: seq<Game>, after: seq<Game>)
    requires forall g | g in before :: g in after
    ensures forall x | HasGame(before, x) :: HasGame(after, x)
  {
  }

  lemma {:induction false} SubsequenceKeepsDistinct(r: seq<Game>, s: seq<Game>)
    requires IsSubsequence(r, s)
    requires DistinctGameIds(s)
    ensures DistinctGameIds(r)
  {
    if r != [] && s != [] {
      assert DistinctGameIds(s[1..]) by {
        forall i, j | 0 <= i < j < |s| - 1 ensures s[1..][i].id != s[1..][j].id {
          assert s[1..][i] == s[i + 1] && s[1..][j] == s[j + 1];
        }
      }
      if r[0] == s[0] {
        SubsequenceKeepsDistinct(r[1..], s[1..]);
        SubsequenceMembers(r[1..], s[1..]);
        forall j | 1 <= j < |r| ensures r[0].id != r[j].id {
          assert r[1..][j - 1] == r[j] && r[j] in r[1..];
          var k :| 0 <= k < |s| - 1 && s[1..][k] == r[j];
          assert s[k + 1] == r[j];
        }
        forall i, j | 0 <= i < j < |r| ensures r[i].id != r[j].id {
          if i > 0 { assert r[1..][i - 1] == r[i] && r[1..][j - 1] == r[j]; }
        }
      } else {
        SubsequenceKeepsDistinct(r, s[1..]);
      }
    }
  }

  lemma {:induction false} SubsequenceMembers<T(!new)>(r: seq<T>, s: seq<T>)
    requires IsSubsequence(r, s)
    ensures forall x | x in r :: x in s
  {
    if r != [] && s != [] {
      if r[0] == s[0] {
        SubsequenceMembers(r[1..], s[1..]);
        assert forall x | x in r :: x == r[0] || x in r[1..];
      } else {
        SubsequenceMembers(r, s[1..]);
      }
    }
  }
}

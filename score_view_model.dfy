/**
 * The score engine: the selection of at most four players, the id of the game
 * being played, and the history game opened in detail, changed by the commands
 * of the view model against the database.
 *
 * Each command runs as one sequential step. A storage statement that fails (a
 * foreign-key violation, when the database enforces them) ends the command at
 * that statement, as the exception it raises would; the statements after it do
 * not run.
 */
module Engine {
  import opened Primitives
  import opened Seqs
  import opened ScoreEntries
  import opened Players
  import opened Games
  import opened Store
  import opened Scoring

  const MaxSelection: nat := 4

  // ---------------------------------------------------------------------------
  // Selection

  predicate NoDuplicates(s: seq<Player>)
  {
    forall i, j | 0 <= i < j < |s| :: s[i] != s[j]
  }

  /** The position of the first element equal to `p`. */
  function IndexOf(s: seq<Player>, p: Player): (k: nat)
    requires p in s
    ensures k < |s| && s[k] == p && p !in s[..k]
  {
    if s[0] == p then 0
    else
      var k := IndexOf(s[1..], p);
      assert s[..k + 1] == [s[0]] + s[1..][..k];
      k + 1
  }

  /** `MutableList.remove`: drops the first element equal to `p`, if there is one. */
  function RemoveFirst(s: seq<Player>, p: Player): (r: seq<Player>)
    ensures p !in s ==> r == s
    ensures p in s ==> |r| == |s| - 1 && multiset(r) == multiset(s) - multiset{p}
    ensures p in s ==> forall i | 0 <= i < |r| :: r[i] == if i < IndexOf(s, p) then s[i] else s[i + 1]
  {
    if p in s then
      var k := IndexOf(s, p);
      assert s == s[..k] + [p] + s[k + 1..];
      s[..k] + s[k + 1..]
    else s
  }

  /** `togglePlayerSelection`: out if present, else in at the end while fewer than four are selected. */
  function Toggle(s: seq<Player>, p: Player): (r: seq<Player>)
    ensures p in s ==> |r| == |s| - 1 && multiset(r) == multiset(s) - multiset{p}
    ensures p !in s && |s| < MaxSelection ==> r == s + [p]
    ensures p !in s && |s| >= MaxSelection ==> r == s
  {
    if p in s then RemoveFirst(s, p)
    else if |s| < MaxSelection then s + [p]
    else s
  }

  /** A selection of at most four stays at most four. */
  lemma ToggleBound(s: seq<Player>, p: Player)
    requires |s| <= MaxSelection
    ensures |Toggle(s, p)| <= MaxSelection
  {
  }

  /** Toggling a player in and out again gives back the selection exactly. */
  lemma ToggleTwiceRestores(s: seq<Player>, p: Player)
    requires p !in s && |s| < MaxSelection
    ensures Toggle(Toggle(s, p), p) == s
  {
    var t := s + [p];
    assert t[..|s|] == s;
    assert forall j | 0 <= j < |s| :: t[j] == s[j] && s[j] != p;
    assert IndexOf(t, p) == |s|;
  }

  /** Toggling never introduces a duplicate, and leaves `p` selected exactly when it was added. */
  lemma ToggleKeepsDistinct(s: seq<Player>, p: Player)
    requires NoDuplicates(s)
    ensures NoDuplicates(Toggle(s, p))
    ensures p in Toggle(s, p) <==> p !in s && |s| < MaxSelection
  {
    var r := Toggle(s, p);
    if p in s {
      RemoveFirstKeepsDistinct(s, p);
      RemoveFirstRemovesAll(s, p);
    } else if |s| < MaxSelection {
      forall i, j | 0 <= i < j < |r| ensures r[i] != r[j] {
        if j == |s| { assert r[i] == s[i]; }
      }
    }
  }

  lemma RemoveFirstKeepsDistinct(s: seq<Player>, p: Player)
    requires NoDuplicates(s) && p in s
    ensures NoDuplicates(RemoveFirst(s, p))
  {
    var r := RemoveFirst(s, p);
    var k := IndexOf(s, p);
    forall i, j | 0 <= i < j < |r| ensures r[i] != r[j] {
      var i' := if i < k then i else i + 1;
      var j' := if j < k then j else j + 1;
      assert i' < j' && r[i] == s[i'] && r[j] == s[j'];
    }
  }

  lemma RemoveFirstRemovesAll(s: seq<Player>, p: Player)
    requires NoDuplicates(s) && p in s
    ensures p !in RemoveFirst(s, p)
  {
    var r := RemoveFirst(s, p);
    var k := IndexOf(s, p);
    forall i | 0 <= i < |r| ensures r[i] != p {
      var i' := if i < k then i else i + 1;
      assert i' != k && r[i] == s[i'];
    }
  }

  /** The first position of a player with this id, or -1 (`indexOfFirst`). */
  function IndexOfFirstId(s: seq<Player>, id: int): (k: int)
    ensures -1 <= k < |s|
    ensures k == -1 <==> forall q | q in s :: q.id != id
    ensures k >= 0 ==> s[k].id == id && forall j | 0 <= j < k :: s[j].id != id
  {
    if s == [] then -1
    else if s[0].id == id then 0
    else
      var k := IndexOfFirstId(s[1..], id);
      assert forall q | q in s :: q == s[0] || q in s[1..];
      assert forall j | 1 <= j < |s| :: s[j] == s[1..][j - 1];
      if k == -1 then -1 else k + 1
  }

  /**
   * The resume step's `entries.mapNotNull { entry -> players.find { it.id == entry.playerId } }`:
   * one player per entry in entry order, entries without a player dropped.
   */
  function ResolvePlayers(entries: seq<ScoreEntry>, players: seq<Player>): (r: seq<Player>)
    ensures |r| <= |entries|
    ensures forall p | p in r :: p in players
    ensures (forall e | e in entries :: HasPlayer(players, e.playerId)) ==>
              |r| == |entries| && forall k | 0 <= k < |r| :: r[k].id == entries[k].playerId
  {
    if entries == [] then []
    else
      var rest := ResolvePlayers(entries[1..], players);
      assert forall e | e in entries[1..] :: e in entries;
      match FirstWithId(players, entries[0].playerId)
      case None => rest
      case Some(p) => [p] + rest
  }

  /** `mapNotNull`'s rule for the rows with no player: they are dropped, and the rest keep their order. */
  predicate Resolvable(players: seq<Player>, e: ScoreEntry)
  {
    HasPlayer(players, e.playerId)
  }

  /**
   * Resolving drops exactly the rows without a player: the result is the players of the
   * resolvable rows, one per row, in row order.
   */
  lemma {:induction false} ResolveSkipsUnresolved(entries: seq<ScoreEntry>, players: seq<Player>)
    ensures ResolvePlayers(entries, players) == ResolvePlayers(Filter(entries, e => Resolvable(players, e)), players)
    ensures var kept := Filter(entries, e => Resolvable(players, e));
      |ResolvePlayers(entries, players)| == |kept|
      && forall k | 0 <= k < |kept| :: ResolvePlayers(entries, players)[k].id == kept[k].playerId
  {
    var keep := e => Resolvable(players, e);
    if entries != [] {
      ResolveSkipsUnresolved(entries[1..], players);
      assert entries == [entries[0]] + entries[1..];
      FilterConcat([entries[0]], entries[1..], keep);
      if keep(entries[0]) {
        var kept := Filter(entries, keep);
        assert kept == [entries[0]] + Filter(entries[1..], keep);
        assert kept[1..] == Filter(entries[1..], keep);
      }
    }
  }

  /**
   * Resolving against the joined player list is the same as resolving against the
   * players table: the join loses no player that an entry names.
   */
  lemma {:induction false} ResolveThroughJoin(sub: seq<ScoreEntry>, joined: seq<Player>, players: seq<Player>)
    requires DistinctPlayerIds(players)
    requires forall q | q in joined :: q in players
    requires forall e, p | e in sub && p in players && p.id == e.playerId :: p in joined
    ensures ResolvePlayers(sub, joined) == ResolvePlayers(sub, players)
  {
    if sub != [] {
      ResolveThroughJoin(sub[1..], joined, players);
      var id := sub[0].playerId;
      match FirstWithId(players, id)
      case None =>
      case Some(p) =>
        assert p in joined;
        var q := FirstWithId(joined, id).value;
        assert q in players;
        FirstWithIdUnique(players, q);
    }
  }

  // ---------------------------------------------------------------------------
  // Score updates

  /** The largest value `updateScore` accepts for a category. */
  function CategoryLimit(tag: string): int
  {
    if tag == "io" || tag == "ganymede" || tag == "callisto" then 18
    else if tag == "europa" then 12
    else if tag == "tech" then 8
    else if tag == "achievements" then 20
    else if tag == "assistants" then 30
    else -1
  }

  predicate Accepts(tag: string, v: int)
  {
    tag in Tags && 0 <= v <= CategoryLimit(tag)
  }

  /** `updateScore`'s `when`: an accepted value replaces that one field, anything else keeps the row. */
  function UpdatedEntry(e: ScoreEntry, tag: string, v: Int32): (r: ScoreEntry)
    ensures r.id == e.id && r.gameId == e.gameId && r.playerId == e.playerId
    ensures Accepts(tag, v) ==> GetVal(r, tag) == v
    ensures Accepts(tag, v) ==> forall t | t in Tags && t != tag :: GetVal(r, t) == GetVal(e, t)
    ensures !Accepts(tag, v) ==> r == e
  {
    if tag == "io" then (if 0 <= v <= 18 then e.(io := v) else e)
    else if tag == "europa" then (if 0 <= v <= 12 then e.(europa := v) else e)
    else if tag == "ganymede" then (if 0 <= v <= 18 then e.(ganymede := v) else e)
    else if tag == "callisto" then (if 0 <= v <= 18 then e.(callisto := v) else e)
    else if tag == "tech" then (if 0 <= v <= 8 then e.(technologies := v) else e)
    else if tag == "achievements" then (if 0 <= v <= 20 then e.(achievements := v) else e)
    else if tag == "assistants" then (if 0 <= v <= 30 then e.(assistants := v) else e)
    else e
  }

  /** Setting one category moves the row's sum by exactly the change in that category. */
  lemma UpdateShiftsSum(e: ScoreEntry, tag: string, v: Int32)
    ensures UpdatedEntry(e, tag, v).Sum() == e.Sum() + (if Accepts(tag, v) then v - GetVal(e, tag) else 0)
  {
  }

  /** Every category inside the range `updateScore` enforces. */
  predicate WithinLimits(e: ScoreEntry)
  {
    forall t | t in Tags :: 0 <= GetVal(e, t) <= CategoryLimit(t)
  }

  /** Rows within the limits total between 0 and 124, with no wrap-around. */
  lemma LimitsBoundTotal(e: ScoreEntry)
    requires WithinLimits(e)
    ensures 0 <= e.Total() <= 124 && e.Total() == e.Sum()
  {
    assert GetVal(e, "io") == e.io && GetVal(e, "europa") == e.europa;
    assert GetVal(e, "ganymede") == e.ganymede && GetVal(e, "callisto") == e.callisto;
    assert GetVal(e, "tech") == e.technologies && GetVal(e, "achievements") == e.achievements;
    assert GetVal(e, "assistants") == e.assistants;
  }

  /** Updates keep a row within the limits, and a fresh row starts there. */
  lemma UpdateKeepsLimits(e: ScoreEntry, tag: string, v: Int32)
    requires WithinLimits(e)
    ensures WithinLimits(UpdatedEntry(e, tag, v))
    ensures WithinLimits(NewScoreEntry(e.gameId, e.playerId))
  {
  }

  /** The rows `startNewGame` inserts: one all-zero row per player, in order, with consecutive ids. */
  function NewRows(gameId: int, players: seq<Player>, lastId: int): (r: seq<ScoreEntry>)
    ensures |r| == |players|
    ensures forall k | 0 <= k < |r| :: r[k] == NewScoreEntry(gameId, players[k].id, id := lastId + 1 + k)
  {
    seq(|players|, k requires 0 <= k < |players| => NewScoreEntry(gameId, players[k].id, id := lastId + 1 + k))
  }

  lemma NewRowsExtend(gameId: int, players: seq<Player>, lastId: int, i: nat)
    requires i < |players|
    ensures NewRows(gameId, players[..i + 1], lastId)
         == NewRows(gameId, players[..i], lastId) + [NewScoreEntry(gameId, players[i].id, id := lastId + 1 + i)]
  {
  }

  /**
   * The rows of a game with a new id are exactly the rows inserted for it, when every
   * earlier row refers to an earlier game.
   */
  lemma NewGameOwnsNewRows(before: seq<ScoreEntry>, games: seq<Game>, lastGameId: int, gameId: int, added: seq<ScoreEntry>)
    requires forall e | e in before :: HasGame(games, e.gameId)
    requires forall g | g in games :: g.id <= lastGameId
    requires lastGameId < gameId
    requires forall e | e in added :: e.gameId == gameId
    ensures RowsOfGame(before + added, gameId) == added
  {
    var mine := (e: ScoreEntry) => e.gameId == gameId;
    forall k | 0 <= k < |before| ensures !mine(before[k]) {
      assert before[k] in before;
    }
    FilterNone(before, mine);
    FilterAll(added, mine);
    FilterConcat(before, added, mine);
  }

  // ---------------------------------------------------------------------------
  // The view model

  /** What the read-only history sheet lets the user do: edit a cell, press finish, or go back. */
  datatype DetailAction = EditScore(entry: ScoreEntry, category: string, value: Int32) | FinishPressed | BackPressed

  class ScoreViewModel {
    const store: Database
    var isInitializing: bool
    var selectedPlayers: seq<Player>
    var currentGameId: Option<int>
    var selectedHistoryGameId: Option<int>

    ghost predicate Valid()
      reads this, store
    {
      store.Valid()
    }

    /** Created not yet initialised, with nothing selected and no game. */
    constructor (store: Database)
      requires store.Valid()
      ensures Valid() && this.store == store && unchanged(store)
      ensures isInitializing && selectedPlayers == [] && currentGameId == None && selectedHistoryGameId == None
    {
      this.store := store;
      isInitializing := true;
      selectedPlayers := [];
      currentGameId := None;
      selectedHistoryGameId := None;
    }

    /** `currentScores`: the rows of the current game, or nothing without one. */
    function CurrentScores(): (r: seq<ScoreEntry>)
      reads this, store
      ensures currentGameId.None? ==> r == []
      ensures currentGameId.Some? ==> r == store.ScoresForGame(currentGameId.value)
    {
      match currentGameId
      case None => []
      case Some(id) => store.ScoresForGame(id)
    }

    /** `historyScores`: the rows of the history game opened in detail, with their players. */
    function HistoryScores(): (r: seq<ScoreWithPlayer>)
      reads this, store
      ensures selectedHistoryGameId.None? ==> r == []
      ensures selectedHistoryGameId.Some? ==> r == store.ScoresWithPlayers(selectedHistoryGameId.value)
      ensures forall x | x in r :: x.score in store.scores && x.score.gameId == selectedHistoryGameId.value
    {
      match selectedHistoryGameId
      case None => []
      case Some(id) => store.ScoresWithPlayers(id)
    }

    /** `hasAnyScores`: some row of the current game has a positive total. */
    function HasAnyScores(): (r: bool)
      reads this, store
      ensures r <==> exists e | e in CurrentScores() :: e.Total() > 0
      ensures currentGameId.None? ==> !r
    {
      exists e | e in CurrentScores() :: e.Total() > 0
    }

    /**
     * The startup step of `init`: resume the latest unfinished game with its players in
     * entry order, or delete it when none of its players can be found. It always ends
     * the initialising phase.
     */
    method ResumeUnfinishedGame()
      requires Valid()
      modifies this`isInitializing, this`selectedPlayers, this`currentGameId, store`games
      ensures Valid()
      ensures !isInitializing
      ensures old(store.LatestActiveGameId()).None? ==>
        store.games == old(store.games) && selectedPlayers == old(selectedPlayers) && currentGameId == old(currentGameId)
      ensures old(store.LatestActiveGameId()).Some? ==>
        var id := old(store.LatestActiveGameId()).value;
        var ordered := ResolvePlayers(old(store.ScoresForGame(id)), old(store.PlayersForGame(id)));
        (ordered != [] ==> selectedPlayers == ordered && currentGameId == Some(id) && store.games == old(store.games)
                           && |selectedPlayers| <= |old(store.ScoresForGame(id))|)
        && (ordered == [] ==> store.games == RemoveGame(old(store.games), id)
                               && selectedPlayers == old(selectedPlayers) && currentGameId == old(currentGameId))
    {
      var activeId := store.LatestActiveGameId();
      if activeId.Some? {
        var id := activeId.value;
        var entries := store.ScoresForGame(id);
        var players := store.PlayersForGame(id);
        var ordered := ResolvePlayers(entries, players);
        // An enforcing store holds a player for every row, so every row resolves.
        if store.foreignKeys {
          forall x | x in entries ensures HasPlayer(players, x.playerId) {
            var p :| p in store.players && p.id == x.playerId;
            assert p in players;
          }
        }
        if ordered != [] {
          selectedPlayers := ordered;
          currentGameId := activeId;
        } else {
          var ok := store.DeleteGameById(id);
          // A failed delete would be caught and logged; it cannot fail here.
        }
      }
      isInitializing := false;
    }

    /** `togglePlayerSelection`. */
    method TogglePlayerSelection(player: Player)
      modifies this`selectedPlayers
      ensures selectedPlayers == Toggle(old(selectedPlayers), player)
      ensures |old(selectedPlayers)| <= MaxSelection ==> |selectedPlayers| <= MaxSelection
    {
      var current := selectedPlayers;
      if player in current {
        current := RemoveFirst(current, player);
      } else if |current| < MaxSelection {
        current := current + [player];
      }
      selectedPlayers := current;
    }

    /**
     * `addPlayerToDatabase`: a name over the length limit fails before anything happens;
     * otherwise the player is stored under a new id and goes through the selection toggle.
     */
    method AddPlayerToDatabase(name: string) returns (ok: bool)
      requires Valid()
      modifies this`selectedPlayers, store
      ensures Valid()
      ensures ok <==> |name| <= MaxNameLength
      ensures store.games == old(store.games) && store.scores == old(store.scores)
      ensures store.lastGameId == old(store.lastGameId) && store.lastScoreId == old(store.lastScoreId)
      ensures store.lastPlayerId == if ok then old(store.lastPlayerId) + 1 else old(store.lastPlayerId)
      ensures |old(selectedPlayers)| <= MaxSelection ==> |selectedPlayers| <= MaxSelection
      ensures !ok ==> store.players == old(store.players) && selectedPlayers == old(selectedPlayers)
      ensures ok ==> var added: Player := PlayerData(old(store.lastPlayerId) + 1, name, false);
        store.players == old(store.players) + [added] && selectedPlayers == Toggle(old(selectedPlayers), added)
    {
      var made := NewPlayer(name);
      if made.Failure? {
        return false;
      }
      ok := true;
      var id := store.InsertPlayer(made.value);
      if id != -1 {
        var newPlayer := NewPlayer(name, id).value;
        TogglePlayerSelection(newPlayer);
      }
    }

    /**
     * `updatePlayerName`: the renamed copy (which must satisfy the length limit) overwrites
     * the stored row, and takes the place of the first selected player with that id.
     */
    method UpdatePlayerName(player: Player, newName: string) returns (ok: bool)
      requires Valid()
      modifies this`selectedPlayers, store`players
      ensures Valid()
      ensures ok <==> |newName| <= MaxNameLength
      ensures !ok ==> store.players == old(store.players) && selectedPlayers == old(selectedPlayers)
      ensures ok ==> var updated: Player := player.(name := newName);
        var k := IndexOfFirstId(old(selectedPlayers), player.id);
        store.players == ReplacePlayer(old(store.players), updated)
        && selectedPlayers == if k == -1 then old(selectedPlayers) else old(selectedPlayers)[k := updated]
      ensures |selectedPlayers| == |old(selectedPlayers)|
    {
      var made := NewPlayer(newName, player.id, player.isDeleted);
      if made.Failure? {
        return false;
      }
      ok := true;
      var updated := made.value;
      store.UpdatePlayer(updated);
      var index := IndexOfFirstId(selectedPlayers, player.id);
      if index != -1 {
        selectedPlayers := selectedPlayers[index := updated];
      }
    }

    /** `deletePlayer`: every selected player with that id leaves the selection; the row is soft-deleted. */
    method DeletePlayer(player: Player)
      requires Valid()
      modifies this`selectedPlayers, store`players
      ensures Valid()
      ensures selectedPlayers == Filter(old(selectedPlayers), (q: Player) => q.id != player.id)
      ensures |selectedPlayers| <= |old(selectedPlayers)|
      ensures store.players == SetDeleted(old(store.players), player.id, true)
    {
      selectedPlayers := Filter(selectedPlayers, (q: Player) => q.id != player.id);
      store.SoftDeletePlayer(player.id);
    }

    /** `restorePlayer`: the row's deleted flag is cleared; the selection is left alone. */
    method RestorePlayer(player: Player)
      requires Valid()
      modifies store`players
      ensures Valid()
      ensures store.players == SetDeleted(old(store.players), player.id, false)
    {
      store.RestorePlayer(player.id);
    }

    /**
     * `startNewGame`: a new unfinished game, then one all-zero row per selected player in
     * selection order, then the game becomes current. A row whose player is unknown to an
     * enforcing database stops the command there, with the game not made current.
     */
    method StartNewGame(startTime: int) returns (ok: bool)
      requires Valid()
      modifies this`currentGameId, store`games, store`lastGameId, store`scores, store`lastScoreId
      ensures Valid()
      ensures store.games == old(store.games) + [Game(old(store.lastGameId) + 1, startTime, false)]
      ensures store.lastGameId == old(store.lastGameId) + 1
      ensures ok <==> !store.foreignKeys || forall p | p in old(selectedPlayers) :: HasPlayer(store.players, p.id)
      ensures ok ==> currentGameId == Some(old(store.lastGameId) + 1)
      ensures ok ==> store.scores == old(store.scores) + NewRows(old(store.lastGameId) + 1, old(selectedPlayers), old(store.lastScoreId))
                     && store.lastScoreId == old(store.lastScoreId) + |old(selectedPlayers)|
      ensures ok && store.foreignKeys ==>
        CurrentScores() == NewRows(old(store.lastGameId) + 1, old(selectedPlayers), old(store.lastScoreId))
      ensures !ok ==> currentGameId == old(currentGameId)
      ensures !ok ==> exists n | 0 <= n < |old(selectedPlayers)| ::
        store.scores == old(store.scores) + NewRows(old(store.lastGameId) + 1, old(selectedPlayers)[..n], old(store.lastScoreId))
        && store.lastScoreId == old(store.lastScoreId) + n && !HasPlayer(store.players, old(selectedPlayers)[n].id)
    {
      var inserted, gameId := store.InsertGame(Game(0, startTime, false));
      assert HasGame(store.games, gameId) by {
        assert Game(gameId, startTime, false) in store.games;
      }
      ok := InsertStartingRows(gameId, selectedPlayers);
      if !ok {
        return;
      }
      currentGameId := Some(gameId);
      if store.foreignKeys {
        NewGameOwnsNewRows(old(store.scores), old(store.games), old(store.lastGameId), gameId,
                           NewRows(gameId, old(selectedPlayers), old(store.lastScoreId)));
      }
    }

    /**
     * The insertion loop of `startNewGame`, one row per player in order. Rows inserted
     * before a refused one stay stored.
     */
    method InsertStartingRows(gameId: int, players: seq<Player>) returns (ok: bool)
      requires Valid() && HasGame(store.games, gameId)
      modifies store`scores, store`lastScoreId
      ensures Valid()
      ensures ok <==> !store.foreignKeys || forall p | p in players :: HasPlayer(store.players, p.id)
      ensures ok ==> store.scores == old(store.scores) + NewRows(gameId, players, old(store.lastScoreId))
                     && store.lastScoreId == old(store.lastScoreId) + |players|
      ensures !ok ==> exists n | 0 <= n < |players| ::
        store.scores == old(store.scores) + NewRows(gameId, players[..n], old(store.lastScoreId))
        && store.lastScoreId == old(store.lastScoreId) + n && !HasPlayer(store.players, players[n].id)
    {
      var base := store.lastScoreId;
      var i := 0;
      while i < |players|
        invariant 0 <= i <= |players|
        invariant store.Valid() && HasGame(store.games, gameId)
        invariant store.lastScoreId == base + i
        invariant store.scores == old(store.scores) + NewRows(gameId, players[..i], base)
        invariant store.foreignKeys ==> forall k | 0 <= k < i :: HasPlayer(store.players, players[k].id)
      {
        var row := NewScoreEntry(gameId, players[i].id);
        var rowOk := store.InsertScoreEntry(row);
        if !rowOk {
          return false;
        }
        NewRowsExtend(gameId, players, base, i);
        i := i + 1;
      }
      assert players[..i] == players;
      assert forall p | p in players :: store.foreignKeys ==> HasPlayer(store.players, p.id);
      ok := true;
    }

    /** `updateScore`: the updated row (or the row unchanged, when rejected) is written back. */
    method UpdateScore(entry: ScoreEntry, category: string, newValue: Int32) returns (ok: bool)
      requires Valid()
      modifies store`scores
      ensures Valid()
      ensures ok <==> !HasScore(old(store.scores), entry.id) || store.ReferencesExist(UpdatedEntry(entry, category, newValue))
      ensures store.scores == if ok then ReplaceScore(old(store.scores), UpdatedEntry(entry, category, newValue))
                              else old(store.scores)
    {
      var updated := UpdatedEntry(entry, category, newValue);
      ok := store.UpdateScoreEntry(updated);
    }

    /** `finishGame`: the current game, if any, is marked finished; there is no current game afterwards. */
    method FinishGame()
      requires Valid()
      modifies this`currentGameId, store`games
      ensures Valid()
      ensures currentGameId == None
      ensures old(currentGameId).None? ==> store.games == old(store.games)
      ensures old(currentGameId).Some? ==> store.games == MarkFinished(old(store.games), old(currentGameId).value)
    {
      if currentGameId.Some? {
        store.MarkGameFinished(currentGameId.value);
      }
      currentGameId := None;
    }

    /**
     * `cancelGame`: the current game, if any, is deleted; there is no current game
     * afterwards unless the delete was refused.
     */
    method CancelGame() returns (ok: bool)
      requires Valid()
      modifies this`currentGameId, store`games
      ensures Valid()
      ensures old(currentGameId).None? ==> ok && store.games == old(store.games)
      ensures old(currentGameId).Some? ==>
        var id := old(currentGameId).value;
        (ok <==> !(store.foreignKeys && HasGame(old(store.games), id) && store.HasScoreFor(id)))
        && store.games == if ok then RemoveGame(old(store.games), id) else old(store.games)
      ensures ok ==> currentGameId == None
      ensures !ok ==> currentGameId == old(currentGameId)
    {
      ok := true;
      if currentGameId.Some? {
        ok := store.DeleteGameById(currentGameId.value);
        if !ok {
          return;
        }
      }
      currentGameId := None;
    }

    /** `deleteHistoryGame`: the game is deleted and whatever history game was open is closed. */
    method DeleteHistoryGame(gameId: int) returns (ok: bool)
      requires Valid()
      modifies this`selectedHistoryGameId, store`games
      ensures Valid()
      ensures ok <==> !(store.foreignKeys && HasGame(old(store.games), gameId) && store.HasScoreFor(gameId))
      ensures store.games == if ok then RemoveGame(old(store.games), gameId) else old(store.games)
      ensures ok ==> selectedHistoryGameId == None
      ensures !ok ==> selectedHistoryGameId == old(selectedHistoryGameId)
    {
      ok := store.DeleteGameById(gameId);
      if ok {
        selectedHistoryGameId := None;
      }
    }

    /**
     * The history detail's wiring: a cell edit is discarded, and the finish button and the
     * back gesture both close the detail. The store is never touched.
     */
    method OnHistoryDetailAction(action: DetailAction)
      modifies this`selectedHistoryGameId
      ensures unchanged(store)
      ensures action.EditScore? ==> selectedHistoryGameId == old(selectedHistoryGameId)
      ensures !action.EditScore? ==> selectedHistoryGameId == None
    {
      match action
      case EditScore(_, _, _) =>
      case FinishPressed => SelectHistoryGame(None);
      case BackPressed => SelectHistoryGame(None);
    }

    /** `selectHistoryGame`: opens a history game in detail, or closes it with `None`. */
    method SelectHistoryGame(gameId: Option<int>)
      modifies this`selectedHistoryGameId
      ensures selectedHistoryGameId == gameId
    {
      selectedHistoryGameId := gameId;
    }
  }

  /** With enforced foreign keys, the history detail shows every row of its game once, in row order. */
  lemma HistoryShowsEveryRow(vm: ScoreViewModel)
    requires vm.Valid() && vm.store.foreignKeys && vm.selectedHistoryGameId.Some?
    ensures var rows := vm.store.ScoresForGame(vm.selectedHistoryGameId.value);
      |vm.HistoryScores()| == |rows|
      && forall k | 0 <= k < |rows| :: vm.HistoryScores()[k].score == rows[k] && vm.HistoryScores()[k].player.id == rows[k].playerId
  {
    EnforcedJoinIsComplete(vm.store, vm.selectedHistoryGameId.value);
  }

  /** A game the sheet lets the players finish has scores, as far as `hasAnyScores` can tell. */
  lemma FinishableHasScores(vm: ScoreViewModel)
    requires CanFinish(false, vm.CurrentScores())
    ensures vm.HasAnyScores()
  {
    var e := vm.CurrentScores()[0];
    assert e in vm.CurrentScores();
  }
}

/**
 * The view model of the earlier package: a player list that hides deleted players
 * unless asked not to, and the same four-player selection as the score engine,
 * without games.
 */
module LegacyEngine {
  import opened Seqs
  import opened Players
  import opened Store
  import opened Engine

  /** `!it.isDeleted`. */
  predicate Present(p: Player)
  {
    !p.isDeleted
  }

  /**
   * In a list where no present player follows a deleted one, the present players are
   * exactly the front of the list.
   */
  lemma {:induction false} PresentPlayersArePrefix(s: seq<Player>)
    requires forall i, j | 0 <= i < j < |s| && s[i].isDeleted :: s[j].isDeleted
    ensures |Filter(s, Present)| <= |s| && Filter(s, Present) == s[..|Filter(s, Present)|]
  {
    if s != [] {
      if s[0].isDeleted {
        FilterNone(s, Present);
      } else {
        PresentPlayersArePrefix(s[1..]);
        var m := |Filter(s[1..], Present)|;
        assert s[..m + 1] == [s[0]] + s[1..][..m];
      }
    }
  }

  /** `filter { !it.isDeleted }` over a list with the deleted players last. */
  function PresentOnly(all: seq<Player>): (r: seq<Player>)
    requires forall i, j | 0 <= i < j < |all| && all[i].isDeleted :: all[j].isDeleted
    ensures |r| <= |all| && r == all[..|r|]
    ensures forall p :: multiset(r)[p] == if p.isDeleted then 0 else multiset(all)[p]
  {
    PresentPlayersArePrefix(all);
    FilterMultiset(all, Present);
    Filter(all, Present)
  }

  lemma PrefixKeepsSorted(s: seq<Player>, n: nat)
    requires n <= |s| && SortedBy(s, ListedBefore)
    ensures SortedBy(s[..n], ListedBefore)
  {
    forall i, j | 0 <= i < j < n ensures ListedBefore(s[..n][i], s[..n][j]) {
      assert s[..n][i] == s[i] && s[..n][j] == s[j];
    }
  }

  class LegacyScoreViewModel {
    const store: Database
    var showDeleted: bool
    var selectedPlayers: seq<Player>

    ghost predicate Valid()
      reads this, store
    {
      store.Valid()
    }

    /** Created with deleted players hidden and nothing selected. */
    constructor (store: Database)
      requires store.Valid()
      ensures Valid() && this.store == store && unchanged(store)
      ensures !showDeleted && selectedPlayers == []
    {
      this.store := store;
      showDeleted := false;
      selectedPlayers := [];
    }

    /**
     * `allPlayers`: every player when deleted ones are shown; otherwise only the present
     * players, which are the front of the full list, in its order.
     */
    function AllPlayers(): (r: seq<Player>)
      reads this, store
      ensures showDeleted ==> r == store.AllPlayers()
      ensures !showDeleted ==> |r| <= |store.AllPlayers()| && r == store.AllPlayers()[..|r|]
      ensures !showDeleted ==> forall p :: multiset(r)[p] == if p.isDeleted then 0 else multiset(store.players)[p]
      ensures SortedBy(r, ListedBefore)
    {
      var all := store.AllPlayers();
      if showDeleted then all
      else
        var r := PresentOnly(all);
        PrefixKeepsSorted(all, |r|);
        r
    }

    /** `toggleShowDeleted`. */
    method ToggleShowDeleted()
      modifies this`showDeleted
      ensures showDeleted == !old(showDeleted)
    {
      showDeleted := !showDeleted;
    }

    /** `togglePlayerSelection`, the same rule as in the score engine. */
    method TogglePlayerSelection(player: Player)
      modifies this`selectedPlayers
      ensures selectedPlayers == Toggle(old(selectedPlayers), player)
      ensures |old(selectedPlayers)| <= MaxSelection ==> |selectedPlayers| <= MaxSelection
    {
      var current := selectedPlayers;
      if player in current {
        current := RemoveFirst(current, player);
      } else if |current| < MaxSelection {
        current := current + [player];
      }
      selectedPlayers := current;
    }

    /** `addPlayerToDatabase`: store the player under a new id, then toggle it into the selection. */
    method AddPlayerToDatabase(name: string) returns (ok: bool)
      requires Valid()
      modifies this`selectedPlayers, store
      ensures Valid()
      ensures ok <==> |name| <= MaxNameLength
      ensures store.games == old(store.games) && store.scores == old(store.scores)
      ensures store.lastGameId == old(store.lastGameId) && store.lastScoreId == old(store.lastScoreId)
      ensures store.lastPlayerId == if ok then old(store.lastPlayerId) + 1 else old(store.lastPlayerId)
      ensures |old(selectedPlayers)| <= MaxSelection ==> |selectedPlayers| <= MaxSelection
      ensures !ok ==> store.players == old(store.players) && selectedPlayers == old(selectedPlayers)
      ensures ok ==> var added: Player := PlayerData(old(store.lastPlayerId) + 1, name, false);
        store.players == old(store.players) + [added] && selectedPlayers == Toggle(old(selectedPlayers), added)
    {
      var made := NewPlayer(name);
      if made.Failure? {
        return false;
      }
      ok := true;
      var id := store.InsertPlayer(made.value);
      if id != -1 {
        var newPlayer := NewPlayer(name, id).value;
        TogglePlayerSelection(newPlayer);
      }
    }

    /** `deletePlayer`: only the soft delete; a selected player stays selected. */
    method DeletePlayer(player: Player)
      requires Valid()
      modifies store`players
      ensures Valid()
      ensures store.players == SetDeleted(old(store.players), player.id, true)
    {
      store.SoftDeletePlayer(player.id);
    }

    /** `restorePlayer`. */
    method RestorePlayer(player: Player)
      requires Valid()
      modifies store`players
      ensures Valid()
      ensures store.players == SetDeleted(old(store.players), player.id, false)
    {
      store.RestorePlayer(player.id);
    }
  }

  /** Every listed player is a stored row, and with deleted players hidden none of them is deleted. */
  lemma ListedPlayersAreStored(vm: LegacyScoreViewModel)
    ensures forall p | p in vm.AllPlayers() :: p in vm.store.players
    ensures !vm.showDeleted ==> forall p | p in vm.AllPlayers() :: !p.isDeleted
  {
    var r := vm.AllPlayers();
    assert forall p | p in r :: multiset(r)[p] > 0;
    assert forall p :: multiset(vm.store.AllPlayers())[p] == multiset(vm.store.players)[p];
  }
}

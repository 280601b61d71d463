/** `GameStore`: the server's games by id. */
module ServerStore {
  import opened Wrappers
  import opened ServerGame
  import Lists

  /** `PlayerConnectionInformation`, which the client keeps to reconnect. */
  datatype PlayerConnectionInformation = PlayerConnectionInformation(gameId: string,
                                                                     playerId: string)

  /** No two keys of `m` hold the same value. */
  ghost predicate Injective<K, V>(m: map<K, V>)
  {
    forall a, b :: a in m && b in m && a != b ==> m[a] != m[b]
  }

  /** Storing a value no key holds yet under a new key keeps the map injective. */
  lemma InjectiveInsert<K, V>(m: map<K, V>, k: K, v: V)
    requires Injective(m) && k !in m
    requires forall j :: j in m ==> m[j] != v
    ensures Injective(m[k := v])
  {
  }

  /** Storing under a new key adds exactly that key and keeps every other entry. */
  lemma InsertKeepsOthers<K, V>(m: map<K, V>, k: K, v: V)
    requires k !in m
    ensures m[k := v].Keys == m.Keys + {k}
    ensures |m[k := v]| == |m| + 1
    ensures forall j :: j in m ==> m[k := v][j] == m[j]
  {
  }

  class GameStore {
    var games: map<string, GameSession>

    /** Distinct ids hold distinct sessions; every session keeps its invariant and has at
        least the player who created it. */
    ghost predicate Valid()
      reads this, games.Values
    {
      && Injective(games)
      && (forall k :: k in games ==> games[k].Valid() && games[k].players != [])
    }

    constructor ()
      ensures games == map[] && Valid()
    {
      games := map[];
    }

    /** `Create`: a fresh session with the caller as its host and only player, stored under
        `gameId`, which stands for the fresh GUID the runtime generates; no other game
        changes. */
    method Create(playerName: string, gameId: string, playerId: string)
      returns (info: PlayerConnectionInformation)
      requires Valid() && gameId !in games
      modifies this
      ensures Valid()
      ensures info == PlayerConnectionInformation(gameId, playerId)
      ensures games.Keys == old(games.Keys) + {gameId}
      ensures |games| == |old(games)| + 1
      ensures forall k :: k in old(games) ==> games[k] == old(games[k])
      ensures fresh(games[gameId])
      ensures games[gameId].State()
           == SessionState(None, [Player(playerId, playerName, 0, true, false)], [], 0, false)
      ensures TryGet(gameId) == Some(games[gameId])
    {
      var game := new GameSession();
      var id := game.AddPlayer(playerName, true, playerId);
      Put(gameId, game);
      InsertKeepsOthers(old(games), gameId, game);
      info := PlayerConnectionInformation(gameId, id);
    }

    /** The indexer assignment `_games[gameId] = game` for a key not yet present and a
        session no other id holds. */
    method Put(gameId: string, game: GameSession)
      requires Valid() && gameId !in games
      requires game.Valid() && game.players != [] && game !in games.Values
      modifies this
      ensures games == old(games)[gameId := game]
      ensures Valid()
    {
      ghost var before := games;
      forall k | k in before
        ensures before[k] != game && before[k].Valid() && before[k].players != []
      {
        assert before[k] in before.Values;
      }
      InjectiveInsert(before, gameId, game);
      games := games[gameId := game];
    }

    /** `TryJoin`: adds a non-host player to the game with that id, or reports that there is
        none; no other game changes. */
    method TryJoin(gameId: string, playerName: string, playerId: string)
      returns (info: Option<PlayerConnectionInformation>)
      requires Valid()
      modifies if gameId in games then {games[gameId]} else {}
      ensures Valid() && games == old(games)
      ensures info.None? <==> gameId !in games
      ensures info.Some? ==> info.value == PlayerConnectionInformation(gameId, playerId)
      ensures gameId in games ==>
                games[gameId].State()
                == old(games[gameId].State()).(players := old(games[gameId].players)
                                                + [Player(playerId, playerName, 0, false, false)])
    {
      if gameId !in games {
        return None;
      }
      var game := games[gameId];
      var id := game.AddPlayer(playerName, false, playerId);
      info := Some(PlayerConnectionInformation(gameId, id));
    }

    /** `TryGet`. */
    function TryGet(gameId: string): (r: Option<GameSession>)
      reads this
      ensures r.Some? <==> gameId in games
      ensures r.Some? ==> r.value == games[gameId]
    {
      if gameId in games then Some(games[gameId]) else None
    }

    /** `GetIds`: every game id once. */
    method GetIds() returns (ids: seq<string>)
      ensures forall k :: k in ids <==> k in games
      ensures Lists.NoDuplicates(ids)
      ensures |ids| == |games|
    {
      ids := [];
      var rest := games.Keys;
      while rest != {}
        invariant rest <= games.Keys
        invariant forall k :: k in ids <==> k in games && k !in rest
        invariant Lists.NoDuplicates(ids)
        invariant |ids| + |rest| == |games|
        decreases |rest|
      {
        var k :| k in rest;
        ids := ids + [k];
        rest := rest - {k};
      }
    }
  }
}

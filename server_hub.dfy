/** The server's `GameHub`: each method looks its game up in the store and runs the command
    on that session's fields in place. A `Sent` result is the snapshot broadcast to the group
    (to the caller, for `JoinGame`); `Threw` is the exception the caller receives. */
module ServerHub {
  import opened Wrappers
  import opened DotNetText
  import opened TriviaTypes
  import opened Questions
  import opened ItemMapper
  import opened HubTypes
  import opened ServerGame
  import opened ServerStore

  /** `Players.All(p => p.Id != playerId)`. */
  predicate NoPlayerWithId(players: seq<Player>, playerId: string) {
    forall i :: 0 <= i < |players| ==> players[i].id != playerId
  }

  /** The snapshot of a session, or the exception building it throws. */
  function Snapshot(s: SessionState): (r: HubResult<GameStateResponse>)
    requires 0 <= s.turnIndex < |s.players|
    ensures r.Sent? <==> BuildGameState(s).Success?
    ensures r.Sent? ==> Success(r.state) == BuildGameState(s)
    ensures r.Threw? ==> Failure(r.error) == BuildGameState(s)
    ensures !DistinctNames(s.players) ==> r == Threw(DuplicatePlayerName)
  {
    match BuildGameState(s)
    case Success(snapshot) => Sent(snapshot)
    case Failure(e) => Threw(e)
  }

  /** `JoinGame`: an unknown game or a caller who is not one of its players is refused;
      otherwise the caller receives the current snapshot. Nothing changes. */
  method JoinGame(store: GameStore, gameId: string, playerId: string)
    returns (r: HubResult<GameStateResponse>)
    requires store.Valid()
    ensures gameId !in store.games ==> r == Threw(GameNotFound)
    ensures gameId in store.games && NoPlayerWithId(store.games[gameId].players, playerId)
            ==> r == Threw(PlayerNotFound)
    ensures gameId in store.games && !NoPlayerWithId(store.games[gameId].players, playerId)
            ==> r == Snapshot(store.games[gameId].State())
  {
    var found := store.TryGet(gameId);
    if found.None? {
      return Threw(GameNotFound);
    }
    var game := found.value;
    if NoPlayerWithId(game.players, playerId) {
      return Threw(PlayerNotFound);
    }
    r := Snapshot(game.State());
  }

  /** `StartGame`, run on the stored session: the new state and the result are those of
      `StartGameStep`; every other game is left alone. */
  method StartGame(store: GameStore, gameId: string, playerId: string,
                   catalog: seq<StoredItem>, pick: nat, rolls: seq<nat>)
    returns (r: HubResult<GameStateResponse>)
    requires store.Valid()
    modifies if gameId in store.games then {store.games[gameId]} else {}
    ensures store.Valid()
    ensures gameId !in store.games ==> r == Threw(GameNotFound)
    ensures gameId in store.games ==>
              var step := StartGameStep(old(store.games[gameId].State()), playerId, catalog,
                                        pick, rolls);
              store.games[gameId].State() == step.0 && r == Respond(step)
  {
    var found := store.TryGet(gameId);
    if found.None? {
      return Threw(GameNotFound);
    }
    var game := found.value;
    if game.started {
      return Threw(GameAlreadyStarted);
    }
    var index := FindPlayer(game.players, playerId);
    if index == -1 {
      return Threw(PlayerNotFound);
    }
    var outcome := ReadyUp(game, playerId, index, catalog, pick, rolls);
    if outcome.Faulted? {
      return Threw(outcome.error);
    }
    r := Snapshot(game.State());
  }

  /** `SubmitAnswer`, run on the stored session: the new state and the result are those of
      `SubmitAnswerStep`; every other game is left alone. */
  method SubmitAnswer(store: GameStore, gameId: string, playerId: string, questionIndex: int,
                      answer: string, catalog: seq<StoredItem>, pick: nat,
                      rolls: seq<nat>)
    returns (r: HubResult<GameStateResponse>)
    requires store.Valid()
    modifies if gameId in store.games then {store.games[gameId]} else {}
    ensures store.Valid()
    ensures gameId !in store.games ==> r == Threw(GameNotFound)
    ensures gameId in store.games ==>
              var step := SubmitAnswerStep(old(store.games[gameId].State()), playerId,
                                           questionIndex, answer, catalog, pick, rolls);
              store.games[gameId].State() == step.0 && r == Respond(step)
  {
    var found := store.TryGet(gameId);
    if found.None? {
      return Threw(GameNotFound);
    }
    var game := found.value;
    if !game.started {
      return Threw(GameNotStarted);
    }
    var currentPlayer := game.players[game.turnIndex];
    if currentPlayer.id != playerId {
      return Threw(NotPlayersTurn);
    }
    if game.current.None? {
      return Threw(NoCurrentItem);
    }
    var questions := game.current.value.content.questions;
    if questionIndex < 0 || questionIndex >= |questions| {
      return Threw(InvalidQuestionIndex);
    }
    if answer == "" {
      return Threw(EmptyAnswer);
    }
    var currentQuestion := questions[questionIndex];
    if currentQuestion.playerAnswer.Some? {
      return Threw(AlreadyAnswered);
    }
    var outcome := RecordAnswer(game, playerId, questionIndex, answer, catalog, pick, rolls);
    if outcome.Faulted? {
      return Threw(outcome.error);
    }
    r := Snapshot(game.State());
  }

  /** The part of `SubmitAnswer` after its checks: store and judge the answer (throwing when
      it cannot be judged), score it, pass the turn on, and complete the item 
      once every slot is filled. */
  method RecordAnswer(game: GameSession, playerId: string, questionIndex: int, answer: string,
                      catalog: seq<StoredItem>, pick: nat, rolls: seq<nat>)
    returns (outcome: Outcome)
    requires game.Valid()
    requires Admissible(game.State(), playerId, questionIndex, answer)
    modifies game
    ensures (game.State(), outcome)
         == SubmitAnswerStep(old(game.State()), playerId, questionIndex, answer, catalog, pick,
                             rolls)
  {
    var currentPlayer := game.players[game.turnIndex];
    var currentQuestion := game.current.value.content.questions[questionIndex];
    game.current := Some(AnswerAt(game.current.value, questionIndex, answer));
    var verdict := currentQuestion.CheckAnswer(answer);
    if verdict.Failure? {
      return Faulted(verdict.error);
    }
    var isCorrect := verdict.value;
    if isCorrect {
      currentPlayer := currentPlayer.(score := Int32Increment(currentPlayer.score));
      game.players := game.players[game.turnIndex := currentPlayer];
    }
    game.turnIndex := (game.turnIndex + 1) % |game.players|;
    var allAnswered := AllAnswered(game.current.value);
    outcome := Completed;
    if allAnswered {
      game.completed := game.completed + [game.current.value.id];
      outcome := game.DrawNewTriviaItem(catalog, pick, rolls);
    }
  }

  /** The part of `StartGame` after its checks: mark the caller ready and start the game
      once everybody is. */
  method ReadyUp(game: GameSession, playerId: string, index: int,
                 catalog: seq<StoredItem>, pick: nat, rolls: seq<nat>)
    returns (outcome: Outcome)
    requires game.Valid() && !game.started
    requires index == FindPlayer(game.players, playerId) && index != -1
    modifies game
    ensures (game.State(), outcome)
         == StartGameStep(old(game.State()), playerId, catalog, pick, rolls)
  {
    game.players := game.players[index := game.players[index].(hasReadiedUp := true)];
    outcome := Completed;
    if AllReady(game.players) {
      game.started := true;
      outcome := game.DrawNewTriviaItem(catalog, pick, rolls);
    }
  }
}

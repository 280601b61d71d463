/** The backend's `GameHub`. Its game store is not part of this model, so each method takes
    the result of the store lookup: `None` for an unknown game id, or the session found, on
    whose fields the command then runs in place. A `Sent` result is the snapshot broadcast to
    the group (to the caller, for `JoinGame`); `Threw` is the exception the caller receives. */
module BackendHub {
  import opened Wrappers
  import opened DotNetText
  import opened TriviaTypes
  import opened Questions
  import opened HubTypes
  import opened BackendGame
  import ItemMapper

  /** The snapshot of a session, or the exception building it throws. */
  function Snapshot(s: SessionState): (r: HubResult<GameStateResponse>)
    requires 0 <= s.turnIndex < |s.players|
    ensures r.Sent? <==> BuildGameState(s).Success?
    ensures r.Sent? ==> Success(r.state) == BuildGameState(s)
    ensures r.Threw? ==> Failure(r.error) == BuildGameState(s)
    ensures !DistinctNames(s.players) ==> r == Threw(DuplicatePlayerName)
  {
    match BuildGameState(s)
    case Success(snapshot) => Sent(snapshot)
    case Failure(e) => Threw(e)
  }

  /** `JoinGame`: an unknown game or a caller who is not one of its players is refused;
      otherwise the caller receives the current snapshot. Nothing changes. */
  method JoinGame(found: Option<GameSession>, playerId: string)
    returns (r: HubResult<GameStateResponse>)
    requires found.Some? ==> found.value.Valid()
    ensures found.None? ==> r == Threw(GameNotFound)
    ensures found.Some? && FindPlayer(found.value.players, playerId) == -1
            ==> r == Threw(PlayerNotFound)
    ensures found.Some? && FindPlayer(found.value.players, playerId) != -1
            ==> r == Snapshot(found.value.State())
  {
    if found.None? {
      return Threw(GameNotFound);
    }
    var game := found.value;
    if FindPlayer(game.players, playerId) == -1 {
      return Threw(PlayerNotFound);
    }
    r := Snapshot(game.State());
  }

  /** `StartGame` on the session found: the new state and the result are those of
      `StartGameStep`. */
  method StartGame(found: Option<GameSession>, playerId: string,
                   catalog: seq<StoredItem>, pick: nat)
    returns (r: HubResult<GameStateResponse>)
    requires found.Some? ==> found.value.Valid()
    modifies if found.Some? then {found.value} else {}
    ensures found.None? ==> r == Threw(GameNotFound)
    ensures found.Some? ==>
              var step := StartGameStep(old(found.value.State()), playerId, catalog, pick);
              found.value.State() == step.0 && found.value.Valid() && r == Respond(step)
  {
    if found.None? {
      return Threw(GameNotFound);
    }
    var game := found.value;
    if game.started {
      return Threw(GameAlreadyStarted);
    }
    var index := FindPlayer(game.players, playerId);
    if index == -1 || !game.players[index].isHost {
      return Threw(OnlyHostCanStart);
    }
    game.started := true;
    var outcome := game.DrawNewTriviaItem(catalog, pick);
    if outcome.Faulted? {
      return Threw(outcome.error);
    }
    r := Snapshot(game.State());
  }

  /** `SubmitAnswer` on the session found: the new state and the result are those of
      `SubmitAnswerStep`. */
  method SubmitAnswer(found: Option<GameSession>, playerId: string, questionIndex: int,
                      answer: string, catalog: seq<StoredItem>, pick: nat)
    returns (r: HubResult<GameStateResponse>)
    requires found.Some? ==> found.value.Valid()
    modifies if found.Some? then {found.value} else {}
    ensures found.None? ==> r == Threw(GameNotFound)
    ensures found.Some? ==>
              var step := SubmitAnswerStep(old(found.value.State()), playerId, questionIndex,
                                           answer, catalog, pick);
              found.value.State() == step.0 && found.value.Valid() && r == Respond(step)
  {
    if found.None? {
      return Threw(GameNotFound);
    }
    var game := found.value;
    if !game.started {
      return Threw(GameNotStarted);
    }
    var currentPlayer := game.players[game.turnIndex];
    if currentPlayer.id != playerId {
      return Threw(NotPlayersTurn);
    }
    if game.current.None? {
      return Threw(NoCurrentItem);
    }
    var questions := game.current.value.content.questions;
    if questionIndex < 0 || questionIndex >= |questions| {
      return Threw(InvalidQuestionIndex);
    }
    if answer == "" {
      return Threw(EmptyAnswer);
    }
    var currentQuestion := questions[questionIndex];
    if currentQuestion.playerAnswer.Some? {
      return Threw(AlreadyAnswered);
    }
    var outcome := RecordAnswer(game, playerId, questionIndex, answer, catalog, pick);
    if outcome.Faulted? {
      return Threw(outcome.error);
    }
    r := Snapshot(game.State());
  }

  /** The part of `SubmitAnswer` after its checks: store and judge the answer (throwing when
      it cannot be judged), score it, pass the turn on, and draw a new item 
      once every slot is filled. */
  method RecordAnswer(game: GameSession, playerId: string, questionIndex: int, answer: string,
                      catalog: seq<StoredItem>, pick: nat)
    returns (outcome: Outcome)
    requires game.Valid()
    requires Admissible(game.State(), playerId, questionIndex, answer)
    modifies game
    ensures (game.State(), outcome)
         == SubmitAnswerStep(old(game.State()), playerId, questionIndex, answer, catalog, pick)
  {
    var currentPlayer := game.players[game.turnIndex];
    var currentQuestion := game.current.value.content.questions[questionIndex];
    game.current := Some(AnswerAt(game.current.value, questionIndex, answer));
    var verdict := currentQuestion.CheckAnswer(answer);
    if verdict.Failure? {
      return Faulted(verdict.error);
    }
    var isCorrect := verdict.value;
    if isCorrect {
      currentPlayer := currentPlayer.(score := Int32Increment(currentPlayer.score));
      game.players := game.players[game.turnIndex := currentPlayer];
    }
    game.turnIndex := (game.turnIndex + 1) % |game.players|;
    var allAnswered := AllAnswered(game.current.value);
    outcome := Completed;
    if allAnswered {
      outcome := game.DrawNewTriviaItem(catalog, pick);
    }
  }
}

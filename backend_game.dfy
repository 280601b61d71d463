/** The game session of the backend web service, the older of the two game servers: the
    host alone starts the game, every draw is from the whole question bank (an item may come
    again), and `Map` keeps the stored question order and drops the multiple-choice options. */
module BackendGame {
  import opened Wrappers
  import opened DotNetText
  import opened TriviaTypes
  import opened Questions
  import opened HubTypes
  import ItemMapper
  import Lists

  /** `PlayerData`; `id` is the GUID assigned on creation. */
  datatype Player = Player(id: string, name: string, score: Int32, isHost: bool)

  // ---------------------------------------------------------------------------------------
  // Mapping and drawing.

  /** The backend's `Map`: it fails exactly when a stored question cannot be mapped;
      otherwise one domain question per stored question, in stored order, each the mapped
      stored question, of the kind the item's type names and with an empty answer slot; id,
      prompt and type are copied and the content carries no multiple-choice options. */
  function Map(dto: StoredItem): (r: Result<DomainItem, HubError>)
    ensures r.Success? <==> ItemMapper.Mappable(dto.questionType, dto.content.questions)
    ensures r.Failure? ==> r.error == MissingAnswer
    ensures r.Success? ==>
              && r.value.id == dto.id && r.value.prompt == dto.prompt
              && r.value.questionType == dto.questionType
              && r.value.content.correctAnswers == None
              && |r.value.content.questions| == |dto.content.questions|
              && Unanswered(r.value)
    ensures r.Success? ==>
              forall i :: 0 <= i < |dto.content.questions| ==>
                && Success(r.value.content.questions[i])
                   == ItemMapper.MapQuestion(dto.questionType, dto.content.questions[i])
                && r.value.content.questions[i].Type() == dto.questionType
  {
    match ItemMapper.MapQuestions(dto.questionType, dto.content.questions)
    case Failure(e) => Failure(e)
    case Success(qs) => Success(TriviaItem(dto.id, dto.prompt, ItemContent(qs, None), dto.questionType))
  }

  /** `SELECT Data FROM TriviaItems ORDER BY RANDOM() LIMIT 1` followed by `Map`: `pick`
      stands for the random order. A failure is the exception `DrawNewTriviaItem` throws:
      an empty table, or a drawn row that cannot be mapped. */
  function DrawItem(catalog: seq<StoredItem>, pick: nat): (r: Result<DomainItem, HubError>)
    ensures r == Failure(NoItemsAvailable) <==> catalog == []
    ensures catalog != [] ==> r == Map(catalog[pick % |catalog|])
    ensures r.Success? ==> exists d :: d in catalog && Map(d) == r
  {
    if catalog == [] then Failure(NoItemsAvailable)
    else
      var d := catalog[pick % |catalog|];
      Map(d)
  }

  // ---------------------------------------------------------------------------------------
  // Session state.

  /** The fields of `GameSession` as one value. */
  datatype SessionState = SessionState(current: Option<DomainItem>, players: seq<Player>,
                                       turnIndex: int, started: bool)
  {
    /** What the hub methods keep true: the turn index names a player once there is one; a
        started game has players; an item is only current in a started game, and its stored
        answers are non-empty. */
    ghost predicate Valid() {
      && 0 <= turnIndex
      && (if players == [] then turnIndex == 0 else turnIndex < |players|)
      && (started ==> players != [])
      && (!started ==> current.None?)
      && (current.Some? ==> AnswersNonEmpty(current.value))
    }
  }

  /** `FirstOrDefault(p => p.Id == id)` as an index: the first player with that id, or -1. */
  function FindPlayer(players: seq<Player>, id: string): (r: int)
    ensures -1 <= r < |players|
    ensures r == -1 <==> forall i :: 0 <= i < |players| ==> players[i].id != id
    ensures r >= 0 ==> players[r].id == id && forall i :: 0 <= i < r ==> players[i].id != id
  {
    if players == [] then -1
    else if players[0].id == id then 0
    else
      var k := FindPlayer(players[1..], id);
      if k == -1 then -1 else k + 1
  }

  /** The check `FirstOrDefault(p => p.Id == playerId)?.IsHost != true` passes: the first
      player with the caller's id is the host. */
  function CallerIsHost(players: seq<Player>, playerId: string): (r: bool)
    ensures r <==> exists i :: 0 <= i < |players| && players[i].id == playerId && players[i].isHost
                              && forall j :: 0 <= j < i ==> players[j].id != playerId
  {
    var i := FindPlayer(players, playerId);
    i != -1 && players[i].isHost
  }

  /** The hub's `StartGame` on the session it found: refuse a started game and a caller who
      is not the host; otherwise start the game and draw the first item. */
  function StartGameStep(s: SessionState, playerId: string, catalog: seq<StoredItem>,
                         pick: nat): (r: (SessionState, Outcome))
    requires s.Valid()
    ensures r.0.Valid()
    ensures r.1.Completed? ==> r.0.players != []
  {
    if s.started then (s, Refused(GameAlreadyStarted))
    else if !CallerIsHost(s.players, playerId) then (s, Refused(OnlyHostCanStart))
    else
      var s1 := s.(started := true);
      match DrawItem(catalog, pick)
      case Failure(e) => (s1, Faulted(e))
      case Success(item) => (s1.(current := Some(item)), Completed)
  }

  /** The checks `SubmitAnswer` makes before it writes anything, all passed. */
  predicate Admissible(s: SessionState, playerId: string, index: int, answer: string)
    requires s.Valid()
  {
    && s.started
    && s.players[s.turnIndex].id == playerId
    && s.current.Some?
    && 0 <= index < |s.current.value.content.questions|
    && answer != ""
    && s.current.value.content.questions[index].playerAnswer.None?
  }

  /** A submission that passes the checks comes from a player of the game, and the current
      item still has an open question. */
  lemma AdmissibleHasOpenQuestion(s: SessionState, playerId: string, index: int, answer: string)
    requires s.Valid() && Admissible(s, playerId, index, answer)
    ensures FindPlayer(s.players, playerId) != -1
    ensures s.current.Some? && !AllAnswered(s.current.value)
  {
    assert s.current.value.content.questions[index].playerAnswer.None?;
  }

  /** The hub's `SubmitAnswer` on the session it found: after its checks, store the answer,
      score it, pass the turn on, and once every question of the item is answered draw the
      next one. */
  function SubmitAnswerStep(s: SessionState, playerId: string, index: int, answer: string,
                            catalog: seq<StoredItem>, pick: nat)
    : (r: (SessionState, Outcome))
    requires s.Valid()
    ensures r.0.Valid()
    ensures |r.0.players| == |s.players| && r.0.started == s.started
    ensures r.1.Completed? ==> r.0.players != []
  {
    if Admissible(s, playerId, index, answer)
    then TakeAnswer(s, index, answer, catalog, pick)
    else (s, Rejection(s, playerId, index, answer))
  }

  /** The exception of the first check of `SubmitAnswer` that fails, in the order the hub
      makes them. */
  function Rejection(s: SessionState, playerId: string, index: int, answer: string)
    : (e: Outcome)
    requires s.Valid() && !Admissible(s, playerId, index, answer)
    ensures e.Refused? || e == Faulted(NoCurrentItem)
  {
    if !s.started then Refused(GameNotStarted)
    else if s.players[s.turnIndex].id != playerId then Refused(NotPlayersTurn)
    else if s.current.None? then Faulted(NoCurrentItem)
    else if index < 0 || index >= |s.current.value.content.questions|
    then Refused(InvalidQuestionIndex)
    else if answer == "" then Refused(EmptyAnswer)
    else Refused(AlreadyAnswered)
  }

  /** A submission that passed the checks: store the answer and judge it. When the question
      cannot judge it (a fill-in-the-blank question without accepted answers) the call
      throws with the answer stored. Otherwise add a point (with 32-bit wrap) to the player on
      turn when it is correct, pass the turn on, and draw a new item once every slot is
      filled. */
  function TakeAnswer(s: SessionState, index: int, answer: string,
                      catalog: seq<StoredItem>, pick: nat)
    : (r: (SessionState, Outcome))
    requires s.Valid()
    requires s.started && s.current.Some? && 0 <= index < |s.current.value.content.questions|
    requires answer != "" && s.current.value.content.questions[index].playerAnswer.None?
    ensures r.0.Valid()
    ensures |r.0.players| == |s.players| && r.0.started == s.started
    ensures r.1.Completed? || (r.1.Faulted? && r.1.error in {NoItemsAvailable, MissingAnswer, NoAcceptedAnswers})
  {
    var item := s.current.value;
    var answered := AnswerAt(item, index, answer);
    match item.content.questions[index].CheckAnswer(answer)
    case Failure(e) => (s.(current := Some(answered)), Faulted(e))
    case Success(correct) =>
      var t := s.turnIndex;
      var player := s.players[t];
      var players :=
        if correct then s.players[t := player.(score := Int32Increment(player.score))]
        else s.players;
      var s1 := s.(current := Some(answered), players := players,
                   turnIndex := (t + 1) % |players|);
      if !AllAnswered(answered) then (s1, Completed)
      else
        match DrawItem(catalog, pick)
        case Failure(e) => (s1, Faulted(e))
        case Success(next) => (s1.(current := Some(next)), Completed)
  }

  // ---------------------------------------------------------------------------------------
  // The snapshot broadcast after each command.

  /** `GameStateResponse`. */
  datatype GameStateResponse = GameStateResponse(
    playerScores: map<string, Int32>,
    playerTurn: string,
    currentTriviaItem: Option<TriviaItem<QuestionToClient>>)

  function Names(players: seq<Player>): set<string> {
    set i | 0 <= i < |players| :: players[i].name
  }

  predicate DistinctNames(players: seq<Player>) {
    forall i, j :: 0 <= i < j < |players| ==> players[i].name != players[j].name
  }

  /** The `(Name, Score)` pairs that `ToDictionary` receives, in join order. */
  function ScoreEntries(players: seq<Player>): (r: seq<(string, Int32)>)
    ensures |r| == |players|
    ensures forall i :: 0 <= i < |r| ==> r[i] == (players[i].name, players[i].score)
    ensures Lists.DistinctKeys(r) <==> DistinctNames(players)
    ensures Lists.Keys(r) == Names(players)
  {
    var r := seq(|players|, i requires 0 <= i < |players| => (players[i].name, players[i].score));
    assert forall i :: 0 <= i < |r| ==> r[i].0 == players[i].name;
    r
  }

  /** The client's view of the current item: every question through `ToClient`, id, prompt
      and type copied, and no multiple-choice options. It throws exactly when some
      question's view does. */
  function ToClientItem(item: DomainItem): (r: Result<TriviaItem<QuestionToClient>, HubError>)
    ensures r.Failure? <==> ShowFailsSomewhere(item)
    ensures r.Failure? ==> r.error == NoAcceptedAnswers
    ensures r.Success? ==>
              && r.value.id == item.id && r.value.prompt == item.prompt
              && r.value.questionType == item.questionType
              && r.value.content.correctAnswers == None
              && |r.value.content.questions| == |item.content.questions|
              && forall i :: 0 <= i < |item.content.questions| ==>
                   Success(r.value.content.questions[i]) == item.content.questions[i].ToClient()
  {
    var qs := item.content.questions;
    if ShowFailsSomewhere(item) then Failure(NoAcceptedAnswers)
    else
      Success(TriviaItem(item.id, item.prompt,
                         ItemContent(seq(|qs|, i requires 0 <= i < |qs| => qs[i].ToClient().value),
                                     None),
                         item.questionType))
  }

  /** `BuildGameState`: the scores by player name, the name of the player whose turn it is,
      and the client view of the current item. Two players with the same name make it
      throw, and so, after that, does a current item that cannot be shown. */
  function BuildGameState(s: SessionState): (r: Result<GameStateResponse, HubError>)
    requires 0 <= s.turnIndex < |s.players|
    ensures r.Failure? <==>
              !DistinctNames(s.players) || (s.current.Some? && ShowFailsSomewhere(s.current.value))
    ensures !DistinctNames(s.players) ==> r == Failure(DuplicatePlayerName)
    ensures DistinctNames(s.players) && r.Failure? ==> r.error == NoAcceptedAnswers
    ensures r.Success? ==>
              && r.value.playerScores.Keys == Names(s.players)
              && (forall i :: 0 <= i < |s.players| ==>
                    r.value.playerScores[s.players[i].name] == s.players[i].score)
              && r.value.playerTurn == s.players[s.turnIndex].name
              && (r.value.currentTriviaItem.Some? <==> s.current.Some?)
              && (s.current.Some? ==>
                    Success(r.value.currentTriviaItem.value) == ToClientItem(s.current.value))
  {
    match Lists.ToDictionary(ScoreEntries(s.players))
    case None => Failure(DuplicatePlayerName)
    case Some(scores) =>
      var name := s.players[s.turnIndex].name;
      if s.current.None? then Success(GameStateResponse(scores, name, None))
      else
        match ToClientItem(s.current.value)
        case Failure(e) => Failure(e)
        case Success(view) => Success(GameStateResponse(scores, name, Some(view)))
  }

  /** What the hub sends for a command: the snapshot of the new state when the command
      completed, else the exception. */
  function Respond(step: (SessionState, Outcome)): (r: HubResult<GameStateResponse>)
    requires step.0.Valid() && (step.1.Completed? ==> step.0.players != [])
    ensures r.Sent? <==> step.1.Completed? && BuildGameState(step.0).Success?
    ensures r.Sent? ==> Success(r.state) == BuildGameState(step.0)
    ensures !step.1.Completed? ==> r == Threw(step.1.error)
    ensures step.1.Completed? && r.Threw? ==> Failure(r.error) == BuildGameState(step.0)
  {
    match step.1
    case Completed =>
      (match BuildGameState(step.0)
       case Success(snapshot) => Sent(snapshot)
       case Failure(e) => Threw(e))
    case Refused(e) => Threw(e)
    case Faulted(e) => Threw(e)
  }

  // ---------------------------------------------------------------------------------------
  // `GameSession`.

  class GameSession {
    var current: Option<DomainItem>
    var players: seq<Player>
    var turnIndex: int
    var started: bool

    function State(): SessionState
      reads this
    {
      SessionState(current, players, turnIndex, started)
    }

    ghost predicate Valid()
      reads this
    {
      State().Valid()
    }

    /** A new session: no players, no item, turn 0, not started. */
    constructor ()
      ensures State() == SessionState(None, [], 0, false)
      ensures Valid()
    {
      current := None;
      players := [];
      turnIndex := 0;
      started := false;
    }

    /** `AddPlayer`: appends a player with no points. `newId` is the GUID the runtime would
        generate, and the result. */
    method AddPlayer(playerName: string, isHost: bool, newId: string) returns (id: string)
      requires Valid()
      modifies this
      ensures Valid()
      ensures id == newId
      ensures State() == old(State()).(players := old(players)
                                                   + [Player(newId, playerName, 0, isHost)])
    {
      players := players + [Player(newId, playerName, 0, isHost)];
      id := newId;
    }

    /** `DrawNewTriviaItem`: replaces the current item by a drawn one, or throws and leaves
        the session as it was when the bank is empty or the drawn item cannot be mapped. */
    method DrawNewTriviaItem(catalog: seq<StoredItem>, pick: nat) returns (outcome: Outcome)
      modifies this
      ensures outcome == if DrawItem(catalog, pick).Success? then Completed
                         else Faulted(DrawItem(catalog, pick).error)
      ensures State() == old(State()).(current := if outcome.Completed?
                                                  then Some(DrawItem(catalog, pick).value)
                                                  else old(current))
      ensures old(Valid()) && started ==> Valid()
    {
      var drawn := DrawItem(catalog, pick);
      if drawn.Failure? {
        outcome := Faulted(drawn.error);
        return;
      }
      current := Some(drawn.value);
      outcome := Completed;
    }
  }
}

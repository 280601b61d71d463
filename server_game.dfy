/** The game session of the SignalR server: its state, the draw of the next trivia item, and
    the state changes that `StartGame` and `SubmitAnswer` make, as functions of the state
    before the call. */
module ServerGame {
  import opened Wrappers
  import opened DotNetText
  import opened TriviaTypes
  import opened Questions
  import opened ItemMapper
  import opened HubTypes
  import Lists

  /** `PlayerData`; `id` is the GUID assigned on creation. */
  datatype Player = Player(id: string, name: string, score: Int32, isHost: bool,
                           hasReadiedUp: bool)

  type Item = TriviaItem<Question>

  // ---------------------------------------------------------------------------------------
  // The draw query with SQL's three-valued logic; `None` is SQL's NULL.

  function SqlEquals(a: Option<string>, b: Option<string>): Option<bool> {
    if a.None? || b.None? then None else Some(a.value == b.value)
  }

  function SqlOr(p: Option<bool>, q: Option<bool>): Option<bool> {
    if p == Some(true) || q == Some(true) then Some(true)
    else if p.None? || q.None? then None
    else Some(false)
  }

  function SqlNot(p: Option<bool>): Option<bool> {
    if p.None? then None else Some(!p.value)
  }

  /** `x = ANY(arr)`: false over an empty array, otherwise the OR of the comparisons. */
  function SqlEqualsAny(x: Option<string>, arr: seq<Option<string>>): Option<bool> {
    if arr == [] then Some(false)
    else SqlOr(SqlEqualsAny(x, arr[..|arr| - 1]), SqlEquals(x, arr[|arr| - 1]))
  }

  /** The WHERE clause of the draw query keeps a row only when
      `NOT Data->>'Id' = ANY(@CompletedIds)` is true (not false, not NULL): every row while
      nothing is completed, and afterwards only a row with an id that is not completed. */
  function Drawable(d: StoredItem, completed: seq<Option<string>>): (r: bool)
    ensures completed == [] ==> r
    ensures r && completed != [] ==> d.id.Some? && d.id !in completed
  {
    SqlEqualsAnyIsFalse(d.id, completed);
    SqlNot(SqlEqualsAny(d.id, completed)) == Some(true)
  }

  lemma {:induction false} SqlEqualsAnyIsFalse(x: Option<string>, arr: seq<Option<string>>)
    ensures SqlEqualsAny(x, arr) == Some(false)
        <==> (arr == [] || (x.Some? && x !in arr && None !in arr))
  {
    if arr != [] {
      var init := arr[..|arr| - 1];
      SqlEqualsAnyIsFalse(x, init);
      assert arr == init + [arr[|arr| - 1]];
    }
  }

  /** Which items the draw may return: any item while nothing is completed; after that only
      items with an id that is not completed, and none at all once a missing id has been
      recorded as completed. */
  lemma DrawableIff(d: StoredItem, completed: seq<Option<string>>)
    ensures Drawable(d, completed)
        <==> (completed == [] || (d.id.Some? && d.id !in completed && None !in completed))
  {
    SqlEqualsAnyIsFalse(d.id, completed);
  }

  /** The rows the draw query may pick from, in table order. */
  function Eligible(catalog: seq<StoredItem>, completed: seq<Option<string>>)
    : (r: seq<StoredItem>)
    ensures forall d :: d in r <==> d in catalog && Drawable(d, completed)
  {
    if catalog == [] then []
    else
      (if Drawable(catalog[0], completed) then [catalog[0]] else [])
      + Eligible(catalog[1..], completed)
  }

  /** The query of `DrawNewTriviaItem` followed by `Map`: `pick` stands for `ORDER BY
      RANDOM() LIMIT 1` and `rolls` for the random draws of the shuffle. A failure is the
      exception the method throws: no row is left, or the drawn row cannot be mapped. */
  function DrawItem(catalog: seq<StoredItem>, completed: seq<Option<string>>,
                    pick: nat, rolls: seq<nat>): (r: Result<Item, HubError>)
    ensures r == Failure(NoItemsAvailable) <==> forall d :: d in catalog ==> !Drawable(d, completed)
    ensures r.Failure? ==> r.error == NoItemsAvailable || r.error == MissingAnswer
    ensures r.Failure? && r.error == MissingAnswer ==>
              exists d :: d in catalog && Drawable(d, completed)
                          && !Mappable(d.questionType, d.content.questions)
    ensures r.Success? ==> exists d :: d in catalog && Drawable(d, completed) && Map(d, rolls) == r
    ensures r.Success? ==> Unanswered(r.value) && r.value.id !in completed
  {
    var rows := Eligible(catalog, completed);
    if rows == [] then Failure(NoItemsAvailable)
    else
      var d := rows[pick % |rows|];
      assert d in rows;
      DrawableIff(d, completed);
      Map(d, rolls)
  }

  /** From a bank in which every item can be mapped, the draw fails only when no row is
      left. */
  lemma DrawFromMappableCatalog(catalog: seq<StoredItem>, completed: seq<Option<string>>,
                                pick: nat, rolls: seq<nat>)
    requires MappableCatalog(catalog)
    ensures DrawItem(catalog, completed, pick, rolls).Success?
        <==> exists d :: d in catalog && Drawable(d, completed)
  {
  }

  // ---------------------------------------------------------------------------------------
  // Session state.

  predicate AllReady(players: seq<Player>) {
    forall i :: 0 <= i < |players| ==> players[i].hasReadiedUp
  }

  /** The fields of `GameSession` as one value. */
  datatype SessionState = SessionState(current: Option<Item>, players: seq<Player>,
                                       completed: seq<Option<string>>, turnIndex: int,
                                       started: bool)
  {
    /** What the hub methods keep true: the turn index names a player once there is one;
        a started game has players; an item is only current in a started game; its stored
        answers are non-empty; completed ids are distinct, and the current item, while it
        still has open questions, is not among them. */
    ghost predicate Valid() {
      && 0 <= turnIndex
      && (if players == [] then turnIndex == 0 else turnIndex < |players|)
      && (started ==> players != [])
      && (!started ==> current.None?)
      && Lists.NoDuplicates(completed)
      && (current.Some? ==>
            AnswersNonEmpty(current.value)
            && (!AllAnswered(current.value) ==> current.value.id !in completed))
    }
  }

  /** `List.FindIndex(p => p.Id == id)`: the first player with that id, or -1. */
  function FindPlayer(players: seq<Player>, id: string): (r: int)
    ensures -1 <= r < |players|
    ensures r == -1 <==> forall i :: 0 <= i < |players| ==> players[i].id != id
    ensures r >= 0 ==> players[r].id == id && forall i :: 0 <= i < r ==> players[i].id != id
  {
    if players == [] then -1
    else if players[0].id == id then 0
    else
      var k := FindPlayer(players[1..], id);
      if k == -1 then -1 else k + 1
  }

  /** The hub's `StartGame` on the session it found: refuse a started game or an unknown
      player; otherwise mark the caller ready and, once everybody is, start the game and
      draw the first item. */
  function StartGameStep(s: SessionState, playerId: string, catalog: seq<StoredItem>,
                         pick: nat, rolls: seq<nat>): (r: (SessionState, Outcome))
    requires s.Valid()
    ensures r.0.Valid()
    ensures r.1.Completed? ==> r.0.players != []
  {
    if s.started then (s, Refused(GameAlreadyStarted))
    else
      var i := FindPlayer(s.players, playerId);
      if i == -1 then (s, Refused(PlayerNotFound))
      else
        var s1 := s.(players := s.players[i := s.players[i].(hasReadiedUp := true)]);
        if !AllReady(s1.players) then (s1, Completed)
        else
          var s2 := s1.(started := true);
          match DrawItem(catalog, s2.completed, pick, rolls)
          case Failure(e) => (s2, Faulted(e))
          case Success(item) => (s2.(current := Some(item)), Completed)
  }

  /** The checks `SubmitAnswer` makes before it writes anything, all passed. */
  predicate Admissible(s: SessionState, playerId: string, index: int, answer: string)
    requires s.Valid()
  {
    && s.started
    && s.players[s.turnIndex].id == playerId
    && s.current.Some?
    && 0 <= index < |s.current.value.content.questions|
    && answer != ""
    && s.current.value.content.questions[index].playerAnswer.None?
  }

  /** A submission that passes the checks comes from a player of the game, and the current
      item still has an open question and is not among the completed ones. */
  lemma AdmissibleHasOpenQuestion(s: SessionState, playerId: string, index: int, answer: string)
    requires s.Valid() && Admissible(s, playerId, index, answer)
    ensures FindPlayer(s.players, playerId) != -1
    ensures s.current.Some? && !AllAnswered(s.current.value)
    ensures s.current.value.id !in s.completed
  {
    assert s.current.value.content.questions[index].playerAnswer.None?;
  }

  /** The hub's `SubmitAnswer` on the session it found: after its checks, store the answer,
      score it, pass the turn on, and once every question of the item is answered record the
      item as completed and draw the next one. */
  function SubmitAnswerStep(s: SessionState, playerId: string, index: int, answer: string,
                            catalog: seq<StoredItem>, pick: nat, rolls: seq<nat>)
    : (r: (SessionState, Outcome))
    requires s.Valid()
    ensures r.0.Valid()
    ensures |r.0.players| == |s.players| && r.0.started == s.started
    ensures r.1.Completed? ==> r.0.players != []
  {
    if Admissible(s, playerId, index, answer)
    then TakeAnswer(s, index, answer, catalog, pick, rolls)
    else (s, Rejection(s, playerId, index, answer))
  }

  /** The exception of the first check of `SubmitAnswer` that fails, in the order the hub
      makes them. */
  function Rejection(s: SessionState, playerId: string, index: int, answer: string)
    : (e: Outcome)
    requires s.Valid() && !Admissible(s, playerId, index, answer)
    ensures e.Refused? || e == Faulted(NoCurrentItem)
  {
    if !s.started then Refused(GameNotStarted)
    else if s.players[s.turnIndex].id != playerId then Refused(NotPlayersTurn)
    else if s.current.None? then Faulted(NoCurrentItem)
    else if index < 0 || index >= |s.current.value.content.questions|
    then Refused(InvalidQuestionIndex)
    else if answer == "" then Refused(EmptyAnswer)
    else Refused(AlreadyAnswered)
  }

  /** A submission that passed the checks: store the answer and judge it. When the question
      cannot judge it (a fill-in-the-blank question without accepted answers) the call
      throws with the answer stored. Otherwise add a point (with 32-bit wrap) to the player on
      turn when it is correct, pass the turn on, and complete the item once every slot is
      filled. */
  function TakeAnswer(s: SessionState, index: int, answer: string,
                      catalog: seq<StoredItem>, pick: nat, rolls: seq<nat>)
    : (r: (SessionState, Outcome))
    requires s.Valid()
    requires s.started && s.current.Some? && 0 <= index < |s.current.value.content.questions|
    requires answer != "" && s.current.value.content.questions[index].playerAnswer.None?
    ensures r.0.Valid()
    ensures |r.0.players| == |s.players| && r.0.started == s.started
    ensures r.1.Completed? || (r.1.Faulted? && r.1.error in {NoItemsAvailable, MissingAnswer, NoAcceptedAnswers})
  {
    var item := s.current.value;
    var qs := item.content.questions;
    var answered := AnswerAt(item, index, answer);
    AnsweredStaysValid(s, index, answer);
    match qs[index].CheckAnswer(answer)
    case Failure(e) => (s.(current := Some(answered)), Faulted(e))
    case Success(correct) =>
      var t := s.turnIndex;
      var player := s.players[t];
      var players :=
        if correct then s.players[t := player.(score := Int32Increment(player.score))]
        else s.players;
      var s1 := s.(current := Some(answered), players := players,
                   turnIndex := (t + 1) % |players|);
      if !AllAnswered(answered) then (s1, Completed)
      else
        var s2 := s1.(completed := s1.completed + [answered.id]);
        match DrawItem(catalog, s2.completed, pick, rolls)
        case Failure(e) => (s2, Faulted(e))
        case Success(next) => (s2.(current := Some(next)), Completed)
  }

  /** Storing an admissible answer keeps the session invariant, and once the answer fills the
      last slot the item's id is new to the completed ids. */
  lemma AnsweredStaysValid(s: SessionState, index: int, answer: string)
    requires s.Valid()
    requires s.started && s.current.Some? && 0 <= index < |s.current.value.content.questions|
    requires answer != "" && s.current.value.content.questions[index].playerAnswer.None?
    ensures s.(current := Some(AnswerAt(s.current.value, index, answer))).Valid()
    ensures AnswerAt(s.current.value, index, answer).id == s.current.value.id
    ensures s.current.value.id !in s.completed
  {
    var item := s.current.value;
    assert !AllAnswered(item) by {
      assert item.content.questions[index].playerAnswer.None?;
    }
  }

  // ---------------------------------------------------------------------------------------
  // The snapshot broadcast after each command.

  /** `GameStateResponse`. */
  datatype GameStateResponse = GameStateResponse(
    playerScores: map<string, Int32>,
    currentPlayerName: string,
    currentTriviaItem: Option<TriviaItem<QuestionToClient>>)
  {
    predicate GameStarted() {
      currentTriviaItem.Some?
    }
  }

  function Names(players: seq<Player>): set<string> {
    set i | 0 <= i < |players| :: players[i].name
  }

  predicate DistinctNames(players: seq<Player>) {
    forall i, j :: 0 <= i < j < |players| ==> players[i].name != players[j].name
  }

  /** The `(Name, Score)` pairs that `ToDictionary` receives, in join order. */
  function ScoreEntries(players: seq<Player>): (r: seq<(string, Int32)>)
    ensures |r| == |players|
    ensures forall i :: 0 <= i < |r| ==> r[i] == (players[i].name, players[i].score)
    ensures Lists.DistinctKeys(r) <==> DistinctNames(players)
    ensures Lists.Keys(r) == Names(players)
  {
    var r := seq(|players|, i requires 0 <= i < |players| => (players[i].name, players[i].score));
    assert forall i :: 0 <= i < |r| ==> r[i].0 == players[i].name;
    r
  }

  /** The client's view of the current item: every question through `ToClient`, the rest
      copied. It throws exactly when some question's view does. */
  function ToClientItem(item: Item): (r: Result<TriviaItem<QuestionToClient>, HubError>)
    ensures r.Failure? <==> ShowFailsSomewhere(item)
    ensures r.Failure? ==> r.error == NoAcceptedAnswers
    ensures r.Success? ==>
              && r.value.id == item.id && r.value.prompt == item.prompt
              && r.value.questionType == item.questionType
              && r.value.content.correctAnswers == item.content.correctAnswers
              && |r.value.content.questions| == |item.content.questions|
              && forall i :: 0 <= i < |item.content.questions| ==>
                   Success(r.value.content.questions[i]) == item.content.questions[i].ToClient()
  {
    var qs := item.content.questions;
    if ShowFailsSomewhere(item) then Failure(NoAcceptedAnswers)
    else
      Success(TriviaItem(item.id, item.prompt,
                         ItemContent(seq(|qs|, i requires 0 <= i < |qs| => qs[i].ToClient().value),
                                     item.content.correctAnswers),
                         item.questionType))
  }

  /** `BuildGameState`: the scores by player name, the name of the player whose turn it is,
      and the client view of the current item; `GameStarted` holds exactly when there is a
      current item. Two players with the same name make it throw, and so, after that, does a
      current item that cannot be shown. */
  function BuildGameState(s: SessionState): (r: Result<GameStateResponse, HubError>)
    requires 0 <= s.turnIndex < |s.players|
    ensures r.Failure? <==>
              !DistinctNames(s.players) || (s.current.Some? && ShowFailsSomewhere(s.current.value))
    ensures !DistinctNames(s.players) ==> r == Failure(DuplicatePlayerName)
    ensures DistinctNames(s.players) && r.Failure? ==> r.error == NoAcceptedAnswers
    ensures r.Success? ==>
              && r.value.playerScores.Keys == Names(s.players)
              && (forall i :: 0 <= i < |s.players| ==>
                    r.value.playerScores[s.players[i].name] == s.players[i].score)
              && r.value.currentPlayerName == s.players[s.turnIndex].name
              && (r.value.GameStarted() <==> s.current.Some?)
              && (s.current.Some? ==>
                    Success(r.value.currentTriviaItem.value) == ToClientItem(s.current.value))
  {
    match Lists.ToDictionary(ScoreEntries(s.players))
    case None => Failure(DuplicatePlayerName)
    case Some(scores) =>
      var name := s.players[s.turnIndex].name;
      if s.current.None? then Success(GameStateResponse(scores, name, None))
      else
        match ToClientItem(s.current.value)
        case Failure(e) => Failure(e)
        case Success(view) => Success(GameStateResponse(scores, name, Some(view)))
  }

  /** What the hub sends for a command: the snapshot of the new state when the command
      completed, else the exception. */
  function Respond(step: (SessionState, Outcome)): (r: HubResult<GameStateResponse>)
    requires step.0.Valid() && (step.1.Completed? ==> step.0.players != [])
    ensures r.Sent? <==> step.1.Completed? && BuildGameState(step.0).Success?
    ensures r.Sent? ==> Success(r.state) == BuildGameState(step.0)
    ensures !step.1.Completed? ==> r == Threw(step.1.error)
    ensures step.1.Completed? && r.Threw? ==> Failure(r.error) == BuildGameState(step.0)
  {
    match step.1
    case Completed =>
      (match BuildGameState(step.0)
       case Success(snapshot) => Sent(snapshot)
       case Failure(e) => Threw(e))
    case Refused(e) => Threw(e)
    case Faulted(e) => Threw(e)
  }

  // ---------------------------------------------------------------------------------------
  // `GameSession`.

  class GameSession {
    var current: Option<Item>
    var players: seq<Player>
    var completed: seq<Option<string>>
    var turnIndex: int
    var started: bool

    function State(): SessionState
      reads this
    {
      SessionState(current, players, completed, turnIndex, started)
    }

    ghost predicate Valid()
      reads this
    {
      State().Valid()
    }

    /** A new session: no players, no item, nothing completed, turn 0, not started. */
    constructor ()
      ensures State() == SessionState(None, [], [], 0, false)
      ensures Valid()
    {
      current := None;
      players := [];
      completed := [];
      turnIndex := 0;
      started := false;
    }

    /** `AddPlayer`: appends a player with no points who has not readied up. `newId` is the
        GUID the runtime would generate, and the result. */
    method AddPlayer(playerName: string, isHost: bool, newId: string) returns (id: string)
      requires Valid()
      modifies this
      ensures Valid()
      ensures id == newId
      ensures State() == old(State()).(players := old(players)
                                                   + [Player(newId, playerName, 0, isHost, false)])
    {
      players := players + [Player(newId, playerName, 0, isHost, false)];
      id := newId;
    }

    /** `DrawNewTriviaItem`: replaces the current item by a drawn one, or throws and leaves
        the session as it was when nothing can be drawn. */
    method DrawNewTriviaItem(catalog: seq<StoredItem>, pick: nat, rolls: seq<nat>)
      returns (outcome: Outcome)
      modifies this
      ensures outcome == if DrawItem(catalog, old(completed), pick, rolls).Success?
                         then Completed else Faulted(DrawItem(catalog, old(completed), pick, rolls).error)
      ensures State() == old(State()).(current := if outcome.Completed?
                                                  then Some(DrawItem(catalog, old(completed), pick, rolls).value)
                                                  else old(current))
      ensures old(Valid()) && started ==> Valid()
    {
      var drawn := DrawItem(catalog, completed, pick, rolls);
      if drawn.Failure? {
        outcome := Faulted(drawn.error);
        return;
      }
      current := Some(drawn.value);
      outcome := Completed;
    }
  }
}

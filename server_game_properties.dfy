/** What the server's `StartGame` and `SubmitAnswer` guarantee, stated over the step
    functions of `ServerGame`, and what follows for a sequence of submissions. */
module ServerGameProperties {
  import opened Wrappers
  import opened DotNetText
  import opened TriviaTypes
  import opened Questions
  import opened ItemMapper
  import opened HubTypes
  import opened ServerGame
  import Modular

  // ---------------------------------------------------------------------------------------
  // StartGame

  /** `StartGame` refuses a started game and a caller who is not a player of it, and then
      changes nothing. */
  lemma StartGameRefusals(s: SessionState, playerId: string, catalog: seq<StoredItem>,
                          pick: nat, rolls: seq<nat>)
    requires s.Valid()
    ensures var r := StartGameStep(s, playerId, catalog, pick, rolls);
            && (r.1 == Refused(GameAlreadyStarted) <==> s.started)
            && (r.1 == Refused(PlayerNotFound) <==>
                  !s.started && forall i :: 0 <= i < |s.players| ==> s.players[i].id != playerId)
            && (r.1.Refused? ==> r.0 == s)
  {
  }

  /** An accepted `StartGame` marks the first player with the caller's id as ready and
      touches no other player, no score and neither the turn nor the completed ids; the game
      starts exactly when every player is ready. */
  lemma StartGameReadiesCaller(s: SessionState, playerId: string,
                               catalog: seq<StoredItem>, pick: nat, rolls: seq<nat>)
    requires s.Valid()
    requires !StartGameStep(s, playerId, catalog, pick, rolls).1.Refused?
    ensures var r := StartGameStep(s, playerId, catalog, pick, rolls);
            var k := FindPlayer(s.players, playerId);
            && 0 <= k && s.players[k].id == playerId
            && |r.0.players| == |s.players|
            && r.0.players[k] == s.players[k].(hasReadiedUp := true)
            && (forall i :: 0 <= i < |s.players| && i != k ==> r.0.players[i] == s.players[i])
            && r.0.turnIndex == s.turnIndex && r.0.completed == s.completed
            && (r.0.started <==> AllReady(r.0.players))
  {
  }

  /** Once everybody is ready the first item is drawn; when none is left to draw, or the
      drawn one cannot be mapped, the call throws yet leaves the game started without an
      item. */
  lemma StartGameDrawsFirstItem(s: SessionState, playerId: string,
                                catalog: seq<StoredItem>, pick: nat, rolls: seq<nat>)
    requires s.Valid() && !s.started
    ensures var r := StartGameStep(s, playerId, catalog, pick, rolls);
            && (r.0.current.Some? <==> r.0.started && r.1.Completed?)
            && (r.0.current.Some? ==> Unanswered(r.0.current.value))
            && (r.1 == Faulted(NoItemsAvailable) <==>
                  r.0.started && forall d :: d in catalog ==> !Drawable(d, s.completed))
            && (r.1 == Faulted(MissingAnswer) ==>
                  exists d :: d in catalog && Drawable(d, s.completed)
                              && !Mappable(d.questionType, d.content.questions))
            && (r.1.Faulted? ==> r.0.started && r.0.current.None?)
  {
  }

  // ---------------------------------------------------------------------------------------
  // SubmitAnswer

  /** A submission is taken exactly when all of `SubmitAnswer`'s checks pass; it then
      completes, or fails in judging the answer or in the draw of the next item. Any other
      submission leaves the session as it was. */
  lemma SubmitAnswerAcceptance(s: SessionState, playerId: string, index: int, answer: string,
                               catalog: seq<StoredItem>, pick: nat, rolls: seq<nat>)
    requires s.Valid()
    ensures var r := SubmitAnswerStep(s, playerId, index, answer, catalog, pick, rolls);
            && (Admissible(s, playerId, index, answer) <==>
                  r.1.Completed?
                  || (r.1.Faulted? && r.1.error in {NoItemsAvailable, MissingAnswer, NoAcceptedAnswers}))
            && (!Admissible(s, playerId, index, answer) ==> r.0 == s)
            && r.0.started == s.started
  {
  }

  /** A submission that passes the checks and can be judged gives the player whose turn it
      was one point (with the wrap of a 32-bit `int`) exactly when the answer is correct,
      leaves every other player as they were, and passes the turn to the next player in join
      order. One that cannot be judged throws, and changes no player and not the turn. */
  lemma SubmitAnswerScoresAndTurn(s: SessionState, playerId: string, index: int,
                                  answer: string, catalog: seq<StoredItem>, pick: nat,
                                  rolls: seq<nat>)
    requires s.Valid()
    requires Admissible(s, playerId, index, answer)
    ensures var r := SubmitAnswerStep(s, playerId, index, answer, catalog, pick, rolls);
            var t := s.turnIndex;
            var verdict := s.current.value.content.questions[index].CheckAnswer(answer);
            && |r.0.players| == |s.players|
            && (verdict.Failure? ==>
                  r.0.players == s.players && r.0.turnIndex == t
                  && r.1 == Faulted(NoAcceptedAnswers))
            && (verdict.Success? ==>
                  && r.0.turnIndex == (t + 1) % |s.players|
                  && r.0.players[t] == (if verdict.value
                                        then s.players[t].(score := Int32Increment(s.players[t].score))
                                        else s.players[t])
                  && (forall i :: 0 <= i < |s.players| && i != t ==> r.0.players[i] == s.players[i]))
  {
  }

  /** A taken submission stores the answer in its slot and nothing else in the item. While
      open questions remain, or when the answer cannot be judged, the item stays current.
      The judged submission that fills the last slot records the item's id as completed and
      replaces the item by a fresh one whose id is not completed; when the draw fails, the
      answered item stays current. */
  lemma SubmitAnswerRecordsAnswer(s: SessionState, playerId: string, index: int,
                                  answer: string, catalog: seq<StoredItem>, pick: nat,
                                  rolls: seq<nat>)
    requires s.Valid()
    requires Admissible(s, playerId, index, answer)
    ensures var r := SubmitAnswerStep(s, playerId, index, answer, catalog, pick, rolls);
            var item := s.current.value;
            var answered := AnswerAt(item, index, answer);
            var judged := item.content.questions[index].CheckAnswer(answer).Success?;
            && answered.content.questions[index].playerAnswer == Some(answer)
            && (forall i :: 0 <= i < |item.content.questions| && i != index ==>
                  answered.content.questions[i] == item.content.questions[i])
            && (!judged || !AllAnswered(answered) ==>
                  r.0.current == Some(answered) && r.0.completed == s.completed)
            && (judged && !AllAnswered(answered) ==> r.1.Completed?)
            && (judged && AllAnswered(answered) ==>
                  && r.0.completed == s.completed + [item.id]
                  && (r.1.Completed? ==>
                        r.0.current.Some? && Unanswered(r.0.current.value)
                        && r.0.current.value.id !in r.0.completed)
                  && (!r.1.Completed? ==> r.0.current == Some(answered)))
  {
  }

  /** Answers stay put: a slot that holds an answer before any submission holds the same
      answer after it, unless the item was completed and replaced. */
  lemma SubmitAnswerNeverOverwrites(s: SessionState, playerId: string, index: int,
                                    answer: string, catalog: seq<StoredItem>, pick: nat,
                                    rolls: seq<nat>, i: int)
    requires s.Valid()
    requires s.current.Some? && 0 <= i < |s.current.value.content.questions|
    requires s.current.value.content.questions[i].playerAnswer.Some?
    ensures var r := SubmitAnswerStep(s, playerId, index, answer, catalog, pick, rolls);
            || r.0.completed == s.completed + [s.current.value.id]
            || (r.0.current.Some? && i < |r.0.current.value.content.questions|
                && r.0.current.value.content.questions[i].playerAnswer
                   == s.current.value.content.questions[i].playerAnswer)
  {
  }

  // ---------------------------------------------------------------------------------------
  // Sequences of submissions.

  /** One `SubmitAnswer` call with its random draws. */
  datatype Submission = Submission(playerId: string, index: int, answer: string, pick: nat,
                                   rolls: seq<nat>)

  function Step(s: SessionState, sub: Submission, catalog: seq<StoredItem>)
    : (r: (SessionState, Outcome))
    requires s.Valid()
    ensures r.0.Valid()
  {
    SubmitAnswerStep(s, sub.playerId, sub.index, sub.answer, catalog, sub.pick, sub.rolls)
  }

  /** The session after the submissions, in order. */
  function Run(s: SessionState, subs: seq<Submission>, catalog: seq<StoredItem>)
    : (r: SessionState)
    requires s.Valid()
    ensures r.Valid()
    decreases |subs|
  {
    if subs == [] then s else Run(Step(s, subs[0], catalog).0, subs[1..], catalog)
  }

  /** The submission passes all checks of `SubmitAnswer` and its answer can be judged, so the
      turn moves on. */
  predicate Taken(s: SessionState, sub: Submission)
    requires s.Valid()
  {
    && Admissible(s, sub.playerId, sub.index, sub.answer)
    && s.current.value.content.questions[sub.index].CheckAnswer(sub.answer).Success?
  }

  /** How many of the submissions are taken. */
  function TakenCount(s: SessionState, subs: seq<Submission>, catalog: seq<StoredItem>)
    : (n: nat)
    requires s.Valid()
    ensures n <= |subs|
    decreases |subs|
  {
    if subs == [] then 0
    else
      (if Taken(s, subs[0]) then 1 else 0)
      + TakenCount(Step(s, subs[0], catalog).0, subs[1..], catalog)
  }

  /** How many of the submissions player `p` made on their own turn with a correct answer. */
  function CorrectCount(s: SessionState, subs: seq<Submission>, catalog: seq<StoredItem>,
                        p: nat): (n: nat)
    requires s.Valid()
    ensures n <= |subs|
    decreases |subs|
  {
    if subs == [] then 0
    else
      var sub := subs[0];
      (if Admissible(s, sub.playerId, sub.index, sub.answer) && s.turnIndex == p
          && s.current.value.content.questions[sub.index].CheckAnswer(sub.answer) == Success(true)
       then 1 else 0)
      + CorrectCount(Step(s, sub, catalog).0, subs[1..], catalog, p)
  }

  /** One submission moves the turn on by one if it is taken and not at all otherwise. */
  lemma StepTurn(s: SessionState, sub: Submission, catalog: seq<StoredItem>)
    requires s.Valid() && s.started
    ensures var next := Step(s, sub, catalog).0;
            && next.started && |next.players| == |s.players|
            && next.turnIndex == if Taken(s, sub)
                                 then (s.turnIndex + 1) % |s.players| else s.turnIndex
  {
    SubmitAnswerAcceptance(s, sub.playerId, sub.index, sub.answer, catalog, sub.pick,
                           sub.rolls);
    if Admissible(s, sub.playerId, sub.index, sub.answer) {
      SubmitAnswerScoresAndTurn(s, sub.playerId, sub.index, sub.answer, catalog, sub.pick,
                                sub.rolls);
    }
  }

  /** Turns go round the table: after any submissions the turn has moved on by the number
      that were taken, and a started game stays started with the same players. */
  lemma {:induction false} TurnAfterRun(s: SessionState, subs: seq<Submission>,
                                        catalog: seq<StoredItem>)
    requires s.Valid() && s.started
    ensures var r := Run(s, subs, catalog);
            && r.started && |r.players| == |s.players|
            && r.turnIndex == (s.turnIndex + TakenCount(s, subs, catalog)) % |s.players|
    decreases |subs|
  {
    if subs == [] {
      Modular.ModUnique(s.turnIndex, |s.players|, 0, s.turnIndex);
    } else {
      var next := Step(s, subs[0], catalog).0;
      TurnAfterRun(next, subs[1..], catalog);
      StepTurn(s, subs[0], catalog);
      RunOnce(s, subs, catalog);
      RotateBy(s.turnIndex, |s.players|,
               Taken(s, subs[0]),
               next.turnIndex, TakenCount(next, subs[1..], catalog),
               TakenCount(s, subs, catalog), Run(next, subs[1..], catalog).turnIndex);
    }
  }

  /** `Run` and `TakenCount` peel off the first submission. */
  lemma RunOnce(s: SessionState, subs: seq<Submission>, catalog: seq<StoredItem>)
    requires s.Valid() && subs != []
    ensures var next := Step(s, subs[0], catalog).0;
            && Run(s, subs, catalog) == Run(next, subs[1..], catalog)
            && TakenCount(s, subs, catalog)
               == (if Taken(s, subs[0]) then 1 else 0)
                  + TakenCount(next, subs[1..], catalog)
  {
  }

  /** The last turn step of a run: moving on once (or not) and then `k` more times is
      moving on `total` times. */
  lemma RotateBy(t: nat, n: nat, taken: bool, next: nat, k: nat, total: nat, r: int)
    requires t < n && next == (if taken then (t + 1) % n else t)
    requires total == (if taken then 1 else 0) + k
    requires r == (next + k) % n
    ensures r == (t + total) % n
  {
    if taken {
      Modular.ModSum(t + 1, k, n);
    } else {
      Modular.ModUnique(t, n, 0, t);
      Modular.ModSum(t, k, n);
    }
  }

  /** A score counts correct answers: when no score can reach the 32-bit limit, each
      player's score after the submissions is their score before plus the number of correct
      answers they gave on their turn. */
  lemma {:induction false} ScoreAfterRun(s: SessionState, subs: seq<Submission>,
                                         catalog: seq<StoredItem>, p: nat)
    requires s.Valid() && p < |s.players|
    requires s.players[p].score + |subs| <= Int32Max
    ensures var r := Run(s, subs, catalog);
            |r.players| == |s.players|
            && r.players[p].score == s.players[p].score + CorrectCount(s, subs, catalog, p)
    decreases |subs|
  {
    if subs != [] {
      var sub := subs[0];
      var next := Step(s, sub, catalog).0;
      SubmitAnswerAcceptance(s, sub.playerId, sub.index, sub.answer, catalog, sub.pick,
                             sub.rolls);
      if Admissible(s, sub.playerId, sub.index, sub.answer) {
        SubmitAnswerScoresAndTurn(s, sub.playerId, sub.index, sub.answer, catalog, sub.pick,
                                  sub.rolls);
      }
      assert next.players[p].score <= s.players[p].score + 1;
      ScoreAfterRun(next, subs[1..], catalog, p);
    }
  }
}

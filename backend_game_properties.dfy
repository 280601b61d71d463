/** What the backend's `StartGame`, `SubmitAnswer` and `Map` guarantee, stated over the step
    functions of `BackendGame`, and how its `Map` relates to the server's. */
module BackendGameProperties {
  import opened Wrappers
  import opened DotNetText
  import opened TriviaTypes
  import opened Questions
  import opened HubTypes
  import opened BackendGame
  import ItemMapper

  // ---------------------------------------------------------------------------------------
  // Map and the draw

  /** The backend's `Map` is the server's without the shuffle: both fail on the same items;
      otherwise with no random draws the server produces the same questions in the same
      order, and with any draws a rearrangement of them. */
  lemma MapIsUnshuffledServerMap(dto: StoredItem, rolls: seq<nat>)
    ensures ItemMapper.Map(dto, rolls).Success? <==> Map(dto).Success?
    ensures Map(dto).Success? ==>
              && ItemMapper.Map(dto, []).value.content.questions == Map(dto).value.content.questions
              && multiset(ItemMapper.Map(dto, rolls).value.content.questions)
                 == multiset(Map(dto).value.content.questions)
  {
    var mapped := ItemMapper.MapQuestions(dto.questionType, dto.content.questions);
    if mapped.Success? {
      ItemMapper.ShuffleWithoutRollsKeepsOrder(mapped.value);
      assert Map(dto).value.content.questions == mapped.value by {
        forall i | 0 <= i < |mapped.value|
          ensures Map(dto).value.content.questions[i] == mapped.value[i]
        {
        }
      }
    }
  }

  /** Every item of the bank can be drawn, whatever was played before: the backend keeps no
      record of completed items, so an item can come round again. */
  lemma EveryItemCanBeDrawn(catalog: seq<StoredItem>, d: StoredItem)
    requires d in catalog
    ensures exists pick: nat :: DrawItem(catalog, pick) == Map(d)
  {
    var k :| 0 <= k < |catalog| && catalog[k] == d;
    assert k % |catalog| == k;
    assert DrawItem(catalog, k) == Map(d);
  }

  // ---------------------------------------------------------------------------------------
  // StartGame

  /** `StartGame` refuses a started game, and a caller who is not the host: one with no
      player of that id, or whose first player of that id is not the host. It then changes
      nothing. */
  lemma StartGameRefusals(s: SessionState, playerId: string, catalog: seq<StoredItem>,
                          pick: nat)
    requires s.Valid()
    ensures var r := StartGameStep(s, playerId, catalog, pick);
            var k := FindPlayer(s.players, playerId);
            && (r.1 == Refused(GameAlreadyStarted) <==> s.started)
            && (r.1 == Refused(OnlyHostCanStart) <==>
                  !s.started && (k == -1 || !s.players[k].isHost))
            && (r.1.Refused? ==> r.0 == s)
  {
  }

  /** Only the host starts the game, and then it starts at once, whoever else is present:
      the players, their scores and the turn are untouched, and the first item is drawn.
      The call fails, leaving a started game without an item, when the bank is empty or the
      drawn item cannot be mapped; from a non-empty bank of mappable items it completes. */
  lemma StartGameByHost(s: SessionState, playerId: string, catalog: seq<StoredItem>,
                        pick: nat)
    requires s.Valid()
    requires !StartGameStep(s, playerId, catalog, pick).1.Refused?
    ensures var r := StartGameStep(s, playerId, catalog, pick);
            var k := FindPlayer(s.players, playerId);
            && 0 <= k && s.players[k].id == playerId && s.players[k].isHost
            && r.0.started && r.0.players == s.players && r.0.turnIndex == s.turnIndex
            && (r.1 == Faulted(NoItemsAvailable) <==> catalog == [])
            && (catalog != [] ==> (r.1.Completed? <==> Map(catalog[pick % |catalog|]).Success?))
            && (r.1.Faulted? ==> r.0.current.None?)
            && (r.1.Completed? ==>
                  r.0.current.Some? && Unanswered(r.0.current.value)
                  && exists d :: d in catalog && Map(d) == Success(r.0.current.value))
            && (ItemMapper.MappableCatalog(catalog) && catalog != [] ==> r.1.Completed?)
  {
    if catalog != [] {
      assert catalog[pick % |catalog|] in catalog;
    }
  }

  // ---------------------------------------------------------------------------------------
  // SubmitAnswer

  /** A submission is taken exactly when all of `SubmitAnswer`'s checks pass; it then
      completes, or fails in judging the answer or in the draw of the next item. Any other
      submission leaves the session as it was. */
  lemma SubmitAnswerAcceptance(s: SessionState, playerId: string, index: int, answer: string,
                               catalog: seq<StoredItem>, pick: nat)
    requires s.Valid()
    ensures var r := SubmitAnswerStep(s, playerId, index, answer, catalog, pick);
            && (Admissible(s, playerId, index, answer) <==>
                  r.1.Completed?
                  || (r.1.Faulted? && r.1.error in {NoItemsAvailable, MissingAnswer, NoAcceptedAnswers}))
            && (!Admissible(s, playerId, index, answer) ==> r.0 == s)
  {
  }

  /** A submission that passes the checks and can be judged gives the player whose turn it
      was one point (with the wrap of a 32-bit `int`) exactly when the answer is correct,
      leaves every other player as they were, and passes the turn to the next player in join
      order. One that cannot be judged throws, and changes no player and not the turn. */
  lemma SubmitAnswerScoresAndTurn(s: SessionState, playerId: string, index: int,
                                  answer: string, catalog: seq<StoredItem>, pick: nat)
    requires s.Valid()
    requires Admissible(s, playerId, index, answer)
    ensures var r := SubmitAnswerStep(s, playerId, index, answer, catalog, pick);
            var t := s.turnIndex;
            var verdict := s.current.value.content.questions[index].CheckAnswer(answer);
            && |r.0.players| == |s.players|
            && (verdict.Failure? ==>
                  r.0.players == s.players && r.0.turnIndex == t
                  && r.1 == Faulted(NoAcceptedAnswers))
            && (verdict.Success? ==>
                  && r.0.turnIndex == (t + 1) % |s.players|
                  && r.0.players[t] == (if verdict.value
                                        then s.players[t].(score := Int32Increment(s.players[t].score))
                                        else s.players[t])
                  && (forall i :: 0 <= i < |s.players| && i != t ==> r.0.players[i] == s.players[i]))
  {
  }

  /** A taken submission stores the answer in its slot. While open questions remain, or when
      the answer cannot be judged, the answered item stays current; the judged submission
      that fills the last slot replaces it by a fresh item of the bank, or, when the bank is
      empty or the drawn item cannot be mapped, fails and leaves the answered item current. */
  lemma SubmitAnswerRecordsAnswer(s: SessionState, playerId: string, index: int,
                                  answer: string, catalog: seq<StoredItem>, pick: nat)
    requires s.Valid()
    requires Admissible(s, playerId, index, answer)
    ensures var r := SubmitAnswerStep(s, playerId, index, answer, catalog, pick);
            var answered := AnswerAt(s.current.value, index, answer);
            var judged := s.current.value.content.questions[index].CheckAnswer(answer).Success?;
            && (!judged || !AllAnswered(answered) ==> r.0.current == Some(answered))
            && (judged && !AllAnswered(answered) ==> r.1.Completed?)
            && (judged && AllAnswered(answered) ==>
                  && (r.1.Completed? <==> DrawItem(catalog, pick).Success?)
                  && (r.1.Completed? ==>
                        r.0.current.Some? && Unanswered(r.0.current.value)
                        && exists d :: d in catalog && Map(d) == Success(r.0.current.value))
                  && (!r.1.Completed? ==>
                        r.1 == Faulted(DrawItem(catalog, pick).error)
                        && r.0.current == Some(answered)))
  {
  }

  /** The judged submission that completes an item may be followed by any mappable item of
      the bank, the completed one included: for each there is a random pick that draws it. */
  lemma CompletedItemMayReturn(s: SessionState, playerId: string, index: int,
                               answer: string, catalog: seq<StoredItem>, d: StoredItem)
    requires s.Valid() && d in catalog
    requires ItemMapper.Mappable(d.questionType, d.content.questions)
    requires Admissible(s, playerId, index, answer)
    requires s.current.value.content.questions[index].CheckAnswer(answer).Success?
    requires AllAnswered(AnswerAt(s.current.value, index, answer))
    ensures exists pick: nat ::
              SubmitAnswerStep(s, playerId, index, answer, catalog, pick).0.current
              == Some(Map(d).value)
  {
    EveryItemCanBeDrawn(catalog, d);
    var pick: nat :| DrawItem(catalog, pick) == Map(d);
    assert SubmitAnswerStep(s, playerId, index, answer, catalog, pick).0.current
        == Some(Map(d).value);
  }

  /** The answer slot count of the current item never changes while it is current, and a
      filled slot keeps its answer. */
  lemma SubmitAnswerNeverOverwrites(s: SessionState, playerId: string, index: int,
                                    answer: string, catalog: seq<StoredItem>, pick: nat,
                                    i: int)
    requires s.Valid()
    requires s.current.Some? && 0 <= i < |s.current.value.content.questions|
    requires s.current.value.content.questions[i].playerAnswer.Some?
    ensures var r := SubmitAnswerStep(s, playerId, index, answer, catalog, pick);
            || (r.0.current.Some? && Unanswered(r.0.current.value))
            || (r.0.current.Some? && i < |r.0.current.value.content.questions|
                && r.0.current.value.content.questions[i].playerAnswer
                   == s.current.value.content.questions[i].playerAnswer)
  {
  }
}

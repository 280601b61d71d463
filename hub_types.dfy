/** What the SignalR hub methods of both game servers report back. */
module HubTypes {
  /** The reasons a hub call ends in an exception instead of a broadcast. */
  datatype HubError =
    | GameNotFound
    | GameAlreadyStarted
    | PlayerNotFound
    | OnlyHostCanStart
    | GameNotStarted
    | NotPlayersTurn
    | NoCurrentItem          // the `!` on an absent current item: a NullReferenceException
    | InvalidQuestionIndex
    | EmptyAnswer
    | AlreadyAnswered
    | NoItemsAvailable       // the InvalidOperationException of `DrawNewTriviaItem`
    | MissingAnswer          // `.Value` of a missing true/false or ordering answer in `Map`
    | NoAcceptedAnswers      // a null accepted-answer list read by `CheckAnswer` or `AnswerAsString`
    | DuplicatePlayerName    // `ToDictionary` meeting a second player with the same name

  /** How a game command ends. `Refused` is a `HubException` thrown before any field of the
      session is written; `Faulted` is any other exception, possibly after some fields were
      written. */
  datatype Outcome = Completed | Refused(error: HubError) | Faulted(error: HubError)

  /** A hub call either sends a game state snapshot or throws to the caller. */
  datatype HubResult<S> = Sent(state: S) | Threw(error: HubError)
}

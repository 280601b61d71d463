# TriviaGame in Dafny

TriviaGame is a multiplayer trivia game. Players create or join a game through HTTP endpoints. They then play it over a SignalR hub:

- players ready up, or the host starts the game;
- the server draws a trivia item from a question bank in a database;
- players answer its questions in turn;
- each correct answer earns a point;
- once every question of an item is answered, the next item is drawn.

After every command, each player receives a snapshot of the game. It holds the scores by name, the player on turn, and the current item. That item reveals a question's correct answer only once the question has been answered.

This project models the core of the game in two generations:

- **The SignalR server** (`Server/`):
  - unanimous ready-up: the game starts once every player has readied up;
  - a record of completed items, so no item comes round twice;
  - a shuffle of each item's questions;
  - its `GameStore` of sessions.
- **The older backend service** (`backend/`):
  - only the host starts the game;
  - every draw is from the whole bank;
  - questions keep their stored order;
  - the multiple-choice options are not sent to clients.

It also models:

- the item validator, in the backend's version and in the shared library's version (which adds tag rules);
- the decisions of the question bank's HTTP endpoints: the type-filter `WHERE` clause, paging, and all-or-nothing insertion;
- the client's question grid, which decides which answer options a card offers and which card may take an answer.

Module layout:

- `dotnet_text.dfy` (`DotNetText`): the .NET string and number operations the game uses. These are `Trim`, `ToLowerInvariant`, `bool.TryParse`, `int.TryParse`, `ToString`, `string.Join` and 32-bit wrap-around.
- `trivia_types.dfy`, `questions.dfy` and `item_mapper.dfy`: the records; the four question kinds with `CheckAnswer`, `AnswerAsString` and `ToClient`; and the server's `Map` with its shuffle.
- `server_game.dfy`, `server_hub.dfy` and `server_store.dfy`:
  - the server session as a class over its fields;
  - its commands as step functions of the session state;
  - the hub methods, which run those steps in place on the stored session;
  - the store.
- `backend_game.dfy` and `backend_hub.dfy`: the same for the backend.
- `server_game_properties.dfy` and `backend_game_properties.dfy`: what the commands guarantee. This covers single calls and whole sequences of submissions (turn rotation and score counting).
- `validation.dfy`, `lists.dfy` and `crud.dfy`: the validators, and the question bank endpoints.
- `questions_grid.dfy` and `grid_properties.dfy`: the client grid, and what it offers for the items the two servers send.
- `wrappers.dfy`, `hub_types.dfy` and `modular.dfy`: `Option` and `Result`, the hub's outcomes and exceptions, and facts about `%` used for the turn rotation and 32-bit wrap.

Three behaviours of the code are worth knowing before reading the table:

- An ordering question accepts any text that `int.TryParse` reads as its position. That includes "03", " +3 " and "3\0", not only the exact number (`Questions.OrderingParsesLeniently`).
- The question bank is not required to be validated. `Map` throws on a true/false or ordering question without its answer (`.Value`), but copies a missing multiple-choice answer or fill-in-the-blank list as it is, because `!` checks nothing. Such a multiple-choice question takes every answer as wrong (`Questions.MissingChoiceRejectsAll`). Such a fill-in-the-blank question throws once an answer is stored, both in the judging and in every later snapshot (`Questions.Question.CheckAnswer`, `Questions.Question.ToClient`).
- The backend's snapshot carries no multiple-choice options, so the client grid has no choices to offer for a backend multiple-choice item (`GridProperties.BackendOffersNoChoices`).

## Model

| member | source | states |
|---|---|---|
| DotNetText.Int32Increment | Server/GameEndpoints.cs:284 | `Score + 1` on a 32-bit `int`: one more, except that the largest value wraps to the smallest |
| DotNetText.Int32Wrap | backend/CrudEndpoints.cs:84 | an unchecked `int` result equals the exact value when that fits, and otherwise differs from it by a multiple of 2^32 |
| DotNetText.Trim | Server/GameEndpoints.cs:65 | `Trim` leaves no white space at either end, and leaves nothing exactly when the text is all white space |
| DotNetText.ToLowerInvariant | Server/GameEndpoints.cs:65 | the same length, no upper-case ASCII letter left, every other character kept |
| DotNetText.Utf16Length | backend/TriviaQuestion.cs:59 | .NET's `Length` counts UTF-16 code units: at least one and at most two per character, and exactly one each when every character lies in the Basic Multilingual Plane |
| DotNetText.EmojiIsTwoCodeUnits | backend/TriviaQuestion.cs:59 | a character outside the Basic Multilingual Plane is one Dafny character but two .NET code units |
| DotNetText.TrimWhiteSpaceAndNull | Server/GameEndpoints.cs:55 | the trim `bool.TryParse` applies: no white space or `\0` left at either end, and every other character of the text still in it |
| DotNetText.TryParseBool | Server/GameEndpoints.cs:55 | parses to a value exactly when the text, trimmed of white space and `\0` and lower-cased, is that value's `ToString()` lower-cased |
| DotNetText.DropTrailingNulls | Server/GameEndpoints.cs:79 | `int.TryParse` ignores trailing `\0`: the prefix that ends in anything else, with only `\0` after it |
| DotNetText.TryParseInt | Server/GameEndpoints.cs:79 | a parsed text contains a digit, and a negative result comes from a text with a minus sign |
| DotNetText.IntToString | Server/GameEndpoints.cs:80 | `int.ToString()` is never empty, has no white space at its ends, and starts with a minus sign exactly for a negative value |
| DotNetText.Join | Server/GameEndpoints.cs:70 | `string.Join` of no parts is empty; otherwise its length is the parts' lengths plus one separator between each pair, and it starts with the first part |
| DotNetText.TrimRemovesPadding | Server/GameEndpoints.cs:65 | `Trim` removes exactly the white space around a core that has none at its ends |
| DotNetText.ParseBoolOfBoolToString | Server/GameEndpoints.cs:55-56 | the text `bool.ToString()` gives parses back to the same value with `bool.TryParse` |
| DotNetText.ParseIntOfIntToString | Server/GameEndpoints.cs:79-80 | the text `int.ToString()` gives for any 32-bit value parses back to that value with `int.TryParse` |
| DotNetText.IntToStringInjective | frontend/src/domain/components/QuestionsGrid.tsx:30-33 | distinct integers have distinct decimal writings, so the position texts of the grid name distinct positions |
| TriviaTypes.QuestionType.EnumValue | backend/TriviaQuestion.cs:6-12 | the integer value of a question type lies in 0..3, fixed by declaration order |
| Lists.IsUniqueList | backend/TriviaQuestion.cs:37 | `Distinct().Count() == Count` holds exactly when no two entries are equal |
| Lists.Min | backend/TriviaQuestion.cs:123 | `Min()` of a non-empty list is an entry and is at most every entry |
| Lists.Max | backend/TriviaQuestion.cs:124 | `Max()` of a non-empty list is an entry and is at least every entry |
| Lists.OrderingRangeIffPermutation | backend/TriviaQuestion.cs:122-124 | a list is unique, has least entry 1 and greatest entry its length exactly when it is a permutation of 1..n |
| Lists.ToDictionary | Server/GameEndpoints.cs:318 | `ToDictionary` succeeds exactly when the keys are distinct; it then maps every key to its pair's value |
| Questions.Question.CheckAnswer | Server/GameEndpoints.cs:45-79 | the verdict on an answer; it throws exactly on a fill-in-the-blank question without its list of accepted answers |
| Questions.Question.AnswerAsString | Server/GameEndpoints.cs:46-80 | the correct answer as text; it throws exactly on a fill-in-the-blank question without its list, and is null exactly for a multiple-choice question without its answer |
| Questions.NormalizeAnswer | Server/GameEndpoints.cs:65 | the normal form has no white space at either end, and is empty exactly for a blank answer |
| Questions.MissingChoiceRejectsAll | Server/GameEndpoints.cs:45 | a multiple-choice question without its answer takes every answer as wrong |
| Questions.FillInTheBlankCheck | Server/GameEndpoints.cs:67-68 | a fill-in-the-blank question with its list accepts an answer exactly when its normal form is among the normal forms of the accepted answers |
| Questions.UnansweredShows | Server/GameEndpoints.cs:26-36 | an item nobody has answered can always be shown to the clients |
| Questions.Question.ToClient | Server/GameEndpoints.cs:26-36 | the view reveals neither the correct answer nor the verdict until a non-empty answer is stored; afterwards it shows `AnswerAsString` and the verdict of `CheckAnswer` on the stored answer; an empty explanation becomes absent; it throws exactly when an answer is stored on a fill-in-the-blank question without a list |
| Questions.RevealedAnswerIsAccepted | Server/GameEndpoints.cs:45-80 | the revealed correct answer is itself accepted by the question's check, for every kind (fill in the blank with one accepted answer) |
| Questions.FillInTheBlankIgnoresPadding | Server/GameEndpoints.cs:65-68 | a fill-in-the-blank question accepts an accepted answer whatever white space surrounds it |
| Questions.FillInTheBlankJudgesNormalForm | Server/GameEndpoints.cs:65-68 | two answers with the same trimmed lower-case form get the same verdict |
| Questions.FillInTheBlankExample | Server/GameEndpoints.cs:65-68 | "  PARIS" is accepted when "Paris" is an accepted answer |
| Questions.OrderingParsesLeniently | Server/GameEndpoints.cs:79 | position 3 accepts "3", "03", " +3 " and "3\0", and rejects "three" |
| Questions.TrueOrFalseParsesLeniently | Server/GameEndpoints.cs:55 | a true question accepts "true", " TRUE" and "true\0", and rejects "False" and "yes" |
| ItemMapper.MapQuestion | Server/GameEndpoints.cs:152-174 | fails exactly when a true/false or ordering question lacks the answer `.Value` reads; otherwise a question of the kind the item's type names, with the same text and explanation, the stored answer field (possibly missing for multiple choice and fill in the blank) and an empty answer slot |
| ItemMapper.MapQuestions | Server/GameEndpoints.cs:150-175 | succeeds exactly when every stored question can be mapped, and then holds one mapped question per stored question, at the same index |
| ItemMapper.Shuffle | Server/GameEndpoints.cs:176 | the shuffle returns a rearrangement of its input (same multiset) |
| ItemMapper.ShuffleWithoutRollsKeepsOrder | Server/GameEndpoints.cs:176 | with no random draws the shuffle keeps the order |
| ItemMapper.Map | Server/GameEndpoints.cs:148-180 | fails exactly when some stored question throws in the mapping; otherwise the session's copy of the item has the same id, prompt, type and options, and its questions are exactly the mapped stored questions in some order, all unanswered |
| Validation.OrderingAnswers | backend/TriviaQuestion.cs:118-120 | the ordering answers, with -1 where a question has none |
| Validation.ToStored | Shared/Library.cs:22-30 | the four fields of a shared item that the game keeps are copied unchanged |
| Validation.PromptRule | backend/TriviaQuestion.cs:57-59 | a prompt that passes has 10..150 UTF-16 code units, so 5..150 characters |
| Validation.QuestionRule | backend/TriviaQuestion.cs:66-75 | a question that passes has a text of 1..75 characters |
| Validation.TextualAnswers | backend/TriviaQuestion.cs:84-85 | a list whose every entry has 1..30 code units holds no empty entry |
| Validation.MultipleChoiceRule | backend/TriviaQuestion.cs:77-91 | an item that passes has its options, none repeated, and every question has its multiple-choice answer |
| Validation.TrueOrFalseRule | backend/TriviaQuestion.cs:93-98 | holds exactly when every question has its true/false answer |
| Validation.AcceptedAnswersRule | backend/TriviaQuestion.cs:104-110 | a list that passes is present, non-empty, repeats nothing and holds no empty answer |
| Validation.FillInTheBlankRule | backend/TriviaQuestion.cs:100-112 | an item that passes has, in every question, its list of accepted answers |
| Validation.TypeRule | backend/TriviaQuestion.cs:77-128 | the rules of the item's type leave every question with the answer field that type reads |
| Validation.ItemRules | backend/TriviaQuestion.cs:55-128 | an item that passes has 2..10 questions, each with a non-empty text and the answer field its type reads |
| Validation.TagRules | Shared/Library.cs:96-107 | tags that pass repeat nothing and are all non-empty |
| Validation.SharedValid | Shared/Library.cs:90-176 | the shared validator accepts an item exactly when the backend's accepts its four stored fields and its tags obey the tag rules |
| Validation.OrderingRule | backend/TriviaQuestion.cs:114-128 | the ordering rule holds exactly when the item has questions and their ordering answers (-1 for a missing one) are a permutation of 1..n; so every question passing it has its answer |
| Validation.MissingOrderingAnswerFails | backend/TriviaQuestion.cs:118-124 | a question without an ordering answer makes the ordering rule fail |
| Validation.MissingMultipleChoiceAnswerFails | backend/TriviaQuestion.cs:87-89 | a multiple-choice question without an answer makes the item invalid |
| Validation.BackendValid | backend/TriviaQuestion.cs:55-128 | an item the backend's validator accepts has, in every question, the answer field its type reads, so `Map` neither throws on it nor copies a missing answer |
| Validation.ValidCatalogIsMappable | backend/TriviaQuestion.cs:77-128 | no item of a bank of validated items makes `Map` throw |
| Validation.ValidMultipleChoiceAnswersAreOptions | backend/TriviaQuestion.cs:77-91 | in a valid multiple-choice item every question has an answer, and that answer is one of the options |
| ServerGame.SqlEqualsAnyIsFalse | Server/GameEndpoints.cs:116 | `x = ANY(arr)` is false exactly when the array is empty, or x is not NULL, not in the array, and the array holds no NULL |
| ServerGame.DrawableIff | Server/GameEndpoints.cs:113-121 | an item may be drawn exactly when nothing is completed, or it has an id that is not completed and no NULL id is recorded |
| ServerGame.Eligible | Server/GameEndpoints.cs:113-121 | the rows of the draw query are exactly the drawable items of the bank |
| ServerGame.Drawable | Server/GameEndpoints.cs:113-121 | every item may be drawn while nothing is completed; afterwards only an item with an id that is not completed |
| ServerGame.DrawItem | Server/GameEndpoints.cs:111-134 | fails with "no items" exactly when no item is drawable; a failure in the mapping comes from a drawable item that cannot be mapped; a success is the mapped copy of a drawable item, unanswered and not completed |
| ServerGame.DrawFromMappableCatalog | Server/GameEndpoints.cs:111-134 | from a bank no item of which makes `Map` throw, the draw succeeds exactly when some item is drawable |
| ServerGame.FindPlayer | Server/GameEndpoints.cs:235-237 | `FindIndex` returns the first player with the id, or -1 exactly when there is none |
| ServerGame.StartGameStep | Server/GameEndpoints.cs:226-252 | `StartGame` keeps the session invariant, and a completed call leaves players in the game |
| ServerGame.AdmissibleHasOpenQuestion | Server/GameEndpoints.cs:257-277 | a submission that passes every check comes from a player of the game and targets a current item that is not completed and still has an open question |
| ServerGame.SubmitAnswerStep | Server/GameEndpoints.cs:254-301 | `SubmitAnswer` keeps the session invariant, the number of players and whether the game has started |
| ServerGame.Rejection | Server/GameEndpoints.cs:257-277 | a submission that fails a check ends in the exception of the first failing check: a refusal, or the null-reference fault of a missing item, never a success |
| ServerGame.TakeAnswer | Server/GameEndpoints.cs:279-295 | a checked submission keeps the invariant, the player count and the started flag, and either completes or throws in judging the answer or in the draw |
| ServerGame.ScoreEntries | Server/GameEndpoints.cs:318 | the score pairs are the players' names and scores in join order; their keys are distinct exactly when the names are |
| ServerGame.ToClientItem | Server/GameEndpoints.cs:322-329 | throws exactly when some question's `ToClient` throws; otherwise copies id, prompt, type and options, and shows each question through `ToClient` |
| ServerGame.BuildGameState | Server/GameEndpoints.cs:314-331 | throws on a repeated player name and, with distinct names, exactly when the current item cannot be shown; otherwise maps each name to its score, names the player on turn, and has started exactly when an item is current, whose client view it carries |
| ServerGame.Respond | Server/GameEndpoints.cs:248-251 | a command sends a snapshot exactly when it completed and the snapshot can be built, and then that of the new state; otherwise it passes on the command's exception or the snapshot's |
| ServerGame.GameSession.constructor | Server/GameEndpoints.cs:96-102 | a new session has no item, no players, nothing completed, turn 0, and has not started |
| ServerGame.GameSession.AddPlayer | Server/GameEndpoints.cs:104-109 | appends a player with the given id, no points and not ready, returns that id, and changes nothing else |
| ServerGame.GameSession.DrawNewTriviaItem | Server/GameEndpoints.cs:111-134 | replaces the current item by a drawn one, or throws and leaves the session unchanged |
| ServerGameProperties.StartGameRefusals | Server/GameEndpoints.cs:231-237 | `StartGame` refuses exactly a started game and an unknown player, and then changes nothing |
| ServerGameProperties.StartGameReadiesCaller | Server/GameEndpoints.cs:235-246 | an accepted `StartGame` marks only the caller ready, leaves turn and completed ids alone, and the game has started exactly when all are ready |
| ServerGameProperties.StartGameDrawsFirstItem | Server/GameEndpoints.cs:242-246 | once all are ready an unanswered first item is current; the call throws "no items" exactly when none is drawable, and a mapping failure only for a drawable item that cannot be mapped; a throw leaves a started game without an item |
| ServerGameProperties.SubmitAnswerAcceptance | Server/GameEndpoints.cs:257-277 | a submission is taken (it completes, or throws in judging or in the draw) exactly when every check passes; a refused one leaves the session unchanged |
| ServerGameProperties.SubmitAnswerScoresAndTurn | Server/GameEndpoints.cs:279-288 | a judged submission adds a point (with 32-bit wrap) to the player on turn exactly when the answer is correct, changes no one else, and passes the turn on; one that cannot be judged throws and changes no player and not the turn |
| ServerGameProperties.SubmitAnswerRecordsAnswer | Server/GameEndpoints.cs:279-295 | the answer fills its slot only; an item with open questions, or whose answer cannot be judged, stays current; the judged last answer records the item's id as completed and draws an item that is not completed, or leaves the answered item when the draw fails |
| ServerGameProperties.SubmitAnswerNeverOverwrites | Server/GameEndpoints.cs:275-279 | a filled answer slot keeps its answer unless the item was completed |
| ServerGameProperties.Step | Server/GameEndpoints.cs:254-301 | one submission keeps the session invariant |
| ServerGameProperties.Run | Server/GameEndpoints.cs:254-301 | any sequence of submissions keeps the session invariant |
| ServerGameProperties.TakenCount | Server/GameEndpoints.cs:257-277 | the number of submissions taken is at most the number made |
| ServerGameProperties.CorrectCount | Server/GameEndpoints.cs:281-286 | the number of correct answers a player gave on their turn is at most the number of submissions |
| ServerGameProperties.StepTurn | Server/GameEndpoints.cs:288 | one submission moves the turn on by one if taken, and not at all otherwise |
| ServerGameProperties.TurnAfterRun | Server/GameEndpoints.cs:288 | after any submissions the turn has advanced, modulo the number of players, by the number taken |
| ServerGameProperties.RunOnce | Server/GameEndpoints.cs:254-301 | a run is its first submission followed by the rest |
| ServerGameProperties.RotateBy | Server/GameEndpoints.cs:288 | advancing the turn once (or not) and then k more times is advancing it by the total |
| ServerGameProperties.ScoreAfterRun | Server/GameEndpoints.cs:281-286 | while no score can reach the 32-bit limit, a player's score after any submissions is their score before plus their correct answers on their turn |
| ServerHub.Snapshot | Server/GameEndpoints.cs:314-331 | a snapshot is sent exactly when it can be built; otherwise the exception building it throws, the duplicate-name one on a repeated name |
| ServerHub.JoinGame | Server/GameEndpoints.cs:208-224 | an unknown game and an unknown player are refused; otherwise the caller receives the snapshot of the stored game |
| ServerHub.StartGame | Server/GameEndpoints.cs:226-252 | an unknown game is refused; otherwise the stored session becomes `StartGameStep`'s state and the reply is its response; no other game changes |
| ServerHub.SubmitAnswer | Server/GameEndpoints.cs:254-301 | an unknown game is refused; otherwise the stored session becomes `SubmitAnswerStep`'s state and the reply is its response; no other game changes |
| ServerHub.RecordAnswer | Server/GameEndpoints.cs:279-295 | the in-place updates after the checks, the answer stored before it is judged, produce exactly the state and outcome of `SubmitAnswerStep` |
| ServerHub.ReadyUp | Server/GameEndpoints.cs:239-246 | the in-place ready-up produces exactly the state and outcome of `StartGameStep` |
| ServerStore.GameStore.constructor | Server/GameStore.cs:10 | a new store holds no games |
| ServerStore.GameStore.Create | Server/GameStore.cs:12-19 | adds one game under the new id, whose host is its only player; returns both ids; leaves every other game alone |
| ServerStore.GameStore.TryJoin | Server/GameStore.cs:21-26 | an unknown id yields null; otherwise a non-host player is appended to that game and the ids are returned |
| ServerStore.GameStore.TryGet | Server/GameStore.cs:28-29 | the lookup finds a session exactly when the id is stored, and then the stored one |
| ServerStore.GameStore.GetIds | Server/GameStore.cs:31-32 | every stored game id once, and nothing else |
| BackendGame.Map | backend/GameEndpoints.cs:138-170 | fails exactly when some stored question throws in the mapping; otherwise keeps the stored question order, each question mapped at its own index, of the item's kind and unanswered, and carries no options |
| BackendGame.DrawItem | backend/GameEndpoints.cs:109-126 | fails with "no items" exactly on an empty bank; otherwise it is the mapping of the item the random pick selects, with its failure |
| BackendGame.FindPlayer | backend/GameEndpoints.cs:223 | the first player with the id, or -1 exactly when there is none |
| BackendGame.CallerIsHost | backend/GameEndpoints.cs:223 | `FirstOrDefault(p => p.Id == playerId)?.IsHost == true` holds exactly when the first player with the caller's id is the host |
| BackendGame.StartGameStep | backend/GameEndpoints.cs:215-233 | `StartGame` keeps the session invariant, and a completed call leaves players in the game |
| BackendGame.AdmissibleHasOpenQuestion | backend/GameEndpoints.cs:238-258 | a submission that passes every check comes from a player of the game and targets a current item that still has an open question |
| BackendGame.SubmitAnswerStep | backend/GameEndpoints.cs:235-281 | `SubmitAnswer` keeps the session invariant, the number of players and whether the game has started |
| BackendGame.Rejection | backend/GameEndpoints.cs:238-258 | a failing check ends in the exception of the first failing check, never in success |
| BackendGame.TakeAnswer | backend/GameEndpoints.cs:260-275 | a checked submission keeps the invariant and either completes or throws in judging the answer or in the draw |
| BackendGame.ScoreEntries | backend/GameEndpoints.cs:287 | the score pairs are the names and scores in join order; their keys are distinct exactly when the names are |
| BackendGame.ToClientItem | backend/GameEndpoints.cs:289-297 | throws exactly when some question's `ToClient` throws; otherwise copies id, prompt and type, shows each question through `ToClient`, and has no options |
| BackendGame.BuildGameState | backend/GameEndpoints.cs:283-299 | throws on a repeated name and, with distinct names, exactly when the current item cannot be shown; otherwise maps names to scores, names the player on turn and carries the current item's view |
| BackendGame.Respond | backend/GameEndpoints.cs:229-232 | a snapshot is sent exactly when the command completed and the snapshot can be built; otherwise the command's or the snapshot's exception |
| BackendGame.GameSession.constructor | backend/GameEndpoints.cs:95-100 | a new session has no item, no players, turn 0, and has not started |
| BackendGame.GameSession.AddPlayer | backend/GameEndpoints.cs:102-107 | appends a player with the given id and no points, returns the id, and changes nothing else |
| BackendGame.GameSession.DrawNewTriviaItem | backend/GameEndpoints.cs:109-126 | replaces the current item by a drawn one, or throws (empty bank or mapping failure) and leaves the session unchanged |
| BackendGameProperties.MapIsUnshuffledServerMap | backend/GameEndpoints.cs:138-170 | the backend's `Map` fails on the same items as the server's; otherwise it is the server's with no shuffle, and a rearrangement of the server's for any shuffle |
| BackendGameProperties.EveryItemCanBeDrawn | backend/GameEndpoints.cs:111-113 | every item of the bank can be drawn by some random pick |
| BackendGameProperties.StartGameRefusals | backend/GameEndpoints.cs:220-224 | `StartGame` refuses exactly a started game and a caller whose first matching player is missing or not the host, and then changes nothing |
| BackendGameProperties.StartGameByHost | backend/GameEndpoints.cs:223-227 | the host starts the game at once with players and turn untouched; it throws "no items" exactly on an empty bank, otherwise completes exactly when the picked item can be mapped (always for a validated bank); on completion an unanswered item of the bank is current, on a throw none |
| BackendGameProperties.SubmitAnswerAcceptance | backend/GameEndpoints.cs:238-258 | a submission is taken (it completes, or throws in judging or in the draw) exactly when every check passes; a refused one changes nothing |
| BackendGameProperties.SubmitAnswerScoresAndTurn | backend/GameEndpoints.cs:260-269 | a judged submission gives a point (with 32-bit wrap) to the player on turn exactly when correct, no one else changes, and the turn passes on; one that cannot be judged throws and changes no player and not the turn |
| BackendGameProperties.SubmitAnswerRecordsAnswer | backend/GameEndpoints.cs:260-275 | an item with open questions, or whose answer cannot be judged, stays current; the judged last answer completes exactly when the draw succeeds, with a fresh item of the bank, and otherwise throws the draw's exception and leaves the answered item |
| BackendGameProperties.CompletedItemMayReturn | backend/GameEndpoints.cs:271-275 | after an item is completed any mappable item of the bank may follow, the completed one included |
| BackendGameProperties.SubmitAnswerNeverOverwrites | backend/GameEndpoints.cs:256-260 | a filled slot keeps its answer unless a new item was drawn |
| BackendHub.Snapshot | backend/GameEndpoints.cs:283-299 | a snapshot is sent exactly when it can be built; otherwise its exception, the duplicate-name one on a repeated name |
| BackendHub.JoinGame | backend/GameEndpoints.cs:198-213 | an unknown game and an unknown player are refused; otherwise the caller receives the snapshot |
| BackendHub.StartGame | backend/GameEndpoints.cs:215-233 | an unknown game is refused; otherwise the session becomes `StartGameStep`'s state and the reply is its response |
| BackendHub.SubmitAnswer | backend/GameEndpoints.cs:235-281 | an unknown game is refused; otherwise the session becomes `SubmitAnswerStep`'s state and the reply is its response |
| BackendHub.RecordAnswer | backend/GameEndpoints.cs:260-275 | the in-place updates after the checks produce exactly the state and outcome of `SubmitAnswerStep` |
| CrudEndpoints.AllTypesComplete | backend/CrudEndpoints.cs:22-28 | the list of types names every question type |
| CrudEndpoints.Where | backend/CrudEndpoints.cs:30-31 | the types whose flag equals the given value, in ascending enumeration order |
| CrudEndpoints.TypesWith | backend/CrudEndpoints.cs:30-31 | a type is listed exactly when its flag is the given value, in ascending order |
| CrudEndpoints.NoFlagsNoTypes | backend/CrudEndpoints.cs:30-41 | both type lists are empty exactly when no flag is given |
| CrudEndpoints.Conditions | backend/CrudEndpoints.cs:33-39 | no condition exactly when no flag is given; at most an `IN` list of the included types followed by a `NOT IN` list of the excluded ones, each non-empty |
| CrudEndpoints.GetWhereClause | backend/CrudEndpoints.cs:20-44 | the empty string exactly when no flag is given; otherwise "WHERE " and the conditions joined by " AND " |
| CrudEndpoints.ValueListed | backend/CrudEndpoints.cs:30-31 | a type's value text is in a list exactly when the type's flag is that list's value |
| CrudEndpoints.NoTypeInBothLists | backend/CrudEndpoints.cs:30-31 | no type is both included and excluded |
| CrudEndpoints.WhereClauseSelects | backend/CrudEndpoints.cs:35-39 | a row of a type satisfies every condition exactly when the type is not excluded and, if some type is included, it is one of them |
| CrudEndpoints.Paging | backend/CrudEndpoints.cs:70-84 | the limit is the page size (default 20); the offset is (page - 1) * size with 32-bit wrap (default page 1), exact when it fits, and 0 without a page |
| CrudEndpoints.WrapShift | backend/CrudEndpoints.cs:84 | wrapping ignores multiples of 2^32 |
| CrudEndpoints.WrapOfProduct | backend/CrudEndpoints.cs:84 | wrapping an intermediate factor does not change the wrapped product |
| CrudEndpoints.Failures | backend/CrudEndpoints.cs:191-203 | one failure per invalid item, carrying its index, in increasing order |
| CrudEndpoints.InsertTriviaItems | backend/CrudEndpoints.cs:186-211 | errors exactly when some item is invalid, and then no row is written and no id returned; otherwise every item is written with its fresh id and the ids are returned in order |
| CrudEndpoints.CreateOne | backend/CrudEndpoints.cs:109-118 | a valid item is created at `/trivia/{id}` with its fresh id; an invalid one is rejected with failure index 0 and nothing written |
| CrudEndpoints.CreateBatch | backend/CrudEndpoints.cs:121-131 | an empty batch is refused; a batch with an invalid item is rejected whole with its failures and nothing written; a non-empty batch of valid items is created at `/trivia/batch` with the fresh ids, every item written with its id |
| QuestionsGrid.Revealed | frontend/src/domain/components/QuestionsGrid.tsx:26-28 | the revealed set holds exactly the non-empty correct answers the questions show |
| QuestionsGrid.Positions | frontend/src/domain/components/QuestionsGrid.tsx:30-32 | the texts "1" to "n" in order |
| QuestionsGrid.Unrevealed | frontend/src/domain/components/QuestionsGrid.tsx:33 | keeps exactly the entries not yet revealed |
| QuestionsGrid.Options | frontend/src/domain/components/QuestionsGrid.tsx:16-35 | multiple choice offers the item's options; true/false offers "True" and "False"; ordering offers exactly the positions 1..n not yet revealed; fill in the blank offers nothing |
| QuestionsGrid.AllowedToAnswer | frontend/src/domain/components/QuestionsGrid.tsx:55 | a card takes an answer exactly when the player may answer and the question shows no answer |
| QuestionsGrid.IsActive | frontend/src/domain/components/QuestionsGrid.tsx:56 | every card is active while none is chosen; otherwise only the chosen one |
| QuestionsGrid.AtMostTheChosenCardIsActive | frontend/src/domain/components/QuestionsGrid.tsx:56 | once a card is chosen, no two distinct cards are active |
| QuestionsGrid.KeptPositions | frontend/src/domain/components/QuestionsGrid.tsx:25-34 | the unrevealed positions 1..n, as numbers, ascending and complete |
| QuestionsGrid.Writings | frontend/src/domain/components/QuestionsGrid.tsx:32 | the decimal writings of a list of numbers |
| QuestionsGrid.UnrevealedPositionsAreKept | frontend/src/domain/components/QuestionsGrid.tsx:30-33 | filtering "1".."n" is writing out the kept positions |
| QuestionsGrid.OrderingOptions | frontend/src/domain/components/QuestionsGrid.tsx:25-34 | the ordering options are the writings of the unrevealed positions, in ascending order |
| GridProperties.RevealedIffAnswered | frontend/src/domain/components/QuestionsGrid.tsx:26-28 | with distinct positions, a question's position is revealed exactly when it has been answered |
| GridProperties.OpenQuestionsKeepTheirPosition | frontend/src/domain/components/QuestionsGrid.tsx:25-34 | the grid offers a question's position exactly while the question is open |
| GridProperties.OfferedPositionIsJudgedByOrder | Server/GameEndpoints.cs:79 | an offered position is accepted exactly when it is the question's position |
| GridProperties.TrueOrFalseOptionsDecide | Server/GameEndpoints.cs:55 | of "True" and "False" exactly the one naming the truth is accepted |
| GridProperties.CardOpenIffSlotOpen | frontend/src/domain/components/QuestionsGrid.tsx:55 | a card takes an answer exactly when the server still has that answer slot open |
| GridProperties.ValidOrderingQuestionsHaveDistinctPositions | backend/TriviaQuestion.cs:114-128 | a valid ordering item maps to questions whose positions are distinct and within 1..n |
| GridProperties.SameMultisetKeepsPositions | Server/GameEndpoints.cs:176 | rearranging the questions keeps their positions distinct and in range |
| GridProperties.BackendOrderingItemHasDistinctPositions | backend/GameEndpoints.cs:159-163 | a backend ordering item drawn from a valid item has distinct positions |
| GridProperties.ServerOrderingItemHasDistinctPositions | Server/GameEndpoints.cs:169-176 | a server ordering item drawn from a valid item has distinct positions however it was shuffled |
| GridProperties.ServerOffersEveryCorrectChoice | Server/GameEndpoints.cs:178 | the server sends a valid multiple-choice item's stored options, which hold every question's correct choice |
| GridProperties.BackendOffersNoChoices | backend/GameEndpoints.cs:289-297 | the backend sends no options, so the grid offers no choices for a backend multiple-choice item |

## Left out

- SignalR and HTTP plumbing: groups, connections, serialisation of replies and status codes. A hub call is modelled as its result, `Sent` or `Threw`.
- `MapConnectionToGame` and `OnDisconnectedAsync`. The server's hub calls them, but they are not defined in `Server/GameStore.cs`.
- Concurrency: every hub call and store operation is modelled as atomic.
- JSON: stored data, options and every other serialisation are modelled as values.
- SQL, apart from the semantics of the filter clauses and of the draw predicate.
- `ORDER BY RANDOM() LIMIT 1` is modelled as the `pick` parameter and `Shuffle()` as the `rolls` parameter. Either may choose any row or any order.
- `Shuffle()` itself is not part of this model. Any permutation of the mapped questions is allowed.
- `Guid.NewGuid()` is modelled as an id parameter.
- ServerStore.GameStore.Create: requires the new game id to be unused, standing for the uniqueness of GUIDs.
- The backend's `GameStore` is not part of this model. Its hub methods take the result of the lookup.
- The backend's `/create-game`, `/active-games` and `/join-game` endpoints are not modelled, because they only call that store.
- The server's trivia item record is not defined in the server's own files. The model reads its four fields from the calls that construct it.
- DotNetText.ToLowerInvariant: lowers only the ASCII letters. Full Unicode case mapping is not modelled.
- TriviaTypes.QuestionType: a closed type of the four declared values. The JSON binder also takes an integer that names no declared value (backend/Program.cs:17). No type rule of the validator applies to such an item, so it is stored, and `Map` throws `NotSupportedException` on every draw that picks it (Server/GameEndpoints.cs:174, backend/GameEndpoints.cs:164). Neither step is modelled.
- Validation.TextualAnswers: list entries are strings, never null. FluentValidation's `Length` lets a null entry pass (backend/TriviaQuestion.cs:84-85, 109-110), and `NormalizeAnswer` (Server/GameEndpoints.cs:65) would then throw `NullReferenceException` after the answer has been stored. That case is not modelled.
- Validation.OrderingRule: on an ordering item with no questions, `answers.Min()` (backend/TriviaQuestion.cs:123) throws out of the validator. The model counts the rule as failed, so such an item is rejected as invalid rather than by an exception.
- DotNetText.TryParseInt: its own contract states only what a parsed text must contain. The round trip `ParseIntOfIntToString` and the example lemmas in `Questions` state what it accepts.
- Validation, library behaviour:
  - FluentValidation's behaviour when a rule throws is modelled as a failed rule, as for `Validation.OrderingRule` above.
  - Validation messages are not modelled.
- CrudEndpoints.InsertTriviaItems: a failure carries only its item's index, not the list of FluentValidation errors.
- CRUD database handlers are modelled only through their decisions: `GET /trivia/{id}`, `PUT` and `DELETE`, and the result rows of `GET /trivia`.
- `GetMinAndMaxGuide`: the guide text is not modelled. The constants it prints are those of `Validation`.
- The client's React state and rendering, beyond the decisions the grid makes (`useState`, `QuestionCard`, the other screens).
- ServerStore.GameStore.GetIds: lists every key once; the enumeration order of the dictionary is not modelled.
- ServerGame.TakeAnswer and BackendGame.TakeAnswer: a failed draw after some fields were written is reported as `Faulted`. The model keeps those writes and does not roll them back, as the source does not.

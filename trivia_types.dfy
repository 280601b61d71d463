/** The records a trivia item is stored and sent as: the question-type enumeration, the
    question transfer record, an item's content, the four-field item record used by the game
    and the backend, and the shared library's item record, which adds tags and a difficulty. */
module TriviaTypes {
  import opened Wrappers
  import opened DotNetText

  /** `QuestionType`; its declaration order fixes the integer values 0..3. */
  datatype QuestionType = MultipleChoice | TrueOrFalse | FillInTheBlank | Ordering {

    /** `(int)QuestionType`. */
    function EnumValue(): (v: int)
      ensures 0 <= v <= 3
    {
      match this
      case MultipleChoice => 0
      case TrueOrFalse => 1
      case FillInTheBlank => 2
      case Ordering => 3
    }
  }

  datatype DifficultyLevel = Easy | Medium | Hard

  /** `QuestionDto`: a question as stored, with one answer field per question type. */
  datatype QuestionDto = QuestionDto(
    questionText: string,
    explanation: Option<string>,
    orderingAnswer: Option<Int32>,
    trueOrFalseAnswer: Option<bool>,
    fillInTheBlankAnswer: Option<seq<string>>,
    multipleChoiceAnswer: Option<string>)

  /** `ItemContent<TQuestion>`: the questions plus the shared multiple-choice options. */
  datatype ItemContent<Q> = ItemContent(questions: seq<Q>, correctAnswers: Option<seq<string>>)

  /** `TriviaItem<TQuestion>` with the four fields the game keeps: the item stored by the
      backend, the item held by a session, and the item sent to the clients. */
  datatype TriviaItem<Q> = TriviaItem(
    id: Option<string>,
    prompt: string,
    content: ItemContent<Q>,
    questionType: QuestionType)

  /** An item as the question bank stores it. */
  type StoredItem = TriviaItem<QuestionDto>

  /** The shared library's `TriviaItem<QuestionDto>`, which also carries tags and a difficulty. */
  datatype SharedTriviaItem = SharedTriviaItem(
    prompt: string,
    tags: seq<string>,
    content: ItemContent<QuestionDto>,
    difficulty: DifficultyLevel,
    questionType: QuestionType,
    id: Option<string>)
}

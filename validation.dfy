/** `TriviaQuestionValidator`, in the shared library's version (with tag rules) and the
    backend's older version (without them), each rule as a predicate over the item. */
module Validation {
  import opened Wrappers
  import opened DotNetText
  import opened TriviaTypes
  import opened Lists
  import ItemMapper

  const MinPromptLength := 10
  const MaxPromptLength := 150
  const MinQuestionLength := 1
  const MaxQuestionLength := 75
  const MinExplanationLength := 10
  const MaxExplanationLength := 30
  const MinTextualAnswerLength := 1
  const MaxTextualAnswerLength := 30
  const MinQuestionsPerItem := 2
  const MaxQuestionsPerItem := 10
  const MinAcceptableAnswers := 1
  const MaxAcceptableAnswers := 4
  const MinMultipleChoiceAnswers := 2
  const MaxMultipleChoiceAnswers := 4
  const MinTagLength := 2
  const MaxTagLength := 30
  const MinTags := 1
  const MaxTags := 4

  /** FluentValidation's `NotEmpty()` on a string: not only white space (nor empty). */
  predicate NotEmptyText(s: string) {
    !AllWhiteSpace(s)
  }

  /** FluentValidation's `Length(lo, hi)` on a string, which bounds its .NET `Length`. */
  predicate LengthBetween(s: string, lo: int, hi: int) {
    lo <= Utf16Length(s) <= hi
  }

  /** The prompt rule; a prompt that passes has 5..150 characters as Dafny counts them. */
  function PromptRule(prompt: string): (r: bool)
    ensures r ==> 5 <= |prompt| <= MaxPromptLength
  {
    NotEmptyText(prompt) && LengthBetween(prompt, MinPromptLength, MaxPromptLength)
  }

  predicate QuestionCountRule(qs: seq<QuestionDto>) {
    qs != [] && MinQuestionsPerItem <= |qs| <= MaxQuestionsPerItem
  }

  /** The child rules every question obeys; the explanation is only checked when present.
      A question that passes has a text of 1..75 characters. */
  function QuestionRule(q: QuestionDto): (r: bool)
    ensures r ==> 1 <= |q.questionText| <= MaxQuestionLength
  {
    && NotEmptyText(q.questionText)
    && LengthBetween(q.questionText, MinQuestionLength, MaxQuestionLength)
    && (q.explanation.Some? ==>
          LengthBetween(q.explanation.value, MinExplanationLength, MaxExplanationLength))
  }

  /** Every entry of a list of textual answers has 1..30 characters, so none is empty. */
  function TextualAnswers(a: seq<string>): (r: bool)
    ensures r ==> "" !in a
  {
    forall i :: 0 <= i < |a| ==>
      LengthBetween(a[i], MinTextualAnswerLength, MaxTextualAnswerLength)
  }

  /** Multiple choice: 2..4 distinct options of 1..30 characters, and each question's answer
      (the empty string when it has none) is one of them. So a question that passes has its
      answer, and the options repeat nothing. */
  function MultipleChoiceRule(content: ItemContent<QuestionDto>): (r: bool)
    ensures r ==> ItemMapper.Complete(MultipleChoice, content.questions)
    ensures r ==> content.correctAnswers.Some? && NoDuplicates(content.correctAnswers.value)
  {
    && content.correctAnswers.Some?
    && var options := content.correctAnswers.value;
       && MinMultipleChoiceAnswers <= |options| <= MaxMultipleChoiceAnswers
       && IsUniqueList(options)
       && TextualAnswers(options)
       && forall i :: 0 <= i < |content.questions| ==>
            content.questions[i].multipleChoiceAnswer.GetOr("") in options
  }

  /** Every question has its true/false answer: exactly what `Map` needs of such an item. */
  function TrueOrFalseRule(qs: seq<QuestionDto>): (r: bool)
    ensures r <==> ItemMapper.Complete(TrueOrFalse, qs)
  {
    forall i :: 0 <= i < |qs| ==> qs[i].trueOrFalseAnswer.Some?
  }

  /** A fill-in-the-blank question's accepted answers: present, 1..4 of them, distinct, each
      of 1..30 characters. */
  function AcceptedAnswersRule(a: Option<seq<string>>): (r: bool)
    ensures r ==> a.Some? && a.value != [] && NoDuplicates(a.value) && "" !in a.value
  {
    && a.Some?
    && MinAcceptableAnswers <= |a.value| <= MaxAcceptableAnswers
    && IsUniqueList(a.value)
    && TextualAnswers(a.value)
  }

  /** Every question has a list of accepted answers that passes `AcceptedAnswersRule`. */
  function FillInTheBlankRule(qs: seq<QuestionDto>): (r: bool)
    ensures r ==> ItemMapper.Complete(FillInTheBlank, qs)
  {
    forall i :: 0 <= i < |qs| ==> AcceptedAnswersRule(qs[i].fillInTheBlankAnswer)
  }

  /** `Select(q => q.OrderingAnswer ?? -1)`. */
  function OrderingAnswers(qs: seq<QuestionDto>): (r: seq<int>)
    ensures |r| == |qs|
    ensures forall i :: 0 <= i < |qs| ==>
              r[i] == if qs[i].orderingAnswer.Some? then qs[i].orderingAnswer.value else -1
  {
    seq(|qs|, i requires 0 <= i < |qs| => qs[i].orderingAnswer.GetOr(-1) as int)
  }

  /** The ordering answers are distinct, the least is 1 and the greatest is the number of
      questions: exactly when the answers, with -1 for a missing one, are a permutation of
      1..n. So every question of a valid ordering item has its answer. */
  function OrderingRule(qs: seq<QuestionDto>): (r: bool)
    ensures r <==> qs != [] && IsPermutationOfOneTo(OrderingAnswers(qs))
    ensures r ==> ItemMapper.Complete(Ordering, qs)
  {
    var answers := OrderingAnswers(qs);
    OrderingRangeIffPermutation(answers);
    answers != [] && IsUniqueList(answers) && Min(answers) == 1 && Max(answers) == |qs|
  }

  /** The rules registered under `When(x => x.QuestionType == ...)`; each leaves every
      question with the answer field its type reads. */
  function TypeRule(t: QuestionType, content: ItemContent<QuestionDto>): (r: bool)
    ensures r ==> ItemMapper.Complete(t, content.questions)
  {
    match t
    case MultipleChoice => MultipleChoiceRule(content)
    case TrueOrFalse => TrueOrFalseRule(content.questions)
    case FillInTheBlank => FillInTheBlankRule(content.questions)
    case Ordering => OrderingRule(content.questions)
  }

  /** The rules both validators share. An item that passes has 2..10 questions, each with a
      text and with the answer field its type reads. */
  function ItemRules(prompt: string, content: ItemContent<QuestionDto>, t: QuestionType): (r: bool)
    ensures r ==> ItemMapper.Complete(t, content.questions)
    ensures r ==> MinQuestionsPerItem <= |content.questions| <= MaxQuestionsPerItem
    ensures r ==> forall i :: 0 <= i < |content.questions| ==> content.questions[i].questionText != []
  {
    && PromptRule(prompt)
    && QuestionCountRule(content.questions)
    && (forall i :: 0 <= i < |content.questions| ==> QuestionRule(content.questions[i]))
    && TypeRule(t, content)
  }

  /** The shared library's tag rules: 1..4 distinct tags of 2..30 characters, none blank. */
  function TagRules(tags: seq<string>): (r: bool)
    ensures r ==> NoDuplicates(tags) && forall i :: 0 <= i < |tags| ==> tags[i] != []
  {
    && tags != []
    && MinTags <= |tags| <= MaxTags
    && IsUniqueList(tags)
    && forall i :: 0 <= i < |tags| ==>
         NotEmptyText(tags[i]) && LengthBetween(tags[i], MinTagLength, MaxTagLength)
  }

  /** The backend's validator. An item it accepts carries, in every question, the answer
      field its question type reads, so `Map` neither throws nor carries a missing answer
      along. */
  function BackendValid(d: StoredItem): (r: bool)
    ensures r ==> ItemMapper.Complete(d.questionType, d.content.questions)
    ensures r ==> ItemMapper.Mappable(d.questionType, d.content.questions)
  {
    ItemRules(d.prompt, d.content, d.questionType)
  }

  /** The shared library's validator: the backend's rules on the stored fields, plus the tag
      rules. */
  function SharedValid(d: SharedTriviaItem): (r: bool)
    ensures r <==> BackendValid(ToStored(d)) && TagRules(d.tags)
  {
    ItemRules(d.prompt, d.content, d.questionType) && TagRules(d.tags)
  }

  /** The four fields of a shared item that the game stores. */
  function ToStored(d: SharedTriviaItem): (r: StoredItem)
    ensures r.id == d.id && r.prompt == d.prompt && r.content == d.content
    ensures r.questionType == d.questionType
  {
    TriviaItem(d.id, d.prompt, d.content, d.questionType)
  }

  // ---------------------------------------------------------------------------------------
  // Properties.

  /** A question without an ordering answer counts as -1 and fails the ordering rule. */
  lemma MissingOrderingAnswerFails(qs: seq<QuestionDto>, i: int)
    requires 0 <= i < |qs| && qs[i].orderingAnswer.None?
    ensures !OrderingRule(qs)
  {
    var answers := OrderingAnswers(qs);
    assert answers[i] == -1;
  }

  /** A multiple-choice question without an answer is rejected: it counts as the empty
      string, which no option of 1..30 characters equals. */
  lemma MissingMultipleChoiceAnswerFails(content: ItemContent<QuestionDto>, i: int)
    requires 0 <= i < |content.questions| && content.questions[i].multipleChoiceAnswer.None?
    ensures !MultipleChoiceRule(content)
  {
  }

  /** A bank of validated items can be drawn from by either game server. */
  lemma ValidCatalogIsMappable(catalog: seq<StoredItem>)
    requires forall d :: d in catalog ==> BackendValid(d)
    ensures ItemMapper.MappableCatalog(catalog)
  {
  }

  /** In a valid multiple-choice item every question's answer is one of the options. */
  lemma ValidMultipleChoiceAnswersAreOptions(d: StoredItem)
    requires BackendValid(d) && d.questionType == MultipleChoice
    ensures d.content.correctAnswers.Some?
    ensures forall i :: 0 <= i < |d.content.questions| ==>
              && d.content.questions[i].multipleChoiceAnswer.Some?
              && d.content.questions[i].multipleChoiceAnswer.value in d.content.correctAnswers.value
  {
    forall i | 0 <= i < |d.content.questions|
      ensures d.content.questions[i].multipleChoiceAnswer.Some?
    {
      if d.content.questions[i].multipleChoiceAnswer.None? {
        MissingMultipleChoiceAnswerFails(d.content, i);
      }
    }
  }
}

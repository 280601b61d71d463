/** `TriviaItemMapper.Map`: a stored item becomes the session's own copy, with one domain
    question per stored question, all answer slots empty, in an order chosen by `Shuffle()`. */
module ItemMapper {
  import opened Wrappers
  import opened DotNetText
  import opened TriviaTypes
  import opened Questions
  import opened HubTypes

  /** The answer field that the item's question type reads is present. */
  predicate HasAnswerFor(t: QuestionType, q: QuestionDto) {
    match t
    case MultipleChoice => q.multipleChoiceAnswer.Some?
    case TrueOrFalse => q.trueOrFalseAnswer.Some?
    case FillInTheBlank => q.fillInTheBlankAnswer.Some?
    case Ordering => q.orderingAnswer.Some?
  }

  /** `Map` reads the true/false and ordering answers with `.Value`, which throws when the
      field is missing; the `!` on the multiple-choice and fill-in-the-blank answers only
      silences the compiler, so a missing one is carried into the question as it is. */
  predicate ValueMissing(t: QuestionType, q: QuestionDto) {
    (t == TrueOrFalse || t == Ordering) && !HasAnswerFor(t, q)
  }

  /** No stored question makes `Map` throw. */
  predicate Mappable(t: QuestionType, qs: seq<QuestionDto>) {
    forall i :: 0 <= i < |qs| ==> !ValueMissing(t, qs[i])
  }

  /** Every stored question carries the answer field its item's question type reads. */
  predicate Complete(t: QuestionType, qs: seq<QuestionDto>) {
    forall i :: 0 <= i < |qs| ==> HasAnswerFor(t, qs[i])
  }

  /** No stored item makes `Map` throw. */
  ghost predicate MappableCatalog(catalog: seq<StoredItem>) {
    forall d :: d in catalog ==> Mappable(d.questionType, d.content.questions)
  }

  /** The `switch` on the item's question type, applied to one stored question: it fails
      exactly when a `.Value` is read from a missing field, and otherwise copies the text,
      the explanation and the answer field the type reads into an unanswered question. */
  function MapQuestion(t: QuestionType, q: QuestionDto): (r: Result<Question, HubError>)
    ensures r.Failure? <==> ValueMissing(t, q)
    ensures r.Failure? ==> r.error == MissingAnswer
    ensures r.Success? ==>
              && r.value.Type() == t && r.value.playerAnswer == None
              && r.value.questionText == q.questionText && r.value.explanation == q.explanation
    ensures r.Success? && t == MultipleChoice ==> r.value.correctChoice == q.multipleChoiceAnswer
    ensures r.Success? && t == TrueOrFalse ==> Some(r.value.correctTruth) == q.trueOrFalseAnswer
    ensures r.Success? && t == FillInTheBlank ==>
              r.value.acceptedAnswers == q.fillInTheBlankAnswer
    ensures r.Success? && t == Ordering ==> Some(r.value.correctOrder) == q.orderingAnswer
  {
    match t
    case MultipleChoice =>
      Success(MultipleChoiceQuestion(q.questionText, q.explanation, q.multipleChoiceAnswer, None))
    case TrueOrFalse =>
      if q.trueOrFalseAnswer.None? then Failure(MissingAnswer)
      else Success(TrueOrFalseQuestion(q.questionText, q.explanation,
                                       q.trueOrFalseAnswer.value, None))
    case FillInTheBlank =>
      Success(FillInTheBlankQuestion(q.questionText, q.explanation, q.fillInTheBlankAnswer, None))
    case Ordering =>
      if q.orderingAnswer.None? then Failure(MissingAnswer)
      else Success(OrderingQuestion(q.questionText, q.explanation, q.orderingAnswer.value, None))
  }

  /** The `Select` over the stored questions, in stored order: it fails exactly when one of
      them cannot be mapped, and otherwise holds each mapped question at its own index. */
  function MapQuestions(t: QuestionType, qs: seq<QuestionDto>): (r: Result<seq<Question>, HubError>)
    ensures r.Success? <==> Mappable(t, qs)
    ensures r.Failure? ==> r.error == MissingAnswer
    ensures r.Success? ==>
              && |r.value| == |qs|
              && forall i :: 0 <= i < |qs| ==> Success(r.value[i]) == MapQuestion(t, qs[i])
  {
    if Mappable(t, qs) then
      Success(seq(|qs|, i requires 0 <= i < |qs| => MapQuestion(t, qs[i]).value))
    else
      Failure(MissingAnswer)
  }

  /** The sequence without its element at `k`. */
  function Without<T>(xs: seq<T>, k: nat): (r: seq<T>)
    requires k < |xs|
    ensures |r| == |xs| - 1
    ensures multiset(r) + multiset{xs[k]} == multiset(xs)
  {
    assert xs == xs[..k] + [xs[k]] + xs[k + 1..];
    xs[..k] + xs[k + 1..]
  }

  /** `Shuffle()`: each entry of `rolls` is a random draw that picks the next element among
      those not yet taken (a missing roll picks the first). Every permutation is reachable. */
  function Shuffle<T>(xs: seq<T>, rolls: seq<nat>): (r: seq<T>)
    ensures multiset(r) == multiset(xs)
    decreases |xs|
  {
    if xs == [] then []
    else if rolls == [] then [xs[0]] + Shuffle(Without(xs, 0), [])
    else
      var k := rolls[0] % |xs|;
      [xs[k]] + Shuffle(Without(xs, k), rolls[1..])
  }

  /** With no random draws the shuffle keeps the stored order. */
  lemma {:induction false} ShuffleWithoutRollsKeepsOrder<T>(xs: seq<T>)
    ensures Shuffle(xs, []) == xs
  {
    if xs != [] {
      var rest := xs[1..];
      assert Without(xs, 0) == rest by {
        assert xs[..0] + xs[1..] == rest;
      }
      assert Shuffle(xs, []) == [xs[0]] + Shuffle(rest, []);
      ShuffleWithoutRollsKeepsOrder(rest);
      assert [xs[0]] + rest == xs;
    }
  }

  /** The server's `Map`: it fails exactly when a stored question cannot be mapped; otherwise
      the output holds exactly the mapped stored questions, only their order may differ; each
      has the kind the item's type names and an empty answer slot; id, prompt, type and the
      multiple-choice options are copied. */
  function Map(dto: StoredItem, rolls: seq<nat>): (r: Result<TriviaItem<Question>, HubError>)
    ensures r.Success? <==> Mappable(dto.questionType, dto.content.questions)
    ensures r.Failure? ==> r.error == MissingAnswer
    ensures r.Success? ==>
              && r.value.id == dto.id && r.value.prompt == dto.prompt
              && r.value.questionType == dto.questionType
              && r.value.content.correctAnswers == dto.content.correctAnswers
              && multiset(r.value.content.questions)
                 == multiset(MapQuestions(dto.questionType, dto.content.questions).value)
    ensures r.Success? ==>
              forall i :: 0 <= i < |r.value.content.questions| ==>
                r.value.content.questions[i].Type() == dto.questionType
                && r.value.content.questions[i].playerAnswer == None
  {
    match MapQuestions(dto.questionType, dto.content.questions)
    case Failure(e) => Failure(e)
    case Success(mapped) =>
      var shuffled := Shuffle(mapped, rolls);
      assert forall i :: 0 <= i < |shuffled| ==> shuffled[i] in multiset(mapped);
      Success(TriviaItem(dto.id, dto.prompt, ItemContent(shuffled, dto.content.correctAnswers),
                         dto.questionType))
  }
}

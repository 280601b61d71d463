/** The game's question model: the four question kinds with their answer checks, the slot
    that holds the answer a player gave, and the projection sent to clients, which reveals the
    correct answer only once the question has been answered. */
module Questions {
  import opened Wrappers
  import opened DotNetText
  import opened TriviaTypes
  import opened HubTypes

  /** `QuestionDomain` and its four subclasses as one closed sum type. `playerAnswer` is the
      settable answer slot: `None` until an answer is submitted. The multiple-choice answer
      and the fill-in-the-blank list are references that `Map` copies without a null check,
      so either may be missing. */
  datatype Question =
    | MultipleChoiceQuestion(questionText: string, explanation: Option<string>,
                             correctChoice: Option<string>, playerAnswer: Option<string>)
    | TrueOrFalseQuestion(questionText: string, explanation: Option<string>,
                          correctTruth: bool, playerAnswer: Option<string>)
    | FillInTheBlankQuestion(questionText: string, explanation: Option<string>,
                             acceptedAnswers: Option<seq<string>>, playerAnswer: Option<string>)
    | OrderingQuestion(questionText: string, explanation: Option<string>,
                       correctOrder: Int32, playerAnswer: Option<string>)
  {
    /** The question type this kind of question belongs to. */
    function Type(): QuestionType {
      match this
      case MultipleChoiceQuestion(_, _, _, _) => MultipleChoice
      case TrueOrFalseQuestion(_, _, _, _) => TrueOrFalse
      case FillInTheBlankQuestion(_, _, _, _) => FillInTheBlank
      case OrderingQuestion(_, _, _, _) => Ordering
    }

    /** A fill-in-the-blank question without its list of accepted answers, on which both
        `CheckAnswer` and `AnswerAsString` throw. */
    predicate LacksAnswerList() {
      FillInTheBlankQuestion? && acceptedAnswers.None?
    }

    /** `CheckAnswer`: exact text for multiple choice (never equal to a missing choice), a
        parsed boolean for true/false, normalised membership for fill in the blank, a parsed
        integer for ordering. Text that does not parse is simply wrong. */
    function CheckAnswer(answer: string): (r: Result<bool, HubError>)
      ensures r.Failure? <==> LacksAnswerList()
      ensures r.Failure? ==> r.error == NoAcceptedAnswers
    {
      match this
      case MultipleChoiceQuestion(_, _, choice, _) => Success(choice == Some(answer))
      case TrueOrFalseQuestion(_, _, truth, _) =>
        Success(TryParseBool(answer) == Some(truth))
      case FillInTheBlankQuestion(_, _, accepted, _) =>
        if accepted.None? then Failure(NoAcceptedAnswers)
        else Success(NormalizeAnswer(answer) in NormalizeAll(accepted.value))
      case OrderingQuestion(_, _, order, _) =>
        Success(TryParseInt(answer) == Some(order))
    }

    /** `AnswerAsString`: the correct answer as shown once the question is answered; `None`
        inside is the missing multiple-choice answer, which is shown as null. */
    function AnswerAsString(): (r: Result<Option<string>, HubError>)
      ensures r.Failure? <==> LacksAnswerList()
      ensures r.Failure? ==> r.error == NoAcceptedAnswers
      ensures r.Success? && r.value.None? <==> MultipleChoiceQuestion? && correctChoice.None?
    {
      match this
      case MultipleChoiceQuestion(_, _, choice, _) => Success(choice)
      case TrueOrFalseQuestion(_, _, truth, _) => Success(Some(BoolToString(truth)))
      case FillInTheBlankQuestion(_, _, accepted, _) =>
        if accepted.None? then Failure(NoAcceptedAnswers) else Success(Some(Join(", ", accepted.value)))
      case OrderingQuestion(_, _, order, _) => Success(Some(IntToString(order)))
    }

    /** `ToClient` throws: an answer is shown, so the correct answer is computed, and the
        question has no accepted-answer list. */
    predicate ShowFails() {
      !IsNullOrEmpty(playerAnswer) && LacksAnswerList()
    }

    /** `ToClient`: nothing about the correct answer leaves the server before an answer has
        been stored; afterwards the client sees the correct answer and whether the stored
        answer was right. An empty stored answer counts as none. */
    function ToClient(): (r: Result<QuestionToClient, HubError>)
      ensures r.Failure? <==> ShowFails()
      ensures r.Failure? ==> r.error == NoAcceptedAnswers
      ensures r.Success? ==>
                && r.value.questionText == questionText
                && r.value.explanation == (if IsNullOrEmpty(explanation) then None else explanation)
                && r.value.playerAnswer == (if IsNullOrEmpty(playerAnswer) then None else playerAnswer)
                && (IsNullOrEmpty(playerAnswer) ==>
                      r.value.correctAnswer.None? && r.value.playerAnswerCorrect.None?)
                && (!IsNullOrEmpty(playerAnswer) ==>
                      && Success(r.value.correctAnswer) == AnswerAsString()
                      && r.value.playerAnswerCorrect.Some?
                      && Success(r.value.playerAnswerCorrect.value) == CheckAnswer(playerAnswer.value))
    {
      var shown := if IsNullOrEmpty(playerAnswer) then None else playerAnswer;
      var explained := if IsNullOrEmpty(explanation) then None else explanation;
      if shown.None? then Success(QuestionToClient(questionText, explained, None, None, None))
      else
        match AnswerAsString()
        case Failure(e) => Failure(e)
        case Success(correct) =>
          match CheckAnswer(shown.value)
          case Failure(e) => Failure(e)
          case Success(verdict) =>
            Success(QuestionToClient(questionText, explained, correct, shown, Some(verdict)))
    }
  }

  /** `QuestionToClient`: the view of a question that is broadcast to every player. */
  datatype QuestionToClient = QuestionToClient(
    questionText: string,
    explanation: Option<string>,
    correctAnswer: Option<string>,
    playerAnswer: Option<string>,
    playerAnswerCorrect: Option<bool>)

  /** `NormalizeAnswer`: `answer.Trim().ToLowerInvariant()`. The normal form has no white
      space at either end, and is empty exactly for a blank answer. */
  function NormalizeAnswer(answer: string): (r: string)
    ensures IsTrimmed(r)
    ensures r == [] <==> AllWhiteSpace(answer)
  {
    LowerCaseKeepsTrimmed(Trim(answer));
    ToLowerInvariant(Trim(answer))
  }

  function NormalizeAll(answers: seq<string>): (r: seq<string>)
    ensures |r| == |answers| && forall i :: 0 <= i < |r| ==> r[i] == NormalizeAnswer(answers[i])
  {
    seq(|answers|, i requires 0 <= i < |answers| => NormalizeAnswer(answers[i]))
  }

  /** Every question's revealed correct answer is itself accepted by `CheckAnswer`, except a
      fill-in-the-blank question with several accepted answers, whose revealed text joins
      them with ", ", and a question whose correct answer is missing. */
  lemma RevealedAnswerIsAccepted(q: Question)
    requires q.MultipleChoiceQuestion? ==> q.correctChoice.Some?
    requires q.FillInTheBlankQuestion? ==>
               q.acceptedAnswers.Some? && |q.acceptedAnswers.value| == 1
    ensures q.AnswerAsString().Success? && q.AnswerAsString().value.Some?
    ensures q.CheckAnswer(q.AnswerAsString().value.value) == Success(true)
  {
    match q
    case MultipleChoiceQuestion(_, _, _, _) =>
    case TrueOrFalseQuestion(_, _, truth, _) =>
      ParseBoolOfBoolToString(truth);
    case FillInTheBlankQuestion(_, _, accepted, _) =>
      assert Join(", ", accepted.value) == accepted.value[0];
      NormalFormListed(accepted.value, 0);
      FillInTheBlankCheck(q, accepted.value[0]);
    case OrderingQuestion(_, _, order, _) =>
      ParseIntOfIntToString(order);
  }

  /** A multiple-choice question whose answer is missing takes every answer as wrong. */
  lemma MissingChoiceRejectsAll(q: Question, a: string)
    requires q.MultipleChoiceQuestion? && q.correctChoice.None?
    ensures q.CheckAnswer(a) == Success(false)
  {
  }

  /** A fill-in-the-blank answer is accepted whatever white space surrounds it. */
  lemma FillInTheBlankIgnoresPadding(q: Question, i: int, pre: string, post: string)
    requires q.FillInTheBlankQuestion? && q.acceptedAnswers.Some?
    requires 0 <= i < |q.acceptedAnswers.value|
    requires AllWhiteSpace(pre) && AllWhiteSpace(post) && IsTrimmed(q.acceptedAnswers.value[i])
    ensures q.CheckAnswer(pre + q.acceptedAnswers.value[i] + post) == Success(true)
  {
    var answers := q.acceptedAnswers.value;
    var padded := pre + answers[i] + post;
    NormalizeIgnoresPadding(pre, answers[i], post);
    NormalFormListed(answers, i);
    FillInTheBlankCheck(q, padded);
  }

  /** A fill-in-the-blank question accepts an answer exactly when its normal form is among
      the normal forms of the accepted answers. */
  lemma FillInTheBlankCheck(q: Question, a: string)
    requires q.FillInTheBlankQuestion? && q.acceptedAnswers.Some?
    ensures q.CheckAnswer(a)
            == Success(NormalizeAnswer(a) in NormalizeAll(q.acceptedAnswers.value))
  {
  }

  lemma NormalFormListed(answers: seq<string>, i: int)
    requires 0 <= i < |answers|
    ensures NormalizeAnswer(answers[i]) in NormalizeAll(answers)
  {
    assert NormalizeAll(answers)[i] == NormalizeAnswer(answers[i]);
  }

  lemma NormalizeIgnoresPadding(pre: string, s: string, post: string)
    requires AllWhiteSpace(pre) && AllWhiteSpace(post) && IsTrimmed(s)
    ensures NormalizeAnswer(pre + s + post) == NormalizeAnswer(s)
  {
    TrimRemovesPadding(pre, s, post);
    TrimOfTrimmed(s);
  }

  /** Answers that normalise alike are judged alike by a fill-in-the-blank question. */
  lemma FillInTheBlankJudgesNormalForm(q: Question, a: string, b: string)
    requires q.FillInTheBlankQuestion? && NormalizeAnswer(a) == NormalizeAnswer(b)
    ensures q.CheckAnswer(a) == q.CheckAnswer(b)
  {
  }

  /** "  PARIS" is accepted when "Paris" and "paris " are. */
  lemma FillInTheBlankExample()
    ensures FillInTheBlankQuestion("Capital of France?", None, Some(["Paris", "paris "]), None)
              .CheckAnswer("  PARIS") == Success(true)
  {
    var accepted := ["Paris", "paris "];
    FillInTheBlankCheck(FillInTheBlankQuestion("Capital of France?", None, Some(accepted), None),
                        "  PARIS");
    PaddedCapitalsNormalize();
    TrimmedNormalize();
    NormalFormListed(accepted, 0);
  }

  lemma PaddedCapitalsNormalize()
    ensures NormalizeAnswer("  PARIS") == "paris"
  {
    assert "  " + "PARIS" + "" == "  PARIS";
    NormalizePadded("  ", "PARIS", "paris");
  }

  lemma NormalizePadded(pre: string, core: string, lower: string)
    requires AllWhiteSpace(pre) && IsTrimmed(core)
    requires |core| == |lower| && forall i :: 0 <= i < |core| ==> ToLowerChar(core[i]) == lower[i]
    ensures NormalizeAnswer(pre + core + "") == lower
  {
    TrimRemovesPadding(pre, core, "");
    LowerCased(core, lower);
  }

  lemma TrimmedNormalize()
    ensures NormalizeAnswer("Paris") == "paris"
  {
    assert "" + "Paris" + "" == "Paris";
    NormalizePadded("", "Paris", "paris");
  }

  /** An ordering question at position 3 accepts "3" and, because `int.TryParse` allows
      leading zeros, a sign, surrounding white space and trailing U+0000, also "03",
      " +3 " and "3\0"; it rejects "three". */
  lemma OrderingParsesLeniently()
    ensures OrderingQuestion("First?", None, 3, None).CheckAnswer("3") == Success(true)
    ensures OrderingQuestion("First?", None, 3, None).CheckAnswer("03") == Success(true)
    ensures OrderingQuestion("First?", None, 3, None).CheckAnswer(" +3 ") == Success(true)
    ensures OrderingQuestion("First?", None, 3, None).CheckAnswer("3\0") == Success(true)
    ensures OrderingQuestion("First?", None, 3, None).CheckAnswer("three") == Success(false)
  {
    PlainDigitParses();
    LeadingZeroParses();
    SignedPaddedParses();
    NullPaddedDigitParses();
    WordDoesNotParseAsInt();
  }

  lemma PlainDigitParses()
    ensures TryParseInt("3") == Some(3)
  {
    assert DropTrailingNulls("3") == "3";
    assert StripNumberWhite("3") == "3";
  }

  lemma LeadingZeroParses()
    ensures TryParseInt("03") == Some(3)
  {
    assert DropTrailingNulls("03") == "03";
    assert StripNumberWhite("03") == "03";
    assert "03"[..1] == "0" && "0"[..0] == "";
    assert DigitsValue("0") == 0;
  }

  lemma SignedPaddedParses()
    ensures TryParseInt(" +3 ") == Some(3)
  {
    assert DropTrailingNulls(" +3 ") == " +3 ";
    assert " +3 "[1..] == "+3 " && "+3 "[..2] == "+3";
    assert StripNumberWhite("+3") == "+3";
    assert StripNumberWhite(" +3 ") == "+3";
    assert "+3"[1..] == "3" && "3"[..0] == "";
    assert DigitsValue("3") == 3;
  }

  lemma NullPaddedDigitParses()
    ensures TryParseInt("3\0") == Some(3)
  {
    assert "3\0"[..1] == "3";
    assert DropTrailingNulls("3\0") == "3";
    assert StripNumberWhite("3") == "3";
  }

  lemma WordDoesNotParseAsInt()
    ensures TryParseInt("three") == None
  {
    assert DropTrailingNulls("three") == "three";
    assert StripNumberWhite("three") == "three";
    assert !IsDigit("three"[0]);
  }

  /** A true/false question accepts its value in any letter case and with white space or
      U+0000 around it, and rejects text that is not a boolean. */
  lemma TrueOrFalseParsesLeniently()
    ensures TrueOrFalseQuestion("Sky is blue?", None, true, None).CheckAnswer("true") == Success(true)
    ensures TrueOrFalseQuestion("Sky is blue?", None, true, None).CheckAnswer(" TRUE") == Success(true)
    ensures TrueOrFalseQuestion("Sky is blue?", None, true, None).CheckAnswer("true\0") == Success(true)
    ensures TrueOrFalseQuestion("Sky is blue?", None, true, None).CheckAnswer("False") == Success(false)
    ensures TrueOrFalseQuestion("Sky is blue?", None, true, None).CheckAnswer("yes") == Success(false)
  {
    LowerCaseTrueParses();
    PaddedCapitalTrueParses();
    NullPaddedTrueParses();
    ParseBoolOfBoolToString(false);
    YesDoesNotParse();
  }

  lemma LowerCaseTrueParses()
    ensures TryParseBool("true") == Some(true)
  {
    TrimWhiteSpaceAndNullOfTrimmed("true");
    LowerCased("true", "true");
  }

  lemma PaddedCapitalTrueParses()
    ensures TryParseBool(" TRUE") == Some(true)
  {
    assert " TRUE"[1..] == "TRUE";
    TrimWhiteSpaceAndNullOfTrimmed("TRUE");
    assert TrimWhiteSpaceAndNull(" TRUE") == "TRUE";
    LowerCased("TRUE", "true");
  }

  lemma NullPaddedTrueParses()
    ensures TryParseBool("true\0") == Some(true)
  {
    assert "true\0"[..4] == "true";
    TrimWhiteSpaceAndNullOfTrimmed("true");
    assert TrimWhiteSpaceAndNull("true\0") == "true";
    LowerCased("true", "true");
  }

  lemma YesDoesNotParse()
    ensures TryParseBool("yes") == None
  {
    TrimWhiteSpaceAndNullOfTrimmed("yes");
    LowerCased("yes", "yes");
  }

  /** A trivia item as a session holds it. */
  type DomainItem = TriviaItem<Question>

  /** Every answer slot of the item is still empty. */
  predicate Unanswered(item: DomainItem) {
    forall i :: 0 <= i < |item.content.questions| ==>
      item.content.questions[i].playerAnswer == None
  }

  /** Every answer slot is filled (`All(q => q.PlayerAnswer is not null)`). */
  predicate AllAnswered(item: DomainItem) {
    forall i :: 0 <= i < |item.content.questions| ==>
      item.content.questions[i].playerAnswer.Some?
  }

  /** No slot holds the empty answer, which `SubmitAnswer` refuses to store. */
  predicate AnswersNonEmpty(item: DomainItem) {
    forall i :: 0 <= i < |item.content.questions| ==>
      item.content.questions[i].playerAnswer != Some("")
  }

  /** The item with `answer` stored in slot `i`. */
  function AnswerAt(item: DomainItem, i: nat, answer: string): (r: DomainItem)
    requires i < |item.content.questions|
  {
    var qs := item.content.questions;
    item.(content := item.content.(questions := qs[i := qs[i].(playerAnswer := Some(answer))]))
  }

  /** Some question of the item cannot be shown to the clients: `ToClient` throws on it. */
  predicate ShowFailsSomewhere(item: DomainItem) {
    exists i :: 0 <= i < |item.content.questions| && item.content.questions[i].ShowFails()
  }

  /** An item nobody has answered yet can always be shown. */
  lemma UnansweredShows(item: DomainItem)
    requires Unanswered(item)
    ensures !ShowFailsSomewhere(item)
  {
  }
}

/** What the question grid offers for the items the two servers send: the correct answer of
    every open question is among the options and is accepted, a revealed position is no
    longer offered, and a card takes an answer exactly when the server would store one. */
module GridProperties {
  import opened Wrappers
  import opened DotNetText
  import opened TriviaTypes
  import opened Questions
  import opened QuestionsGrid
  import Lists
  import ItemMapper
  import Validation
  import ServerGame
  import BackendGame

  /** Every question is an ordering question, and their positions are distinct numbers in
      1..n for the n questions. */
  predicate DistinctPositions(qs: seq<Question>) {
    && (forall i :: 0 <= i < |qs| ==> qs[i].OrderingQuestion? && 1 <= qs[i].correctOrder <= |qs|)
    && (forall i, j :: 0 <= i < j < |qs| ==> qs[i].correctOrder != qs[j].correctOrder)
  }

  /** The client's view of an item: the same type, and every question projected by
      `ToClient`. */
  predicate ViewOf(client: ClientItem, item: DomainItem) {
    && client.questionType == item.questionType
    && |client.content.questions| == |item.content.questions|
    && forall i :: 0 <= i < |item.content.questions| ==>
         Success(client.content.questions[i]) == item.content.questions[i].ToClient()
  }

  /** A question's position has been revealed exactly when the question has been answered. */
  lemma RevealedIffAnswered(item: DomainItem, client: ClientItem, j: int)
    requires ViewOf(client, item) && DistinctPositions(item.content.questions)
    requires 0 <= j < |item.content.questions|
    ensures var q := item.content.questions[j];
            IntToString(q.correctOrder) in Revealed(client.content.questions)
            <==> !IsNullOrEmpty(q.playerAnswer)
  {
    var qs := item.content.questions;
    var cs := client.content.questions;
    forall i | 0 <= i < |qs| ensures ShowsPosition(qs[i], cs[i]) {
      ShownPosition(qs[i], cs[i]);
    }
    PositionRevealedIffAnswered(qs, cs, j);
  }

  /** The client view `c` of an ordering question shows a correct answer exactly when the
      question is answered, and that answer is the question's position. */
  predicate ShowsPosition(q: Question, c: QuestionToClient) {
    && q.OrderingQuestion?
    && (Truthy(c.correctAnswer) <==> !IsNullOrEmpty(q.playerAnswer))
    && (Truthy(c.correctAnswer) ==> c.correctAnswer.value == IntToString(q.correctOrder))
  }

  lemma PositionRevealedIffAnswered(qs: seq<Question>, cs: seq<QuestionToClient>, j: int)
    requires |cs| == |qs| && 0 <= j < |qs| && DistinctPositions(qs)
    requires forall i :: 0 <= i < |qs| ==> ShowsPosition(qs[i], cs[i])
    ensures IntToString(qs[j].correctOrder) in Revealed(cs) <==> !IsNullOrEmpty(qs[j].playerAnswer)
  {
    var w := IntToString(qs[j].correctOrder);
    assert ShowsPosition(qs[j], cs[j]);
    if !IsNullOrEmpty(qs[j].playerAnswer) {
      assert Truthy(cs[j].correctAnswer) && cs[j].correctAnswer.value == w;
    }
    if w in Revealed(cs) {
      var i :| 0 <= i < |cs| && Truthy(cs[i].correctAnswer) && cs[i].correctAnswer.value == w;
      assert ShowsPosition(qs[i], cs[i]);
      IntToStringInjective(qs[i].correctOrder, qs[j].correctOrder);
      SamePositionSameQuestion(qs, i, j);
    }
  }

  /** Distinct positions identify their question. */
  lemma SamePositionSameQuestion(qs: seq<Question>, i: int, j: int)
    requires DistinctPositions(qs) && 0 <= i < |qs| && 0 <= j < |qs|
    requires qs[i].correctOrder == qs[j].correctOrder
    ensures i == j
  {
  }

  /** An ordering question's client view shows its position exactly when it is answered. */
  lemma ShownPosition(q: Question, c: QuestionToClient)
    requires q.OrderingQuestion? && Success(c) == q.ToClient()
    ensures ShowsPosition(q, c)
  {
  }

  /** For an ordering item with distinct positions, the grid offers the position of a
      question exactly while that question is open. */
  lemma OpenQuestionsKeepTheirPosition(item: DomainItem, client: ClientItem, j: int)
    requires ViewOf(client, item) && item.questionType == Ordering
    requires DistinctPositions(item.content.questions)
    requires 0 <= j < |item.content.questions|
    ensures var q := item.content.questions[j];
            && Options(client).Some?
            && (IntToString(q.correctOrder) in Options(client).value
                <==> IsNullOrEmpty(q.playerAnswer))
  {
    var q := item.content.questions[j];
    var n := |item.content.questions|;
    var answered := Revealed(client.content.questions);
    var ks := KeptPositions(n, answered);
    OrderingOptions(client);
    RevealedIffAnswered(item, client, j);
    var w := IntToString(q.correctOrder);
    if w in Writings(ks) {
      var m :| 0 <= m < |ks| && Writings(ks)[m] == w;
      IntToStringInjective(ks[m], q.correctOrder);
    }
  }

  /** An offered ordering option is accepted exactly when it is the question's position. */
  lemma OfferedPositionIsJudgedByOrder(q: Question, k: int)
    requires q.OrderingQuestion? && 1 <= k <= Int32Max
    ensures q.CheckAnswer(IntToString(k)) == Success(k == q.correctOrder)
  {
    ParseIntOfIntToString(k);
  }

  /** Of the two true/false options exactly the one naming the question's truth is
      accepted. */
  lemma TrueOrFalseOptionsDecide(q: Question)
    requires q.TrueOrFalseQuestion?
    ensures q.CheckAnswer("True") == Success(q.correctTruth)
    ensures q.CheckAnswer("False") == Success(!q.correctTruth)
  {
    TrueParses();
    FalseParses();
  }

  /** In every view the server sends, a card takes an answer exactly when the server still
      has the slot open: the server never stores the empty answer, so a shown answer means a
      filled slot. */
  lemma CardOpenIffSlotOpen(s: ServerGame.SessionState, allowed: bool, i: int)
    requires s.Valid() && s.current.Some? && 0 <= i < |s.current.value.content.questions|
    ensures var client := ServerGame.ToClientItem(s.current.value);
            client.Success? ==>
              (AllowedToAnswer(allowed, client.value.content.questions[i])
               <==> allowed && s.current.value.content.questions[i].playerAnswer.None?)
  {
    var q := s.current.value.content.questions[i];
    assert q.playerAnswer != Some("");
  }

  // ---------------------------------------------------------------------------------------
  // The items the servers draw from a validated bank

  /** The stored questions of a valid ordering item map to questions with distinct
      positions in 1..n. */
  lemma ValidOrderingQuestionsHaveDistinctPositions(d: StoredItem)
    requires Validation.BackendValid(d) && d.questionType == Ordering
    ensures ItemMapper.MapQuestions(Ordering, d.content.questions).Success?
    ensures DistinctPositions(ItemMapper.MapQuestions(Ordering, d.content.questions).value)
  {
    var qs := d.content.questions;
    var answers := Validation.OrderingAnswers(qs);
    var mapped := ItemMapper.MapQuestions(Ordering, qs).value;
    forall i | 0 <= i < |qs| ensures mapped[i].OrderingQuestion? && mapped[i].correctOrder == answers[i] {
      assert Success(mapped[i]) == ItemMapper.MapQuestion(Ordering, qs[i]);
    }
    forall i | 0 <= i < |qs| ensures 1 <= answers[i] <= |qs| {
      assert Lists.Min(answers) <= answers[i] <= Lists.Max(answers);
    }
  }

  /** Rearranging a list of questions keeps the positions distinct and in range. */
  lemma SameMultisetKeepsPositions(a: seq<Question>, b: seq<Question>)
    requires multiset(a) == multiset(b) && DistinctPositions(b)
    ensures DistinctPositions(a)
  {
    assert |a| == |multiset(a)| == |multiset(b)| == |b|;
    assert Lists.NoDuplicates(b);
    forall i | 0 <= i < |a| ensures a[i] in b {
      Lists.SameMultisetSameMembers(a, b, a[i]);
    }
    forall i, j | 0 <= i < j < |a| ensures a[i].correctOrder != a[j].correctOrder {
      var k :| 0 <= k < |b| && b[k] == a[i];
      var l :| 0 <= l < |b| && b[l] == a[j];
      if k == l {
        Lists.RepeatedElementCount(a, i, j);
        Lists.MultisetOfDistinct(b, a[i]);
      }
    }
  }

  /** The backend's item drawn from a valid ordering item has distinct positions. */
  lemma BackendOrderingItemHasDistinctPositions(d: StoredItem)
    requires Validation.BackendValid(d) && d.questionType == Ordering
    ensures BackendGame.Map(d).Success?
    ensures DistinctPositions(BackendGame.Map(d).value.content.questions)
  {
    ValidOrderingQuestionsHaveDistinctPositions(d);
  }

  /** The server's item drawn from a valid ordering item has distinct positions, whatever
      order the shuffle put its questions in. */
  lemma ServerOrderingItemHasDistinctPositions(d: StoredItem, rolls: seq<nat>)
    requires Validation.BackendValid(d) && d.questionType == Ordering
    ensures ItemMapper.Map(d, rolls).Success?
    ensures DistinctPositions(ItemMapper.Map(d, rolls).value.content.questions)
  {
    ValidOrderingQuestionsHaveDistinctPositions(d);
    SameMultisetKeepsPositions(ItemMapper.Map(d, rolls).value.content.questions,
                               ItemMapper.MapQuestions(Ordering, d.content.questions).value);
  }

  /** On the server, a multiple-choice item drawn from a valid item can be shown; its options
      are the stored options, and hold the correct choice of every question. */
  lemma ServerOffersEveryCorrectChoice(d: StoredItem, rolls: seq<nat>)
    requires Validation.BackendValid(d) && d.questionType == MultipleChoice
    ensures ItemMapper.Map(d, rolls).Success?
    ensures var item := ItemMapper.Map(d, rolls).value;
            var client := ServerGame.ToClientItem(item);
            && client.Success?
            && var options := Options(client.value);
               && options == d.content.correctAnswers && options.Some?
               && forall i :: 0 <= i < |item.content.questions| ==>
                    && item.content.questions[i].MultipleChoiceQuestion?
                    && item.content.questions[i].correctChoice.Some?
                    && item.content.questions[i].correctChoice.value in options.value
  {
    Validation.ValidMultipleChoiceAnswersAreOptions(d);
    var item := ItemMapper.Map(d, rolls).value;
    UnansweredShows(item);
    var qs := d.content.questions;
    var mapped := ItemMapper.MapQuestions(MultipleChoice, qs).value;
    forall i | 0 <= i < |item.content.questions|
      ensures item.content.questions[i].MultipleChoiceQuestion?
      ensures item.content.questions[i].correctChoice.Some?
      ensures item.content.questions[i].correctChoice.value in d.content.correctAnswers.value
    {
      var q := item.content.questions[i];
      Lists.SameMultisetSameMembers(item.content.questions, mapped, q);
      var k :| 0 <= k < |mapped| && mapped[k] == q;
      assert Success(mapped[k]) == ItemMapper.MapQuestion(MultipleChoice, qs[k]);
    }
  }

  /** The backend leaves the options out of the items it sends, so the grid offers no
      choices for a multiple-choice item of the backend. */
  lemma BackendOffersNoChoices(d: StoredItem)
    requires d.questionType == MultipleChoice
    ensures BackendGame.Map(d).Success? ==>
              var client := BackendGame.ToClientItem(BackendGame.Map(d).value);
              client.Success? && Options(client.value).None?
  {
    if BackendGame.Map(d).Success? {
      UnansweredShows(BackendGame.Map(d).value);
    }
  }
}

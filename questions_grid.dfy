/** The client's question grid: the answer options offered for the current item, which card
    may take an answer, and which card is active. The grid sees the item as the server sent
    it, with the revealed correct answer of every answered question. */
module QuestionsGrid {
  import opened Wrappers
  import opened DotNetText
  import opened TriviaTypes
  import opened Questions

  /** `TriviaItemForClient`. */
  type ClientItem = TriviaItem<QuestionToClient>

  /** JavaScript truthiness of a string that may be missing: present and not empty. */
  predicate Truthy(s: Option<string>) {
    s.Some? && s.value != ""
  }

  /** `new Set(questions.map(q => q.correctAnswer).filter(Boolean))`: the correct answers
      already revealed. */
  function Revealed(qs: seq<QuestionToClient>): (r: set<string>)
    ensures forall i :: 0 <= i < |qs| && Truthy(qs[i].correctAnswer) ==>
              qs[i].correctAnswer.value in r
    ensures forall x :: x in r ==>
              exists i :: 0 <= i < |qs| && Truthy(qs[i].correctAnswer)
                          && qs[i].correctAnswer.value == x
  {
    set i | 0 <= i < |qs| && Truthy(qs[i].correctAnswer) :: qs[i].correctAnswer.value
  }

  /** `Array.from({ length: n }, (_, i) => `${i + 1}`)`: the texts "1" to "n". */
  function Positions(n: nat): (r: seq<string>)
    ensures |r| == n && forall i :: 0 <= i < n ==> r[i] == IntToString(i + 1)
  {
    seq(n, i requires 0 <= i < n => IntToString(i + 1))
  }

  /** `.filter(o => !answered.has(o))`: the entries not yet revealed, in their order. */
  function Unrevealed(xs: seq<string>, answered: set<string>): (r: seq<string>)
    ensures |r| <= |xs|
    ensures forall x :: x in r <==> x in xs && x !in answered
  {
    if xs == [] then []
    else
      var last := xs[|xs| - 1];
      var init := Unrevealed(xs[..|xs| - 1], answered);
      assert forall x :: x in xs <==> x in xs[..|xs| - 1] || x == last by {
        assert xs == xs[..|xs| - 1] + [last];
      }
      if last in answered then init else init + [last]
  }

  /** The `switch` on the item's type: the options of a multiple-choice item are its
      `correctAnswers` (the `!` assertion does nothing at run time, so a missing list stays
      missing); a true/false item offers "True" and "False"; an ordering item offers the
      positions 1..n that no answered question has revealed; fill in the blank offers
      nothing. */
  function Options(item: ClientItem): (r: Option<seq<string>>)
    ensures item.questionType == MultipleChoice ==> r == item.content.correctAnswers
    ensures item.questionType == TrueOrFalse ==> r == Some(["True", "False"])
    ensures item.questionType == FillInTheBlank ==> r.None?
    ensures item.questionType == Ordering ==>
              && r.Some? && |r.value| <= |item.content.questions|
              && forall x :: x in r.value <==>
                   x in Positions(|item.content.questions|)
                   && x !in Revealed(item.content.questions)
  {
    match item.questionType
    case MultipleChoice => item.content.correctAnswers
    case TrueOrFalse => Some(["True", "False"])
    case Ordering =>
      var answered := Revealed(item.content.questions);
      Some(Unrevealed(Positions(|item.content.questions|), answered))
    case FillInTheBlank => None
  }

  /** `allowedToAnswer && !q.playerAnswer`: a card takes an answer when the player may
      answer and the question shows no answer (missing or empty). */
  function AllowedToAnswer(allowedToAnswer: bool, q: QuestionToClient): (r: bool)
    ensures r <==> allowedToAnswer && !Truthy(q.playerAnswer)
  {
    allowedToAnswer && !(q.playerAnswer.Some? && q.playerAnswer.value != "")
  }

  /** `activeIndex === index || activeIndex === null`. */
  function IsActive(activeIndex: Option<nat>, index: nat): (r: bool)
    ensures activeIndex.None? ==> r
    ensures activeIndex.Some? ==> (r <==> index == activeIndex.value)
  {
    activeIndex == Some(index) || activeIndex == None
  }

  // ---------------------------------------------------------------------------------------
  // Properties

  /** Every card is active while none is chosen; otherwise only the chosen one. */
  lemma AtMostTheChosenCardIsActive(activeIndex: Option<nat>, i: nat, j: nat)
    requires activeIndex.Some? && IsActive(activeIndex, i) && IsActive(activeIndex, j)
    ensures i == j
  {
  }

  /** An independent account of the ordering options: the positions 1..n, as numbers, whose
      writing has not been revealed, in ascending order. */
  function KeptPositions(n: nat, answered: set<string>): (ks: seq<int>)
    ensures forall i :: 0 <= i < |ks| ==> 1 <= ks[i] <= n && IntToString(ks[i]) !in answered
    ensures forall i, j :: 0 <= i < j < |ks| ==> ks[i] < ks[j]
    ensures forall k :: 1 <= k <= n && IntToString(k) !in answered ==> k in ks
  {
    if n == 0 then []
    else
      var init := KeptPositions(n - 1, answered);
      if IntToString(n) in answered then init else init + [n]
  }

  /** The decimal writings of a list of numbers. */
  function Writings(ks: seq<int>): (r: seq<string>)
    ensures |r| == |ks| && forall i :: 0 <= i < |ks| ==> r[i] == IntToString(ks[i])
  {
    seq(|ks|, i requires 0 <= i < |ks| => IntToString(ks[i]))
  }

  /** Filtering the texts "1".."n" is writing out the kept positions. */
  lemma {:induction false} UnrevealedPositionsAreKept(n: nat, answered: set<string>)
    ensures Unrevealed(Positions(n), answered) == Writings(KeptPositions(n, answered))
  {
    if n > 0 {
      var w := IntToString(n);
      PositionsSnoc(n);
      UnrevealedSnoc(Positions(n - 1), w, answered);
      UnrevealedPositionsAreKept(n - 1, answered);
      WritingsSnoc(KeptPositions(n - 1, answered), n);
    }
  }

  lemma PositionsSnoc(n: nat)
    requires n > 0
    ensures Positions(n) == Positions(n - 1) + [IntToString(n)]
  {
  }

  lemma UnrevealedSnoc(xs: seq<string>, x: string, answered: set<string>)
    ensures Unrevealed(xs + [x], answered)
            == if x in answered then Unrevealed(xs, answered) else Unrevealed(xs, answered) + [x]
  {
    assert (xs + [x])[..|xs|] == xs;
  }

  lemma WritingsSnoc(ks: seq<int>, k: int)
    ensures Writings(ks + [k]) == Writings(ks) + [IntToString(k)]
  {
  }

  /** The ordering options are the writings of the positions 1..n not yet revealed, in
      ascending order. */
  lemma OrderingOptions(item: ClientItem)
    requires item.questionType == Ordering
    ensures Options(item) ==
              Some(Writings(KeptPositions(|item.content.questions|,
                                          Revealed(item.content.questions))))
  {
    UnrevealedPositionsAreKept(|item.content.questions|, Revealed(item.content.questions));
  }
}

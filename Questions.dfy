/**
 * The warm-up question table of the grammar session. Only what the
 * session logic reads of each question is kept: its number, how many
 * options it offers and the index of the correct option.
 */
module Questions {

  datatype Question = Question(id: nat, optionCount: nat, correct: nat)

  /** The ten warm-up questions, in the order they are shown. */
  const WarmUpQuestions: seq<Question> := [
    Question(1, 4, 2),
    Question(2, 4, 0),
    Question(3, 4, 3),
    Question(4, 4, 1),
    Question(5, 4, 0),
    Question(6, 4, 1),
    Question(7, 4, 1),
    Question(8, 4, 2),
    Question(9, 4, 1),
    Question(10, 4, 0)
  ]

  /** The hard-coded index of the last question, used by the "Next" button. */
  const LastIndex: int := 9

  /** A question is well formed when its correct index names one of its options. */
  predicate WellFormed(q: Question) {
    q.correct < q.optionCount
  }

  /**
   * The table holds ten well-formed four-option questions numbered 1..10,
   * and the hard-coded last index is exactly the table's last position.
   */
  lemma WarmUpTableWellFormed()
    ensures |WarmUpQuestions| == 10 && LastIndex == |WarmUpQuestions| - 1
    ensures forall i :: 0 <= i < |WarmUpQuestions| ==>
      WellFormed(WarmUpQuestions[i]) && WarmUpQuestions[i].optionCount == 4 && WarmUpQuestions[i].id == i + 1
  {
  }
}

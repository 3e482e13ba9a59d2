/**
 * How a warm-up option button is shown: green when it is the recorded
 * answer and correct, red when it is the recorded answer and wrong, light
 * green when the explanation is open and it is the correct option, and
 * plain otherwise.
 */
module AnswerDisplay {
  import opened Optional

  datatype Style = SelectedCorrect | SelectedWrong | RevealedCorrect | Neutral

  /** The option is highlighted as the right answer (either shade of green). */
  predicate IsGreen(st: Style) {
    st.SelectedCorrect? || st.RevealedCorrect?
  }

  /** The option is the one the recorded answer names. */
  predicate IsSelected(st: Style) {
    st.SelectedCorrect? || st.SelectedWrong?
  }

  /**
   * The style of option `option` of a question whose correct option is
   * `correct`, given the answer recorded for the question (if any) and
   * whether the explanation is open.
   */
  function Classify(recorded: Option<int>, option: int, correct: int, showExplanation: bool): (st: Style)
    ensures IsSelected(st) <==> recorded == Some(option)
    ensures IsGreen(st) ==> option == correct
    ensures st.SelectedWrong? ==> option != correct
    ensures st.RevealedCorrect? <==> showExplanation && option == correct && recorded != Some(option)
  {
    if recorded == Some(option) then
      if option == correct then SelectedCorrect else SelectedWrong
    else if showExplanation && option == correct then RevealedCorrect
    else Neutral
  }

  /**
   * Across the options of one question: only the recorded option is shown
   * as selected, and the correct option is green exactly when the
   * explanation is open or it was the answer chosen.
   */
  lemma QuestionStyles(recorded: Option<int>, correct: int, showExplanation: bool)
    ensures forall i, j ::
      IsSelected(Classify(recorded, i, correct, showExplanation)) ==>
      IsSelected(Classify(recorded, j, correct, showExplanation)) ==> i == j
    ensures forall i ::
      (IsGreen(Classify(recorded, i, correct, showExplanation))
       <==> i == correct && (showExplanation || recorded == Some(correct)))
    ensures forall i ::
      (Classify(recorded, i, correct, showExplanation).SelectedWrong?
       <==> recorded == Some(i) && i != correct)
  {
  }

  /**
   * Once an answer is recorded and the explanation is open, the chosen
   * option is shown as selected and the correct option is green, whether
   * or not the two are the same.
   */
  lemma AnsweredQuestionShowsKey(answer: int, correct: int)
    ensures IsSelected(Classify(Some(answer), answer, correct, true))
    ensures IsGreen(Classify(Some(answer), correct, correct, true))
    ensures Classify(Some(answer), answer, correct, true) == SelectedCorrect <==> answer == correct
  {
  }
}

/**
 * The grammar session component as an object: its five state cells are
 * fields, and each click handler or timer firing is a method that
 * overwrites them. Every method states its new fields outright, is tied
 * to the matching `Session.Step` and keeps `Valid()` on every call. The
 * lemmas of module `Session` guarded by `Admissible` cover the call
 * sequences whose events are `Enabled`; a `Retreat` on question 0, which
 * the class accepts, is outside them.
 */
module Controller {
  import opened Optional
  import opened Questions
  import opened Countdown
  import opened TimeFormat
  import opened AnswerDisplay
  import opened Session

  class GrammarSession {
    var currentSection: Section
    var currentQuestion: int
    var answers: map<int, int>
    var timeLeft: Option<int>
    var showExplanation: bool

    /** The five state cells as one value. */
    function Snapshot(): State
      reads this
    {
      State(currentSection, currentQuestion, answers, timeLeft, showExplanation)
    }

    ghost predicate Valid()
      reads this
    {
      Inv(Snapshot())
    }

    /** The component as mounted: overview, question 0, no answers, no clock, explanation closed. */
    constructor ()
      ensures Valid()
      ensures currentSection == Overview && currentQuestion == 0 && answers == map[]
      ensures timeLeft == None && !showExplanation
      ensures Snapshot() == Initial
    {
      currentSection := Overview;
      currentQuestion := 0;
      answers := map[];
      timeLeft := None;
      showExplanation := false;
    }

    /** The "Grammar Warm-Up" card: open the warm-up and start a 15-minute clock. */
    method GoWarmup()
      requires Valid() && currentSection == Overview
      modifies this
      ensures Valid()
      ensures currentSection == Warmup && timeLeft == Some(WarmUpSeconds)
      ensures currentQuestion == old(currentQuestion) == 0
      ensures answers == old(answers) && showExplanation == old(showExplanation)
      ensures Snapshot() == Step(old(Snapshot()), OverviewToWarmup)
    {
      currentSection := Warmup;
      timeLeft := Some(15 * 60);
    }

    /** The "Core Grammar Drills" card: open the drills; the clock is not touched. */
    method GoDomains()
      requires Valid() && currentSection == Overview
      modifies this
      ensures Valid()
      ensures currentSection == Domains
      ensures currentQuestion == old(currentQuestion) && answers == old(answers)
      ensures timeLeft == old(timeLeft) && showExplanation == old(showExplanation)
      ensures Snapshot() == Step(old(Snapshot()), OverviewToDomains)
    {
      currentSection := Domains;
    }

    /** The "Speed Challenge" card: open the speed challenge and start a 20-minute clock. */
    method GoSpeed()
      requires Valid() && currentSection == Overview
      modifies this
      ensures Valid()
      ensures currentSection == Speed && timeLeft == Some(SpeedSeconds)
      ensures currentQuestion == old(currentQuestion) && answers == old(answers)
      ensures showExplanation == old(showExplanation)
      ensures Snapshot() == Step(old(Snapshot()), OverviewToSpeed)
    {
      currentSection := Speed;
      timeLeft := Some(20 * 60);
    }

    /** The "Error Analysis" card: open the mistakes section; the clock is not touched. */
    method GoMistakes()
      requires Valid() && currentSection == Overview
      modifies this
      ensures Valid()
      ensures currentSection == Mistakes
      ensures currentQuestion == old(currentQuestion) && answers == old(answers)
      ensures timeLeft == old(timeLeft) && showExplanation == old(showExplanation)
      ensures Snapshot() == Step(old(Snapshot()), OverviewToMistakes)
    {
      currentSection := Mistakes;
    }

    /**
     * An option button of the current warm-up question: record `idx` as the
     * answer to the question on screen (replacing an earlier choice) and
     * open the explanation. No other answer changes.
     */
    method SelectAnswer(idx: int)
      requires Valid() && currentSection == Warmup
      requires 0 <= idx < WarmUpQuestions[currentQuestion].optionCount
      modifies this
      ensures Valid()
      ensures currentQuestion in answers && answers[currentQuestion] == idx && showExplanation
      ensures answers == old(answers)[currentQuestion := idx]
      ensures forall k :: k in old(answers) && k != currentQuestion ==> k in answers && answers[k] == old(answers)[k]
      ensures answers.Keys == old(answers).Keys + {currentQuestion}
      ensures currentSection == old(currentSection) && currentQuestion == old(currentQuestion)
      ensures timeLeft == old(timeLeft)
      ensures Snapshot() == Step(old(Snapshot()), Choose(idx))
    {
      answers := answers[currentQuestion := idx];
      showExplanation := true;
    }

    /** "← Previous": go back one question, never before the first, and close the explanation. */
    method Retreat()
      requires Valid() && currentSection == Warmup
      modifies this
      ensures Valid()
      ensures currentQuestion == (if old(currentQuestion) == 0 then 0 else old(currentQuestion) - 1)
      ensures !showExplanation
      ensures currentSection == old(currentSection) && answers == old(answers) && timeLeft == old(timeLeft)
      ensures Snapshot() == Step(old(Snapshot()), Previous)
    {
      currentQuestion := Max(0, currentQuestion - 1);
      showExplanation := false;
    }

    /**
     * "Next →": before the last question, move on one question and close
     * the explanation; on the last question, go to the drills and back to
     * question 0, leaving the explanation flag as it was.
     */
    method Advance()
      requires Valid() && currentSection == Warmup
      modifies this
      ensures Valid()
      ensures old(currentQuestion) < LastIndex ==>
        currentSection == Warmup && currentQuestion == old(currentQuestion) + 1 && !showExplanation
      ensures old(currentQuestion) == LastIndex ==>
        currentSection == Domains && currentQuestion == 0 && showExplanation == old(showExplanation)
      ensures answers == old(answers) && timeLeft == old(timeLeft)
      ensures Snapshot() == Step(old(Snapshot()), Next)
    {
      if currentQuestion < 9 {
        currentQuestion := currentQuestion + 1;
        showExplanation := false;
      } else {
        currentSection := Domains;
        currentQuestion := 0;
      }
    }

    /** "Continue to Speed Challenge": the speed section opens on the clock as it stands. */
    method NextFromDomains()
      requires Valid() && currentSection == Domains
      modifies this
      ensures Valid()
      ensures currentSection == Speed
      ensures currentQuestion == old(currentQuestion) && answers == old(answers)
      ensures timeLeft == old(timeLeft) && showExplanation == old(showExplanation)
      ensures Snapshot() == Step(old(Snapshot()), DomainsToSpeed)
    {
      currentSection := Speed;
    }

    /** "Continue to Error Analysis". */
    method NextFromSpeed()
      requires Valid() && currentSection == Speed
      modifies this
      ensures Valid()
      ensures currentSection == Mistakes
      ensures currentQuestion == old(currentQuestion) && answers == old(answers)
      ensures timeLeft == old(timeLeft) && showExplanation == old(showExplanation)
      ensures Snapshot() == Step(old(Snapshot()), SpeedToMistakes)
    {
      currentSection := Mistakes;
    }

    /** "Back to Overview". */
    method BackToOverview()
      requires Valid() && currentSection == Mistakes
      modifies this
      ensures Valid()
      ensures currentSection == Overview
      ensures currentQuestion == old(currentQuestion) && answers == old(answers)
      ensures timeLeft == old(timeLeft) && showExplanation == old(showExplanation)
      ensures Snapshot() == Step(old(Snapshot()), MistakesToOverview)
    {
      currentSection := Overview;
    }

    /** One second of the countdown: a null or expired clock stays as it is, a running one loses a second. */
    method Tick()
      requires Valid()
      modifies this
      ensures Valid()
      ensures old(timeLeft) == None || old(timeLeft) == Some(0) ==> timeLeft == old(timeLeft)
      ensures old(timeLeft).Some? && old(timeLeft).value > 0 ==> timeLeft == Some(old(timeLeft).value - 1)
      ensures timeLeft.Some? ==> timeLeft.value >= 0
      ensures currentSection == old(currentSection) && currentQuestion == old(currentQuestion)
      ensures answers == old(answers) && showExplanation == old(showExplanation)
      ensures Snapshot() == Step(old(Snapshot()), Second)
    {
      match timeLeft
      case None =>
      case Some(t) =>
        if t != 0 {
          timeLeft := Some(t - 1);
        }
    }

    /**
     * The clock in the page header: nothing while no timed section has been
     * entered, otherwise the `m:ss` text, which reads back as the seconds left.
     */
    method ClockText() returns (text: Option<string>)
      requires Valid()
      ensures text.None? <==> timeLeft.None?
      ensures text.Some? ==> timeLeft.Some? && ParseTime(text.value) == Some(timeLeft.value as nat)
    {
      match timeLeft
      case None =>
        text := None;
      case Some(t) =>
        FormatTimeRoundTrip(t);
        text := Some(FormatTime(t));
    }

    /**
     * How option `idx` of the question on screen is drawn: it is shown as
     * chosen exactly when it is the recorded answer, green when chosen and
     * correct, red when chosen and wrong, and revealed when the explanation
     * is open on an unchosen correct option.
     */
    method OptionStyle(idx: int) returns (st: Style)
      requires Valid() && currentSection == Warmup
      requires 0 <= idx < WarmUpQuestions[currentQuestion].optionCount
      ensures IsSelected(st) <==> Recorded(Snapshot()) == Some(idx)
      ensures IsGreen(st) ==> idx == WarmUpQuestions[currentQuestion].correct
      ensures st.SelectedCorrect? <==>
        Recorded(Snapshot()) == Some(idx) && idx == WarmUpQuestions[currentQuestion].correct
      ensures st.SelectedWrong? <==>
        Recorded(Snapshot()) == Some(idx) && idx != WarmUpQuestions[currentQuestion].correct
      ensures st.RevealedCorrect? <==>
        showExplanation && idx == WarmUpQuestions[currentQuestion].correct && Recorded(Snapshot()) != Some(idx)
    {
      st := Classify(Recorded(Snapshot()), idx, WarmUpQuestions[currentQuestion].correct, showExplanation);
    }
  }
}

/**
 * The session as a state machine over the component's five state cells.
 * Every click handler and the one-second timer callback is an `Event`;
 * `Step` is what the handler does to the state, and `Enabled` says when
 * the button that fires it is on screen (each section renders only its
 * own buttons).
 */
module Session {
  import opened Optional
  import opened Questions
  import opened Countdown
  import opened AnswerDisplay

  datatype Section = Overview | Warmup | Domains | Speed | Mistakes

  datatype State = State(
    section: Section,
    question: int,
    answers: map<int, int>,
    timeLeft: Option<int>,
    showExplanation: bool)

  /** The state when the page is mounted. */
  const Initial: State := State(Overview, 0, map[], None, false)

  datatype Event =
    | OverviewToWarmup     // "Grammar Warm-Up" card
    | OverviewToDomains    // "Core Grammar Drills" card
    | OverviewToSpeed      // "Speed Challenge" card
    | OverviewToMistakes   // "Error Analysis" card
    | Choose(option: int)  // an option button of the current question
    | Previous             // "← Previous"
    | Next                 // "Next →" / "Continue to Drills"
    | DomainsToSpeed       // "Continue to Speed Challenge"
    | SpeedToMistakes      // "Continue to Error Analysis"
    | MistakesToOverview   // "Back to Overview"
    | Second               // one firing of the countdown interval

  function Max(a: int, b: int): int {
    if a >= b then a else b
  }

  /** The answer recorded for the question on screen, if there is one. */
  function Recorded(s: State): (r: Option<int>)
    ensures r.Some? <==> s.question in s.answers
    ensures r.Some? ==> r.value == s.answers[s.question]
  {
    if s.question in s.answers then Some(s.answers[s.question]) else None
  }

  /**
   * What each handler does to the state. Only "Previous" and "Next" move
   * the question pointer. The option and "Previous" buttons and the timer
   * never change the section, and every other button on screen does
   * except "Next" before the last question. Only the option, "Previous"
   * and "Next" buttons touch the explanation flag.
   */
  function Step(s: State, e: Event): (r: State)
    ensures r.question != s.question ==> e.Previous? || e.Next?
    ensures r.section != s.section ==> !(e.Choose? || e.Previous? || e.Second?)
    ensures Enabled(s, e) && r.section == s.section ==> e.Choose? || e.Previous? || e.Next? || e.Second?
    ensures r.showExplanation != s.showExplanation ==> e.Choose? || e.Previous? || e.Next?
  {
    match e
    case OverviewToWarmup => s.(section := Warmup, timeLeft := Some(WarmUpSeconds))
    case OverviewToDomains => s.(section := Domains)
    case OverviewToSpeed => s.(section := Speed, timeLeft := Some(SpeedSeconds))
    case OverviewToMistakes => s.(section := Mistakes)
    case Choose(option) => s.(answers := s.answers[s.question := option], showExplanation := true)
    case Previous => s.(question := Max(0, s.question - 1), showExplanation := false)
    case Next =>
      if s.question < LastIndex then s.(question := s.question + 1, showExplanation := false)
      else s.(section := Domains, question := 0)
    case DomainsToSpeed => s.(section := Speed)
    case SpeedToMistakes => s.(section := Mistakes)
    case MistakesToOverview => s.(section := Overview)
    case Second => s.(timeLeft := TickValue(s.timeLeft))
  }

  /**
   * The event's button is on screen and clickable: the four cards on the
   * overview, the option buttons (one per option of the current question),
   * "Previous" (disabled on the first question) and "Next" in the warm-up,
   * and one "continue" button in each other section. The timer may fire
   * at any time.
   */
  predicate Enabled(s: State, e: Event) {
    match e
    case OverviewToWarmup => s.section == Overview
    case OverviewToDomains => s.section == Overview
    case OverviewToSpeed => s.section == Overview
    case OverviewToMistakes => s.section == Overview
    case Choose(option) =>
      s.section == Warmup && 0 <= s.question < |WarmUpQuestions|
      && 0 <= option < WarmUpQuestions[s.question].optionCount
    case Previous => s.section == Warmup && s.question != 0
    case Next => s.section == Warmup
    case DomainsToSpeed => s.section == Domains
    case SpeedToMistakes => s.section == Speed
    case MistakesToOverview => s.section == Mistakes
    case Second => true
  }

  /**
   * The session invariant: the question pointer indexes the question table,
   * it is 0 outside the warm-up, a started clock is between 0 and the
   * longest section time, and every recorded answer is an option of a
   * question of the table.
   */
  predicate Inv(s: State) {
    && 0 <= s.question < |WarmUpQuestions|
    && (s.section != Warmup ==> s.question == 0)
    && (s.timeLeft.Some? ==> 0 <= s.timeLeft.value <= SpeedSeconds)
    && (forall k :: k in s.answers ==>
          0 <= k < |WarmUpQuestions| && 0 <= s.answers[k] < WarmUpQuestions[k].optionCount)
  }

  /** The state after a sequence of events. */
  function Run(s: State, events: seq<Event>): State
    decreases |events|
  {
    if events == [] then s else Run(Step(s, events[0]), events[1..])
  }

  /** Every event of the sequence is enabled when it happens. */
  predicate Admissible(s: State, events: seq<Event>)
    decreases |events|
  {
    events == [] || (Enabled(s, events[0]) && Admissible(Step(s, events[0]), events[1..]))
  }

  /** The section graph: the overview opens every section, the others form the chain warm-up, drills, speed, mistakes, overview. */
  predicate Edge(from: Section, to: Section) {
    || (from == Overview && to != Overview)
    || (from == Warmup && to == Domains)
    || (from == Domains && to == Speed)
    || (from == Speed && to == Mistakes)
    || (from == Mistakes && to == Overview)
  }

  // ---------------------------------------------------------------------
  // The invariant
  // ---------------------------------------------------------------------

  lemma InitialInv()
    ensures Inv(Initial)
  {
  }

  /** Every enabled event keeps the invariant. */
  lemma StepPreservesInv(s: State, e: Event)
    requires Inv(s) && Enabled(s, e)
    ensures Inv(Step(s, e))
  {
    if e.Choose? {
      var t := Step(s, e);
      forall k | k in t.answers
        ensures 0 <= k < |WarmUpQuestions| && 0 <= t.answers[k] < WarmUpQuestions[k].optionCount
      {
      }
    }
  }

  /** Every state reached by clicking through the page satisfies the invariant. */
  lemma {:induction false} RunPreservesInv(s: State, events: seq<Event>)
    requires Inv(s) && Admissible(s, events)
    ensures Inv(Run(s, events))
    decreases |events|
  {
    if events != [] {
      StepPreservesInv(s, events[0]);
      RunPreservesInv(Step(s, events[0]), events[1..]);
    }
  }

  /** In every reachable warm-up state the question on screen and its options are in the table. */
  lemma ReachableQuestionInBounds(events: seq<Event>)
    requires Admissible(Initial, events)
    ensures 0 <= Run(Initial, events).question < |WarmUpQuestions|
    ensures Recorded(Run(Initial, events)).Some? ==>
      0 <= Recorded(Run(Initial, events)).value < WarmUpQuestions[Run(Initial, events).question].optionCount
  {
    RunPreservesInv(Initial, events);
  }

  // ---------------------------------------------------------------------
  // Navigation
  // ---------------------------------------------------------------------

  /** Every enabled event either stays in its section or follows an edge of the section graph. */
  lemma StepFollowsEdges(s: State, e: Event)
    requires Enabled(s, e)
    ensures Step(s, e).section == s.section || Edge(s.section, Step(s, e).section)
  {
  }

  /** Every edge of the section graph is taken by some enabled event from some valid state. */
  lemma EdgesAreTaken(from: Section, to: Section)
    requires Edge(from, to)
    ensures exists s, e :: Inv(s) && s.section == from && Enabled(s, e) && Step(s, e).section == to
  {
    var s := Initial.(section := from, question := if from == Warmup then LastIndex else 0);
    var e := match to
      case Warmup => OverviewToWarmup
      case Domains => if from == Overview then OverviewToDomains else Next
      case Speed => if from == Overview then OverviewToSpeed else DomainsToSpeed
      case Mistakes => if from == Overview then OverviewToMistakes else SpeedToMistakes
      case Overview => MistakesToOverview;
    assert Inv(s) && Enabled(s, e) && Step(s, e).section == to;
  }

  /** "Previous" never moves before the first question, and clears the explanation. */
  lemma PreviousClamps(s: State)
    ensures Step(s, Previous).question == (if s.question >= 1 then s.question - 1 else 0)
    ensures !Step(s, Previous).showExplanation
  {
  }

  /** "Next" on the last question leaves the warm-up for the drills, keeping the answers and the explanation flag. */
  lemma NextFromLastQuestion(s: State)
    requires s.section == Warmup && s.question == LastIndex
    ensures Step(s, Next) == s.(section := Domains, question := 0)
  {
  }

  /** "Next" before the last question moves on one question and closes the explanation. */
  lemma NextWithinWarmup(s: State)
    requires s.section == Warmup && 0 <= s.question < LastIndex
    ensures Step(s, Next) == s.(question := s.question + 1, showExplanation := false)
  {
  }

  // ---------------------------------------------------------------------
  // The clock
  // ---------------------------------------------------------------------

  /**
   * Only the warm-up and speed cards set the clock (to 15 and 20 minutes,
   * whatever it read before), the timer takes one second off, every other
   * event leaves it alone, and nothing ever sets it back to null.
   */
  lemma ClockWrites(s: State, e: Event)
    ensures e == OverviewToWarmup ==> Step(s, e).timeLeft == Some(900)
    ensures e == OverviewToSpeed ==> Step(s, e).timeLeft == Some(1200)
    ensures e == Second ==> Step(s, e).timeLeft == TickValue(s.timeLeft)
    ensures !(e.OverviewToWarmup? || e.OverviewToSpeed? || e.Second?) ==> Step(s, e).timeLeft == s.timeLeft
    ensures s.timeLeft.Some? ==> Step(s, e).timeLeft.Some?
  {
  }

  /** Over any run, a clock that was started stays started. */
  lemma {:induction false} ClockNeverCleared(s: State, events: seq<Event>)
    requires s.timeLeft.Some?
    ensures Run(s, events).timeLeft.Some?
    decreases |events|
  {
    if events != [] {
      ClockWrites(s, events[0]);
      ClockNeverCleared(Step(s, events[0]), events[1..]);
    }
  }

  // ---------------------------------------------------------------------
  // Answers
  // ---------------------------------------------------------------------

  /**
   * Choosing option `option` records it for the question on screen, opens
   * the explanation, and leaves every other recorded answer as it was;
   * no other event touches the answers.
   */
  lemma ChooseRecords(s: State, e: Event)
    ensures e.Choose? ==> Step(s, e).answers[s.question] == e.option && Step(s, e).showExplanation
    ensures e.Choose? ==> forall k :: k != s.question ==>
      (k in Step(s, e).answers <==> k in s.answers) &&
      (k in s.answers ==> Step(s, e).answers[k] == s.answers[k])
    ensures !e.Choose? ==> Step(s, e).answers == s.answers
  {
  }

  /** Choosing twice on the same question is the same as choosing the second option only. */
  lemma ChooseLastWriteWins(s: State, first: int, second: int)
    ensures Step(Step(s, Choose(first)), Choose(second)) == Step(s, Choose(second))
  {
  }

  /** Recorded answers are never removed: over any run the set of answered questions only grows. */
  lemma {:induction false} AnswersOnlyGrow(s: State, events: seq<Event>)
    ensures s.answers.Keys <= Run(s, events).answers.Keys
    decreases |events|
  {
    if events != [] {
      ChooseRecords(s, events[0]);
      AnswersOnlyGrow(Step(s, events[0]), events[1..]);
    }
  }

  /**
   * Right after an option is chosen, its button is shown as selected and
   * the correct option of the question is shown in green.
   */
  lemma ChooseShowsKey(s: State, option: int)
    requires Inv(s) && Enabled(s, Choose(option))
    ensures Step(s, Choose(option)).question == s.question
    ensures IsSelected(Classify(Recorded(Step(s, Choose(option))), option,
                                WarmUpQuestions[s.question].correct, true))
    ensures IsGreen(Classify(Recorded(Step(s, Choose(option))), WarmUpQuestions[s.question].correct,
                             WarmUpQuestions[s.question].correct, true))
    ensures Step(s, Choose(option)).showExplanation
  {
    var t := Step(s, Choose(option));
    assert Recorded(t) == Some(option);
    AnsweredQuestionShowsKey(option, WarmUpQuestions[s.question].correct);
  }

  // ---------------------------------------------------------------------
  // A full warm-up
  // ---------------------------------------------------------------------

  /** The correct options of the first `k` questions, as a record of answers. */
  function AnswerKey(k: int): map<int, int> {
    map i | 0 <= i < k && i < |WarmUpQuestions| :: WarmUpQuestions[i].correct
  }

  /** Choose the correct option and click "Next", for question `k` and every later one. */
  function CorrectAnswersFrom(k: nat): seq<Event>
    decreases |WarmUpQuestions| - k
  {
    if k >= |WarmUpQuestions| then []
    else [Choose(WarmUpQuestions[k].correct), Next] + CorrectAnswersFrom(k + 1)
  }

  /** Recording the correct option of question `k` extends the key by that question. */
  lemma AnswerKeyExtend(k: nat)
    requires k < |WarmUpQuestions|
    ensures AnswerKey(k)[k := WarmUpQuestions[k].correct] == AnswerKey(k + 1)
  {
  }

  /** Running "choose, then next" ahead of `rest` is running `rest` from the state they lead to. */
  lemma RunChooseNext(s: State, c: int, rest: seq<Event>)
    ensures Run(s, [Choose(c), Next] + rest) == Run(Step(Step(s, Choose(c)), Next), rest)
    ensures Admissible(s, [Choose(c), Next] + rest) <==>
      Enabled(s, Choose(c)) && Enabled(Step(s, Choose(c)), Next) && Admissible(Step(Step(s, Choose(c)), Next), rest)
  {
    var es := [Choose(c), Next] + rest;
    assert es[0] == Choose(c) && es[1..] == [Next] + rest;
    assert ([Next] + rest)[0] == Next && ([Next] + rest)[1..] == rest;
  }

  /** From question `k` with the earlier questions answered correctly, answering the rest correctly ends in the drills. */
  lemma {:induction false} AnswerRemaining(s: State, k: nat)
    requires s.section == Warmup && s.question == k && k < |WarmUpQuestions|
    requires s.answers == AnswerKey(k)
    ensures Admissible(s, CorrectAnswersFrom(k))
    ensures Run(s, CorrectAnswersFrom(k)) == State(Domains, 0, AnswerKey(|WarmUpQuestions|), s.timeLeft, true)
    decreases |WarmUpQuestions| - k
  {
    WarmUpTableWellFormed();
    var c := WarmUpQuestions[k].correct;
    var rest := CorrectAnswersFrom(k + 1);
    assert CorrectAnswersFrom(k) == [Choose(c), Next] + rest;
    RunChooseNext(s, c, rest);
    AnswerKeyExtend(k);
    var s2 := Step(Step(s, Choose(c)), Next);
    if k + 1 < |WarmUpQuestions| {
      AnswerRemaining(s2, k + 1);
    } else {
      assert rest == [];
    }
  }

  /**
   * From the overview, entering the warm-up and answering all ten questions
   * correctly ends in the drills on question 0, with the clock at 15
   * minutes (no second elapsed), an answer recorded for each of the ten
   * questions, each equal to that question's correct option.
   */
  lemma WarmUpWalkthrough()
    ensures Admissible(Initial, [OverviewToWarmup] + CorrectAnswersFrom(0))
    ensures Run(Initial, [OverviewToWarmup] + CorrectAnswersFrom(0))
      == State(Domains, 0, AnswerKey(10), Some(WarmUpSeconds), true)
    ensures forall i :: i in AnswerKey(10) <==> 0 <= i < 10
    ensures forall i :: 0 <= i < 10 ==> AnswerKey(10)[i] == WarmUpQuestions[i].correct
  {
    var es := [OverviewToWarmup] + CorrectAnswersFrom(0);
    assert es[0] == OverviewToWarmup && es[1..] == CorrectAnswersFrom(0);
    var s := Step(Initial, OverviewToWarmup);
    assert s.answers == AnswerKey(0);
    AnswerRemaining(s, 0);
  }

  /**
   * Leaving the warm-up with the explanation open keeps it open: after
   * the full section round (drills, speed, mistakes, overview) the
   * warm-up reopens on question 0 with the explanation showing, so if
   * question 0 was never answered its correct option is revealed
   * without an answer.
   */
  lemma ReentryKeepsExplanation(s: State)
    requires s.section == Warmup && s.question == LastIndex && s.showExplanation
    ensures Admissible(s, [Next, DomainsToSpeed, SpeedToMistakes, MistakesToOverview, OverviewToWarmup])
    ensures Run(s, [Next, DomainsToSpeed, SpeedToMistakes, MistakesToOverview, OverviewToWarmup])
      == State(Warmup, 0, s.answers, Some(WarmUpSeconds), true)
    ensures 0 !in s.answers ==>
      var t := Run(s, [Next, DomainsToSpeed, SpeedToMistakes, MistakesToOverview, OverviewToWarmup]);
      Classify(Recorded(t), WarmUpQuestions[0].correct, WarmUpQuestions[0].correct, t.showExplanation)
        == RevealedCorrect
  {
    var es := [Next, DomainsToSpeed, SpeedToMistakes, MistakesToOverview, OverviewToWarmup];
    assert es[1..] == [DomainsToSpeed, SpeedToMistakes, MistakesToOverview, OverviewToWarmup];
    assert es[1..][1..] == [SpeedToMistakes, MistakesToOverview, OverviewToWarmup];
    assert es[1..][1..][1..] == [MistakesToOverview, OverviewToWarmup];
    assert es[1..][1..][1..][1..] == [OverviewToWarmup];
    assert es[1..][1..][1..][1..][1..] == [];
  }
}

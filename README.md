# Grammar Master Class session: a verified Dafny model

The Grammar Master Class page is one React component, `JKDGrammarSession`. It walks a class through an English-grammar session in five sections: overview, warm-up, drills ("domains"), speed challenge and mistakes. Under the markup there is a small controller, made of five state cells and the click handlers that overwrite them:
- the current section;
- the warm-up question pointer;
- the map of recorded answers;
- a nullable countdown;
- an "explanation open" flag.

Beside the controller there is:
- a one-second countdown effect;
- the `m:ss` clock formatter;
- the rule that colours each option button of a warm-up question.

This project models that logic and proves what it guarantees.

Modules:

- `Optional`: the `Option` datatype, for the nullable clock and for missing answers.
- `Questions`: the warm-up table. It is reduced to what the logic reads: for each of the ten questions, its number, its option count (4) and its correct index.
- `TimeFormat`: `formatTime`, with `toString` and `padStart` written out. `ParseTime` reads a clock text back, and the two are proved exact inverses.
- `Countdown`: one firing of the interval, as a function of `timeLeft`, and what any number of firings does.
- `AnswerDisplay`: the four display classes of an option button and the classification chain.
- `Session`: the controller as a state machine. It has a `State` value and an `Event` per handler. `Step` is what a handler does and `Enabled` says when its button is on screen. `Inv` is the invariant, and `Run` and `Admissible` describe click sequences. The lemmas cover the invariant, the section graph, the clock, the answer record and a full warm-up.
- `Controller`: class `GrammarSession`. Its five fields are overwritten by one method per handler. Each method states its new fields and its equality with `Session.Step`, and keeps `Valid()` (the session invariant) on every call by itself. The `Session` lemmas guarded by `Admissible` cover exactly the call sequences whose events are `Enabled`; a `Retreat` on question 0, which the class accepts, is outside them.

Each handler method requires its section. The button that fires it is rendered only in that section's panel. For example, the option buttons and "Previous"/"Next" exist only in the warm-up. The class never requires more than that. In particular, `Retreat` is callable on question 0 and clamps there as `Math.max(0, …)` does. The pure `Enabled` also records that the "Previous" button is disabled on question 0.

A behaviour of the code worth knowing: "Next" on the last question leaves the explanation flag as it was. The flag then stays open through the drills, speed and mistakes sections. Back on the overview, re-entering the warm-up reopens question 1 with the explanation showing. If question 1 was never answered, its correct option is then shown as revealed although nobody answered it. `Session.ReentryKeepsExplanation` proves this. The model follows the code here.

## Model

| member | source | states |
|---|---|---|
| Questions.WarmUpQuestions | grammar-master-class/src/App.jsx:80-177 | The ten warm-up records, reduced to number, option count and correct index (2, 0, 3, 1, 0, 1, 1, 2, 1, 0). `WarmUpTableWellFormed` states their shape. |
| Questions.WarmUpTableWellFormed | grammar-master-class/src/App.jsx:80-177 | The table holds ten questions numbered 1..10. Each has four options and a correct index among them. The hard-coded last index 9 is the table's last position. |
| TimeFormat.DecimalString | grammar-master-class/src/App.jsx:214 | `toString` of a non-negative integer gives a nonempty digit string with no leading zero. The first digit is '0' exactly for 0. |
| TimeFormat.DecimalStringParses | grammar-master-class/src/App.jsx:214 | The `toString` numeral of a number reads back as that number. |
| TimeFormat.PadStart | grammar-master-class/src/App.jsx:214 | `padStart(width, pad)` gives a string whose length is the larger of the length of `s` and `width` that ends with `s`, preceded only by pad characters. |
| TimeFormat.FormatTime | grammar-master-class/src/App.jsx:211-215 | The clock text is the minutes numeral `seconds / 60` unpadded, then ':', then exactly two characters: the tens digit and the units digit of `seconds % 60`. |
| TimeFormat.TwoDigits | grammar-master-class/src/App.jsx:214 | A number below 100 padded to width 2 with '0' is its tens digit followed by its units digit. |
| TimeFormat.TwoDigitsParse | grammar-master-class/src/App.jsx:214 | Those two digits read back as the number. |
| TimeFormat.TwoDigitSplit | grammar-master-class/src/App.jsx:214 | Any two digits spell a number below 100 and are its tens and units digit. |
| TimeFormat.CanonicalDecimalRoundTrip | grammar-master-class/src/App.jsx:214 | Every canonical numeral (digits, no leading zero) is the `toString` of its own value. |
| TimeFormat.FormatTimeRoundTrip | grammar-master-class/src/App.jsx:211-215 | Parsing the clock text of any number of seconds returns that number. |
| TimeFormat.CanonicalDecimalInjective | grammar-master-class/src/App.jsx:214 | Two canonical numerals with the same value are the same text. |
| TimeFormat.ParseTimeInjective | grammar-master-class/src/App.jsx:211-215 | Two clock texts that parse to the same value are the same text. |
| TimeFormat.ParseTimeExact | grammar-master-class/src/App.jsx:211-215 | Any text that `ParseTime` accepts is exactly the clock text of its value. With the previous row, the two functions are mutual inverses. |
| TimeFormat.FormatTimeInjective | grammar-master-class/src/App.jsx:211-215 | Two different second counts never display the same text. |
| TimeFormat.FormatTimeExamples | grammar-master-class/src/App.jsx:211-215 | 0 → "0:00", 60 → "1:00", 125 → "2:05". |
| TimeFormat.FormatTimeFiftyNine | grammar-master-class/src/App.jsx:211-215 | 59 → "0:59". |
| TimeFormat.FormatTimeSectionStarts | grammar-master-class/src/App.jsx:211-215 | The two section clocks start at "15:00" and "20:00". |
| Countdown.TickValue | grammar-master-class/src/App.jsx:202-209 | One firing leaves a null or 0 clock unchanged, and only those. Otherwise it takes off exactly one second. A non-negative clock stays between 0 and its old value, and null stays null. |
| Countdown.Ticks | grammar-master-class/src/App.jsx:202-209 | n firings of the timer: a null clock stays null and a started one stays started, and a non-negative clock stays between 0 and its start. `TicksFrom` gives the exact value. |
| Countdown.TicksFrom | grammar-master-class/src/App.jsx:202-209 | From any non-negative start, n firings give `start - n` while that is non-negative and 0 afterwards. The clock never goes negative and stops at 0. |
| Countdown.TicksFromNull | grammar-master-class/src/App.jsx:202-204 | A clock that was never started stays null whatever the number of firings. |
| Countdown.SectionClocksRunOut | grammar-master-class/src/App.jsx:202-209 | Started at 900 or 1200, the clock reads exactly 0 after that many seconds, and after any number of further seconds. |
| AnswerDisplay.Classify | grammar-master-class/src/App.jsx:438-447 | An option is drawn as selected exactly when it is the recorded answer. It is green only if it is the correct option, and drawn wrong only if it is not. It is revealed exactly when the explanation is open, it is correct and it was not chosen. |
| AnswerDisplay.QuestionStyles | grammar-master-class/src/App.jsx:438-447 | Over the options of one question, at most one is drawn as selected. The green one is the correct option, and it is green exactly when the explanation is open or it was chosen. An option is red exactly when it was chosen and is wrong. |
| AnswerDisplay.AnsweredQuestionShowsKey | grammar-master-class/src/App.jsx:434-447 | With an answer recorded and the explanation open, the chosen option is drawn as selected and the correct option is green. The chosen option is drawn as selected-correct exactly when it is correct. |
| Session.Recorded | grammar-master-class/src/App.jsx:439 | `answers[currentQuestion]`: present exactly when the question on screen has an answer, and then that answer. |
| Session.Step | grammar-master-class/src/App.jsx:202-660 | What each handler and the timer do to the five cells. Only "Previous" and "Next" move the pointer. The option and "Previous" buttons and the timer never change the section, and of the events on screen only those and "Next" can leave it unchanged. Only the option, "Previous" and "Next" buttons touch the explanation flag. `ClockWrites` and `ChooseRecords` give the clock and the answers. |
| Session.Enabled | grammar-master-class/src/App.jsx:297-660 | When each button is on screen: the four cards on the overview, one option button per option of the current question, "Previous" (disabled on question 0) and "Next" in the warm-up, one continue button per other section, the timer always. `StepPreservesInv` and `StepFollowsEdges` state what enabled events keep. |
| Session.InitialInv | grammar-master-class/src/App.jsx:15-19 | The mounted state satisfies the session invariant. |
| Session.StepPreservesInv | grammar-master-class/src/App.jsx:297-660 | Every handler fired from its own section keeps the invariant, and so does the timer. The invariant says: pointer in 0..9, pointer 0 outside the warm-up, clock null or within 0..1200, and every recorded answer an option of a table question. |
| Session.RunPreservesInv | grammar-master-class/src/App.jsx:297-660 | Any sequence of enabled clicks and timer firings keeps the invariant. |
| Session.ReachableQuestionInBounds | grammar-master-class/src/App.jsx:416-440 | In every state reached from mount, `warmUpQuestions[currentQuestion]` is in bounds, and so is the recorded answer's option index. |
| Session.StepFollowsEdges | grammar-master-class/src/App.jsx:297-660 | Every enabled event keeps the section or follows one of these edges: overview to each of the other four sections, warm-up to drills, drills to speed, speed to mistakes, mistakes to overview. |
| Session.EdgesAreTaken | grammar-master-class/src/App.jsx:297-660 | Every edge of that graph is taken by some enabled event from some state satisfying the invariant. |
| Session.PreviousClamps | grammar-master-class/src/App.jsx:469-473 | "Previous" moves the pointer to max(0, pointer − 1) and closes the explanation. On question 0 it stays at 0. |
| Session.NextFromLastQuestion | grammar-master-class/src/App.jsx:479-487 | "Next" on question 9 goes to the drills with pointer 0. It leaves the answers, the clock and the explanation flag unchanged. |
| Session.NextWithinWarmup | grammar-master-class/src/App.jsx:479-483 | "Next" before question 9 increments the pointer and closes the explanation, changing nothing else. |
| Session.ClockWrites | grammar-master-class/src/App.jsx:297-339 | Only the warm-up card (900) and the speed card (1200) write the clock, whatever it held. The timer takes a tick off. Every other event, drills→speed included, leaves the clock alone, and a started clock is never set back to null. |
| Session.ClockNeverCleared | grammar-master-class/src/App.jsx:202-209 | Over any run, once started the clock stays non-null. |
| Session.ChooseRecords | grammar-master-class/src/App.jsx:434-437 | Choosing records the option for the question on screen and opens the explanation. Every other entry is kept, and no other event changes the answers. |
| Session.ChooseLastWriteWins | grammar-master-class/src/App.jsx:434-437 | Choosing twice on one question gives the same state as choosing only the second option. |
| Session.AnswersOnlyGrow | grammar-master-class/src/App.jsx:434-437 | Over any run, the set of answered questions only grows. |
| Session.ChooseShowsKey | grammar-master-class/src/App.jsx:434-447 | Right after a choice, the chosen option is drawn as selected and the question's correct option is green. |
| Session.AnswerRemaining | grammar-master-class/src/App.jsx:434-487 | Start from question k with questions 0..k−1 answered correctly. Answering the rest correctly and clicking "Next" each time is admissible. It ends in the drills on pointer 0, with all ten answers recorded and the explanation open. |
| Session.WarmUpWalkthrough | grammar-master-class/src/App.jsx:297-487 | From mount: warm-up card, then a correct choice and "Next" for all ten questions. The run ends in the drills with pointer 0, the clock at 900 (no second elapsed) and exactly ten recorded answers, each the correct option. |
| Session.ReentryKeepsExplanation | grammar-master-class/src/App.jsx:479-487 | Leave question 9 with the explanation open, go round the sections and re-enter the warm-up. Question 0 opens with the explanation showing and the answers kept. If question 0 was unanswered, in the state the round ends in its correct option is drawn as revealed. |
| Controller.GrammarSession.constructor | grammar-master-class/src/App.jsx:15-19 | Initial cells: overview, pointer 0, empty answers, null clock, explanation closed. |
| Controller.GrammarSession.GoWarmup | grammar-master-class/src/App.jsx:297-300 | Section becomes warm-up and the clock becomes 900. The other cells are unchanged and the invariant is kept. |
| Controller.GrammarSession.GoDomains | grammar-master-class/src/App.jsx:318 | Section becomes drills. Every other cell is unchanged, the clock included. |
| Controller.GrammarSession.GoSpeed | grammar-master-class/src/App.jsx:336-339 | Section becomes speed and the clock becomes 1200. The other cells are unchanged. |
| Controller.GrammarSession.GoMistakes | grammar-master-class/src/App.jsx:357 | Section becomes mistakes. Every other cell is unchanged. |
| Controller.GrammarSession.SelectAnswer | grammar-master-class/src/App.jsx:434-437 | `answers` becomes the old map with `[currentQuestion] := idx`, so every other entry is unchanged and the answered set gains this question. The explanation opens. Section, pointer and clock are unchanged. |
| Controller.GrammarSession.Retreat | grammar-master-class/src/App.jsx:469-473 | The pointer becomes max(0, pointer − 1) and the explanation closes. Answers and clock are unchanged. |
| Controller.GrammarSession.Advance | grammar-master-class/src/App.jsx:479-487 | Below 9: pointer + 1 and the explanation closes. At 9: section drills, pointer 0, explanation flag unchanged. Answers and clock are unchanged. |
| Controller.GrammarSession.NextFromDomains | grammar-master-class/src/App.jsx:560 | Section becomes speed. The clock is not restarted, and nothing else changes. |
| Controller.GrammarSession.NextFromSpeed | grammar-master-class/src/App.jsx:660 | Section becomes mistakes. Nothing else changes. |
| Controller.GrammarSession.BackToOverview | grammar-master-class/src/App.jsx:636 | Section becomes overview. Nothing else changes. |
| Controller.GrammarSession.Tick | grammar-master-class/src/App.jsx:202-209 | A null or 0 clock is unchanged. A positive clock loses exactly one second, and the clock never goes negative. No other cell changes. |
| Controller.GrammarSession.ClockText | grammar-master-class/src/App.jsx:231-236 | The header shows no clock exactly while `timeLeft` is null. Otherwise it shows a text that reads back as the seconds left. |
| Controller.GrammarSession.OptionStyle | grammar-master-class/src/App.jsx:438-447 | The option on screen is drawn as selected exactly when it is the recorded answer for the current question. It is selected-correct (green) exactly when chosen and correct, selected-wrong (red) exactly when chosen and wrong, and revealed exactly when the explanation is open, it is correct and it is not the recorded answer. |

## Left out

- JSX markup, Tailwind classes, icons, animations and hover styling are presentation only.
- The text of the grammar domains, the common mistakes, the question prompts, the options and the explanations (lines 21-78, 179-200 and the text fields of 80-177) is content only. The model keeps each question's number, option count and correct index.
- The footer (lines 669-723) is presentation only: its links are static, and `new Date().getFullYear()` at line 717 reads the host clock.
- TimeFormat.DecimalString: models `toString` only as the plain digit string. JavaScript switches to exponent notation from 1e21, and `seconds / 60` on doubles stops being exact above 2^53; the clock never exceeds 1200 (`Session.Inv`), so no behaviour of the session depends on either.
- The colour chosen for a domain's frequency label (lines 512-516, 525-529) is a cosmetic lookup.
- React's `useState`/`useEffect` machinery and the real `setInterval`/`clearInterval` scheduling (lines 205-208) are host-runtime timing. Each firing is an explicit `Tick` call (the `Second` event), and calls are taken to run one after another. React batching of the two setters in one handler is not modelled, and neither is a handler reading a stale `answers` value.
- The "Question n of 10" caption (line 416) only displays `currentQuestion + 1`.
- TimeFormat.FormatTime: takes a non-negative number of seconds. JavaScript's result for a negative number, where the floor and the remainder go negative, is not modelled. The clock never goes below 0 (`Session.Inv`, `Countdown.TicksFrom`).

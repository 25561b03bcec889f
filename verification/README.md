# SAT quiz session, modelled in Dafny

The SAT practice quiz is a single React component
(`sat-quiz-frontend/src/App.js`). The user types a test number and an optional
question count, loads the test's records from the question repository, and
answers the questions one at a time against a countdown. When they submit, or
when the time runs out, a results screen shows the score.

This project models the session logic of that component:

- **Test assembly** (`Assembly`, `Questions`, `JsText`):
  - the count field is read with `parseInt`;
  - an unusable count falls back to everything available;
  - the records are cut with `slice`;
  - each record is normalised (its prompt trimmed or replaced by a placeholder, missing fields defaulted);
  - the time budget is the per-question share of 64 minutes for 54 questions, rounded down.
- **The session** (`Session`): the component's nine state variables as one immutable record.
  - Every handler is a pure function: typing, loading, the reply, Try Again, choosing an option, Next, Previous, Submit, Restart and one tick of the countdown.
  - The screen shown is derived from the state the way the render chooses it.
  - `Offered` says which events can reach a session: a button that is rendered and enabled, a reply while loading, or a tick while the interval runs.
- **Scoring** (`Scoring`): the running count of correct answers, and the wrong count as its complement.
- **The countdown display** (`Clock`): `MM:SS`, including JavaScript's sign-keeping `%` for a negative count.

Each operation has a partner that its contract or a lemma connects it to:

- `FormatTime` is read back by `ReadDisplay`.
- `parseInt` inverts `toString`.
- The score equals the size of an independently defined set of correct positions.
- The handlers preserve the session invariant `Valid`, which holds on every admissible run from the start.
- The countdown ends the test after exactly as many ticks as seconds were left.

The handlers follow the code as written, and two consequences are stated in the model:

- **Next and Submit do not check for an answer.** `handleNext` and `handleSubmit` do not look at the answers. Only the buttons are disabled while the current question is unanswered, and `Offered` models that.
- **A negative count is not clamped.** The count is used as it is: `slice` then counts back from the end, and the budget comes out negative. `NegativeRequestBreaksValid` exhibits this with "-2" against ten records, which gives eight questions and -143 seconds. The invariant lemmas therefore exclude a load with a negative count (`NegativeLoad`).

## Model

| member | source | states |
|---|---|---|
| JsText.TrimStart | sat-quiz-frontend/src/App.js:30 | the result is a suffix of the input, everything dropped is JavaScript whitespace, and the result does not start with whitespace |
| JsText.Trim | sat-quiz-frontend/src/App.js:36 | `trim()`: the result is an infix with only whitespace on either side and non-whitespace at both ends, and it is empty exactly when the input is all whitespace |
| JsText.TrimIdempotent | sat-quiz-frontend/src/App.js:36 | trimming a trimmed string changes nothing |
| JsText.ParseInt | sat-quiz-frontend/src/App.js:30 | `parseInt(s, 10)` yields a number exactly when, after leading whitespace and one sign, a digit follows; its magnitude is the value of the longest digit run there, negated exactly after a minus |
| JsText.ParseIntOfText | sat-quiz-frontend/src/App.js:30 | for all whitespace, optional sign, digits and trailing text not starting with a digit, `parseInt` gives the digits' value (negated after a minus) and ignores the rest, so "007" is 7, "2.5" is 2 and "1e3" is 1 |
| JsText.ParseIntWithoutDigits | sat-quiz-frontend/src/App.js:30 | whitespace and an optional sign with no digit right after them give `NaN`, so "- 5", "+-5" and "abc" are all `NaN` |
| JsText.NatToString | sat-quiz-frontend/src/App.js:112 | `toString` of a natural number is a non-empty run of digits worth the number with no leading zero, and 0 is written "0" |
| JsText.IntToString | sat-quiz-frontend/src/App.js:112 | `toString` writes a non-negative number as its canonical digits and a negative one as a minus followed by the canonical digits of its absolute value, with no leading zero in either case, and 0 is written "0" |
| JsText.PadStart | sat-quiz-frontend/src/App.js:112 | `padStart` reaches the width (or keeps a longer string), ends with the input and is preceded only by the fill character |
| JsText.DecimalValueLeadingZeros | sat-quiz-frontend/src/App.js:112 | zero padding does not change the value a run of digits denotes |
| JsText.ParseIntNatToString | sat-quiz-frontend/src/App.js:30 | `parseInt` reads back the decimal text of every natural number |
| JsText.ParseIntIntToString | sat-quiz-frontend/src/App.js:30 | `parseInt` reads back the decimal text of every integer, negative ones included |
| Questions.Normalise | sat-quiz-frontend/src/App.js:33-45 | A record without a prompt throws the `trim` error, and any other record keeps its index, option texts and correct key, gets "" for a missing passage or explanation, and holds its trimmed prompt or, when that is empty, the placeholder. |
| Questions.NormaliseAll | sat-quiz-frontend/src/App.js:33-45 | mapping succeeds exactly when every record has a prompt, keeps the length, and normalises each record in place |
| Assembly.EffectiveCount | sat-quiz-frontend/src/App.js:29-31 | the count never exceeds what is available; a non-zero request within the available number is taken as it is; anything else (NaN, 0, too many) gives everything available |
| Assembly.EffectiveCountInRange | sat-quiz-frontend/src/App.js:29-31 | for a request that is not negative, the count lies in 1..available whenever anything is available |
| Assembly.Budget | sat-quiz-frontend/src/App.js:47-48 | the budget is the largest whole number of seconds not above 3840/54 per question times the count |
| Assembly.BudgetMonotonic | sat-quiz-frontend/src/App.js:47-48 | more questions never get less time |
| Assembly.BudgetPerQuestion | sat-quiz-frontend/src/App.js:47-48 | each question is worth between 71 and 72 seconds; a negative count gives a negative budget |
| Assembly.BudgetExamples | sat-quiz-frontend/src/App.js:4-5 | 5 questions get 355 s, one gets 71 s, the full 54 get the full 64 minutes, and -2 gets -143 s |
| Assembly.Assemble | sat-quiz-frontend/src/App.js:29-48 | assembly succeeds exactly when every record in the slice has a prompt; it then holds one normalised question per sliced record, in order, and the budget of the effective count; otherwise it fails with the `trim` error |
| Assembly.AssembleNonNegativeRequest | sat-quiz-frontend/src/App.js:29-48 | with a count that is not negative, the test holds exactly the effective count of questions, its budget is that count's budget, and a non-empty reply gives at least one question and 71 s |
| Assembly.AssembleNegativeCount | sat-quiz-frontend/src/App.js:29-48 | for every negative count and every reply, a successful assembly keeps all but the last `-count` records (none if there are not more), normalised in order, with a negative budget |
| Assembly.AssembleFiveOfTen | sat-quiz-frontend/src/App.js:29-48 | "5" against ten records gives five questions and 355 s |
| Assembly.AssembleNegativeRequest | sat-quiz-frontend/src/App.js:29-48 | "-2" against ten records gives eight questions and -143 s |
| Scoring.TotalCorrect | sat-quiz-frontend/src/App.js:169-172 | the correct count never exceeds the number of questions |
| Scoring.TotalWrong | sat-quiz-frontend/src/App.js:173 | the wrong count is the number of positions not answered correctly, unanswered ones included |
| Scoring.AnswerJudgement | sat-quiz-frontend/src/App.js:170 | an unanswered question is never correct, a chosen key is correct exactly when it equals the record's key, and a key that is none of the four letters can never be matched |
| Scoring.CorrectPositionsExtend | sat-quiz-frontend/src/App.js:169-172 | one more question adds its position to the correct set exactly when its answer matches the key |
| Scoring.TotalCorrectCountsCorrectPositions | sat-quiz-frontend/src/App.js:169-172 | the reduce counts exactly the positions whose answer equals the question's correct key |
| Scoring.CorrectAndWrongPartition | sat-quiz-frontend/src/App.js:173 | every position is either correct or wrong, so the two sets together have as many members as there are questions |
| Scoring.UnansweredAreWrong | sat-quiz-frontend/src/App.js:169-173 | an unanswered question is never correct, so every unanswered position counts as wrong |
| Scoring.NoAnswersScoreNothing | sat-quiz-frontend/src/App.js:169-173 | with no answers the score is 0 and every question is wrong |
| Scoring.AllCorrectScoresFull | sat-quiz-frontend/src/App.js:169-173 | answering every question with its key scores full marks and none wrong |
| Clock.JsRemainder | sat-quiz-frontend/src/App.js:111 | JavaScript `%` agrees with the mathematical remainder for a non-negative dividend and lies in (-b, 0] for a negative one |
| Clock.JsRemainderTruncates | sat-quiz-frontend/src/App.js:111 | JavaScript `%` is the truncated remainder: it differs from the dividend by a multiple of the divisor, lies strictly between `-b` and `b`, and has the dividend's sign, which fixes it uniquely |
| Clock.PaddingKeepsValue | sat-quiz-frontend/src/App.js:112 | padding a run of digits with zeros keeps a run of digits of the same value |
| Clock.FieldReadsBack | sat-quiz-frontend/src/App.js:112 | a padded field (`Field`) is at least two characters, exactly two below 100, and reads back as its number |
| Clock.NatToStringShort | sat-quiz-frontend/src/App.js:112 | a number below 100 is written with at most two digits |
| Clock.ReadDisplayOfParts | sat-quiz-frontend/src/App.js:112 | a minutes field, a colon and a two-digit seconds field read back as minutes times 60 plus seconds |
| Clock.FieldsReadBack | sat-quiz-frontend/src/App.js:110-112 | the two fields of a display, seconds below 60, read back as the total seconds |
| Clock.FormatTimeReadsBack | sat-quiz-frontend/src/App.js:109-113 | for every non-negative count, reading the display (`FormatTime`) back gives the count: the display loses nothing |
| Clock.FormatTimeWidth | sat-quiz-frontend/src/App.js:109-113 | below 100 minutes the display is exactly five characters |
| Clock.FormatTimeExamples | sat-quiz-frontend/src/App.js:109-113 | 355 s shows "05:55", 3840 s "64:00", and -5 s "-1:-5" |
| Session.Initial | sat-quiz-frontend/src/App.js:7-15 | the component starts on the setup screen with the full 64 minutes |
| Session.LoadOutcome | sat-quiz-frontend/src/App.js:23-27 | a reply that is not OK throws "Test not found", a failed request throws its own message, and records are assembled |
| Session.EditTestNumber | sat-quiz-frontend/src/App.js:145 | typing sets the test number and nothing else |
| Session.EditNumQuestions | sat-quiz-frontend/src/App.js:153 | typing sets the count field and nothing else |
| Session.FetchQuestions | sat-quiz-frontend/src/App.js:19-22 | without a test number nothing happens; otherwise the session is loading with the error cleared, and nothing else changes |
| Session.ReceiveReply | sat-quiz-frontend/src/App.js:28-60 | loading always ends; a successful assembly installs its questions and budget at position 0 with no answers and results off; anything thrown sets the error and drops the questions, leaving the rest |
| Session.TryAgain | sat-quiz-frontend/src/App.js:128-131 | Try Again clears the error and the questions and returns to the setup screen |
| Session.SelectAnswer | sat-quiz-frontend/src/App.js:78-80 | the current position gets the chosen key, every other answer is unchanged, and no other state changes |
| Session.Next | sat-quiz-frontend/src/App.js:82-86 | Next advances by one exactly when a later question exists, and otherwise changes nothing |
| Session.Previous | sat-quiz-frontend/src/App.js:88-92 | Previous steps back by one exactly when not on the first question, and otherwise changes nothing |
| Session.Submit | sat-quiz-frontend/src/App.js:94-97 | Submit moves an active test to the results and stops the countdown, changing nothing else |
| Session.Restart | sat-quiz-frontend/src/App.js:99-107 | Restart clears the fields, questions and answers, returns to position 0 with results off, and restores 64 minutes |
| Session.Tick | sat-quiz-frontend/src/App.js:63-76 | while the interval runs, a tick at one second or less sets the time to 0 and shows the results; above that it takes one second off; the results are shown exactly when 0 is reached; without an interval nothing changes |
| Session.InitialValid | sat-quiz-frontend/src/App.js:7-15 | the starting state satisfies the session invariant |
| Session.ActiveIndexInRange | sat-quiz-frontend/src/App.js:249-250 | on the question screen the current position is a question of the test and time is left |
| Session.TimerRunsOnlyWhenActive | sat-quiz-frontend/src/App.js:63-64 | in a valid session the interval (`TimerRunning`) runs exactly while the question screen is shown |
| Session.ScreensOfValidState | sat-quiz-frontend/src/App.js:115-175 | in a valid session the screen (`PhaseOf`) follows from the questions and the results flag: with questions it is the results or the question screen, without them the setup, loading or error screen |
| Session.EnabledButtonsAct | sat-quiz-frontend/src/App.js:282-305 | on the question screen Next or Submit, whichever is shown, is enabled exactly when the current question is answered, never both; Previous is enabled exactly off the first question; each enabled button does its work |
| Session.LoadStartsTest | sat-quiz-frontend/src/App.js:28-55 | a successful reply with a non-negative count starts the test on its first question with the sliced, normalised questions, no answers and the count's budget, keeping the invariant |
| Session.NotFoundShowsError | sat-quiz-frontend/src/App.js:24-25 | a reply that is not OK lands on the error screen with "Test not found" |
| Session.StepPreservesValid | sat-quiz-frontend/src/App.js:19-107 | every offered event except a load with a negative count keeps the session invariant |
| Session.NegativeRequestBreaksValid | sat-quiz-frontend/src/App.js:30-31 | a negative count is not clamped: "-2" against ten records starts eight questions with -143 s, breaking the invariant |
| Session.RunPreservesValid | sat-quiz-frontend/src/App.js:19-107 | the invariant survives every admissible sequence of events |
| Session.ReachableValid | sat-quiz-frontend/src/App.js:7-107 | every state reachable from the start by admissible events is valid |
| Session.ActiveStepKeepsTest | sat-quiz-frontend/src/App.js:78-97 | on the question screen no offered event changes the questions or adds time, and each leads to the question screen or the results |
| Session.ResultsAreFinal | sat-quiz-frontend/src/App.js:175-246 | on the results screen only Restart is offered, and a tick changes nothing |
| Session.RestartFromResultsIsInitial | sat-quiz-frontend/src/App.js:99-107 | restarting from the results gives exactly the starting state |
| Session.SelectAnswerIdempotent | sat-quiz-frontend/src/App.js:78-80 | choosing the same option twice is the same as choosing it once |
| Session.NavigationStaysInRange | sat-quiz-frontend/src/App.js:82-92 | Next and Previous keep the position among the questions |
| Session.CountdownEndsTest | sat-quiz-frontend/src/App.js:63-76 | from a shown question with `t` seconds left, each of the first `t-1` ticks takes one second off; tick `t` shows the results with 0 left, and later ticks change nothing |
| Session.ScoreOneWrongOfFive | sat-quiz-frontend/src/App.js:169-173 | five answered questions with one wrong score four right and one wrong |
| Session.TimeoutWithTwoAnswered | sat-quiz-frontend/src/App.js:66-72 | running out of time with two of five answered shows the results, with the three unanswered counted wrong |

## Left out

- The HTTP request itself (`fetch`, the repository's address, `res.json()`) is not modelled. The reply is a parameter: the decoded records, a status that is not OK, or a rejection with its message.
- The `setInterval` lifecycle is not modelled: creating the interval, clearing it, and the 1000 ms period. One call of the interval's callback is `Tick`. `TimerRunning` gives when an interval exists, from the effect's dependencies.
- Rendering is modelled only as far as it decides behaviour. `PhaseOf` gives which screen is chosen, and `Offered` gives which buttons are shown and enabled. The markup and the review list on the results screen are not modelled, except that they judge an answer with the same comparison as the score (`Scoring.IsCorrect`).
- Overlapping loads are not modelled. A second reply arriving after a restart cannot be produced, because the load button is offered only on the setup screen and `Replied` only while loading.
- `server.js` (the question repository) is not part of this model.
- Assembly.Budget: computed with exact arithmetic, as the floor of 3840 × count / 54, where the code multiplies the double nearest 3840/54 by the count and takes `Math.floor`. That double lies just above 640/9, so the two agree for every count a test can hold; they could part only for counts around 10^13, which the model does not cover.
- JsText.ParseInt: digit strings are read as exact integers. For numbers beyond 2^53 the value is not rounded to a double, and `Infinity` is not produced.
- JsText.IntToString: integers at or beyond 10^21, which JavaScript writes in exponent notation, are written in plain digits.
- JsText.Trim: strings are sequences of code points. `trim` on UTF-16 code units gives the same result, because every whitespace character is a single unit.
- Questions.Normalise: the exception a missing prompt throws is represented by one constant, the message V8 gives. Other engines word it differently.
- Questions.Normalise: the correct key and option texts are strings that are always present. An absent `correct` would be `undefined`, which equals an absent answer, and that case is not modelled.
- The state setters are modelled as one atomic update per handler, which is how React batches them within one event.

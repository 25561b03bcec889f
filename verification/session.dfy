/** The quiz session of sat-quiz-frontend/src/App.js as a state machine:
    the component's state variables as one immutable record, each handler
    as a function from one session to the next, and the screen the
    component renders derived from the record. */
module Session {
  import opened Wrappers
  import opened JsText
  import opened Questions
  import opened Assembly
  import opened Scoring

  /** The screen the component shows. */
  datatype Phase = Setup | Loading | Error | Active | Results

  /** The component's state: the two input fields, the assembled questions,
      the position, the answers, the results flag, the loading flag, the
      error message (empty when there is none) and the seconds left. */
  datatype State = State(
    testNumber: string,
    numQuestions: string,
    questions: seq<Question>,
    currentIndex: nat,
    answers: Answers,
    showResults: bool,
    loading: bool,
    error: string,
    timeLeft: int)

  /** The state the component starts in. */
  function Initial(): (s: State)
    ensures PhaseOf(s) == Setup
    ensures s.timeLeft == TotalTestTimeSeconds
  {
    State("", "", [], 0, map[], false, false, "", TotalTestTimeSeconds)
  }

  /** The screen the render chooses: loading first, then an error, then the
      setup form while there are no questions, then the results, and
      otherwise the current question. */
  function PhaseOf(s: State): Phase {
    if s.loading then Loading
    else if s.error != "" then Error
    else if |s.questions| == 0 then Setup
    else if s.showResults then Results
    else Active
  }

  /** The countdown interval exists exactly while there are questions and
      the results are not shown. */
  predicate TimerRunning(s: State) {
    !s.showResults && |s.questions| > 0
  }

  /** How the request for the test's records ended: the decoded records, a
      reply whose status is not OK, or a request or decoding that failed with
      a message. */
  datatype Reply = Records(data: seq<RawRecord>) | NotOk | Rejected(message: string)

  /** The message thrown for a reply whose status is not OK. */
  const TestNotFoundMessage := "Test not found"

  /** What a reply assembles to, or the message of what was thrown. */
  function LoadOutcome(reply: Reply, numQuestions: string): (r: Result<Test>)
    ensures reply.NotOk? ==> r == Err(TestNotFoundMessage)
    ensures reply.Rejected? ==> r == Err(reply.message)
    ensures reply.Records? ==> r == Assemble(reply.data, numQuestions)
  {
    match reply
    case Records(data) => Assemble(data, numQuestions)
    case NotOk => Err(TestNotFoundMessage)
    case Rejected(m) => Err(m)
  }

  /** The parsed question count is a negative number. */
  predicate NegativeRequest(numQuestions: string) {
    ParseInt(numQuestions).Some? && ParseInt(numQuestions).value < 0
  }

  // ----- Handlers -------------------------------------------------------

  /** Typing into the test-number field. */
  function EditTestNumber(s: State, value: string): (r: State)
    ensures r.testNumber == value
    ensures r == s.(testNumber := r.testNumber)
  {
    s.(testNumber := value)
  }

  /** Typing into the question-count field. */
  function EditNumQuestions(s: State, value: string): (r: State)
    ensures r.numQuestions == value
    ensures r == s.(numQuestions := r.numQuestions)
  {
    s.(numQuestions := value)
  }

  /** `fetchQuestions` up to the request: nothing happens without a test
      number; otherwise the session is loading with the error cleared. */
  function FetchQuestions(s: State): (r: State)
    ensures s.testNumber == "" ==> r == s
    ensures s.testNumber != "" ==> PhaseOf(r) == Loading && r.error == ""
    ensures r == s.(loading := r.loading, error := r.error)
  {
    if s.testNumber == "" then s else s.(loading := true, error := "")
  }

  /** The rest of `fetchQuestions`, once the reply is in: a successful
      assembly installs the questions at position 0 with no answers, results
      off and the computed budget; anything thrown becomes the error message
      and drops the questions. Either way loading ends. */
  function ReceiveReply(s: State, reply: Reply): (r: State)
    ensures !r.loading
    ensures r.testNumber == s.testNumber && r.numQuestions == s.numQuestions
    ensures LoadOutcome(reply, s.numQuestions).Ok? ==>
      var t := LoadOutcome(reply, s.numQuestions).value;
      && r.questions == t.questions && r.timeLeft == t.timeBudget
      && r.currentIndex == 0 && r.answers == map[] && !r.showResults
      && r.error == s.error
    ensures LoadOutcome(reply, s.numQuestions).Err? ==>
      && r.error == LoadOutcome(reply, s.numQuestions).message
      && r.questions == []
      && r == s.(error := r.error, questions := [], loading := false)
  {
    match LoadOutcome(reply, s.numQuestions)
    case Ok(t) =>
      s.(questions := t.questions, currentIndex := 0, answers := map[],
         showResults := false, timeLeft := t.timeBudget, loading := false)
    case Err(m) => s.(error := m, questions := [], loading := false)
  }

  /** The error screen's "Try Again": the error and the questions are
      cleared. */
  function TryAgain(s: State): (r: State)
    ensures r.error == "" && r.questions == []
    ensures PhaseOf(r) == Setup || PhaseOf(r) == Loading
    ensures r == s.(error := "", questions := [])
  {
    s.(error := "", questions := [])
  }

  /** `handleAnswerSelect`: records `choice` for the current question,
      replacing any earlier choice there, and touches no other entry. */
  function SelectAnswer(s: State, choice: Letter): (r: State)
    ensures r.answers.Keys == s.answers.Keys + {s.currentIndex}
    ensures r.answers[s.currentIndex] == choice
    ensures forall k :: k in s.answers && k != s.currentIndex ==> r.answers[k] == s.answers[k]
    ensures r == s.(answers := r.answers)
  {
    s.(answers := s.answers[s.currentIndex := choice])
  }

  /** `handleNext`: moves on exactly when a later question exists. It does
      not look at the answers; only the button is disabled while the current
      question is unanswered. */
  function Next(s: State): (r: State)
    ensures r.currentIndex == s.currentIndex + 1 <==> s.currentIndex + 1 < |s.questions|
    ensures r.currentIndex != s.currentIndex + 1 ==> r == s
    ensures r == s.(currentIndex := r.currentIndex)
  {
    if s.currentIndex + 1 < |s.questions| then s.(currentIndex := s.currentIndex + 1) else s
  }

  /** `handlePrevious`: moves back exactly when not at the first question. */
  function Previous(s: State): (r: State)
    ensures r.currentIndex + 1 == s.currentIndex <==> s.currentIndex > 0
    ensures r.currentIndex + 1 != s.currentIndex ==> r == s
    ensures r == s.(currentIndex := r.currentIndex)
  {
    if s.currentIndex > 0 then s.(currentIndex := s.currentIndex - 1) else s
  }

  /** `handleSubmit`: shows the results, which also stops the countdown. No
      answer is required by the handler itself. */
  function Submit(s: State): (r: State)
    ensures PhaseOf(s) == Active ==> PhaseOf(r) == Results
    ensures !TimerRunning(r)
    ensures r == s.(showResults := true)
  {
    s.(showResults := true)
  }

  /** `handleRestart`: clears both input fields, the questions and the
      answers, returns to the first position with results off, and restores
      the full 64 minutes. */
  function Restart(s: State): (r: State)
    ensures r.questions == [] && r.answers == map[] && r.currentIndex == 0
    ensures r.testNumber == "" && r.numQuestions == "" && !r.showResults
    ensures r.timeLeft == TotalTestTimeSeconds
    ensures r.loading == s.loading && r.error == s.error
  {
    s.(testNumber := "", numQuestions := "", questions := [], currentIndex := 0,
       answers := map[], showResults := false, timeLeft := TotalTestTimeSeconds)
  }

  /** One second of the countdown. While the interval runs the time drops by
      one, floored at zero, and the results are shown exactly when it reaches
      zero; when no interval runs nothing happens. */
  function Tick(s: State): (r: State)
    ensures !TimerRunning(s) ==> r == s
    ensures TimerRunning(s) ==> 0 <= r.timeLeft && (s.timeLeft > 0 ==> r.timeLeft == s.timeLeft - 1)
    ensures TimerRunning(s) ==> (r.showResults <==> r.timeLeft == 0)
    ensures TimerRunning(s) && s.timeLeft <= 1 ==> r.timeLeft == 0 && r.showResults
    ensures r == s.(timeLeft := r.timeLeft, showResults := r.showResults)
  {
    if !TimerRunning(s) then s
    else if s.timeLeft <= 1 then s.(timeLeft := 0, showResults := true)
    else s.(timeLeft := s.timeLeft - 1)
  }

  // ----- Events and what the screen offers --------------------------------

  /** Everything that can happen to a session. */
  datatype Event =
    | TestNumberTyped(value: string)
    | CountTyped(value: string)
    | LoadPressed
    | Replied(reply: Reply)
    | TryAgainPressed
    | OptionChosen(choice: Letter)
    | NextPressed
    | PreviousPressed
    | SubmitPressed
    | RestartPressed
    | TimerFired

  /** The current question has a recorded answer, which is what enables the
      Next and Submit buttons. */
  predicate CurrentAnswered(s: State) {
    s.currentIndex in s.answers
  }

  /** The last question shows Submit instead of Next. */
  predicate OnLastQuestion(s: State) {
    s.currentIndex + 1 == |s.questions|
  }

  /** The Next button is shown and enabled. */
  predicate NextEnabled(s: State) {
    PhaseOf(s) == Active && !OnLastQuestion(s) && CurrentAnswered(s)
  }

  /** The Submit button is shown and enabled. */
  predicate SubmitEnabled(s: State) {
    PhaseOf(s) == Active && OnLastQuestion(s) && CurrentAnswered(s)
  }

  /** The Previous button is enabled. */
  predicate PreviousEnabled(s: State) {
    PhaseOf(s) == Active && s.currentIndex != 0
  }

  /** Whether the event can reach the session: a control that is rendered
      and enabled on the current screen, a reply while loading, or a tick
      while the interval runs. */
  predicate Offered(s: State, e: Event) {
    match e
    case TestNumberTyped(_) => PhaseOf(s) == Setup
    case CountTyped(_) => PhaseOf(s) == Setup
    case LoadPressed => PhaseOf(s) == Setup && s.testNumber != ""
    case Replied(_) => PhaseOf(s) == Loading
    case TryAgainPressed => PhaseOf(s) == Error
    case OptionChosen(_) => PhaseOf(s) == Active
    case NextPressed => NextEnabled(s)
    case PreviousPressed => PreviousEnabled(s)
    case SubmitPressed => SubmitEnabled(s)
    case RestartPressed => PhaseOf(s) == Results
    case TimerFired => TimerRunning(s)
  }

  /** The handler each event runs. */
  function Step(s: State, e: Event): State {
    match e
    case TestNumberTyped(v) => EditTestNumber(s, v)
    case CountTyped(v) => EditNumQuestions(s, v)
    case LoadPressed => FetchQuestions(s)
    case Replied(reply) => ReceiveReply(s, reply)
    case TryAgainPressed => TryAgain(s)
    case OptionChosen(l) => SelectAnswer(s, l)
    case NextPressed => Next(s)
    case PreviousPressed => Previous(s)
    case SubmitPressed => Submit(s)
    case RestartPressed => Restart(s)
    case TimerFired => Tick(s)
  }

  /** A reply carrying records while the count field holds a negative
      number: the one event that can break `Valid` (see
      `NegativeRequestBreaksValid`). */
  predicate NegativeLoad(s: State, e: Event) {
    e.Replied? && e.reply.Records? && NegativeRequest(s.numQuestions)
  }

  // ----- The session invariant ------------------------------------------

  /** What holds of every session the screen can reach: time is never
      negative and is positive while a question is shown; the position is
      inside the questions (0 when there are none); answers are recorded only
      for existing questions; and there are no questions while loading or
      showing an error, whose message is cleared while loading. */
  predicate Valid(s: State) {
    && s.timeLeft >= 0
    && (|s.questions| > 0 ==> s.currentIndex < |s.questions|)
    && (|s.questions| == 0 ==> s.currentIndex == 0)
    && (forall k :: k in s.answers ==> k < |s.questions|)
    && (s.loading || s.error != "" ==> |s.questions| == 0)
    && (s.loading ==> s.error == "")
    && (PhaseOf(s) == Active ==> s.timeLeft >= 1)
  }

  lemma InitialValid()
    ensures Valid(Initial())
  {
  }

  /** While a question is shown the position is a question of the test. */
  lemma ActiveIndexInRange(s: State)
    requires Valid(s) && PhaseOf(s) == Active
    ensures s.currentIndex < |s.questions|
    ensures s.timeLeft >= 1
  {
  }

  /** The interval only runs while a question is shown. */
  lemma TimerRunsOnlyWhenActive(s: State)
    requires Valid(s)
    ensures TimerRunning(s) <==> PhaseOf(s) == Active
  {
  }

  /** In a valid session the screen follows from the questions and the
      results flag alone: with questions it is the results or the current
      question, without them the setup form, the loading notice or the
      error. */
  lemma ScreensOfValidState(s: State)
    requires Valid(s)
    ensures PhaseOf(s) == Results <==> |s.questions| > 0 && s.showResults
    ensures PhaseOf(s) == Active <==> |s.questions| > 0 && !s.showResults
    ensures |s.questions| == 0 <==> PhaseOf(s) in {Setup, Loading, Error}
  {
  }

  /** On the question screen, Next or Submit (whichever is shown) is
      enabled exactly when the current question is answered, never both are,
      and each enabled button does its work: Next advances, Submit shows the
      results, Previous steps back. */
  lemma EnabledButtonsAct(s: State)
    requires Valid(s) && PhaseOf(s) == Active
    ensures NextEnabled(s) || SubmitEnabled(s) <==> CurrentAnswered(s)
    ensures !(NextEnabled(s) && SubmitEnabled(s))
    ensures NextEnabled(s) ==> Next(s).currentIndex == s.currentIndex + 1
    ensures SubmitEnabled(s) ==> PhaseOf(Submit(s)) == Results
    ensures PreviousEnabled(s) <==> s.currentIndex > 0
    ensures PreviousEnabled(s) ==> Previous(s).currentIndex + 1 == s.currentIndex
  {
  }

  /** A successful reply, when the count field is not negative, starts the
      test: the first `C` records normalised, position 0, no answers, results
      off, `Budget(C)` seconds, and (when there are questions) the question
      screen. */
  lemma LoadStartsTest(s: State, data: seq<RawRecord>)
    requires Valid(s) && PhaseOf(s) == Loading
    requires !NegativeRequest(s.numQuestions)
    requires Assemble(data, s.numQuestions).Ok?
    ensures var r := ReceiveReply(s, Records(data));
      var c := EffectiveCount(ParseInt(s.numQuestions), |data|);
      && |r.questions| == c
      && (forall i :: 0 <= i < c ==> Normalise(data[i]) == Ok(r.questions[i]))
      && r.currentIndex == 0 && r.answers == map[] && !r.showResults
      && r.timeLeft == Budget(c)
      && (|data| >= 1 ==> PhaseOf(r) == Active && r.timeLeft >= 71)
      && Valid(r)
  {
    AssembleNonNegativeRequest(data, s.numQuestions);
    BudgetPerQuestion(EffectiveCount(ParseInt(s.numQuestions), |data|));
  }

  /** A reply whose status is not OK lands on the error screen with the
      message "Test not found". */
  lemma NotFoundShowsError(s: State)
    requires PhaseOf(s) == Loading
    ensures PhaseOf(ReceiveReply(s, NotOk)) == Error
    ensures ReceiveReply(s, NotOk).error == TestNotFoundMessage
  {
  }

  /** Every offered event other than a negative-count load keeps a valid
      session valid. */
  lemma StepPreservesValid(s: State, e: Event)
    requires Valid(s)
    requires Offered(s, e)
    requires !NegativeLoad(s, e)
    ensures Valid(Step(s, e))
  {
    match e
    case Replied(reply) =>
      var r := Step(s, e);
      if LoadOutcome(reply, s.numQuestions).Ok? {
        LoadStartsTest(s, reply.data);
      } else {
        assert r.questions == [];
      }
    case OptionChosen(l) =>
      assert s.currentIndex < |s.questions|;
    case _ =>
  }

  /** The as-written handling of a negative count breaks the invariant: with
      ten records and "-2" in the count field, the test holds eight questions
      and starts with a negative time. */
  lemma NegativeRequestBreaksValid(s: State, data: seq<RawRecord>)
    requires PhaseOf(s) == Loading && s.numQuestions == "-2"
    requires |data| == 10
    requires forall i :: 0 <= i < |data| ==> data[i].questionText.Some?
    ensures var r := ReceiveReply(s, Records(data));
      |r.questions| == 8 && r.timeLeft == -143 && !Valid(r)
  {
    AssembleNegativeRequest(data);
  }

  // ----- Runs -----------------------------------------------------------

  /** The session after the events, in order. */
  function Run(s: State, events: seq<Event>): State
    decreases |events|
  {
    if |events| == 0 then s else Run(Step(s, events[0]), events[1..])
  }

  /** Every event is offered when it happens, and no load comes back with a
      negative count. */
  predicate Admissible(s: State, events: seq<Event>)
    decreases |events|
  {
    |events| == 0 ||
    (Offered(s, events[0]) && !NegativeLoad(s, events[0]) && Admissible(Step(s, events[0]), events[1..]))
  }

  /** Validity survives any admissible run. */
  lemma {:induction false} RunPreservesValid(s: State, events: seq<Event>)
    requires Valid(s)
    requires Admissible(s, events)
    ensures Valid(Run(s, events))
    decreases |events|
  {
    if |events| > 0 {
      StepPreservesValid(s, events[0]);
      RunPreservesValid(Step(s, events[0]), events[1..]);
    }
  }

  /** Every session reachable from the start by an admissible run is
      valid. */
  lemma ReachableValid(events: seq<Event>)
    requires Admissible(Initial(), events)
    ensures Valid(Run(Initial(), events))
  {
    InitialValid();
    RunPreservesValid(Initial(), events);
  }

  // ----- Properties of the active test ------------------------------------

  /** While a question is shown, every offered event keeps the questions
      fixed, never adds time, and leads to the question screen or to the
      results. */
  lemma ActiveStepKeepsTest(s: State, e: Event)
    requires Valid(s) && PhaseOf(s) == Active
    requires Offered(s, e)
    ensures Step(s, e).questions == s.questions
    ensures Step(s, e).timeLeft <= s.timeLeft
    ensures PhaseOf(Step(s, e)) == Active || PhaseOf(Step(s, e)) == Results
  {
  }

  /** Once the results are shown, only Restart is offered and a tick changes
      nothing: the countdown cannot fire into the results. */
  lemma ResultsAreFinal(s: State, e: Event)
    requires PhaseOf(s) == Results
    ensures Tick(s) == s
    ensures Offered(s, e) <==> e == RestartPressed
  {
  }

  /** Restarting from the results gives exactly the starting state. */
  lemma RestartFromResultsIsInitial(s: State)
    requires PhaseOf(s) == Results
    ensures Restart(s) == Initial()
  {
  }

  /** Choosing the same option twice gives the same answers as choosing it
      once. */
  lemma SelectAnswerIdempotent(s: State, choice: Letter)
    ensures SelectAnswer(SelectAnswer(s, choice), choice) == SelectAnswer(s, choice)
  {
  }

  /** Next and Previous keep the position among the questions. */
  lemma NavigationStaysInRange(s: State)
    requires s.currentIndex < |s.questions|
    ensures Next(s).currentIndex < |s.questions|
    ensures Previous(s).currentIndex < |s.questions|
  {
  }

  /** `n` seconds of the countdown. */
  function Ticks(s: State, n: nat): State {
    if n == 0 then s else Tick(Ticks(s, n - 1))
  }

  /** From a shown question with `t` seconds left, the first `k < t` ticks
      each take one second off and keep the question shown; tick `t` shows
      the results with zero left, and later ticks change nothing. */
  lemma {:induction false} CountdownEndsTest(s: State, k: nat)
    requires Valid(s) && PhaseOf(s) == Active
    ensures k < s.timeLeft ==> Ticks(s, k) == s.(timeLeft := s.timeLeft - k)
    ensures k >= s.timeLeft ==> Ticks(s, k) == s.(timeLeft := 0, showResults := true)
    ensures k >= s.timeLeft ==> PhaseOf(Ticks(s, k)) == Results
  {
    if k > 0 {
      CountdownEndsTest(s, k - 1);
    }
  }

  // ----- Scenarios ------------------------------------------------------

  /** Five questions, all answered, the third one wrongly: four right, one
      wrong. */
  lemma ScoreOneWrongOfFive(s: State)
    requires |s.questions| == 5
    requires forall i :: 0 <= i < 5 ==> i in s.answers
    requires forall i :: 0 <= i < 5 && i != 2 ==> LetterName(s.answers[i]) == s.questions[i].correct
    requires LetterName(s.answers[2]) != s.questions[2].correct
    ensures TotalCorrect(s.questions, s.answers) == 4
    ensures TotalWrong(s.questions, s.answers) == 1
  {
    TotalCorrectCountsCorrectPositions(s.questions, s.answers);
    assert CorrectPositions(s.questions, s.answers) == {0, 1, 3, 4};
  }

  /** The time runs out with two of five questions answered: the results
      are shown and the three unanswered questions are all scored wrong. */
  lemma TimeoutWithTwoAnswered(s: State)
    requires Valid(s) && PhaseOf(s) == Active
    requires |s.questions| == 5 && s.answers.Keys == {0, 1}
    requires s.timeLeft == 1
    ensures PhaseOf(Tick(s)) == Results
    ensures UnansweredPositions(Tick(s).questions, Tick(s).answers) == {2, 3, 4}
    ensures TotalWrong(Tick(s).questions, Tick(s).answers) >= 3
    ensures TotalCorrect(Tick(s).questions, Tick(s).answers) <= 2
  {
    var r := Tick(s);
    assert UnansweredPositions(r.questions, r.answers) == {2, 3, 4};
    UnansweredAreWrong(r.questions, r.answers);
  }
}

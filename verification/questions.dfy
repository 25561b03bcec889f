/** Question records as the repository sends them, and the normalised
    question the quiz shows (sat-quiz-frontend/src/App.js, the `map` inside
    `fetchQuestions`). */
module Questions {
  import opened Wrappers
  import opened JsText

  /** The four option keys of every question. */
  datatype Letter = A | B | C | D

  /** The key as the option object spells it, which is what an answer holds. */
  function LetterName(l: Letter): (r: string)
    ensures |r| == 1
  {
    match l
    case A => "A"
    case B => "B"
    case C => "C"
    case D => "D"
  }

  /** One record of the repository's reply. The fields the code guards with
      `|| ""` (and `question_text`, whose absence makes `trim` throw) may be
      absent; the option texts and the correct key are passed through as they
      come. */
  datatype RawRecord = RawRecord(
    examQuestionIndex: string,
    passageOrSentence: Option<string>,
    questionText: Option<string>,
    a: string,
    b: string,
    c: string,
    d: string,
    correct: string,
    explanation: Option<string>)

  /** A question as the session holds it. */
  datatype Question = Question(
    questionIndex: string,
    passageOrSentence: string,
    questionText: string,
    options: map<Letter, string>,
    correct: string,
    explanation: string)

  /** Shown instead of a prompt that is empty once trimmed. */
  const MissingTextPlaceholder := "Question text missing."

  /** What the browser's engine throws for `undefined.trim()`. */
  const UndefinedTrimMessage := "Cannot read properties of undefined (reading 'trim')"

  /** Normalises one record: the prompt is trimmed (or replaced by the
      placeholder when nothing is left), passage and explanation default to
      the empty string, and a record without a prompt throws. */
  function Normalise(rec: RawRecord): (r: Result<Question>)
    ensures r.Ok? <==> rec.questionText.Some?
    ensures r.Err? ==> r.message == UndefinedTrimMessage
    ensures r.Ok? ==>
      var q := r.value;
      && q.questionIndex == rec.examQuestionIndex
      && q.correct == rec.correct
      && q.options.Keys == {A, B, C, D}
      && q.options[A] == rec.a && q.options[B] == rec.b
      && q.options[C] == rec.c && q.options[D] == rec.d
      && (rec.passageOrSentence.None? ==> q.passageOrSentence == "")
      && (rec.passageOrSentence.Some? ==> q.passageOrSentence == rec.passageOrSentence.value)
      && (rec.explanation.None? ==> q.explanation == "")
      && (rec.explanation.Some? ==> q.explanation == rec.explanation.value)
      && q.questionText != ""
      && (AllWhitespace(rec.questionText.value) ==> q.questionText == MissingTextPlaceholder)
      && (!AllWhitespace(rec.questionText.value) ==> q.questionText == Trim(rec.questionText.value))
  {
    match rec.questionText
    case None => Err(UndefinedTrimMessage)
    case Some(text) =>
      var trimmed := Trim(text);
      Ok(Question(
        rec.examQuestionIndex,
        rec.passageOrSentence.GetOr(""),
        if trimmed == "" then MissingTextPlaceholder else trimmed,
        map[A := rec.a, B := rec.b, C := rec.c, D := rec.d],
        rec.correct,
        rec.explanation.GetOr("")))
  }

  /** `records.map(normalise)`: every record normalised in order, or the
      error of the first record that throws. */
  function NormaliseAll(records: seq<RawRecord>): (r: Result<seq<Question>>)
    ensures r.Ok? <==> forall i :: 0 <= i < |records| ==> records[i].questionText.Some?
    ensures r.Err? ==> r.message == UndefinedTrimMessage
    ensures r.Ok? ==> |r.value| == |records|
    ensures r.Ok? ==> forall i :: 0 <= i < |records| ==> Normalise(records[i]) == Ok(r.value[i])
    decreases |records|
  {
    if |records| == 0 then Ok([])
    else
      match Normalise(records[0])
      case Err(m) => Err(m)
      case Ok(q) =>
        match NormaliseAll(records[1..])
        case Err(m) => Err(m)
        case Ok(qs) =>
          assert forall i :: 1 <= i < |records| ==> records[i] == records[1..][i - 1];
          Ok([q] + qs)
  }
}

/** Test assembly, the success path of `fetchQuestions` in
    sat-quiz-frontend/src/App.js: how many questions to use, which ones, and
    how much time to grant for them. */
module Assembly {
  import opened Wrappers
  import opened JsText
  import opened Questions

  /** The reference full-length test: 54 questions in 64 minutes. */
  const TotalTestQuestions: nat := 54
  const TotalTestTimeSeconds: nat := 64 * 60

  /** An assembled test: its questions and its time budget in seconds. */
  datatype Test = Test(questions: seq<Question>, timeBudget: int)

  /** The effective count from the parsed request (`None` is `NaN`) and the
      number of records available: the request itself unless it is `NaN`,
      zero or more than is available, in which case everything available.
      A negative request survives as it is. */
  function EffectiveCount(requested: Option<int>, available: nat): (count: int)
    ensures count <= available
    ensures requested.Some? && requested.value != 0 && requested.value <= available
      ==> count == requested.value
    ensures count != available ==> requested == Some(count) && count != 0
  {
    match requested
    case None => available
    case Some(n) => if n == 0 || n > available then available else n
  }

  /** For a request that is not negative, the effective count lies between 1
      and what is available (when anything is), and is everything available
      whenever the request is missing, zero or too large. */
  lemma EffectiveCountInRange(requested: Option<int>, available: nat)
    requires requested.None? || requested.value >= 0
    ensures 0 <= EffectiveCount(requested, available) <= available
    ensures available >= 1 ==> EffectiveCount(requested, available) >= 1
    ensures requested.None? || requested.value == 0 || requested.value > available
      ==> EffectiveCount(requested, available) == available
  {
  }

  /** The end index `Array.prototype.slice(0, count)` stops at: `count`
      clamped to the length, with a negative `count` counting back from the
      end (and stopping at 0). */
  function SliceEnd(count: int, length: nat): (end: nat)
    ensures end <= length
    ensures 0 <= count ==> end == if count <= length then count else length
    ensures count < 0 ==> end == if length + count > 0 then length + count else 0
  {
    if count < 0 then (if length + count > 0 then length + count else 0)
    else if count <= length then count
    else length
  }

  /** The time granted for `count` questions: the per-question share of the
      full test times the count, rounded down, computed exactly. */
  function Budget(count: int): (seconds: int)
    ensures seconds * TotalTestQuestions <= TotalTestTimeSeconds * count
    ensures TotalTestTimeSeconds * count < (seconds + 1) * TotalTestQuestions
  {
    (TotalTestTimeSeconds * count) / TotalTestQuestions
  }

  /** More questions never buy less time. */
  lemma BudgetMonotonic(c1: int, c2: int)
    requires c1 <= c2
    ensures Budget(c1) <= Budget(c2)
  {
    var b1, b2 := Budget(c1), Budget(c2);
    assert TotalTestTimeSeconds * c1 <= TotalTestTimeSeconds * c2;
    assert b1 * TotalTestQuestions < (b2 + 1) * TotalTestQuestions;
  }

  /** A count of `c` questions earns at least 71 and at most 72 seconds for
      each; a negative count yields a negative budget. */
  lemma BudgetPerQuestion(c: int)
    ensures 0 <= c ==> 71 * c <= Budget(c) <= 72 * c
    ensures c < 0 ==> Budget(c) < 0
  {
  }

  /** The budgets worked out for a few counts: 5 questions get 355 seconds,
      a single one 71 and the full 54 the full 64 minutes. */
  lemma BudgetExamples()
    ensures Budget(5) == 355
    ensures Budget(1) == 71
    ensures Budget(TotalTestQuestions) == TotalTestTimeSeconds
    ensures Budget(-2) == -143
  {
  }

  /** Assembles a test from the records the repository returned and the raw
      text of the question-count field: the first records up to the
      effective count (through `slice`), each normalised, and the budget for
      the effective count. A record without a prompt makes the whole
      assembly throw. */
  function Assemble(data: seq<RawRecord>, numQuestions: string): (r: Result<Test>)
    ensures var count := EffectiveCount(ParseInt(numQuestions), |data|);
      && (r.Ok? <==> forall i :: 0 <= i < SliceEnd(count, |data|) ==> data[i].questionText.Some?)
      && (r.Ok? ==> |r.value.questions| == SliceEnd(count, |data|))
      && (r.Ok? ==> r.value.timeBudget == Budget(count))
    ensures r.Err? ==> r.message == UndefinedTrimMessage
    ensures r.Ok? ==>
      forall i :: 0 <= i < |r.value.questions| ==> Normalise(data[i]) == Ok(r.value.questions[i])
  {
    var count := EffectiveCount(ParseInt(numQuestions), |data|);
    var end := SliceEnd(count, |data|);
    var taken := data[..end];
    assert forall i :: 0 <= i < end ==> taken[i] == data[i];
    match NormaliseAll(taken)
    case Err(m) => Err(m)
    case Ok(qs) => Ok(Test(qs, Budget(count)))
  }

  /** When the count field does not hold a negative number, a successful
      assembly keeps exactly the first `C` records, where `C` is the
      effective count, grants `Budget(C)` seconds, and (when anything was
      returned) holds at least one question and at least 71 seconds. */
  lemma AssembleNonNegativeRequest(data: seq<RawRecord>, numQuestions: string)
    requires ParseInt(numQuestions).None? || ParseInt(numQuestions).value >= 0
    requires Assemble(data, numQuestions).Ok?
    ensures var t := Assemble(data, numQuestions).value;
      && |t.questions| == EffectiveCount(ParseInt(numQuestions), |data|)
      && t.timeBudget == Budget(|t.questions|)
      && (|data| >= 1 ==> |t.questions| >= 1 && t.timeBudget >= 71)
  {
    var count := EffectiveCount(ParseInt(numQuestions), |data|);
    EffectiveCountInRange(ParseInt(numQuestions), |data|);
    BudgetPerQuestion(count);
  }

  /** A negative count is not clamped: `slice(0, c)` then counts back from
      the end, so a successful assembly keeps all but the last `-c` records
      (none when there are no more than that), normalised in order, and the
      budget comes out negative. */
  lemma AssembleNegativeCount(data: seq<RawRecord>, numQuestions: string)
    requires ParseInt(numQuestions).Some? && ParseInt(numQuestions).value < 0
    requires Assemble(data, numQuestions).Ok?
    ensures var c := ParseInt(numQuestions).value;
      var t := Assemble(data, numQuestions).value;
      && |t.questions| == (if |data| + c > 0 then |data| + c else 0)
      && (forall i :: 0 <= i < |t.questions| ==> Normalise(data[i]) == Ok(t.questions[i]))
      && t.timeBudget == Budget(c)
      && t.timeBudget < 0
  {
    BudgetPerQuestion(ParseInt(numQuestions).value);
  }

  /** Ten records and a request of 5 give a five-question test of 355
      seconds. */
  lemma AssembleFiveOfTen(data: seq<RawRecord>)
    requires |data| == 10
    requires forall i :: 0 <= i < |data| ==> data[i].questionText.Some?
    ensures Assemble(data, "5").Ok?
    ensures |Assemble(data, "5").value.questions| == 5
    ensures Assemble(data, "5").value.timeBudget == 355
  {
    assert ParseInt("5") == Some(5) by {
      assert "5" == NatToString(5);
      ParseIntNatToString(5);
    }
    assert EffectiveCount(Some(5), 10) == 5;
    assert SliceEnd(5, 10) == 5;
    BudgetExamples();
  }

  /** A negative request is not rejected: "-2" against ten records drops the
      last two and grants a negative budget. */
  lemma AssembleNegativeRequest(data: seq<RawRecord>)
    requires |data| == 10
    requires forall i :: 0 <= i < |data| ==> data[i].questionText.Some?
    ensures Assemble(data, "-2").Ok?
    ensures |Assemble(data, "-2").value.questions| == 8
    ensures Assemble(data, "-2").value.timeBudget == -143
  {
    assert ParseInt("-2") == Some(-2) by {
      assert "-2" == IntToString(-2);
      ParseIntIntToString(-2);
    }
    assert EffectiveCount(Some(-2), 10) == -2;
    assert SliceEnd(-2, 10) == 8;
    BudgetExamples();
  }
}

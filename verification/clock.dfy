/** The countdown display (`formatTime` in sat-quiz-frontend/src/App.js):
    whole minutes and the remaining seconds, each padded to two digits. */
module Clock {
  import opened Wrappers
  import opened JsText

  /** JavaScript's `a % b` for a positive `b`: the remainder takes the sign
      of the dividend, unlike Dafny's, which is never negative. */
  function JsRemainder(a: int, b: nat): (r: int)
    requires b > 0
    ensures a >= 0 ==> r == a % b
    ensures a < 0 ==> -(b as int) < r <= 0
  {
    if a >= 0 then a % b else -((-a) % b)
  }

  /** JavaScript's remainder is the truncated one: it differs from the
      dividend by a multiple of the divisor, lies strictly between `-b` and
      `b`, and never has the opposite sign of the dividend. These fix it
      uniquely. */
  lemma JsRemainderTruncates(a: int, b: nat)
    requires b > 0
    ensures (a - JsRemainder(a, b)) % b == 0
    ensures -(b as int) < JsRemainder(a, b) < b
    ensures a >= 0 ==> JsRemainder(a, b) >= 0
    ensures a <= 0 ==> JsRemainder(a, b) <= 0
  {
    if a < 0 {
      var m := -a;
      var q, rem := m / b, m % b;
      assert m == q * b + rem;
      assert JsRemainder(a, b) == -rem;
      assert a - JsRemainder(a, b) == (-q) * b;
      MultipleHasNoRemainder(-q, b);
    } else {
      var q := a / b;
      assert a == q * b + a % b;
      MultipleHasNoRemainder(q, b);
    }
  }

  /** A multiple of `b` leaves no remainder. */
  lemma MultipleHasNoRemainder(k: int, b: nat)
    requires b > 0
    ensures (k * b) % b == 0
  {
    var m := k * b;
    var j := k - m / b;
    assert j * b == m % b;
    if j >= 1 {
      AtLeastOnce(j, b);
    } else if j <= -1 {
      AtLeastOnce(-j, b);
    }
  }

  /** At least one copy of `b`. */
  lemma AtLeastOnce(j: int, b: nat)
    requires j >= 1
    ensures j * b >= b
  {
    assert j * b == (j - 1) * b + b;
  }

  /** One field of the display: `n.toString().padStart(2, "0")`. */
  function Field(n: int): string {
    PadStart(IntToString(n), 2, '0')
  }

  /** `formatTime(seconds)`: `Math.floor(seconds / 60)` and `seconds % 60`,
      each written as a field, joined by a colon. Dafny's `/` by a positive
      divisor already rounds down. */
  function FormatTime(seconds: int): string {
    Field(seconds / 60) + ":" + Field(JsRemainder(seconds, 60))
  }

  /** `digits` is a run of decimal digits worth `n`. */
  predicate ReadsAs(digits: string, n: nat) {
    AllDigits(digits) && DecimalValue(digits) == n
  }

  /** Zero-padding a run of digits keeps it a run of digits of the same
      value. */
  lemma PaddingKeepsValue(digits: string)
    requires AllDigits(digits)
    ensures ReadsAs(PadStart(digits, 2, '0'), DecimalValue(digits))
  {
    var padded := PadStart(digits, 2, '0');
    var zeros := padded[..|padded| - |digits|];
    assert padded == zeros + digits;
    DecimalValueLeadingZeros(zeros, digits);
  }

  /** The field of a non-negative number is at least two digits long, two
      below 100, and reads back as the number. */
  lemma FieldReadsBack(n: nat)
    ensures |Field(n)| >= 2
    ensures n < 100 ==> |Field(n)| == 2
    ensures ReadsAs(Field(n), n)
  {
    assert Field(n) == PadStart(NatToString(n), 2, '0');
    PaddingKeepsValue(NatToString(n));
    if n < 100 {
      NatToStringShort(n);
    }
  }

  /** A number below 100 has at most two digits. */
  lemma NatToStringShort(n: nat)
    requires n < 100
    ensures |NatToString(n)| <= 2
  {
    if n >= 10 {
      assert |NatToString(n / 10)| == 1;
    }
  }

  /** Reads a display back into seconds: the digits before the colon third
      from the end are minutes, the two after it seconds. `None` for anything
      not of that shape. */
  function ReadDisplay(r: string): Option<int> {
    if |r| >= 3 && r[|r| - 3] == ':' && AllDigits(r[..|r| - 3]) && AllDigits(r[|r| - 2..])
    then Some(DecimalValue(r[..|r| - 3]) * 60 + DecimalValue(r[|r| - 2..]))
    else None
  }

  /** Two runs of digits joined by a colon, the second two long, read back
      as minutes and seconds. */
  lemma ReadDisplayOfParts(mm: string, ss: string, minutes: nat, rest: nat)
    requires ReadsAs(mm, minutes) && ReadsAs(ss, rest) && |ss| == 2
    ensures ReadDisplay(mm + ":" + ss) == Some(minutes * 60 + rest)
  {
    var r := mm + ":" + ss;
    assert r[..|r| - 3] == mm;
    assert r[|r| - 2..] == ss;
  }

  /** For a non-negative count of seconds, reading the display back gives
      the count again: `ReadDisplay` inverts `FormatTime`. */
  lemma FormatTimeReadsBack(seconds: int)
    requires seconds >= 0
    ensures ReadDisplay(FormatTime(seconds)) == Some(seconds)
  {
    assert JsRemainder(seconds, 60) == seconds % 60;
    assert FormatTime(seconds) == Field(seconds / 60) + ":" + Field(seconds % 60);
    FieldsReadBack(seconds / 60, seconds % 60);
  }

  /** The fields of `minutes` and of `rest` below 60, joined by a colon,
      read back as `minutes * 60 + rest`. */
  lemma FieldsReadBack(minutes: nat, rest: nat)
    requires rest < 60
    ensures ReadDisplay(Field(minutes) + ":" + Field(rest)) == Some(minutes * 60 + rest)
  {
    FieldReadsBack(minutes);
    FieldReadsBack(rest);
    ReadDisplayOfParts(Field(minutes), Field(rest), minutes, rest);
  }

  /** Under 100 minutes the display is always five characters, `MM:SS`. */
  lemma FormatTimeWidth(seconds: int)
    requires 0 <= seconds < 6000
    ensures |FormatTime(seconds)| == 5
  {
    FieldReadsBack(seconds / 60);
    FieldReadsBack(seconds % 60);
    assert JsRemainder(seconds, 60) == seconds % 60;
  }

  /** A few displays worked out, a negative count among them: the minutes
      round down while the seconds keep their sign. */
  lemma FormatTimeExamples()
    ensures FormatTime(355) == "05:55"
    ensures FormatTime(3840) == "64:00"
    ensures FormatTime(-5) == "-1:-5"
  {
    assert NatToString(5) == "5";
    assert NatToString(55) == "55";
    assert NatToString(64) == "64";
    assert NatToString(0) == "0";
    assert NatToString(1) == "1";
  }
}

/** The JavaScript string primitives the quiz relies on: `String.prototype.trim`,
    `parseInt(s, 10)`, `Number.prototype.toString` on integers and
    `String.prototype.padStart`. Strings are sequences of code points; every
    character these primitives treat specially lies in the Basic Multilingual
    Plane, so UTF-16 code units and code points agree on them. */
module JsText {
  import opened Wrappers

  /** The WhiteSpace and LineTerminator characters of ECMAScript (sections
      12.2 and 12.3 of ECMA-262): what `trim` removes and `parseInt` skips.
      The category Zs of Unicode is written out. */
  predicate IsJsWhitespace(c: char) {
    || c == '\t' || c == '\U{000B}' || c == '\U{000C}' || c == '\U{FEFF}'
    || c == '\n' || c == '\r' || c == '\U{2028}' || c == '\U{2029}'
    || c == ' ' || c == '\U{00A0}' || c == '\U{1680}'
    || ('\U{2000}' <= c <= '\U{200A}')
    || c == '\U{202F}' || c == '\U{205F}' || c == '\U{3000}'
  }

  predicate AllWhitespace(s: string) {
    forall i :: 0 <= i < |s| ==> IsJsWhitespace(s[i])
  }

  /** The first index at or after `i` that does not hold whitespace (`|s|`
      when there is none). */
  function SkipWhitespace(s: string, i: nat): (k: nat)
    requires i <= |s|
    ensures i <= k <= |s|
    ensures forall j :: i <= j < k ==> IsJsWhitespace(s[j])
    ensures k < |s| ==> !IsJsWhitespace(s[k])
    decreases |s| - i
  {
    if i < |s| && IsJsWhitespace(s[i]) then SkipWhitespace(s, i + 1) else i
  }

  /** Walks back from `j`, but not below `lo`, over whitespace: the end of the
      last non-whitespace character in `s[lo..j]`. */
  function BackOverWhitespace(s: string, lo: nat, j: nat): (k: nat)
    requires lo <= j <= |s|
    ensures lo <= k <= j
    ensures forall m :: k <= m < j ==> IsJsWhitespace(s[m])
    ensures k > lo ==> !IsJsWhitespace(s[k - 1])
    decreases j
  {
    if j > lo && IsJsWhitespace(s[j - 1]) then BackOverWhitespace(s, lo, j - 1) else j
  }

  /** Drops the leading whitespace (what `parseInt` skips): the suffix of
      `s` that starts at its first non-whitespace character. */
  function TrimStart(s: string): (r: string)
    ensures |r| <= |s| && r == s[|s| - |r|..]
    ensures forall i :: 0 <= i < |s| - |r| ==> IsJsWhitespace(s[i])
    ensures |r| > 0 ==> !IsJsWhitespace(r[0])
  {
    s[SkipWhitespace(s, 0)..]
  }

  /** `String.prototype.trim`: the infix of `s` left once the whitespace on
      both ends is removed; empty exactly when `s` is all whitespace. */
  function Trim(s: string): (r: string)
    ensures var k := |s| - |TrimStart(s)|;
      && k + |r| <= |s| && r == s[k..k + |r|]
      && (forall i :: 0 <= i < k ==> IsJsWhitespace(s[i]))
      && (forall i :: k + |r| <= i < |s| ==> IsJsWhitespace(s[i]))
    ensures |r| > 0 ==> !IsJsWhitespace(r[0]) && !IsJsWhitespace(r[|r| - 1])
    ensures r == [] <==> AllWhitespace(s)
  {
    var lo := SkipWhitespace(s, 0);
    var hi := BackOverWhitespace(s, lo, |s|);
    assert hi > lo ==> s[lo..hi][hi - lo - 1] == s[hi - 1];
    s[lo..hi]
  }

  /** Trimming a trimmed string changes nothing. */
  lemma TrimIdempotent(s: string)
    ensures Trim(Trim(s)) == Trim(s)
  {
    var r := Trim(s);
    assert SkipWhitespace(r, 0) == 0;
    assert BackOverWhitespace(r, 0, |r|) == |r|;
  }

  predicate IsDigit(c: char) {
    '0' <= c <= '9'
  }

  predicate AllDigits(s: string) {
    forall i :: 0 <= i < |s| ==> IsDigit(s[i])
  }

  function DigitValue(c: char): (d: nat)
    requires IsDigit(c)
    ensures d < 10
  {
    c as int - '0' as int
  }

  function DigitChar(d: nat): (c: char)
    requires d < 10
    ensures IsDigit(c) && DigitValue(c) == d
  {
    ('0' as int + d) as char
  }

  /** The value of a run of decimal digits, most significant first; the empty
      run is worth 0. */
  function DecimalValue(ds: string): nat
    requires AllDigits(ds)
  {
    if |ds| == 0 then 0
    else DecimalValue(ds[..|ds| - 1]) * 10 + DigitValue(ds[|ds| - 1])
  }

  /** The longest prefix of `s` made of decimal digits. */
  function DigitPrefix(s: string): (r: string)
    ensures |r| <= |s| && r == s[..|r|]
    ensures AllDigits(r)
    ensures |r| < |s| ==> !IsDigit(s[|r|])
    decreases |s|
  {
    if |s| == 0 || !IsDigit(s[0]) then [] else [s[0]] + DigitPrefix(s[1..])
  }

  /** What is left of `t` once an optional leading `+` or `-` is removed. */
  function Unsigned(t: string): string {
    if |t| > 0 && (t[0] == '-' || t[0] == '+') then t[1..] else t
  }

  /** `parseInt(s, 10)` for inputs whose digits fit in a safe integer: skip
      leading whitespace, take an optional sign, then the longest run of
      decimal digits; `None` stands for `NaN` (no digit found). `-0` and
      `+0` are both 0. */
  function ParseInt(s: string): (r: Option<int>)
    ensures var u := Unsigned(TrimStart(s));
      r.Some? <==> |u| > 0 && IsDigit(u[0])
    ensures r.Some? && r.value < 0 ==> TrimStart(s)[0] == '-'
    ensures r.Some? ==>
      (if TrimStart(s)[0] == '-' then -r.value else r.value)
        == DecimalValue(DigitPrefix(Unsigned(TrimStart(s))))
  {
    var t := TrimStart(s);
    var digits := DigitPrefix(Unsigned(t));
    if |digits| == 0 then None
    else if |t| > 0 && t[0] == '-' then Some(0 - DecimalValue(digits))
    else Some(DecimalValue(digits))
  }

  /** `n.toString()` for a non-negative integer: its canonical decimal
      digits, which read back as `n`. */
  function NatToString(n: nat): (r: string)
    ensures |r| >= 1 && AllDigits(r)
    ensures DecimalValue(r) == n
    ensures r[0] == '0' ==> n == 0
    ensures r[0] == '0' ==> r == "0"
  {
    if n < 10 then [DigitChar(n)]
    else
      var r := NatToString(n / 10) + [DigitChar(n % 10)];
      assert r[..|r| - 1] == NatToString(n / 10);
      r
  }

  /** `n.toString()` for any integer: a minus sign before the digits of `-n`
      when `n` is negative. */
  function IntToString(n: int): (r: string)
    ensures |r| >= 1
    ensures n >= 0 ==> AllDigits(r) && DecimalValue(r) == n
    ensures n < 0 ==> r[0] == '-' && AllDigits(r[1..]) && DecimalValue(r[1..]) == -n
    ensures n >= 0 && r[0] == '0' ==> n == 0 && r == "0"
    ensures n < 0 ==> |r| >= 2 && r[1] != '0'
  {
    if n < 0 then "-" + NatToString(-n) else NatToString(n)
  }

  /** `str.padStart(width, [fill])`: `str` preceded by as many `fill`
      characters as it takes to reach `width`; unchanged when already that
      long. */
  function PadStart(str: string, width: nat, fill: char): (r: string)
    ensures |r| == if |str| >= width then |str| else width
    ensures r[|r| - |str|..] == str
    ensures forall i :: 0 <= i < |r| - |str| ==> r[i] == fill
  {
    if |str| >= width then str else seq(width - |str|, _ => fill) + str
  }

  /** Leading zeros do not change the value of a run of digits. */
  lemma {:induction false} DecimalValueLeadingZeros(zeros: string, ds: string)
    requires forall i :: 0 <= i < |zeros| ==> zeros[i] == '0'
    requires AllDigits(ds)
    ensures AllDigits(zeros + ds)
    ensures DecimalValue(zeros + ds) == DecimalValue(ds)
    decreases |ds| + |zeros|
  {
    var zd := zeros + ds;
    if |ds| == 0 {
      assert zd == zeros;
      if |zeros| > 0 {
        assert zeros[..|zeros| - 1] + [] == zeros[..|zeros| - 1];
        DecimalValueLeadingZeros(zeros[..|zeros| - 1], []);
      }
    } else {
      assert zd[..|zd| - 1] == zeros + ds[..|ds| - 1];
      DecimalValueLeadingZeros(zeros, ds[..|ds| - 1]);
    }
  }

  /** A string made only of digits is its own longest digit prefix. */
  lemma {:induction false} DigitPrefixOfDigits(s: string)
    requires AllDigits(s)
    ensures DigitPrefix(s) == s
  {
  }

  /** `parseInt` reads back what `toString` wrote: the two are inverse on the
      non-negative integers. */
  lemma ParseIntNatToString(n: nat)
    ensures ParseInt(NatToString(n)) == Some(n)
  {
    var s := NatToString(n);
    assert IsDigit(s[0]);
    assert TrimStart(s) == s;
    assert Unsigned(s) == s;
    DigitPrefixOfDigits(s);
  }

  /** `parseInt` reads back a negative integer's `toString`. */
  lemma ParseIntIntToString(n: int)
    ensures ParseInt(IntToString(n)) == Some(n)
  {
    if n < 0 {
      var d := NatToString(-n);
      var s := "-" + d;
      assert s[0] == '-';
      assert TrimStart(s) == s;
      assert s[1..] == d;
      assert Unsigned(s) == d;
      DigitPrefixOfDigits(d);
    } else {
      ParseIntNatToString(n);
    }
  }

  /** Whitespace in front of text that does not start with whitespace is
      exactly what `TrimStart` drops. */
  lemma TrimStartSkipsWhitespace(ws: string, t: string)
    requires AllWhitespace(ws)
    requires |t| == 0 || !IsJsWhitespace(t[0])
    ensures TrimStart(ws + t) == t
  {
    var s := ws + t;
    var r := TrimStart(s);
    var k := |s| - |r|;
    assert s[|ws|..] == t;
  }

  /** A run of digits followed by anything that does not start with a digit
      is exactly the longest digit prefix. */
  lemma DigitPrefixStopsAt(digits: string, rest: string)
    requires AllDigits(digits)
    requires |rest| == 0 || !IsDigit(rest[0])
    ensures DigitPrefix(digits + rest) == digits
  {
    var s := digits + rest;
    var r := DigitPrefix(s);
    assert s[..|digits|] == digits;
  }

  /** `parseInt` of whitespace, an optional sign, a run of digits and any
      text that does not continue the run: the value of the digits, negated
      after a minus. Whatever follows the digits is ignored. */
  lemma ParseIntOfText(ws: string, sign: string, digits: string, rest: string)
    requires AllWhitespace(ws)
    requires sign == "" || sign == "+" || sign == "-"
    requires |digits| > 0 && AllDigits(digits)
    requires |rest| == 0 || !IsDigit(rest[0])
    ensures ParseInt(ws + (sign + (digits + rest)))
      == Some(if sign == "-" then -(DecimalValue(digits) as int) else DecimalValue(digits))
  {
    var u := digits + rest;
    var t := sign + u;
    SignedText(ws, sign, u, digits[0]);
    DigitPrefixStopsAt(digits, rest);
    ParseIntOfTrimmed(ws + t, t, digits);
  }

  /** `parseInt` once the whitespace is dropped and the digits are found. */
  lemma ParseIntOfTrimmed(s: string, t: string, digits: string)
    requires TrimStart(s) == t
    requires DigitPrefix(Unsigned(t)) == digits && |digits| > 0
    ensures ParseInt(s) == Some(if t[0] == '-' then 0 - DecimalValue(digits) else DecimalValue(digits))
  {
  }

  /** Whitespace, an optional sign and text starting with a character that
      is neither whitespace nor a sign: `TrimStart` stops at the sign, which
      `Unsigned` then drops. */
  lemma SignedText(ws: string, sign: string, u: string, first: char)
    requires AllWhitespace(ws)
    requires sign == "" || sign == "+" || sign == "-"
    requires |u| > 0 && u[0] == first
    requires !IsJsWhitespace(first) && first != '+' && first != '-'
    ensures TrimStart(ws + (sign + u)) == sign + u
    ensures Unsigned(sign + u) == u
    ensures (sign + u)[0] == '-' <==> sign == "-"
  {
    var t := sign + u;
    assert t[|sign|] == first;
    TrimStartSkipsWhitespace(ws, t);
    if sign == "" {
      assert t == u;
    }
  }

  /** `parseInt` of whitespace and an optional sign not followed by a digit
      is `NaN`. After a sign anything but a digit ends the number, another
      sign or whitespace included; without a sign the rest must not start
      with whitespace or a sign, which `parseInt` would skip or take. */
  lemma ParseIntWithoutDigits(ws: string, sign: string, rest: string)
    requires AllWhitespace(ws)
    requires sign == "" || sign == "+" || sign == "-"
    requires |rest| == 0
      || (!IsDigit(rest[0])
          && (sign == "" ==> !IsJsWhitespace(rest[0]) && rest[0] != '+' && rest[0] != '-'))
    ensures ParseInt(ws + (sign + rest)) == None
  {
    var t := sign + rest;
    if sign == "" {
      assert t == rest;
    } else {
      assert t[0] == sign[0];
    }
    TrimStartSkipsWhitespace(ws, t);
    assert Unsigned(t) == rest;
  }
}

/**
 * Where `validateCode` puts its error marker (src/Playroom/Playroom.js): the
 * first match of the regular expression /\(([0-9]+):/ in the parser's
 * message, read as a decimal number by `parseInt`, names a 1-based line.
 */
module ErrorLine {
  import opened Wrappers

  predicate IsDigit(c: char)
  {
    '0' <= c <= '9'
  }

  predicate AllDigits(s: string)
  {
    forall k :: 0 <= k < |s| ==> IsDigit(s[k])
  }

  /**
   * The pattern /\(([0-9]+):/ matches the text from `i` to `j`: '(' at `i`,
   * one or more digits, ':' at `j`.
   */
  ghost predicate MatchesAt(s: string, i: int, j: int)
  {
    && 0 <= i && i + 1 < j < |s|
    && s[i] == '(' && s[j] == ':'
    && forall k :: i < k < j ==> IsDigit(s[k])
  }

  /** Length of the run of digits in `s` that starts at index `i`. */
  function DigitRun(s: string, i: nat): (n: nat)
    requires i <= |s|
    ensures i + n <= |s|
    ensures forall k :: i <= k < i + n ==> IsDigit(s[k])
    ensures i + n < |s| ==> !IsDigit(s[i + n])
    decreases |s| - i
  {
    if i < |s| && IsDigit(s[i]) then 1 + DigitRun(s, i + 1) else 0
  }

  /** A match: the index of its '(' and of its ':'. */
  datatype Match = Match(start: nat, colon: nat)

  /** Whether the pattern matches at `i` does not depend on where the digits are assumed to end. */
  lemma MatchAtIsGreedy(s: string, i: nat, j: int)
    requires i < |s|
    ensures var n := DigitRun(s, i + 1);
            MatchesAt(s, i, j) <==>
              (s[i] == '(' && n > 0 && i + 1 + n < |s| && s[i + 1 + n] == ':' && j == i + 1 + n)
  {
    var n := DigitRun(s, i + 1);
    if MatchesAt(s, i, j) {
      assert !IsDigit(s[j]);
      assert i + 1 + n < |s| ==> !IsDigit(s[i + 1 + n]);
    }
  }

  /** Two matches at the same '(' end at the same ':'. */
  lemma MatchEndUnique(s: string, i: int, j: int, j': int)
    requires MatchesAt(s, i, j) && MatchesAt(s, i, j')
    ensures j == j'
  {
    MatchAtIsGreedy(s, i, j);
    MatchAtIsGreedy(s, i, j');
  }

  /** The leftmost match that starts at or after `from`, as `String.prototype.match` finds it. */
  function FirstMatchFrom(s: string, from: nat): (r: Option<Match>)
    requires from <= |s|
    ensures r.Some? ==> from <= r.value.start && MatchesAt(s, r.value.start, r.value.colon)
    ensures r.Some? ==> forall i, j :: from <= i < r.value.start ==> !MatchesAt(s, i, j)
    ensures r.None? ==> forall i, j :: from <= i ==> !MatchesAt(s, i, j)
    decreases |s| - from
  {
    if from == |s| then None
    else
      var n := DigitRun(s, from + 1);
      if s[from] == '(' && n > 0 && from + 1 + n < |s| && s[from + 1 + n] == ':' then
        MatchAtIsGreedy(s, from, from + 1 + n);
        Some(Match(from, from + 1 + n))
      else
        forall j ensures !MatchesAt(s, from, j) {
          MatchAtIsGreedy(s, from, j);
        }
        FirstMatchFrom(s, from + 1)
  }

  /** `parseInt(digits, 10)` for a string of decimal digits. */
  function DecimalValue(digits: string): nat
    requires AllDigits(digits)
  {
    if |digits| == 0 then 0
    else 10 * DecimalValue(digits[..|digits| - 1]) + (digits[|digits| - 1] as int - '0' as int)
  }

  /** A digit string reads as 0 exactly when every digit is '0'. */
  lemma {:induction false} DecimalValueZero(digits: string)
    requires AllDigits(digits)
    ensures DecimalValue(digits) == 0 <==> forall k :: 0 <= k < |digits| ==> digits[k] == '0'
  {
    if |digits| > 0 {
      var init := digits[..|digits| - 1];
      DecimalValueZero(init);
      assert forall k :: 0 <= k < |init| ==> init[k] == digits[k];
    }
  }

  /** The number in the first group of the first match, or None when nothing matches. */
  function LineNumber(message: string): (r: Option<nat>)
    ensures r.None? <==> FirstMatchFrom(message, 0).None?
    ensures r.Some? ==>
              var m := FirstMatchFrom(message, 0).value;
              AllDigits(message[m.start + 1..m.colon]) && r.value == DecimalValue(message[m.start + 1..m.colon])
  {
    match FirstMatchFrom(message, 0)
    case None => None
    case Some(m) =>
      var digits := message[m.start + 1..m.colon];
      assert forall k :: 0 <= k < |digits| ==> digits[k] == message[m.start + 1 + k];
      Some(DecimalValue(digits))
  }

  /** The 0-based line to mark: none when nothing matched or the number is 0. */
  function MarkerLine(message: string): Option<nat>
  {
    match LineNumber(message)
    case None => None
    case Some(n) => if n == 0 then None else Some(n - 1)
  }

  /** The leftmost match decides the line number. */
  lemma LineNumberOfLeftmost(message: string, i: int, j: int)
    requires MatchesAt(message, i, j)
    requires forall i', j' :: 0 <= i' < i ==> !MatchesAt(message, i', j')
    ensures AllDigits(message[i + 1..j])
    ensures LineNumber(message) == Some(DecimalValue(message[i + 1..j]))
  {
    var digits := message[i + 1..j];
    assert forall k :: 0 <= k < |digits| ==> digits[k] == message[i + 1 + k];
    var m := FirstMatchFrom(message, 0).value;
    MatchEndUnique(message, i, j, m.colon);
  }

  /**
   * No marker is placed when nothing matches or when the leftmost match's
   * digits are all '0'; otherwise the marker goes on line N - 1 for the number N.
   */
  lemma MarkerLineSpec(message: string, i: int, j: int)
    requires MatchesAt(message, i, j)
    requires forall i', j' :: 0 <= i' < i ==> !MatchesAt(message, i', j')
    ensures AllDigits(message[i + 1..j])
    ensures MarkerLine(message).None? <==> forall k :: i < k < j ==> message[k] == '0'
    ensures MarkerLine(message).Some? ==> MarkerLine(message).value + 1 == DecimalValue(message[i + 1..j])
  {
    LineNumberOfLeftmost(message, i, j);
    var digits := message[i + 1..j];
    DecimalValueZero(digits);
    assert forall k :: i < k < j ==> message[k] == digits[k - i - 1];
  }

  /** There is no line number exactly when the pattern matches nowhere. */
  lemma NoMatchNoLineNumber(message: string)
    ensures LineNumber(message).None? <==> forall i, j :: !MatchesAt(message, i, j)
  {
  }

  /** A parser message naming line 1, column 17, gives line number 1. */
  lemma MismatchedTagLineNumber()
    ensures LineNumber("Unexpected token (1:17)") == Some(1)
  {
    var message := "Unexpected token (1:17)";
    assert MatchesAt(message, 17, 19);
    assert forall x :: 0 <= x < 17 ==> message[x] != '(';
    LineNumberOfLeftmost(message, 17, 19);
    assert message[18..19] == "1";
    assert DecimalValue("1") == 1;
  }

  /** So the marker goes on the first line. */
  lemma MismatchedTagMessage()
    ensures MarkerLine("Unexpected token (1:17)") == Some(0)
  {
    MismatchedTagLineNumber();
  }
}

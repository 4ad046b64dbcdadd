/** Decimal numbers as text. */
module Decimals {
  import opened Common

  /** The number that `value` followed by these decimal digits denotes; none if one is not a digit. */
  function Digits(s: string, value: nat): Option<nat> {
    if s == "" then Some(value)
    else if '0' <= s[0] <= '9' then Digits(s[1..], 10 * value + (s[0] as int - '0' as int))
    else None
  }

  predicate AllDigits(s: string) {
    forall i :: 0 <= i < |s| ==> '0' <= s[i] <= '9'
  }

  lemma {:induction false} DigitsAppend(a: string, d: char, value: nat)
    requires AllDigits(a) && '0' <= d <= '9' && Digits(a, value).Some?
    ensures Digits(a + [d], value) == Some(10 * Digits(a, value).value + (d as int - '0' as int))
    decreases |a|
  {
    if a == "" {
      assert a + [d] == [d] && [d][1..] == "";
      assert Digits("", 10 * value + (d as int - '0' as int)) == Some(10 * value + (d as int - '0' as int));
    } else {
      assert (a + [d])[1..] == a[1..] + [d];
      DigitsAppend(a[1..], d, 10 * value + (a[0] as int - '0' as int));
    }
  }

  /** The number decimal digits denote. */
  function DecimalValue(s: string): int {
    if s == "" then 0 else 10 * DecimalValue(s[..|s| - 1]) + (s[|s| - 1] as int - '0' as int)
  }

  lemma {:induction false} DigitsOfDigits(s: string)
    requires AllDigits(s)
    ensures Digits(s, 0) == Some(DecimalValue(s))
  {
    if s != "" {
      var front, d := s[..|s| - 1], s[|s| - 1];
      DigitsOfDigits(front);
      DigitsAppend(front, d, 0);
      assert s == front + [d];
    }
  }

  lemma {:induction false} DigitsOfOther(s: string, value: nat)
    requires !AllDigits(s)
    ensures Digits(s, value).None?
    decreases |s|
  {
    if '0' <= s[0] <= '9' {
      DigitsOfOther(s[1..], 10 * value + (s[0] as int - '0' as int));
    }
  }
}

/** Digits, and comparison of texts whatever the case of their letters. */
module Characters {

  predicate IsDigit(c: char)
  {
    '0' <= c <= '9'
  }

  function DigitValue(ch: char): int
    requires IsDigit(ch)
  {
    ch as int - '0' as int
  }

  function Digit(n: int): (ch: char)
    requires 0 <= n < 10
    ensures IsDigit(ch) && DigitValue(ch) == n
  {
    ('0' as int + n) as char
  }

  function LowerChar(c: char): char
  {
    if 'A' <= c <= 'Z' then (c as int + 32) as char else c
  }

  function Lower(s: string): (r: string)
    ensures |r| == |s| && forall i :: 0 <= i < |s| ==> r[i] == LowerChar(s[i])
  {
    if s == "" then "" else [LowerChar(s[0])] + Lower(s[1..])
  }

  predicate IEquals(a: string, b: string)
  {
    Lower(a) == Lower(b)
  }

  lemma Differ(a: string, b: string, i: nat)
    requires |a| != |b| || (i < |a| && LowerChar(a[i]) != LowerChar(b[i]))
    ensures !IEquals(a, b)
  {
    if |a| == |b| {
      assert Lower(a)[i] != Lower(b)[i];
    }
  }
}

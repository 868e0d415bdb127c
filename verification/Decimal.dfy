// Decimal numbers as printf("%d") writes them and atoi-like loops read them.
module Decimal {

  predicate IsDigit(c: char) { '0' <= c <= '9' }

  function DigitChar(d: nat): (c: char)
    requires d < 10
    ensures IsDigit(c)
  {
    (d + '0' as int) as char
  }

  function DigitValue(c: char): (d: nat)
    requires IsDigit(c)
    ensures d < 10
  {
    c as int - '0' as int
  }

  // An unsigned number, without leading zeros.
  function Digits(n: nat): (s: string)
    ensures s != "" && forall i :: 0 <= i < |s| ==> IsDigit(s[i])
  {
    if n < 10 then [DigitChar(n)] else Digits(n / 10) + [DigitChar(n % 10)]
  }

  function Print(n: int): (s: string)
    ensures s != ""
  {
    if n < 0 then "-" + Digits(-n) else Digits(n)
  }

  function ValueOf(s: string): nat
    requires forall i :: 0 <= i < |s| ==> IsDigit(s[i])
  {
    if s == "" then 0 else ValueOf(s[..|s| - 1]) * 10 + DigitValue(s[|s| - 1])
  }

  lemma {:induction false} ValueOfDigits(n: nat)
    ensures ValueOf(Digits(n)) == n
  {
    if n >= 10 {
      ValueOfDigits(n / 10);
      var s := Digits(n);
      assert s[..|s| - 1] == Digits(n / 10);
    } else {
      assert Digits(n)[..0] == "";
    }
  }

  // Where the digits from position i on end.
  function SkipDigits(s: string, i: nat): (j: nat)
    requires i <= |s|
    ensures i <= j <= |s| && (forall k :: i <= k < j ==> IsDigit(s[k])) && (j < |s| ==> !IsDigit(s[j]))
    decreases |s| - i
  {
    if i < |s| && IsDigit(s[i]) then SkipDigits(s, i + 1) else i
  }

  lemma {:induction false} SkipDigitsAll(s: string, i: nat, j: nat)
    requires i <= j <= |s| && (forall k :: i <= k < j ==> IsDigit(s[k])) && (j < |s| ==> !IsDigit(s[j]))
    ensures SkipDigits(s, i) == j
    decreases j - i
  {
    if i < j {
      SkipDigitsAll(s, i + 1, j);
    }
  }

  function SkipSpace(s: string, i: nat): (j: nat)
    requires i <= |s|
    ensures i <= j <= |s|
    decreases |s| - i
  {
    if i < |s| && (s[i] == ' ' || '\t' <= s[i] <= '\r') then SkipSpace(s, i + 1) else i
  }

  // The C library's atoi and atol, for values that fit.
  function Atoi(s: string): int {
    var i := SkipSpace(s, 0);
    var signed := i < |s| && (s[i] == '-' || s[i] == '+');
    var k := if signed then i + 1 else i;
    var v: int := ValueOf(s[k..SkipDigits(s, k)]);
    if signed && s[i] == '-' then -v else v
  }

  // White space, a sign and digits, whatever follows them.
  lemma AtoiIs(white: string, sign: string, n: nat, post: string)
    requires forall i :: 0 <= i < |white| ==> white[i] == ' ' || 9 <= white[i] as int <= 13
    requires sign == "" || sign == "-" || sign == "+"
    requires post == "" || !('0' <= post[0] <= '9')
    ensures Atoi(white + sign + Digits(n) + post) == if sign == "-" then 0 - n else n
  {
    hide Digits, ValueOf;
    var d := Digits(n);
    var s := white + sign + d + post;
    var i := |white|;
    var k := |white + sign|;
    assert s[i] == if sign == "" then d[0] else sign[0];
    assert forall j :: 0 <= j < i ==> s[j] == white[j];
    SkipSpaceIs(s, 0, i);
    assert forall j :: k <= j < k + |d| ==> s[j] == d[j - k];
    assert k + |d| < |s| ==> s[k + |d|] == post[0];
    SkipDigitsAll(s, k, k + |d|);
    assert s[k..k + |d|] == d;
    ValueOfDigits(n);
  }

  lemma {:induction false} SkipSpaceIs(s: string, i: nat, j: nat)
    requires i <= j <= |s| && (forall k :: i <= k < j ==> s[k] == ' ' || 9 <= s[k] as int <= 13)
    requires j < |s| ==> s[j] != ' ' && !(9 <= s[j] as int <= 13)
    ensures SkipSpace(s, i) == j
    decreases j - i
  {
    if i < j {
      SkipSpaceIs(s, i + 1, j);
    }
  }

  lemma AtoiPrint(v: int)
    ensures Atoi(Print(v)) == v
  {
    hide Digits, ValueOf;
    var s := Print(v);
    var k := if v < 0 then 1 else 0;
    var d := Digits(if v < 0 then -v else v);
    assert s[k..] == d;
    assert forall i :: k <= i < |s| ==> s[i] == d[i - k];
    SkipDigitsAll(s, k, |s|);
    assert s[k..|s|] == d;
    assert SkipSpace(s, 0) == 0;
    ValueOfDigits(if v < 0 then -v else v);
  }
}

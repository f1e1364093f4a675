/** The decimal form JavaScript gives an integer when it is concatenated
    to a string (`'[' + code + ']'`), and its reading back. */
module Text {
  predicate IsDigit(c: char)
  {
    '0' <= c <= '9'
  }

  predicate AllDigits(s: string)
  {
    forall i :: 0 <= i < |s| ==> IsDigit(s[i])
  }

  function DigitChar(d: nat): (c: char)
    requires d < 10
    ensures IsDigit(c) && (c as int) - ('0' as int) == d
  {
    ['0', '1', '2', '3', '4', '5', '6', '7', '8', '9'][d]
  }

  /** The digits of `n`, most significant first, with no leading zero. */
  function NatString(n: nat): (s: string)
    ensures |s| >= 1 && AllDigits(s)
    ensures |s| > 1 ==> s[0] != '0'
  {
    if n < 10 then [DigitChar(n)] else NatString(n / 10) + [DigitChar(n % 10)]
  }

  /** `'' + n` for an integer `n`: a minus sign in front of a negative one. */
  function IntString(n: int): (s: string)
    ensures |s| >= 1 && (s[0] == '-' <==> n < 0)
  {
    if n < 0 then "-" + NatString(-n) else NatString(n)
  }

  /** The number a string of digits stands for. */
  function ParseNat(s: string): nat
    requires AllDigits(s)
  {
    if |s| == 0 then 0 else ParseNat(s[..|s| - 1]) * 10 + ((s[|s| - 1] as int) - ('0' as int))
  }

  /** The number an optional minus sign and digits stand for. */
  function ParseInt(s: string): int
    requires IntShaped(s)
  {
    if s[0] == '-' then 0 - ParseNat(s[1..]) as int else ParseNat(s)
  }

  lemma {:induction false} NatStringRoundTrip(n: nat)
    ensures ParseNat(NatString(n)) == n
  {
    if n >= 10 {
      NatStringRoundTrip(n / 10);
      var s := NatString(n);
      assert s[..|s| - 1] == NatString(n / 10);
    }
  }

  /** A string of the shape ParseInt reads: an optional minus sign, then
      digits. */
  predicate IntShaped(s: string)
  {
    |s| >= 1 && (s[0] == '-' ==> AllDigits(s[1..])) && (s[0] != '-' ==> AllDigits(s))
  }

  /** The decimal form reads back as the number. */
  lemma IntStringRoundTrip(n: int)
    ensures IntShaped(IntString(n)) && ParseInt(IntString(n)) == n
  {
    if n < 0 {
      NegativeRoundTrip(n);
    } else {
      var s := IntString(n);
      assert s == NatString(n);
      assert IsDigit(s[0]);
      NatStringRoundTrip(n);
    }
  }

  lemma NegativeRoundTrip(n: int)
    requires n < 0
    ensures IntShaped(IntString(n)) && ParseInt(IntString(n)) == n
  {
    var m: nat := -n;
    var t := NatString(m);
    NatStringRoundTrip(m);
    SignedRoundTrip(t, m);
  }

  /** A minus sign in front of the digits of `m`. */
  lemma SignedRoundTrip(t: string, m: nat)
    requires AllDigits(t) && |t| >= 1 && ParseNat(t) == m
    ensures IntShaped("-" + t) && ParseInt("-" + t) == 0 - m as int
  {
    var s := "-" + t;
    assert s[1..] == t;
  }

  /** Different numbers have different decimal forms. */
  lemma IntStringInjective(m: int, n: int)
    requires IntString(m) == IntString(n)
    ensures m == n
  {
    IntStringRoundTrip(m);
    IntStringRoundTrip(n);
  }

  /** `m` is `pre`, '[', the decimal form of `n`, ']' and then `rest`,
      with the number readable back from between the brackets. */
  predicate BracketedAs(m: string, pre: string, n: int, rest: string)
  {
    var k := |pre| + 1;
    var j := k + |IntString(n)|;
    && |m| == j + 1 + |rest| && m[..k - 1] == pre && m[k - 1] == '['
    && IntShaped(m[k..j]) && ParseInt(m[k..j]) == n && m[j] == ']' && m[j + 1..] == rest
  }

  /** The pieces of `pre + "[" + c + "]" + rest` sit where they were put. */
  lemma Spliced(pre: string, c: string, rest: string)
    ensures var m, k := pre + "[" + c + "]" + rest, |pre| + 1;
      var j := k + |c|;
      && |m| == j + 1 + |rest| && m[..k - 1] == pre && m[k - 1] == '['
      && m[k..j] == c && m[j] == ']' && m[j + 1..] == rest
  {
    var m, k := pre + "[" + c + "]" + rest, |pre| + 1;
    assert m == pre + ("[" + c + "]" + rest);
    assert m[k - 1..] == "[" + c + "]" + rest;
    assert m[k..] == c + "]" + rest;
    assert m[k + |c|..] == "]" + rest;
  }

  /** A number written in brackets after a prefix can be read back. */
  lemma Bracketed(pre: string, n: int, rest: string)
    ensures BracketedAs(pre + "[" + IntString(n) + "]" + rest, pre, n, rest)
  {
    Spliced(pre, IntString(n), rest);
    IntStringRoundTrip(n);
  }
}

/** Decimal rendering of natural numbers, as Python's f-string `{n}` does it,
    and the fact that the rendering is injective. */
module Decimal {

  predicate IsDigit(c: char) {
    '0' <= c <= '9'
  }

  function DigitChar(d: nat): (c: char)
    requires d < 10
    ensures IsDigit(c)
    ensures c as int - '0' as int == d
  {
    ('0' as int + d) as char
  }

  /** The decimal digits of `n`, most significant first, without leading zeros. */
  function NatToString(n: nat): (s: string)
    ensures |s| >= 1
    ensures forall i :: 0 <= i < |s| ==> IsDigit(s[i])
    ensures n >= 10 ==> |s| >= 2
    decreases n
  {
    if n < 10 then [DigitChar(n)] else NatToString(n / 10) + [DigitChar(n % 10)]
  }

  /** Different numbers render differently. */
  lemma {:induction false} NatToStringInjective(n: nat, m: nat)
    requires NatToString(n) == NatToString(m)
    ensures n == m
    decreases n
  {
    var s, t := NatToString(n), NatToString(m);
    if n < 10 && m < 10 {
      assert s[0] == t[0];
    } else if n >= 10 && m >= 10 {
      assert s[|s| - 1] == DigitChar(n % 10);
      assert t[|t| - 1] == DigitChar(m % 10);
      assert NatToString(n / 10) == s[..|s| - 1] == t[..|t| - 1] == NatToString(m / 10);
      NatToStringInjective(n / 10, m / 10);
    }
  }

  /** In `prefix + "_" + digits` the last underscore is the one at `|prefix|`. */
  lemma LastUnderscore(a: string, d: string)
    requires forall i :: 0 <= i < |d| ==> IsDigit(d[i])
    ensures (a + "_" + d)[|a|] == '_'
    ensures forall i :: |a| < i < |a + "_" + d| ==> (a + "_" + d)[i] != '_'
  {
    var s := a + "_" + d;
    forall i | |a| < i < |s| ensures s[i] != '_' {
      assert s[i] == d[i - |a| - 1];
    }
  }

  /** `prefix + "_" + digits` determines both the prefix and the digits:
      a rendered digit string holds no underscore. */
  lemma UnderscoreSplit(a: string, d: string, b: string, e: string)
    requires forall i :: 0 <= i < |d| ==> IsDigit(d[i])
    requires forall i :: 0 <= i < |e| ==> IsDigit(e[i])
    requires a + "_" + d == b + "_" + e
    ensures a == b && d == e
  {
    var s := a + "_" + d;
    LastUnderscore(a, d);
    LastUnderscore(b, e);
    assert s[|b|] == '_' && s[|a|] == '_';
    assert |a| == |b|;
    assert a == s[..|a|] == b;
    assert d == s[|a| + 1..] == e;
  }

  /** The rendering `f"{prefix}_{n}"` used for dictionary keys. */
  function Underscored(prefix: string, n: nat): string {
    prefix + "_" + NatToString(n)
  }

  lemma UnderscoredInjective(a: string, n: nat, b: string, m: nat)
    requires Underscored(a, n) == Underscored(b, m)
    ensures a == b && n == m
  {
    UnderscoreSplit(a, NatToString(n), b, NatToString(m));
    NatToStringInjective(n, m);
  }
}

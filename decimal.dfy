/** Decimal text of non-negative integers, as Java prints an `int` when it is
    concatenated to a string (`r + "-" + g`): no sign, no leading zeros.
    `Value` reads such text back and is the inverse used to show that distinct
    numbers print differently. */
module DecimalText {

  /** The character for digit `d`. */
  function DigitChar(d: nat): (c: char)
    requires d < 10
    ensures '0' <= c <= '9'
    ensures DigitValue(c) == d
  {
    (d + '0' as int) as char
  }

  /** The digit a decimal character stands for. */
  function DigitValue(c: char): (d: nat)
    requires '0' <= c <= '9'
    ensures d < 10
  {
    c as int - '0' as int
  }

  predicate IsDigits(s: string)
  {
    forall i :: 0 <= i < |s| ==> '0' <= s[i] <= '9'
  }

  /** Decimal text of `n`: never empty, digits only, and a leading '0' only for zero itself. */
  function Decimal(n: nat): (s: string)
    ensures s != [] && IsDigits(s)
    ensures s[0] == '0' <==> n == 0
    ensures |s| == 1 <==> n < 10
    decreases n
  {
    if n < 10 then [DigitChar(n)] else Decimal(n / 10) + [DigitChar(n % 10)]
  }

  /** The number a string of digits denotes (most significant digit first). */
  function Value(s: string): nat
    requires IsDigits(s)
    decreases |s|
  {
    if s == [] then 0 else Value(s[..|s| - 1]) * 10 + DigitValue(s[|s| - 1])
  }

  /** Reading the printed text back gives the number that was printed. */
  lemma {:induction false} ValueOfDecimal(n: nat)
    ensures Value(Decimal(n)) == n
  {
    var s := Decimal(n);
    if n < 10 {
      assert s[..|s| - 1] == [];
    } else {
      assert s[..|s| - 1] == Decimal(n / 10);
      ValueOfDecimal(n / 10);
    }
  }

  /** Two numbers print the same text exactly when they are equal. */
  lemma DecimalInjective(m: nat, n: nat)
    ensures Decimal(m) == Decimal(n) <==> m == n
  {
    ValueOfDecimal(m);
    ValueOfDecimal(n);
  }

  /** Decimal text never holds a '-', so the '-' separators of a key stay apart from its numbers. */
  lemma NoDashInDecimal(n: nat)
    ensures '-' !in Decimal(n)
  {
  }

  /** Cutting at the first separator: when neither left part holds `sep`,
      `u + [sep] + v` determines `u` and `v`. */
  lemma SplitAtFirst(u: string, v: string, u': string, v': string, sep: char)
    requires sep !in u && sep !in u'
    requires u + [sep] + v == u' + [sep] + v'
    ensures u == u' && v == v'
  {
    var s := u + [sep] + v;
    assert s[|u|] == sep && s[|u'|] == sep;
    assert forall i :: 0 <= i < |u| ==> s[i] == u[i] != sep;
    assert forall i :: 0 <= i < |u'| ==> s[i] == u'[i] != sep;
    assert u == s[..|u|] == u';
    assert v == s[|u| + 1..] == v';
  }
}

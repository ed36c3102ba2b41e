/** Decimal numerals and the byte order of strings, as Go's `%d` and `<` on strings give them. */
module Text {

  predicate IsDigit(c: char) {
    '0' <= c <= '9'
  }

  function DigitValue(c: char): nat
    requires IsDigit(c)
  {
    (c - '0') as int
  }

  function DigitChar(d: nat): (c: char)
    requires d < 10
    ensures IsDigit(c) && DigitValue(c) == d
  {
    '0' + d as char
  }

  /** The decimal numeral of `n`, without leading zeros. */
  function Decimal(n: nat): (s: string)
    ensures s != "" && forall i :: 0 <= i < |s| ==> IsDigit(s[i])
  {
    if n < 10 then [DigitChar(n)] else Decimal(n / 10) + [DigitChar(n % 10)]
  }

  /** `%02d` for a non-negative number. */
  function Padded2(n: nat): string {
    if n < 10 then ['0', DigitChar(n)] else Decimal(n)
  }

  predicate AllDigits(s: string) {
    forall i :: 0 <= i < |s| ==> IsDigit(s[i])
  }

  /** The number a string of digits denotes. */
  function DigitsValue(s: string): nat
    requires AllDigits(s)
  {
    if s == "" then 0 else 10 * DigitsValue(s[..|s| - 1]) + DigitValue(s[|s| - 1])
  }

  lemma {:induction false} DecimalValue(n: nat)
    ensures DigitsValue(Decimal(n)) == n
  {
    if n >= 10 {
      DecimalValue(n / 10);
      assert Decimal(n)[..|Decimal(n)| - 1] == Decimal(n / 10);
    }
  }

  lemma DecimalInjective(a: nat, b: nat)
    requires Decimal(a) == Decimal(b)
    ensures a == b
  {
    DecimalValue(a);
    DecimalValue(b);
  }

  /** Strict lexicographic order of strings. */
  predicate Less(a: string, b: string) {
    b != "" && (a == "" || a[0] < b[0] || (a[0] == b[0] && Less(a[1..], b[1..])))
  }

  lemma {:induction false} LessTransitive(a: string, b: string, c: string)
    requires Less(a, b) && Less(b, c)
    ensures Less(a, c)
  {
    if a != "" && a[0] == b[0] && b[0] == c[0] {
      LessTransitive(a[1..], b[1..], c[1..]);
    }
  }

  lemma {:induction false} LessIrreflexive(a: string)
    ensures !Less(a, a)
  {
    if a != "" {
      LessIrreflexive(a[1..]);
    }
  }

  lemma {:induction false} LessTotal(a: string, b: string)
    ensures a == b || Less(a, b) || Less(b, a)
  {
    if a != "" && b != "" && a[0] == b[0] {
      LessTotal(a[1..], b[1..]);
      assert a == [a[0]] + a[1..] && b == [b[0]] + b[1..];
    }
  }

  lemma {:induction false} LessSamePrefix(p: string, a: string, b: string)
    ensures Less(p + a, p + b) <==> Less(a, b)
  {
    if p == "" {
      assert p + a == a && p + b == b;
    } else {
      LessSamePrefix(p[1..], a, b);
      assert (p + a)[1..] == p[1..] + a && (p + b)[1..] == p[1..] + b;
    }
  }

  lemma {:induction false} LessByLastChar(a: string, b: string, x: char, y: char)
    requires |a| == |b|
    ensures Less(a + [x], b + [y]) <==> Less(a, b) || (a == b && x < y)
  {
    if a == "" {
      assert a + [x] == [x] && b + [y] == [y];
    } else {
      LessByLastChar(a[1..], b[1..], x, y);
      assert (a + [x])[1..] == a[1..] + [x] && (b + [y])[1..] == b[1..] + [y];
      assert a == [a[0]] + a[1..] && b == [b[0]] + b[1..];
    }
  }

  /** Numerals of the same length are ordered as their numbers are. */
  lemma {:induction false} DecimalOrder(a: nat, b: nat)
    requires |Decimal(a)| == |Decimal(b)|
    ensures Less(Decimal(a), Decimal(b)) <==> a < b
  {
    if a >= 10 && b >= 10 {
      DecimalOrder(a / 10, b / 10);
      LessByLastChar(Decimal(a / 10), Decimal(b / 10), DigitChar(a % 10), DigitChar(b % 10));
      if Decimal(a / 10) == Decimal(b / 10) {
        DecimalInjective(a / 10, b / 10);
      }
    }
  }

  // ------------------------------------------------- numbered ids

  /** The id that a store hands out for its `n`-th entry. */
  function Id(prefix: string, n: nat): string {
    prefix + Decimal(n)
  }

  /** `id` is one of the first `n` ids. */
  ghost predicate Numbered(prefix: string, id: string, n: nat) {
    exists k: nat :: 1 <= k <= n && id == Id(prefix, k)
  }

  lemma IdInjective(prefix: string, a: nat, b: nat)
    requires Id(prefix, a) == Id(prefix, b)
    ensures a == b
  {
    assert Id(prefix, a)[|prefix|..] == Decimal(a) && Id(prefix, b)[|prefix|..] == Decimal(b);
    DecimalInjective(a, b);
  }

  /** The id that is handed out next was never handed out before. */
  lemma NextIdIsFresh(prefix: string, n: nat)
    ensures !Numbered(prefix, Id(prefix, n + 1), n)
  {
    if k: nat :| 1 <= k <= n && Id(prefix, n + 1) == Id(prefix, k) {
      IdInjective(prefix, n + 1, k);
    }
  }

  lemma NumberedGrows(prefix: string, id: string, n: nat, m: nat)
    requires Numbered(prefix, id, n) && n <= m
    ensures Numbered(prefix, id, m)
  {
  }
}

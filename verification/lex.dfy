/** Go's `<` on strings: byte-wise lexicographic order. On valid UTF-8 the
    byte order of two encodings is the order of their code-point sequences,
    so it is stated here on `seq<char>`. */
module Lex {
  import opened Numbers
  import opened Text

  predicate Less(a: string, b: string)
    decreases |a|
  {
    if |a| == 0 then |b| > 0
    else if |b| == 0 then false
    else if a[0] != b[0] then a[0] < b[0]
    else Less(a[1..], b[1..])
  }

  /** Go's `a <= b`. */
  predicate LessEq(a: string, b: string) {
    a == b || Less(a, b)
  }

  lemma {:induction false} LessIrreflexive(a: string)
    ensures !Less(a, a)
    decreases |a|
  {
    if |a| > 0 {
      LessIrreflexive(a[1..]);
    }
  }

  lemma {:induction false} LessAsymmetric(a: string, b: string)
    ensures Less(a, b) ==> !Less(b, a)
    decreases |a|
  {
    if |a| > 0 && |b| > 0 && a[0] == b[0] {
      LessAsymmetric(a[1..], b[1..]);
    }
  }

  lemma {:induction false} LessTransitive(a: string, b: string, c: string)
    requires Less(a, b) && Less(b, c)
    ensures Less(a, c)
    decreases |a|
  {
    if |a| > 0 && a[0] == b[0] && b[0] == c[0] {
      LessTransitive(a[1..], b[1..], c[1..]);
    }
  }

  /** Any two strings are ordered one way or the other, or are equal. */
  lemma {:induction false} LessTotal(a: string, b: string)
    ensures Less(a, b) || a == b || Less(b, a)
    decreases |a|
  {
    if |a| > 0 && |b| > 0 && a[0] == b[0] {
      LessTotal(a[1..], b[1..]);
      if a[1..] == b[1..] {
        assert a == [a[0]] + a[1..] && b == [b[0]] + b[1..];
      }
    }
  }

  /** Comparing equal-length heads first, then tails. */
  lemma {:induction false} LessConcat(p: string, q: string, x: string, y: string)
    requires |p| == |q|
    ensures Less(p + x, q + y) <==> Less(p, q) || (p == q && Less(x, y))
    decreases |p|
  {
    if |p| == 0 {
      assert p + x == x && q + y == y;
    } else {
      assert (p + x)[0] == p[0] && (q + y)[0] == q[0];
      assert (p + x)[1..] == p[1..] + x && (q + y)[1..] == q[1..] + y;
      LessConcat(p[1..], q[1..], x, y);
      if p[0] == q[0] {
        assert p[1..] == q[1..] ==> p == q by {
          assert p == [p[0]] + p[1..] && q == [q[0]] + q[1..];
        }
      }
    }
  }

  /** Fixed-width zero-padded numbers compare as the numbers do. */
  lemma {:induction false} LessDecimal(n: nat, m: nat, width: nat)
    requires 1 <= width && n < Pow10(width) && m < Pow10(width)
    ensures Less(Decimal(n, width), Decimal(m, width)) <==> n < m
    ensures Decimal(n, width) == Decimal(m, width) <==> n == m
    decreases width
  {
    if width == 1 {
      LessDigit(n, m);
    } else {
      ShiftBelow(n, width);
      ShiftBelow(m, width);
      var p, q := Decimal(n / 10, width - 1), Decimal(m / 10, width - 1);
      DecimalLength(n / 10, width - 1);
      DecimalLength(m / 10, width - 1);
      LessDecimal(n / 10, m / 10, width - 1);
      LessConcat(p, q, [DigitChar(n % 10)], [DigitChar(m % 10)]);
      ConcatEqual(p, q, [DigitChar(n % 10)], [DigitChar(m % 10)]);
      LessDigit(n % 10, m % 10);
      DecimalSnoc(n, width);
      DecimalSnoc(m, width);
      DivModOrder(n, m);
    }
  }

  /** One-digit numbers compare as their digits do. */
  lemma LessDigit(n: nat, m: nat)
    requires n < 10 && m < 10
    ensures Less([DigitChar(n)], [DigitChar(m)]) <==> n < m
    ensures [DigitChar(n)] == [DigitChar(m)] <==> n == m
  {
    assert [DigitChar(n)][1..] == [] && [DigitChar(m)][1..] == [];
  }

  lemma DecimalSnoc(n: nat, width: nat)
    requires width >= 2
    ensures Decimal(n, width) == Decimal(n / 10, width - 1) + [DigitChar(n % 10)]
  {
  }

  lemma ShiftBelow(n: nat, width: nat)
    requires width >= 1 && n < Pow10(width)
    ensures n / 10 < Pow10(width - 1)
  {
  }

  /** Numbers compare by their leading digits first, then the last one. */
  lemma DivModOrder(n: nat, m: nat)
    ensures n < m <==> n / 10 < m / 10 || (n / 10 == m / 10 && n % 10 < m % 10)
    ensures n == m <==> n / 10 == m / 10 && n % 10 == m % 10
  {
    assert n == 10 * (n / 10) + n % 10 && m == 10 * (m / 10) + m % 10;
  }
}

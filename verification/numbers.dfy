/** Decimal text: Go's `strconv.Atoi` and the zero-padded decimal printing
    used by the `time` package's layouts ("2006", "01", "15", ...). */
module Numbers {
  import opened Wrappers

  predicate IsDigit(c: char) {
    '0' <= c <= '9'
  }

  predicate AllDigits(s: string) {
    forall i :: 0 <= i < |s| ==> IsDigit(s[i])
  }

  function DigitValue(c: char): (d: nat)
    requires IsDigit(c)
    ensures d < 10
  {
    (c as int - '0' as int) as nat
  }

  function DigitChar(d: nat): (c: char)
    requires d < 10
    ensures IsDigit(c) && DigitValue(c) == d
  {
    ('0' as int + d) as char
  }

  /** The value of a string of decimal digits, most significant first. */
  function DigitsValue(s: string): nat
    requires AllDigits(s)
  {
    if |s| == 0 then 0 else DigitsValue(s[..|s| - 1]) * 10 + DigitValue(s[|s| - 1])
  }

  function Pow10(n: nat): (p: nat)
    ensures p >= 1
  {
    if n == 0 then 1 else 10 * Pow10(n - 1)
  }

  /** The decimal digits of `n`, left-padded with '0' to at least `width`
      characters (Go's internal `appendInt(b, n, width)` for n >= 0). */
  function Decimal(n: nat, width: nat): (r: string)
    ensures AllDigits(r)
    ensures |r| >= 1 && |r| >= width
    decreases n + width
  {
    if n < 10 && width <= 1 then [DigitChar(n)]
    else Decimal(n / 10, if width == 0 then 0 else width - 1) + [DigitChar(n % 10)]
  }

  /** A number below 10^width prints in exactly `width` characters. */
  lemma {:induction false} DecimalLength(n: nat, width: nat)
    requires 1 <= width && n < Pow10(width)
    ensures |Decimal(n, width)| == width
    decreases width
  {
    if !(n < 10 && width <= 1) {
      DecimalLength(n / 10, width - 1);
    }
  }

  /** Reading back a printed number gives the number. */
  lemma {:induction false} DigitsValueOfDecimal(n: nat, width: nat)
    ensures DigitsValue(Decimal(n, width)) == n
    decreases n + width
  {
    var r := Decimal(n, width);
    if n < 10 && width <= 1 {
      assert r[..0] == [];
    } else {
      var w' := if width == 0 then 0 else width - 1;
      DigitsValueOfDecimal(n / 10, w');
      assert r[..|r| - 1] == Decimal(n / 10, w');
    }
  }

  /** Go's `strconv.Atoi`: an optional '+' or '-' sign followed by at least
      one decimal digit and nothing else. Go also reports a range error
      beyond 64 bits; integers here are unbounded. */
  function Atoi(s: string): (r: Option<int>)
    ensures r.Some? <==> |s| > 0 && var body := if s[0] == '+' || s[0] == '-' then s[1..] else s;
                                    |body| > 0 && AllDigits(body)
  {
    if |s| == 0 then None
    else
      var negative := s[0] == '-';
      var body := if s[0] == '+' || s[0] == '-' then s[1..] else s;
      if |body| == 0 || !AllDigits(body) then None
      else
        var magnitude: int := DigitsValue(body);
        Some(if negative then -magnitude else magnitude)
  }

  /** Go's `strconv.Itoa`. */
  function FormatInt(n: int): string {
    if n < 0 then "-" + Decimal(-n, 0) else Decimal(n, 0)
  }

  /** Atoi reads back what FormatInt prints, for every integer. */
  lemma AtoiFormatInt(n: int)
    ensures Atoi(FormatInt(n)) == Some(n)
  {
    if n < 0 {
      DigitsValueOfDecimal(-n, 0);
      assert ("-" + Decimal(-n, 0))[1..] == Decimal(-n, 0);
    } else {
      DigitsValueOfDecimal(n, 0);
    }
  }

  /** A zero-padded number read back from any width. */
  lemma AtoiDecimal(n: nat, width: nat)
    ensures Atoi(Decimal(n, width)) == Some(n)
  {
    DigitsValueOfDecimal(n, width);
  }
}

/** Decimal notation as `%d` prints it and `strconv.Atoi` reads it. */
module Numbers {
  import opened Strings

  function Digit(n: nat): char
    requires n < 10
  {
    "0123456789"[n]
  }

  function Decimal(n: nat): (r: string)
    ensures r != ""
    ensures forall c :: c in r ==> IsDigit(c)
  {
    if n < 10 then [Digit(n)] else Decimal(n / 10) + [Digit(n % 10)]
  }

  /** `%d`. */
  function Print(n: int): string {
    if n < 0 then "-" + Decimal(-n) else Decimal(n)
  }

  /** The number a string of digits stands for. */
  function Value(s: string): nat
    requires forall c :: c in s ==> IsDigit(c)
  {
    if s == "" then 0
    else
      var last := s[|s| - 1];
      assert last in s && IsDigit(last);
      10 * Value(s[..|s| - 1]) + (last as int - '0' as int)
  }

  lemma {:induction false} ValueDecimal(n: nat)
    ensures Value(Decimal(n)) == n
  {
    var s := Decimal(n);
    assert Digit(n % 10) as int - '0' as int == n % 10;
    if n < 10 {
      assert s[..0] == "";
    } else {
      assert s[..|s| - 1] == Decimal(n / 10);
      ValueDecimal(n / 10);
    }
  }

  /** Printed numbers followed by something that is not a digit can be read back. */
  lemma DecimalSplits(a: nat, x: string, b: nat, y: string)
    requires x != "" && !IsDigit(x[0]) && y != "" && !IsDigit(y[0])
    requires Decimal(a) + x == Decimal(b) + y
    ensures a == b && x == y
  {
    var p, q, s := Decimal(a), Decimal(b), Decimal(a) + x;
    DigitsEnd(s, p, x);
    DigitsEnd(s, q, y);
    assert s[..|p|] == p && s[..|q|] == q;
    assert s[|p|..] == x && (q + y)[|q|..] == y;
    ValueDecimal(a);
    ValueDecimal(b);
  }

  lemma DigitsEnd(s: string, p: string, x: string)
    requires s == p + x && x != "" && !IsDigit(x[0]) && forall c :: c in p ==> IsDigit(c)
    ensures |p| < |s| && !IsDigit(s[|p|]) && forall i :: 0 <= i < |p| ==> IsDigit(s[i])
  {
    forall i | 0 <= i < |p| ensures IsDigit(s[i]) {
      assert s[i] == p[i] && p[i] in p;
    }
  }

  /** Strings that `strconv.Atoi` accepts on a 64-bit machine. */
  predicate IsInteger(s: string) {
    var digits := if s != "" && (s[0] == '-' || s[0] == '+') then s[1..] else s;
    && digits != ""
    && (forall c :: c in digits ==> IsDigit(c))
    && Value(digits) <= (if s[0] == '-' then 0x8000_0000_0000_0000 else 0x7FFF_FFFF_FFFF_FFFF)
  }
}

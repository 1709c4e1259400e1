/** How old a resource is, as text. Durations are whole nanoseconds; the quotients are exact. */
module Age {
  import opened Numbers

  const SECOND: int := 1_000_000_000
  const MINUTE: int := 60 * SECOND
  const HOUR: int := 60 * MINUTE
  const DAY: int := 24 * HOUR

  /** Conversion to an integer truncates toward zero. */
  function Quotient(a: int, unit: int): int
    requires unit > 0
  {
    if a < 0 then -((-a) / unit) else a / unit
  }

  /** `FormatAge`. */
  function FormatAge(age: int): string {
    if age < MINUTE then Print(Quotient(age, SECOND)) + "s"
    else if age < HOUR then
      var m := Quotient(age, MINUTE);
      Print(m) + "m" + Print(Quotient(age - m * MINUTE, SECOND)) + "s"
    else if age < DAY then
      var h := Quotient(age, HOUR);
      Print(h) + "h" + Print(Quotient(age - h * HOUR, MINUTE)) + "m"
    else
      var d := Quotient(age, DAY);
      Print(d) + "d" + Print(Quotient(age - d * DAY, HOUR)) + "h"
  }

  /** What is printed: one number, or two with their units. */
  datatype Parts = Short(s: nat) | Long(big: nat, bigUnit: int, small: nat, smallUnit: int)

  function PartsOf(age: nat): Parts {
    if age < MINUTE then Short(age / SECOND)
    else if age < HOUR then Long(age / MINUTE, MINUTE, age % MINUTE / SECOND, SECOND)
    else if age < DAY then Long(age / HOUR, HOUR, age % HOUR / MINUTE, MINUTE)
    else Long(age / DAY, DAY, age % DAY / HOUR, HOUR)
  }

  /** The duration that the printed parts add up to. */
  function Shown(p: Parts): int {
    match p
    case Short(s) => s * SECOND
    case Long(b, bu, s, su) => b * bu + s * su
  }

  function UnitName(unit: int): string {
    if unit == SECOND then "s" else if unit == MINUTE then "m" else if unit == HOUR then "h" else "d"
  }

  function Text(p: Parts): string {
    match p
    case Short(s) => Decimal(s) + "s"
    case Long(b, bu, s, su) => Decimal(b) + (UnitName(bu) + (Decimal(s) + UnitName(su)))
  }

  /** The smallest unit printed for an age. */
  function Grain(age: nat): int {
    if age < HOUR then SECOND else if age < DAY then MINUTE else HOUR
  }

  lemma QuotientUnique(a: int, d: int, q: int, r: int)
    requires 0 <= r < d && a == q * d + r
    ensures a / d == q && a % d == r
  {
    var k := a / d - q;
    assert a == (a / d) * d + a % d;
    assert k * d == r - a % d;
    assert k <= -1 ==> k * d <= -d;
    assert k >= 1 ==> k * d >= d;
  }

  /** Splitting by a big unit and then by a small one is splitting the number of small units. */
  lemma TwoNumbers(age: int, small: int, k: int, big: int)
    requires age >= 0 && small > 0 && k > 0 && big == k * small
    ensures big > 0 && age / big == age / small / k && age % big / small == age / small % k
    ensures age / big * big + age % big / small * small == age / small * small
    ensures age - age / big * big == age % big
  {
    var q, r := age / small, age % small;
    var b, s := q / k, q % k;
    Regroup(age, small, k, q, r, b, s);
    QuotientUnique(age, big, b, s * small + r);
    QuotientUnique(s * small + r, small, s, r);
  }

  lemma Regroup(age: int, small: int, k: int, q: int, r: int, b: int, s: int)
    requires small > 0 && q == b * k + s && 0 <= s < k && age == q * small + r && 0 <= r < small
    ensures age == b * (k * small) + (s * small + r)
    ensures q * small == b * (k * small) + s * small
    ensures 0 <= s * small + r < k * small
  {
    assert q * small == (b * k) * small + s * small;
    assert (b * k) * small == b * (k * small);
    Product(k - 1 - s, small);
    assert (k - 1 - s) * small == k * small - small - s * small;
    Product(s, small);
  }

  lemma Product(a: int, b: int)
    requires a >= 0 && b >= 0
    ensures a * b >= 0
  {
  }

  lemma TwoNumbersAll(age: nat)
    ensures MINUTE <= age < HOUR ==> age / MINUTE * MINUTE + age % MINUTE / SECOND * SECOND == age / SECOND * SECOND
    ensures HOUR <= age < DAY ==> age / HOUR * HOUR + age % HOUR / MINUTE * MINUTE == age / MINUTE * MINUTE
    ensures DAY <= age ==> age / DAY * DAY + age % DAY / HOUR * HOUR == age / HOUR * HOUR
    ensures age % MINUTE / SECOND < 60 && age % HOUR / MINUTE < 60 && age % DAY / HOUR < 24
  {
    TwoNumbers(age, SECOND, 60, MINUTE);
    TwoNumbers(age, MINUTE, 60, HOUR);
    TwoNumbers(age, HOUR, 24, DAY);
  }

  lemma FormatAgeIsText(age: nat)
    ensures FormatAge(age) == Text(PartsOf(age))
  {
    if age >= MINUTE {
      var unit := if age < HOUR then MINUTE else if age < DAY then HOUR else DAY;
      RemainderOf(age, unit);
      var p := PartsOf(age);
      assert p.bigUnit == unit && Quotient(age, unit) == p.big;
      assert Quotient(age - p.big * unit, p.smallUnit) == p.small;
      Regrouped(Decimal(p.big), UnitName(unit), Decimal(p.small), UnitName(p.smallUnit));
    }
  }

  /** The text in nanoseconds and letters. */
  lemma FormatAgeCases(age: nat)
    ensures var seconds, minutes, hours, days :=
              age / 1_000_000_000, age / 60_000_000_000, age / 3_600_000_000_000, age / 86_400_000_000_000;
            FormatAge(age) ==
              if minutes == 0 then Decimal(seconds) + "s"
              else if hours == 0 then Decimal(minutes) + "m" + Decimal(seconds % 60) + "s"
              else if days == 0 then Decimal(hours) + "h" + Decimal(minutes % 60) + "m"
              else Decimal(days) + "d" + Decimal(hours % 24) + "h"
  {
    FormatAgeIsText(age);
    TwoNumbers(age, SECOND, 60, MINUTE);
    TwoNumbers(age, MINUTE, 60, HOUR);
    TwoNumbers(age, HOUR, 24, DAY);
    var p := PartsOf(age);
    if p.Long? {
      Regrouped(Decimal(p.big), UnitName(p.bigUnit), Decimal(p.small), UnitName(p.smallUnit));
    }
  }

  lemma Regrouped(a: string, b: string, c: string, d: string)
    ensures a + b + c + d == a + (b + (c + d))
  {
  }

  lemma RemainderOf(age: int, unit: int)
    requires age >= 0 && unit > 0
    ensures age - age / unit * unit == age % unit && age / unit >= 0
  {
    var q := age / unit;
    assert age == q * unit + age % unit;
    assert q <= -1 ==> q * unit <= -unit;
  }

  /** The printed value is the age rounded down to the grain of its branch, and the second number
      never reaches the next unit. */
  lemma ShownIsTruncation(age: nat)
    ensures var p := PartsOf(age);
            && Shown(p) == age / Grain(age) * Grain(age)
            && Shown(p) <= age < Shown(p) + Grain(age)
            && (p.Long? ==> 0 <= p.small < (if p.bigUnit == DAY then 24 else 60))
  {
    TwoNumbersAll(age);
  }

  lemma RoundDownMonotone(a: int, b: int, unit: int)
    requires unit > 0 && a <= b
    ensures a / unit * unit <= b / unit * unit
  {
    var k := b / unit - a / unit;
    assert k * unit == (b - b % unit) - (a - a % unit);
    assert k <= -1 ==> k * unit <= -unit;
    assert k >= 0 ==> k * unit >= 0;
  }

  /** An older resource never looks younger, also where the branches meet. */
  lemma ShownMonotone(a: nat, b: nat)
    requires a <= b
    ensures Shown(PartsOf(a)) <= Shown(PartsOf(b))
  {
    ShownIsTruncation(a);
    ShownIsTruncation(b);
    RoundDownMonotone(a, b, Grain(a));
    ShownReaches(b);
  }

  /** In its branch an age shows at least the branch's lower bound. */
  lemma ShownReaches(age: nat)
    ensures age >= HOUR ==> Shown(PartsOf(age)) >= HOUR
    ensures age >= DAY ==> Shown(PartsOf(age)) >= DAY
  {
    ShownIsTruncation(age);
    if age >= HOUR { RoundDownMonotone(HOUR, age, Grain(age)); }
    if age >= DAY { RoundDownMonotone(DAY, age, Grain(age)); }
  }

  lemma SameShownSameParts(a: nat, b: nat)
    requires Shown(PartsOf(a)) == Shown(PartsOf(b))
    ensures PartsOf(a) == PartsOf(b)
  {
    ShownIsTruncation(a);
    ShownIsTruncation(b);
    ShownReaches(a);
    ShownReaches(b);
    assert Grain(a) == Grain(b);
    SameQuotient(a, b, Grain(a));
    if a < HOUR {
      TwoNumbers(a, SECOND, 60, MINUTE);
      TwoNumbers(b, SECOND, 60, MINUTE);
    } else if a < DAY {
      TwoNumbers(a, MINUTE, 60, HOUR);
      TwoNumbers(b, MINUTE, 60, HOUR);
    } else {
      TwoNumbers(a, HOUR, 24, DAY);
      TwoNumbers(b, HOUR, 24, DAY);
    }
  }

  lemma SameQuotient(a: nat, b: nat, unit: nat)
    requires unit > 0 && a / unit * unit == b / unit * unit
    ensures a / unit == b / unit
  {
    var k := a / unit - b / unit;
    assert k * unit == 0;
  }

  /** Two ages print alike exactly when they truncate to the same value. */
  lemma PrintAlikeExactly(a: nat, b: nat)
    ensures FormatAge(a) == FormatAge(b) <==> Shown(PartsOf(a)) == Shown(PartsOf(b))
  {
    FormatAgeIsText(a);
    FormatAgeIsText(b);
    var p, q := PartsOf(a), PartsOf(b);
    if Shown(p) == Shown(q) {
      SameShownSameParts(a, b);
    }
    if Text(p) == Text(q) {
      TextReads(p, q);
    }
  }

  predicate UsesUnits(p: Parts) {
    p.Long? ==>
      || (p.bigUnit == MINUTE && p.smallUnit == SECOND)
      || (p.bigUnit == HOUR && p.smallUnit == MINUTE)
      || (p.bigUnit == DAY && p.smallUnit == HOUR)
  }

  /** The letter after the first number tells the branches apart. */
  lemma TextReads(p: Parts, q: Parts)
    requires UsesUnits(p) && UsesUnits(q)
    requires Text(p) == Text(q)
    ensures p == q
  {
    var x := if p.Short? then "s" else UnitName(p.bigUnit) + (Decimal(p.small) + UnitName(p.smallUnit));
    var y := if q.Short? then "s" else UnitName(q.bigUnit) + (Decimal(q.small) + UnitName(q.smallUnit));
    DecimalSplits(if p.Short? then p.s else p.big, x, if q.Short? then q.s else q.big, y);
    assert x[0] == y[0];
    if p.Long? {
      assert x[1..] == Decimal(p.small) + UnitName(p.smallUnit);
      assert y[1..] == Decimal(q.small) + UnitName(q.smallUnit);
      DecimalSplits(p.small, UnitName(p.smallUnit), q.small, UnitName(q.smallUnit));
    }
  }
}

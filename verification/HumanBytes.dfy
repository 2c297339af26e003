/** `human_bytes`: printing byte counts with a unit, and what the text still tells. */
module HumanBytes {
  import opened Options
  import opened Scanning
  import opened Decimal
  import opened Rounding

  const UNITS: seq<string> := ["bytes", "kB", "MB", "GB", "TB"]

  function Abs(x: real): real { if x < 0.0 then -x else x }

  // ---- The printer

  /** The loop over the units: divide by 1024 until the amount is below it or the unit is TB. */
  function Scale(amount: real, unit: nat): (real, nat)
    requires unit <= 4
    decreases 4 - unit
  {
    if Abs(amount) < 1024.0 || unit == 4 then (amount, unit) else Scale(amount / 1024.0, unit + 1)
  }

  /** Python's `int` of a float. */
  function Truncate(x: real): int { if x < 0.0 then -((-x).Floor) else x.Floor }

  /** The printed number, in tenths. */
  function Tenths(amount: real, unit: nat): int {
    if unit == 0 then 10 * Truncate(amount)
    else if Abs(amount) >= 100.0 then 10 * RoundHalfEven(amount)
    else RoundHalfEven(10.0 * amount)
  }

  function HasDecimal(amount: real, unit: nat): bool { unit != 0 && Abs(amount) < 100.0 }

  function Unsigned(n: int): nat { if n < 0 then -n else n }

  function UnsignedText(n: nat, decimal: bool): string {
    Digits(n / 10) + if decimal then "." + Digits(n % 10) else ""
  }

  /** A number given in tenths, without or with its decimal. */
  function NumberText(tenths: int, decimal: bool): string {
    var n := Unsigned(tenths);
    (if tenths < 0 then "-" else "") + UnsignedText(n, decimal)
  }

  function SizeText(value: real): string {
    ScaleFits(value, 0);
    var (amount, unit) := Scale(value, 0);
    NumberText(Tenths(amount, unit), HasDecimal(amount, unit)) + " " + UNITS[unit]
  }

  method HumanBytes(value: real) returns (text: string)
    ensures text == SizeText(value)
  {
    var amount := value;
    ScaleFits(value, 0);
    for unit := 0 to 5
      invariant unit < 5 && Scale(value, 0) == Scale(amount, unit)
    {
      if Abs(amount) < 1024.0 || unit == 4 {
        if unit == 0 {
          return NumberText(10 * Truncate(amount), false) + " " + UNITS[0];
        }
        if Abs(amount) >= 100.0 {
          return NumberText(10 * RoundHalfEven(amount), false) + " " + UNITS[unit];
        } else {
          return NumberText(RoundHalfEven(10.0 * amount), true) + " " + UNITS[unit];
        }
      }
      amount := amount / 1024.0;
    }
    assert false;
  }

  // ---- Scaling

  /** `x` units of size 1024 to the power `unit`. */
  function Times(x: real, unit: nat): real
    decreases unit
  {
    if unit == 0 then x else Times(1024.0 * x, unit - 1)
  }

  lemma {:induction false} ScaleFits(amount: real, unit: nat)
    requires unit <= 4
    ensures var (a, u) := Scale(amount, unit);
            && unit <= u <= 4
            && Times(a, u) == Times(amount, unit)
            && (u < 4 ==> Abs(a) < 1024.0)
            && (if u == unit then a == amount else Abs(a) >= 1.0)
            && (amount >= 0.0 <==> a >= 0.0)
    decreases 4 - unit
  {
    if Abs(amount) >= 1024.0 && unit < 4 {
      ScaleFits(amount / 1024.0, unit + 1);
    }
  }

  lemma {:induction false} ScaleMonotone(x: real, y: real, unit: nat)
    requires unit <= 4 && 0.0 <= x <= y
    ensures var (a, u) := Scale(x, unit);
            var (b, v) := Scale(y, unit);
            u <= v && (u == v ==> a <= b)
    decreases 4 - unit
  {
    ScaleFits(y, unit);
    if x >= 1024.0 && unit < 4 {
      ScaleMonotone(x / 1024.0, y / 1024.0, unit + 1);
    } else if y >= 1024.0 && unit < 4 {
      ScaleFits(y / 1024.0, unit + 1);
    }
  }

  lemma {:induction false} TimesMonotone(x: real, y: real, unit: nat)
    requires x <= y
    ensures Times(x, unit) <= Times(y, unit)
    decreases unit
  {
    if unit > 0 {
      TimesMonotone(1024.0 * x, 1024.0 * y, unit - 1);
    }
  }

  lemma {:induction false} OneOfLargerUnit(u: nat, v: nat)
    requires u < v
    ensures Times(1024.0, u) <= Times(1.0, v)
  {
    if u + 1 < v {
      OneOfLargerUnit(u, v - 1);
      TimesMonotone(1.0, 1024.0, v - 1);
    }
  }

  // ---- What the number printed stands for

  function Shown(amount: real, unit: nat): real {
    Times(Tenths(amount, unit) as real / 10.0, unit)
  }

  /** The value the text denotes. */
  function Denoted(value: real): real {
    var (amount, unit) := Scale(value, 0);
    Shown(amount, unit)
  }

  lemma TenthsMonotone(a: real, b: real, unit: nat)
    requires 0.0 <= a <= b
    ensures Tenths(a, unit) <= Tenths(b, unit)
  {
    if unit == 0 {
      FloorMonotone(a, b);
    } else if b < 100.0 {
      RoundHalfEvenMonotone(10.0 * a, 10.0 * b);
    } else if a >= 100.0 {
      RoundHalfEvenMonotone(a, b);
    } else {
      RoundHalfEvenMonotone(10.0 * a, 1000.0);
      RoundHalfEvenMonotone(100.0, b);
    }
  }

  /** An amount below 1024 prints as at most 1024, one of 1 or more as at least 1. */
  lemma TenthsBounds(a: real, unit: nat)
    requires a >= 0.0
    ensures a < 1024.0 ==> Tenths(a, unit) <= 10240
    ensures a >= 1.0 ==> Tenths(a, unit) >= 10
  {}

  lemma NonNegativeOrder(x: real, y: real)
    requires 0.0 <= x <= y
    ensures Denoted(x) <= Denoted(y)
  {
    var (a, u) := Scale(x, 0);
    var (b, v) := Scale(y, 0);
    ScaleFits(x, 0);
    ScaleFits(y, 0);
    ScaleMonotone(x, y, 0);
    if u == v {
      TenthsMonotone(a, b, u);
      TimesMonotone(Tenths(a, u) as real / 10.0, Tenths(b, u) as real / 10.0, u);
    } else {
      TenthsBounds(a, u);
      TenthsBounds(b, v);
      SmallerUnitIsLess(Tenths(a, u), u, Tenths(b, v), v);
    }
  }

  lemma SmallerUnitIsLess(s: int, u: nat, t: int, v: nat)
    requires u < v && s <= 10240 && t >= 10
    ensures Times(s as real / 10.0, u) <= Times(t as real / 10.0, v)
  {
    OneOfLargerUnit(u, v);
    TimesMonotone(s as real / 10.0, 1024.0, u);
    TimesMonotone(1.0, t as real / 10.0, v);
  }

  // ---- Negative values mirror the positive ones

  lemma {:induction false} ScaleIsOdd(amount: real, unit: nat)
    requires unit <= 4
    ensures Scale(-amount, unit) == (-Scale(amount, unit).0, Scale(amount, unit).1)
    decreases 4 - unit
  {
    if Abs(amount) >= 1024.0 && unit < 4 {
      ScaleIsOdd(amount / 1024.0, unit + 1);
      assert -amount / 1024.0 == -(amount / 1024.0);
    }
  }

  lemma TenthsAreOdd(amount: real, unit: nat)
    ensures Tenths(-amount, unit) == -Tenths(amount, unit)
  {
    RoundHalfEvenIsOdd(amount);
    RoundHalfEvenIsOdd(10.0 * amount);
    assert 10.0 * -amount == -(10.0 * amount);
  }

  lemma {:induction false} TimesIsOdd(x: real, unit: nat)
    ensures Times(-x, unit) == -Times(x, unit)
    decreases unit
  {
    if unit > 0 {
      TimesIsOdd(1024.0 * x, unit - 1);
      assert 1024.0 * -x == -(1024.0 * x);
    }
  }

  lemma DenotedIsOdd(value: real)
    ensures Denoted(-value) == -Denoted(value)
  {
    var (amount, unit) := Scale(value, 0);
    ScaleIsOdd(value, 0);
    ShownIsOdd(amount, unit);
  }

  lemma ShownIsOdd(amount: real, unit: nat)
    ensures Shown(-amount, unit) == -Shown(amount, unit)
  {
    var tenths := Tenths(amount, unit);
    TenthsAreOdd(amount, unit);
    TimesIsOdd(tenths as real / 10.0, unit);
    assert (-tenths) as real / 10.0 == -(tenths as real / 10.0);
  }

  /** Printing never reverses the order of two values. */
  lemma DenotedMonotone(x: real, y: real)
    requires x <= y
    ensures Denoted(x) <= Denoted(y)
  {
    if 0.0 <= x {
      NonNegativeOrder(x, y);
    } else if y <= 0.0 {
      NonNegativeOrder(-y, -x);
      DenotedIsOdd(x);
      DenotedIsOdd(y);
    } else {
      NonNegativeOrder(0.0, -x);
      NonNegativeOrder(0.0, y);
      DenotedIsOdd(x);
    }
  }

  // ---- What printing loses

  /** Half a unit of the last printed digit. */
  function HalfPlace(amount: real): real { if Abs(amount) < 100.0 then 0.05 else 0.5 }

  lemma TenthsAreNear(amount: real, unit: nat)
    requires unit > 0
    ensures Abs(Tenths(amount, unit) as real / 10.0 - amount) <= HalfPlace(amount)
  {
    RoundHalfEvenIsNear(amount);
    RoundHalfEvenIsNear(10.0 * amount);
  }

  lemma {:induction false} TimesIsNear(x: real, y: real, error: real, unit: nat)
    requires Abs(x - y) <= error
    ensures Abs(Times(x, unit) - Times(y, unit)) <= Times(error, unit)
    decreases unit
  {
    if unit > 0 {
      TimesIsNear(1024.0 * x, 1024.0 * y, 1024.0 * error, unit - 1);
    }
  }

  lemma {:induction false} TimesOfMultiples(x: real, unit: nat)
    ensures Times(10.0 * x, unit) == 10.0 * Times(x, unit)
    ensures Times(2.0 * x, unit) == 2.0 * Times(x, unit)
    decreases unit
  {
    if unit > 0 {
      TimesOfMultiples(1024.0 * x, unit - 1);
      assert 1024.0 * (10.0 * x) == 10.0 * (1024.0 * x);
      assert 1024.0 * (2.0 * x) == 2.0 * (1024.0 * x);
    }
  }

  lemma {:induction false} TimesOfZero(unit: nat)
    ensures Times(0.0, unit) == 0.0
    decreases unit
  {
    if unit > 0 {
      TimesOfZero(unit - 1);
    }
  }

  lemma TimesOfAbs(x: real, unit: nat)
    ensures Abs(Times(x, unit)) == Times(Abs(x), unit)
  {
    TimesIsOdd(x, unit);
    TimesOfZero(unit);
    TimesMonotone(0.0, Abs(x), unit);
  }

  lemma HalfPlaceIsSmall(amount: real, unit: nat)
    ensures Abs(amount) >= 1.0 ==> 20.0 * Times(HalfPlace(amount), unit) <= Abs(Times(amount, unit))
    ensures Abs(amount) >= 100.0 ==> 200.0 * Times(HalfPlace(amount), unit) <= Abs(Times(amount, unit))
  {
    var half := HalfPlace(amount);
    TimesOfAbs(amount, unit);
    TimesOfMultiples(half, unit);
    TimesOfMultiples(10.0 * half, unit);
    TimesOfMultiples(100.0 * half, unit);
    assert 10.0 * (10.0 * half) == 100.0 * half && 2.0 * (10.0 * half) == 20.0 * half;
    assert 2.0 * (100.0 * half) == 200.0 * half;
    if Abs(amount) >= 1.0 {
      TimesMonotone(20.0 * half, Abs(amount), unit);
    }
    if Abs(amount) >= 100.0 {
      TimesMonotone(200.0 * half, Abs(amount), unit);
    }
  }

  /** Below 1024 the fraction of a byte is dropped and nothing else.  From there on the
      error is at most half a unit of the last printed digit, which is within 5 percent,
      and within half a percent once the scaled amount reaches 100. */
  lemma DenotedIsClose(value: real)
    ensures Abs(value) < 1024.0 ==> Denoted(value) == Truncate(value) as real
    ensures Abs(value) >= 1024.0 ==>
              var (amount, unit) := Scale(value, 0);
              && Abs(Denoted(value) - value) <= Times(HalfPlace(amount), unit)
              && 20.0 * Times(HalfPlace(amount), unit) <= Abs(value)
              && (Abs(amount) >= 100.0 ==> 200.0 * Times(HalfPlace(amount), unit) <= Abs(value))
  {
    var (amount, unit) := Scale(value, 0);
    ScaleFits(value, 0);
    if unit > 0 {
      TenthsAreNear(amount, unit);
      TimesIsNear(Tenths(amount, unit) as real / 10.0, amount, HalfPlace(amount), unit);
      HalfPlaceIsSmall(amount, unit);
    } else {
      assert amount == value;
    }
  }

  /** Dropping the fraction goes towards zero, loses less than one, and keeps whole values. */
  lemma TruncateIsTowardsZero(x: real)
    ensures Abs(Truncate(x) as real) <= Abs(x) < Abs(Truncate(x) as real) + 1.0
    ensures x == x.Floor as real ==> Truncate(x) as real == x
  {
    if x < 0.0 {
      FloorIsBelow(-x);
      assert x == x.Floor as real ==> (-x).Floor == -x.Floor;
    } else {
      FloorIsBelow(x);
    }
  }

  lemma FloorIsBelow(x: real)
    requires x >= 0.0
    ensures 0.0 <= x.Floor as real <= x < x.Floor as real + 1.0
  {}

  // ---- Reading the text back

  predicate NotSpace(c: char) { c != ' ' }

  /** Digits, optionally a point and one more digit, in tenths. */
  function ReadNumber(s: string): Option<nat> {
    var n := Run(IsDigit, s);
    RunIsAll(IsDigit, s);
    if n == 0 then None
    else if n == |s| then Some(10 * Value(s))
    else if n + 2 == |s| && s[n] == '.' && IsDigit(s[n + 1]) then
      Some(10 * Value(s[..n]) + (s[n + 1] as int - '0' as int))
    else None
  }

  function ReadSigned(s: string): Option<int> {
    if s != "" && s[0] == '-' then
      match ReadNumber(s[1..])
      case Some(n) => var m: int := n; Some(-m)
      case None => None
    else
      match ReadNumber(s)
      case Some(n) => Some(n)
      case None => None
  }

  /** The units a reader knows, with their sizes in bytes. */
  const SIZES: map<string, real> := map["bytes" := 1.0, "kB" := 1024.0, "MB" := 1048576.0,
                                        "GB" := 1073741824.0, "TB" := 1099511627776.0]

  function BytesOf(unit: string): Option<real> {
    if unit in SIZES then Some(SIZES[unit]) else None
  }

  /** Number, space, unit. */
  function ReadSize(s: string): Option<real> {
    var n := Run(NotSpace, s);
    if n == |s| then None
    else
      match (ReadSigned(s[..n]), BytesOf(s[n + 1..]))
      case (Some(tenths), Some(size)) => Some(tenths as real / 10.0 * size)
      case _ => None
  }

  lemma ReadsDigits(whole: string, d: char)
    requires whole != "" && All(IsDigit, whole) && IsDigit(d)
    ensures ReadNumber(whole) == Some(10 * Value(whole))
    ensures ReadNumber(whole + ['.', d]) == Some(10 * Value(whole) + (d as int - '0' as int))
  {
    RunStops(IsDigit, whole, "");
    assert whole + "" == whole;
    var text := whole + ['.', d];
    RunStops(IsDigit, whole, ['.', d]);
    assert text[..|whole|] == whole;
  }

  lemma OneDigit(d: nat)
    requires d < 10
    ensures Digits(d) == [('0' as int + d) as char]
  {}

  lemma UnsignedReadsBack(n: nat, decimal: bool)
    requires decimal || n % 10 == 0
    ensures ReadNumber(UnsignedText(n, decimal)) == Some(n)
    ensures All(NotSpace, UnsignedText(n, decimal)) && UnsignedText(n, decimal)[0] != '-'
  {
    var whole, d := Digits(n / 10), ('0' as int + n % 10) as char;
    DigitsReadBack(n / 10);
    OneDigit(n % 10);
    ReadsDigits(whole, d);
    assert whole[0] in whole;
    assert UnsignedText(n, decimal) == whole + if decimal then ['.', d] else "";
    assert whole + "" == whole;
  }

  lemma SignedReadsBack(text: string, n: nat)
    requires text != "" && text[0] != '-' && ReadNumber(text) == Some(n)
    ensures ReadSigned("" + text) == Some(n) && ReadSigned("-" + text) == Some(0 - n)
  {
    assert "" + text == text;
    assert ("-" + text)[1..] == text;
  }

  lemma NumberReadsBack(tenths: int, decimal: bool)
    requires decimal || tenths % 10 == 0
    ensures ReadSigned(NumberText(tenths, decimal)) == Some(tenths)
    ensures All(NotSpace, NumberText(tenths, decimal))
  {
    var n := Unsigned(tenths);
    var text := UnsignedText(n, decimal);
    assert ReadNumber(text) == Some(n) && All(NotSpace, text) && text != "" && text[0] != '-' by {
      UnsignedReadsBack(n, decimal);
    }
    SignedReadsBack(text, n);
    AllOfSum(NotSpace, if tenths < 0 then "-" else "", text);
  }

  lemma PointIffDecimal(tenths: int, decimal: bool)
    ensures '.' in NumberText(tenths, decimal) <==> decimal
  {
    var whole := Digits(Unsigned(tenths) / 10);
    assert !IsDigit('.') && '.' !in whole;
  }

  lemma UnitReadsBack(x: real, unit: nat)
    requires unit <= 4
    ensures BytesOf(UNITS[unit]).Some? && x * BytesOf(UNITS[unit]).value == Times(x, unit)
    decreases unit
  {
    if unit > 0 {
      UnitReadsBack(1024.0 * x, unit - 1);
    }
  }

  lemma SplitAtSpace(number: string, unit: string)
    requires All(NotSpace, number)
    ensures var text := number + " " + unit;
            var n := Run(NotSpace, text);
            n < |text| && text[..n] == number && text[n + 1..] == unit
  {
    assert number + " " + unit == number + (" " + unit);
    RunStops(NotSpace, number, " " + unit);
  }

  lemma ReadsParts(number: string, name: string, tenths: int, size: real)
    requires ReadSigned(number) == Some(tenths) && All(NotSpace, number) && BytesOf(name) == Some(size)
    ensures ReadSize(number + " " + name) == Some(tenths as real / 10.0 * size)
  {
    SplitAtSpace(number, name);
  }

  lemma TenthsAreWhole(amount: real, unit: nat)
    ensures HasDecimal(amount, unit) || Tenths(amount, unit) % 10 == 0
  {}

  lemma PrintedReadsBack(tenths: int, decimal: bool, name: string, size: real)
    requires (decimal || tenths % 10 == 0) && BytesOf(name) == Some(size)
    ensures ReadSize(NumberText(tenths, decimal) + " " + name) == Some(tenths as real / 10.0 * size)
  {
    NumberReadsBack(tenths, decimal);
    ReadsParts(NumberText(tenths, decimal), name, tenths, size);
  }

  lemma ShownReadsBack(amount: real, unit: nat, name: string, size: real)
    requires BytesOf(name) == Some(size) && Tenths(amount, unit) as real / 10.0 * size == Shown(amount, unit)
    ensures ReadSize(NumberText(Tenths(amount, unit), HasDecimal(amount, unit)) + " " + name) ==
            Some(Shown(amount, unit))
  {
    TenthsAreWhole(amount, unit);
    PrintedReadsBack(Tenths(amount, unit), HasDecimal(amount, unit), name, size);
  }

  /** The printed text reads back as the value it denotes. */
  lemma TextReadsBack(value: real)
    ensures ReadSize(SizeText(value)) == Some(Denoted(value))
  {
    ScaleFits(value, 0);
    var (amount, unit) := Scale(value, 0);
    var size := ShownSize(amount, unit);
    ShownReadsBack(amount, unit, UNITS[unit], size);
  }

  lemma ShownSize(amount: real, unit: nat) returns (size: real)
    requires unit <= 4
    ensures BytesOf(UNITS[unit]) == Some(size) && Tenths(amount, unit) as real / 10.0 * size == Shown(amount, unit)
  {
    UnitReadsBack(Tenths(amount, unit) as real / 10.0, unit);
    size := BytesOf(UNITS[unit]).value;
  }

  /** What is read from two printed sizes is never in the opposite order. */
  lemma PrintingKeepsOrder(x: real, y: real)
    requires x <= y
    ensures ReadSize(SizeText(x)).Some? && ReadSize(SizeText(y)).Some?
    ensures ReadSize(SizeText(x)).value <= ReadSize(SizeText(y)).value
  {
    TextReadsBack(x);
    TextReadsBack(y);
    DenotedMonotone(x, y);
  }

  // ---- The text without the loop

  /** The unit a size is printed in. */
  function UnitFor(size: real): string {
    if size < 1024.0 then "bytes"
    else if size < 1048576.0 then "kB"
    else if size < 1073741824.0 then "MB"
    else if size < 1099511627776.0 then "GB"
    else "TB"
  }

  lemma ScaleIs(value: real) returns (size: real)
    ensures size > 0.0
    ensures var (amount, unit) := Scale(value, 0);
            && unit <= 4 && UNITS[unit] == UnitFor(Abs(value))
            && BytesOf(UNITS[unit]) == Some(size) && amount == value / size
  {
    var (amount, unit) := Scale(value, 0);
    ScaleFits(value, 0);
    size := AmountSize(amount, unit);
    UnitOfAmount(Abs(amount), unit, size, Abs(value));
  }

  lemma AmountSize(amount: real, unit: nat) returns (size: real)
    requires unit <= 4
    ensures size > 0.0 && BytesOf(UNITS[unit]) == Some(size)
    ensures amount == Times(amount, unit) / size && Abs(amount) * size == Abs(Times(amount, unit))
  {
    TimesOfAbs(amount, unit);
    UnitReadsBack(1.0, unit);
    UnitReadsBack(amount, unit);
    UnitReadsBack(Abs(amount), unit);
    size := BytesOf(UNITS[unit]).value;
    OneIsPositive(unit);
    assert amount * size / size == amount;
  }

  lemma {:induction false} OneIsPositive(unit: nat)
    ensures Times(1.0, unit) >= 1.0
    decreases unit
  {
    if unit > 0 {
      OneIsPositive(unit - 1);
      TimesMonotone(1.0, 1024.0, unit - 1);
    }
  }

  lemma UnitOfAmount(amount: real, unit: nat, size: real, total: real)
    requires unit <= 4 && BytesOf(UNITS[unit]) == Some(size) && total == amount * size
    requires (unit < 4 ==> 0.0 <= amount < 1024.0) && (unit > 0 ==> amount >= 1.0)
    ensures UnitFor(total) == UNITS[unit]
  {
    match unit
    case 0 => assert UNITS[0] == "bytes";
    case 1 => assert UNITS[1] == "kB";
    case 2 => assert UNITS[2] == "MB";
    case 3 => assert UNITS[3] == "GB";
    case 4 => assert UNITS[4] == "TB";
  }

  /** The unit is the one the size calls for.  Bytes are printed whole; of the other
      units a hundred or more are printed whole and less with one decimal, rounded to
      the nearest, ties to even. */
  lemma SizeTextIs(value: real)
    ensures var name := UnitFor(Abs(value));
            && BytesOf(name).Some?
            && var amount := value / BytesOf(name).value;
            && (name == "bytes" ==> SizeText(value) == NumberText(10 * Truncate(value), false) + " bytes")
            && (name != "bytes" && Abs(amount) >= 100.0 ==>
                  SizeText(value) == NumberText(10 * RoundHalfEven(amount), false) + " " + name)
            && (name != "bytes" && Abs(amount) < 100.0 ==>
                  SizeText(value) == NumberText(RoundHalfEven(10.0 * amount), true) + " " + name)
  {
    ScaleFits(value, 0);
    var size := ScaleIs(value);
    UnitsDiffer(Scale(value, 0).1);
  }

  lemma UnitsDiffer(unit: nat)
    requires unit <= 4
    ensures UNITS[unit] == "bytes" <==> unit == 0
  {
    assert |UNITS[unit]| == 5 <==> unit == 0;
  }
}

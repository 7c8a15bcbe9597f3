/**
 Numbers. Formatting and reading of doubles belong to the C library, so the JSON code is modelled
 over any pair of such functions; `Decimal` is the reading that strtod makes of the bytes that
 parse_number hands to it, without rounding, together with "%1.15g" on integers below 10^15.
 */
module Numbers {
  import opened Text

  datatype Double = Finite(r: real) | Infinite(negative: bool) | NaN

  /** The C library: "%1.15g", "%1.17g", and strtod with the number of bytes it used. */
  datatype Codec = Codec(brief: real -> cstring, full: real -> cstring, scan: seq<byte> -> (Double, nat))

  /** The bytes parse_number copies. */
  predicate NumberByte(b: byte) {
    IsDigit(b) || b == PLUS || b == MINUS || b == DOT || b == 101 || b == 69
  }

  /** What fits parse_number's buffer of 64 beside the terminator. */
  const NUMBER_ROOM := 63

  /** The longest run of number bytes that fits. */
  function NumberRun(s: seq<byte>, room: nat): (r: seq<byte>)
    ensures r <= s && |r| <= room
    ensures forall i :: 0 <= i < |r| ==> NumberByte(r[i])
    ensures |r| < room && |r| < |s| ==> !NumberByte(s[|r|])
    decreases room
  {
    if room == 0 || s == [] || !NumberByte(s[0]) then [] else [s[0]] + NumberRun(s[1..], room - 1)
  }

  lemma {:induction false} NumberRunExact(t: seq<byte>, rest: seq<byte>, room: nat)
    requires |t| <= room && forall i :: 0 <= i < |t| ==> NumberByte(t[i])
    requires rest != [] && |t| < room ==> !NumberByte(rest[0])
    ensures NumberRun(t + rest, room) == t
  {
    if t == [] {
      assert t + rest == rest;
    } else {
      assert (t + rest)[1..] == t[1..] + rest;
      NumberRunExact(t[1..], rest, room - 1);
    }
  }

  /** strtod never uses bytes it was not given; using none is a failure. */
  function Strtod(c: Codec, t: seq<byte>): (r: Option<(Double, nat)>)
    ensures r.Some? ==> 0 < r.value.1 <= |t|
  {
    if 0 < c.scan(t).1 <= |t| then Some(c.scan(t)) else None
  }

  const INT_MAX := 0x7FFF_FFFF
  const INT_MIN := -0x8000_0000

  /** The fraction dropped. */
  function Truncate(r: real): (n: int) {
    if r < 0.0 then -(-r).Floor else r.Floor
  }

  /** The int beside a double. Of a NaN, which strtod does not make of number bytes, it is the one x86-64 makes. */
  function Saturate(d: Double): (n: int) {
    match d
    case NaN => INT_MIN
    case Infinite(negative) => if negative then INT_MIN else INT_MAX
    case Finite(r) =>
      if r >= INT_MAX as real then INT_MAX
      else if r <= INT_MIN as real then INT_MIN
      else Truncate(r)
  }

  /** It is an int on the number's side of zero, no further from zero, and the furthest such int. */
  lemma SaturateNearest(r: real, k: int)
    ensures var n := Saturate(Finite(r));
            && INT_MIN <= n <= INT_MAX
            && (r >= 0.0 ==> 0 <= n && n as real <= r && (k <= INT_MAX && k as real <= r ==> k <= n))
            && (r < 0.0 ==> n <= 0 && r <= n as real && (INT_MIN <= k && r <= k as real ==> n <= k))
            && Saturate(Infinite(true)) == -0x8000_0000 <= n <= 0x7FFF_FFFF == Saturate(Infinite(false))
  {
    if r < 0.0 {
      FloorLeast(-r, -k);
    } else {
      FloorLeast(r, k);
    }
  }

  lemma FloorLeast(r: real, k: int)
    ensures k as real <= r ==> k <= r.Floor
  {
  }

  const EPSILON: real := 1.0 / 4503599627370496.0

  function Abs(r: real): (a: real) {
    if r < 0.0 then -r else r
  }

  // ---- double arithmetic as IEEE 754 has it, but for rounding ----

  function Fabs(d: Double): (a: Double) {
    match d
    case Finite(r) => Finite(Abs(r))
    case Infinite(_) => Infinite(false)
    case NaN => NaN
  }

  /** x - y; equal infinities have no difference. */
  function Minus(x: Double, y: Double): (d: Double) {
    if x.NaN? || y.NaN? || (x.Infinite? && x == y) then NaN
    else if x.Infinite? then x
    else if y.Infinite? then Infinite(!y.negative)
    else Finite(x.r - y.r)
  }

  function TimesEpsilon(d: Double): (p: Double) {
    if d.Finite? then Finite(d.r * EPSILON) else d
  }

  /** x <= y, which is false of a NaN. */
  predicate AtMost(x: Double, y: Double) {
    if x.NaN? || y.NaN? then false
    else if x.Infinite? then x.negative || y == x
    else if y.Infinite? then !y.negative
    else x.r <= y.r
  }

  predicate Exceeds(x: Double, y: Double) {
    !x.NaN? && !y.NaN? && !AtMost(x, y)
  }

  /** compare_double. */
  predicate CompareDouble(x: Double, y: Double) {
    var most := if Exceeds(Fabs(x), Fabs(y)) then Fabs(x) else Fabs(y);
    AtMost(Fabs(Minus(x, y)), TimesEpsilon(most))
  }

  /** Case by case: an infinity counts as equal to every number but itself, and a NaN to none. */
  lemma ComparedCases(x: Double, y: Double)
    ensures CompareDouble(x, y) <==>
      && !x.NaN? && !y.NaN?
      && (x.Infinite? || y.Infinite? ==> x != y)
      && (x.Finite? && y.Finite? ==> Abs(x.r - y.r) <= (if Abs(x.r) > Abs(y.r) then Abs(x.r) else Abs(y.r)) * EPSILON)
  {
  }

  /** Reading the text gives a number close to `r`. */
  predicate Recovers(c: Codec, t: seq<byte>, r: real) {
    c.scan(t).1 > 0 && CompareDouble(c.scan(t).0, Finite(r))
  }

  /** The text print_number settles on: 15 digits if they recover the number, else 17. */
  function Settle(c: Codec, r: real): (t: cstring) {
    if Recovers(c, c.brief(r), r) then c.brief(r) else c.full(r)
  }

  /** Whatever it settles on recovers the number, if 17 digits do. */
  lemma SettleRecovers(c: Codec, r: real)
    ensures Recovers(c, Settle(c, r), r) <==> Recovers(c, c.brief(r), r) || Recovers(c, c.full(r), r)
  {
  }

  /** print_number prints what is not finite as null and rejects more than 25 bytes. */
  predicate Printable(c: Codec, d: Double) {
    d.Finite? ==> |Settle(c, d.r)| <= 25
  }

  function Format(c: Codec, d: Double): (t: cstring) {
    if d.Finite? then Settle(c, d.r) else NULL_WORD
  }

  /** The printed text is a number as a whole. */
  predicate Legible(c: Codec, r: real) {
    var t := Settle(c, r);
    && t != [] && (t[0] == MINUS || IsDigit(t[0]))
    && (forall i :: 0 <= i < |t| ==> NumberByte(t[i]))
    && c.scan(t).1 == |t|
  }

  /** What reading the printed text gives. */
  function ReadBack(c: Codec, r: real): (d: Double) {
    c.scan(Settle(c, r)).0
  }

  /** Reading back the printed text gives the same number. */
  predicate Faithful(c: Codec, r: real) {
    Legible(c, r) && ReadBack(c, r) == Finite(r)
  }

  /** A legible text gives back a number that compare_double takes for the old one, if either form does. */
  lemma ReadBackClose(c: Codec, r: real)
    requires Legible(c, r)
    ensures CompareDouble(ReadBack(c, r), Finite(r)) <==> Recovers(c, c.brief(r), r) || Recovers(c, c.full(r), r)
  {
    SettleRecovers(c, r);
  }

  /** The 15 digits of the number are beyond every double. */
  predicate BriefOverflows(c: Codec, r: real) {
    c.scan(c.brief(r)).1 > 0 && c.scan(c.brief(r)).0.Infinite?
  }

  /**
   With 17 digits that read back as a finite number, the printed text reads back as an infinity exactly
   when the 15 digits do: compare_double takes the infinity for the number.
   */
  lemma OverflowExactly(c: Codec, r: real)
    requires Legible(c, r) && c.scan(c.full(r)).0.Finite?
    ensures ReadBack(c, r).Infinite? <==> BriefOverflows(c, r)
    ensures ReadBack(c, r).Finite? <==> !BriefOverflows(c, r)
    ensures ReadBack(c, r).Infinite? ==> Settle(c, r) == c.brief(r) && Format(c, ReadBack(c, r)) == NULL_WORD
  {
    hide CompareDouble;
    ComparedCases(c.scan(c.brief(r)).0, Finite(r));
  }

  // ---------------------------------------------------------------- the C library on decimals

  function DigitCount(t: seq<byte>): (n: nat)
    ensures n <= |t|
    ensures forall i :: 0 <= i < n ==> IsDigit(t[i])
    ensures n < |t| ==> !IsDigit(t[n])
  {
    if t == [] || !IsDigit(t[0]) then 0 else 1 + DigitCount(t[1..])
  }

  function DigitsValue(t: seq<byte>): (v: nat)
    requires forall i :: 0 <= i < |t| ==> IsDigit(t[i])
  {
    if t == [] then 0
    else
      assert IsDigit(t[|t| - 1]);
      DigitsValue(t[..|t| - 1]) * 10 + (t[|t| - 1] as int - 48)
  }

  function Pow10(k: int): (r: real)
    ensures r > 0.0
    decreases if k < 0 then -k else k
  {
    if k == 0 then 1.0 else if k > 0 then 10.0 * Pow10(k - 1) else Pow10(k + 1) / 10.0
  }

  function SignLength(t: seq<byte>): (n: nat)
    ensures n <= |t|
  {
    if t != [] && (t[0] == PLUS || t[0] == MINUS) then 1 else 0
  }

  /** Length of a point and the digits behind it. */
  function FractionLength(t: seq<byte>): (n: nat)
    ensures n <= |t|
    ensures n > 0 ==> forall i :: 1 <= i < n ==> IsDigit(t[i])
  {
    if t != [] && t[0] == DOT then 1 + DigitCount(t[1..]) else 0
  }

  /** Length of an exponent; a letter without digits behind it is not one. */
  function ExponentLength(t: seq<byte>): (n: nat)
    ensures n <= |t|
  {
    if t == [] || (t[0] != 101 && t[0] != 69) then 0
    else
      var s := SignLength(t[1..]);
      var d := DigitCount(t[1 + s..]);
      if d == 0 then 0 else 1 + s + d
  }

  function ExponentValue(t: seq<byte>): (k: int) {
    if ExponentLength(t) == 0 then 0
    else
      var s := SignLength(t[1..]);
      var d := DigitCount(t[1 + s..]);
      var v: int := DigitsValue(t[1 + s..][..d]);
      if t[1] == MINUS then -v else v
  }

  /** 2^970. */
  function LastUnit(): (r: real) {
    18446744073709551616.0 * 18446744073709551616.0 * 18446744073709551616.0 * 18446744073709551616.0 * 18446744073709551616.0 *
    18446744073709551616.0 * 18446744073709551616.0 * 18446744073709551616.0 * 18446744073709551616.0 * 18446744073709551616.0 *
    18446744073709551616.0 * 18446744073709551616.0 * 18446744073709551616.0 * 18446744073709551616.0 * 18446744073709551616.0 * 1024.0
  }

  /** 2^1024 - 2^970: from here on rounding to the nearest double overflows. */
  function Overflow(): (r: real) {
    LastUnit() * 18014398509481983.0
  }

  /** The value as a double, but for rounding. */
  function Represented(r: real): (d: Double) {
    if Abs(r) >= Overflow() then Infinite(r < 0.0) else Finite(r)
  }

  /** The value of digits before and behind the point, with an exponent. */
  function Magnitude(whole: nat, part: nat, places: nat, exponent: int): (r: real) {
    (whole as real + part as real / Pow10(places)) * Pow10(exponent)
  }

  function WholeValue(t: seq<byte>): (v: nat) {
    DigitsValue(t[..DigitCount(t)])
  }

  function FractionValue(t: seq<byte>): (v: nat) {
    if FractionLength(t) == 0 then 0 else DigitsValue(t[1..FractionLength(t)])
  }

  function ScanDecimal(t: seq<byte>): (r: (Double, nat))
    ensures r.1 <= |t|
  {
    var s := SignLength(t);
    var n := DigitCount(t[s..]);
    var f := FractionLength(t[s + n..]);
    if n == 0 && f <= 1 then (Finite(0.0), 0)
    else
      var e := ExponentLength(t[s + n + f..]);
      var m := Magnitude(WholeValue(t[s..]), FractionValue(t[s + n..]), if f == 0 then 0 else f - 1, ExponentValue(t[s + n + f..]));
      (Represented(if s == 1 && t[0] == MINUS then -m else m), s + n + f + e)
  }

  function Digits(n: nat): (t: cstring)
    ensures t != [] && forall i :: 0 <= i < |t| ==> IsDigit(t[i])
  {
    if n < 10 then [48 + n] else Digits(n / 10) + [48 + n % 10]
  }

  function Decimal(n: int): (t: cstring) {
    if n < 0 then [MINUS] + Digits(-n) else Digits(n)
  }

  const INTEGER_LIMIT := 1_000_000_000_000_000

  predicate SmallInteger(r: real) {
    r == r.Floor as real && -INTEGER_LIMIT < r.Floor < INTEGER_LIMIT
  }

  /** The C library on the modelled numbers; `other` formats the remaining ones with 15 digits, `full` any with 17. */
  function CLibrary(other: real -> cstring, full: real -> cstring): (c: Codec) {
    Codec(r => if SmallInteger(r) then Decimal(r.Floor) else other(r), full, ScanDecimal)
  }

  lemma {:induction false} DigitsRead(n: nat)
    ensures DigitsValue(Digits(n)) == n
  {
    if n >= 10 {
      DigitsRead(n / 10);
      assert Digits(n)[..|Digits(n)| - 1] == Digits(n / 10);
    }
  }

  lemma {:induction false} DigitsShort(n: nat, k: nat, bound: nat)
    requires k > 0 && n < bound && bound == Tens(k)
    ensures |Digits(n)| <= k
    decreases k
  {
    if n >= 10 {
      DigitsShort(n / 10, k - 1, Tens(k - 1));
    }
  }

  function Tens(k: nat): (n: nat)
    ensures n > 0
  {
    if k == 0 then 1 else 10 * Tens(k - 1)
  }

  lemma {:induction false} AllDigits(t: seq<byte>)
    requires forall i :: 0 <= i < |t| ==> IsDigit(t[i])
    ensures DigitCount(t) == |t|
  {
    if t != [] {
      AllDigits(t[1..]);
    }
  }

  lemma SmallRepresented(r: real)
    requires Abs(r) < INTEGER_LIMIT as real
    ensures Represented(r) == Finite(r)
  {
  }

  lemma WholeMagnitude(n: nat)
    ensures Magnitude(n, 0, 0, 0) == n as real
  {
  }

  lemma DecimalRead(n: int)
    requires -INTEGER_LIMIT < n < INTEGER_LIMIT
    ensures ScanDecimal(Decimal(n)) == (Finite(n as real), |Decimal(n)|)
  {
    var t := Decimal(n);
    var d := if n < 0 then Digits(-n) else Digits(n);
    var s := if n < 0 then 1 else 0;
    assert SignLength(t) == s && t[s..] == d;
    AllDigits(d);
    DigitsRead(if n < 0 then -n else n);
    SmallRepresented(n as real);
    WholeMagnitude(if n < 0 then -n else n);
    hide Represented, DigitCount, DigitsValue, Digits, Magnitude;
    assert d[..|d|] == d;
    assert t[s + |d|..] == [];
  }

  lemma DecimalShort(n: int)
    requires -INTEGER_LIMIT < n < INTEGER_LIMIT
    ensures |Decimal(n)| <= 16
  {
    assert Tens(5) == 100_000;
    assert Tens(10) == 10_000_000_000;
    assert Tens(15) == INTEGER_LIMIT;
    DigitsShort(if n < 0 then -n else n, 15, INTEGER_LIMIT);
  }

  /** Printing and reading an integer below 10^15 in magnitude is exact, and the text fits. */
  lemma SmallIntegersFaithful(other: real -> cstring, full: real -> cstring, r: real)
    requires SmallInteger(r)
    ensures Faithful(CLibrary(other, full), r) && Printable(CLibrary(other, full), Finite(r))
  {
    hide ScanDecimal;
    DecimalRead(r.Floor);
    DecimalShort(r.Floor);
    assert CompareDouble(Finite(r), Finite(r));
  }

  /** 0.1 + 0.2 in binary floating point. */
  const TENTHS := 0.3000000000000000444089209850062616169452667236328125

  /** The digits "0.3". */
  const THREE_TENTHS: cstring := [48, 46, 51]

  lemma OneDigit(b: byte, rest: seq<byte>)
    requires IsDigit(b) && (rest == [] || !IsDigit(rest[0]))
    ensures DigitCount([b] + rest) == 1 && DigitsValue([b]) == b as int - 48
  {
    assert ([b] + rest)[1..] == rest;
    assert [b][..0] == [];
  }

  lemma TenthsParts()
    ensures var t := THREE_TENTHS;
            && SignLength(t) == 0 && DigitCount(t[0..]) == 1 && FractionLength(t[1..]) == 2
            && ExponentLength(t[3..]) == 0 && ExponentValue(t[3..]) == 0
            && WholeValue(t[0..]) == 0 && FractionValue(t[1..]) == 3
  {
    var t: seq<byte> := THREE_TENTHS;
    OneDigit(48, [46, 51]);
    OneDigit(51, []);
    hide DigitCount, DigitsValue;
    assert t[0..] == [48] + [46, 51] && t[0..][..1] == [48];
    assert t[1..][1..] == [51] + [] && t[1..][1..2] == [51];
  }

  lemma ScanTenths()
    ensures ScanDecimal(THREE_TENTHS) == (Finite(0.3), 3)
  {
    TenthsParts();
    assert Pow10(1) == 10.0;
    assert Magnitude(0, 3, 1, 0) == 0.3;
    SmallRepresented(0.3);
    hide DigitCount, WholeValue, FractionValue, SignLength, FractionLength, ExponentLength, ExponentValue, Magnitude, Represented;
  }

  /** Fifteen digits are kept although they do not give the number back: 0.1 + 0.2 is printed as 0.3. */
  lemma FifteenDigitsLose(c: Codec)
    requires c.brief(TENTHS) == THREE_TENTHS && c.scan == ScanDecimal
    ensures Settle(c, TENTHS) == THREE_TENTHS && ReadBack(c, TENTHS) == Finite(0.3) != Finite(TENTHS)
  {
    hide ScanDecimal;
    ScanTenths();
  }

  // ---- the largest double ----

  /** DBL_MAX: 2^1024 - 2^971. */
  function Largest(): (r: real) {
    LastUnit() * 18014398509481982.0
  }

  /** Its 15 digits: 1.79769313486232e+308. */
  function LargestDigits(): (t: seq<byte>) {
    ScientificText(49, Digits(79769313486232), Digits(308))
  }

  /** A digit, a point, digits, and an exponent with its sign. */
  function ScientificText(w: byte, part: seq<byte>, exponent: seq<byte>): (t: seq<byte>)
    requires IsDigit(w) && (forall i :: 0 <= i < |part| ==> IsDigit(part[i]))
    requires forall i :: 0 <= i < |exponent| ==> IsDigit(exponent[i])
  {
    [w, DOT] + part + [101, PLUS] + exponent
  }

  lemma {:induction false} DigitsThen(d: seq<byte>, rest: seq<byte>)
    requires (forall i :: 0 <= i < |d| ==> IsDigit(d[i])) && (rest == [] || !IsDigit(rest[0]))
    ensures DigitCount(d + rest) == |d|
  {
    if d == [] {
      assert d + rest == rest;
    } else {
      assert (d + rest)[1..] == d[1..] + rest;
      DigitsThen(d[1..], rest);
    }
  }

  lemma ExponentRead(exponent: seq<byte>)
    requires exponent != [] && forall i :: 0 <= i < |exponent| ==> IsDigit(exponent[i])
    ensures var t := [101, PLUS] + exponent;
            ExponentLength(t) == |t| && ExponentValue(t) == DigitsValue(exponent)
  {
    var t := [101, PLUS] + exponent;
    AllDigits(exponent);
    hide DigitCount, DigitsValue;
    assert t[1..][0] == PLUS && t[1 + 1..] == exponent && exponent[..|exponent|] == exponent;
  }

  lemma FractionRead(part: seq<byte>, rest: seq<byte>)
    requires (forall i :: 0 <= i < |part| ==> IsDigit(part[i])) && rest != [] && !IsDigit(rest[0])
    ensures FractionLength([DOT] + part + rest) == 1 + |part|
  {
    assert ([DOT] + part + rest)[1..] == part + rest;
    DigitsThen(part, rest);
  }

  lemma ScientificParts(w: byte, part: seq<byte>, exponent: seq<byte>)
    requires IsDigit(w) && (forall i :: 0 <= i < |part| ==> IsDigit(part[i])) && exponent != []
    requires forall i :: 0 <= i < |exponent| ==> IsDigit(exponent[i])
    ensures var t: seq<byte> := ScientificText(w, part, exponent);
            && t[0..] == [w] + ([DOT] + part + ([101, PLUS] + exponent)) && t[0..][..1] == [w]
            && t[1..] == [DOT] + part + ([101, PLUS] + exponent) && t[1..][1..1 + |part|] == part
            && t[2 + |part|..] == [101, PLUS] + exponent && |t| == 4 + |part| + |exponent|
  {
  }

  lemma ScientificScanned(w: byte, part: seq<byte>, exponent: seq<byte>)
    requires IsDigit(w) && (forall i :: 0 <= i < |part| ==> IsDigit(part[i])) && exponent != []
    requires forall i :: 0 <= i < |exponent| ==> IsDigit(exponent[i])
    ensures var t: seq<byte> := ScientificText(w, part, exponent);
            && |t| == 4 + |part| + |exponent| && SignLength(t) == 0 && DigitCount(t[0..]) == 1 && FractionLength(t[1..]) == 1 + |part|
            && ExponentLength(t[2 + |part|..]) == 2 + |exponent| && ExponentValue(t[2 + |part|..]) == DigitsValue(exponent)
            && WholeValue(t[0..]) == w as int - 48 && FractionValue(t[1..]) == DigitsValue(part)
  {
    var t: seq<byte> := ScientificText(w, part, exponent);
    ScientificParts(w, part, exponent);
    OneDigit(w, [DOT] + part + ([101, PLUS] + exponent));
    FractionRead(part, [101, PLUS] + exponent);
    ExponentRead(exponent);
    hide DigitCount, DigitsValue, FractionLength, ExponentLength, ExponentValue;
    assert t[0] == w;
  }

  lemma ScanAs(t: seq<byte>, places: nat, e: nat)
    requires 2 + places <= |t| && SignLength(t) == 0 && DigitCount(t[0..]) == 1
    requires FractionLength(t[1..]) == 1 + places && ExponentLength(t[2 + places..]) == e
    ensures ScanDecimal(t) ==
      (Represented(Magnitude(WholeValue(t[0..]), FractionValue(t[1..]), places, ExponentValue(t[2 + places..]))), 2 + places + e)
  {
    hide DigitCount, WholeValue, FractionValue, FractionLength, ExponentLength, ExponentValue, Represented, SignLength, Magnitude;
    var s := SignLength(t);
    var n := DigitCount(t[s..]);
    var f := FractionLength(t[s + n..]);
    assert s == 0 && n == 1 && f == 1 + places;
  }

  lemma ScientificRead(w: byte, part: seq<byte>, exponent: seq<byte>)
    requires IsDigit(w) && (forall i :: 0 <= i < |part| ==> IsDigit(part[i])) && exponent != []
    requires forall i :: 0 <= i < |exponent| ==> IsDigit(exponent[i])
    ensures var t := ScientificText(w, part, exponent);
            ScanDecimal(t) == (Represented(Magnitude(w as int - 48, DigitsValue(part), |part|, DigitsValue(exponent))), |t|)
  {
    hide *;
    ScientificScanned(w, part, exponent);
    ScanAs(ScientificText(w, part, exponent), |part|, 2 + |exponent|);
  }

  lemma {:induction false} DigitsLength(n: nat, k: nat)
    requires k > 0 && Tens(k - 1) <= n < Tens(k)
    ensures |Digits(n)| == k
    decreases k
  {
    if k > 1 {
      DigitsLength(n / 10, k - 1);
    }
  }

  lemma {:induction false} Pow10Add(a: nat, b: nat)
    ensures Pow10(a + b) == Pow10(a) * Pow10(b)
  {
    if a > 0 {
      Pow10Add(a - 1, b);
    }
  }

  lemma Ten16()
    ensures Pow10(16) == 10000000000000000.0 && Pow10(4) == 10000.0
  {
    assert Pow10(4) == 10000.0;
    Pow10Add(4, 4);
    Pow10Add(8, 8);
  }

  lemma Ten32()
    ensures Pow10(32) == 100000000000000000000000000000000.0
  {
    Ten16();
    Pow10Add(16, 16);
  }

  lemma Ten52()
    ensures Pow10(52) == 10000000000000000000000000000000000000000000000000000.0
  {
    Ten16();
    Ten32();
    Pow10Add(32, 16);
    Pow10Add(48, 4);
  }

  lemma Ten64()
    ensures Pow10(64) == 10000000000000000000000000000000000000000000000000000000000000000.0
  {
    Ten32();
    Pow10Add(32, 32);
  }

  /** 10^256, as the solver can compute it. */
  function Ten256(): (r: real) {
    10000000000000000000000000000000000000000000000000000000000000000.0 *
    10000000000000000000000000000000000000000000000000000000000000000.0 *
    10000000000000000000000000000000000000000000000000000000000000000.0 *
    10000000000000000000000000000000000000000000000000000000000000000.0
  }

  lemma Squared(k: nat, e: real)
    requires Pow10(k) == e
    ensures Pow10(2 * k) == e * e
  {
    Pow10Add(k, k);
  }

  lemma Ten256Is()
    ensures Pow10(256) == Ten256()
  {
    Ten64();
    hide Pow10;
    Squared(64, 10000000000000000000000000000000000000000000000000000000000000000.0);
    Squared(128, 10000000000000000000000000000000000000000000000000000000000000000.0 *
                 10000000000000000000000000000000000000000000000000000000000000000.0);
  }

  lemma Ten308()
    ensures Pow10(308) == Ten256() * 10000000000000000000000000000000000000000000000000000.0
  {
    Ten52();
    Ten256Is();
    hide Pow10, Ten256;
    Pow10Add(256, 52);
  }

  lemma BeyondOverflow()
    ensures 1.79769313486232 * (Ten256() * 10000000000000000000000000000000000000000000000000000.0) >= Overflow()
  {
  }

  lemma Ten14()
    ensures Pow10(14) == 100000000000000.0 && Tens(13) == 10000000000000 && Tens(14) == 100000000000000
  {
    assert Pow10(4) == 10000.0;
    Pow10Add(4, 4);
    assert Pow10(6) == 1000000.0;
    Pow10Add(8, 6);
    assert Tens(5) == 100000;
    assert Tens(9) == 1000000000;
    assert Tens(13) == 10000000000000;
  }

  lemma LargestMagnitude()
    ensures Magnitude(1, 79769313486232, 14, 308) >= Overflow() > 0.0
  {
    Ten14();
    Ten308();
    BeyondOverflow();
    assert Overflow() > 0.0;
    hide Pow10, Ten256, Overflow;
    assert 1.0 + 79769313486232.0 / 100000000000000.0 == 1.79769313486232;
  }

  lemma DigitsScanned(a: nat, k: nat)
    ensures var t := ScientificText(49, Digits(a), Digits(k));
            ScanDecimal(t) == (Represented(Magnitude(1, a, |Digits(a)|, k)), |t|)
  {
    hide ScientificText, ScanDecimal, Represented, Magnitude, Digits, DigitsValue;
    ScientificRead(49, Digits(a), Digits(k));
    DigitsRead(a);
    DigitsRead(k);
  }

  lemma Unrepresented(r: real)
    requires r >= Overflow() > 0.0
    ensures Represented(r) == Infinite(false)
  {
  }

  lemma LargestText()
    ensures LargestDigits() == ScientificText(49, Digits(79769313486232), Digits(308))
  {
    hide Digits, ScientificText;
  }

  /** Those digits are beyond every double. */
  lemma LargestOverflows()
    ensures ScanDecimal(LargestDigits()) == (Infinite(false), |LargestDigits()|)
  {
    Ten14();
    hide *;
    LargestMagnitude();
    Unrepresented(Magnitude(1, 79769313486232, 14, 308));
    DigitsLength(79769313486232, 14);
    DigitsScanned(79769313486232, 308);
    LargestText();
  }

  /**
   The largest double is lost: its 15 digits read back as an infinity, compare_double takes that for the
   number, so they are what is printed, and the next time null is.
   */
  lemma LargestLost(c: Codec)
    requires c.brief(Largest()) == LargestDigits() && c.scan == ScanDecimal
    ensures Settle(c, Largest()) == LargestDigits() && ReadBack(c, Largest()) == Infinite(false)
    ensures Format(c, ReadBack(c, Largest())) == NULL_WORD && Legible(c, Largest()) && Printable(c, Finite(Largest()))
  {
    hide ScanDecimal, LargestDigits, CompareDouble;
    LargestOverflows();
    ComparedCases(Infinite(false), Finite(Largest()));
    LargestLength();
  }

  lemma LargestLength()
    ensures var t := LargestDigits();
            0 < |t| <= 25 && IsDigit(t[0]) && forall i :: 0 <= i < |t| ==> NumberByte(t[i])
  {
    Ten14();
    assert Tens(2) == 100 && Tens(3) == 1000;
    LargestText();
    hide LargestDigits, Digits, Tens;
    DigitsLength(79769313486232, 14);
    DigitsLength(308, 3);
  }
}

/** Decimal text and canonical timestamps. An instant is represented by the order-preserving integer
    code of its UTC calendar fields (years 0 to 9999), so comparing instants is comparing integers and
    printing needs no calendar arithmetic. */
module Timestamps {

  predicate IsDigit(c: char) {
    '0' <= c <= '9'
  }

  predicate AllDigits(s: string) {
    forall i :: 0 <= i < |s| ==> IsDigit(s[i])
  }

  function Digit(n: nat): (c: char)
    requires n < 10
    ensures IsDigit(c)
  {
    '0' + n as char
  }

  function DigitValue(c: char): (n: nat)
    requires IsDigit(c)
    ensures n < 10 && Digit(n) == c
  {
    (c - '0') as nat
  }

  /** The number a string of digits denotes. */
  function Value(s: string): nat
    requires AllDigits(s)
  {
    if s == [] then 0 else 10 * Value(s[..|s| - 1]) + DigitValue(s[|s| - 1])
  }

  /** String(n) for a whole number. */
  function Decimal(n: nat): string {
    if n < 10 then [Digit(n)] else Decimal(n / 10) + [Digit(n % 10)]
  }

  lemma {:induction false} DecimalRoundTrip(n: nat)
    ensures Decimal(n) != [] && AllDigits(Decimal(n)) && Value(Decimal(n)) == n
  {
    if n < 10 {
      assert Decimal(n)[..0] == [];
    } else {
      DecimalRoundTrip(n / 10);
      assert Decimal(n)[..|Decimal(n)| - 1] == Decimal(n / 10);
    }
  }

  /** n padded with zeros to w digits. */
  function Padded(n: nat, w: nat): (s: string)
    ensures |s| == w && AllDigits(s)
  {
    if w == 0 then [] else Padded(n / 10, w - 1) + [Digit(n % 10)]
  }

  function Pow10(w: nat): nat {
    if w == 0 then 1 else 10 * Pow10(w - 1)
  }

  lemma {:induction false} PaddedValue(n: nat, w: nat)
    requires n < Pow10(w)
    ensures Value(Padded(n, w)) == n
  {
    if w > 0 {
      PaddedValue(n / 10, w - 1);
      assert Padded(n, w)[..w - 1] == Padded(n / 10, w - 1);
    }
  }

  datatype Stamp = Stamp(
    year: nat, month: nat, day: nat, hour: nat, minute: nat, second: nat, milli: nat)

  const TIME_LIMIT := 321_408_000_000_000 // 10000 years of 12 months of 31 days, in milliseconds

  type Time = t: int | 0 <= t < TIME_LIMIT

  predicate Printable(f: Stamp) {
    f.year < 10000 && f.month < 100 && f.day < 100 && f.hour < 100 && f.minute < 100 &&
    f.second < 100 && f.milli < 1000
  }

  function Fields(t: Time): (f: Stamp)
    ensures f.year < 10000 && 1 <= f.month <= 12 && 1 <= f.day <= 31
    ensures f.hour < 24 && f.minute < 60 && f.second < 60 && f.milli < 1000
  {
    var s: nat := t / 1000;
    assert s < 10000 * 12 * 31 * 24 * 60 * 60;
    var mi: nat := s / 60;
    assert mi < 10000 * 12 * 31 * 24 * 60;
    var h: nat := mi / 60;
    assert h < 10000 * 12 * 31 * 24;
    var d: nat := h / 24;
    assert d < 10000 * 12 * 31;
    var mo: nat := d / 31;
    Stamp(mo / 12, mo % 12 + 1, d % 31 + 1, h % 24, mi % 60, s % 60, t % 1000)
  }

  /** The number of milliseconds in calendar fields, with months of 31 days. */
  function Code(f: Stamp): int {
    ((((((f.year * 12 + f.month - 1) * 31 + f.day - 1) * 24 + f.hour) * 60 + f.minute) * 60 + f.second) * 1000
     + f.milli)
  }

  /** The fields of an instant are those whose code it is. */
  lemma FieldsCode(t: Time)
    ensures Code(Fields(t)) == t
  {
    var s := t / 1000;
    var mi := s / 60;
    var h := mi / 60;
    var d := h / 24;
    var mo := d / 31;
    assert t == s * 1000 + t % 1000 && s == mi * 60 + s % 60 && mi == h * 60 + mi % 60;
    assert h == d * 24 + h % 24 && d == mo * 31 + d % 31 && mo == (mo / 12) * 12 + mo % 12;
  }

  function Print(f: Stamp): string {
    Padded(f.year, 4) + "-" + Padded(f.month, 2) + "-" + Padded(f.day, 2) + "T" +
    Padded(f.hour, 2) + ":" + Padded(f.minute, 2) + ":" + Padded(f.second, 2) + "." +
    Padded(f.milli, 3) + "Z"
  }

  /** toISOString */
  function Iso(t: Time): string
  {
    Print(Fields(t))
  }

  /** Where each field sits in the text. */
  lemma PrintParts(f: Stamp)
    ensures
      var s := Print(f);
      && |s| == 24
      && s[0..4] == Padded(f.year, 4) && s[4] == '-' && s[5..7] == Padded(f.month, 2)
      && s[7] == '-' && s[8..10] == Padded(f.day, 2) && s[10] == 'T'
      && s[11..13] == Padded(f.hour, 2) && s[13] == ':' && s[14..16] == Padded(f.minute, 2)
      && s[16] == ':' && s[17..19] == Padded(f.second, 2) && s[19] == '.'
      && s[20..23] == Padded(f.milli, 3) && s[23] == 'Z'
  {
  }

  lemma FieldValues(f: Stamp)
    requires Printable(f)
    ensures Value(Padded(f.year, 4)) == f.year && Value(Padded(f.month, 2)) == f.month
    ensures Value(Padded(f.day, 2)) == f.day && Value(Padded(f.hour, 2)) == f.hour
    ensures Value(Padded(f.minute, 2)) == f.minute && Value(Padded(f.second, 2)) == f.second
    ensures Value(Padded(f.milli, 3)) == f.milli
  {
    assert Pow10(2) == 100 && Pow10(3) == 1000;
    assert Pow10(4) == 10 * Pow10(3);
    PaddedValue(f.year, 4);
    PaddedValue(f.month, 2);
    PaddedValue(f.day, 2);
    PaddedValue(f.hour, 2);
    PaddedValue(f.minute, 2);
    PaddedValue(f.second, 2);
    PaddedValue(f.milli, 3);
  }

  lemma PrintInjective(f: Stamp, g: Stamp)
    requires Printable(f) && Printable(g) && Print(f) == Print(g)
    ensures f == g
  {
    PrintParts(f);
    PrintParts(g);
    FieldValues(f);
    FieldValues(g);
  }

  /** Two instants print alike only if they are the same. */
  lemma IsoInjective(t: Time, u: Time)
    requires Iso(t) == Iso(u)
    ensures t == u
  {
    PrintInjective(Fields(t), Fields(u));
  }
}

/**
 * Human-readable byte counts (`src/utility/fmt.rs`): a count is shown in
 * the largest binary unit that keeps the whole part below 1024 (up to
 * TiB), followed by up to two decimals of that unit.
 */
module Fmt {

  /** Decimal digits. */
  function DigitChar(d: nat): (c: char)
    requires d < 10
    ensures '0' <= c <= '9' && c as int == '0' as int + d
  {
    ('0' as int + d) as char
  }

  function DigitValue(c: char): (d: nat)
    requires '0' <= c <= '9'
    ensures d < 10 && DigitChar(d) == c
  {
    (c as int - '0' as int) as nat
  }

  predicate AllDigits(s: string) {
    forall i :: 0 <= i < |s| ==> '0' <= s[i] <= '9'
  }

  /** `{}` on an unsigned integer: its decimal digits, most significant first, with no leading zero. */
  function Decimal(n: nat): (s: string)
    ensures AllDigits(s) && |s| >= 1
    ensures s[0] == '0' ==> n == 0
  {
    if n < 10 then [DigitChar(n)] else Decimal(n / 10) + [DigitChar(n % 10)]
  }

  /** The number a string of decimal digits denotes. */
  function DecimalValue(s: string): (n: nat)
    requires AllDigits(s)
  {
    if |s| == 0 then 0 else DecimalValue(s[..|s| - 1]) * 10 + DigitValue(s[|s| - 1])
  }

  /** Reading the digits of a number gives the number back. */
  lemma {:induction false} DecimalRoundTrip(n: nat)
    ensures DecimalValue(Decimal(n)) == n
  {
    var s := Decimal(n);
    if n < 10 {
      assert s[..0] == [];
    } else {
      var init := Decimal(n / 10);
      assert s[..|s| - 1] == init;
      assert DigitValue(s[|s| - 1]) == n % 10;
      DecimalRoundTrip(n / 10);
      assert DecimalValue(s) == (n / 10) * 10 + n % 10;
    }
  }

  /** So different numbers are written differently. */
  lemma DecimalInjective(a: nat, b: nat)
    requires Decimal(a) == Decimal(b)
    ensures a == b
  {
    DecimalRoundTrip(a);
    DecimalRoundTrip(b);
  }

  /** The units a count is shown in. */
  datatype Unit = B | KiB | MiB | GiB | TiB

  function UnitName(u: Unit): string {
    match u
    case B => "B"
    case KiB => "KiB"
    case MiB => "MiB"
    case GiB => "GiB"
    case TiB => "TiB"
  }

  /** The number of bytes in one unit. */
  function UnitSize(u: Unit): (size: nat)
    ensures size >= 1
  {
    match u
    case B => 1
    case KiB => 1024
    case MiB => 1024 * 1024
    case GiB => 1024 * 1024 * 1024
    case TiB => 1024 * 1024 * 1024 * 1024
  }

  /** The number of bytes in 1/1024 of a unit: what the value handed to `write_dec` counts. */
  function Granule(u: Unit): (g: nat)
    requires u != B
    ensures g * 1024 == UnitSize(u)
  {
    match u
    case KiB => 1
    case MiB => 1024
    case GiB => 1024 * 1024
    case TiB => 1024 * 1024 * 1024
  }

  /** The unit `fmt` picks and the value it then works with. */
  datatype Scaled = Scaled(unit: Unit, value: nat)

  /**
   * The unit choice of `HumanByteCount::fmt`: bytes below 1024, then KiB
   * below 1 MiB; otherwise the count is divided by 1024 and the test below
   * 1 Mi repeats for MiB and GiB; anything larger is in TiB.
   */
  function Scale(bytes: nat): (s: Scaled)
  {
    if bytes < 1024 then Scaled(B, bytes)
    else if bytes < 1024 * 1024 then Scaled(KiB, bytes)
    else
      var mib := bytes / 1024;
      if mib < 1024 * 1024 then Scaled(MiB, mib)
      else
        var gib := mib / 1024;
        if gib < 1024 * 1024 then Scaled(GiB, gib)
        else Scaled(TiB, gib / 1024)
  }

  /** Dividing by 1024 once more is dividing by the next binary unit. */
  lemma DivideAgain(x: nat)
    ensures x / 1024 / 1024 == x / (1024 * 1024)
    ensures x / (1024 * 1024) / 1024 == x / (1024 * 1024 * 1024)
    ensures x / (1024 * 1024 * 1024) / 1024 == x / (1024 * 1024 * 1024 * 1024)
  {
  }

  lemma MulAssoc(q: int, b: int, a: int)
    ensures (q * b) * a == q * (a * b)
  {
  }

  /**
   * The unit is the largest one that keeps the count at or above one unit
   * (bytes for counts below 1 KiB), stopping at TiB, and the value handed
   * on counts 1/1024 units, rounded down.
   */
  lemma ScaleChoosesUnit(bytes: nat)
    ensures Scale(bytes).unit == B || UnitSize(Scale(bytes).unit) <= bytes
    ensures Scale(bytes).unit == TiB || bytes < UnitSize(Scale(bytes).unit) * 1024
    ensures Scale(bytes).unit == B ==> Scale(bytes).value == bytes
    ensures Scale(bytes).unit != B ==> Scale(bytes).value == bytes / Granule(Scale(bytes).unit)
  {
    DivideAgain(bytes);
  }

  /** `write_dec`'s decimals: the hundredths of the last 1/1024 parts, rounded down. */
  function Hundredths(n: nat): (h: nat)
    ensures h < 100
    ensures h * 1024 <= (n % 1024) * 100 < (h + 1) * 1024
  {
    ((n % 1024) * 100) / 1024
  }

  /**
   * `write_dec`: the whole units, then a point and the hundredths when
   * they are not zero, then the unit's name. The hundredths are written
   * without padding.
   */
  function WriteDec(n: nat, dim: string): string {
    var dec := Hundredths(n);
    if dec == 0 then Decimal(n / 1024) + " " + dim
    else Decimal(n / 1024) + "." + Decimal(dec) + " " + dim
  }

  /** `HumanByteCount::fmt`. */
  function Display(bytes: nat): string {
    var s := Scale(bytes);
    if s.unit == B then Decimal(s.value) + " B" else WriteDec(s.value, UnitName(s.unit))
  }

  /**
   * The shown amount never exceeds the count: whole units plus hundredths,
   * taken as a number of hundredths of the unit, times the unit size is at
   * most one hundred times the count.
   */
  lemma DisplayNeverOverstates(bytes: nat)
    requires Scale(bytes).unit != B
    ensures var s := Scale(bytes);
      ((s.value / 1024) * 100 + Hundredths(s.value)) * UnitSize(s.unit) <= bytes * 100
  {
    var s := Scale(bytes);
    ScaleChoosesUnit(bytes);
    WriteDecNeverOverstates(s.value);
    ScaledBound((s.value / 1024) * 100 + Hundredths(s.value), bytes, Granule(s.unit));
  }

  /** A bound on a count of 1/1024 granules carries over to bytes. */
  lemma ScaledBound(shown: nat, bytes: nat, g: nat)
    requires g > 0 && shown * 1024 <= (bytes / g) * 100
    ensures shown * (g * 1024) <= bytes * 100
  {
    var v := bytes / g;
    MulLe(shown * 1024, v * 100, g);
    MulAssoc(shown, 1024, g);
    MulAssoc(v, 100, g);
    FloorTimes(bytes, g);
    MulLe(v * g, bytes, 100);
  }

  /** `write_dec` never shows more than its value, counted in hundredths of a unit. */
  lemma WriteDecNeverOverstates(n: nat)
    ensures ((n / 1024) * 100 + Hundredths(n)) * 1024 <= n * 100
  {
    assert n == (n / 1024) * 1024 + n % 1024;
  }

  lemma FloorTimes(x: nat, g: nat)
    requires g > 0
    ensures (x / g) * g <= x
  {
  }

  lemma MulLe(a: nat, b: nat, c: nat)
    requires a <= b
    ensures a * c <= b * c
  {
  }

  /** The whole part shown is the count of whole units, so it is between 1 and 1023 below TiB. */
  lemma DisplayWholeUnits(bytes: nat)
    requires Scale(bytes).unit != B
    ensures Scale(bytes).value / 1024 == bytes / UnitSize(Scale(bytes).unit)
    ensures 1 <= Scale(bytes).value / 1024
    ensures Scale(bytes).unit != TiB ==> Scale(bytes).value / 1024 < 1024
  {
    ScaleChoosesUnit(bytes);
    DivideAgain(bytes);
    match Scale(bytes).unit
    case KiB =>
    case MiB =>
    case GiB =>
    case TiB =>
  }

  /**
   * Hundredths read back from the digits after a point: one digit means
   * tenths, two digits hundredths.
   */
  function ReadHundredths(f: string): nat
    requires AllDigits(f) && 1 <= |f| <= 2
  {
    if |f| == 1 then DecimalValue(f) * 10 else DecimalValue(f)
  }

  /** As written: 1076 bytes, 1.05 KiB, is shown as "1.5 KiB", which reads as 1.50 KiB. */
  lemma UnpaddedHundredthsMisread()
    ensures Scale(1076) == Scaled(KiB, 1076) && Hundredths(1076) == 5
    ensures Display(1076) == "1.5 KiB"
    ensures ReadHundredths(Decimal(Hundredths(1076))) == 50
  {
    assert Decimal(1) == "1";
    assert Decimal(5) == "5";
  }

  /** The hundredths always written with two digits. */
  function TwoDigits(h: nat): (f: string)
    requires h < 100
    ensures AllDigits(f) && |f| == 2
    ensures ReadHundredths(f) == h
  {
    var f := [DigitChar(h / 10), DigitChar(h % 10)];
    assert f[..1][..0] == [];
    assert DecimalValue(f[..1]) == h / 10;
    f
  }

  /** `write_dec` with the hundredths padded to two digits. */
  function WriteDecPadded(n: nat, dim: string): (r: string)
  {
    var dec := Hundredths(n);
    if dec == 0 then Decimal(n / 1024) + " " + dim
    else Decimal(n / 1024) + "." + TwoDigits(dec) + " " + dim
  }

  /** `HumanByteCount::fmt` with padded hundredths. */
  function DisplayPadded(bytes: nat): string {
    var s := Scale(bytes);
    if s.unit == B then Decimal(s.value) + " B" else WriteDecPadded(s.value, UnitName(s.unit))
  }

  /**
   * With padding the shown text reads back as the computed whole units and
   * hundredths: the whole digits denote the whole units, and the digits
   * after the point (when present) denote exactly the hundredths.
   */
  lemma {:induction false} DisplayPaddedReadsBack(bytes: nat)
    requires Scale(bytes).unit != B
    ensures var s := Scale(bytes);
      var whole := Decimal(s.value / 1024);
      var tail := " " + UnitName(s.unit);
      (Hundredths(s.value) == 0 ==> DisplayPadded(bytes) == whole + tail) &&
      (Hundredths(s.value) != 0 ==>
        DisplayPadded(bytes) == whole + "." + TwoDigits(Hundredths(s.value)) + tail &&
        ReadHundredths(TwoDigits(Hundredths(s.value))) == Hundredths(s.value))
    ensures DecimalValue(Decimal(Scale(bytes).value / 1024)) == bytes / UnitSize(Scale(bytes).unit)
  {
    DecimalRoundTrip(Scale(bytes).value / 1024);
    DisplayWholeUnits(bytes);
  }
}

/** The frame renderer: the `if (updateDisplay)` block of the main loop
    (main.cpp:88-115). Given the mode, the digit cursor, the seconds counter
    and a centivolt reading, it picks the segment byte and the digit-select
    byte of the one digit lit during this refresh. */
module DisplayRenderer {
  import opened SegmentTables
  import TimeSource
  import VoltageSource

  /** Time shows MM.SS; Voltage shows V.CC with the fourth digit dark. */
  datatype Mode = Time | Voltage

  /** The two bytes shifted out for one refresh. */
  datatype Frame = Frame(segments: bv8, select: bv8)

  /** Frame for one digit. The counter is read only in time mode and the
      reading only in voltage mode; each must be in the range that keeps
      the SEGMENT_MAP lookups inside the table. A cursor outside 0..3 falls
      through the switch and leaves both bytes at their initial 0xFF. */
  function Render(mode: Mode, cursor: int, seconds: int, centivolts: int): (f: Frame)
    requires mode == Time ==> TimeSource.Valid(seconds)
    requires mode == Voltage ==> centivolts >= 0
    ensures 0 <= cursor < 4 ==> f.select == SegmentSelect[cursor]
    ensures !(0 <= cursor < 4) ==> f == Frame(Blank, Blank)
  {
    match mode
    case Time =>
      var secs := TimeSource.Seconds(seconds);
      var mins := TimeSource.Minutes(seconds);
      if cursor == 0 then Frame(SegmentMap[mins / 10], SegmentSelect[0])
      else if cursor == 1 then Frame(WithPoint(SegmentMap[mins % 10]), SegmentSelect[1])
      else if cursor == 2 then Frame(SegmentMap[secs / 10], SegmentSelect[2])
      else if cursor == 3 then Frame(SegmentMap[secs % 10], SegmentSelect[3])
      else Frame(Blank, Blank)
    case Voltage =>
      var r := VoltageSource.Split(VoltageSource.Clamp(centivolts));
      var intPart := r.intPart;
      var fracPart := r.fracPart;
      if cursor == 0 then Frame(WithPoint(SegmentMap[intPart]), SegmentSelect[0])
      else if cursor == 1 then Frame(SegmentMap[fracPart / 10], SegmentSelect[1])
      else if cursor == 2 then Frame(SegmentMap[fracPart % 10], SegmentSelect[2])
      else if cursor == 3 then Frame(Blank, SegmentSelect[3])
      else Frame(Blank, Blank)
  }

  /** Decimal digit of `n` at `place` (0 = units, 1 = tens, 2 = hundreds). */
  function DecimalDigit(n: nat, place: nat): (d: nat)
    ensures d < 10
  {
    if place == 0 then n % 10 else DecimalDigit(n / 10, place - 1)
  }

  /** What position `cursor` of the display should read, stated from the
      displayed quantities: in time mode the four decimal digits of
      minutes * 100 + seconds with the point after the minutes; in voltage
      mode the three decimal digits of the saturated reading with the point
      after the volts and the last position dark. */
  function Expected(mode: Mode, cursor: nat, seconds: int, centivolts: int): Glyph
    requires cursor < 4
    requires mode == Time ==> TimeSource.Valid(seconds)
    requires mode == Voltage ==> centivolts >= 0
  {
    match mode
    case Time =>
      var shown := TimeSource.Minutes(seconds) * 100 + TimeSource.Seconds(seconds);
      Numeral(DecimalDigit(shown, 3 - cursor), cursor == 1)
    case Voltage =>
      if cursor == 3 then Dark(false)
      else Numeral(DecimalDigit(VoltageSource.Clamp(centivolts), 2 - cursor), cursor == 0)
  }

  /** Every frame of a valid cursor reads back as the expected glyph: the
      renderer's div/mod arithmetic picks the right digit of the right
      quantity, and the point is lit exactly where it belongs. */
  lemma RenderReadsBack(mode: Mode, cursor: nat, seconds: int, centivolts: int)
    requires cursor < 4
    requires mode == Time ==> TimeSource.Valid(seconds)
    requires mode == Voltage ==> centivolts >= 0
    ensures ReadGlyph(Render(mode, cursor, seconds, centivolts).segments)
            == Expected(mode, cursor, seconds, centivolts)
  {
    match mode
    case Time => TimeReadsBack(cursor, seconds, centivolts);
    case Voltage => VoltageReadsBack(cursor, seconds, centivolts);
  }

  lemma TimeReadsBack(cursor: nat, seconds: int, centivolts: int)
    requires cursor < 4
    requires TimeSource.Valid(seconds)
    ensures ReadGlyph(Render(Time, cursor, seconds, centivolts).segments)
            == Expected(Time, cursor, seconds, centivolts)
  {
    var seg := Render(Time, cursor, seconds, centivolts).segments;
    var m := TimeSource.Minutes(seconds);
    var s := TimeSource.Seconds(seconds);
    var d := DecimalDigit(m * 100 + s, 3 - cursor);
    assert Expected(Time, cursor, seconds, centivolts) == Numeral(d, cursor == 1);
    PlaceDigits(m, s);
    if cursor == 0 {
      assert seg == SegmentMap[d];
    } else if cursor == 1 {
      assert seg == WithPoint(SegmentMap[d]);
    } else if cursor == 2 {
      assert seg == SegmentMap[d];
    } else {
      assert seg == SegmentMap[d];
    }
    ReadDigit(d);
  }

  lemma VoltageReadsBack(cursor: nat, seconds: int, centivolts: int)
    requires cursor < 4
    requires centivolts >= 0
    ensures ReadGlyph(Render(Voltage, cursor, seconds, centivolts).segments)
            == Expected(Voltage, cursor, seconds, centivolts)
  {
    var seg := Render(Voltage, cursor, seconds, centivolts).segments;
    var c := VoltageSource.Clamp(centivolts);
    HundredsDigits(c);
    if cursor == 0 {
      assert seg == WithPoint(SegmentMap[c / 100]);
      ReadDigit(c / 100);
    } else if cursor == 1 {
      assert seg == SegmentMap[c % 100 / 10];
      ReadDigit(c % 100 / 10);
    } else if cursor == 2 {
      assert seg == SegmentMap[c % 100 % 10];
      ReadDigit(c % 100 % 10);
    } else {
      assert seg == Blank;
      ReadBlank();
    }
  }

  /** The four decimal digits of m * 100 + s for m < 100 and s < 60. */
  lemma PlaceDigits(m: nat, s: nat)
    requires m < 100 && s < 60
    ensures DecimalDigit(m * 100 + s, 3) == m / 10
    ensures DecimalDigit(m * 100 + s, 2) == m % 10
    ensures DecimalDigit(m * 100 + s, 1) == s / 10
    ensures DecimalDigit(m * 100 + s, 0) == s % 10
  {
    var n := m * 100 + s;
    var q := m * 10 + s / 10;
    DivMod10(n, q, s % 10);
    DivMod10(q, m, s / 10);
    DivMod10(m, m / 10, m % 10);
    NextPlace(n, q, 3);
    NextPlace(q, m, 2);
    NextPlace(m, m / 10, 1);
    NextPlace(n, q, 2);
    NextPlace(q, m, 1);
    NextPlace(n, q, 1);
    UnitsPlace(n);
    UnitsPlace(q);
    UnitsPlace(m);
    UnitsPlace(m / 10);
    DivMod10(m / 10, 0, m / 10);
  }

  /** Quotient and remainder by 10 are determined by any decomposition. */
  lemma DivMod10(n: nat, q: nat, r: nat)
    requires n == q * 10 + r && r < 10
    ensures n / 10 == q && n % 10 == r
  {
  }

  /** The units digit is the remainder by 10. */
  lemma UnitsPlace(n: nat)
    ensures DecimalDigit(n, 0) == n % 10
  {
  }

  /** Digit `place` of n is digit `place - 1` of n / 10. */
  lemma NextPlace(n: nat, q: nat, place: nat)
    requires n / 10 == q && place > 0
    ensures DecimalDigit(n, place) == DecimalDigit(q, place - 1)
  {
  }

  /** The three decimal digits of a reading c <= 999 are the volts and the
      two digits of the hundredths. */
  lemma HundredsDigits(c: nat)
    requires c <= VoltageSource.Max
    ensures DecimalDigit(c, 2) == c / 100
    ensures DecimalDigit(c, 1) == c % 100 / 10
    ensures DecimalDigit(c, 0) == c % 100 % 10
  {
    assert DecimalDigit(c, 2) == DecimalDigit(c / 10 / 10, 0);
    assert c / 10 / 10 == c / 100 < 10;
    assert c / 10 % 10 == c % 100 / 10;
  }
}

/** The two constant tables of the display driver (main.cpp:11-17) and the
    reading of a segment byte as the glyph a viewer sees on the display.

    Segment bytes are active-low for a common-anode display: a 0 bit lights
    a segment. Bit 7 is the decimal point. */
module SegmentTables {
  import opened Optional
  import opened Bytes

  /** Segment patterns of the decimal digits 0..9. */
  const SegmentMap: seq<bv8> := [0xC0, 0xF9, 0xA4, 0xB0, 0x99, 0x92, 0x82, 0xF8, 0x80, 0x90]

  /** Digit-select bytes of the four digit positions. */
  const SegmentSelect: seq<bv8> := [0xF1, 0xF2, 0xF4, 0xF8]

  /** All segments off (also the initial value of both frame bytes). */
  const Blank: bv8 := 0xFF

  /** The decimal-point bit of a segment byte. */
  const PointBit: bv8 := 0x80

  /** Clears bit 7 of a segment byte, which lights the decimal point. */
  function WithPoint(seg: bv8): (r: bv8)
    ensures r & PointBit == 0
    ensures r | PointBit == seg | PointBit
  {
    seg & 0x7F
  }

  /** What a viewer sees on one digit: nothing lit (maybe the point), one of
      the ten numerals (maybe with the point), or any other segment shape. */
  datatype Glyph = Dark(point: bool) | Numeral(value: nat, point: bool) | Garbled

  /** Index of a segment shape in SegmentMap, searching from position `from`. */
  function FindShape(shape: bv8, from: nat): (r: Option<nat>)
    requires from <= |SegmentMap|
    ensures r.Some? ==> from <= r.value < |SegmentMap| && SegmentMap[r.value] == shape
    ensures r.None? ==> forall d :: from <= d < |SegmentMap| ==> SegmentMap[d] != shape
    decreases |SegmentMap| - from
  {
    if from == |SegmentMap| then None
    else if SegmentMap[from] == shape then Some(from)
    else FindShape(shape, from + 1)
  }

  /** The digit whose pattern is `shape` (decimal point ignored), if any. */
  function DigitOf(shape: bv8): (r: Option<nat>)
    ensures r.Some? ==> r.value < 10 && SegmentMap[r.value] == shape
    ensures r.None? ==> shape !in SegmentMap
  {
    FindShape(shape, 0)
  }

  /** Reads a segment byte back as the glyph it lights. */
  function ReadGlyph(seg: bv8): Glyph {
    var point := seg & PointBit == 0;
    var shape := seg | PointBit;
    if shape == Blank then Dark(point)
    else match DigitOf(shape)
      case Some(d) => Numeral(d, point)
      case None => Garbled
  }

  /** The ten digit patterns are pairwise distinct, none of them lights the
      decimal point, and none of them is blank. */
  lemma SegmentMapDistinct()
    ensures |SegmentMap| == 10
    ensures forall i, j :: 0 <= i < j < 10 ==> SegmentMap[i] != SegmentMap[j]
    ensures forall d :: 0 <= d < 10 ==> SegmentMap[d] & PointBit == PointBit
    ensures forall d :: 0 <= d < 10 ==> SegmentMap[d] != Blank
  {
  }

  /** Every digit pattern reads back as its own numeral, with the decimal
      point off as stored and on once bit 7 is cleared. */
  lemma ReadDigit(d: nat)
    requires d < 10
    ensures ReadGlyph(SegmentMap[d]) == Numeral(d, false)
    ensures ReadGlyph(WithPoint(SegmentMap[d])) == Numeral(d, true)
  {
    SegmentMapDistinct();
    assert SegmentMap[d] | PointBit == SegmentMap[d];
    assert WithPoint(SegmentMap[d]) | PointBit == SegmentMap[d];
  }

  /** The blank byte reads back as a dark digit. */
  lemma ReadBlank()
    ensures ReadGlyph(Blank) == Dark(false)
  {
  }

  /** Each digit-select byte enables exactly one of the four positions: bit p
      of SegmentSelect[p] is set, bits q != p of the low nibble are clear,
      and the high nibble is all ones. */
  lemma SelectOneHot(p: nat, q: nat)
    requires p < 4 && q < 4
    ensures |SegmentSelect| == 4
    ensures BitOf(SegmentSelect[p], q) <==> p == q
    ensures SegmentSelect[p] & 0xF0 == 0xF0
  {
  }
}

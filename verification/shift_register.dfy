/** `outputToDisplay` (main.cpp:32-48): the two frame bytes shifted out to
    the cascaded shift registers, most significant bit first, segment byte
    first, between a latch-low and a latch-high. The output is modelled as
    the trace of pin events it produces; each clock pulse delimits one
    data bit, so a data event stands for "data pin set, clock pulsed". */
module ShiftRegister {
  import opened Optional
  import opened Bytes

  datatype Signal = Latch(high: bool) | Data(bit: bool)

  /** One data event per bit. */
  function DataEvents(bits: seq<bool>): seq<Signal> {
    seq(|bits|, k requires 0 <= k < |bits| => Data(bits[k]))
  }

  /** The reference trace of one frame. */
  function FrameTrace(segments: bv8, select: bv8): seq<Signal> {
    [Latch(false)] + DataEvents(MsbFirst(segments)) + DataEvents(MsbFirst(select)) + [Latch(true)]
  }

  /** What the two cascaded registers hold after a trace: defined only for
      a trace that opens with latch-low, carries exactly sixteen data bits
      and ends with latch-high; the first eight bits form the segment byte
      and the last eight the select byte. */
  function Decode(trace: seq<Signal>): (r: Option<(bv8, bv8)>)
    ensures r.Some? ==> |trace| == 18 && trace[0] == Latch(false) && trace[17] == Latch(true)
  {
    if |trace| == 18 && trace[0] == Latch(false) && trace[17] == Latch(true)
       && forall k :: 1 <= k < 17 ==> trace[k].Data?
    then
      var bits := seq(16, k requires 0 <= k < 16 => trace[k + 1].bit);
      Some((Pack(bits[..8]), Pack(bits[8..])))
    else None
  }

  /** The reference trace latches low before the first bit and high only
      after the last, and decodes back to the two bytes. */
  lemma FrameTraceRoundTrip(segments: bv8, select: bv8)
    ensures |FrameTrace(segments, select)| == 18
    ensures forall k :: 0 < k < 17 ==> FrameTrace(segments, select)[k].Data?
    ensures forall k :: 0 <= k < 17 ==> FrameTrace(segments, select)[k] != Latch(true)
    ensures Decode(FrameTrace(segments, select)) == Some((segments, select))
  {
    var t := FrameTrace(segments, select);
    var bits := seq(16, k requires 0 <= k < 16 => t[k + 1].bit);
    assert bits[..8] == MsbFirst(segments);
    assert bits[8..] == MsbFirst(select);
    PackMsbFirst(segments);
    PackMsbFirst(select);
  }

  /** Emitting bit 7 - j after the first j bits emits the first j + 1. */
  lemma NextBit(b: bv8, j: nat)
    requires j < 8
    ensures DataEvents(MsbFirst(b)[..j]) + [Data(BitOf(b, 7 - j))] == DataEvents(MsbFirst(b)[..j + 1])
  {
  }

  /** The shifting loops of the source: latch low, bits 7..0 of the segment
      byte, bits 7..0 of the select byte, latch high. */
  method OutputToDisplay(segments: bv8, select: bv8) returns (trace: seq<Signal>)
    ensures trace == FrameTrace(segments, select)
    ensures Decode(trace) == Some((segments, select))
  {
    trace := [Latch(false)];
    var i := 7;
    while i >= 0
      invariant -1 <= i <= 7
      invariant trace == [Latch(false)] + DataEvents(MsbFirst(segments)[..7 - i])
    {
      ShiftedBit(segments, i);
      NextBit(segments, 7 - i);
      trace := trace + [Data((segments >> i) & 1 == 1)];
      i := i - 1;
    }
    i := 7;
    while i >= 0
      invariant -1 <= i <= 7
      invariant trace == [Latch(false)] + DataEvents(MsbFirst(segments))
                         + DataEvents(MsbFirst(select)[..7 - i])
    {
      ShiftedBit(select, i);
      NextBit(select, 7 - i);
      trace := trace + [Data((select >> i) & 1 == 1)];
      i := i - 1;
    }
    trace := trace + [Latch(true)];
    FrameTraceRoundTrip(segments, select);
  }
}

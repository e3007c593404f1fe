/** Bits of a byte and their reassembly, most significant bit first. */
module Bytes {

  /** Mask of bit i, for i in 0..7. */
  const Masks: seq<bv8> := [0x01, 0x02, 0x04, 0x08, 0x10, 0x20, 0x40, 0x80]

  /** Bit i of b. */
  function BitOf(b: bv8, i: nat): bool
    requires i < 8
  {
    b & Masks[i] != 0
  }

  /** The shift-and-mask expression `(b >> i) & 0x1` reads bit i. */
  lemma ShiftedBit(b: bv8, i: nat)
    requires i < 8
    ensures ((b >> i) & 1 == 1) == BitOf(b, i)
  {
  }

  /** The eight bits of b, most significant first. */
  function MsbFirst(b: bv8): seq<bool> {
    seq(8, j requires 0 <= j < 8 => BitOf(b, 7 - j))
  }

  /** The byte a receiver assembles from bits arriving most significant
      first: each new bit shifts the earlier ones up by one. */
  function Pack(bits: seq<bool>): bv8
    requires |bits| <= 8
  {
    if |bits| == 0 then 0
    else (Pack(bits[..|bits| - 1]) << 1) | (if bits[|bits| - 1] then 1 else 0)
  }

  /** The top k bits of b moved down to the bottom, that is b >> (8 - k). */
  function Top(b: bv8, k: nat): bv8
    requires k <= 8
  {
    [0, b >> 7, b >> 6, b >> 5, b >> 4, b >> 3, b >> 2, b >> 1, b][k]
  }

  /** The top k bits are the top k - 1 bits with bit 8 - k shifted in. */
  lemma TopStep(b: bv8, k: nat)
    requires 0 < k <= 8
    ensures Top(b, k) == (Top(b, k - 1) << 1) | (if BitOf(b, 8 - k) then 1 else 0)
  {
    if k == 1 {
    } else if k == 2 {
    } else if k == 3 {
    } else if k == 4 {
    } else if k == 5 {
    } else if k == 6 {
    } else if k == 7 {
    } else {
    }
  }

  /** Assembling the first k bits of b gives its top k bits. */
  lemma {:induction false} PackPrefix(b: bv8, k: nat)
    requires k <= 8
    ensures Pack(MsbFirst(b)[..k]) == Top(b, k)
  {
    if k > 0 {
      PackPrefix(b, k - 1);
      var bits := MsbFirst(b)[..k];
      assert bits[..k - 1] == MsbFirst(b)[..k - 1];
      assert bits[k - 1] == BitOf(b, 8 - k);
      TopStep(b, k);
    }
  }

  /** Assembling the eight bits of a byte gives the byte back. */
  lemma PackMsbFirst(b: bv8)
    ensures Pack(MsbFirst(b)) == b
  {
    PackPrefix(b, 8);
    assert MsbFirst(b)[..8] == MsbFirst(b);
  }
}

/** The integer part of the voltage path (main.cpp:104-107): a centivolt
    reading saturated at 999 and split at the decimal point. */
module VoltageSource {

  /** Largest displayable reading, 9.99 V. */
  const Max: int := 999

  /** Saturates a non-negative reading at Max (main.cpp:105): the result is
      the smaller of the reading and Max. */
  function Clamp(c: int): (r: int)
    requires c >= 0
    ensures 0 <= r <= Max && r <= c
    ensures r == c || r == Max
  {
    if c > Max then Max else c
  }

  /** A reading in 0..Max split into volts and hundredths of a volt
      (main.cpp:106-107). */
  datatype Reading = Reading(intPart: int, fracPart: int)

  function Split(c: int): (r: Reading)
    requires 0 <= c <= Max
    ensures 0 <= r.intPart <= 9
    ensures 0 <= r.fracPart <= 99
    ensures r.intPart * 100 + r.fracPart == c
  {
    Reading(c / 100, c % 100)
  }

  /** Splitting is invertible: the reading is determined by its two parts. */
  lemma SplitInjective(a: int, b: int)
    requires 0 <= a <= Max && 0 <= b <= Max
    requires Split(a) == Split(b)
    ensures a == b
  {
  }

  /** A reading above the range (12.00 V) shows as 9.99. */
  lemma Saturation()
    ensures Split(Clamp(1200)) == Reading(9, 99)
  {
  }
}

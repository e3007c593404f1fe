/** The two buttons of the main loop (main.cpp:71-82). Both are read as
    pulled-up inputs: 1 when released, 0 when pressed. */
module InputHandler {
  import opened DisplayRenderer

  /** S1 resets the counter on a falling edge: pressed now, released at the
      previous pass of the loop. */
  predicate ResetFires(prev: int, level: int)
    ensures ResetFires(prev, level) ==> level == 0 && level != prev
    ensures level == 0 && prev == 1 ==> ResetFires(prev, level)
  {
    level == 0 && prev == 1
  }

  /** S3 selects the mode by level: voltage while held, time otherwise. */
  function ModeFor(level: int): (m: Mode)
    ensures m == Voltage <==> level == 0
    ensures m == Time <==> level != 0
  {
    if level == 0 then Voltage else Time
  }

  /** Reset decisions for successive samples of S1, each pass remembering
      the sample it read as the previous level of the next pass. */
  function ResetPolls(prev: int, samples: seq<int>): (fired: seq<bool>)
    ensures |fired| == |samples|
    ensures |samples| > 0 ==> fired[0] == ResetFires(prev, samples[0])
    decreases |samples|
  {
    if |samples| == 0 then []
    else [ResetFires(prev, samples[0])] + ResetPolls(samples[0], samples[1..])
  }

  /** Only released-to-pressed transitions fire: after the first sample,
      a pass fires exactly when its sample is 0 and the one before it is 1. */
  lemma {:induction false} ResetPollsAreEdges(prev: int, samples: seq<int>, k: nat)
    requires 0 < k < |samples|
    ensures ResetPolls(prev, samples)[k] <==> samples[k] == 0 && samples[k - 1] == 1
    decreases k
  {
    var rest := ResetPolls(samples[0], samples[1..]);
    assert ResetPolls(prev, samples)[k] == rest[k - 1];
    if k > 1 {
      ResetPollsAreEdges(samples[0], samples[1..], k - 1);
    }
  }

  /** A press held over any number of passes resets once, at its first
      sample, and only if the button was released before it. */
  lemma HeldPressFiresOnce(prev: int, samples: seq<int>)
    requires |samples| > 0
    requires forall k :: 0 <= k < |samples| ==> samples[k] == 0
    ensures ResetPolls(prev, samples)[0] <==> prev == 1
    ensures forall k :: 0 < k < |samples| ==> !ResetPolls(prev, samples)[k]
  {
    forall k | 0 < k < |samples|
      ensures !ResetPolls(prev, samples)[k]
    {
      ResetPollsAreEdges(prev, samples, k);
    }
  }
}

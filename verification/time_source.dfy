/** The elapsed-seconds counter `total_seconds` (main.cpp:19-30) and the
    minutes/seconds split the time display reads from it (main.cpp:92-93). */
module TimeSource {

  /** The counter wraps to 0 when it reaches this value (main.cpp:27). */
  const Wrap: int := 6000

  /** The range the counter stays in from power-on. */
  predicate Valid(s: int) {
    0 <= s < Wrap
  }

  /** One second elapsed: `tick()` increments the counter and sets it back
      to 0 once it reaches Wrap. From a valid counter this is addition
      modulo Wrap. */
  function Tick(s: int): (r: int)
    ensures r < Wrap
    ensures r == 0 || r == s + 1
    ensures Valid(s) ==> Valid(r) && r == (s + 1) % Wrap
  {
    if s + 1 >= Wrap then 0 else s + 1
  }

  /** The counter after `n` ticks. */
  function Ticks(s: int, n: nat): int {
    if n == 0 then s else Tick(Ticks(s, n - 1))
  }

  /** Whole minutes shown on the first two digits. No wrap at 60: the only
      bound is the one Wrap puts on the counter. */
  function Minutes(s: int): (m: int)
    requires Valid(s)
    ensures 0 <= m <= 99
    ensures m * 60 <= s < m * 60 + 60
  {
    s / 60
  }

  /** Seconds within the minute, shown on the last two digits. */
  function Seconds(s: int): (r: int)
    requires Valid(s)
    ensures 0 <= r < 60
    ensures Minutes(s) * 60 + r == s
  {
    s % 60
  }

  /** From a valid counter, `n` ticks advance it by `n` modulo Wrap. */
  lemma {:induction false} TicksModular(s: int, n: nat)
    requires Valid(s)
    ensures Valid(Ticks(s, n))
    ensures Ticks(s, n) == (s + n) % Wrap
  {
    if n > 0 {
      TicksModular(s, n - 1);
      var p := Ticks(s, n - 1);
      assert Ticks(s, n) == (p + 1) % Wrap;
      ModStep(s + n - 1);
    }
  }

  /** Adding one after reducing modulo Wrap is the same as reducing after. */
  lemma ModStep(a: int)
    requires a >= 0
    ensures (a % Wrap + 1) % Wrap == (a + 1) % Wrap
  {
    var q := a / Wrap;
    assert a == q * Wrap + a % Wrap;
    if a % Wrap + 1 == Wrap {
      assert a + 1 == (q + 1) * Wrap;
    } else {
      assert a + 1 == q * Wrap + (a % Wrap + 1);
    }
  }

  /** Counting from zero, the display reads n / 60 minutes and n % 60
      seconds after n < Wrap ticks; after 3661 ticks that is 61:01, so
      minutes do not wrap at 60. */
  lemma TicksFromZero(n: nat)
    requires n < Wrap
    ensures Valid(Ticks(0, n))
    ensures Minutes(Ticks(0, n)) == n / 60 && Seconds(Ticks(0, n)) == n % 60
  {
    TicksModular(0, n);
  }

  /** The largest counter reads 99:59 and the next tick wraps it to 00:00. */
  lemma LastSecond()
    ensures Minutes(Wrap - 1) == 99 && Seconds(Wrap - 1) == 59
    ensures Tick(Wrap - 1) == 0
  {
  }
}

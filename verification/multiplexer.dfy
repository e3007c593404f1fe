/** The main loop (main.cpp:67-121) together with the two ticker callbacks
    that share its state (main.cpp:25-30, 53-55), as transitions of one
    immutable state record. The hardware loop body is one LoopPass; the
    interrupts are SecondTick and RefreshTick. */
module Multiplexer {
  import opened Optional
  import opened SegmentTables
  import TimeSource
  import opened DisplayRenderer
  import opened ShiftRegister
  import opened InputHandler

  /** The shared globals and the loop's locals. `prevB3` is written by every
      pass but never read. */
  datatype State = State(
    totalSeconds: int,
    updateDisplay: bool,
    currDigit: int,
    modeVoltage: bool,
    prevB1: int,
    prevB3: int)

  /** State at power-on (main.cpp:20-21, 52, 67-68). */
  const Init: State := State(0, true, 0, false, 1, 1)

  /** What every reachable state satisfies. */
  predicate Inv(st: State) {
    TimeSource.Valid(st.totalSeconds) && 0 <= st.currDigit < 4
  }

  /** C's `%`, which truncates toward zero (Dafny's is Euclidean). */
  function CRem(a: int, n: int): (r: int)
    requires n > 0
    ensures -n < r < n
    ensures a >= 0 ==> r == a % n
    ensures a < 0 ==> r <= 0 && a == -((-a) / n) * n + r
  {
    if a >= 0 then a % n else -((-a) % n)
  }

  /** The 1 Hz ticker: only the counter changes, and it stays in range. */
  function SecondTick(st: State): (r: State)
    ensures r == st.(totalSeconds := r.totalSeconds)
    ensures Inv(st) ==> Inv(r)
    ensures Inv(st) ==> r.totalSeconds == (st.totalSeconds + 1) % TimeSource.Wrap
  {
    st.(totalSeconds := TimeSource.Tick(st.totalSeconds))
  }

  /** The refresh ticker raises the flag and touches nothing else. */
  function RefreshTick(st: State): (r: State)
    ensures r.updateDisplay
    ensures r.(updateDisplay := st.updateDisplay) == st
  {
    st.(updateDisplay := true)
  }

  /** One pass of the loop: its new state, the frame it rendered (if the
      refresh flag was up) and the pin events it produced. */
  datatype Pass = Pass(next: State, frame: Option<Frame>, trace: seq<Signal>)

  /** One pass of `while (true)`: S1 edge detection and reset, S3 level
      sampling, then, if the flag is up, clear it, render the current digit,
      shift it out and move the cursor. `centivolts` stands for the scaled
      potentiometer sample read in voltage mode. */
  function LoopPass(st: State, b1: int, b3: int, centivolts: int): (p: Pass)
    requires TimeSource.Valid(st.totalSeconds)
    requires centivolts >= 0
    ensures p.next.prevB1 == b1 && p.next.prevB3 == b3
    ensures p.next.modeVoltage <==> b3 == 0
    ensures b1 == 0 && st.prevB1 == 1 ==> p.next.totalSeconds == 0
    ensures !(b1 == 0 && st.prevB1 == 1) ==> p.next.totalSeconds == st.totalSeconds
    ensures !p.next.updateDisplay
    ensures !st.updateDisplay ==> p.frame == None && p.trace == [] && p.next.currDigit == st.currDigit
    ensures st.updateDisplay ==> p.frame.Some?
    ensures st.updateDisplay && 0 <= st.currDigit < 4 ==>
              p.next.currDigit == (st.currDigit + 1) % 4 && p.frame.value.select == SegmentSelect[st.currDigit]
    ensures Inv(st) ==> Inv(p.next)
  {
    var seconds := if ResetFires(st.prevB1, b1) then 0 else st.totalSeconds;
    var mode := ModeFor(b3);
    var sampled := st.(totalSeconds := seconds, prevB1 := b1, modeVoltage := mode == Voltage, prevB3 := b3);
    if st.updateDisplay then
      var f := Render(mode, st.currDigit, seconds, centivolts);
      Pass(sampled.(updateDisplay := false, currDigit := CRem(st.currDigit + 1, 4)),
           Some(f), FrameTrace(f.segments, f.select))
    else
      Pass(sampled, None, [])
  }

  /** A pass that refreshes shifts out exactly its frame: the pin trace
      decodes to the frame's two bytes, and a pass that does not refresh
      leaves the pins alone. */
  lemma PassTraceDecodes(st: State, b1: int, b3: int, centivolts: int)
    requires TimeSource.Valid(st.totalSeconds)
    requires centivolts >= 0
    ensures var p := LoopPass(st, b1, b3, centivolts);
            st.updateDisplay ==> Decode(p.trace) == Some((p.frame.value.segments, p.frame.value.select))
    ensures !st.updateDisplay ==> LoopPass(st, b1, b3, centivolts).trace == []
  {
    var p := LoopPass(st, b1, b3, centivolts);
    if st.updateDisplay {
      FrameTraceRoundTrip(p.frame.value.segments, p.frame.value.select);
    }
  }

  /** End to end: a pass that refreshes lights the digit under the cursor
      with the glyph that position should show for the mode selected by S3,
      reading the counter after any reset this same pass performed. */
  lemma PassShows(st: State, b1: int, b3: int, centivolts: int)
    requires Inv(st) && st.updateDisplay
    requires centivolts >= 0
    ensures var p := LoopPass(st, b1, b3, centivolts);
            && p.frame.value.select == SegmentSelect[st.currDigit]
            && ReadGlyph(p.frame.value.segments)
               == Expected(ModeFor(b3), st.currDigit, p.next.totalSeconds, centivolts)
  {
    var p := LoopPass(st, b1, b3, centivolts);
    assert p.frame.value == Render(ModeFor(b3), st.currDigit, p.next.totalSeconds, centivolts);
    RenderReadsBack(ModeFor(b3), st.currDigit, p.next.totalSeconds, centivolts);
  }

  /** What can happen next: a second elapses, a refresh falls due, or the
      loop makes one pass with the given button and voltage samples. */
  datatype Event = SecondElapsed | RefreshDue | Iteration(s: Samples)

  /** Button and voltage samples of one loop pass. */
  datatype Samples = Samples(b1: int, b3: int, centivolts: nat)

  function Apply(st: State, e: Event): (r: State)
    requires Inv(st)
    ensures Inv(r)
  {
    match e
    case SecondElapsed => SecondTick(st)
    case RefreshDue => RefreshTick(st)
    case Iteration(s) => LoopPass(st, s.b1, s.b3, s.centivolts).next
  }

  /** Any interleaving of ticks, refreshes and loop passes keeps the counter
      in 0..5999 and the cursor in 0..3, so every table lookup the renderer
      makes stays inside its table. */
  function Run(st: State, events: seq<Event>): (r: State)
    requires Inv(st)
    ensures Inv(r)
    decreases |events|
  {
    if |events| == 0 then st else Run(Apply(st, events[0]), events[1..])
  }

  /** A loop pass right after a refresh tick: it always renders the digit
      under the cursor and moves the cursor on by one. */
  function RefreshedPass(st: State, s: Samples): (p: Pass)
    requires Inv(st)
    ensures Inv(p.next) && p.frame.Some?
    ensures p.frame.value.select == SegmentSelect[st.currDigit]
    ensures p.next.currDigit == (st.currDigit + 1) % 4
  {
    LoopPass(RefreshTick(st), s.b1, s.b3, s.centivolts)
  }

  /** `b` and `f` are the state and frame of a refreshed pass from `a`. */
  predicate RefreshStep(a: State, s: Samples, f: Frame, b: State) {
    Inv(a) && RefreshedPass(a, s).next == b && RefreshedPass(a, s).frame == Some(f)
  }

  /** The loop run with the refresh flag raised before every pass, once per
      sample: `states[k]` is the state before the k-th pass, and `frames[k]`
      the frame that pass rendered. */
  method RefreshRun(st: State, inputs: seq<Samples>) returns (frames: seq<Frame>, states: seq<State>)
    requires Inv(st)
    ensures |frames| == |inputs| && |states| == |inputs| + 1
    ensures states[0] == st && Inv(states[|inputs|])
    ensures forall k {:trigger RefreshStep(states[k], inputs[k], frames[k], states[k + 1])} ::
              0 <= k < |inputs| ==> RefreshStep(states[k], inputs[k], frames[k], states[k + 1])
  {
    frames := [];
    states := [st];
    var i := 0;
    while i < |inputs|
      invariant 0 <= i <= |inputs|
      invariant |frames| == i && |states| == i + 1
      invariant states[0] == st && Inv(states[i])
      invariant forall k {:trigger RefreshStep(states[k], inputs[k], frames[k], states[k + 1])} ::
                  0 <= k < i ==> RefreshStep(states[k], inputs[k], frames[k], states[k + 1])
    {
      var p := RefreshedPass(states[i], inputs[i]);
      assert RefreshStep(states[i], inputs[i], p.frame.value, p.next);
      frames := frames + [p.frame.value];
      states := states + [p.next];
      i := i + 1;
    }
  }

  /** What one refreshed pass does to the cursor, read off a chain link. */
  lemma StepCursor(a: State, s: Samples, f: Frame, b: State)
    requires RefreshStep(a, s, f, b)
    ensures Inv(b) && f.select == SegmentSelect[a.currDigit]
    ensures b.currDigit == (a.currDigit + 1) % 4
  {
  }

  /** The same run, with what it does to the cursor: each pass lights the
      next digit position in turn, so the k-th frame selects position
      (start + k) mod 4 and the cursor ends |inputs| positions further on. */
  method Refreshes(st: State, inputs: seq<Samples>)
    returns (last: State, frames: seq<Frame>, states: seq<State>)
    requires Inv(st)
    ensures Inv(last)
    ensures |frames| == |inputs| && |states| == |inputs| + 1
    ensures states[0] == st && states[|inputs|] == last
    ensures forall k {:trigger RefreshStep(states[k], inputs[k], frames[k], states[k + 1])} ::
              0 <= k < |inputs| ==> RefreshStep(states[k], inputs[k], frames[k], states[k + 1])
    ensures last.currDigit == (st.currDigit + |inputs|) % 4
    ensures forall k :: 0 <= k < |inputs| ==> frames[k].select == SegmentSelect[(st.currDigit + k) % 4]
  {
    frames, states := RefreshRun(st, inputs);
    last := states[|inputs|];
    CursorCycle(st, inputs, frames, states);
  }

  /** Along a chain of refreshed passes the cursor moves on by one position
      per pass, and each frame selects the position the cursor was at. */
  lemma CursorCycle(st: State, inputs: seq<Samples>, frames: seq<Frame>, states: seq<State>)
    requires Inv(st)
    requires |frames| == |inputs| && |states| == |inputs| + 1 && states[0] == st
    requires forall k {:trigger RefreshStep(states[k], inputs[k], frames[k], states[k + 1])} ::
               0 <= k < |inputs| ==> RefreshStep(states[k], inputs[k], frames[k], states[k + 1])
    ensures states[|inputs|].currDigit == (st.currDigit + |inputs|) % 4
    ensures forall k :: 0 <= k < |inputs| ==> frames[k].select == SegmentSelect[(st.currDigit + k) % 4]
  {
    var i := 0;
    while i < |inputs|
      invariant 0 <= i <= |inputs|
      invariant states[i].currDigit == (st.currDigit + i) % 4
      invariant forall k :: 0 <= k < i ==> frames[k].select == SegmentSelect[(st.currDigit + k) % 4]
    {
      StepCursor(states[i], inputs[i], frames[i], states[i + 1]);
      NextPosition(st.currDigit + i);
      i := i + 1;
    }
  }

  /** Moving on one position after reducing mod 4 is reducing after. */
  lemma NextPosition(n: nat)
    ensures (n % 4 + 1) % 4 == (n + 1) % 4
  {
  }

  /** Four refreshes light all four digit positions once each and bring
      the cursor back to where it started. */
  method FourRefreshes(st: State, inputs: seq<Samples>)
    returns (last: State, frames: seq<Frame>, states: seq<State>)
    requires Inv(st)
    requires |inputs| == 4
    ensures |frames| == 4 && |states| == 5
    ensures states[0] == st && states[4] == last
    ensures forall k {:trigger RefreshStep(states[k], inputs[k], frames[k], states[k + 1])} ::
              0 <= k < 4 ==> RefreshStep(states[k], inputs[k], frames[k], states[k + 1])
    ensures last.currDigit == st.currDigit
    ensures forall p :: 0 <= p < 4 ==> SegmentSelect[p] in Selects(frames)
  {
    last, frames, states := Refreshes(st, inputs);
    assert (st.currDigit + 4) % 4 == st.currDigit;
    var sels := Selects(frames);
    forall p | 0 <= p < 4
      ensures SegmentSelect[p] in sels
    {
      var k := (p - st.currDigit + 4) % 4;
      assert (st.currDigit + k) % 4 == p;
      assert sels[k] == SegmentSelect[p];
    }
  }

  /** The digit-select bytes of a run of frames. */
  function Selects(frames: seq<Frame>): seq<bv8> {
    seq(|frames|, k requires 0 <= k < |frames| => frames[k].select)
  }

  /** The mode has no memory: two states that differ in everything still
      agree on the mode after a pass that samples the same S3 level. */
  lemma ModeIsLevelTriggered(s1: State, s2: State, b1: int, b1': int, b3: int, cv: int, cv': int)
    requires TimeSource.Valid(s1.totalSeconds) && TimeSource.Valid(s2.totalSeconds)
    requires cv >= 0 && cv' >= 0
    ensures LoopPass(s1, b1, b3, cv).next.modeVoltage == LoopPass(s2, b1', b3, cv').next.modeVoltage
  {
  }

  /** The loop passes that read the given samples, one event each. */
  function Iterations(inputs: seq<Samples>): (events: seq<Event>)
    ensures |events| == |inputs|
    ensures forall k :: 0 <= k < |inputs| ==>
              events[k] == Iteration(inputs[k])
  {
    seq(|inputs|, k requires 0 <= k < |inputs| => Iteration(inputs[k]))
  }

  /** The S1 levels of a run of samples. */
  function Levels(inputs: seq<Samples>): (levels: seq<int>)
    ensures |levels| == |inputs|
    ensures forall k :: 0 <= k < |inputs| ==> levels[k] == inputs[k].b1
  {
    seq(|inputs|, k requires 0 <= k < |inputs| => inputs[k].b1)
  }

  /** The loop resets the counter exactly where the edge detector says: the
      k-th of a run of passes from `st` sets the counter to 0 when
      ResetPolls fires for the k-th S1 sample, and leaves it alone
      otherwise. */
  lemma {:induction false} PassesResetAtPolls(st: State, inputs: seq<Samples>, k: nat)
    requires Inv(st)
    requires k < |inputs|
    ensures var before := Run(st, Iterations(inputs)[..k]);
            var after := Apply(before, Iterations(inputs)[k]);
            && (ResetPolls(st.prevB1, Levels(inputs))[k] ==> after.totalSeconds == 0)
            && (!ResetPolls(st.prevB1, Levels(inputs))[k] ==> after.totalSeconds == before.totalSeconds)
    decreases k
  {
    var events := Iterations(inputs);
    var e0 := events[0];
    var st' := Apply(st, e0);
    if k == 0 {
      assert events[..0] == [];
    } else {
      var rest := inputs[1..];
      assert Iterations(rest) == events[1..];
      assert events[..k] == [e0] + Iterations(rest)[..k - 1];
      assert Run(st, events[..k]) == Run(st', Iterations(rest)[..k - 1]);
      assert Levels(rest) == Levels(inputs)[1..];
      assert st'.prevB1 == inputs[0].b1;
      assert ResetPolls(st.prevB1, Levels(inputs))[k] == ResetPolls(st'.prevB1, Levels(rest))[k - 1];
      PassesResetAtPolls(st', rest, k - 1);
    }
  }

  /** At power-on the state is in time mode with the counter at 0 and the
      cursor on the leftmost digit (S3 held at power-on still switches the
      first frame to voltage, since every pass samples it), the first pass renders without waiting for a refresh
      tick, and S1 counts as released, so a press held through power-on
      resets on the first pass. */
  lemma PowerOn(b1: int, b3: int, centivolts: int)
    requires centivolts >= 0
    ensures Inv(Init) && Init.totalSeconds == 0 && !Init.modeVoltage
    ensures var p := LoopPass(Init, b1, b3, centivolts);
            p.frame.Some? && p.frame.value.select == SegmentSelect[0] && p.next.currDigit == 1
    ensures ResetFires(Init.prevB1, 0)
  {
  }

  /** Power-on state satisfies the invariant, so does every state reached
      from it. */
  lemma ReachableStatesValid(events: seq<Event>)
    ensures Inv(Run(Init, events))
  {
  }
}

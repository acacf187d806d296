/** The button task: it polls the button every scan period, counts how many
    consecutive samples were HIGH in an 8-bit counter, and on a release edge
    classifies the press duration into the shared LED mode. */
module ButtonTask {
  import opened Gpio
  import opened ToggleStatus

  /** BUTTON_SCAN_PERIODICITY: the delay between two samples, in ms. */
  const ScanPeriodMs: nat := 100
  /** TIME_2000MS and TIME_4000MS: the two classification thresholds. */
  const Time2000Ms: nat := 2000
  const Time4000Ms: nat := 4000

  /** `uint8_t`, the type of the press counter. */
  newtype uint8 = x: int | 0 <= x < 256

  /** `loc_TimeCounter++` on a `uint8_t`: wraps from 255 to 0. */
  function Increment(c: uint8): (r: uint8)
    ensures c < 255 ==> r as int == c as int + 1
    ensures c == 255 ==> r == 0
  {
    ((c as int + 1) % 256) as uint8
  }

  /** `loc_TimeCounter * BUTTON_SCAN_PERIODICITY`. The counter is promoted and
      multiplied as a 32-bit `unsigned int`; the product is at most 25500,
      far below 2^32, so it never wraps and is modelled as an exact natural
      number. */
  function HeldMs(ticks: uint8): (ms: nat)
    ensures ms <= 255 * ScanPeriodMs
    ensures ms / ScanPeriodMs == ticks as int
  {
    ticks as nat * ScanPeriodMs
  }

  /** The three-way classification of a press, evaluated on a release edge. */
  function Classify(ticks: uint8): (s: Status)
    ensures s == Toggle100ms <==> 20 <= ticks < 40
    ensures s == Toggle400ms <==> 40 <= ticks
    ensures s == ToggleOff <==> ticks < 20
  {
    var ms := HeldMs(ticks);
    if ms >= Time2000Ms && ms < Time4000Ms then Toggle100ms
    else if ms >= Time4000Ms then Toggle400ms
    else ToggleOff
  }

  /** The button task's static locals together with the global mode it writes. */
  datatype SampleState = SampleState(
    current: PinState,    // loc_ButtonCurrentStatus
    previous: PinState,   // loc_ButtonPreviousStatus
    counter: uint8,       // loc_TimeCounter
    status: Status)       // the global ledTogglStatus

  /** What holds between two loop passes: both levels are the last sample, and
      the counter is zero whenever the button was last seen released. */
  predicate Inv(st: SampleState) {
    st.current == st.previous && (st.previous == Low ==> st.counter == 0)
  }

  /** The state before the first pass. Both static levels start at the same
      (zero-initialised) value, which depends on the encoding of `pinState_t`. */
  function Initial(initialLevel: PinState): (st: SampleState)
    ensures st.status == ToggleOff && st.counter == 0
    ensures st.previous == initialLevel
    ensures Inv(st)
  {
    SampleState(initialLevel, initialLevel, 0, InitialStatus)
  }

  /** A release edge: the previous sample was HIGH and this one is LOW. */
  predicate IsReleaseEdge(st: SampleState, sample: PinState) {
    st.previous == High && sample == Low
  }

  /** One pass of the button task's loop on the sampled level `sample`. */
  function Next(st: SampleState, sample: PinState): (st': SampleState)
    ensures st'.current == sample && st'.previous == sample
    ensures sample == High ==> st'.counter == Increment(st.counter) && st'.status == st.status
    ensures IsReleaseEdge(st, sample) ==> st'.counter == 0 && st'.status == Classify(st.counter)
    ensures sample == Low && st.previous == Low ==> st'.counter == st.counter && st'.status == st.status
    ensures st'.status != st.status ==> IsReleaseEdge(st, sample)
  {
    if sample == High then
      SampleState(sample, sample, Increment(st.counter), st.status)
    else if st.previous == High then
      SampleState(sample, sample, 0, Classify(st.counter))
    else
      SampleState(sample, sample, st.counter, st.status)
  }

  /** Every pass keeps the between-pass invariant. This records the per-pass
      fact on its own; `Run` and `ButtonSampler.Step` state the same invariant
      for many passes and for the in-place update. */
  lemma NextPreservesInv(st: SampleState, sample: PinState)
    requires Inv(st)
    ensures Inv(Next(st, sample))
  {
  }

  /** The passes of the loop on a sequence of samples, first sample first. */
  function Run(st: SampleState, samples: seq<PinState>): (r: SampleState)
    ensures Inv(st) ==> Inv(r)
    ensures samples != [] ==> r.previous == samples[|samples| - 1]
    decreases |samples|
  {
    if samples == [] then st else Run(Next(st, samples[0]), samples[1..])
  }

  /** Running two stretches of samples is running their concatenation. */
  lemma {:induction false} RunAppend(st: SampleState, a: seq<PinState>, b: seq<PinState>)
    ensures Run(st, a + b) == Run(Run(st, a), b)
    decreases |a|
  {
    if a != [] {
      assert (a + b)[0] == a[0];
      assert (a + b)[1..] == a[1..] + b;
      RunAppend(Next(st, a[0]), a[1..], b);
    } else {
      assert a + b == b;
    }
  }

  /** The first `i + 1` samples are the first `i` followed by one pass, and
      after `i` samples the previous level is the level sampled last. */
  lemma RunPrefixStep(st: SampleState, s: seq<PinState>, i: nat)
    requires i < |s|
    ensures Run(st, s[..i + 1]) == Next(Run(st, s[..i]), s[i])
    ensures Run(st, s[..i]).previous == LevelBefore(st, s, i)
  {
    assert s[..i + 1] == s[..i] + [s[i]];
    RunAppend(st, s[..i], [s[i]]);
    assert Run(Next(Run(st, s[..i]), s[i]), []) == Next(Run(st, s[..i]), s[i]);
  }

  function Highs(k: nat): (s: seq<PinState>)
    ensures |s| == k && forall i :: 0 <= i < k ==> s[i] == High
  {
    seq(k, _ => High)
  }

  function Lows(n: nat): (s: seq<PinState>)
    ensures |s| == n && forall i :: 0 <= i < n ==> s[i] == Low
  {
    seq(n, _ => Low)
  }

  /** While the button stays pressed, each sample adds one to the counter
      modulo 256 and the mode does not change. */
  lemma {:induction false} HoldHigh(st: SampleState, k: nat)
    ensures Run(st, Highs(k)).counter as int == (st.counter as int + k) % 256
    ensures Run(st, Highs(k)).status == st.status
    ensures k > 0 ==> Run(st, Highs(k)).previous == High && Run(st, Highs(k)).current == High
    decreases k
  {
    if k > 0 {
      assert Highs(k)[1..] == Highs(k - 1);
      HoldHigh(Next(st, High), k - 1);
    }
  }

  /** While the button stays released, nothing changes at all. */
  lemma {:induction false} StayLow(st: SampleState, n: nat)
    requires st.previous == Low && st.current == Low
    ensures Run(st, Lows(n)) == st
    decreases n
  {
    if n > 0 {
      assert Lows(n)[1..] == Lows(n - 1);
      StayLow(Next(st, Low), n - 1);
    }
  }

  /** A press of `k` samples followed by one released sample: the mode is set
      exactly once, to the classification of the wrapped tick count (counting
      the ticks of a press already in progress), and the counter is reset.
      With no press at all (`k == 0` from a released state) nothing happens. */
  lemma PressAndRelease(st: SampleState, k: nat)
    requires Inv(st)
    ensures Run(st, Highs(k) + [Low]) ==
      SampleState(Low, Low, 0,
        if k > 0 || st.previous == High then Classify(((st.counter as int + k) % 256) as uint8)
        else st.status)
  {
    RunAppend(st, Highs(k), [Low]);
    HoldHigh(st, k);
    var held := Run(st, Highs(k));
    assert Run(held, [Low]) == Next(held, Low) by {
      assert Run(Next(held, Low), []) == Next(held, Low);
    }
    if k == 0 {
      assert held == st;
    }
  }

  /** From a released state, a press of `k` samples with `0 < k < 256` is
      classified by its duration `k * 100` ms against half-open bands. */
  lemma PressClassification(st: SampleState, k: nat)
    requires Inv(st) && st.previous == Low
    requires 0 < k < 256
    ensures var ms := k * ScanPeriodMs;
      var mode := Run(st, Highs(k) + [Low]).status;
      && (ms < Time2000Ms <==> mode == ToggleOff)
      && (Time2000Ms <= ms < Time4000Ms <==> mode == Toggle100ms)
      && (Time4000Ms <= ms <==> mode == Toggle400ms)
  {
    PressAndRelease(st, k);
    assert (st.counter as int + k) % 256 == k;
  }

  /** Because the counter is 8 bits wide, a press of 256 to 275 samples
      (25.6 s to 27.5 s) wraps to fewer than 20 ticks and reads as short. */
  lemma WrappedPressReadsShort(st: SampleState, k: nat)
    requires Inv(st) && st.previous == Low
    requires 256 <= k < 276
    ensures Run(st, Highs(k) + [Low]).status == ToggleOff
  {
    PressAndRelease(st, k);
    assert (st.counter as int + k) % 256 == k - 256;
  }

  /** From the released start state, presses of 19, 20 and 40 ticks; and a
      release seen on the very first sample when the previous level starts
      HIGH. */
  lemma Scenarios()
    ensures Run(Initial(Low), Highs(19) + [Low]).status == ToggleOff
    ensures Run(Initial(Low), Highs(20) + [Low]).status == Toggle100ms
    ensures Run(Initial(Low), Highs(40) + [Low]).status == Toggle400ms
    ensures Run(Initial(High), [Low]) == SampleState(Low, Low, 0, ToggleOff)
  {
    PressAndRelease(Initial(Low), 19);
    PressAndRelease(Initial(Low), 20);
    PressAndRelease(Initial(Low), 40);
    PressAndRelease(Initial(High), 0);
    assert Highs(0) + [Low] == [Low];
  }

  /** The level seen just before sample `i`. */
  function LevelBefore(st: SampleState, s: seq<PinState>, i: nat): PinState
    requires i <= |s|
  {
    if i == 0 then st.previous else s[i - 1]
  }

  /** Sample `i` is a release edge of the run. */
  predicate ReleaseEdgeAt(st: SampleState, s: seq<PinState>, i: nat)
    requires i < |s|
  {
    LevelBefore(st, s, i) == High && s[i] == Low
  }

  /** Over any sequence of samples, the mode is classified at every release
      edge, from the counter accumulated before it, and is left unchanged by
      every other sample; so it changes at most once per press. */
  lemma ClassifiedExactlyAtReleaseEdges(st: SampleState, s: seq<PinState>, i: nat)
    requires i < |s|
    ensures var before, after := Run(st, s[..i]), Run(st, s[..i + 1]);
      && (ReleaseEdgeAt(st, s, i) ==> after.status == Classify(before.counter) && after.counter == 0)
      && (!ReleaseEdgeAt(st, s, i) ==> after.status == before.status)
  {
    RunPrefixStep(st, s, i);
  }

  /** The button task's static locals and the global mode, updated in place. */
  class ButtonSampler {
    var current: PinState
    var previous: PinState
    var counter: uint8
    var status: Status

    function State(): SampleState
      reads this
    {
      SampleState(current, previous, counter, status)
    }

    ghost predicate Valid()
      reads this
    {
      Inv(State())
    }

    constructor (initialLevel: PinState)
      ensures State() == Initial(initialLevel)
      ensures Valid()
    {
      current, previous := initialLevel, initialLevel;
      counter := 0;
      status := InitialStatus;
    }

    /** One pass of `vidBUTTON_Task`'s loop; returns the delay it ends with. */
    method Step(sample: PinState) returns (act: Action)
      modifies this
      ensures State() == Next(old(State()), sample)
      ensures old(Valid()) ==> Valid()
      ensures act == Delay(ScanPeriodMs)
    {
      current := sample;
      if current == High {
        counter := Increment(counter);
      } else {
        if previous == High {
          status := Classify(counter);
          counter := 0;
        }
      }
      previous := current;
      act := Delay(ScanPeriodMs);
    }

    /** The task's endless loop, run for as many passes as there are samples. */
    method Poll(samples: seq<PinState>) returns (acts: seq<Action>)
      modifies this
      ensures State() == Run(old(State()), samples)
      ensures old(Valid()) ==> Valid()
      ensures |acts| == |samples|
      ensures forall i :: 0 <= i < |acts| ==> acts[i] == Delay(ScanPeriodMs)
    {
      acts := [];
      var i := 0;
      while i < |samples|
        invariant 0 <= i <= |samples|
        invariant Run(old(State()), samples) == Run(State(), samples[i..])
        invariant old(Valid()) ==> Valid()
        invariant |acts| == i
        invariant forall j :: 0 <= j < i ==> acts[j] == Delay(ScanPeriodMs)
      {
        assert samples[i..][1..] == samples[i + 1..];
        var act := Step(samples[i]);
        acts := acts + [act];
        i := i + 1;
      }
    }
  }
}

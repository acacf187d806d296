/** The LED task: on every pass of its loop it reads the shared mode once and
    drives the LED pin with a blink whose half period that mode selects. */
module LedTask {
  import opened Gpio
  import opened ToggleStatus

  /** The half period of the blink a mode selects, in ms; zero means the LED
      is held off without blinking. */
  function HalfPeriodMs(s: Status): nat {
    match s
    case ToggleOff => 0
    case Toggle100ms => 100
    case Toggle400ms => 400
  }

  /** The pin level after performing `acts`, starting from `level`. */
  function LevelAfter(level: PinState, acts: seq<Action>): PinState
    decreases |acts|
  {
    if acts == [] then level
    else LevelAfter(if acts[0].Write? then acts[0].level else level, acts[1..])
  }

  /** The total time `acts` spend suspended, in ms. */
  function TotalDelay(acts: seq<Action>): nat
    decreases |acts|
  {
    if acts == [] then 0
    else (if acts[0].Delay? then acts[0].ms else 0) + TotalDelay(acts[1..])
  }

  /** The part of that time during which the pin is HIGH, starting from `level`. */
  function HighTime(level: PinState, acts: seq<Action>): nat
    decreases |acts|
  {
    if acts == [] then 0
    else match acts[0]
      case Write(l) => HighTime(l, acts[1..])
      case Delay(ms) => (if level == High then ms else 0) + HighTime(level, acts[1..])
  }

  /** One pass of `vidLED_Task`'s loop, for the mode it read at the switch. The
      off mode is a single LOW write; a blinking pass is four actions, HIGH for
      its first half period and LOW for its second. Every pass leaves the LED
      off and lights it for exactly half of the pass's time. */
  function LedPass(s: Status): (acts: seq<Action>)
    ensures |acts| > 0 && acts[0].Write?
    ensures acts[0] == Write(High) <==> s != ToggleOff
    ensures forall level :: LevelAfter(level, acts) == Low
    ensures TotalDelay(acts) == 2 * HalfPeriodMs(s)
    ensures forall level :: HighTime(level, acts) == HalfPeriodMs(s)
    ensures s != ToggleOff ==> |acts| >= 2 && acts[0] == Write(High) && acts[1] == Delay(HalfPeriodMs(s))
    ensures |acts| == if s == ToggleOff then 1 else 4
    ensures forall i :: 0 < i < |acts| && acts[i].Write? ==> acts[i] == Write(Low)
  {
    match s
    case ToggleOff => [Write(Low)]
    case Toggle100ms => [Write(High), Delay(100), Write(Low), Delay(100)]
    case Toggle400ms => [Write(High), Delay(400), Write(Low), Delay(400)]
  }

  /** The actions of consecutive passes, where `modes[i]` is the mode read at
      the start of pass `i`. */
  function LedTrace(modes: seq<Status>): (acts: seq<Action>)
    ensures modes != [] ==> forall level :: LevelAfter(level, acts) == Low
    decreases |modes|
  {
    if modes == [] then []
    else
      var pass, rest := LedPass(modes[0]), LedTrace(modes[1..]);
      LevelAfterAppend(pass, rest);
      pass + rest
  }

  /** The final level of consecutive actions composes, from any start level. */
  lemma LevelAfterAppend(a: seq<Action>, b: seq<Action>)
    ensures forall level :: LevelAfter(level, a + b) == LevelAfter(LevelAfter(level, a), b)
  {
    forall level
      ensures LevelAfter(level, a + b) == LevelAfter(LevelAfter(level, a), b)
    {
      HighTimeAppend(level, a, b);
    }
  }

  lemma {:induction false} TotalDelayAppend(a: seq<Action>, b: seq<Action>)
    ensures TotalDelay(a + b) == TotalDelay(a) + TotalDelay(b)
    decreases |a|
  {
    if a == [] {
      assert a + b == b;
    } else {
      assert (a + b)[0] == a[0];
      assert (a + b)[1..] == a[1..] + b;
      TotalDelayAppend(a[1..], b);
    }
  }

  lemma {:induction false} HighTimeAppend(level: PinState, a: seq<Action>, b: seq<Action>)
    ensures HighTime(level, a + b) == HighTime(level, a) + HighTime(LevelAfter(level, a), b)
    ensures LevelAfter(level, a + b) == LevelAfter(LevelAfter(level, a), b)
    decreases |a|
  {
    if a == [] {
      assert a + b == b;
    } else {
      assert (a + b)[0] == a[0];
      assert (a + b)[1..] == a[1..] + b;
      var l := if a[0].Write? then a[0].level else level;
      HighTimeAppend(l, a[1..], b);
    }
  }

  /** A mode change is honoured only at a pass boundary: the actions of the
      first passes depend only on the modes read in those passes. */
  lemma {:induction false} TraceAppend(m1: seq<Status>, m2: seq<Status>)
    ensures LedTrace(m1 + m2) == LedTrace(m1) + LedTrace(m2)
    decreases |m1|
  {
    if m1 == [] {
      assert m1 + m2 == m2;
    } else {
      assert (m1 + m2)[0] == m1[0];
      assert (m1 + m2)[1..] == m1[1..] + m2;
      TraceAppend(m1[1..], m2);
    }
  }

  /** `n` passes in the same mode. */
  function Repeat(s: Status, n: nat): (r: seq<Status>)
    ensures |r| == n && forall i :: 0 <= i < n ==> r[i] == s
  {
    seq(n, _ => s)
  }

  /** While the mode stays the same, the output repeats the same pass: the
      pin is HIGH for half of the elapsed time, the elapsed time grows by a
      full blink period per pass, and the LED is off between passes. */
  lemma {:induction false} SteadyMode(s: Status, n: nat)
    ensures TotalDelay(LedTrace(Repeat(s, n))) == 2 * n * HalfPeriodMs(s)
    ensures forall level :: HighTime(level, LedTrace(Repeat(s, n))) == n * HalfPeriodMs(s)
    ensures n > 0 ==> forall level :: LevelAfter(level, LedTrace(Repeat(s, n))) == Low
    ensures |LedTrace(Repeat(s, n))| == n * |LedPass(s)|
    decreases n
  {
    if n > 0 {
      var rest := LedTrace(Repeat(s, n - 1));
      assert Repeat(s, n)[1..] == Repeat(s, n - 1);
      assert LedTrace(Repeat(s, n)) == LedPass(s) + rest;
      SteadyMode(s, n - 1);
      TotalDelayAppend(LedPass(s), rest);
      var h := HalfPeriodMs(s);
      assert n * h == (n - 1) * h + h;
      assert 2 * n * h == 2 * (n - 1) * h + 2 * h;
      assert n * |LedPass(s)| == (n - 1) * |LedPass(s)| + |LedPass(s)|;
      forall level
        ensures HighTime(level, LedTrace(Repeat(s, n))) == n * HalfPeriodMs(s)
        ensures n > 1 ==> LevelAfter(level, LedTrace(Repeat(s, n))) == Low
      {
        HighTimeAppend(level, LedPass(s), rest);
      }
      if n == 1 {
        assert rest == [];
        assert LedTrace(Repeat(s, n)) == LedPass(s);
      }
    }
  }

  /** Under a steady mode the output is periodic with the pass as its period. */
  lemma {:induction false} SteadyModePeriodic(s: Status, n: nat, i: nat)
    requires i < |LedTrace(Repeat(s, n))|
    ensures LedTrace(Repeat(s, n))[i] == LedPass(s)[i % |LedPass(s)|]
    decreases n
  {
    var p := LedPass(s);
    assert n > 0;
    var rest := LedTrace(Repeat(s, n - 1));
    assert Repeat(s, n)[1..] == Repeat(s, n - 1);
    assert LedTrace(Repeat(s, n)) == p + rest;
    if i >= |p| {
      SteadyModePeriodic(s, n - 1, i - |p|);
      if s == ToggleOff {
        assert |p| == 1;
      } else {
        assert |p| == 4 && (i - 4) % 4 == i % 4;
      }
    }
  }
}

/** The rainbow effect of the RGB LED demo: a persistent HSV colour whose hue
    is advanced on every tick and whose conversion is handed to the three PWM
    channels. The PWM setter is modelled by the triple a step returns. */
module Rainbow {
  import opened Color

  /** Largest per-tick hue advance for which subtracting 360 once is enough. */
  const MaxDelta: nat := MaxHue

  /** The duty cycles sent to the red, green and blue PWM channels. */
  predicate ValidDuty(d: RgbColor)
  {
    d.r <= MaxRgb && d.g <= MaxRgb && d.b <= MaxRgb && Max3(d) == MaxRgb
  }

  /** What is sent to the LEDs when the hue is `h` and saturation and value are full. */
  function DutyAt(h: nat): (d: RgbColor)
    ensures ValidDuty(d)
  {
    var hsv := HsvColor(h, MaxRgb, MaxRgb);
    ChannelsAreDuties(hsv);
    MaxChannelIsValue(hsv);
    HsvToRgb(hsv)
  }

  /** The hue update of one tick: add `delta`, then subtract 360 once if the
      sum left the circle. */
  function Advance(h: nat, delta: nat): (next: nat)
    requires h < MaxHue && delta <= MaxDelta
    ensures next < MaxHue && next == (h + delta) % MaxHue
  {
    var sum := h + delta;
    if sum >= MaxHue then sum - MaxHue else sum
  }

  /** The duties the main loop sends on `n` consecutive ticks of `Step(1)`,
      starting from hue `h`. */
  function Sweep(h: nat, n: nat): (sent: seq<RgbColor>)
    requires h < MaxHue
    ensures |sent| == n
    ensures forall i :: 0 <= i < n ==> ValidDuty(sent[i])
    decreases n
  {
    if n == 0 then []
    else
      var next := Advance(h, 1);
      [DutyAt(next)] + Sweep(next, n - 1)
  }

  lemma ModShift(a: nat, b: nat)
    ensures (a % MaxHue + b) % MaxHue == (a + b) % MaxHue
  {
  }

  /** Tick `i` of a sweep from `h` shows hue `(h + i + 1) % 360`. */
  lemma {:induction false} SweepAt(h: nat, n: nat, i: nat)
    requires h < MaxHue && i < n
    ensures Sweep(h, n)[i] == DutyAt((h + i + 1) % MaxHue)
    decreases n
  {
    var next := Advance(h, 1);
    if i > 0 {
      SweepAt(next, n - 1, i - 1);
      ModShift(h + 1, i);
    }
  }

  /** The sweep repeats itself every 360 ticks. */
  lemma SweepPeriodic(h: nat, n: nat, i: nat)
    requires h < MaxHue && i + MaxHue < n
    ensures Sweep(h, n)[i + MaxHue] == Sweep(h, n)[i]
  {
    var x := h + i + 1;
    assert (x + MaxHue) % MaxHue == x % MaxHue;
    assert h + (i + MaxHue) + 1 == x + MaxHue;
    SweepAt(h, n, i);
    SweepAt(h, n, i + MaxHue);
  }

  /** The hue after `x + 1` is one past the hue after `x`, or 0 past 359. */
  lemma ModNext(x: nat)
    ensures x % MaxHue + 1 < MaxHue ==> (x + 1) % MaxHue == x % MaxHue + 1
    ensures x % MaxHue + 1 == MaxHue ==> (x + 1) % MaxHue == 0
  {
  }

  lemma DutyNear(a: nat)
    requires a + 1 < MaxHue
    ensures Near(DutyAt(a), DutyAt(a + 1), 2)
  {
    AdjacentHuesNear(a, MaxRgb, MaxRgb);
  }

  lemma DutyWrap()
    ensures DutyAt(MaxHue - 1) == DutyAt(0)
  {
    WrapContinuity(MaxRgb, MaxRgb);
  }

  /** One degree further round the circle moves no duty by more than 2. */
  lemma DutyStep(x: nat)
    ensures Near(DutyAt(x % MaxHue), DutyAt((x + 1) % MaxHue), 2)
  {
    var a, b := x % MaxHue, (x + 1) % MaxHue;
    ModNext(x);
    if a + 1 < MaxHue {
      DutyNear(a);
      assert b == a + 1;
    } else {
      DutyWrap();
      assert a == MaxHue - 1 && b == 0;
    }
  }

  /** From one tick to the next no duty changes by more than 2, including the
      tick on which the hue wraps from 359 to 0. */
  lemma SweepSmooth(h: nat, n: nat, i: nat)
    requires h < MaxHue && i + 1 < n
    ensures Near(Sweep(h, n)[i], Sweep(h, n)[i + 1], 2)
  {
    SweepAt(h, n, i);
    SweepAt(h, n, i + 1);
    DutyStep(h + i + 1);
    assert h + (i + 1) + 1 == (h + i + 1) + 1;
  }

  /** The colour state kept between calls of `update_rainbow_effect`. */
  class RainbowEffect {
    var hsv: HsvColor

    /** The hue stays on the circle; saturation and value stay full. */
    ghost predicate Valid()
      reads this
    {
      hsv.h < MaxHue && hsv.s == MaxRgb && hsv.v == MaxRgb
    }

    /** The static initialiser: hue 0, saturation 100, value 100. */
    constructor ()
      ensures Valid()
      ensures hsv == HsvColor(0, MaxRgb, MaxRgb)
    {
      hsv := HsvColor(0, MaxRgb, MaxRgb);
    }

    /** `update_rainbow_effect(delta)`: advance the hue, wrap it once, and
        return the duties handed to the PWM setter. */
    method Step(delta: nat) returns (duty: RgbColor)
      requires Valid() && delta <= MaxDelta
      modifies this
      ensures Valid()
      ensures hsv == old(hsv).(h := Advance(old(hsv.h), delta))
      ensures hsv.h == (old(hsv.h) + delta) % MaxHue
      ensures duty == HsvToRgb(hsv) && duty == DutyAt(hsv.h)
      ensures ValidDuty(duty)
    {
      hsv := hsv.(h := hsv.h + delta);
      if hsv.h >= MaxHue {
        hsv := hsv.(h := hsv.h - MaxHue);
      }
      duty := HsvToRgb(hsv);
      assert duty == DutyAt(hsv.h);
    }

    /** The main loop for `ticks` iterations: `Step(1)` each time. Returns
        the duties sent on every tick, in order. */
    method Run(ticks: nat) returns (sent: seq<RgbColor>)
      requires Valid()
      modifies this
      ensures Valid()
      ensures hsv == old(hsv).(h := (old(hsv.h) + ticks) % MaxHue)
      ensures ticks % MaxHue == 0 ==> hsv == old(hsv)
      ensures sent == Sweep(old(hsv.h), ticks)
    {
      ghost var start := hsv.h;
      sent := [];
      var i := 0;
      while i < ticks
        invariant 0 <= i <= ticks
        invariant Valid()
        invariant hsv == old(hsv).(h := (start + i) % MaxHue)
        invariant |sent| == i
        invariant forall j :: 0 <= j < i ==> sent[j] == DutyAt((start + j + 1) % MaxHue)
      {
        ModShift(start + i, 1);
        var duty := Step(1);
        sent := sent + [duty];
        i := i + 1;
      }
      forall j | 0 <= j < ticks
        ensures sent[j] == Sweep(start, ticks)[j]
      {
        SweepAt(start, ticks, j);
      }
      if ticks % MaxHue == 0 {
        assert start + ticks == start + (ticks / MaxHue) * MaxHue;
      }
    }
  }
}

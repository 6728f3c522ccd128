/** Integer-only HSV -> RGB conversion used by the rainbow LED demo.
    Hue is in degrees, saturation and value are percentages, and each output
    channel is a PWM duty in percent. All arithmetic is on unsigned integers;
    `/` and `%` on `nat` here agree with C's unsigned division. */
module Color {

  /** Full-scale channel level: a duty of 100 percent. */
  const MaxRgb: nat := 100
  /** Number of degrees on the hue circle. */
  const MaxHue: nat := 360
  /** Width of one of the six hue regions, `MaxHue / 6`. */
  const HueRegion: nat := 60
  /** Exclusive bound of the source's `uint32_t`. */
  const Uint32Limit: nat := 0x1_0000_0000

  datatype HsvColor = HsvColor(h: nat, s: nat, v: nat)
  datatype RgbColor = RgbColor(r: nat, g: nat, b: nat)

  /** The inputs the conversion is modelled for. `s <= 100` is what keeps
      `100 - s` from wrapping below zero. `v <= 100` is chosen because a
      channel is a duty in percent and the only caller passes `v = 100`;
      the products overflow 32 bits only from `v > 2^32 / 100` on. Any hue is
      accepted. */
  predicate InDomain(hsv: HsvColor)
  {
    hsv.s <= MaxRgb && hsv.v <= MaxRgb
  }

  // ---------------------------------------------------------------------
  // The conversion
  // ---------------------------------------------------------------------

  /** Which of the six 60-degree regions the hue falls in (5 and above reach the default arm). */
  function Region(h: nat): (k: nat)
    ensures HueRegion * k <= h < HueRegion * (k + 1)
  {
    h / HueRegion
  }

  /** Position of the hue inside its region. */
  function Remainder(h: nat): (rem: nat)
    ensures rem < HueRegion
  {
    h % HueRegion
  }

  /** The pedestal level `hdp`: the lowest channel of the colour. It is `v`
      with no saturation, 0 with full saturation, and never above `v`. */
  function Hdp(s: nat, v: nat): (d: nat)
    requires s <= MaxRgb
    ensures d <= v
    ensures s == 0 ==> d == v
    ensures s == MaxRgb ==> d == 0
  {
    ScaleLe(v, MaxRgb - s, MaxRgb);
    ScaleFull(v);
    v * (MaxRgb - s) / MaxRgb
  }

  /** The falling ramp `dec`: starts at `v` and ends at `hdp` across a region,
      and stays between the two. */
  function Dec(s: nat, v: nat, rem: nat): (d: nat)
    requires s <= MaxRgb && rem < HueRegion
    ensures Hdp(s, v) <= d <= v
  {
    RampShareBound(s, rem);
    ScaleLe(v, MaxRgb - s, MaxRgb - (s * rem) / (HueRegion - 1));
    ScaleLe(v, MaxRgb - (s * rem) / (HueRegion - 1), MaxRgb);
    ScaleFull(v);
    v * (MaxRgb - (s * rem) / (HueRegion - 1)) / MaxRgb
  }

  /** The rising ramp `inc`: starts at `hdp` and ends at `v` across a region,
      and stays between the two. */
  function Inc(s: nat, v: nat, rem: nat): (d: nat)
    requires s <= MaxRgb && rem < HueRegion
    ensures Hdp(s, v) <= d <= v
  {
    var mirrored := (HueRegion - 1) - rem;
    RampShareBound(s, mirrored);
    ScaleLe(v, MaxRgb - s, MaxRgb - (s * mirrored) / (HueRegion - 1));
    ScaleLe(v, MaxRgb - (s * mirrored) / (HueRegion - 1), MaxRgb);
    ScaleFull(v);
    v * (MaxRgb - (s * ((HueRegion - 1) - rem)) / (HueRegion - 1)) / MaxRgb
  }

  /** The six-way switch on the region, without the zero-saturation shortcut.
      Every arm puts `v` on one channel and `hdp` on another. */
  function Interpolate(hsv: HsvColor): (c: RgbColor)
    requires InDomain(hsv)
    ensures Channels(c, Hdp(hsv.s, hsv.v), hsv.v)
  {
    var remainder := Remainder(hsv.h);
    var hdp := Hdp(hsv.s, hsv.v);
    var dec := Dec(hsv.s, hsv.v, remainder);
    var inc := Inc(hsv.s, hsv.v, remainder);
    match Region(hsv.h)
    case 0 => RgbColor(hsv.v, inc, hdp)
    case 1 => RgbColor(dec, hsv.v, hdp)
    case 2 => RgbColor(hdp, hsv.v, inc)
    case 3 => RgbColor(hdp, dec, hsv.v)
    case 4 => RgbColor(inc, hdp, hsv.v)
    case _ => RgbColor(hsv.v, hdp, dec)
  }

  /** `HsvToRgb`: gray when saturation is zero, the six-way switch otherwise.
      Every channel lies in `[hdp, v]`, the brightest is `v` and the dimmest
      is `hdp`. */
  function HsvToRgb(hsv: HsvColor): (c: RgbColor)
    requires InDomain(hsv)
    ensures Channels(c, Hdp(hsv.s, hsv.v), hsv.v)
  {
    if hsv.s == 0 then RgbColor(hsv.v, hsv.v, hsv.v)
    else Interpolate(hsv)
  }

  /** All channels of `c` lie in `[lo, hi]`, the largest is `hi` and the
      smallest is `lo`. */
  predicate Channels(c: RgbColor, lo: nat, hi: nat)
  {
    lo <= c.r <= hi && lo <= c.g <= hi && lo <= c.b <= hi
    && Max3(c) == hi && Min3(c) == lo
  }

  function Max3(c: RgbColor): nat
  {
    if c.r >= c.g && c.r >= c.b then c.r else if c.g >= c.b then c.g else c.b
  }

  function Min3(c: RgbColor): nat
  {
    if c.r <= c.g && c.r <= c.b then c.r else if c.g <= c.b then c.g else c.b
  }

  function Distance(x: nat, y: nat): nat
  {
    if x >= y then x - y else y - x
  }

  /** Every channel of `a` is within `k` units of the same channel of `b`. */
  predicate Near(a: RgbColor, b: RgbColor, k: nat)
  {
    Distance(a.r, b.r) <= k && Distance(a.g, b.g) <= k && Distance(a.b, b.b) <= k
  }

  // ---------------------------------------------------------------------
  // Arithmetic helpers
  // ---------------------------------------------------------------------

  lemma MulLeft(c: nat, x: nat, y: nat)
    requires x <= y
    ensures c * x <= c * y
  {
  }

  lemma DivLe(x: nat, y: nat, d: nat)
    requires x <= y && d > 0
    ensures x / d <= y / d
  {
    var qx, qy := x / d, y / d;
    assert d * qx <= x && y < d * (qy + 1);
    if qx > qy {
      MulLeft(d, qy + 1, qx);
      assert false;
    }
  }

  /** Scaling by `v / 100` is monotone. */
  lemma ScaleLe(v: nat, x: nat, y: nat)
    requires x <= y
    ensures v * x / MaxRgb <= v * y / MaxRgb
  {
    MulLeft(v, x, y);
    DivLe(v * x, v * y, MaxRgb);
  }

  /** Scaling by `v / 100` loses at most `k` units when the factor drops by `k`. */
  lemma ScaleClose(v: nat, x: nat, k: nat)
    requires v <= MaxRgb
    ensures v * (x + k) / MaxRgb <= v * x / MaxRgb + k
  {
    MulLeft(v, x + k, x + k);
    assert v * (x + k) == v * x + v * k;
    MulLeft(k, v, MaxRgb);
    assert v * k <= MaxRgb * k;
    DivLe(v * x + v * k, v * x + MaxRgb * k, MaxRgb);
    assert (v * x + MaxRgb * k) / MaxRgb == v * x / MaxRgb + k;
  }

  lemma ScaleFull(v: nat)
    ensures v * MaxRgb / MaxRgb == v
  {
  }

  /** The share `s * k / 59` taken off a ramp never exceeds `s`. */
  lemma RampShareBound(s: nat, k: nat)
    requires k <= HueRegion - 1
    ensures s * k / (HueRegion - 1) <= s
  {
    MulLeft(s, k, HueRegion - 1);
    DivLe(s * k, s * (HueRegion - 1), HueRegion - 1);
  }

  /** The share taken off a ramp grows by at most 2 per degree of hue. */
  lemma RampShareStep(s: nat, k: nat)
    requires s <= MaxRgb
    ensures s * k / (HueRegion - 1) <= s * (k + 1) / (HueRegion - 1) <= s * k / (HueRegion - 1) + 2
  {
    MulLeft(s, k, k + 1);
    DivLe(s * k, s * (k + 1), HueRegion - 1);
    assert s * (k + 1) == s * k + s;
    DivLe(s * k + s, s * k + 2 * (HueRegion - 1), HueRegion - 1);
    assert (s * k + 2 * (HueRegion - 1)) / (HueRegion - 1) == s * k / (HueRegion - 1) + 2;
  }

  // ---------------------------------------------------------------------
  // Properties of the intermediate levels
  // ---------------------------------------------------------------------

  /** The rising ramp is the falling ramp read backwards across the region. */
  lemma IncMirrorsDec(s: nat, v: nat, rem: nat)
    requires s <= MaxRgb && rem < HueRegion
    ensures Inc(s, v, rem) == Dec(s, v, (HueRegion - 1) - rem)
  {
  }

  lemma DecBounds(s: nat, v: nat, rem: nat)
    requires s <= MaxRgb && rem < HueRegion
    ensures Hdp(s, v) <= Dec(s, v, rem) <= v
  {
    RampShareBound(s, rem);
    ScaleLe(v, MaxRgb - s, MaxRgb - (s * rem) / (HueRegion - 1));
    ScaleLe(v, MaxRgb - (s * rem) / (HueRegion - 1), MaxRgb);
    ScaleFull(v);
  }

  /** `hdp <= dec <= v` and `hdp <= inc <= v`. */
  lemma LevelOrdering(s: nat, v: nat, rem: nat)
    requires s <= MaxRgb && rem < HueRegion
    ensures Hdp(s, v) <= Dec(s, v, rem) <= v
    ensures Hdp(s, v) <= Inc(s, v, rem) <= v
  {
    DecBounds(s, v, rem);
    IncMirrorsDec(s, v, rem);
    DecBounds(s, v, (HueRegion - 1) - rem);
  }

  lemma DecMonotone(s: nat, v: nat, rem1: nat, rem2: nat)
    requires s <= MaxRgb && rem1 <= rem2 < HueRegion
    ensures Dec(s, v, rem2) <= Dec(s, v, rem1)
  {
    MulLeft(s, rem1, rem2);
    DivLe(s * rem1, s * rem2, HueRegion - 1);
    RampShareBound(s, rem2);
    ScaleLe(v, MaxRgb - (s * rem2) / (HueRegion - 1), MaxRgb - (s * rem1) / (HueRegion - 1));
  }

  /** Inside a region the falling ramp never rises and the rising ramp never falls. */
  lemma RampMonotone(s: nat, v: nat, rem1: nat, rem2: nat)
    requires s <= MaxRgb && rem1 <= rem2 < HueRegion
    ensures Dec(s, v, rem2) <= Dec(s, v, rem1)
    ensures Inc(s, v, rem1) <= Inc(s, v, rem2)
  {
    DecMonotone(s, v, rem1, rem2);
    IncMirrorsDec(s, v, rem1);
    IncMirrorsDec(s, v, rem2);
    DecMonotone(s, v, (HueRegion - 1) - rem2, (HueRegion - 1) - rem1);
  }

  /** At the start of a region `dec == v` and `inc == hdp`; at its last degree
      `dec == hdp` and `inc == v`. */
  lemma RampEndpoints(s: nat, v: nat)
    requires s <= MaxRgb
    ensures Dec(s, v, 0) == v && Inc(s, v, 0) == Hdp(s, v)
    ensures Dec(s, v, HueRegion - 1) == Hdp(s, v) && Inc(s, v, HueRegion - 1) == v
  {
    ScaleFull(v);
    assert s * (HueRegion - 1) / (HueRegion - 1) == s;
  }

  /** One degree of hue moves either ramp by at most 2 units. */
  lemma RampStep(s: nat, v: nat, rem: nat)
    requires s <= MaxRgb && v <= MaxRgb && rem + 1 < HueRegion
    ensures Distance(Dec(s, v, rem), Dec(s, v, rem + 1)) <= 2
    ensures Distance(Inc(s, v, rem), Inc(s, v, rem + 1)) <= 2
  {
    RampMonotone(s, v, rem, rem + 1);
    RampShareStep(s, rem);
    RampShareBound(s, rem + 1);
    ScaleClose(v, MaxRgb - (s * (rem + 1)) / (HueRegion - 1), 2);
    ScaleLe(v, MaxRgb - (s * rem) / (HueRegion - 1), MaxRgb - (s * (rem + 1)) / (HueRegion - 1) + 2);
    var m := (HueRegion - 1) - (rem + 1);
    RampShareStep(s, m);
    RampShareBound(s, m + 1);
    ScaleClose(v, MaxRgb - (s * (m + 1)) / (HueRegion - 1), 2);
    ScaleLe(v, MaxRgb - (s * m) / (HueRegion - 1), MaxRgb - (s * (m + 1)) / (HueRegion - 1) + 2);
  }

  /** Every intermediate product and difference of the C code stays inside
      `uint32_t`, so unbounded arithmetic computes what the device computes. */
  lemma IntermediatesFitUint32(hsv: HsvColor)
    requires InDomain(hsv)
    ensures var rem := Remainder(hsv.h);
      hsv.v * (MaxRgb - hsv.s) < Uint32Limit
      && hsv.s * rem < Uint32Limit
      && hsv.s * ((HueRegion - 1) - rem) < Uint32Limit
      && (hsv.s * rem) / (HueRegion - 1) <= MaxRgb
      && (hsv.s * ((HueRegion - 1) - rem)) / (HueRegion - 1) <= MaxRgb
      && hsv.v * (MaxRgb - (hsv.s * rem) / (HueRegion - 1)) < Uint32Limit
      && hsv.v * (MaxRgb - (hsv.s * ((HueRegion - 1) - rem)) / (HueRegion - 1)) < Uint32Limit
  {
    var rem := Remainder(hsv.h);
    var s, v := hsv.s, hsv.v;
    MulLeft(v, MaxRgb - s, MaxRgb);
    MulLeft(MaxRgb, v, MaxRgb);
    MulLeft(s, rem, HueRegion - 1);
    MulLeft(HueRegion - 1, s, MaxRgb);
    MulLeft(s, (HueRegion - 1) - rem, HueRegion - 1);
    RampShareBound(s, rem);
    RampShareBound(s, (HueRegion - 1) - rem);
    MulLeft(v, MaxRgb - (s * rem) / (HueRegion - 1), MaxRgb);
    MulLeft(v, MaxRgb - (s * ((HueRegion - 1) - rem)) / (HueRegion - 1), MaxRgb);
  }

  // ---------------------------------------------------------------------
  // Properties of the conversion
  // ---------------------------------------------------------------------

  /** Zero saturation yields gray `(v, v, v)` for any hue. */
  lemma GrayWhenDesaturated(h: nat, v: nat)
    requires v <= MaxRgb
    ensures HsvToRgb(HsvColor(h, 0, v)) == RgbColor(v, v, v)
  {
  }

  /** The shortcut is only a shortcut: at zero saturation the general formula
      also gives `hdp == dec == inc == v`, hence gray. */
  lemma ShortcutAgreesWithFormula(h: nat, v: nat)
    requires v <= MaxRgb
    ensures Hdp(0, v) == v
    ensures Dec(0, v, Remainder(h)) == v && Inc(0, v, Remainder(h)) == v
    ensures Interpolate(HsvColor(h, 0, v)) == RgbColor(v, v, v)
  {
    ScaleFull(v);
  }

  /** Every channel lies between the pedestal `v * (100 - s) / 100` and `v`. */
  lemma ChannelBounds(hsv: HsvColor)
    requires InDomain(hsv)
    ensures var c := HsvToRgb(hsv); var lo := Hdp(hsv.s, hsv.v);
      lo <= c.r <= hsv.v && lo <= c.g <= hsv.v && lo <= c.b <= hsv.v
  {
    if hsv.s == 0 {
      ShortcutAgreesWithFormula(hsv.h, hsv.v);
    } else {
      LevelOrdering(hsv.s, hsv.v, Remainder(hsv.h));
    }
  }

  /** Hence every channel is a valid duty in `[0, 100]`. */
  lemma ChannelsAreDuties(hsv: HsvColor)
    requires InDomain(hsv)
    ensures var c := HsvToRgb(hsv);
      c.r <= hsv.v <= MaxRgb && c.g <= hsv.v && c.b <= hsv.v
  {
    ChannelBounds(hsv);
  }

  /** One channel is exactly `v`, so the brightest channel is `v`. */
  lemma MaxChannelIsValue(hsv: HsvColor)
    requires InDomain(hsv)
    ensures Max3(HsvToRgb(hsv)) == hsv.v
  {
    ChannelBounds(hsv);
  }

  /** One channel is exactly `hdp`, so the dimmest channel is `hdp`; at full
      saturation it is 0. */
  lemma MinChannelIsFloor(hsv: HsvColor)
    requires InDomain(hsv)
    ensures Min3(HsvToRgb(hsv)) == Hdp(hsv.s, hsv.v)
    ensures hsv.s == MaxRgb ==> Min3(HsvToRgb(hsv)) == 0
  {
    ChannelBounds(hsv);
    if hsv.s == 0 {
      ShortcutAgreesWithFormula(hsv.h, hsv.v);
    }
  }

  /** Leaving region `k` at its last degree and entering region `k + 1` give
      the same colour, for the five inner boundaries. */
  lemma BoundaryContinuity(k: nat, s: nat, v: nat)
    requires k < 5 && s <= MaxRgb && v <= MaxRgb
    ensures HsvToRgb(HsvColor(HueRegion * k + (HueRegion - 1), s, v))
         == HsvToRgb(HsvColor(HueRegion * (k + 1), s, v))
  {
    var last, first := HueRegion * k + (HueRegion - 1), HueRegion * (k + 1);
    assert Region(last) == k && Remainder(last) == HueRegion - 1;
    assert Region(first) == k + 1 && Remainder(first) == 0;
    RampEndpoints(s, v);
  }

  /** The last degree of the circle and degree 0 give the same colour. */
  lemma WrapContinuity(s: nat, v: nat)
    requires s <= MaxRgb && v <= MaxRgb
    ensures HsvToRgb(HsvColor(MaxHue - 1, s, v)) == HsvToRgb(HsvColor(0, s, v))
  {
    RampEndpoints(s, v);
  }

  /** Between neighbouring hues of the circle no channel moves by more than
      2 units. */
  lemma AdjacentHuesNear(h: nat, s: nat, v: nat)
    requires h + 1 < MaxHue && s <= MaxRgb && v <= MaxRgb
    ensures Near(HsvToRgb(HsvColor(h, s, v)), HsvToRgb(HsvColor(h + 1, s, v)), 2)
  {
    if s != 0 {
      if Remainder(h) == HueRegion - 1 {
        BoundaryContinuity(Region(h), s, v);
      } else {
        assert Region(h + 1) == Region(h) && Remainder(h + 1) == Remainder(h) + 1;
        RampStep(s, v, Remainder(h));
      }
    }
  }

  /** A step of 2 does happen: from hue 0 to hue 1 at full saturation and value. */
  lemma AdjacentStepOfTwo()
    ensures HsvToRgb(HsvColor(0, MaxRgb, MaxRgb)).g == 0
    ensures HsvToRgb(HsvColor(1, MaxRgb, MaxRgb)).g == 2
  {
  }

  /** Pure red, green and blue. */
  lemma PrimaryColors()
    ensures HsvToRgb(HsvColor(0, 100, 100)) == RgbColor(100, 0, 0)
    ensures HsvToRgb(HsvColor(120, 100, 100)) == RgbColor(0, 100, 0)
    ensures HsvToRgb(HsvColor(240, 100, 100)) == RgbColor(0, 0, 100)
    ensures HsvToRgb(HsvColor(40, 0, 50)) == RgbColor(50, 50, 50)
  {
  }

  /** Zero value is black whatever the hue and saturation. */
  lemma BlackWhenValueZero(h: nat, s: nat)
    requires s <= MaxRgb
    ensures HsvToRgb(HsvColor(h, s, 0)) == RgbColor(0, 0, 0)
  {
    ChannelBounds(HsvColor(h, s, 0));
  }

  /** The default arm is reached exactly by the hues from 300 on, including
      hues of 360 and more, and yields `(v, hdp, dec)`. */
  lemma DefaultArm(hsv: HsvColor)
    requires InDomain(hsv) && hsv.s != 0
    ensures Region(hsv.h) >= 5 <==> hsv.h >= 5 * HueRegion
    ensures hsv.h >= 5 * HueRegion ==>
      HsvToRgb(hsv) == RgbColor(hsv.v, Hdp(hsv.s, hsv.v), Dec(hsv.s, hsv.v, Remainder(hsv.h)))
  {
  }

  /** The converter does not reduce the hue modulo 360: hue 360 is not hue 0. */
  lemma HueNotNormalised()
    ensures HsvToRgb(HsvColor(MaxHue, 100, 100)) == RgbColor(100, 0, 100)
    ensures HsvToRgb(HsvColor(MaxHue, 100, 100)) != HsvToRgb(HsvColor(0, 100, 100))
  {
  }
}

/**
 The software volume of components/esp_codec_dev/audio_codec_sw_vol.c: 16-bit samples scaled by
 a fixed-point gain that ramps towards a new value frame by frame. The gain of a decibel value
 is taken as any 16-bit number, and the ramp step as an exact quotient.
 */
module SwVol {
  import opened Arith

  const UNITY := 32768

  type Sample = x: int | -32768 <= x < 32768
  type Gain = x: int | 0 <= x < 65536

  /** The current gain, the change of it per frame, and the gain aimed at. */
  datatype Ramp = Ramp(cur: int, step: int, gain: Gain)

  /** A ramp leads towards its gain. */
  predicate Heading(r: Ramp) {
    0 <= r.cur < 65536 && (r.step > 0 ==> r.cur <= r.gain) && (r.step < 0 ==> r.cur >= r.gain)
  }

  /** The update of _sw_vol_process after a frame. */
  function Advance(r: Ramp): Ramp {
    if r.step == 0 then r
    else
      var cur := r.cur + r.step;
      if r.step > 0 then (if cur > r.gain then Ramp(r.gain, 0, r.gain) else r.(cur := cur))
      else (if cur < r.gain then Ramp(r.gain, 0, r.gain) else r.(cur := cur))
  }

  function After(r: Ramp, frames: nat): Ramp
    decreases frames
  {
    if frames == 0 then r else After(Advance(r), frames - 1)
  }

  // ---------------------------------------------------------------- the ramp in closed form

  function Abs(x: int): nat { if x < 0 then -x else x }

  function Sign(x: int): int { if x < 0 then -1 else if x == 0 then 0 else 1 }

  function Min(a: nat, b: nat): nat { if a < b then a else b }

  lemma MultipleOfNext(k: nat, step: nat)
    requires k > 0
    ensures k * step == step + (k - 1) * step
  {
  }

  /** `k` steps, one after the other. */
  function Steps(k: nat, step: nat): nat {
    if k == 0 then 0 else step + Steps(k - 1, step)
  }

  lemma {:induction false} StepsAreProduct(k: nat, step: nat)
    ensures Steps(k, step) == k * step
  {
    if k > 0 {
      StepsAreProduct(k - 1, step);
      MultipleOfNext(k, step);
    }
  }

  lemma {:induction false} NoSteps(k: nat)
    ensures Steps(k, 0) == 0
  {
    if k > 0 {
      NoSteps(k - 1);
    }
  }

  /** `cur` moved by `way` towards the aim of the ramp, and no further. */
  function Moved(r: Ramp, way: nat): int {
    if r.step > 0 then r.cur + Min(way, Abs(r.gain - r.cur))
    else if r.step < 0 then r.cur - Min(way, Abs(r.gain - r.cur))
    else r.cur
  }

  lemma {:induction false} RampMoves(r: Ramp, frames: nat)
    requires Heading(r)
    ensures After(r, frames).cur == Moved(r, Steps(frames, Abs(r.step)))
    ensures Heading(After(r, frames)) && After(r, frames).gain == r.gain
    decreases frames
  {
    if frames > 0 {
      RampMoves(Advance(r), frames - 1);
      NoSteps(frames - 1);
    }
  }

  /** After any number of frames the gain has moved that many steps towards its aim, and no
      further than to it. */
  lemma RampClosedForm(r: Ramp, frames: nat)
    requires Heading(r)
    ensures After(r, frames).cur == r.cur + Sign(r.step) * Min(frames * Abs(r.step), Abs(r.gain - r.cur))
    ensures Heading(After(r, frames)) && After(r, frames).gain == r.gain
  {
    RampMoves(r, frames);
    StepsAreProduct(frames, Abs(r.step));
  }

  /** So the gain is monotone and never overshoots. */
  lemma RampIsMonotone(r: Ramp, k: nat, l: nat)
    requires Heading(r) && k <= l
    ensures r.step >= 0 ==> r.cur <= After(r, k).cur <= After(r, l).cur
    ensures r.step > 0 ==> After(r, l).cur <= r.gain
    ensures r.step <= 0 ==> r.cur >= After(r, k).cur >= After(r, l).cur
    ensures r.step < 0 ==> After(r, l).cur >= r.gain
  {
    RampClosedForm(r, k);
    RampClosedForm(r, l);
    Monotone(k, l, Abs(r.step));
  }

  lemma {:induction false} AfterAdds(r: Ramp, k: nat, l: nat)
    ensures After(After(r, k), l) == After(r, k + l)
    decreases k
  {
    if k > 0 {
      AfterAdds(Advance(r), k - 1, l);
    }
  }

  /** A ramp at its gain stays there whatever its step. */
  lemma {:induction false} StaysAtGain(r: Ramp, frames: nat)
    requires r.cur == r.gain
    ensures After(r, frames).cur == r.gain
    decreases frames
  {
    if frames > 0 {
      if r.step > 0 {
        assert Advance(r) == Ramp(r.gain, 0, r.gain);
      } else if r.step < 0 {
        assert Advance(r) == Ramp(r.gain, 0, r.gain);
      }
      StaysAtGain(Advance(r), frames - 1);
    }
  }

  // ---------------------------------------------------------------- division

  lemma DivideAfterWhole(q: nat, k: nat, m: nat)
    requires m > 0
    ensures (q * m + k) / m == q + k / m
  {
    QuotientIs(q + k / m, k % m, m, q * m + k);
  }

  lemma QuotientIs(q: int, rest: int, m: int, n: int)
    requires m > 0 && 0 <= rest < m && n == q * m + rest
    ensures n / m == q
  {
    var d := q - n / m;
    assert d * m == n % m - rest;
    NonzeroMultipleIsFar(d, m);
  }

  function Whole(n: nat, d: nat): (q: int)
    requires d > 0
    ensures q >= 0
  {
    n / d
  }

  lemma WholeIsPositive(n: nat, d: nat)
    requires d > 0
    ensures Whole(n, d) > 0 <==> n >= d
  {
    if n < d {
      QuotientIs(0, n, d, n);
    } else {
      DivideAfterWhole(1, n - d, d);
      assert 1 * d + (n - d) == n;
    }
  }

  // ---------------------------------------------------------------- setting the volume

  /** Conversion to int cuts towards zero. */
  function Quotient(n: int, d: nat): int
    requires d > 0
  {
    if n >= 0 then Whole(n, d) else -Whole(-n, d)
  }

  /** _sw_vol_set on an open volume. */
  function SetOpen(r: Ramp, gain: Gain, duration: nat, rate: nat): Ramp
    requires duration * rate > 0
  {
    var n := (gain - r.cur) * 1000;
    Ramp(if n == 0 then gain else r.cur, Quotient(n, duration * rate), gain)
  }

  lemma QuotientHeads(n: int, d: nat)
    requires d > 0
    ensures Quotient(n, d) > 0 <==> n >= d
    ensures Quotient(n, d) < 0 <==> -n >= d
  {
    if n >= 0 {
      WholeIsPositive(n, d);
    } else {
      WholeIsPositive(-n, d);
    }
  }

  lemma StillRamp(r: Ramp, k: nat)
    requires Heading(r) && r.step == 0
    ensures After(r, k).cur == r.cur
  {
    RampClosedForm(r, k);
    assert k * Abs(r.step) == 0;
  }

  lemma MovingRampArrives(r: Ramp)
    requires Heading(r) && r.step != 0
    ensures After(r, Abs(r.gain - r.cur)).cur == r.gain
  {
    var k := Abs(r.gain - r.cur);
    RampClosedForm(r, k);
    Monotone(1, Abs(r.step), k);
    assert k * Abs(r.step) == Abs(r.step) * k >= k;
  }

  /** The step towards a new gain is at least 1, so that the ramp gets there, exactly when the
      change is at least one per frame of the transition; a smaller change never takes place. */
  lemma RampConvergesIff(r: Ramp, gain: Gain, duration: nat, rate: nat)
    requires 0 <= r.cur < 65536 && duration * rate > 0
    ensures
      var r' := SetOpen(r, gain, duration, rate);
      && Heading(r')
      && ((exists k: nat :: After(r', k).cur == gain) <==>
            r.cur == gain || Abs(gain - r.cur) * 1000 >= duration * rate)
      && (r.cur != gain && Abs(gain - r.cur) * 1000 < duration * rate ==>
            forall k: nat :: After(r', k).cur == r.cur)
  {
    var r' := SetOpen(r, gain, duration, rate);
    QuotientHeads((gain - r.cur) * 1000, duration * rate);
    if r.cur == gain {
      assert After(r', 0).cur == gain;
    } else if r'.step != 0 {
      MovingRampArrives(r');
      assert exists k: nat :: After(r', k).cur == gain;
    } else {
      forall k: nat ensures After(r', k).cur == r.cur {
        StillRamp(r', k);
      }
    }
  }

  lemma WholeBounds(n: nat, d: nat)
    requires d > 0
    ensures Whole(n, d) * d <= n < (Whole(n, d) + 1) * d
  {
    assert n == n / d * d + n % d;
  }

  /** `k` steps of `s`, against a way of which a thousand times is `n`, at `d` to the step. */
  lemma StepsInTime(s: nat, k: nat, way: nat, n: nat, d: nat)
    requires s >= 1 && n == way * 1000 && s * d <= n < (s + 1) * d
    ensures k * 1000 < d ==> k * s < way
    ensures k * 1000 >= 2 * d ==> k * s >= way
  {
    if k * 1000 < d {
      ScaledUp(k * 1000, d - 1, s);
      assert k * s * 1000 == k * 1000 * s;
      assert (d - 1) * s == s * d - s;
    }
    if k * 1000 >= 2 * d {
      ScaledUp(2 * d, k * 1000, s);
      ScaledUp(s + 1, 2 * s, d);
      assert k * s * 1000 == k * 1000 * s;
      assert 2 * s * d == 2 * d * s;
    }
  }

  lemma ScaledUp(a: int, b: int, s: nat)
    requires a <= b
    ensures a * s <= b * s
  {
    assert (b - a) * s >= 0 && (b - a) * s == b * s - a * s;
  }

  /** The step of a ramp is the change in a frame of the transition, cut to an integer. A ramp
      that moves at all arrives exactly when its steps reach as far as the change: not before
      the time of the transition is over, and before twice that time is. */
  lemma RampTakesItsTime(r: Ramp, gain: Gain, duration: nat, rate: nat, k: nat)
    requires 0 <= r.cur < 65536 && duration * rate > 0
    ensures
      var r' := SetOpen(r, gain, duration, rate);
      var s, change := Abs(r'.step), Abs(gain - r.cur);
      && r'.gain == gain && r'.cur == r.cur
      && (r'.step > 0 ==> gain > r.cur) && (r'.step < 0 ==> gain < r.cur)
      && s * (duration * rate) <= change * 1000 < (s + 1) * (duration * rate)
      && (r'.step != 0 ==>
            && (After(r', k).cur == gain <==> k * s >= change)
            && (k * 1000 < duration * rate ==> After(r', k).cur != gain)
            && (k * 1000 >= 2 * (duration * rate) ==> After(r', k).cur == gain))
  {
    var d, r' := duration * rate, SetOpen(r, gain, duration, rate);
    var s, change := Abs(r'.step), Abs(gain - r.cur);
    QuotientHeads((gain - r.cur) * 1000, d);
    WholeBounds(change * 1000, d);
    if s >= 1 {
      RampClosedForm(r', k);
      StepsInTime(s, k, change, change * 1000, d);
    }
  }

  // ---------------------------------------------------------------- the samples

  /** A value stored in 16 bits. */
  function Stored(x: int): Sample {
    (x + 32768) % 65536 - 32768
  }

  /** Shifting right by 15 rounds down. */
  function Scaled(x: Sample, gain: int): Sample {
    Stored(x * gain / UNITY)
  }

  lemma ProductBounds(x: int, m: int, g: int, n: int)
    requires -m <= x < m && 0 <= g <= n
    ensures -(m * n) <= x * g <= m * n
  {
    if x >= 0 {
      Monotone(x, m, g);
    } else {
      Monotone(-x, m, g);
    }
    Monotone(g, n, m);
    assert x * g == -(-x * g);
  }

  /** The product of a sample and any 16-bit gain fits 32 bits, and for gains up to unity the
      scaled sample fits 16. */
  lemma ScalingFits(x: Sample, gain: Gain)
    ensures -0x8000_0000 <= x * gain < 0x8000_0000
    ensures gain <= UNITY ==> Scaled(x, gain) == x * gain / UNITY
    ensures Scaled(x, 0) == 0 && Scaled(x, UNITY) == x
  {
    ProductBounds(x, UNITY, gain, 65535);
    if gain <= UNITY {
      ProductBounds(x, UNITY, gain, UNITY);
      if x >= 0 {
        Monotone(gain, UNITY, x);
      }
    }
  }

  /** The samples of whole frames under a ramp, each frame with the gain it finds. */
  function Rendered(r: Ramp, s: seq<Sample>, channels: nat): seq<Sample>
    requires channels > 0
  {
    seq(|s|, i requires 0 <= i < |s| => Heard(r, s[i], i, channels))
  }

  /** A sample at index `i`. */
  function Heard(r: Ramp, x: Sample, i: nat, channels: nat): Sample
    requires channels > 0
  {
    Scaled(x, After(r, i / channels).cur)
  }

  /** The ramp that _sw_vol_process leaves: at the gain it skips the updates. */
  function Processed(r: Ramp, frames: nat): Ramp {
    if r.cur == r.gain then r else After(r, frames)
  }

  lemma {:induction false} SameCur(r: Ramp, frames: nat, k: nat)
    requires Heading(r)
    ensures After(Processed(r, frames), k).cur == After(r, frames + k).cur
  {
    AfterAdds(r, frames, k);
    if r.cur == r.gain {
      StaysAtGain(r, k);
      StaysAtGain(r, frames + k);
    }
  }

  lemma SplitKeepsRamp(r: Ramp, frames: nat, k: nat)
    requires Heading(r)
    ensures Processed(Processed(r, frames), k).cur == Processed(r, frames + k).cur
  {
    var r1 := Processed(r, frames);
    SameCur(r, frames, k);
    if r.cur == r.gain {
      StaysAtGain(r, frames + k);
    } else if r1.cur == r1.gain {
      StaysAtGain(r1, k);
    }
  }

  /** How whole frames are split into buffers does not show in the output. */
  lemma SplitsDoNotShow(r: Ramp, a: seq<Sample>, b: seq<Sample>, channels: nat, frames: nat)
    requires Heading(r) && channels > 0 && |a| == frames * channels
    ensures
      var r1 := Processed(r, frames);
      && Rendered(r, a + b, channels) == Rendered(r, a, channels) + Rendered(r1, b, channels)
      && forall k: nat :: Processed(r1, k).cur == Processed(r, frames + k).cur
  {
    var r1 := Processed(r, frames);
    forall i | 0 <= i < |b|
      ensures Heard(r, b[i], |a| + i, channels) == Heard(r1, b[i], i, channels)
    {
      DivideAfterWhole(frames, i, channels);
      SameCur(r, frames, i / channels);
    }
    forall k: nat ensures Processed(r1, k).cur == Processed(r, frames + k).cur {
      SplitKeepsRamp(r, frames, k);
    }
  }

  /** At the gain, one multiplication for all samples will do, and silence at gain 0. */
  lemma FastPathsAgree(r: Ramp, s: seq<Sample>, channels: nat)
    requires r.cur == r.gain && channels > 0
    ensures Rendered(r, s, channels) == seq(|s|, i requires 0 <= i < |s| => Scaled(s[i], r.gain))
    ensures r.gain == 0 ==> Rendered(r, s, channels) == seq(|s|, i => 0)
  {
    forall i | 0 <= i < |s| ensures After(r, i / channels).cur == r.gain && Scaled(s[i], 0) == 0 {
      StaysAtGain(r, i / channels);
      ScalingFits(s[i], 0);
    }
  }

  lemma InFrame(frames: nat, channels: nat, i: nat)
    requires channels > 0 && frames * channels <= i < frames * channels + channels
    ensures i / channels == frames
  {
    DivideAfterWhole(frames, i - frames * channels, channels);
  }

  /** The samples up to `p` are rendered, and the rest is as it was. */
  ghost predicate Done(data: seq<Sample>, was: seq<Sample>, r: Ramp, channels: nat, p: nat)
    requires channels > 0
  {
    && p <= |was| == |data|
    && (forall i :: 0 <= i < p ==> data[i] == Heard(r, was[i], i, channels))
    && (forall i :: p <= i < |was| ==> data[i] == was[i])
  }

  /** What is done is rendered. */
  lemma DoneIsRendered(data: seq<Sample>, was: seq<Sample>, r: Ramp, channels: nat, p: nat)
    requires channels > 0 && Done(data, was, r, channels, p)
    ensures data[..p] == Rendered(r, was[..p], channels) && data[p..] == was[p..]
  {
  }

  /** How many samples are in whole frames. */
  function InFrames(n: nat, channels: nat): (w: nat)
    requires channels > 0
    ensures w <= n
  {
    n / channels * channels
  }

  // ---------------------------------------------------------------- the volume object

  /** audio_vol_t; the stream has 16-bit samples, the only width that opens. */
  class Volume {
    var isOpen: bool
    var channels: nat
    var rate: nat
    var duration: nat
    var cur: int
    var step: int
    var gain: Gain

    ghost predicate Valid()
      reads this
    {
      Heading(AsRamp())
    }

    function AsRamp(): Ramp
      reads this
    {
      Ramp(cur, step, gain)
    }

    constructor ()
      ensures Valid() && !isOpen && AsRamp() == Ramp(0, 0, 0)
    {
      isOpen, channels, rate, duration, cur, step, gain := false, 0, 0, 0, 0, 0, 0;
    }

    /** _sw_vol_open */
    method Open(bits: nat, channels: nat, rate: nat, duration: nat) returns (ok: bool)
      requires Valid()
      modifies this
      ensures Valid() && AsRamp() == old(AsRamp()) && (ok <==> bits == 16)
      ensures if ok then isOpen && this.channels == channels && this.rate == rate && this.duration == duration
              else isOpen == old(isOpen)
    {
      if bits != 16 {
        return false;
      }
      this.channels, this.rate, this.duration, isOpen := channels, rate, duration, true;
      ok := true;
    }

    /** _sw_vol_close */
    method Close()
      requires Valid()
      modifies this`isOpen
      ensures Valid() && !isOpen
    {
      isOpen := false;
    }

    /** _sw_vol_set with the gain of the decibel value; an open handle divides by the product. */
    method SetGain(g: Gain)
      requires Valid() && (isOpen ==> duration * rate > 0)
      modifies this`gain, this`step, this`cur
      ensures Valid()
      ensures AsRamp() == if isOpen then SetOpen(old(AsRamp()), g, duration, rate) else Ramp(g, 0, g)
    {
      gain := g;
      if isOpen {
        var n := (gain - cur) * 1000;
        QuotientHeads(n, duration * rate);
        step := Quotient(n, duration * rate);
        if n == 0 {
          cur := gain;
        }
      } else {
        step := 0;
        cur := gain;
      }
    }

    /** The update of _sw_vol_process after a frame. */
    method Update()
      requires Valid()
      modifies this`cur, this`step
      ensures Valid() && AsRamp() == Advance(old(AsRamp()))
    {
      if step != 0 {
        cur := cur + step;
        if step > 0 {
          if cur > gain {
            cur, step := gain, 0;
          }
        } else if cur < gain {
          cur, step := gain, 0;
        }
      }
    }

    /** Scales the frame `f`, all of whose samples are heard with the current gain. */
    method ScaleFrame(data: array<Sample>, f: nat, ghost r: Ramp, ghost was: seq<Sample>)
      requires channels > 0 && f * channels + channels <= data.Length && After(r, f).cur == cur
      requires Done(data[..], was, r, channels, f * channels)
      modifies data
      ensures Done(data[..], was, r, channels, f * channels + channels)
    {
      var p := f * channels;
      for j := 0 to channels
        invariant Done(data[..], was, r, channels, p + j)
      {
        InFrame(f, channels, p + j);
        data[p + j] := Scaled(data[p + j], cur);
      }
    }

    /** The loop of _sw_vol_process, with the gain moving or not. */
    method ScaleFrames(data: array<Sample>, moving: bool)
      requires Valid() && channels > 0 && (moving || cur == gain)
      modifies this`cur, this`step, data
      ensures Valid() && AsRamp() == if moving then After(old(AsRamp()), data.Length / channels) else old(AsRamp())
      ensures Done(data[..], old(data[..]), old(AsRamp()), channels, InFrames(data.Length, channels))
    {
      ghost var was, r := data[..], AsRamp();
      var i := 0;
      while i < data.Length / channels
        invariant 0 <= i <= data.Length / channels
        invariant Valid() && AsRamp() == if moving then After(r, i) else r
        invariant Done(data[..], was, r, channels, i * channels)
      {
        FrameInside(data.Length, channels, i);
        ScaleNext(data, i, moving, r, was);
        i := i + 1;
      }
    }

    /** One frame, and the update that follows it where the gain moves. */
    method ScaleNext(data: array<Sample>, f: nat, moving: bool, ghost r: Ramp, ghost was: seq<Sample>)
      requires Valid() && channels > 0 && f * channels + channels <= data.Length
      requires if moving then AsRamp() == After(r, f) else AsRamp() == r && cur == gain
      requires Done(data[..], was, r, channels, f * channels)
      modifies this`cur, this`step, data
      ensures Valid() && if moving then AsRamp() == After(r, f + 1) else AsRamp() == r
      ensures Done(data[..], was, r, channels, f * channels + channels)
    {
      if !moving {
        StaysAtGain(r, f);
      }
      ScaleFrame(data, f, r, was);
      if moving {
        AfterAdds(r, f, 1);
        Update();
      }
    }

    /** _sw_vol_process in place: the frames come out as the ramp renders them, and the ramp is
        where they leave it. Samples of a last incomplete frame stay, except in silence. */
    method Process(data: array<Sample>) returns (ok: bool)
      requires Valid() && (isOpen ==> channels > 0)
      modifies this`cur, this`step, data
      ensures Valid() && ok == isOpen
      ensures !ok ==> AsRamp() == old(AsRamp()) && data[..] == old(data[..])
      ensures ok ==>
        var w := InFrames(data.Length, channels);
        var silent := old(cur) == 0 == gain;
        && AsRamp() == Processed(old(AsRamp()), data.Length / channels)
        && data[..w] == Rendered(old(AsRamp()), old(data[..w]), channels)
        && data[w..] == if silent then seq(data.Length - w, i => 0) else old(data[w..])
    {
      if !isOpen {
        return false;
      }
      if cur == gain && gain == 0 {
        FastPathsAgree(AsRamp(), data[..InFrames(data.Length, channels)], channels);
        forall i | 0 <= i < data.Length {
          data[i] := 0;
        }
        return true;
      }
      ScaleFrames(data, cur != gain);
      DoneIsRendered(data[..], old(data[..]), old(AsRamp()), channels, InFrames(data.Length, channels));
      assert old(data[..])[..InFrames(data.Length, channels)] == old(data[..InFrames(data.Length, channels)]);
      ok := true;
    }
  }

  lemma FrameInside(n: nat, channels: nat, i: nat)
    requires channels > 0 && i < n / channels
    ensures i * channels + channels == (i + 1) * channels <= n
  {
    Monotone(i + 1, n / channels, channels);
  }
}

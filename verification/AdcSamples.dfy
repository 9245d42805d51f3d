/**
 What _adc_data_read delivers: which of the driver's samples, and as which PCM values.
 */
module AdcSamples {
  import opened Arith
  import opened AdcFormat

  /** One conversion result of the driver, parsed. */
  datatype Sample = Sample(unit: nat, channel: nat, raw: nat, valid: bool)

  function ValidOf(s: seq<Sample>): (r: seq<Sample>)
    ensures |r| <= |s|
  {
    if s == [] then []
    else
      var r := ValidOf(s[..|s| - 1]);
      if s[|s| - 1].valid then r + [s[|s| - 1]] else r
  }

  /** adc_get_sample_bits_by_unit_channel: the active width, else the configured one. */
  function SampleBits(a: Adc, unit: nat, channel: nat): nat {
    var key := (unit, channel);
    var baseBits := BitsOf(a.soc, a.base);
    if key in a.bits then a.bits[key]
    else if key in baseBits then baseBits[key]
    else a.soc.maxBits
  }

  /** A sample of an active channel is read with the width that its pattern has, or the chip's
      if the pattern leaves it open. */
  lemma ActiveWidthIsRead(a: Adc, k: nat)
    requires Inv(a) && k < |a.active|
    requires
      var ps := a.drv.accepted.patterns;
      && ps[k].unit < |a.soc.channels| && ps[k].channel < a.soc.channels[ps[k].unit]
      && forall j :: 0 <= j < k ==> ps[j].unit != ps[k].unit || ps[j].channel != ps[k].channel
    ensures
      var p := a.drv.accepted.patterns[k];
      SampleBits(a, p.unit, p.channel) == if p.bitWidth == 0 then a.soc.maxBits else p.bitWidth
  {
    FirstWidthIsRead(a.soc, a.drv.accepted.patterns, k);
  }

  predicate Convertible(bits: nat, outBits: nat) {
    0 < bits <= outBits && bits <= 31
  }

  /** The channels that are configured but not active are read with their configured width, and
      any others with the chip's; samples of 1 to 16 bits can be delivered as 16, and of 1 to 31
      as 32. */
  lemma OtherWidthsAreRead(a: Adc, unit: nat, channel: nat)
    requires Inv(a) && forall p :: p in a.drv.accepted.patterns ==> p.unit != unit || p.channel != channel
    ensures (forall p :: p in a.base ==> p.unit != unit || p.channel != channel) ==>
              SampleBits(a, unit, channel) == a.soc.maxBits
    ensures forall k :: FirstOf(a.soc, a.base, k, unit, channel) ==>
      SampleBits(a, unit, channel) == if a.base[k].bitWidth == 0 then a.soc.maxBits else a.base[k].bitWidth
  {
    NoEarlierWidth(a.soc, a.drv.accepted.patterns, (unit, channel));
    if forall p :: p in a.base ==> p.unit != unit || p.channel != channel {
      NoEarlierWidth(a.soc, a.base, (unit, channel));
    }
    forall k | FirstOf(a.soc, a.base, k, unit, channel)
      ensures SampleBits(a, unit, channel) == if a.base[k].bitWidth == 0 then a.soc.maxBits else a.base[k].bitWidth
    {
      FirstWidthIsRead(a.soc, a.base, k);
    }
  }

  /** Pattern `k` is the first of a unit and channel that the chip has. */
  predicate FirstOf(soc: Soc, ps: seq<Pattern>, k: int, unit: nat, channel: nat) {
    && 0 <= k < |ps| && ps[k].unit == unit && ps[k].channel == channel
    && unit < |soc.channels| && channel < soc.channels[unit]
    && forall j :: 0 <= j < k ==> ps[j].unit != unit || ps[j].channel != channel
  }

  lemma WidthsThatFit(a: Adc, bits: nat)
    requires Inv(a)
    ensures Convertible(bits, a.outBits) <==> 1 <= bits <= if a.outBits == 16 then 16 else 31
  {
  }

  /** A raw code of `bits` bits, centred and scaled to `outBits`: adc_centered_to_pcm. */
  function Pcm(raw: nat, bits: nat, outBits: nat): int
    requires Convertible(bits, outBits)
  {
    (raw % Pow2(bits) - Pow2(bits - 1)) * Pow2(outBits - bits)
  }

  predicate Deliverable(a: Adc, s: seq<Sample>) {
    forall i :: 0 <= i < |s| ==> Convertible(SampleBits(a, s[i].unit, s[i].channel), a.outBits)
  }

  function PcmOf(a: Adc, s: seq<Sample>): (r: seq<int>)
    requires Deliverable(a, s)
    ensures |r| == |s|
  {
    seq(|s|, i requires 0 <= i < |s| => Pcm(s[i].raw, SampleBits(a, s[i].unit, s[i].channel), a.outBits))
  }

  /** The value fits the output width, and the raw code can be read back from it. */
  lemma PcmInRangeAndInvertible(raw: nat, bits: nat, outBits: nat)
    requires Convertible(bits, outBits)
    ensures
      var p := Pcm(raw, bits, outBits);
      && 0 <= p + Pow2(outBits - 1) < Pow2(outBits)
      && p % Pow2(outBits - bits) == 0
      && p / Pow2(outBits - bits) + Pow2(bits - 1) == raw % Pow2(bits)
  {
    var scale, half := Pow2(outBits - bits), Pow2(bits - 1);
    var centred := raw % Pow2(bits) - half;
    Pow2Adds(bits - 1, outBits - bits);
    ScaleBounds(centred, half, scale);
  }

  lemma ScaleBounds(c: int, half: nat, scale: nat)
    requires scale > 0 && 0 <= c + half < 2 * half
    ensures 0 <= c * scale + half * scale < 2 * (half * scale)
    ensures (c * scale) % scale == 0 && c * scale / scale == c
  {
    assert (c + half) * scale == c * scale + half * scale;
    Positive(c + half, scale);
    assert (half - c) * scale == half * scale - c * scale;
    Positive(half - c - 1, scale);
    assert (half - c) * scale == (half - c - 1) * scale + scale;
    ProductDivides(c, scale);
  }

  lemma Positive(a: nat, b: nat)
    ensures a * b >= 0
  {
  }

  /** Distinct codes of one width give distinct values: no sample is confused with another. */
  lemma PcmInjective(r1: nat, r2: nat, bits: nat, outBits: nat)
    requires Convertible(bits, outBits) && Pcm(r1, bits, outBits) == Pcm(r2, bits, outBits)
    ensures r1 % Pow2(bits) == r2 % Pow2(bits)
  {
    PcmInRangeAndInvertible(r1, bits, outBits);
    PcmInRangeAndInvertible(r2, bits, outBits);
  }

  lemma {:induction false} ValidOfConcat(s: seq<Sample>, t: seq<Sample>)
    ensures ValidOf(s + t) == ValidOf(s) + ValidOf(t)
  {
    if t == [] {
      assert s + t == s;
    } else {
      var last := |t| - 1;
      assert (s + t)[..|s + t| - 1] == s + t[..last];
      ValidOfConcat(s, t[..last]);
    }
  }

  // ---------------------------------------------------------------- the reads of one call

  /** What the next driver reads return: a failure, or up to `n` whole result records and
      possibly some bytes of another one. */
  datatype ReadOutcome = ReadFailed | Records(n: nat, torn: bool)

  function Least(x: nat, y: nat): nat { if x < y then x else y }

  /** How many samples a driver read of at most `request` gives. */
  function Given(script: seq<ReadOutcome>, stream: seq<Sample>, request: nat): nat {
    if script == [] || script[0].ReadFailed? then 0 else Least(script[0].n, Least(request, |stream|))
  }

  /** A read succeeds with whole records, at least one of them valid, and all valid ones can be
      converted. */
  predicate GoodRead(a: Adc, script: seq<ReadOutcome>, stream: seq<Sample>, request: nat) {
    var valid := ValidOf(stream[..Given(script, stream, request)]);
    script != [] && script[0].Records? && !script[0].torn && valid != [] && Deliverable(a, valid)
  }

  /** Every read of a call that wants `target` samples is good, with a buffer for `room`. */
  predicate ReadsWell(a: Adc, room: nat, script: seq<ReadOutcome>, stream: seq<Sample>, target: nat)
    decreases |script|
  {
    target == 0 ||
    var request := Least(room, target);
    && GoodRead(a, script, stream, request)
    && var got := Given(script, stream, request);
       ReadsWell(a, room, script[1..], stream[got..], target - Least(target, |ValidOf(stream[..got])|))
  }

  /** What makes a call for `target` samples succeed. */
  predicate CallSucceeds(a: Adc, room: nat, script: seq<ReadOutcome>, stream: seq<Sample>, target: nat) {
    ReadsWell(a, room, script, stream, target)
  }

  /** One read, after which the call still wants `left` samples. */
  lemma ReadsWellOnce(a: Adc, room: nat, script: seq<ReadOutcome>, stream: seq<Sample>, target: nat, good: bool,
                      rest: seq<ReadOutcome>, behind: seq<Sample>, left: int)
    requires target > 0 && good == GoodRead(a, script, stream, Least(room, target))
    requires rest == if script == [] then [] else script[1..]
    requires
      var got := Given(script, stream, Least(room, target));
      behind == stream[got..] && (good ==> left == target - |ValidOf(stream[..got])|)
    ensures good ==>
      left >= 0 && CallSucceeds(a, room, script, stream, target) == CallSucceeds(a, room, rest, behind, left)
    ensures !good ==> !CallSucceeds(a, room, script, stream, target)
  {
  }

  /** Samples of a stretch without an invalid one are all valid. */
  lemma {:induction false} AllValid(s: seq<Sample>)
    requires forall i :: 0 <= i < |s| ==> s[i].valid
    ensures ValidOf(s) == s
  {
    if s != [] {
      AllValid(s[..|s| - 1]);
      assert s == s[..|s| - 1] + [s[|s| - 1]];
    }
  }

  /** The next `target` samples are valid, and as many reads give at least one whole record. */
  predicate Plain(script: seq<ReadOutcome>, stream: seq<Sample>, target: nat) {
    && target <= |stream| && target <= |script|
    && (forall i :: 0 <= i < target ==> stream[i].valid)
    && (forall i :: 0 <= i < target ==> script[i].Records? && script[i].n > 0 && !script[i].torn)
  }

  lemma PlainRest(script: seq<ReadOutcome>, stream: seq<Sample>, got: nat, target: nat)
    requires Plain(script, stream, target) && 0 < got <= target
    ensures Plain(script[1..], stream[got..], target - got)
  {
    forall i | 0 <= i < target - got ensures stream[got..][i].valid {
      assert stream[got..][i] == stream[got + i];
    }
    forall i | 0 <= i < target - got ensures script[1..][i] == script[i + 1] {
    }
  }

  lemma PlainReadIsGood(a: Adc, script: seq<ReadOutcome>, stream: seq<Sample>, target: nat, request: nat)
    requires Plain(script, stream, target) && 0 < request <= target && Deliverable(a, stream[..target])
    ensures
      var got := Given(script, stream, request);
      0 < got <= target && ValidOf(stream[..got]) == stream[..got] && GoodRead(a, script, stream, request)
  {
    var got := Given(script, stream, request);
    AllValid(stream[..got]);
    DeliverableParts(a, stream, got, target);
  }

  /** If the next `target` samples are valid and can be converted, and the driver gives at least
      one whole record in each of as many reads, the call succeeds. */
  lemma {:induction false} GoodStreamReadsWell(a: Adc, room: nat, script: seq<ReadOutcome>, stream: seq<Sample>,
                                               target: nat)
    requires room > 0 && Plain(script, stream, target) && Deliverable(a, stream[..target])
    ensures CallSucceeds(a, room, script, stream, target)
    decreases target
  {
    if target > 0 {
      var got := Given(script, stream, Least(room, target));
      PlainReadIsGood(a, script, stream, target, Least(room, target));
      PlainRest(script, stream, got, target);
      DeliverableParts(a, stream, got, target);
      GoodStreamReadsWell(a, room, script[1..], stream[got..], target - got);
      ReadsWellOnce(a, room, script, stream, target, true, script[1..], stream[got..], target - got);
    }
  }

  lemma DeliverableParts(a: Adc, stream: seq<Sample>, got: nat, target: nat)
    requires got <= target <= |stream| && Deliverable(a, stream[..target])
    ensures Deliverable(a, stream[..got]) && Deliverable(a, stream[got..][..target - got])
  {
    var all, rest := stream[..target], stream[got..][..target - got];
    forall i | 0 <= i < got ensures Convertible(SampleBits(a, stream[i].unit, stream[i].channel), a.outBits) {
      assert all[i] == stream[i];
    }
    forall i | 0 <= i < |rest| ensures Convertible(SampleBits(a, rest[i].unit, rest[i].channel), a.outBits) {
      assert rest[i] == all[got + i];
    }
  }

  /** A stretch that ends valid and has as many valid samples as the stream has at its start is
      that start. */
  lemma NothingPassedOver(stream: seq<Sample>, used: nat, target: nat)
    requires target <= |stream| && used <= |stream| && forall i :: 0 <= i < target ==> stream[i].valid
    requires |ValidOf(stream[..used])| == target && (used > 0 ==> stream[used - 1].valid)
    ensures used == target
  {
    AllValid(stream[..target]);
    if used > target {
      assert stream[..used][..used - 1] == stream[..target] + stream[target..used - 1];
      ValidOfConcat(stream[..target], stream[target..used - 1]);
    }
  }

  /** The valid samples of a prefix are the first valid samples of the whole stream. */
  lemma PrefixHoldsFirstValid(stream: seq<Sample>, n: nat)
    requires n <= |stream|
    ensures
      var r := ValidOf(stream[..n]);
      |r| <= |ValidOf(stream)| && r == ValidOf(stream)[..|r|]
  {
    assert stream == stream[..n] + stream[n..];
    ValidOfConcat(stream[..n], stream[n..]);
  }
}

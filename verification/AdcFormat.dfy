/**
 Format changes of the ADC data interface
 (components/esp_codec_dev/platform/audio_codec_data_adc.c): which patterns are active, at
 which rate, and what the continuous-mode driver was told. Driver calls may fail without
 effect; `Drv.fate` holds their outcomes, an exhausted script means success.
 */
module AdcFormat {
  import opened Arith

  datatype Ret = Ok | InvalidArg | WrongState | DrvErr

  /** What the chip's headers fix. */
  datatype Soc = Soc(freqLow: nat, freqHigh: nat, pattMax: nat, maxBits: nat, resultBytes: nat, channels: seq<nat>) {
    predicate Valid() {
      1 <= freqLow && 1 <= pattMax && 9 <= maxBits <= 31 && 1 <= resultBytes
    }
  }

  datatype Pattern = Pattern(unit: nat, channel: nat, bitWidth: nat)

  datatype ConvMode = SingleUnit1 | SingleUnit2 | BothUnits

  datatype Config = Config(patterns: seq<Pattern>, freq: nat, mode: ConvMode)

  /** The driver: running or not, the last configuration it accepted, and the number of
      configurations tried while it was running. */
  datatype Drv = Drv(running: bool, accepted: Config, fate: seq<bool>, misuse: nat)

  type BitsTable = map<(nat, nat), nat>

  datatype Adc = Adc(
    soc: Soc, base: seq<Pattern>,
    active: seq<nat>, bits: BitsTable, outBits: nat, rate: nat,
    isOpen: bool, enabled: bool, drv: Drv)
  {
    /** What set_fmt promises to keep when it fails. */
    function Format(): (seq<nat>, BitsTable, nat, nat) { (active, bits, outBits, rate) }
  }

  datatype DevType = In | Out | InOut

  datatype Fmt = Fmt(bits: nat, channel: nat, mask: nat, rate: nat)

  // ---------------------------------------------------------------- the driver

  function Call(d: Drv): (Drv, bool) {
    if d.fate == [] then (d, true) else (d.(fate := d.fate[1..]), d.fate[0])
  }

  /** adc_continuous_config: refused while running. */
  function Configure(d: Drv, c: Config): (Drv, bool) {
    if d.running then (d.(misuse := d.misuse + 1), false)
    else
      var (d1, ok) := Call(d);
      (if ok then d1.(accepted := c) else d1, ok)
  }

  /** adc_continuous_start and adc_continuous_stop */
  function Switch(d: Drv, on: bool): (Drv, bool) {
    var (d1, ok) := Call(d);
    (if ok then d1.(running := on) else d1, ok)
  }

  // ---------------------------------------------------------------- patterns

  /** adc_get_effective_sample_bits: width 0 is the chip's default. */
  function EffectiveBits(soc: Soc, bitWidth: nat): nat {
    if bitWidth == 0 then soc.maxBits else bitWidth
  }

  /** adc_store_pattern_bits: the first width stored for a unit and channel stays. */
  function StoreBits(soc: Soc, table: BitsTable, p: Pattern): BitsTable {
    var key := (p.unit, p.channel);
    if p.unit < |soc.channels| && p.channel < soc.channels[p.unit] && key !in table
    then table[key := EffectiveBits(soc, p.bitWidth)] else table
  }

  function BitsOf(soc: Soc, ps: seq<Pattern>): BitsTable {
    if ps == [] then map[] else StoreBits(soc, BitsOf(soc, ps[..|ps| - 1]), ps[|ps| - 1])
  }

  predicate UsesUnit(ps: seq<Pattern>, unit: nat) {
    ps != [] && (ps[|ps| - 1].unit == unit || UsesUnit(ps[..|ps| - 1], unit))
  }

  /** adc_calc_conv_mode */
  function ModeOf(ps: seq<Pattern>): ConvMode {
    if UsesUnit(ps, 0) && UsesUnit(ps, 1) then BothUnits
    else if UsesUnit(ps, 1) then SingleUnit2 else SingleUnit1
  }

  function Select(base: seq<Pattern>, idx: seq<nat>): (r: seq<Pattern>)
    requires forall i :: i in idx ==> i < |base|
    ensures |r| == |idx| && forall k :: 0 <= k < |r| ==> idx[k] in idx && r[k] == base[idx[k]]
  {
    seq(|idx|, k requires 0 <= k < |idx| => assert idx[k] in idx; base[idx[k]])
  }

  function ConfigOf(base: seq<Pattern>, idx: seq<nat>, rate: nat): Config
    requires forall i :: i in idx ==> i < |base|
  {
    var ps := Select(base, idx);
    Config(ps, rate * |idx|, ModeOf(ps))
  }

  /** The checks adc_apply_patterns makes before it asks the driver. */
  predicate RateAllowed(soc: Soc, n: nat, rate: nat) {
    n > 0 && (soc.freqLow + n - 1) / n <= rate <= soc.freqHigh / n
  }

  /** adc_apply_patterns */
  function ApplyPatterns(a: Adc, idx: seq<nat>, rate: nat): (Adc, bool)
    requires forall i :: i in idx ==> i < |a.base|
  {
    if !RateAllowed(a.soc, |idx|, rate) then (a, false)
    else
      var (d, ok) := Configure(a.drv, ConfigOf(a.base, idx, rate));
      (if ok then a.(active := idx, bits := BitsOf(a.soc, Select(a.base, idx)), drv := d) else a.(drv := d), ok)
  }

  // ---------------------------------------------------------------- channel selection

  /** The positions of the set bits of a mask, from `i` on, below `n`. */
  function MaskBits(mask: nat, i: nat, n: nat): (r: seq<nat>)
    ensures forall k :: k in r ==> i <= k < n
    decreases n - i
  {
    if i >= n then []
    else (if mask % 2 == 1 then [i] else []) + MaskBits(mask / 2, i + 1, n)
  }

  function Upto(n: nat): (r: seq<nat>)
    ensures |r| == n && forall k :: 0 <= k < n ==> r[k] == k
  {
    seq(n, k requires 0 <= k < n => k)
  }

  datatype Selection = Selected(idx: seq<nat>) | Refused

  /** The base patterns a format selects: the first ones, or those of its mask. */
  function SelectChannels(a: Adc, f: Fmt): (r: Selection)
    ensures r.Selected? ==> |r.idx| == f.channel > 0 && forall i :: i in r.idx ==> i < |a.base|
  {
    if f.mask == 0 then
      if 0 < f.channel <= |a.base| then Selected(Upto(f.channel)) else Refused
    else if Shifted(f.mask, |a.base|) != 0 then Refused
    else
      var idx := MaskBits(f.mask, 0, |a.base|);
      if |idx| > 0 && f.channel == |idx| then Selected(idx) else Refused
  }

  function Shifted(mask: nat, n: nat): nat {
    if n == 0 then mask else Shifted(mask / 2, n - 1)
  }

  // ---------------------------------------------------------------- operations

  datatype Fallback = NotNeeded | Accepted | Failed

  /** The new configuration and the flush of the old frames; true if both succeed. */
  function TryFormat(a: Adc, idx: seq<nat>, f: Fmt): (Adc, bool)
    requires forall i :: i in idx ==> i < |a.base|
  {
    var (a1, applied) := ApplyPatterns(a, idx, f.rate);
    if !applied then (a1, false)
    else
      var (d, flushed) := Call(a1.drv);
      (a1.(outBits := f.bits, rate := f.rate, drv := d), flushed)
  }

  /** The middle of _adc_data_set_fmt: config, flush, and on failure the fallback. */
  function Reconfigure(a: Adc, idx: seq<nat>, f: Fmt): (Adc, Fallback)
    requires forall i :: i in idx ==> i < |a.base|
    requires Indexed(a)
  {
    var (a1, done) := TryFormat(a, idx, f);
    if done then (a1, NotNeeded)
    else
      var (a2, restored) := ApplyPatterns(a1, a.active, a.rate);
      if restored then (a2.(outBits := a.outBits, rate := a.rate), Accepted) else (a2, Failed)
  }

  predicate Indexed(a: Adc) {
    forall i :: i in a.active ==> i < |a.base|
  }

  /** _adc_data_set_fmt */
  function SetFmt(a: Adc, t: DevType, f: Fmt): (Adc, Ret)
    requires Indexed(a)
  {
    if !a.isOpen then (a, WrongState)
    else if t != In || (f.bits != 16 && f.bits != 32) || f.rate == 0 then (a, InvalidArg)
    else match SelectChannels(a, f)
      case Refused => (a, InvalidArg)
      case Selected(idx) =>
        var (d1, stopped) := if a.enabled then Switch(a.drv, false) else (a.drv, true);
        if !stopped then (a.(drv := d1), DrvErr)
        else
          var (a2, fallback) := Reconfigure(a.(drv := d1, enabled := false), idx, f);
          var done := fallback == NotNeeded;
          if a.enabled then
            var (d3, started) := Switch(a2.drv, true);
            (a2.(drv := d3, enabled := started), if done && started then Ok else DrvErr)
          else (a2, if done then Ok else DrvErr)
  }

  /** _adc_data_enable: the pool is flushed before a start. */
  function Enable(a: Adc, t: DevType, on: bool): (Adc, Ret) {
    if !a.isOpen then (a, WrongState)
    else if t != In then (a, InvalidArg)
    else if on == a.enabled then (a, Ok)
    else
      var (d1, flushed) := if on then Call(a.drv) else (a.drv, true);
      if !flushed then (a.(drv := d1), DrvErr)
      else
        var (d2, done) := Switch(d1, on);
        (a.(drv := d2, enabled := if done then on else a.enabled), if done then Ok else DrvErr)
  }

  /** _adc_data_close; the result of the driver's deinit is only logged. */
  function Close(a: Adc): Adc {
    var (d, stopped) := if a.enabled then Switch(a.drv, false) else (a.drv, true);
    a.(drv := d, enabled := a.enabled && !stopped, isOpen := false)
  }

  /** audio_codec_new_adc_data, from its valid base patterns on: all of them, 16-bit output. */
  function New(soc: Soc, base: seq<Pattern>, rate: nat, drv: Drv): (Adc, bool) {
    var a := Adc(soc, base, Upto(|base|), map[], 16, rate, false, false, drv);
    var (a1, ok) := ApplyPatterns(a, Upto(|base|), rate);
    (a1.(isOpen := ok), ok)
  }

  // ---------------------------------------------------------------- the invariant

  /** The recorded patterns, widths and rate are the driver's last accepted configuration,
      a legal one, and `enabled` is the truth about the driver. */
  predicate Inv(a: Adc) {
    && Indexed(a)
    && RateAllowed(a.soc, |a.active|, a.rate)
    && a.drv.accepted == ConfigOf(a.base, a.active, a.rate)
    && a.bits == BitsOf(a.soc, Select(a.base, a.active))
    && a.enabled == a.drv.running
    && (a.outBits == 16 || a.outBits == 32)
  }

  /** What the driver was told is what the format says: the base patterns of the active indices,
      in their order; in each second the rate for each of them, which is in the driver's range;
      both units exactly if patterns of both are among them, and else the second exactly if one
      of it is. */
  predicate Told(a: Adc) {
    var c := a.drv.accepted;
    && Indexed(a) && |c.patterns| == |a.active|
    && (forall k :: 0 <= k < |a.active| ==> a.active[k] in a.active && c.patterns[k] == a.base[a.active[k]])
    && c.freq == a.rate * |c.patterns| && a.soc.freqLow <= c.freq <= a.soc.freqHigh
    && (c.mode == BothUnits <==> OfUnit(c.patterns, 0) && OfUnit(c.patterns, 1))
    && (c.mode == SingleUnit2 <==> !OfUnit(c.patterns, 0) && OfUnit(c.patterns, 1))
  }

  predicate OfUnit(ps: seq<Pattern>, unit: nat) { exists p :: p in ps && p.unit == unit }

  lemma {:induction false} UsesUnitIff(ps: seq<Pattern>, unit: nat)
    ensures UsesUnit(ps, unit) <==> OfUnit(ps, unit)
  {
    if ps != [] {
      UsesUnitIff(ps[..|ps| - 1], unit);
      assert forall p :: p in ps <==> p in ps[..|ps| - 1] || p == ps[|ps| - 1];
    }
  }

  lemma RecordsAreTold(a: Adc)
    requires Inv(a)
    ensures Told(a)
  {
    var ps := Select(a.base, a.active);
    UsesUnitIff(ps, 0);
    UsesUnitIff(ps, 1);
    TotalRateInRange(a.soc, |a.active|, a.rate);
  }

  /** A pattern whose unit and channel the chip has, and no earlier one, gives the width with
      which their samples are read: its own, or the chip's if it leaves the width open. */
  lemma {:induction false} FirstWidthIsRead(soc: Soc, ps: seq<Pattern>, k: nat)
    requires k < |ps| && ps[k].unit < |soc.channels| && ps[k].channel < soc.channels[ps[k].unit]
    requires forall j :: 0 <= j < k ==> ps[j].unit != ps[k].unit || ps[j].channel != ps[k].channel
    ensures
      var key := (ps[k].unit, ps[k].channel);
      && key in BitsOf(soc, ps)
      && BitsOf(soc, ps)[key] == if ps[k].bitWidth == 0 then soc.maxBits else ps[k].bitWidth
  {
    if k == |ps| - 1 {
      NoEarlierWidth(soc, ps[..k], (ps[k].unit, ps[k].channel));
    } else {
      FirstWidthIsRead(soc, ps[..|ps| - 1], k);
    }
  }

  /** Only units and channels that the chip has are given widths. */
  lemma {:induction false} OnlyChannelsHaveWidths(soc: Soc, ps: seq<Pattern>, key: (nat, nat))
    requires key in BitsOf(soc, ps)
    ensures key.0 < |soc.channels| && key.1 < soc.channels[key.0]
  {
    var last := ps[|ps| - 1];
    if (last.unit, last.channel) != key || key in BitsOf(soc, ps[..|ps| - 1]) {
      OnlyChannelsHaveWidths(soc, ps[..|ps| - 1], key);
    }
  }

  lemma {:induction false} NoEarlierWidth(soc: Soc, ps: seq<Pattern>, key: (nat, nat))
    requires forall p :: p in ps ==> (p.unit, p.channel) != key
    ensures key !in BitsOf(soc, ps)
  {
    if ps != [] {
      assert ps[|ps| - 1] in ps;
      NoEarlierWidth(soc, ps[..|ps| - 1], key);
    }
  }

  lemma NewEstablishesInv(soc: Soc, base: seq<Pattern>, rate: nat, drv: Drv)
    requires !drv.running
    ensures
      var (a, ok) := New(soc, base, rate, drv);
      (ok ==> Inv(a) && a.isOpen) && a.drv.misuse == drv.misuse
  {
  }

  /** adc_apply_patterns records a configuration exactly when the driver accepted it. */
  lemma ApplyRecordsAccepted(a: Adc, idx: seq<nat>, rate: nat)
    requires !a.drv.running && forall i :: i in idx ==> i < |a.base|
    ensures
      var (a', ok) := ApplyPatterns(a, idx, rate);
      && a'.drv.misuse == a.drv.misuse && !a'.drv.running
      && (ok ==> RateAllowed(a.soc, |idx|, rate) &&
                 a' == a.(active := idx, bits := BitsOf(a.soc, Select(a.base, idx)), drv := a'.drv) &&
                 a'.drv.accepted == ConfigOf(a.base, idx, rate))
      && (!ok ==> a' == a.(drv := a'.drv) && a'.drv.accepted == a.drv.accepted)
  {
  }

  predicate Holds(a: Adc, idx: seq<nat>, f: Fmt) {
    a.active == idx && a.rate == f.rate && a.outBits == f.bits
  }

  predicate SameChip(a: Adc, b: Adc) {
    a.soc == b.soc && a.base == b.base && a.isOpen == b.isOpen && a.enabled == b.enabled
  }

  lemma TryFormatRecords(a: Adc, idx: seq<nat>, f: Fmt)
    requires Inv(a) && !a.drv.running && (f.bits == 16 || f.bits == 32)
    requires forall i :: i in idx ==> i < |a.base|
    ensures
      var (a', done) := TryFormat(a, idx, f);
      && Inv(a') && a'.drv.misuse == a.drv.misuse && SameChip(a, a')
      && (done ==> Holds(a', idx, f))
      && (a'.Format() == a.Format() || Holds(a', idx, f))
  {
    ApplyRecordsAccepted(a, idx, f.rate);
  }

  lemma FallbackRecords(a: Adc, was: Adc)
    requires Inv(a) && Inv(was) && !a.drv.running && SameChip(a, was)
    ensures
      var (a1, ok) := ApplyPatterns(a, was.active, was.rate);
      var a' := if ok then a1.(outBits := was.outBits, rate := was.rate) else a1;
      && Inv(a') && a'.drv.misuse == a.drv.misuse && SameChip(a, a')
      && (if ok then a'.Format() == was.Format() && a'.drv.accepted == was.drv.accepted
          else a'.Format() == a.Format())
  {
    ApplyRecordsAccepted(a, was.active, was.rate);
  }

  /** The heart of the transaction: whatever the driver does, what is recorded is what it
      accepted; and when the fallback is accepted, every part of the format is the old one. */
  lemma ReconfigureIsTransactional(a: Adc, idx: seq<nat>, f: Fmt)
    requires Inv(a) && !a.drv.running && (f.bits == 16 || f.bits == 32)
    requires forall i :: i in idx ==> i < |a.base|
    ensures
      var (a', fallback) := Reconfigure(a, idx, f);
      && Inv(a') && a'.drv.misuse == a.drv.misuse && SameChip(a, a')
      && (fallback == Accepted ==> a'.Format() == a.Format() && a'.drv.accepted == a.drv.accepted)
      && (fallback == NotNeeded ==> Holds(a', idx, f))
      && (a'.Format() == a.Format() || Holds(a', idx, f))
  {
    TryFormatRecords(a, idx, f);
    FallbackRecords(TryFormat(a, idx, f).0, a);
  }

  datatype Op = SetFmtOp(t: DevType, f: Fmt) | EnableOp(t: DevType, on: bool) | CloseOp

  function Step(a: Adc, op: Op): Adc
    requires Indexed(a)
  {
    match op
    case SetFmtOp(t, f) => SetFmt(a, t, f).0
    case EnableOp(t, on) => Enable(a, t, on).0
    case CloseOp => Close(a)
  }

  lemma SwitchKeepsInv(a: Adc, on: bool)
    requires Inv(a)
    ensures
      var (d, ok) := Switch(a.drv, on);
      && Inv(a.(drv := d, enabled := if ok then on else a.enabled)) && d.misuse == a.drv.misuse
      && d.accepted == a.drv.accepted && d.running == if ok then on else a.drv.running
  {
  }

  /** set_fmt after its argument checks: stop, reconfigure, start again. */
  lemma TransactionKeepsInv(a: Adc, idx: seq<nat>, f: Fmt)
    requires Inv(a) && a.isOpen && (f.bits == 16 || f.bits == 32) && f.rate > 0
    requires SelectChannels(a, f) == Selected(idx)
    ensures
      var (a', ret) := SetFmt(a, In, f);
      && Inv(a') && a'.drv.misuse == a.drv.misuse
      && (a'.Format() == a.Format() || Holds(a', idx, f)) && (ret == Ok ==> Holds(a', idx, f))
  {
    SwitchKeepsInv(a, false);
    var (d1, stopped) := if a.enabled then Switch(a.drv, false) else (a.drv, true);
    if stopped {
      var a1 := a.(drv := d1, enabled := false);
      ReconfigureIsTransactional(a1, idx, f);
      var (a2, fallback) := Reconfigure(a1, idx, f);
      SwitchKeepsInv(a2, true);
      var (d3, started) := Switch(a2.drv, true);
      assert SetFmt(a, In, f).0 == if a.enabled then a2.(drv := d3, enabled := started) else a2;
    }
  }

  lemma SetFmtKeepsInv(a: Adc, t: DevType, f: Fmt)
    requires Inv(a)
    ensures
      var (a', ret) := SetFmt(a, t, f);
      && Inv(a') && a'.drv.misuse == a.drv.misuse
      && (a'.Format() == a.Format() || (SelectChannels(a, f).Selected? && Holds(a', SelectChannels(a, f).idx, f)))
      && (ret == Ok ==> SelectChannels(a, f).Selected? && Holds(a', SelectChannels(a, f).idx, f))
  {
    if a.isOpen && t == In && (f.bits == 16 || f.bits == 32) && f.rate > 0 {
      if SelectChannels(a, f).Selected? {
        TransactionKeepsInv(a, SelectChannels(a, f).idx, f);
      }
    }
  }

  lemma StepKeepsInv(a: Adc, op: Op)
    requires Inv(a)
    ensures Inv(Step(a, op)) && Step(a, op).drv.misuse == a.drv.misuse
  {
    match op
    case SetFmtOp(t, f) => SetFmtKeepsInv(a, t, f);
    case EnableOp(t, on) =>
      SwitchKeepsInv(a, on);
      SwitchKeepsInv(a.(drv := Call(a.drv).0), on);
    case CloseOp => SwitchKeepsInv(a, false);
  }

  /** Every state of a run of format changes, enables, disables and a close. */
  ghost predicate Run(states: seq<Adc>, ops: seq<Op>) {
    && |states| == |ops| + 1
    && forall i :: 0 <= i < |ops| ==> Indexed(states[i]) && states[i + 1] == Step(states[i], ops[i])
  }

  /** From a successful new and under every pattern of driver failures, in every state: the
      records equal the driver's last accepted configuration, which means what `Told` says,
      `enabled` equals running, and the driver was never configured while running. */
  lemma {:induction false} RecordsFollowDriver(states: seq<Adc>, ops: seq<Op>, soc: Soc, base: seq<Pattern>,
                                             rate: nat, drv: Drv)
    requires !drv.running && New(soc, base, rate, drv).1
    requires Run(states, ops) && states[0] == New(soc, base, rate, drv).0
    ensures forall i :: 0 <= i < |states| ==> Inv(states[i]) && Told(states[i]) && states[i].drv.misuse == drv.misuse
  {
    NewEstablishesInv(soc, base, rate, drv);
    for n := 0 to |ops|
      invariant forall i :: 0 <= i <= n ==> Inv(states[i]) && states[i].drv.misuse == drv.misuse
    {
      StepKeepsInv(states[n], ops[n]);
    }
    forall i | 0 <= i < |states| ensures Told(states[i]) {
      RecordsAreTold(states[i]);
    }
  }

  // ---------------------------------------------------------------- what a format selects

  lemma {:induction false} ShiftedIsZeroIff(mask: nat, n: nat)
    ensures Shifted(mask, n) == 0 <==> mask < Pow2(n)
  {
    if n > 0 {
      ShiftedIsZeroIff(mask / 2, n - 1);
    }
  }

  lemma {:induction false} NoBitsIff(mask: nat, i: nat, n: nat)
    requires i <= n && Shifted(mask, n - i) == 0
    ensures MaskBits(mask, i, n) == [] <==> mask == 0
    decreases n - i
  {
    if i < n {
      NoBitsIff(mask / 2, i + 1, n);
    }
  }

  /** Without a mask a format selects the first base patterns, as many as it has channels; a
      mask selects those of its bits, of which it must have as many, all among the base
      patterns. Any other format is refused. */
  lemma FormatSelectsIff(a: Adc, f: Fmt)
    ensures
      var s := SelectChannels(a, f);
      && (s.Selected? <==>
            if f.mask == 0 then 0 < f.channel <= |a.base|
            else f.mask < Pow2(|a.base|) && f.channel == |MaskBits(f.mask, 0, |a.base|)|)
      && (s.Selected? ==> Rising(s.idx) && |s.idx| == f.channel)
      && (s.Selected? && f.mask == 0 ==> forall k :: k in s.idx <==> 0 <= k < f.channel)
      && (s.Selected? && f.mask != 0 ==> forall k :: k in s.idx <==> 0 <= k < |a.base| && Shifted(f.mask, k) % 2 == 1)
  {
    if f.mask == 0 {
      var first := Upto(f.channel);
      forall k ensures k in first <==> 0 <= k < f.channel {
        if 0 <= k < f.channel {
          assert first[k] == k;
        }
      }
    } else {
      ShiftedIsZeroIff(f.mask, |a.base|);
      MaskSelectsItsBits(f.mask, |a.base|);
      if f.mask < Pow2(|a.base|) {
        NoBitsIff(f.mask, 0, |a.base|);
      }
    }
  }

  /** A rate is allowed exactly when all channels together stay in the driver's range. */
  lemma RateIsAllowedIff(soc: Soc, n: nat, rate: nat)
    ensures RateAllowed(soc, n, rate) <==> n > 0 && soc.freqLow <= rate * n <= soc.freqHigh
  {
    if n > 0 {
      QuotientReachesIff(soc.freqHigh, n, rate);
      QuotientPassesIff(soc.freqLow, n, rate);
    }
  }

  lemma QuotientReachesIff(x: nat, n: nat, rate: nat)
    requires n > 0
    ensures rate <= x / n <==> rate * n <= x
  {
    QuotientBounds(x, n);
    if rate <= x / n {
      Monotone(rate, x / n, n);
    } else {
      Monotone(x / n + 1, rate, n);
    }
  }

  lemma QuotientPassesIff(x: nat, n: nat, rate: nat)
    requires n > 0
    ensures (x + n - 1) / n <= rate <==> x <= rate * n
  {
    var q := (x + n - 1) / n;
    QuotientBounds(x + n - 1, n);
    if q <= rate {
      Monotone(q, rate, n);
    } else {
      Monotone(rate + 1, q, n);
    }
  }

  // ---------------------------------------------------------------- enable and close, call by call

  /** An enable of an open interface that changes something succeeds exactly when the driver
      flushes and starts, a disable when it stops; only then does anything change. */
  lemma EnableSucceedsIff(a: Adc, t: DevType, on: bool)
    requires Inv(a)
    ensures
      var (a', ret) := Enable(a, t, on);
      var fate := a.drv.fate;
      && (ret == WrongState <==> !a.isOpen) && (ret == InvalidArg <==> a.isOpen && t != In)
      && (ret == Ok <==>
            a.isOpen && t == In && (on == a.enabled || (Succeeds(fate, 0) && (on ==> Succeeds(fate, 1)))))
      && a'.enabled == a'.drv.running == (if ret == Ok then on else a.enabled)
      && a' == a.(enabled := a'.enabled, drv := a'.drv) && a'.drv.accepted == a.drv.accepted
      && (a.isOpen && t == In && on != a.enabled && !Succeeds(fate, 0) ==> a'.drv == Call(a.drv).0)
      && (!a.isOpen || t != In || on == a.enabled ==> a' == a)
  {
    CallTakesFirst(a.drv, 0);
    CallTakesFirst(Call(a.drv).0, 0);
  }

  /** A close stops the driver unless that fails, and closes the interface anyway. */
  lemma CloseStopsUnlessFailed(a: Adc)
    requires Inv(a)
    ensures
      var a' := Close(a);
      && !a'.isOpen && a'.Format() == a.Format() && a'.drv.accepted == a.drv.accepted
      && a'.enabled == a'.drv.running == (a.enabled && !Succeeds(a.drv.fate, 0))
      && (!a.enabled ==> a'.drv == a.drv)
  {
    CallTakesFirst(a.drv, 0);
  }

  // ---------------------------------------------------------------- failed changes

  /** The outcome of the driver call after `k` others. */
  predicate Succeeds(fate: seq<bool>, k: nat) { k < |fate| ==> fate[k] }

  lemma CallTakesFirst(d: Drv, k: nat)
    ensures Call(d).1 == Succeeds(d.fate, 0) && Succeeds(Call(d).0.fate, k) == Succeeds(d.fate, k + 1)
  {
  }

  /** The format that `f` asks for. */
  function Asked(a: Adc, idx: seq<nat>, f: Fmt): (seq<nat>, BitsTable, nat, nat)
    requires forall i :: i in idx ==> i < |a.base|
  {
    (idx, BitsOf(a.soc, Select(a.base, idx)), f.bits, f.rate)
  }

  /** The driver accepts the configuration and flushes, or cannot be given the old one back. */
  predicate Accepts(soc: Soc, n: nat, f: Fmt, fate: seq<bool>) {
    RateAllowed(soc, n, f.rate) && Succeeds(fate, 0) && (Succeeds(fate, 1) || !Succeeds(fate, 2))
  }

  lemma TryFormatOutcome(a: Adc, idx: seq<nat>, f: Fmt)
    requires Inv(a) && !a.drv.running && forall i :: i in idx ==> i < |a.base|
    ensures
      var (a', done) := TryFormat(a, idx, f);
      var applied := RateAllowed(a.soc, |idx|, f.rate) && Succeeds(a.drv.fate, 0);
      && (done <==> applied && Succeeds(a.drv.fate, 1)) && SameChip(a, a') && !a'.drv.running
      && a'.Format() == (if applied then Asked(a, idx, f) else a.Format())
      && (applied ==> Succeeds(a'.drv.fate, 0) == Succeeds(a.drv.fate, 2))
  {
    CallTakesFirst(a.drv, 0);
    CallTakesFirst(a.drv, 1);
    CallTakesFirst(Call(a.drv).0, 0);
  }

  lemma ReconfigureOutcome(a: Adc, idx: seq<nat>, f: Fmt)
    requires Inv(a) && !a.drv.running && forall i :: i in idx ==> i < |a.base|
    ensures
      var (a', fallback) := Reconfigure(a, idx, f);
      && (fallback == NotNeeded <==>
            RateAllowed(a.soc, |idx|, f.rate) && Succeeds(a.drv.fate, 0) && Succeeds(a.drv.fate, 1))
      && a'.Format() == (if Accepts(a.soc, |idx|, f, a.drv.fate) then Asked(a, idx, f) else a.Format())
      && (fallback == NotNeeded ==> Succeeds(a'.drv.fate, 0) == Succeeds(a.drv.fate, 2))
  {
    TryFormatOutcome(a, idx, f);
    CallTakesFirst(TryFormat(a, idx, f).0.drv, 0);
  }

  /** A set_fmt that fails and leaves the new format: the driver accepts the configuration, and
      then the flush and the fallback fail, or the restart does. Its calls are, in this order,
      the stop if the interface is enabled, the configuration, the flush, and the fallback or
      the restart. */
  predicate NewFormatStays(a: Adc, t: DevType, f: Fmt) {
    var k := if a.enabled then 1 else 0;
    var fate := a.drv.fate;
    && a.isOpen && t == In && (f.bits == 16 || f.bits == 32) && f.rate > 0
    && SelectChannels(a, f).Selected? && RateAllowed(a.soc, f.channel, f.rate)
    && (a.enabled ==> Succeeds(fate, 0)) && Succeeds(fate, k)
    && (Succeeds(fate, k + 1) ==> a.enabled) && !Succeeds(fate, k + 2)
  }

  lemma StoppedAttempt(a: Adc, f: Fmt)
    requires Inv(a) && a.isOpen && (f.bits == 16 || f.bits == 32) && f.rate > 0
    requires SelectChannels(a, f).Selected? && (a.enabled ==> Succeeds(a.drv.fate, 0))
    ensures
      var (a', ret) := SetFmt(a, In, f);
      var k := if a.enabled then 1 else 0;
      var fate := a.drv.fate;
      var accepted := RateAllowed(a.soc, f.channel, f.rate) && Succeeds(fate, k);
      && (ret == Ok <==> accepted && Succeeds(fate, k + 1) && (a.enabled ==> Succeeds(fate, k + 2)))
      && a'.Format() == if accepted && (Succeeds(fate, k + 1) || !Succeeds(fate, k + 2))
                        then Asked(a, SelectChannels(a, f).idx, f) else a.Format()
  {
    var idx := SelectChannels(a, f).idx;
    var d1 := if a.enabled then Switch(a.drv, false).0 else a.drv;
    var a1 := a.(drv := d1, enabled := false);
    if a.enabled {
      CallTakesFirst(a.drv, 0);
      CallTakesFirst(a.drv, 1);
      CallTakesFirst(a.drv, 2);
    }
    ReconfigureOutcome(a1, idx, f);
    CallTakesFirst(Reconfigure(a1, idx, f).0.drv, 0);
  }

  /** Which call of set_fmt starts the driver again: the first after the configuration, the
      flush and the fallback, as far as these are asked for. */
  function RestartCall(a: Adc, f: Fmt): nat {
    var k := if a.enabled then 1 else 0;
    if !RateAllowed(a.soc, f.channel, f.rate) then k + 1
    else if Succeeds(a.drv.fate, k) && !Succeeds(a.drv.fate, k + 1) then k + 3
    else k + 2
  }

  lemma CallTakesOne(d: Drv, k: nat)
    requires k > 0
    ensures Succeeds(Call(d).0.fate, k - 1) == Succeeds(d.fate, k)
  {
  }

  lemma TryFormatTakes(a: Adc, idx: seq<nat>, f: Fmt, k: nat)
    requires Inv(a) && !a.drv.running && forall i :: i in idx ==> i < |a.base|
    ensures
      var fate := TryFormat(a, idx, f).0.drv.fate;
      var calls := if !RateAllowed(a.soc, |idx|, f.rate) then 0 else if Succeeds(a.drv.fate, 0) then 2 else 1;
      Succeeds(fate, k) == Succeeds(a.drv.fate, k + calls)
  {
    CallTakesFirst(a.drv, k);
    CallTakesFirst(a.drv, k + 1);
    CallTakesFirst(Call(a.drv).0, k);
  }

  lemma ReconfigureTakes(a: Adc, idx: seq<nat>, f: Fmt)
    requires Inv(a) && !a.drv.running && (f.bits == 16 || f.bits == 32) && forall i :: i in idx ==> i < |a.base|
    ensures
      var fate := a.drv.fate;
      var next := if !RateAllowed(a.soc, |idx|, f.rate) then 1
                  else if Succeeds(fate, 0) && !Succeeds(fate, 1) then 3 else 2;
      Succeeds(Reconfigure(a, idx, f).0.drv.fate, 0) == Succeeds(fate, next)
  {
    TryFormatOutcome(a, idx, f);
    TryFormatRecords(a, idx, f);
    TryFormatTakes(a, idx, f, 0);
    TryFormatTakes(a, idx, f, 1);
    CallTakesFirst(TryFormat(a, idx, f).0.drv, 0);
  }

  /** A set_fmt leaves the driver running exactly if it ran, and the stop failed or the restart
      worked, whether the format was changed or not; it asks nothing when the format is refused. */
  lemma SetFmtRestartsIff(a: Adc, t: DevType, f: Fmt)
    requires Inv(a)
    ensures
      var (a', ret) := SetFmt(a, t, f);
      var asked := a.isOpen && t == In && (f.bits == 16 || f.bits == 32) && f.rate > 0
                   && SelectChannels(a, f).Selected?;
      && (!asked ==> a' == a && ret == if a.isOpen then InvalidArg else WrongState)
      && (asked && a.enabled && !Succeeds(a.drv.fate, 0) ==> a' == a.(drv := Call(a.drv).0) && ret == DrvErr)
      && (asked ==> a'.enabled == a'.drv.running ==
                    (a.enabled && (!Succeeds(a.drv.fate, 0) || Succeeds(a.drv.fate, RestartCall(a, f)))))
  {
    if a.isOpen && t == In && (f.bits == 16 || f.bits == 32) && f.rate > 0 && SelectChannels(a, f).Selected? {
      SetFmtKeepsInv(a, t, f);
      CallTakesFirst(a.drv, 0);
      if a.enabled && Succeeds(a.drv.fate, 0) {
        StartedAgainIff(a, SelectChannels(a, f).idx, f);
      } else if !a.enabled {
        ReconfigureIsTransactional(a, SelectChannels(a, f).idx, f);
      }
    }
  }

  lemma StartedAgainIff(a: Adc, idx: seq<nat>, f: Fmt)
    requires Inv(a) && a.isOpen && (f.bits == 16 || f.bits == 32) && f.rate > 0
    requires SelectChannels(a, f) == Selected(idx) && a.enabled && Succeeds(a.drv.fate, 0)
    ensures SetFmt(a, In, f).0.enabled == Succeeds(a.drv.fate, RestartCall(a, f))
  {
    var a1 := a.(drv := Switch(a.drv, false).0, enabled := false);
    ReconfigureTakes(a1, idx, f);
    SwitchTakes(a, f);
    CallTakesFirst(a.drv, 0);
    CallTakesFirst(Reconfigure(a1, idx, f).0.drv, 0);
  }

  lemma SwitchTakes(a: Adc, f: Fmt)
    requires a.enabled
    ensures
      var fate := Switch(a.drv, false).0.fate;
      forall k :: 0 <= k < 4 ==> Succeeds(fate, k) == Succeeds(a.drv.fate, k + 1)
  {
  }

  /** A failed set_fmt keeps the whole format exactly when that is not so, or the new format is
      the old one. */
  lemma FailedSetFmtKeepsFormatIff(a: Adc, t: DevType, f: Fmt)
    requires Inv(a)
    ensures
      var (a', ret) := SetFmt(a, t, f);
      && (NewFormatStays(a, t, f) ==> ret != Ok && a'.Format() == Asked(a, SelectChannels(a, f).idx, f))
      && (ret != Ok ==>
            (a'.Format() == a.Format() <==>
             !NewFormatStays(a, t, f) || a.Format() == Asked(a, SelectChannels(a, f).idx, f)))
  {
    if a.isOpen && t == In && (f.bits == 16 || f.bits == 32) && f.rate > 0 && SelectChannels(a, f).Selected? {
      if a.enabled && !Succeeds(a.drv.fate, 0) {
        CallTakesFirst(a.drv, 0);
      } else {
        StoppedAttempt(a, f);
      }
    }
  }

  // ---------------------------------------------------------------- the driver's rate

  /** The total conversion rate stays within the driver's range, so its 32-bit product never
      wraps. */
  lemma TotalRateInRange(soc: Soc, n: nat, rate: nat)
    requires RateAllowed(soc, n, rate)
    ensures soc.freqLow <= rate * n <= soc.freqHigh
  {
    QuotientBounds(soc.freqHigh, n);
    QuotientBounds(soc.freqLow + n - 1, n);
    Monotone(rate, soc.freqHigh / n, n);
    Monotone((soc.freqLow + n - 1) / n, rate, n);
  }

  lemma QuotientBounds(x: nat, n: nat)
    requires n > 0
    ensures x - n < x / n * n <= x
  {
  }

  predicate Rising(s: seq<nat>) {
    forall j, k :: 0 <= j < k < |s| ==> s[j] < s[k]
  }

  lemma {:induction false} MaskBitsRise(mask: nat, i: nat, n: nat)
    ensures Rising(MaskBits(mask, i, n))
    decreases n - i
  {
    if i < n {
      var rest := MaskBits(mask / 2, i + 1, n);
      MaskBitsRise(mask / 2, i + 1, n);
      assert forall k :: 0 <= k < |rest| ==> rest[k] in rest;
    }
  }

  lemma {:induction false} BitIsSelectedIff(mask: nat, i: nat, n: nat, k: nat)
    requires i <= k < n
    ensures k in MaskBits(mask, i, n) <==> Shifted(mask, k - i) % 2 == 1
    decreases n - i
  {
    if k > i {
      BitIsSelectedIff(mask / 2, i + 1, n, k);
    }
  }

  /** A mask selects exactly its set bits below `n`, in strictly rising order: none is lost
      and none comes twice. */
  lemma MaskSelectsItsBits(mask: nat, n: nat)
    ensures Rising(MaskBits(mask, 0, n))
    ensures forall k :: k in MaskBits(mask, 0, n) <==> 0 <= k < n && Shifted(mask, k) % 2 == 1
  {
    MaskBitsRise(mask, 0, n);
    forall k | 0 <= k < n ensures k in MaskBits(mask, 0, n) <==> Shifted(mask, k) % 2 == 1 {
      BitIsSelectedIff(mask, 0, n, k);
    }
  }
}

/**
 The methods of audio_codec_data_adc.c on the object they change: its index buffer, its width
 table, its read buffers and the driver behind it.
 */
module AdcData {
  import opened Arith
  import opened AdcFormat
  import opened AdcSamples

  /** The unseen continuous-mode driver: `stream` holds the samples it will convert. */
  class AdcDriver {
    var state: Drv
    var stream: seq<Sample>
    var script: seq<ReadOutcome>

    constructor (state: Drv, stream: seq<Sample>, script: seq<ReadOutcome>)
      ensures this.state == state && this.stream == stream && this.script == script
    {
      this.state, this.stream, this.script := state, stream, script;
    }

    method Config(c: Config) returns (ok: bool)
      modifies this`state
      ensures (state, ok) == Configure(old(state), c)
    {
      var (d, done) := Configure(state, c);
      state, ok := d, done;
    }

    method FlushPool() returns (ok: bool)
      modifies this`state
      ensures (state, ok) == Call(old(state))
    {
      var (d, done) := Call(state);
      state, ok := d, done;
    }

    method StartStop(on: bool) returns (ok: bool)
      modifies this`state
      ensures (state, ok) == Switch(old(state), on)
    {
      var (d, done) := Switch(state, on);
      state, ok := d, done;
    }

    /** adc_continuous_read: at most `request` records, the next ones of the stream. */
    method Read(raw: array<Sample>, request: nat) returns (ok: bool, got: nat, torn: bool)
      requires request <= raw.Length
      modifies this`stream, this`script, raw
      ensures ok == (old(script) != [] && old(script)[0].Records?)
      ensures got == Given(old(script), old(stream), request) && (ok ==> torn == old(script)[0].torn)
      ensures script == if old(script) == [] then [] else old(script)[1..]
      ensures stream == old(stream)[got..] && raw[..got] == old(stream)[..got]
    {
      ok, got, torn := script != [] && script[0].Records?, 0, false;
      if ok {
        got, torn := script[0].n, script[0].torn;
      }
      if script != [] {
        script := script[1..];
      }
      if got > request {
        got := request;
      }
      if got > |stream| {
        got := |stream|;
      }
      var source := stream;
      for i := 0 to got
        invariant raw[..i] == source[..i] && stream == source
        invariant script == if old(script) == [] then [] else old(script)[1..]
      {
        raw[i] := source[i];
      }
      stream := source[got..];
    }
  }

  /** adc_data_t; `samples` and `parsed` are the raw and parsed read buffers. */
  class AdcIf {
    const soc: Soc
    const base: seq<Pattern>
    const driver: AdcDriver
    const activeIdx: array<nat>
    const samples: array<Sample>
    const parsed: array<Sample>
    var activeNum: nat
    var bits: BitsTable
    var outBits: nat
    var rate: nat
    var isOpen: bool
    var enabled: bool

    ghost predicate Valid()
      reads this, activeIdx
    {
      && soc.Valid() && |base| <= soc.pattMax == activeIdx.Length && activeNum <= soc.pattMax
      && (forall i :: 0 <= i < activeNum ==> activeIdx[i] < |base|)
      && samples.Length == parsed.Length > 0 && samples != parsed
    }

    ghost function Model(): Adc
      requires activeNum <= activeIdx.Length
      reads this, driver, activeIdx
    {
      Adc(soc, base, activeIdx[..activeNum], bits, outBits, rate, isOpen, enabled, driver.state)
    }

    /** Buffer sizing of audio_codec_new_adc_data: whole records, at least one. */
    constructor (soc: Soc, base: seq<Pattern>, rate: nat, frameBytes: nat, driver: AdcDriver)
      requires soc.Valid() && |base| <= soc.pattMax
      ensures Valid() && fresh(activeIdx) && fresh(samples) && fresh(parsed)
      ensures this.soc == soc && this.base == base && this.driver == driver
      ensures Model() == Adc(soc, base, Upto(|base|), map[], 16, rate, false, false, driver.state)
      ensures samples.Length * soc.resultBytes <= frameBytes || samples.Length == 1
    {
      this.soc, this.base, this.driver := soc, base, driver;
      activeIdx := new nat[soc.pattMax](i => i);
      activeNum := |base|;
      bits, outBits, this.rate, isOpen, enabled := map[], 16, rate, false, false;
      var bytes := if frameBytes < soc.resultBytes then soc.resultBytes else frameBytes;
      var count := bytes / soc.resultBytes;
      WholeRecords(bytes, soc.resultBytes);
      samples := new Sample[count](_ => Sample(0, 0, 0, false));
      parsed := new Sample[count](_ => Sample(0, 0, 0, false));
      new;
      assert activeIdx[..activeNum] == Upto(|base|);
    }

    /** adc_apply_patterns */
    method Apply(idx: seq<nat>, newRate: nat) returns (ok: bool)
      requires Valid() && |idx| <= soc.pattMax && forall i :: i in idx ==> i < |base|
      modifies this, activeIdx, driver`state
      ensures Valid() && (Model(), ok) == ApplyPatterns(old(Model()), idx, newRate)
    {
      if !RateAllowed(soc, |idx|, newRate) {
        return false;
      }
      var config, table := Build(idx, newRate);
      ok := driver.Config(config);
      if ok {
        Record(idx);
        bits := table;
      }
    }

    /** The hardware pattern list, its conversion mode and its width table. */
    method Build(idx: seq<nat>, newRate: nat) returns (config: Config, table: BitsTable)
      requires forall i :: i in idx ==> i < |base|
      ensures config == ConfigOf(base, idx, newRate)
      ensures table == BitsOf(soc, Select(base, idx))
    {
      ghost var chosen := Select(base, idx);
      var patterns: seq<Pattern> := [];
      table := map[];
      var has1, has2 := false, false;
      for i := 0 to |idx|
        invariant patterns == chosen[..i]
        invariant table == BitsOf(soc, chosen[..i])
        invariant has1 == UsesUnit(chosen[..i], 0) && has2 == UsesUnit(chosen[..i], 1)
      {
        assert idx[i] in idx;
        var p := base[idx[i]];
        OneMorePattern(soc, chosen, i);
        patterns := patterns + [p];
        table := StoreBits(soc, table, p);
        if p.unit == 0 {
          has1 := true;
        } else if p.unit == 1 {
          has2 := true;
        }
      }
      assert chosen[..|idx|] == chosen;
      var mode := if has1 && has2 then BothUnits else if has2 then SingleUnit2 else SingleUnit1;
      config := Config(patterns, newRate * |idx|, mode);
    }

    /** Copies the accepted selection into the index buffer. */
    method Record(idx: seq<nat>)
      requires Valid() && |idx| <= soc.pattMax && forall i :: i in idx ==> i < |base|
      modifies this`activeNum, activeIdx
      ensures Valid() && activeIdx[..activeNum] == idx
    {
      for i := 0 to |idx|
        invariant activeIdx[..i] == idx[..i]
      {
        activeIdx[i] := idx[i];
      }
      activeNum := |idx|;
      forall i | 0 <= i < activeNum ensures activeIdx[i] < |base| {
        assert activeIdx[..activeNum][i] == idx[i] && idx[i] in idx;
      }
    }

    /** The channel selection of _adc_data_set_fmt. */
    method Choose(f: Fmt) returns (s: Selection)
      requires Valid()
      ensures s == SelectChannels(Model(), f)
      ensures s.Selected? ==> |s.idx| <= soc.pattMax
    {
      var idx: seq<nat> := [];
      if f.mask == 0 {
        if f.channel == 0 || f.channel > |base| {
          return Refused;
        }
        for i := 0 to f.channel
          invariant idx == Upto(i)
        {
          idx := idx + [i];
        }
        return Selected(idx);
      }
      var rest := f.mask;
      for i := 0 to |base|
        invariant idx + MaskBits(rest, i, |base|) == MaskBits(f.mask, 0, |base|)
        invariant Shifted(rest, |base| - i) == Shifted(f.mask, |base|)
        invariant |idx| <= i
      {
        assert MaskBits(rest, i, |base|) == (if rest % 2 == 1 then [i] else []) + MaskBits(rest / 2, i + 1, |base|);
        if rest % 2 == 1 {
          idx := idx + [i];
        }
        rest := rest / 2;
      }
      if rest != 0 || |idx| == 0 || f.channel != |idx| {
        return Refused;
      }
      s := Selected(idx);
    }

    /** _adc_data_set_fmt */
    method SetFormat(t: DevType, f: Fmt) returns (ret: Ret)
      requires Valid()
      modifies this, activeIdx, driver`state
      ensures Valid() && (Model(), ret) == SetFmt(old(Model()), t, f)
      ensures old(Inv(Model())) ==> Inv(Model()) && driver.state.misuse == old(driver.state.misuse)
      ensures old(Inv(Model())) && ret == Ok ==> outBits == f.bits && rate == f.rate && activeNum == f.channel
    {
      if Inv(Model()) {
        SetFmtKeepsInv(Model(), t, f);
      }
      ret := ChangeFormat(t, f);
    }

    method ChangeFormat(t: DevType, f: Fmt) returns (ret: Ret)
      requires Valid()
      modifies this, activeIdx, driver`state
      ensures Valid() && (Model(), ret) == SetFmt(old(Model()), t, f)
    {
      if !isOpen {
        return WrongState;
      }
      if t != In || (f.bits != 16 && f.bits != 32) || f.rate == 0 {
        return InvalidArg;
      }
      var chosen := Choose(f);
      if chosen.Refused? {
        return InvalidArg;
      }
      var wasEnabled := enabled;
      if wasEnabled {
        var stopped := driver.StartStop(false);
        if !stopped {
          return DrvErr;
        }
        enabled := false;
      }
      var done := Transact(chosen.idx, f);
      if wasEnabled {
        var started := driver.StartStop(true);
        enabled := started;
        done := done && started;
      }
      ret := if done then Ok else DrvErr;
    }

    /** The middle of _adc_data_set_fmt. */
    method Transact(idx: seq<nat>, f: Fmt) returns (done: bool)
      requires Valid() && |idx| <= soc.pattMax && forall i :: i in idx ==> i < |base|
      modifies this, activeIdx, driver`state
      ensures Valid()
      ensures
        var (a, fallback) := Reconfigure(old(Model()), idx, f);
        Model() == a && done == (fallback == NotNeeded)
    {
      var oldIdx, oldOutBits, oldRate := activeIdx[..activeNum], outBits, rate;
      done := Apply(idx, f.rate);
      if done {
        outBits, rate := f.bits, f.rate;
        done := driver.FlushPool();
      }
      if !done {
        var restored := Apply(oldIdx, oldRate);
        if restored {
          outBits, rate := oldOutBits, oldRate;
        }
      }
    }

    /** _adc_data_enable */
    method EnableData(t: DevType, on: bool) returns (ret: Ret)
      requires Valid()
      modifies this`enabled, driver`state
      ensures (Model(), ret) == Enable(old(Model()), t, on)
      ensures old(Inv(Model())) ==> Inv(Model()) && driver.state.misuse == old(driver.state.misuse)
    {
      if Inv(Model()) {
        StepKeepsInv(Model(), EnableOp(t, on));
      }
      if !isOpen {
        return WrongState;
      }
      if t != In {
        return InvalidArg;
      }
      if on == enabled {
        return Ok;
      }
      if on {
        var flushed := driver.FlushPool();
        if !flushed {
          return DrvErr;
        }
      }
      var ok := driver.StartStop(on);
      if ok {
        enabled := on;
      }
      ret := if ok then Ok else DrvErr;
    }

    /** adc_parse_raw_data: refuses torn records and fills the parsed buffer. */
    method Parse(got: nat, torn: bool) returns (ok: bool)
      requires Valid() && got <= samples.Length
      modifies parsed
      ensures ok == (got > 0 && !torn)
      ensures ok ==> parsed[..got] == samples[..got]
    {
      if got == 0 || torn {
        return false;
      }
      for i := 0 to got
        invariant parsed[..i] == samples[..i]
      {
        parsed[i] := samples[i];
      }
      ok := true;
    }

    /** The inner loop of _adc_data_read: appends the values of `got` parsed samples to the
        `produced` ones. */
    method Convert(out: array<int>, produced: nat, target: nat, got: nat) returns (ok: bool, valid: nat)
      requires Valid() && (outBits == 16 || outBits == 32)
      requires got <= parsed.Length && got <= target - produced && produced <= target <= out.Length
      modifies out
      ensures Model() == old(Model())
      ensures ok == Deliverable(Model(), ValidOf(parsed[..got]))
      ensures ok ==> Converted(Model(), out[..], produced, valid, ValidOf(parsed[..got]))
      ensures ok ==> produced + valid <= target && SameOutside(old(out[..]), out[..], produced, target)
    {
      ok, valid := true, 0;
      ghost var a, all, was := Model(), parsed[..got], out[..];
      for i := 0 to got
        invariant Model() == a && parsed[..got] == all && valid <= i && ok
        invariant Converted(a, out[..], produced, valid, ValidOf(all[..i]))
        invariant SameOutside(was, out[..], produced, target)
      {
        assert parsed[i] == all[i];
        ok, valid := ConvertOne(out, produced, valid, i, all);
        if !ok {
          NotDeliverable(a, all, i);
          return;
        }
        if produced + valid >= target {
          assert i + 1 == got;
          break;
        }
      }
      assert all[..got] == all;
    }

    /** Parsed sample `i`: an invalid one is passed over. */
    method ConvertOne(out: array<int>, produced: nat, valid: nat, i: nat, ghost all: seq<Sample>)
      returns (ok: bool, next: nat)
      requires Valid() && (outBits == 16 || outBits == 32) && produced + valid < out.Length
      requires i < |all| && i < parsed.Length && parsed[i] == all[i]
      requires Converted(Model(), out[..], produced, valid, ValidOf(all[..i]))
      modifies out
      ensures Model() == old(Model()) && valid <= next <= valid + 1
      ensures SameOutside(old(out[..]), out[..], produced + valid, produced + valid + 1)
      ensures ok ==> Converted(Model(), out[..], produced, next, ValidOf(all[..i + 1]))
      ensures !ok ==> all[i].valid && !Convertible(SampleBits(Model(), all[i].unit, all[i].channel), outBits)
    {
      OneMoreValid(all, i);
      ok, next := true, valid;
      if parsed[i].valid {
        ok := Put(out, produced, valid, parsed[i], ValidOf(all[..i]));
        next := valid + 1;
      }
    }

    /** Writes the value of one valid sample behind the `valid` ones written before. */
    method Put(out: array<int>, produced: nat, valid: nat, s: Sample, ghost before: seq<Sample>) returns (ok: bool)
      requires Valid() && (outBits == 16 || outBits == 32) && produced + valid < out.Length
      requires Converted(Model(), out[..], produced, valid, before)
      modifies out
      ensures Model() == old(Model())
      ensures SameOutside(old(out[..]), out[..], produced + valid, produced + valid + 1)
      ensures ok == Convertible(SampleBits(Model(), s.unit, s.channel), outBits)
      ensures ok ==> Converted(Model(), out[..], produced, valid + 1, before + [s])
    {
      var sampleBits := WidthOf(s.unit, s.channel);
      ok := Convertible(sampleBits, outBits);
      if ok {
        OneMoreConverted(Model(), out[..], produced, before, s);
        out[produced + valid] := Pcm(s.raw, sampleBits, outBits);
        assert out[..] == old(out[..])[produced + valid := Pcm(s.raw, sampleBits, outBits)];
      }
    }

    /** adc_get_sample_bits_by_unit_channel */
    function WidthOf(unit: nat, channel: nat): (r: nat)
      requires Valid()
      reads this, activeIdx, driver
      ensures r == SampleBits(Model(), unit, channel)
    {
      var key := (unit, channel);
      var baseBits := BitsOf(soc, base);
      if key in bits then bits[key] else if key in baseBits then baseBits[key] else soc.maxBits
    }

    /** _adc_data_read into a buffer of samples; `used` is how much of the driver's stream it
        consumed. A call with sound arguments succeeds exactly when all its reads are good. */
    method ReadData(out: array<int>, size: int) returns (ret: Ret, ghost used: nat)
      requires Valid() && (outBits == 16 ==> size / 2 <= out.Length) && (outBits == 32 ==> size / 4 <= out.Length)
      modifies out, samples, parsed, driver`stream, driver`script
      ensures Model() == old(Model())
      ensures used <= |old(driver.stream)| && driver.stream == old(driver.stream)[used..]
      ensures ret == WrongState <==> !isOpen || !enabled || (outBits != 16 && outBits != 32)
      ensures ret == InvalidArg <==> ret != WrongState && (size < 0 || size % (outBits / 8) != 0)
      ensures ret != WrongState && ret != InvalidArg ==>
        var good := CallSucceeds(Model(), samples.Length, old(driver.script), old(driver.stream), size / (outBits / 8));
        ret == if good then Ok else DrvErr
      ensures ret == Ok ==>
        var n := size / (outBits / 8);
        var taken := ValidOf(old(driver.stream)[..used]);
        && |taken| == n <= out.Length && Deliverable(Model(), taken) && out[..n] == PcmOf(Model(), taken)
        && out[n..] == old(out[n..])
        && (used > 0 ==> old(driver.stream)[used - 1].valid)
    {
      used := 0;
      if !isOpen || !enabled || (outBits != 16 && outBits != 32) {
        return WrongState, used;
      }
      if size < 0 {
        return InvalidArg, used;
      }
      if size == 0 {
        return Ok, used;
      }
      var bytesPerSample := outBits / 8;
      if size % bytesPerSample != 0 {
        return InvalidArg, used;
      }
      var target := size / bytesPerSample;
      ret, used := Fill(out, target, Model());
    }

    /** The outer loop of _adc_data_read: each round yields a valid sample or fails. */
    method Fill(out: array<int>, target: nat, ghost a: Adc) returns (ret: Ret, ghost used: nat)
      requires Valid() && Model() == a && (a.outBits == 16 || a.outBits == 32) && target <= out.Length
      modifies out, samples, parsed, driver`stream, driver`script
      ensures Model() == a
      ensures used <= |old(driver.stream)| && driver.stream == old(driver.stream)[used..]
      ensures ret == Ok ==>
        && Delivered(a, old(driver.stream), used, out[..target]) && out[target..] == old(out[target..])
        && (used > 0 ==> old(driver.stream)[used - 1].valid)
      ensures
        var good := CallSucceeds(a, samples.Length, old(driver.script), old(driver.stream), target);
        ret == if good then Ok else DrvErr
    {
      ghost var stream, tail := driver.stream, out[target..];
      ghost var well := CallSucceeds(a, samples.Length, driver.script, stream, target);
      used := 0;
      var produced := 0;
      while produced < target
        invariant Model() == a && produced <= target && out[target..] == tail
        invariant Progress(a, stream, used, driver.stream, out[..produced], target)
        invariant well == CallSucceeds(a, samples.Length, driver.script, driver.stream, target - produced)
      {
        var ok;
        ok, used, produced := Continue(out, produced, target, stream, used, a);
        if !ok {
          return DrvErr, used;
        }
      }
      ret := Ok;
    }

    /** A round after `used` samples of the stream were delivered. */
    method Continue(out: array<int>, produced: nat, target: nat, ghost stream: seq<Sample>, ghost used: nat,
                    ghost a: Adc) returns (ok: bool, ghost taken: nat, next: nat)
      requires Valid() && Model() == a && (a.outBits == 16 || a.outBits == 32) && produced < target <= out.Length
      requires Progress(a, stream, used, driver.stream, out[..produced], target)
      modifies out, samples, parsed, driver`stream, driver`script
      ensures Model() == a
      ensures taken <= |stream| && driver.stream == stream[taken..]
      ensures ok ==>
        && produced < next <= target && out[target..] == old(out[target..])
        && Progress(a, stream, taken, driver.stream, out[..next], target)
      ensures
        var before := CallSucceeds(a, samples.Length, old(driver.script), old(driver.stream), target - produced);
        if ok then before == CallSucceeds(a, samples.Length, driver.script, driver.stream, target - next)
        else !before
    {
      ghost var got;
      ok, got, next := CountedRound(out, produced, target, a);
      taken := used + got;
      if ok {
        RoundContinues(a, stream, used, got, old(out[..produced]), out[..next], target);
      }
    }

    /** What a round leaves of the condition that all reads are good. */
    method CountedRound(out: array<int>, produced: nat, target: nat, ghost a: Adc)
      returns (ok: bool, ghost got: nat, next: nat)
      requires Valid() && Model() == a && (a.outBits == 16 || a.outBits == 32) && produced < target <= out.Length
      modifies out, samples, parsed, driver`stream, driver`script
      ensures Model() == a
      ensures got <= |old(driver.stream)| && driver.stream == old(driver.stream)[got..]
      ensures ok ==>
        && produced < next <= target && out[target..] == old(out[target..])
        && Appended(a, old(driver.stream)[..got], old(out[..produced]), out[..next], target)
      ensures
        var before := CallSucceeds(a, samples.Length, old(driver.script), old(driver.stream), target - produced);
        if ok then before == CallSucceeds(a, samples.Length, driver.script, driver.stream, target - next)
        else !before
    {
      ok, got, next := Round(out, produced, target, a);
      ReadsWellOnce(a, samples.Length, old(driver.script), old(driver.stream), target - produced, ok,
                    driver.script, driver.stream, target - next);
    }

    /** One round of the outer loop: `got` samples are taken from the driver, and unless it
        fails, the values of the valid ones are appended. */
    method Round(out: array<int>, produced: nat, target: nat, ghost a: Adc)
      returns (ok: bool, ghost got: nat, next: nat)
      requires Valid() && Model() == a && (a.outBits == 16 || a.outBits == 32) && produced < target <= out.Length
      modifies out, samples, parsed, driver`stream, driver`script
      ensures Model() == a
      ensures got == Given(old(driver.script), old(driver.stream), Least(samples.Length, target - produced))
      ensures got <= |old(driver.stream)| && driver.stream == old(driver.stream)[got..]
      ensures driver.script == if old(driver.script) == [] then [] else old(driver.script)[1..]
      ensures ok == GoodRead(a, old(driver.script), old(driver.stream), Least(samples.Length, target - produced))
      ensures ok ==>
        && next == produced + |ValidOf(old(driver.stream)[..got])| <= target && out[target..] == old(out[target..])
        && Appended(a, old(driver.stream)[..got], old(out[..produced]), out[..next], target)
    {
      var left := target - produced;
      var request := if left > samples.Length then samples.Length else left;
      var taken, torn;
      ok, taken, torn := driver.Read(samples, request);
      got, next := taken, produced;
      if ok {
        ok, next := Take(out, produced, target, taken, torn, a);
      }
    }

    /** What a read gave is parsed and converted; a round without a valid sample fails. */
    method Take(out: array<int>, produced: nat, target: nat, taken: nat, torn: bool, ghost a: Adc)
      returns (ok: bool, next: nat)
      requires Valid() && Model() == a && (a.outBits == 16 || a.outBits == 32) && produced < target <= out.Length
      requires taken <= samples.Length && taken <= target - produced
      modifies out, parsed
      ensures Model() == a
      ensures
        var chunk := samples[..taken];
        && ok == (!torn && ValidOf(chunk) != [] && Deliverable(a, ValidOf(chunk)))
        && (ok ==> next == produced + |ValidOf(chunk)| <= target && out[target..] == old(out[target..])
                   && Appended(a, chunk, old(out[..produced]), out[..next], target))
    {
      next := produced;
      ok := Parse(taken, torn);
      if ok {
        var valid;
        ok, valid := Convert(out, produced, target, taken);
        if ok && valid > 0 {
          ConvertedAppends(a, old(out[..]), out[..], produced, ValidOf(samples[..taken]), target);
          assert out[..][..produced + valid] == out[..produced + valid];
          assert old(out[..])[..produced] == old(out[..produced]);
        }
        ok, next := ok && valid > 0, produced + valid;
      }
    }

    /** _adc_data_close */
    method CloseData()
      requires Valid()
      modifies this`enabled, this`isOpen, driver`state
      ensures Model() == Close(old(Model()))
      ensures old(Inv(Model())) ==> Inv(Model()) && driver.state.misuse == old(driver.state.misuse)
    {
      if Inv(Model()) {
        StepKeepsInv(Model(), CloseOp);
      }
      if enabled {
        var stopped := driver.StartStop(false);
        enabled := !stopped;
      }
      isOpen := false;
    }
  }

  /** The values of `valid` samples stand in `out` behind the `produced` ones. */
  predicate Converted(a: Adc, out: seq<int>, produced: nat, valid: nat, s: seq<Sample>) {
    && produced + valid <= |out| && valid == |s| && Deliverable(a, s)
    && out[produced..produced + valid] == PcmOf(a, s)
  }

  predicate SameOutside(was: seq<int>, out: seq<int>, from: nat, to: nat) {
    |was| == |out| && forall k :: 0 <= k < |was| && !(from <= k < to) ==> out[k] == was[k]
  }

  lemma SlicesOutside(was: seq<int>, out: seq<int>, from: nat, to: nat)
    requires SameOutside(was, out, from, to) && from <= to <= |was|
    ensures out[..from] == was[..from] && out[to..] == was[to..]
  {
  }

  lemma OneMoreConverted(a: Adc, out: seq<int>, produced: nat, before: seq<Sample>, s: Sample)
    requires Converted(a, out, produced, |before|, before) && produced + |before| < |out|
    requires Convertible(SampleBits(a, s.unit, s.channel), a.outBits)
    ensures
      var next := out[produced + |before| := Pcm(s.raw, SampleBits(a, s.unit, s.channel), a.outBits)];
      Converted(a, next, produced, |before| + 1, before + [s])
  {
    var value := Pcm(s.raw, SampleBits(a, s.unit, s.channel), a.outBits);
    var next := out[produced + |before| := value];
    assert next[produced..produced + |before| + 1] == out[produced..produced + |before|] + [value];
    assert Deliverable(a, before + [s]) && PcmOf(a, before + [s]) == PcmOf(a, before) + [value];
  }

  /** One valid sample that cannot be converted spoils all. */
  lemma NotDeliverable(a: Adc, s: seq<Sample>, i: nat)
    requires i < |s| && s[i].valid && !Convertible(SampleBits(a, s[i].unit, s[i].channel), a.outBits)
    ensures !Deliverable(a, ValidOf(s))
  {
    var before := ValidOf(s[..i]);
    OneMoreValid(s, i);
    PrefixHoldsFirstValid(s, i + 1);
    assert ValidOf(s)[|before|] == s[i];
  }

  lemma OneMoreValid(s: seq<Sample>, i: nat)
    requires i < |s|
    ensures ValidOf(s[..i + 1]) == if s[i].valid then ValidOf(s[..i]) + [s[i]] else ValidOf(s[..i])
  {
    assert s[..i + 1][..i] == s[..i];
  }

  lemma OneMorePattern(soc: Soc, ps: seq<Pattern>, i: nat)
    requires i < |ps|
    ensures ps[..i + 1] == ps[..i] + [ps[i]]
    ensures BitsOf(soc, ps[..i + 1]) == StoreBits(soc, BitsOf(soc, ps[..i]), ps[i])
    ensures UsesUnit(ps[..i + 1], 0) == (ps[i].unit == 0 || UsesUnit(ps[..i], 0))
    ensures UsesUnit(ps[..i + 1], 1) == (ps[i].unit == 1 || UsesUnit(ps[..i], 1))
  {
    assert ps[..i + 1][..i] == ps[..i] && ps[..i + 1][i] == ps[i];
  }

  lemma WholeRecords(bytes: nat, record: nat)
    requires record > 0 && bytes >= record
    ensures bytes / record >= 1 && record <= bytes / record * record <= bytes
  {
    Positive(bytes / record - 1, record);
    assert (bytes / record - 1) * record == bytes / record * record - record;
  }

  /** `values` are those of the valid ones among the first `used` samples of a stream. */
  ghost predicate Delivered(a: Adc, stream: seq<Sample>, used: nat, values: seq<int>) {
    used <= |stream| && Deliverable(a, ValidOf(stream[..used])) && values == PcmOf(a, ValidOf(stream[..used]))
  }

  /** The state of a call that wants `target` values: `rest` is what it leaves of the stream. */
  ghost predicate Progress(a: Adc, stream: seq<Sample>, used: nat, rest: seq<Sample>, values: seq<int>, target: nat) {
    && used <= |stream| && rest == stream[used..] && Delivered(a, stream, used, values)
    && (|values| == target && used > 0 ==> stream[used - 1].valid)
  }

  /** The values of the valid samples of a chunk, behind those before. */
  ghost predicate Appended(a: Adc, chunk: seq<Sample>, before: seq<int>, values: seq<int>, target: nat) {
    && ValidOf(chunk) != [] && |chunk| <= target - |before| && Deliverable(a, ValidOf(chunk))
    && values == before + PcmOf(a, ValidOf(chunk))
  }

  lemma ConvertedAppends(a: Adc, was: seq<int>, out: seq<int>, produced: nat, valid: seq<Sample>, target: nat)
    requires Converted(a, out, produced, |valid|, valid) && produced + |valid| <= target <= |out|
    requires SameOutside(was, out, produced, target)
    ensures out[..produced + |valid|] == was[..produced] + PcmOf(a, valid) && out[target..] == was[target..]
  {
    SlicesOutside(was, out, produced, target);
    Glued(out, produced, produced + |valid|);
  }

  lemma Glued(out: seq<int>, from: nat, to: nat)
    requires from <= to <= |out|
    ensures out[..to] == out[..from] + out[from..to]
  {
  }

  lemma RoundContinues(a: Adc, stream: seq<Sample>, used: nat, got: nat, before: seq<int>, values: seq<int>,
                       target: nat)
    requires used + got <= |stream| && |before| <= target
    requires Progress(a, stream, used, stream[used..], before, target)
    requires Appended(a, stream[used..][..got], before, values, target)
    ensures Progress(a, stream, used + got, stream[used..][got..], values, target)
  {
    ChunkAppends(a, stream, used, got, stream[used..][..got], |values| == target);
  }

  /** A chunk extends the delivered samples by its valid ones; one that fills the request has
      only valid ones, so nothing behind the last delivered sample is dropped. */
  lemma ChunkAppends(a: Adc, stream: seq<Sample>, before: nat, got: nat, chunk: seq<Sample>, full: bool)
    requires before + got <= |stream| && chunk == stream[before..][..got]
    requires Deliverable(a, ValidOf(stream[..before])) && Deliverable(a, ValidOf(chunk))
    requires got > 0 && (full ==> |ValidOf(chunk)| >= got)
    ensures
      var all := ValidOf(stream[..before + got]);
      && all == ValidOf(stream[..before]) + ValidOf(chunk) && Deliverable(a, all)
      && PcmOf(a, all) == PcmOf(a, ValidOf(stream[..before])) + PcmOf(a, ValidOf(chunk))
    ensures full ==> stream[before + got - 1].valid
  {
    assert stream[..before + got] == stream[..before] + chunk;
    ValidOfConcat(stream[..before], chunk);
    assert chunk[got - 1] == stream[before + got - 1];
  }
}

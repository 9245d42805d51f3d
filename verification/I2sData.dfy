/**
 The methods of audio_codec_data_i2s.c on the objects they change: the nodes of one port and
 the port's driver, each call ending in the state the machine of I2sBus describes.
 */
module I2sData {
  import opened Arith
  import opened Common
  import opened I2sBus
  import I2sAgreement
  import I2sEnable
  import I2sSafety

  /** The unseen I2S driver of a port: its channels change only as its calls say. */
  class Driver {
    var hw: Hw

    constructor (hw: Hw)
      ensures this.hw == hw
    {
      this.hw := hw;
    }

    method GetInfo(has: bool, d: Dir) returns (ok: bool, running: bool)
      modifies this
      ensures hw == if has then Call(old(hw)).0 else old(hw)
      ensures ok == (has && Call(old(hw)).1)
      ensures running == hw.Of(d).running
    {
      if has {
        var (h, info) := Call(hw);
        hw, ok := h, info;
      } else {
        ok := false;
      }
      running := hw.Of(d).running;
    }

    /** i2s_channel_enable and i2s_channel_disable */
    method Switch(d: Dir, on: bool) returns (ok: bool)
      modifies this
      ensures ok == Call(old(hw)).1
      ensures hw == if ok then Call(old(hw)).0.With(d, old(hw).Of(d).(running := on)) else Call(old(hw)).0
    {
      var (h, done) := Call(hw);
      hw, ok := if done then h.With(d, h.Of(d).(running := on)) else h, done;
    }

    method ReconfigureSlot(d: Dir, slotBits: nat, slots: nat) returns (ok: bool)
      modifies this
      ensures (hw, ok) == ReconfigSlot(old(hw), d, slotBits, slots)
    {
      var (h, done) := ReconfigSlot(hw, d, slotBits, slots);
      hw, ok := h, done;
    }

    method ReconfigureClock(d: Dir, rate: nat) returns (ok: bool)
      modifies this
      ensures (hw, ok) == ReconfigClock(old(hw), d, rate)
    {
      var (h, done) := ReconfigClock(hw, d, rate);
      hw, ok := h, done;
    }

    /** _i2s_drv_enable */
    method DriveEnable(has: bool, d: Dir, on: bool) returns (ret: Ret)
      modifies this
      ensures (hw, ret) == DrvEnable(old(hw), has, d, on)
    {
      if !has {
        return NotFound;
      }
      var info, running := GetInfo(has, d);
      if !info {
        return DrvErr;
      }
      if running == on {
        return Ok;
      }
      var done := Switch(d, on);
      return if done then Ok else DrvErr;
    }

    /** set_drv_fs */
    method SetDriverFs(has: bool, d: Dir, slotBits: nat, f: Fmt) returns (ret: Ret)
      modifies this
      ensures (hw, ret) == SetDrvFs(old(hw), has, d, slotBits, f)
      ensures ret == Ok && !old(hw).Of(d).running ==>
        hw.Of(d).rate == f.rate && hw.Of(d).slots == I2sAgreement.SlotsOf(hw.Of(d).mode, f.channel)
    {
      if !hw.Of(d).running {
        I2sAgreement.SetDrvFsShapes(hw, has, d, slotBits, f);
      }
      var info, _ := GetInfo(has, d);
      if !info {
        return DrvErr;
      }
      var bits, slots := slotBits, f.channel;
      if hw.Of(d).mode == Std {
        slots := 2;
        if f.channel > 2 {
          bits := U8(slotBits * f.channel / 2);
        }
      }
      var slotOk := ReconfigureSlot(d, bits, slots);
      if !slotOk {
        return DrvErr;
      }
      var clockOk := ReconfigureClock(d, f.rate);
      return if clockOk then Ok else DrvErr;
    }
  }

  /** i2s_data_t */
  class I2sNode {
    const port: nat
    const handles: Handles
    var outEnable: bool
    var inEnable: bool
    var outPending: bool
    var inPending: bool
    var outReconfig: bool
    var inReconfig: bool
    var outFs: Fmt
    var inFs: Fmt
    var fs: Fmt

    constructor (port: nat, handles: Handles)
      ensures this.port == port && this.handles == handles
      ensures var zero := Fmt(0, 0, 0, 0);
              Val() == Node(false, false, false, false, false, false, zero, zero, zero)
    {
      this.port := port;
      this.handles := handles;
      outEnable, inEnable, outPending, inPending, outReconfig, inReconfig := false, false, false, false, false, false;
      outFs, inFs, fs := Fmt(0, 0, 0, 0), Fmt(0, 0, 0, 0), Fmt(0, 0, 0, 0);
    }

    function Val(): Node
      reads this
    {
      Node(outEnable, inEnable, outPending, inPending, outReconfig, inReconfig, outFs, inFs, fs)
    }

    method SetChannelFs(d: Dir, f: Fmt)
      modifies this
      ensures Val() == old(Val()).WithChannelFs(d, f)
    {
      if d == Tx {
        outFs := f;
      } else {
        inFs := f;
      }
    }

    method SetEnabled(d: Dir, on: bool)
      modifies this
      ensures Val() == old(Val()).WithEnabled(d, on)
    {
      if d == Tx {
        outEnable := on;
      } else {
        inEnable := on;
      }
    }

    method SetPending(d: Dir, on: bool)
      modifies this
      ensures Val() == old(Val()).WithPending(d, on)
    {
      if d == Tx {
        outPending := on;
      } else {
        inPending := on;
      }
    }
  }

  /** The nodes opened on one port, in keeper-list order, with the port's driver. `topo` and
      `vals` mirror the nodes for the specifications. */
  class I2sPort {
    const nodes: seq<I2sNode>
    const drv: Driver
    ghost const topo: seq<Handles>
    ghost var vals: seq<Node>

    ghost predicate Tied()
      reads this, nodes
    {
      && |topo| == |vals| == |nodes|
      && (forall i :: 0 <= i < |nodes| ==> vals[i] == nodes[i].Val() && topo[i] == nodes[i].handles)
      && (forall i, j :: 0 <= i < j < |nodes| ==> nodes[i] != nodes[j])
    }

    ghost function Model(): Port
      reads this, drv
    {
      Port(topo, vals, drv.hw)
    }

    ghost predicate Valid()
      reads this, drv, nodes
    {
      Tied() && Model().Valid()
    }

    constructor (nodes: seq<I2sNode>, drv: Driver)
      requires forall i, j :: 0 <= i < j < |nodes| ==> nodes[i] != nodes[j]
      ensures Tied() && this.nodes == nodes && this.drv == drv
    {
      this.nodes := nodes;
      this.drv := drv;
      topo := seq(|nodes|, i requires 0 <= i < |nodes| => nodes[i].handles);
      vals := seq(|nodes|, i requires 0 <= i < |nodes| reads nodes => nodes[i].Val());
    }

    method PutFs(i: nat, f: Fmt)
      requires Tied() && i < |nodes|
      modifies this`vals, nodes[i]
      ensures Tied() && vals == old(vals)[i := old(vals)[i].(fs := f)]
    {
      nodes[i].fs := f;
      vals := vals[i := nodes[i].Val()];
    }

    method PutChannelFs(i: nat, d: Dir, f: Fmt)
      requires Tied() && i < |nodes|
      modifies this`vals, nodes[i]
      ensures Tied() && vals == old(vals)[i := old(vals)[i].WithChannelFs(d, f)]
    {
      nodes[i].SetChannelFs(d, f);
      vals := vals[i := nodes[i].Val()];
    }

    method PutEnabled(i: nat, d: Dir, on: bool)
      requires Tied() && i < |nodes|
      modifies this`vals, nodes[i]
      ensures Tied() && vals == old(vals)[i := old(vals)[i].WithEnabled(d, on)]
    {
      nodes[i].SetEnabled(d, on);
      vals := vals[i := nodes[i].Val()];
    }

    method PutPending(i: nat, d: Dir, on: bool)
      requires Tied() && i < |nodes|
      modifies this`vals, nodes[i]
      ensures Tied() && vals == old(vals)[i := old(vals)[i].WithPending(d, on)]
    {
      nodes[i].SetPending(d, on);
      vals := vals[i := nodes[i].Val()];
    }

    method PutFormats(i: nat, fs: Fmt, inFs: Fmt, outFs: Fmt)
      requires Tied() && i < |nodes|
      modifies this`vals, nodes[i]
      ensures Tied() && vals == old(vals)[i := old(vals)[i].(fs := fs, inFs := inFs, outFs := outFs)]
    {
      nodes[i].fs, nodes[i].inFs, nodes[i].outFs := fs, inFs, outFs;
      vals := vals[i := nodes[i].Val()];
    }

    method PutReconfig(i: nat, out: bool, inn: bool)
      requires Tied() && i < |nodes|
      modifies this`vals, nodes[i]
      ensures Tied() && vals == old(vals)[i := old(vals)[i].(outReconfig := out, inReconfig := inn)]
    {
      nodes[i].outReconfig, nodes[i].inReconfig := out, inn;
      vals := vals[i := nodes[i].Val()];
    }

    /** get_paired */
    method GetPaired(d: Dir) returns (q: Option<nat>)
      requires Tied()
      ensures q == Paired(topo, d)
    {
      q := None;
      var cur := 0;
      while cur < |nodes|
        invariant 0 <= cur <= |nodes|
        invariant q.Some? ==> q.value < |nodes|
        invariant PairedFrom(topo, cur, d, q) == Paired(topo, d)
      {
        var x := nodes[cur].handles;
        if x.rx && x.tx {
          q := Some(cur);
        } else if x.Has(Other(d)) {
          return Some(cur);
        }
        cur := cur + 1;
      }
    }

    /** set_fs */
    method SetChannel(n: nat, d: Dir, skip: bool) returns (ret: Ret)
      requires Tied() && n < |nodes| && nodes[n].Val().ChannelFs(d).channel > 0
      modifies drv
      ensures (drv.hw, ret) == SetFs(topo, vals, old(drv.hw), n, d, skip)
    {
      var x := nodes[n];
      var f := if d == Tx then x.outFs else x.inFs;
      var bits := GetBits(x.Val(), d);
      var _, _ := drv.GetInfo(x.handles.Has(d), d);
      ret := drv.SetDriverFs(x.handles.Has(d), d, bits, f);
      if ret != Ok {
        return;
      }
      var q := GetPaired(d);
      if !skip && d == Rx && q.Some? && nodes[q.value].handles.tx && !nodes[q.value].outEnable {
        var info, wasEnabled := drv.GetInfo(true, Tx);
        if !info {
          return DrvErr;
        }
        ret := drv.DriveEnable(true, Tx, false);
        if ret != Ok {
          return;
        }
        ret := drv.SetDriverFs(true, Tx, bits, f);
        if wasEnabled {
          var restore := drv.DriveEnable(true, Tx, true);
          if ret == Ok {
            ret := restore;
          }
        }
      }
    }

    /** Takes over a format as bus format of a node and its pair and as channel format. */
    method Adopt(n: nat, q: Option<nat>, d: Dir, f: Fmt)
      requires Tied() && n < |nodes| && (q.Some? ==> q.value < |nodes|)
      modifies this`vals, nodes
      ensures Tied() && vals == AloneFormats(old(vals), n, q, d, f)
    {
      PutFs(n, f);
      PutChannelFs(n, d, f);
      if q.Some? && q.value != n {
        PutFs(q.value, f);
      }
    }

    /** Puts the saved formats back. */
    method Restore(n: nat, q: Option<nat>, d: Dir, f: Fmt, saved: Fmt, channel: Fmt, paired: Fmt, ghost was: seq<Node>)
      requires Tied() && n < |nodes| && (q.Some? ==> q.value < |nodes|)
      requires |was| == |nodes| && vals == AloneFormats(was, n, q, d, f)
      requires was[n].fs == saved && was[n].ChannelFs(d) == channel && (q.Some? ==> was[q.value].fs == paired)
      modifies this`vals, nodes
      ensures Tied() && vals == was
    {
      AdoptedAndRestored(was, n, q, d, f);
      PutFs(n, saved);
      PutChannelFs(n, d, channel);
      if q.Some? && q.value != n {
        PutFs(q.value, paired);
      }
    }

    /** check_fs_compatible, the paths that program the format as it is: without an active
        peer (`q` is the pair, if any), or with one that runs the same format (None). */
    method SetDirectly(n: nat, q: Option<nat>, d: Dir, f: Fmt) returns (ret: Ret)
      requires Tied() && n < |nodes| && (q.Some? ==> q.value < |nodes|) && f.channel > 0
      modifies this`vals, drv, nodes
      ensures AloneFormats(old(vals), n, q, d, f)[n].ChannelFs(d).channel > 0
      ensures Tied() && vals == if ret == Ok then AloneFormats(old(vals), n, q, d, f) else old(vals)
      ensures (drv.hw, ret) == SetFs(topo, AloneFormats(old(vals), n, q, d, f), old(drv.hw), n, d, false)
    {
      var oldFs, oldChannelFs := nodes[n].fs, nodes[n].Val().ChannelFs(d);
      var oldPairedFs := if q.Some? then nodes[q.value].fs else f;
      Adopt(n, q, d, f);
      ret := SetChannel(n, d, false);
      if ret != Ok {
        Restore(n, q, d, f, oldFs, oldChannelFs, oldPairedFs, old(vals));
      }
    }

    method SetAlone(n: nat, q: Option<nat>, d: Dir, f: Fmt) returns (ret: Ret)
      requires Valid() && n < |nodes| && q == Paired(topo, d) && f.channel > 0
      modifies this`vals, drv, nodes
      ensures Tied() && (Model(), ret) == CompatAlone(old(Model()), n, d, f)
    {
      ret := SetDirectly(n, q, d, f);
    }

    method SetSame(n: nat, d: Dir, f: Fmt) returns (ret: Ret)
      requires Valid() && n < |nodes| && f.channel > 0
      modifies this`vals, drv, nodes
      ensures Tied() && (Model(), ret) == CompatSame(old(Model()), n, d, f)
    {
      ret := SetDirectly(n, None, d, f);
    }

    /** check_fs_compatible, the path with wider running slots. */
    method ExtendSlots(n: nat, q: nat, d: Dir, f: Fmt) returns (ret: Ret)
      requires Valid() && n < |nodes| && q < |nodes| && f.channel > 0
      modifies this, drv, nodes
      ensures Tied() && (Model(), ret) == CompatExtendSelf(old(Model()), n, q, d, f)
    {
      PutChannelFs(n, d, f);
      var slotBits := nodes[q].fs.Frame() / f.channel;
      ret := drv.SetDriverFs(nodes[n].handles.Has(d), d, U8(slotBits), f);
      if ret != Ok {
        PutTwice(old(vals), n, d, f, nodes[q].fs);
        PutChannelFs(n, d, nodes[q].fs);
      }
    }

    /** Marks the peer as being reconfigured, so that its reads and writes drop their data. */
    method MarkPeer(q: nat, d: Dir)
      requires Tied() && q < |nodes|
      modifies this`vals, nodes
      ensures Tied() && vals == old(vals)[q := Marked(old(vals)[q], d)]
    {
      var y := nodes[q].Val();
      if d == Tx {
        PutReconfig(q, true, y.inReconfig);
      } else {
        PutReconfig(q, y.outReconfig, true);
      }
    }

    /** The do-while block of the path that widens the peer, once the peer is stopped. */
    method ProgramBoth(n: nat, q: nat, d: Dir) returns (ret: Ret)
      requires Tied() && n < |nodes| && q < |nodes|
      requires vals[n].ChannelFs(d).channel > 0 && vals[q].ChannelFs(Other(d)).channel > 0
      modifies drv
      ensures
        var (h2, own) := SetFs(topo, vals, old(drv.hw), n, d, false);
        var (h3, peer) := SetFs(topo, vals, h2, q, Other(d), true);
        (drv.hw, ret) == if own != Ok then (h2, own)
                         else if peer != Ok then (h3, peer)
                         else DrvEnable(h3, topo[q].Has(Other(d)), Other(d), true)
    {
      ret := SetChannel(n, d, false);
      if ret != Ok {
        return;
      }
      ret := SetChannel(q, Other(d), true);
      if ret == Ok {
        ret := drv.DriveEnable(nodes[q].handles.Has(Other(d)), Other(d), true);
      }
    }

    /** Stops the peer and hands the wider format to both nodes. */
    method StopAndWiden(n: nat, q: nat, d: Dir, f: Fmt) returns (ret: Ret)
      requires Tied() && n < |nodes| && q < |nodes|
      modifies this`vals, drv, nodes
      ensures Tied() && vals == Widened(old(vals)[q := Marked(old(vals)[q], Other(d))], n, q, f, ret == Ok)
      ensures (drv.hw, ret) == DrvEnable(old(drv.hw), topo[q].Has(Other(d)), Other(d), false)
    {
      MarkPeer(q, Other(d));
      ret := drv.DriveEnable(nodes[q].handles.Has(Other(d)), Other(d), false);
      if ret == Ok {
        PutFs(q, f);
        PutFs(n, f);
      }
    }

    /** The do-while block of the path that widens the peer. */
    method WidenBoth(n: nat, q: nat, d: Dir, f: Fmt) returns (ret: Ret, ghost reached: bool)
      requires Tied() && n < |nodes| && q < |nodes|
      requires vals[n].ChannelFs(d).channel > 0 && vals[q].ChannelFs(Other(d)).channel > 0
      modifies this`vals, drv, nodes
      ensures Tied() && vals == Widened(old(vals)[q := Marked(old(vals)[q], Other(d))], n, q, f, reached)
      ensures ret == Ok ==> reached
      ensures
        (drv.hw, ret) == ExpandHw(topo, Widened(old(vals), n, q, f, true), old(drv.hw), n, q, d)
    {
      WidenedFormats(vals, n, q, d, f);
      ret := StopAndWiden(n, q, d, f);
      reached := ret == Ok;
      if ret == Ok {
        MarksPlayNoPart(topo, vals, Widened(old(vals), n, q, f, true), old(drv.hw), n, q, d);
        ret := ProgramBoth(n, q, d);
      }
    }

    /** Puts the bus formats back after a failure and clears the reconfig flags. */
    method Settle(n: nat, q: nat, ok: bool, saved: Fmt, paired: Fmt, ghost f: Fmt, ghost own: seq<Node>,
                  ghost reached: bool)
      requires Tied() && n < |nodes| && q < |nodes| && |own| == |nodes|
      requires vals == Widened(own, n, q, f, reached)
      requires own[n].fs == saved && own[q].fs == paired
      modifies this`vals, nodes
      ensures Tied() && vals == ClearReconfigs(Widened(own, n, q, f, reached && ok), n, q)
    {
      if !ok {
        PutFs(n, saved);
        PutFs(q, paired);
        RolledBack(own, n, q, f, reached);
      }
      ghost var settled := vals;
      assert settled == Widened(own, n, q, f, reached && ok);
      PutReconfig(n, false, false);
      PutReconfig(q, false, false);
    }

    /** The driver side of the widening path; `reached` says that the nodes were widened. */
    method ProgramPeer(n: nat, q: nat, d: Dir, f: Fmt, wider: bool)
      returns (ret: Ret, ghost reached: bool, ghost base: seq<Node>)
      requires Tied() && n < |nodes| && q < |nodes|
      requires vals[n].ChannelFs(d).channel > 0 && vals[q].ChannelFs(Other(d)).channel > 0
      modifies this`vals, drv, nodes
      ensures base == if wider then old(vals)[q := Marked(old(vals)[q], Other(d))] else old(vals)
      ensures Tied() && vals == Widened(base, n, q, f, reached)
      ensures (ret == Ok && wider ==> reached) && (reached ==> wider)
      ensures
        (drv.hw, ret) == if wider then ExpandHw(topo, Widened(old(vals), n, q, f, true), old(drv.hw), n, q, d)
                         else SetFs(topo, old(vals), old(drv.hw), n, d, false)
    {
      base := vals;
      if wider {
        base := vals[q := Marked(vals[q], Other(d))];
        ret, reached := WidenBoth(n, q, d, f);
      } else {
        reached := false;
        ret := SetChannel(n, d, false);
      }
    }

    /** check_fs_compatible, the path that widens the peer. */
    method WidenPeer(n: nat, q: nat, d: Dir, f: Fmt) returns (ret: Ret)
      requires Valid() && n < |nodes| && q < |nodes| && f.channel > 0
      requires vals[q].Enabled(Other(d))
      modifies this, drv, nodes
      ensures Tied() && (Model(), ret) == CompatExpandPeer(old(Model()), n, q, d, f)
    {
      var wider := f.Frame() > nodes[q].fs.Frame();
      PutChannelFs(n, d, f);
      var oldFs, oldPairedFs := nodes[n].fs, nodes[q].fs;
      ghost var own := vals;
      ghost var reached, base;
      ret, reached, base := ProgramPeer(n, q, d, f, wider);
      Settle(n, q, ret == Ok, oldFs, oldPairedFs, f, base, reached);
      MarksCleared(own, n, q, Other(d), f, reached && ret == Ok);
      ExpandsAsWidened(old(Model()), n, q, d, f, own, drv.hw, ret);
    }

    /** check_fs_compatible */
    method CheckCompatible(n: nat, d: Dir, f: Fmt) returns (ret: Ret)
      requires Valid() && n < |nodes| && f.channel > 0
      modifies this, drv, nodes
      ensures Tied() && (Model(), ret) == CheckFsCompatible(old(Model()), n, d, f)
    {
      var q := GetPaired(d);
      if q.None? || !nodes[q.value].Val().Enabled(Other(d)) {
        ret := SetAlone(n, q, d, f);
      } else {
        ret := Negotiate(n, q.value, d, f);
      }
    }

    /** The part of check_fs_compatible with an active peer. */
    method Negotiate(n: nat, q: nat, d: Dir, f: Fmt) returns (ret: Ret)
      requires Valid() && n < |nodes| && q < |nodes| && f.channel > 0
      requires Paired(topo, d) == Some(q) && vals[q].Enabled(Other(d))
      modifies this, drv, nodes
      ensures Tied()
      ensures
        var p := old(Model());
        (Model(), ret) == match PathOf(p, d, f)
                          case Same => CompatSame(p, n, d, f)
                          case ExtendSelf => CompatExtendSelf(p, n, q, d, f)
                          case ExpandPeer => CompatExpandPeer(p, n, q, d, f)
                          case _ => (p, NotSupport)
    {
      var g := nodes[q].fs;
      if f.rate != g.rate {
        ret := NotSupport;
      } else if f.channel == g.channel && f.bits == g.bits {
        ret := SetSame(n, d, f);
      } else if g.Frame() > f.Frame() {
        ret := ExtendSlots(n, q, d, f);
      } else {
        ret := WidenPeer(n, q, d, f);
      }
    }

    /** _i2s_data_set_fmt for one direction, on a normalized and valid format. */
    method SetFmtSingle(n: nat, d: Dir, f: Fmt) returns (ret: Ret)
      requires Valid() && n < |nodes| && f.channel > 0
      modifies this, drv, nodes
      ensures Tied() && (Model(), ret) == SetFmtOne(old(Model()), n, d, f)
    {
      var has := nodes[n].handles.Has(d);
      var info, restore := drv.GetInfo(has, d);
      if !info {
        return DrvErr;
      }
      ret := drv.DriveEnable(has, d, false);
      if ret != Ok {
        return;
      }
      ret := CheckCompatible(n, d, f);
      if ret == Ok {
        var q := GetPaired(d);
        if q.Some? && restore {
          ret := drv.DriveEnable(has, d, true);
        }
      }
    }

    method SetBothChannels(n: nat) returns (ret: Ret)
      requires Tied() && n < |nodes| && vals[n].outFs.channel > 0 && vals[n].inFs.channel > 0
      modifies drv
      ensures
        var (h1, setTx) := SetFs(topo, vals, old(drv.hw), n, Tx, true);
        (drv.hw, ret) == if setTx == Ok then SetFs(topo, vals, h1, n, Rx, true) else (h1, setTx)
    {
      ret := SetChannel(n, Tx, true);
      if ret == Ok {
        ret := SetChannel(n, Rx, true);
      }
    }

    /** One format for both directions of a node, taken back if either refuses it. */
    method ProgramDuplex(n: nat, f: Fmt) returns (ret: Ret)
      requires Tied() && n < |nodes| && f.channel > 0
      modifies this`vals, drv, nodes
      ensures
        var own := old(vals)[n := old(vals)[n].(fs := f, inFs := f, outFs := f)];
        var (h1, setTx) := SetFs(topo, own, old(drv.hw), n, Tx, true);
        && Tied() && vals == (if ret == Ok then own else old(vals))
        && (drv.hw, ret) == if setTx == Ok then SetFs(topo, own, h1, n, Rx, true) else (h1, setTx)
    {
      var oldFs, oldInFs, oldOutFs := nodes[n].fs, nodes[n].inFs, nodes[n].outFs;
      PutFormats(n, f, f, f);
      ret := SetBothChannels(n);
      if ret != Ok {
        PutFormats(n, oldFs, oldInFs, oldOutFs);
        assert vals == old(vals);
      }
    }

    /** _i2s_data_set_fmt for both directions. */
    method SetFmtDuplex(n: nat, f: Fmt) returns (ret: Ret)
      requires Valid() && n < |nodes| && f.channel > 0
      modifies this, drv, nodes
      ensures Tied() && (Model(), ret) == SetFmtBoth(old(Model()), n, f)
    {
      var x := nodes[n];
      var outInfo, _ := drv.GetInfo(x.handles.tx, Tx);
      if !outInfo {
        return DrvErr;
      }
      var inInfo, _ := drv.GetInfo(x.handles.rx, Rx);
      if !inInfo {
        return DrvErr;
      }
      ret := drv.DriveEnable(x.handles.tx, Tx, false);
      if ret == Ok {
        ret := drv.DriveEnable(x.handles.rx, Rx, false);
      }
      if ret != Ok {
        return;
      }
      ret := ProgramDuplex(n, f);
    }

    /** _i2s_data_set_fmt: no running channel is reconfigured, and an error leaves every bus
        format as it was unless only the restart of the channel failed. */
    method SetFormat(n: nat, t: DevType, f: Fmt) returns (ret: Ret)
      requires Valid() && n < |nodes|
      modifies this, drv, nodes
      ensures Tied() && (Model(), ret) == SetFmt(old(Model()), n, t, f)
      ensures drv.hw.misuse == old(drv.hw.misuse)
      ensures
        var d, g := if t == Out then Tx else Rx, Normalized(f);
        I2sSafety.Kept(old(vals), vals, ret == Ok || (!t.InOut? && ValidFmt(g) &&
                                                      I2sSafety.RestartFailed(old(Model()), n, d, g)))
    {
      I2sSafety.SetFmtNeverReconfiguresRunning(Model(), n, t, f);
      I2sSafety.SetFmtErrorKeepsBus(Model(), n, t, f);
      ret := ChangeFormat(n, t, f);
    }

    method ChangeFormat(n: nat, t: DevType, f: Fmt) returns (ret: Ret)
      requires Valid() && n < |nodes|
      modifies this, drv, nodes
      ensures Tied() && (Model(), ret) == SetFmt(old(Model()), n, t, f)
    {
      var g := f;
      if f.channel == 1 {
        g := g.(channel := 2, mask := 1);
      }
      if g.mask == 0 {
        var mask := FullMask(g.channel);
        g := g.(mask := mask);
      }
      if !ValidFmt(g) {
        return NotSupport;
      }
      match t
      case InOut => ret := SetFmtDuplex(n, g);
      case Out => ret := SetFmtSingle(n, Tx, g);
      case In => ret := SetFmtSingle(n, Rx, g);
    }

    /** _i2s_data_enable for one direction. */
    method EnableSingle(n: nat, d: Dir, on: bool, hw1: bool) returns (ret: Ret)
      requires Tied() && n < |nodes|
      modifies this`vals, drv, nodes
      ensures Tied() && (Model(), ret) == EnableOne(old(Model()), n, d, on, hw1)
    {
      var q := GetPaired(d);
      ret := Ok;
      if !on && (d == Tx || hw1) && nodes[n].handles.Has(d) && q.Some? && nodes[q.value].Val().Enabled(Other(d)) {
        PutPending(n, d, true);
        PutEnabled(n, d, false);
        assert vals == old(vals)[n := old(vals)[n].WithPending(d, true).WithEnabled(d, false)];
        return;
      }
      if on {
        ret := TurnOn(n, d);
      } else {
        ret := TurnOff(n, q, d);
      }
    }

    /** An enable: the pending stop is forgotten even if the driver fails. */
    method TurnOn(n: nat, d: Dir) returns (ret: Ret)
      requires Tied() && n < |nodes|
      modifies this`vals, drv, nodes
      ensures Tied() && (drv.hw, ret) == DrvEnable(old(drv.hw), topo[n].Has(d), d, true)
      ensures
        var x := old(vals)[n].WithPending(d, false);
        vals == old(vals)[n := if ret == Ok then x.WithEnabled(d, true) else x]
    {
      ret := drv.DriveEnable(nodes[n].handles.Has(d), d, true);
      PutPending(n, d, false);
      if ret == Ok {
        PutEnabled(n, d, true);
      }
    }

    /** A disable that is not deferred, followed by the peer's deferred one. */
    method TurnOff(n: nat, q: Option<nat>, d: Dir) returns (ret: Ret)
      requires Tied() && n < |nodes| && (q.Some? ==> q.value < |nodes|)
      modifies this`vals, drv, nodes
      ensures
        var (h1, own) := DrvEnable(old(drv.hw), topo[n].Has(d), d, false);
        var peer := q.Some? && old(vals)[q.value].Pending(Other(d));
        var was := if peer then old(vals)[q.value := old(vals)[q.value].WithPending(Other(d), false)] else old(vals);
        && Tied()
        && (drv.hw, ret) == (if peer then DrvEnable(h1, topo[q.value].Has(Other(d)), Other(d), false) else (h1, own))
        && vals == if ret == Ok then was[n := was[n].WithEnabled(d, false)] else was
    {
      ret := drv.DriveEnable(nodes[n].handles.Has(d), d, false);
      if q.Some? && nodes[q.value].Val().Pending(Other(d)) {
        ret := drv.DriveEnable(nodes[q.value].handles.Has(Other(d)), Other(d), false);
        PutPending(q.value, Other(d), false);
      }
      if ret == Ok {
        PutEnabled(n, d, false);
      }
    }

    /** _i2s_data_enable for both directions: flags that tell the driver's state go on to. */
    method EnableDuplex(n: nat, on: bool) returns (ret: Ret)
      requires Tied() && n < |nodes|
      modifies this`vals, drv, nodes
      ensures Tied() && (Model(), ret) == EnableBoth(old(Model()), n, on)
      ensures old(I2sEnable.FlagsTrue(Model(), n)) ==> I2sEnable.FlagsTrue(Model(), n)
      ensures ret == Ok ==> drv.hw.tx.running == drv.hw.rx.running == vals[n].outEnable == vals[n].inEnable == on
    {
      I2sEnable.BothSwitchTogether(Model(), n, on);
      if I2sEnable.FlagsTrue(Model(), n) {
        I2sEnable.InOutStep(Model(), n, on);
      }
      ret := SwitchBoth(n, on);
    }

    method SwitchBoth(n: nat, on: bool) returns (ret: Ret)
      requires Tied() && n < |nodes|
      modifies this`vals, drv, nodes
      ensures Tied() && (Model(), ret) == EnableBoth(old(Model()), n, on)
    {
      var x := nodes[n];
      if !x.handles.tx || !x.handles.rx {
        return DrvErr;
      }
      var txInfo, txRunning := drv.GetInfo(true, Tx);
      if !txInfo {
        return DrvErr;
      }
      var rxInfo, _ := drv.GetInfo(true, Rx);
      if !rxInfo {
        return DrvErr;
      }
      ret := drv.DriveEnable(true, Tx, on);
      if ret == Ok {
        ret := FollowTx(n, on, txRunning, old(drv.hw));
      }
    }

    /** The RX half, once TX is done; `before` is the hardware as it was. */
    method FollowTx(n: nat, on: bool, txRunning: bool, ghost before: Hw) returns (ret: Ret)
      requires Tied() && n < |nodes| && txRunning == before.tx.running
      modifies this`vals, drv, nodes
      ensures Tied() && (Model(), ret) == EnableRxAfterTx(Port(topo, old(vals), before), n, old(drv.hw), on)
    {
      var x := nodes[n];
      ret := drv.DriveEnable(true, Rx, on);
      if ret == Ok {
        x.outEnable, x.inEnable := on, on;
      } else {
        var rollback := drv.DriveEnable(true, Tx, txRunning);
        if rollback != Ok {
          x.outEnable := on;
        }
      }
      vals := vals[n := x.Val()];
    }

    /** _i2s_data_enable */
    method SwitchData(n: nat, t: DevType, on: bool, hw1: bool) returns (ret: Ret)
      requires Tied() && n < |nodes|
      modifies this`vals, drv, nodes
      ensures Tied() && (Model(), ret) == Enable(old(Model()), n, t, on, hw1)
      ensures t == InOut && old(I2sEnable.FlagsTrue(Model(), n)) ==> I2sEnable.FlagsTrue(Model(), n)
      ensures t == InOut && ret == Ok ==>
        drv.hw.tx.running == drv.hw.rx.running == vals[n].outEnable == vals[n].inEnable == on
    {
      match t
      case InOut => ret := EnableDuplex(n, on);
      case Out => ret := EnableSingle(n, Tx, on, hw1);
      case In => ret := EnableSingle(n, Rx, on, hw1);
    }
  }

  /** The 16-bit mask of the first `channels` channels, one bit after the other. */
  method FullMask(channels: nat) returns (mask: nat)
    ensures mask == MaskOf(channels)
  {
    mask := 0;
    for i := 0 to channels
      invariant mask == MaskOf(i)
    {
      if i < 16 {
        I2sAgreement.MaskIsAllOnes(i);
        I2sAgreement.MaskIsAllOnes(i + 1);
        mask := mask + Pow2(i);
      } else {
        I2sAgreement.MaskIsAllOnes(i);
        I2sAgreement.MaskIsAllOnes(i + 1);
      }
    }
  }

  function Marked(x: Node, d: Dir): Node {
    if d == Tx then x.(outReconfig := true) else x.(inReconfig := true)
  }

  function Widened(nodes: seq<Node>, n: nat, q: nat, f: Fmt, reached: bool): (r: seq<Node>)
    requires n < |nodes| && q < |nodes|
    ensures |r| == |nodes|
    ensures forall i :: 0 <= i < |nodes| ==> r[i].outFs == nodes[i].outFs && r[i].inFs == nodes[i].inFs
  {
    if !reached then nodes
    else
      var peer := nodes[q := nodes[q].(fs := f)];
      peer[n := peer[n].(fs := f)]
  }

  predicate SameButMarks(xs: seq<Node>, ys: seq<Node>) {
    |xs| == |ys| && forall i :: 0 <= i < |xs| ==> xs[i].WithoutReconfig() == ys[i].WithoutReconfig()
  }

  /** The reconfig flags play no part in programming a channel. */
  lemma SameWhileReconfiguring(topo: seq<Handles>, xs: seq<Node>, ys: seq<Node>, h: Hw, n: nat, d: Dir, skip: bool)
    requires |topo| == |xs| && n < |xs| && SameButMarks(xs, ys)
    requires xs[n].ChannelFs(d).channel > 0 && ys[n].ChannelFs(d).channel > 0
    ensures SetFs(topo, xs, h, n, d, skip) == SetFs(topo, ys, h, n, d, skip)
  {
    assert xs[n].WithoutReconfig() == ys[n].WithoutReconfig();
  }

  lemma PutTwice(nodes: seq<Node>, n: nat, d: Dir, f: Fmt, g: Fmt)
    requires n < |nodes|
    ensures
      var first := nodes[n := nodes[n].WithChannelFs(d, f)];
      first[n := first[n].WithChannelFs(d, g)] == nodes[n := nodes[n].WithChannelFs(d, g)]
  {
  }

  lemma NodeRestored(x: Node, d: Dir, f: Fmt)
    ensures x.(fs := f).WithChannelFs(d, f).(fs := x.fs).WithChannelFs(d, x.ChannelFs(d)) == x
    ensures x.(fs := f).(fs := x.fs) == x
  {
  }

  lemma OnePutCancels(s: seq<Node>, n: nat, a: Node, b: Node)
    requires n < |s|
    ensures s[n := a][n := b][n := s[n]] == s
  {
  }

  lemma TwoPutsCancel(s: seq<Node>, n: nat, q: nat, a: Node, b: Node, c: Node)
    requires n < |s| && q < |s| && n != q
    ensures s[n := a][q := b][n := c][n := s[n]][q := s[q]] == s
  {
  }

  lemma AdoptedAndRestored(was: seq<Node>, n: nat, q: Option<nat>, d: Dir, f: Fmt)
    requires n < |was| && (q.Some? ==> q.value < |was|)
    ensures
      var a := AloneFormats(was, n, q, d, f);
      var b := a[n := a[n].(fs := was[n].fs)];
      var c := b[n := b[n].WithChannelFs(d, was[n].ChannelFs(d))];
      (if q.Some? && q.value != n then c[q.value := c[q.value].(fs := was[q.value].fs)] else c) == was
  {
    var x := was[n].(fs := f).WithChannelFs(d, f);
    NodeRestored(was[n], d, f);
    if q.Some? && q.value != n {
      NodeRestored(was[q.value], d, f);
      TwoPutsCancel(was, n, q.value, x, was[q.value].(fs := f), x.(fs := was[n].fs));
    } else {
      OnePutCancels(was, n, x, x.(fs := was[n].fs));
    }
  }

  lemma WidenedAt(nodes: seq<Node>, n: nat, q: nat, f: Fmt)
    requires n < |nodes| && q < |nodes|
    ensures
      var w := Widened(nodes, n, q, f, true);
      forall i :: 0 <= i < |nodes| ==> w[i] == if i == n || i == q then nodes[i].(fs := f) else nodes[i]
  {
  }

  lemma WidenedFormats(nodes: seq<Node>, n: nat, q: nat, d: Dir, f: Fmt)
    requires n < |nodes| && q < |nodes|
    requires nodes[n].ChannelFs(d).channel > 0 && nodes[q].ChannelFs(Other(d)).channel > 0
    ensures
      var marked := Widened(nodes[q := Marked(nodes[q], Other(d))], n, q, f, true);
      var plain := Widened(nodes, n, q, f, true);
      && SameButMarks(marked, plain)
      && marked[n].ChannelFs(d).channel > 0 && plain[n].ChannelFs(d).channel > 0
      && marked[q].ChannelFs(Other(d)).channel > 0 && plain[q].ChannelFs(Other(d)).channel > 0
  {
    WidenedAt(nodes, n, q, f);
    WidenedAt(nodes[q := Marked(nodes[q], Other(d))], n, q, f);
  }

  lemma RolledBack(nodes: seq<Node>, n: nat, q: nat, f: Fmt, reached: bool)
    requires n < |nodes| && q < |nodes|
    ensures
      var w := Widened(nodes, n, q, f, reached);
      var own := w[n := w[n].(fs := nodes[n].fs)];
      own[q := own[q].(fs := nodes[q].fs)] == nodes
  {
  }

  lemma MarksCleared(nodes: seq<Node>, n: nat, q: nat, d: Dir, f: Fmt, reached: bool)
    requires n < |nodes| && q < |nodes|
    ensures
      var marked := nodes[q := Marked(nodes[q], d)];
      ClearReconfigs(Widened(marked, n, q, f, reached), n, q) == ClearReconfigs(Widened(nodes, n, q, f, reached), n, q)
  {
    var marked := nodes[q := Marked(nodes[q], d)];
    ClearedAt(Widened(marked, n, q, f, reached), Widened(nodes, n, q, f, reached), n, q);
  }

  lemma ClearedAt(xs: seq<Node>, ys: seq<Node>, n: nat, q: nat)
    requires |xs| == |ys| && n < |xs| && q < |xs|
    requires forall i :: 0 <= i < |xs| ==>
      xs[i] == ys[i] || ((i == n || i == q) && xs[i].WithoutReconfig() == ys[i].WithoutReconfig())
    ensures ClearReconfigs(xs, n, q) == ClearReconfigs(ys, n, q)
  {
  }

  /** CompatExpandPeer in terms of the nodes with the new channel format. */
  lemma ExpandsAsWidened(p: Port, n: nat, q: nat, d: Dir, f: Fmt, own: seq<Node>, h: Hw, ret: Ret)
    requires p.Valid() && n < |p.nodes| && q < |p.nodes| && f.channel > 0 && p.nodes[q].Enabled(Other(d))
    requires own == p.nodes[n := p.nodes[n].WithChannelFs(d, f)]
    requires own[n].ChannelFs(d).channel > 0 && own[q].ChannelFs(Other(d)).channel > 0
    requires
      var wider := f.Frame() > p.nodes[q].fs.Frame();
      (h, ret) == if wider then ExpandHw(p.topo, Widened(own, n, q, f, true), p.hw, n, q, d)
                  else SetFs(p.topo, own, p.hw, n, d, false)
    ensures
      var wider := f.Frame() > p.nodes[q].fs.Frame();
      CompatExpandPeer(p, n, q, d, f) ==
      (p.(nodes := ClearReconfigs(Widened(own, n, q, f, wider && ret == Ok), n, q), hw := h), ret)
  {
    assert ExpandFormats(p.nodes, n, q, d, f, true) == Widened(own, n, q, f, true);
    assert ExpandFormats(p.nodes, n, q, d, f, false) == own;
  }

  lemma MarksPlayNoPart(topo: seq<Handles>, xs: seq<Node>, ys: seq<Node>, h: Hw, n: nat, q: nat, d: Dir)
    requires |topo| == |xs| && n < |xs| && q < |xs| && SameButMarks(xs, ys)
    requires xs[n].ChannelFs(d).channel > 0 && ys[n].ChannelFs(d).channel > 0
    requires xs[q].ChannelFs(Other(d)).channel > 0 && ys[q].ChannelFs(Other(d)).channel > 0
    ensures ExpandHw(topo, xs, h, n, q, d) == ExpandHw(topo, ys, h, n, q, d)
  {
    var (h1, stop) := DrvEnable(h, topo[q].Has(Other(d)), Other(d), false);
    SameWhileReconfiguring(topo, xs, ys, h1, n, d, false);
    SameWhileReconfiguring(topo, xs, ys, SetFs(topo, xs, h1, n, d, false).0, q, Other(d), true);
  }
}

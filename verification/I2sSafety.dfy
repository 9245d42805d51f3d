/**
 What _i2s_data_set_fmt keeps under every pattern of driver failures, for any list of nodes
 on the port: no channel is reconfigured while it runs, and a refused format leaves the bus
 formats alone.
 */
module I2sSafety {
  import opened Common
  import opened I2sBus

  // ---------------------------------------------------------------- reconfiguration

  lemma StoppedAfterDisable(h: Hw, has: bool, d: Dir, on: bool)
    ensures
      var (h', ret) := DrvEnable(h, has, d, on);
      && h'.misuse == h.misuse
      && h'.Of(Other(d)) == h.Of(Other(d))
      && h'.Of(d) == h.Of(d).(running := if ret == Ok then on else h.Of(d).running)
  {
  }

  lemma SetDrvFsOnStopped(h: Hw, has: bool, d: Dir, slotBits: nat, f: Fmt)
    requires !h.Of(d).running
    ensures
      var h' := SetDrvFs(h, has, d, slotBits, f).0;
      h'.misuse == h.misuse && !h'.Of(d).running && h'.Of(Other(d)) == h.Of(Other(d))
  {
  }

  lemma UpdatePeerTxSafe(h: Hw, bits: nat, f: Fmt)
    ensures
      var h' := UpdatePeerTx(h, bits, f).0;
      h'.misuse == h.misuse && h'.rx == h.rx
  {
    var (h1, info) := Call(h);
    StoppedAfterDisable(h1, true, Tx, false);
    var (h2, stop) := DrvEnable(h1, true, Tx, false);
    if info && stop == Ok {
      SetDrvFsOnStopped(h2, true, Tx, bits, f);
      StoppedAfterDisable(SetDrvFs(h2, true, Tx, bits, f).0, true, Tx, true);
    }
  }

  /** set_fs touches the other channel only through the peer TX update. */
  lemma SetFsSafe(topo: seq<Handles>, nodes: seq<Node>, h: Hw, n: nat, d: Dir, skip: bool)
    requires |topo| == |nodes| && n < |nodes| && nodes[n].ChannelFs(d).channel > 0
    requires !h.Of(d).running
    ensures
      var h' := SetFs(topo, nodes, h, n, d, skip).0;
      var q := Paired(topo, d);
      && h'.misuse == h.misuse && !h'.Of(d).running
      && (skip || d == Tx || (q.Some? && nodes[q.value].outEnable) ==> h'.Of(Other(d)) == h.Of(Other(d)))
  {
    var f := nodes[n].ChannelFs(d);
    var bits := GetBits(nodes[n], d);
    var h0 := if topo[n].Has(d) then Call(h).0 else h;
    SetDrvFsOnStopped(h0, topo[n].Has(d), d, bits, f);
    UpdatePeerTxSafe(SetDrvFs(h0, topo[n].Has(d), d, bits, f).0, bits, f);
  }

  lemma ExpandHwSafe(topo: seq<Handles>, nodes: seq<Node>, h: Hw, n: nat, q: nat, d: Dir)
    requires |topo| == |nodes| && n < |nodes| && Paired(topo, d) == Some(q)
    requires nodes[n].ChannelFs(d).channel > 0 && nodes[q].ChannelFs(Other(d)).channel > 0
    requires nodes[q].Enabled(Other(d)) && !h.Of(d).running
    ensures ExpandHw(topo, nodes, h, n, q, d).0.misuse == h.misuse
  {
    var has := topo[q].Has(Other(d));
    StoppedAfterDisable(h, has, Other(d), false);
    var (h1, stop) := DrvEnable(h, has, Other(d), false);
    if stop == Ok {
      SetFsSafe(topo, nodes, h1, n, d, false);
      var h2 := SetFs(topo, nodes, h1, n, d, false).0;
      SetFsSafe(topo, nodes, h2, q, Other(d), true);
      StoppedAfterDisable(SetFs(topo, nodes, h2, q, Other(d), true).0, has, Other(d), true);
    }
  }

  lemma CompatAloneSafe(p: Port, n: nat, d: Dir, f: Fmt)
    requires p.Valid() && n < |p.nodes| && f.channel > 0 && !p.hw.Of(d).running
    ensures CompatAlone(p, n, d, f).0.hw.misuse == p.hw.misuse
  {
    SetFsSafe(p.topo, AloneFormats(p.nodes, n, Paired(p.topo, d), d, f), p.hw, n, d, false);
  }

  lemma CompatSameSafe(p: Port, n: nat, d: Dir, f: Fmt)
    requires p.Valid() && n < |p.nodes| && f.channel > 0 && !p.hw.Of(d).running
    ensures CompatSame(p, n, d, f).0.hw.misuse == p.hw.misuse
  {
    SetFsSafe(p.topo, AloneFormats(p.nodes, n, None, d, f), p.hw, n, d, false);
  }

  lemma CompatExpandPeerSafe(p: Port, n: nat, q: nat, d: Dir, f: Fmt)
    requires p.Valid() && n < |p.nodes| && f.channel > 0 && !p.hw.Of(d).running
    requires Paired(p.topo, d) == Some(q) && p.nodes[q].Enabled(Other(d))
    ensures CompatExpandPeer(p, n, q, d, f).0.hw.misuse == p.hw.misuse
  {
    var wider := f.Frame() > p.nodes[q].fs.Frame();
    var nodes := ExpandFormats(p.nodes, n, q, d, f, wider);
    if wider {
      ExpandHwSafe(p.topo, nodes, p.hw, n, q, d);
    } else {
      SetFsSafe(p.topo, nodes, p.hw, n, d, false);
    }
  }

  lemma CheckFsCompatibleSafe(p: Port, n: nat, d: Dir, f: Fmt)
    requires p.Valid() && n < |p.nodes| && f.channel > 0 && !p.hw.Of(d).running
    ensures CheckFsCompatible(p, n, d, f).0.hw.misuse == p.hw.misuse
  {
    match PathOf(p, d, f)
    case RateConflict =>
    case Alone => CompatAloneSafe(p, n, d, f);
    case Same => CompatSameSafe(p, n, d, f);
    case ExtendSelf =>
      var q := Paired(p.topo, d).value;
      SetDrvFsOnStopped(p.hw, p.topo[n].Has(d), d, U8(p.nodes[q].fs.Frame() / f.channel), f);
    case ExpandPeer => CompatExpandPeerSafe(p, n, Paired(p.topo, d).value, d, f);
  }

  /** No driver channel is ever reconfigured while it runs: not on any path of set_fmt, for
      one direction or both, for any list of nodes, from any state, under any failures. */
  lemma SetFmtNeverReconfiguresRunning(p: Port, n: nat, t: DevType, f: Fmt)
    requires p.Valid() && n < |p.nodes|
    ensures SetFmt(p, n, t, f).0.hw.misuse == p.hw.misuse
  {
    var g := Normalized(f);
    if ValidFmt(g) {
      match t
      case InOut => SetFmtBothSafe(p, n, g);
      case Out => SetFmtOneSafe(p, n, Tx, g);
      case In => SetFmtOneSafe(p, n, Rx, g);
    }
  }

  lemma SetFmtOneSafe(p: Port, n: nat, d: Dir, f: Fmt)
    requires p.Valid() && n < |p.nodes| && f.channel > 0
    ensures SetFmtOne(p, n, d, f).0.hw.misuse == p.hw.misuse
  {
    var has := p.topo[n].Has(d);
    var (h1, info) := if has then Call(p.hw) else (p.hw, false);
    StoppedAfterDisable(h1, has, d, false);
    var (h2, stop) := DrvEnable(h1, has, d, false);
    if info && stop == Ok {
      var p2 := p.(hw := h2);
      CheckFsCompatibleSafe(p2, n, d, f);
      StoppedAfterDisable(CheckFsCompatible(p2, n, d, f).0.hw, has, d, true);
    }
  }

  lemma SetFmtBothSafe(p: Port, n: nat, f: Fmt)
    requires p.Valid() && n < |p.nodes| && f.channel > 0
    ensures SetFmtBoth(p, n, f).0.hw.misuse == p.hw.misuse
  {
    if p.topo[n].tx && p.topo[n].rx {
      var h2 := Call(Call(p.hw).0).0;
      StoppedAfterDisable(h2, true, Tx, false);
      var (h3, stopTx) := DrvEnable(h2, true, Tx, false);
      StoppedAfterDisable(h3, true, Rx, false);
      var (h4, stopRx) := DrvEnable(h3, true, Rx, false);
      if stopTx == Ok && stopRx == Ok {
        var own := p.nodes[n := p.nodes[n].(fs := f, inFs := f, outFs := f)];
        SetFsSafe(p.topo, own, h4, n, Tx, true);
        SetFsSafe(p.topo, own, SetFs(p.topo, own, h4, n, Tx, true).0, n, Rx, true);
      }
    }
  }

  // ---------------------------------------------------------------- rollback

  /** A node after a negotiation: its flags are the old ones, no reconfig flag is newly set,
      an enabled direction still has a format, and after an error the bus format is the old. */
  predicate NodeKept(x: Node, y: Node, ok: bool) {
    && x.outEnable == y.outEnable && x.inEnable == y.inEnable
    && x.outPending == y.outPending && x.inPending == y.inPending
    && (y.outReconfig ==> x.outReconfig) && (y.inReconfig ==> x.inReconfig)
    && (x.Formatted() ==> y.Formatted())
    && (!ok ==> x.fs == y.fs)
  }

  predicate Kept(xs: seq<Node>, ys: seq<Node>, ok: bool) {
    |xs| == |ys| && forall i :: 0 <= i < |xs| ==> NodeKept(xs[i], ys[i], ok)
  }

  lemma AloneFormatsKept(nodes: seq<Node>, n: nat, q: Option<nat>, d: Dir, f: Fmt)
    requires n < |nodes| && (q.Some? ==> q.value < |nodes|) && f.channel > 0
    ensures Kept(nodes, AloneFormats(nodes, n, q, d, f), true)
  {
    var r := AloneFormats(nodes, n, q, d, f);
    forall i | 0 <= i < |nodes| ensures NodeKept(nodes[i], r[i], true) {
      var x := nodes[i];
      assert r[i] == if i == n then x.(fs := f).WithChannelFs(d, f) else if q == Some(i) then x.(fs := f) else x;
    }
  }

  lemma ExpandFormatsKept(nodes: seq<Node>, n: nat, q: nat, d: Dir, f: Fmt, wider: bool)
    requires n < |nodes| && q < |nodes| && f.channel > 0
    ensures Kept(nodes, ExpandFormats(nodes, n, q, d, f, wider), wider)
  {
    var own := nodes[n := nodes[n].WithChannelFs(d, f)];
    OneNodeKept(nodes, n, own[n], false);
    if wider {
      var peer := own[q := own[q].(fs := f)];
      OneNodeKept(own, q, peer[q], true);
      KeptTrans(nodes, own, peer, true);
      OneNodeKept(peer, n, peer[n].(fs := f), true);
      KeptTrans(nodes, peer, peer[n := peer[n].(fs := f)], true);
    }
  }

  lemma ClearReconfigsKept(nodes: seq<Node>, n: nat, q: nat)
    requires n < |nodes| && q < |nodes|
    ensures Kept(nodes, ClearReconfigs(nodes, n, q), false)
  {
    var r := ClearReconfigs(nodes, n, q);
    forall i | 0 <= i < |nodes| ensures NodeKept(nodes[i], r[i], false) {
      assert r[i] == if i == n || i == q then nodes[i].WithoutReconfig() else nodes[i];
    }
  }

  lemma KeptTrans(xs: seq<Node>, ys: seq<Node>, zs: seq<Node>, ok: bool)
    requires (Kept(xs, ys, false) || (ok && Kept(xs, ys, true))) && (Kept(ys, zs, false) || (ok && Kept(ys, zs, true)))
    ensures Kept(xs, zs, ok)
  {
    forall i | 0 <= i < |xs| ensures NodeKept(xs[i], zs[i], ok) {
      assert NodeKept(xs[i], ys[i], ok) && NodeKept(ys[i], zs[i], ok);
    }
  }

  lemma CompatExpandPeerNodes(p: Port, n: nat, q: nat, d: Dir, f: Fmt)
    requires p.Valid() && n < |p.nodes| && q < |p.nodes| && f.channel > 0 && p.nodes[q].Enabled(Other(d))
    ensures
      var (p', ret) := CompatExpandPeer(p, n, q, d, f);
      p'.topo == p.topo && Kept(p.nodes, p'.nodes, ret == Ok)
  {
    var (p', ret) := CompatExpandPeer(p, n, q, d, f);
    var wider := f.Frame() > p.nodes[q].fs.Frame() && ret == Ok;
    var mid := ExpandFormats(p.nodes, n, q, d, f, wider);
    assert p'.nodes == ClearReconfigs(mid, n, q);
    ExpandFormatsKept(p.nodes, n, q, d, f, wider);
    ClearReconfigsKept(mid, n, q);
    KeptTrans(p.nodes, mid, p'.nodes, wider);
  }

  lemma CompatAloneNodes(p: Port, n: nat, d: Dir, f: Fmt)
    requires p.Valid() && n < |p.nodes| && f.channel > 0
    ensures
      var (p', ret) := CompatAlone(p, n, d, f);
      p'.topo == p.topo && Kept(p.nodes, p'.nodes, ret == Ok)
  {
    AloneFormatsKept(p.nodes, n, Paired(p.topo, d), d, f);
  }

  lemma CompatSameNodes(p: Port, n: nat, d: Dir, f: Fmt)
    requires p.Valid() && n < |p.nodes| && f.channel > 0
    ensures
      var (p', ret) := CompatSame(p, n, d, f);
      p'.topo == p.topo && Kept(p.nodes, p'.nodes, ret == Ok)
  {
    AloneFormatsKept(p.nodes, n, None, d, f);
  }

  /** Whatever check_fs_compatible decides, for any list of nodes and any driver failures:
      flags survive, no reconfig flag stays set to make later reads and writes drop their
      data, and an error leaves the bus format of every node alone. */
  lemma CompatErrorKeepsBus(p: Port, n: nat, d: Dir, f: Fmt)
    requires p.Valid() && n < |p.nodes| && f.channel > 0
    ensures
      var (p', ret) := CheckFsCompatible(p, n, d, f);
      p'.topo == p.topo && Kept(p.nodes, p'.nodes, ret == Ok)
  {
    match PathOf(p, d, f)
    case RateConflict =>
    case Alone => CompatAloneNodes(p, n, d, f);
    case Same => CompatSameNodes(p, n, d, f);
    case ExtendSelf =>
    case ExpandPeer => CompatExpandPeerNodes(p, n, Paired(p.topo, d).value, d, f);
  }

  /** The negotiation succeeded, and only the restart of the node's own channel failed. */
  predicate RestartFailed(p: Port, n: nat, d: Dir, f: Fmt)
    requires p.Valid() && n < |p.nodes| && f.channel > 0
  {
    var h := DrvEnable(Call(p.hw).0, p.topo[n].Has(d), d, false).0;
    CheckFsCompatible(p.(hw := h), n, d, f).1 == Ok
  }

  lemma SetFmtOneKeepsBus(p: Port, n: nat, d: Dir, f: Fmt)
    requires p.Valid() && n < |p.nodes| && f.channel > 0
    ensures
      var (p', ret) := SetFmtOne(p, n, d, f);
      p'.topo == p.topo && Kept(p.nodes, p'.nodes, ret == Ok || RestartFailed(p, n, d, f))
  {
    var has := p.topo[n].Has(d);
    var h1 := if has then Call(p.hw).0 else p.hw;
    CompatErrorKeepsBus(p.(hw := DrvEnable(h1, has, d, false).0), n, d, f);
  }

  lemma SetFmtBothKeepsBus(p: Port, n: nat, f: Fmt)
    requires p.Valid() && n < |p.nodes| && f.channel > 0
    ensures
      var (p', ret) := SetFmtBoth(p, n, f);
      p'.topo == p.topo && Kept(p.nodes, p'.nodes, ret == Ok)
  {
    var own := p.nodes[n := p.nodes[n].(fs := f, inFs := f, outFs := f)];
    OneNodeKept(p.nodes, n, own[n], true);
    var p' := SetFmtBoth(p, n, f).0;
    assert p'.nodes == p.nodes || p'.nodes == own;
  }

  lemma OneNodeKept(nodes: seq<Node>, n: nat, x: Node, ok: bool)
    requires n < |nodes| && NodeKept(nodes[n], x, ok)
    ensures Kept(nodes, nodes[n := x], ok)
  {
  }

  /** The same for set_fmt as a whole, for one direction or both: an error leaves every bus
      format and flag alone, unless it comes from restarting a channel after the new format
      was agreed on. */
  lemma SetFmtErrorKeepsBus(p: Port, n: nat, t: DevType, f: Fmt)
    requires p.Valid() && n < |p.nodes|
    ensures
      var (p', ret) := SetFmt(p, n, t, f);
      var d := if t == Out then Tx else Rx;
      var g := Normalized(f);
      && p'.topo == p.topo
      && Kept(p.nodes, p'.nodes, ret == Ok || (!t.InOut? && ValidFmt(g) && RestartFailed(p, n, d, g)))
  {
    var g := Normalized(f);
    if ValidFmt(g) {
      match t
      case InOut => SetFmtBothKeepsBus(p, n, g);
      case Out => SetFmtOneKeepsBus(p, n, Tx, g);
      case In => SetFmtOneKeepsBus(p, n, Rx, g);
    }
  }

  /** in_fs and out_fs are not restored like the bus format. After an error the channel
      format is the old one exactly when the path restores it (Alone, Same, RateConflict),
      or the overwriting value happens to be the old one: the peer's bus format on the
      extending path, the new format on the expanding one. */
  lemma ChannelFormatRestoredIff(p: Port, n: nat, d: Dir, f: Fmt)
    requires p.Valid() && n < |p.nodes| && f.channel > 0
    requires CheckFsCompatible(p, n, d, f).1 != Ok
    ensures CheckFsCompatible(p, n, d, f).0.nodes[n].ChannelFs(d) == p.nodes[n].ChannelFs(d) <==>
      match PathOf(p, d, f)
      case ExtendSelf => p.nodes[n].ChannelFs(d) == p.nodes[Paired(p.topo, d).value].fs
      case ExpandPeer => p.nodes[n].ChannelFs(d) == f
      case _ => true
  {
  }

  /** Such a failure: playback runs at 16 bits, recording asks for 32, and the driver call
      that should stop the playback channel fails. The record format has changed anyway. */
  lemma ExpandLosesChannelFormat()
    ensures
      var narrow := Fmt(16, 2, 3, 48000);
      var wide := Fmt(32, 2, 3, 48000);
      var node := Node(true, false, false, false, false, false, narrow, narrow, narrow);
      var hw := Hw(Chan(Std, true, 16, 2, 48000), Chan(Std, false, 16, 2, 48000), [false], 0);
      var (p', ret) := CheckFsCompatible(Port([Handles(true, true)], [node], hw), 0, Rx, wide);
      ret == DrvErr && p'.nodes[0].inFs == wide && p'.nodes[0].fs == narrow
  {
    var topo := [Handles(true, true)];
    assert PairedFrom(topo, 0, Rx, None) == PairedFrom(topo, 1, Rx, Some(0)) == Some(0);
  }
}

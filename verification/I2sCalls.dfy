/**
 What the outcome of a call of the I2S data interface means, whatever the driver does: what a
 success has programmed, and what a refusal leaves alone.
 */
module I2sCalls {
  import opened Arith
  import opened Common
  import opened I2sBus
  import opened I2sAgreement
  import I2sSafety

  // ---------------------------------------------------------------- missing handles and answers

  /** Without a handle nothing is asked of the driver, and the call fails. */
  lemma MissingHandleFails(p: Port, n: nat, d: Dir, on: bool, hw1: bool, f: Fmt, slotBits: nat)
    requires p.Valid() && n < |p.nodes| && !p.topo[n].Has(d) && f.channel > 0
    ensures DrvEnable(p.hw, false, d, on) == (p.hw, NotFound)
    ensures SetDrvFs(p.hw, false, d, slotBits, f) == (p.hw, DrvErr)
    ensures SetFmtOne(p, n, d, f) == (p, DrvErr) && SetFmtBoth(p, n, f).1 == DrvErr
    ensures SetFmtBoth(p, n, f).0 == p.(hw := SetFmtBoth(p, n, f).0.hw)
    ensures SetFmtBoth(p, n, f).0.hw.tx == p.hw.tx && SetFmtBoth(p, n, f).0.hw.rx == p.hw.rx
    ensures EnableBoth(p, n, on) == (p, DrvErr)
    ensures
      var (p', ret) := EnableOne(p, n, d, true, hw1);
      ret == NotFound && p'.hw == p.hw && p'.nodes == p.nodes[n := p.nodes[n].WithPending(d, false)]
  {
    assert p.nodes == p.nodes[n := p.nodes[n]];
  }

  /** The hardware after a call that the driver refuses. */
  function Refused(h: Hw): Hw
    requires h.fate != []
  {
    h.(fate := h.fate[1..])
  }

  /** The first thing that set_fmt, or an enable of both directions, asks is for information on
      a channel; when the driver does not answer, the call fails and changes nothing. */
  lemma NoAnswerChangesNothing(p: Port, n: nat, t: DevType, f: Fmt, on: bool)
    requires p.Valid() && n < |p.nodes| && ValidFmt(Normalized(f))
    requires p.hw.fate != [] && !p.hw.fate[0] && p.topo[n].tx && p.topo[n].rx
    ensures SetFmt(p, n, t, f) == (p.(hw := Refused(p.hw)), DrvErr)
    ensures EnableBoth(p, n, on) == (p.(hw := Refused(p.hw)), DrvErr)
  {
  }

  lemma SecondAnswerChangesNothing(p: Port, n: nat, f: Fmt, on: bool)
    requires p.Valid() && n < |p.nodes| && f.channel > 0
    requires |p.hw.fate| >= 2 && p.hw.fate[0] && !p.hw.fate[1] && p.topo[n].tx && p.topo[n].rx
    ensures SetFmtBoth(p, n, f) == (p.(hw := Refused(Refused(p.hw))), DrvErr)
    ensures EnableBoth(p, n, on) == (p.(hw := Refused(Refused(p.hw))), DrvErr)
  {
  }

  /** set_drv_fs succeeds exactly if the driver answers, the channel is stopped, and the driver
      takes the slots and the clock; slots that it refuses are as they were, and so is a rate.
      Asking for them on a channel that runs is refused, and counted as misuse. */
  lemma ProgrammingIsCounted(h: Hw, d: Dir, slotBits: nat, f: Fmt)
    ensures
      var (h', ret) := SetDrvFs(h, true, d, slotBits, f);
      var (h1, info) := Call(h);
      var (h2, slots) := Call(h1);
      var clock := Call(h2).1;
      && (ret == Ok <==> info && !h.Of(d).running && slots && clock)
      && (!info || h.Of(d).running || !slots ==> h'.Of(d) == h.Of(d))
      && h'.Of(d).rate == (if ret == Ok then f.rate else h.Of(d).rate)
      && h'.Of(Other(d)) == h.Of(Other(d))
      && h'.misuse == h.misuse + if info && h.Of(d).running then 1 else 0
  {
  }

  /** A set_fmt for both directions never starts a channel: it leaves each running exactly if it
      ran and its stop has not succeeded, whatever its flag says. */
  lemma SetFmtBothStops(p: Port, n: nat, f: Fmt)
    requires p.Valid() && n < |p.nodes| && f.channel > 0 && p.topo[n].tx && p.topo[n].rx
    ensures
      var h' := SetFmtBoth(p, n, f).0.hw;
      var (h1, txInfo) := Call(p.hw);
      var (h2, rxInfo) := Call(h1);
      var (h3, stopTx) := DrvEnable(h2, true, Tx, false);
      var stoppedTx := txInfo && rxInfo && stopTx == Ok;
      && h'.tx.running == (p.hw.tx.running && !stoppedTx)
      && h'.rx.running == (p.hw.rx.running && !(stoppedTx && DrvEnable(h3, true, Rx, false).1 == Ok))
  {
    var h2 := Call(Call(p.hw).0).0;
    I2sSafety.StoppedAfterDisable(h2, true, Tx, false);
    var (h3, stopTx) := DrvEnable(h2, true, Tx, false);
    I2sSafety.StoppedAfterDisable(h3, true, Rx, false);
    var (h4, stopRx) := DrvEnable(h3, true, Rx, false);
    if stopTx == Ok && stopRx == Ok {
      var own := p.nodes[n := p.nodes[n].(fs := f, inFs := f, outFs := f)];
      I2sSafety.SetFsSafe(p.topo, own, h4, n, Tx, true);
      I2sSafety.SetFsSafe(p.topo, own, SetFs(p.topo, own, h4, n, Tx, true).0, n, Rx, true);
    }
  }

  // ---------------------------------------------------------------- what a success has programmed

  /** A channel is left with the frame of `total` bits spread over the channels of `f`. */
  predicate Carries(c: Chan, total: nat, f: Fmt)
    requires f.channel > 0
  {
    Programmed(c, SpreadFrame(total, f.channel), f.channel, f.rate)
  }

  /** The peer TX update succeeds only with TX programmed, and running as it was before. */
  lemma UpdatePeerTxMeans(h: Hw, total: nat, f: Fmt)
    requires f.channel > 0 && f.channel % 2 == 0
    ensures
      var (h', ret) := UpdatePeerTx(h, U8(total) / f.channel, f);
      && h'.rx == h.rx && (!Call(h).1 ==> ret == DrvErr && h'.tx == h.tx)
      && (ret == Ok ==> Carries(h'.tx, total, f) && h'.tx.running == h.tx.running)
  {
    var bits := U8(total) / f.channel;
    SpreadFrameIsWholeIff(total, f.channel);
    I2sSafety.UpdatePeerTxSafe(h, bits, f);
    var (h1, info) := Call(h);
    I2sSafety.StoppedAfterDisable(h1, true, Tx, false);
    var (h2, stop) := DrvEnable(h1, true, Tx, false);
    if info && stop == Ok {
      SetDrvFsShapes(h2, true, Tx, bits, f);
      I2sSafety.SetDrvFsOnStopped(h2, true, Tx, bits, f);
      I2sSafety.StoppedAfterDisable(SetDrvFs(h2, true, Tx, bits, f).0, true, Tx, true);
    }
  }

  /** set_fs touches TX for RX only where the pair's TX is not in use. */
  predicate TouchesTx(topo: seq<Handles>, nodes: seq<Node>, d: Dir, skip: bool)
    requires |topo| == |nodes|
  {
    var q := Paired(topo, d);
    !skip && d == Rx && q.Some? && topo[q.value].tx && !nodes[q.value].outEnable
  }

  lemma SetFsMeans(topo: seq<Handles>, nodes: seq<Node>, h: Hw, n: nat, d: Dir, skip: bool)
    requires |topo| == |nodes| && n < |nodes| && !h.Of(d).running
    requires nodes[n].ChannelFs(d).channel > 0 && nodes[n].ChannelFs(d).channel % 2 == 0
    ensures
      var (h', ret) := SetFs(topo, nodes, h, n, d, skip);
      var f, total := nodes[n].ChannelFs(d), nodes[n].fs.Frame();
      && !h'.Of(d).running && (ret == Ok ==> Carries(h'.Of(d), total, f))
      && (!TouchesTx(topo, nodes, d, skip) ==> h'.Of(Other(d)) == h.Of(Other(d)))
      && (TouchesTx(topo, nodes, d, skip) && ret == Ok ==> Carries(h'.tx, total, f) && h'.tx.running == h.tx.running)
  {
    var f, total := nodes[n].ChannelFs(d), nodes[n].fs.Frame();
    SetFsShapes(topo, nodes, h, n, d);
    var (h1, ret) := SetFs(topo, nodes, h, n, d, true);
    if TouchesTx(topo, nodes, d, skip) && ret == Ok {
      UpdatePeerTxMeans(h1, total, f);
      assert SetFs(topo, nodes, h, n, d, skip) == UpdatePeerTx(h1, U8(total) / f.channel, f);
    } else {
      assert SetFs(topo, nodes, h, n, d, skip) == (h1, ret);
    }
  }

  /** Widening succeeds only with both channels programmed and the peer running again. */
  lemma ExpandHwMeans(topo: seq<Handles>, nodes: seq<Node>, h: Hw, n: nat, q: nat, d: Dir)
    requires |topo| == |nodes| && n < |nodes| && Paired(topo, d) == Some(q) && nodes[q].Enabled(Other(d))
    requires !h.Of(d).running
    requires nodes[n].ChannelFs(d).channel > 0 && nodes[n].ChannelFs(d).channel % 2 == 0
    requires nodes[q].ChannelFs(Other(d)).channel > 0 && nodes[q].ChannelFs(Other(d)).channel % 2 == 0
    ensures
      var (h', ret) := ExpandHw(topo, nodes, h, n, q, d);
      && !h'.Of(d).running
      && (ret == Ok ==>
            && Carries(h'.Of(d), nodes[n].fs.Frame(), nodes[n].ChannelFs(d))
            && Carries(h'.Of(Other(d)), nodes[q].fs.Frame(), nodes[q].ChannelFs(Other(d)))
            && h'.Of(Other(d)).running)
  {
    var has := topo[q].Has(Other(d));
    I2sSafety.StoppedAfterDisable(h, has, Other(d), false);
    var (h1, stop) := DrvEnable(h, has, Other(d), false);
    if stop == Ok {
      SetFsMeans(topo, nodes, h1, n, d, false);
      var (h2, own) := SetFs(topo, nodes, h1, n, d, false);
      if own == Ok {
        SetFsMeans(topo, nodes, h2, q, Other(d), true);
        I2sSafety.StoppedAfterDisable(SetFs(topo, nodes, h2, q, Other(d), true).0, has, Other(d), true);
      }
    }
  }

  /** How many bits the frame of direction `d` has after a negotiation: those of its format,
      unless it fits itself into the frame of its active peer. */
  function FrameAgreed(p: Port, n: nat, d: Dir, f: Fmt): nat
    requires p.Valid() && n < |p.nodes|
  {
    match PathOf(p, d, f)
    case ExtendSelf => p.nodes[Paired(p.topo, d).value].fs.Frame()
    case ExpandPeer =>
      if f.Frame() > p.nodes[Paired(p.topo, d).value].fs.Frame() then f.Frame() else p.nodes[n].fs.Frame()
    case _ => f.Frame()
  }

  /** The format of an active peer. */
  predicate EvenPeer(p: Port, d: Dir)
    requires p.Valid()
  {
    var q := Paired(p.topo, d);
    q.Some? && p.nodes[q.value].Enabled(Other(d)) ==> p.nodes[q.value].ChannelFs(Other(d)).channel % 2 == 0
  }

  lemma DirectMeans(p: Port, n: nat, q: Option<nat>, d: Dir, f: Fmt)
    requires p.Valid() && n < |p.nodes| && (q.Some? ==> q.value < |p.nodes|) && ValidFmt(f) && !p.hw.Of(d).running
    ensures AloneFormats(p.nodes, n, q, d, f)[n].ChannelFs(d) == f
    ensures
      var nodes := AloneFormats(p.nodes, n, q, d, f);
      var (h, ret) := SetFs(p.topo, nodes, p.hw, n, d, false);
      !h.Of(d).running && nodes[n].fs == f && (ret == Ok ==> Carries(h.Of(d), f.Frame(), f))
  {
    var nodes := AloneFormats(p.nodes, n, q, d, f);
    AloneFormatsAt(p.nodes, n, q, d, f);
    assert nodes[n] == p.nodes[n].(fs := f).WithChannelFs(d, f);
    SetFsMeans(p.topo, nodes, p.hw, n, d, false);
  }

  lemma ExtendSelfMeans(p: Port, n: nat, q: nat, d: Dir, f: Fmt)
    requires p.Valid() && n < |p.nodes| && q < |p.nodes| && ValidFmt(f) && !p.hw.Of(d).running
    requires p.nodes[q].fs.Frame() < 256
    ensures
      var (p', ret) := CompatExtendSelf(p, n, q, d, f);
      !p'.hw.Of(d).running && (ret == Ok ==> Carries(p'.hw.Of(d), p.nodes[q].fs.Frame(), f))
  {
    var total := p.nodes[q].fs.Frame();
    SpreadFrameIsWholeIff(total, f.channel);
    QuotientIsLess(total, f.channel);
    SetDrvFsShapes(p.hw, p.topo[n].Has(d), d, total / f.channel, f);
    I2sSafety.SetDrvFsOnStopped(p.hw, p.topo[n].Has(d), d, total / f.channel, f);
  }

  lemma QuotientIsLess(total: nat, ch: nat)
    requires total < 256 && ch > 0
    ensures U8(total / ch) == total / ch && total / ch * ch <= total
  {
    assert total == total / ch * ch + total % ch;
    Monotone(1, ch, total / ch);
  }

  lemma ExpandPeerMeans(p: Port, n: nat, q: nat, d: Dir, f: Fmt)
    requires p.Valid() && n < |p.nodes| && Paired(p.topo, d) == Some(q) && ValidFmt(f) && !p.hw.Of(d).running
    requires p.nodes[q].Enabled(Other(d)) && p.nodes[q].ChannelFs(Other(d)).channel % 2 == 0
    ensures
      var (p', ret) := CompatExpandPeer(p, n, q, d, f);
      var wider := f.Frame() > p.nodes[q].fs.Frame();
      var peer := p.nodes[q].ChannelFs(Other(d));
      && !p'.hw.Of(d).running && peer.channel > 0
      && (ret == Ok ==> Carries(p'.hw.Of(d), if wider then f.Frame() else p.nodes[n].fs.Frame(), f))
      && (ret == Ok && wider ==> Carries(p'.hw.Of(Other(d)), f.Frame(), peer) && p'.hw.Of(Other(d)).running)
      && (!wider ==> p'.hw.Of(Other(d)) == p.hw.Of(Other(d)))
  {
    var wider := f.Frame() > p.nodes[q].fs.Frame();
    var nodes := ExpandFormats(p.nodes, n, q, d, f, wider);
    if wider {
      ExpandFormatsAt(p.nodes, n, q, d, f);
      ExpandHwMeans(p.topo, nodes, p.hw, n, q, d);
    } else {
      OwnFormatAt(p.nodes, n, q, d, f);
      SetFsMeans(p.topo, nodes, p.hw, n, d, false);
    }
  }

  /** Whatever the driver does, a negotiation that succeeds has programmed the direction's
      channel with the frame agreed on, and one that widens the frame has programmed the
      peer's with it, too, which runs. */
  lemma NegotiationMeans(p: Port, n: nat, d: Dir, f: Fmt)
    requires p.Valid() && n < |p.nodes| && ValidFmt(f) && EvenPeer(p, d) && !p.hw.Of(d).running
    requires FrameAgreed(p, n, d, f) < 256
    ensures
      var (p', ret) := CheckFsCompatible(p, n, d, f);
      && !p'.hw.Of(d).running && (ret == Ok ==> Carries(p'.hw.Of(d), FrameAgreed(p, n, d, f), f))
      && (ret == Ok && PathOf(p, d, f) == ExpandPeer && f.Frame() > p.nodes[Paired(p.topo, d).value].fs.Frame() ==>
            var q := Paired(p.topo, d).value;
            && p.nodes[q].ChannelFs(Other(d)).channel > 0 && p'.hw.Of(Other(d)).running
            && Carries(p'.hw.Of(Other(d)), f.Frame(), p.nodes[q].ChannelFs(Other(d))))
  {
    var q := Paired(p.topo, d);
    match PathOf(p, d, f)
    case RateConflict =>
    case Alone => DirectMeans(p, n, q, d, f);
    case Same => DirectMeans(p, n, None, d, f);
    case ExtendSelf => ExtendSelfMeans(p, n, q.value, d, f);
    case ExpandPeer => ExpandPeerMeans(p, n, q.value, d, f);
  }

  /** So has a set_fmt for one direction that succeeds; the channel then runs exactly if it ran
      before and the node has a pair: otherwise it is not started again. */
  lemma SetFmtMeans(p: Port, n: nat, d: Dir, f: Fmt)
    requires p.Valid() && n < |p.nodes| && ValidFmt(f) && EvenPeer(p, d) && FrameAgreed(p, n, d, f) < 256
    ensures
      var (p', ret) := SetFmtOne(p, n, d, f);
      ret == Ok ==>
        && Carries(p'.hw.Of(d), FrameAgreed(p, n, d, f), f)
        && p'.hw.Of(d).running == (p.hw.Of(d).running && Paired(p.topo, d).Some?)
  {
    if p.topo[n].Has(d) {
      var (h1, info) := Call(p.hw);
      I2sSafety.StoppedAfterDisable(h1, true, d, false);
      var (h2, stop) := DrvEnable(h1, true, d, false);
      if info && stop == Ok {
        var p2 := p.(hw := h2);
        assert PathOf(p2, d, f) == PathOf(p, d, f);
        NegotiationMeans(p2, n, d, f);
        I2sSafety.StoppedAfterDisable(CheckFsCompatible(p2, n, d, f).0.hw, true, d, true);
      }
    }
  }

  /** A set_fmt whose stop fails has changed nothing, and one that fails later has left the
      channel stopped. */
  lemma FailedSetFmtStops(p: Port, n: nat, d: Dir, f: Fmt)
    requires p.Valid() && n < |p.nodes| && f.channel > 0 && p.topo[n].Has(d)
    ensures
      var (p', ret) := SetFmtOne(p, n, d, f);
      var (h1, info) := Call(p.hw);
      var (h2, stop) := DrvEnable(h1, true, d, false);
      && (!info || stop != Ok ==> ret == (if info then stop else DrvErr) && p' == p.(hw := if info then h2 else h1)
                                  && p'.hw.tx == p.hw.tx && p'.hw.rx == p.hw.rx)
      && (info && stop == Ok && ret != Ok ==> !p'.hw.Of(d).running)
  {
    var (h1, info) := Call(p.hw);
    I2sSafety.StoppedAfterDisable(h1, true, d, false);
    var (h2, stop) := DrvEnable(h1, true, d, false);
    if info && stop == Ok {
      StaysStopped(p.(hw := h2), n, d, f);
      I2sSafety.StoppedAfterDisable(CheckFsCompatible(p.(hw := h2), n, d, f).0.hw, true, d, true);
    }
  }

  lemma StaysStopped(p: Port, n: nat, d: Dir, f: Fmt)
    requires p.Valid() && n < |p.nodes| && f.channel > 0 && !p.hw.Of(d).running
    ensures !CheckFsCompatible(p, n, d, f).0.hw.Of(d).running
  {
    var q := Paired(p.topo, d);
    match PathOf(p, d, f)
    case RateConflict =>
    case Alone => I2sSafety.SetFsSafe(p.topo, AloneFormats(p.nodes, n, q, d, f), p.hw, n, d, false);
    case Same => I2sSafety.SetFsSafe(p.topo, AloneFormats(p.nodes, n, None, d, f), p.hw, n, d, false);
    case ExtendSelf =>
      I2sSafety.SetDrvFsOnStopped(p.hw, p.topo[n].Has(d), d, U8(p.nodes[q.value].fs.Frame() / f.channel), f);
    case ExpandPeer => ExpandStaysStopped(p, n, q.value, d, f);
  }

  lemma ExpandStaysStopped(p: Port, n: nat, q: nat, d: Dir, f: Fmt)
    requires p.Valid() && n < |p.nodes| && f.channel > 0 && !p.hw.Of(d).running
    requires Paired(p.topo, d) == Some(q) && p.nodes[q].Enabled(Other(d))
    ensures !CompatExpandPeer(p, n, q, d, f).0.hw.Of(d).running
  {
    var wider := f.Frame() > p.nodes[q].fs.Frame();
    var nodes := ExpandFormats(p.nodes, n, q, d, f, wider);
    if wider {
      var has := p.topo[q].Has(Other(d));
      I2sSafety.StoppedAfterDisable(p.hw, has, Other(d), false);
      var (h1, stop) := DrvEnable(p.hw, has, Other(d), false);
      if stop == Ok {
        I2sSafety.SetFsSafe(p.topo, nodes, h1, n, d, false);
        var h2 := SetFs(p.topo, nodes, h1, n, d, false).0;
        I2sSafety.SetFsSafe(p.topo, nodes, h2, q, Other(d), true);
        I2sSafety.StoppedAfterDisable(SetFs(p.topo, nodes, h2, q, Other(d), true).0, has, Other(d), true);
      }
    } else {
      I2sSafety.SetFsSafe(p.topo, nodes, p.hw, n, d, false);
    }
  }

  // ---------------------------------------------------------------- what is recorded

  /** A negotiation that succeeds records the format as that of the channel, and as that of the
      bus where it is programmed as it is or widens the frame: on both nodes where they did not
      share the format already. The widening path leaves no reconfig flag set. */
  lemma NegotiationRecords(p: Port, n: nat, d: Dir, f: Fmt)
    requires p.Valid() && n < |p.nodes| && f.channel > 0
    ensures
      var (p', ret) := CheckFsCompatible(p, n, d, f);
      var path, q := PathOf(p, d, f), Paired(p.topo, d);
      && |p'.nodes| == |p.nodes|
      && (ret == Ok ==> p'.nodes[n].ChannelFs(d) == f)
      && (ret == Ok && (path == Alone || path == Same) ==> p'.nodes[n].fs == f)
      && (ret == Ok && path == Alone && q.Some? ==> p'.nodes[q.value].fs == f)
      && (path == ExpandPeer ==>
            && NoReconfig(p'.nodes[n]) && NoReconfig(p'.nodes[q.value])
            && (ret == Ok && f.Frame() > p.nodes[q.value].fs.Frame() ==>
                  p'.nodes[n].fs == f && p'.nodes[q.value].fs == f))
  {
    var q := Paired(p.topo, d);
    match PathOf(p, d, f)
    case RateConflict =>
    case Alone => AloneFormatsRecord(p.nodes, n, q, d, f);
    case Same => AloneFormatsRecord(p.nodes, n, None, d, f);
    case ExtendSelf =>
    case ExpandPeer =>
      ExpandFormatsAt(p.nodes, n, q.value, d, f);
      OwnFormatAt(p.nodes, n, q.value, d, f);
      ClearedFlags(ExpandFormats(p.nodes, n, q.value, d, f, true), n, q.value);
      ClearedFlags(ExpandFormats(p.nodes, n, q.value, d, f, false), n, q.value);
  }

  /** A format that the active peer runs already is recorded as that of the channel and of the
      node's bus, and nothing else is, under any failures; a failure records nothing. */
  lemma EqualFormatIsRecorded(p: Port, n: nat, d: Dir, f: Fmt)
    requires p.Valid() && n < |p.nodes| && f.channel > 0
    requires
      var q := Paired(p.topo, d);
      q.Some? && p.nodes[q.value].Enabled(Other(d)) && SameFormat(f, p.nodes[q.value].fs)
    ensures
      var (p', ret) := CheckFsCompatible(p, n, d, f);
      p'.nodes == if ret == Ok then p.nodes[n := p.nodes[n].(fs := f).WithChannelFs(d, f)] else p.nodes
  {
  }

  predicate NoReconfig(x: Node) { !x.outReconfig && !x.inReconfig }

  lemma AloneFormatsRecord(nodes: seq<Node>, n: nat, q: Option<nat>, d: Dir, f: Fmt)
    requires n < |nodes| && (q.Some? ==> q.value < |nodes|)
    ensures
      var r := AloneFormats(nodes, n, q, d, f);
      r[n].fs == f && r[n].ChannelFs(d) == f && (q.Some? ==> r[q.value].fs == f)
  {
    var r := AloneFormats(nodes, n, q, d, f);
    assert r[n] == nodes[n].(fs := f).WithChannelFs(d, f);
  }

  lemma ClearedFlags(nodes: seq<Node>, n: nat, q: nat)
    requires n < |nodes| && q < |nodes|
    ensures
      var r := ClearReconfigs(nodes, n, q);
      NoReconfig(r[n]) && NoReconfig(r[q])
  {
  }
}

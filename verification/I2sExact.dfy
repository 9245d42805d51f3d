/**
 The premises of the shared clock are exact: which formats share a frame on each path of the
 negotiation, and which orders of calls end with one clock.
 */
module I2sExact {
  import opened Common
  import opened I2sBus
  import opened I2sAgreement
  import I2sSafety

  // ---------------------------------------------------------------- one path at a time

  lemma RemainderOfSpread(total: nat, ch: nat)
    requires ch > 0
    ensures SpreadFrame(total, ch) == U8(total) - U8(total) % ch
  {
    assert U8(total) == U8(total) / ch * ch + U8(total) % ch;
  }

  /** One width spread over two channel counts. */
  lemma SpreadAlikeIff(total: nat, a: nat, b: nat)
    requires a > 0 && b > 0
    ensures SpreadFrame(total, a) == SpreadFrame(total, b) <==> U8(total) % a == U8(total) % b
    ensures total < 256 && total % a == 0 ==> (U8(total) % a == U8(total) % b <==> total % b == 0)
  {
    RemainderOfSpread(total, a);
    RemainderOfSpread(total, b);
  }

  /** A direction that is alone gets the bus frame exactly when this has less than 256 bits. */
  lemma AloneProgrammesFrameIff(p: Port, d: Dir, t: nat, r: nat, f: Fmt)
    requires Inv(p, t, r) && ValidFmt(f) && !p.hw.Of(d).running && PathOf(p, d, f) == Alone
    ensures
      var (p', ret) := CompatAlone(p, NodeOf(d, t, r), d, f);
      && ret == Ok && |p'.nodes| == |p.nodes| && p'.nodes[NodeOf(d, t, r)].fs == f
      && (p'.hw.Of(d).Frame() == f.Frame() <==> f.Frame() < 256)
  {
    var n, q := NodeOf(d, t, r), NodeOf(Other(d), t, r);
    FrameDividesByChannel(f);
    SetFsSpreads(p.topo, AloneFormats(p.nodes, n, Some(q), d, f), p.hw, n, d, false);
    SpreadFrameIsWholeIff(f.Frame(), f.channel);
  }

  /** What widening the peer programs, for any wider frame. */
  lemma ExpandHwSpreads(topo: seq<Handles>, nodes: seq<Node>, h: Hw, n: nat, q: nat, d: Dir)
    requires |topo| == |nodes| && n < |nodes| && topo[n].Has(d)
    requires Paired(topo, d) == Some(q) && topo[q].Has(Other(d)) && nodes[q].Enabled(Other(d))
    requires h.fate == [] && !h.Of(d).running && h.Of(Other(d)).running
    requires nodes[n].ChannelFs(d).channel > 0 && nodes[n].ChannelFs(d).channel % 2 == 0
    requires nodes[q].ChannelFs(Other(d)).channel > 0 && nodes[q].ChannelFs(Other(d)).channel % 2 == 0
    ensures
      var (h', ret) := ExpandHw(topo, nodes, h, n, q, d);
      var own, peer := nodes[n], nodes[q];
      && ret == Ok && h'.fate == [] && !h'.Of(d).running && h'.Of(Other(d)).running
      && Programmed(h'.Of(d), SpreadFrame(own.fs.Frame(), own.ChannelFs(d).channel), own.ChannelFs(d).channel,
                    own.ChannelFs(d).rate)
      && Programmed(h'.Of(Other(d)), SpreadFrame(peer.fs.Frame(), peer.ChannelFs(Other(d)).channel),
                    peer.ChannelFs(Other(d)).channel, peer.ChannelFs(Other(d)).rate)
  {
    var h1 := DrvEnable(h, true, Other(d), false).0;
    SetFsSpreads(topo, nodes, h1, n, d, false);
    var h2 := SetFs(topo, nodes, h1, n, d, false).0;
    SetFsSpreads(topo, nodes, h2, q, Other(d), true);
    var h3 := SetFs(topo, nodes, h2, q, Other(d), true).0;
    assert ExpandHw(topo, nodes, h, n, q, d) == DrvEnable(h3, true, Other(d), true);
  }

  /** A wider format is spread over both channels, each with its own count. */
  lemma WiderSpreads(p: Port, d: Dir, t: nat, r: nat, f: Fmt)
    requires Inv(p, t, r) && ValidFmt(f) && !p.hw.Of(d).running && PathOf(p, d, f) == ExpandPeer
    requires f.Frame() > p.nodes[NodeOf(Other(d), t, r)].fs.Frame()
    ensures
      var n, q := NodeOf(d, t, r), NodeOf(Other(d), t, r);
      var (p', ret) := CompatExpandPeer(p, n, q, d, f);
      var peer := p.nodes[q].ChannelFs(Other(d));
      && ret == Ok && peer.channel > 0 && p'.hw.fate == []
      && !p'.hw.Of(d).running && p'.hw.Of(Other(d)).running
      && Programmed(p'.hw.Of(d), SpreadFrame(f.Frame(), f.channel), f.channel, f.rate)
      && Programmed(p'.hw.Of(Other(d)), SpreadFrame(f.Frame(), peer.channel), peer.channel, peer.rate)
  {
    var n, q := NodeOf(d, t, r), NodeOf(Other(d), t, r);
    var nodes := ExpandFormats(p.nodes, n, q, d, f, true);
    ExpandFormatsAt(p.nodes, n, q, d, f);
    ExpandHwSpreads(p.topo, nodes, p.hw, n, q, d);
    var (h, ret) := ExpandHw(p.topo, nodes, p.hw, n, q, d);
    assert CompatExpandPeer(p, n, q, d, f) == (p.(nodes := ClearReconfigs(nodes, n, q), hw := h), Ok);
  }

  /** A wider format shares the new frame with the peer exactly when both channel counts leave
      the same remainder of its eight-bit width: under 256 bits, when the peer's divides it. */
  lemma WiderSharesFrameIff(p: Port, d: Dir, t: nat, r: nat, f: Fmt)
    requires Inv(p, t, r) && ValidFmt(f) && !p.hw.Of(d).running && PathOf(p, d, f) == ExpandPeer
    requires f.Frame() > p.nodes[NodeOf(Other(d), t, r)].fs.Frame()
    ensures p.nodes[NodeOf(Other(d), t, r)].ChannelFs(Other(d)).channel > 0
    ensures
      var (p', ret) := CompatExpandPeer(p, NodeOf(d, t, r), NodeOf(Other(d), t, r), d, f);
      var share := p'.hw.Of(d).Frame() == p'.hw.Of(Other(d)).Frame();
      var peer := p.nodes[NodeOf(Other(d), t, r)].ChannelFs(Other(d)).channel;
      && ret == Ok
      && (share <==> U8(f.Frame()) % f.channel == U8(f.Frame()) % peer)
      && (f.Frame() < 256 ==> (share <==> f.Frame() % peer == 0))
  {
    WiderSpreads(p, d, t, r, f);
    SpreadAlikeIff(f.Frame(), f.channel, p.nodes[NodeOf(Other(d), t, r)].ChannelFs(Other(d)).channel);
    FrameDividesByChannel(f);
  }

  // ---------------------------------------------------------------- opens that interleave

  /** Neither direction is in use, and both channels are stopped. */
  predicate Quiet(p: Port, t: nat, r: nat) {
    && p.Valid() && Peers(p.topo, t, r) && p.hw.fate == []
    && !p.nodes[t].outEnable && !p.nodes[r].inEnable && !p.hw.tx.running && !p.hw.rx.running
  }

  /** A format set while all is quiet is programmed; from RX the TX channel follows. */
  lemma QuietSetFmt(p: Port, t: nat, r: nat, d: Dir, f: Fmt)
    requires Quiet(p, t, r) && ValidFmt(f)
    ensures
      var (p', ret) := SetFmtOne(p, NodeOf(d, t, r), d, f);
      var frame := SpreadFrame(f.Frame(), f.channel);
      && ret == Ok && Quiet(p', t, r) && p'.topo == p.topo && p'.nodes[NodeOf(d, t, r)].ChannelFs(d) == f
      && Programmed(p'.hw.Of(d), frame, f.channel, f.rate)
      && if d == Rx then Programmed(p'.hw.tx, frame, f.channel, f.rate) else p'.hw.rx == p.hw.rx
  {
    var n, q := NodeOf(d, t, r), NodeOf(Other(d), t, r);
    assert DrvEnable(p.hw, true, d, false) == (p.hw, Ok);
    I2sSafety.CompatErrorKeepsBus(p, n, d, f);
    AloneFormatsAt(p.nodes, n, Some(q), d, f);
    QuietAlone(p, t, r, d, f);
    assert SetFmtOne(p, n, d, f) == CompatAlone(p, n, d, f);
  }

  lemma QuietAlone(p: Port, t: nat, r: nat, d: Dir, f: Fmt)
    requires Quiet(p, t, r) && ValidFmt(f)
    ensures
      var (p', ret) := CompatAlone(p, NodeOf(d, t, r), d, f);
      var frame := SpreadFrame(f.Frame(), f.channel);
      && ret == Ok && p'.hw.fate == [] && !p'.hw.tx.running && !p'.hw.rx.running
      && Programmed(p'.hw.Of(d), frame, f.channel, f.rate)
      && if d == Rx then Programmed(p'.hw.tx, frame, f.channel, f.rate) else p'.hw.rx == p.hw.rx
  {
    var n, q := NodeOf(d, t, r), NodeOf(Other(d), t, r);
    SetFsSpreads(p.topo, AloneFormats(p.nodes, n, Some(q), d, f), p.hw, n, d, false);
  }

  /** Both formats, that of `d` first, and then both enables, that of `e` first. */
  function SetInTurn(p: Port, t: nat, r: nat, d: Dir, f: Fmt, g: Fmt): (p': Port)
    requires Quiet(p, t, r) && ValidFmt(f) && ValidFmt(g)
    ensures Quiet(p', t, r)
  {
    QuietSetFmt(p, t, r, d, f);
    var p1 := SetFmtOne(p, NodeOf(d, t, r), d, f).0;
    QuietSetFmt(p1, t, r, Other(d), g);
    SetFmtOne(p1, NodeOf(Other(d), t, r), Other(d), g).0
  }

  function EnableInTurn(p: Port, t: nat, r: nat, e: Dir, hw1: bool): Port
    requires |p.topo| == |p.nodes| && t < |p.nodes| && r < |p.nodes|
  {
    var p1 := EnableOne(p, NodeOf(e, t, r), e, true, hw1).0;
    EnableOne(p1, NodeOf(Other(e), t, r), Other(e), true, hw1).0
  }

  /** Both directions run, with one rate and one frame. */
  predicate Agree(p: Port) {
    p.hw.tx.running && p.hw.rx.running && p.hw.tx.rate == p.hw.rx.rate && p.hw.tx.Frame() == p.hw.rx.Frame()
  }

  lemma EnablesKeepProgramming(p: Port, t: nat, r: nat, e: Dir, hw1: bool)
    requires Quiet(p, t, r)
    ensures
      var p' := EnableInTurn(p, t, r, e, hw1);
      && |p'.nodes| == |p.nodes| && p'.nodes[t].outEnable && p'.nodes[r].inEnable
      && p'.hw.tx == p.hw.tx.(running := true) && p'.hw.rx == p.hw.rx.(running := true)
  {
    var (p1, ret) := EnableOne(p, NodeOf(e, t, r), e, true, hw1);
    assert ret == Ok && p1.hw == p.hw.With(e, p.hw.Of(e).(running := true));
  }

  /** When both formats are set before either direction is enabled, that of TX last, the two
      run together if and only if the formats have one rate and are spread to one frame. */
  lemma RxThenTxAgreesIff(p: Port, t: nat, r: nat, f: Fmt, g: Fmt, e: Dir, hw1: bool)
    requires Quiet(p, t, r) && ValidFmt(f) && ValidFmt(g)
    ensures
      var p' := EnableInTurn(SetInTurn(p, t, r, Rx, f, g), t, r, e, hw1);
      && |p'.nodes| == |p.nodes| && p'.nodes[t].outEnable && p'.nodes[r].inEnable
      && (Agree(p') <==> f.rate == g.rate && SpreadFrame(f.Frame(), f.channel) == SpreadFrame(g.Frame(), g.channel))
      && (f.Frame() < 256 && g.Frame() < 256 ==> (Agree(p') <==> f.rate == g.rate && f.Frame() == g.Frame()))
  {
    QuietSetFmt(p, t, r, Rx, f);
    var p1 := SetFmtOne(p, r, Rx, f).0;
    QuietSetFmt(p1, t, r, Tx, g);
    EnablesKeepProgramming(SetInTurn(p, t, r, Rx, f, g), t, r, e, hw1);
    FrameDividesByChannel(f);
    FrameDividesByChannel(g);
    SpreadFrameIsWholeIff(f.Frame(), f.channel);
    SpreadFrameIsWholeIff(g.Frame(), g.channel);
  }

  /** With the format of RX last they always do: the TX channel follows. */
  lemma TxThenRxAgrees(p: Port, t: nat, r: nat, f: Fmt, g: Fmt, e: Dir, hw1: bool)
    requires Quiet(p, t, r) && ValidFmt(f) && ValidFmt(g)
    ensures
      var p' := EnableInTurn(SetInTurn(p, t, r, Tx, f, g), t, r, e, hw1);
      && |p'.nodes| == |p.nodes| && p'.nodes[t].outEnable && p'.nodes[r].inEnable && Agree(p')
      && p'.hw.tx.rate == g.rate && p'.hw.tx.Frame() == SpreadFrame(g.Frame(), g.channel)
  {
    QuietSetFmt(p, t, r, Tx, f);
    var p1 := SetFmtOne(p, t, Tx, f).0;
    QuietSetFmt(p1, t, r, Rx, g);
    EnablesKeepProgramming(SetInTurn(p, t, r, Tx, f, g), t, r, e, hw1);
  }

  // ---------------------------------------------------------------- the next open

  /** What it takes for format `f` to share the frame of the running peer. */
  predicate SharesFrame(p: Port, d: Dir, t: nat, r: nat, f: Fmt)
    requires t < |p.nodes| && r < |p.nodes| && f.channel > 0
    requires p.nodes[NodeOf(Other(d), t, r)].ChannelFs(Other(d)).channel > 0
  {
    var peer := p.nodes[NodeOf(Other(d), t, r)];
    if f.Frame() < peer.fs.Frame() then peer.fs.Frame() % f.channel == 0
    else if f.Frame() > peer.fs.Frame() then
      U8(f.Frame()) % f.channel == U8(f.Frame()) % peer.ChannelFs(Other(d)).channel
    else true
  }

  /** What the negotiation of direction `d` does beside an active peer of the same rate. */
  predicate Shared(p: Port, p': Port, ret: Ret, d: Dir, t: nat, r: nat, f: Fmt)
    requires t < |p.nodes| && r < |p.nodes| && f.channel > 0
    requires p.nodes[NodeOf(Other(d), t, r)].ChannelFs(Other(d)).channel > 0
  {
    && ret == Ok && p'.hw.fate == [] && !p'.hw.Of(d).running && p'.hw.Of(Other(d)).running
    && p'.hw.Of(d).rate == f.rate && p'.hw.Of(Other(d)).rate == f.rate
    && (p'.hw.Of(d).Frame() == p'.hw.Of(Other(d)).Frame() <==> SharesFrame(p, d, t, r, f))
  }

  /** The peer is in use, the direction itself is not, and the rates agree. */
  predicate Joining(p: Port, d: Dir, t: nat, r: nat, f: Fmt) {
    && Inv(p, t, r) && ValidFmt(f)
    && p.nodes[NodeOf(Other(d), t, r)].Enabled(Other(d)) && !p.nodes[NodeOf(d, t, r)].Enabled(d)
    && f.rate == p.nodes[NodeOf(Other(d), t, r)].fs.rate
  }

  lemma SameShares(p: Port, d: Dir, t: nat, r: nat, f: Fmt)
    requires Joining(p, d, t, r, f) && !p.hw.Of(d).running && PathOf(p, d, f) == Same
    ensures
      var (p', ret) := CompatSame(p, NodeOf(d, t, r), d, f);
      Shared(p, p', ret, d, t, r, f)
  {
    var n := NodeOf(d, t, r);
    FrameDividesByChannel(f);
    AloneFormatsAt(p.nodes, n, None, d, f);
    SetFsProgrammes(p.topo, AloneFormats(p.nodes, n, None, d, f), p.hw, n, d, false);
  }

  lemma ExtendSelfShares(p: Port, d: Dir, t: nat, r: nat, f: Fmt)
    requires Joining(p, d, t, r, f) && !p.hw.Of(d).running && PathOf(p, d, f) == ExtendSelf
    ensures
      var (p', ret) := CompatExtendSelf(p, NodeOf(d, t, r), NodeOf(Other(d), t, r), d, f);
      Shared(p, p', ret, d, t, r, f)
  {
    var total := p.nodes[NodeOf(Other(d), t, r)].fs.Frame();
    var bits := ExtendSelfProgrammes(p, NodeOf(d, t, r), NodeOf(Other(d), t, r), d, f, total);
    ExtendSelfSharesFrameIff(p, d, t, r, f);
  }

  lemma EqualFrameShares(p: Port, d: Dir, t: nat, r: nat, f: Fmt)
    requires Joining(p, d, t, r, f) && !p.hw.Of(d).running && PathOf(p, d, f) == ExpandPeer
    requires f.Frame() == p.nodes[NodeOf(Other(d), t, r)].fs.Frame()
    ensures
      var (p', ret) := CompatExpandPeer(p, NodeOf(d, t, r), NodeOf(Other(d), t, r), d, f);
      Shared(p, p', ret, d, t, r, f)
  {
    var n, q := NodeOf(d, t, r), NodeOf(Other(d), t, r);
    var nodes := ExpandFormats(p.nodes, n, q, d, f, false);
    FrameDividesByChannel(f);
    OwnFormatAt(p.nodes, n, q, d, f);
    SetFsProgrammes(p.topo, nodes, p.hw, n, d, false);
    var h := SetFs(p.topo, nodes, p.hw, n, d, false).0;
    assert CompatExpandPeer(p, n, q, d, f) == (p.(nodes := ClearReconfigs(nodes, n, q), hw := h), Ok);
  }

  lemma WiderShares(p: Port, d: Dir, t: nat, r: nat, f: Fmt)
    requires Joining(p, d, t, r, f) && !p.hw.Of(d).running && PathOf(p, d, f) == ExpandPeer
    requires f.Frame() > p.nodes[NodeOf(Other(d), t, r)].fs.Frame()
    ensures
      var (p', ret) := CompatExpandPeer(p, NodeOf(d, t, r), NodeOf(Other(d), t, r), d, f);
      Shared(p, p', ret, d, t, r, f)
  {
    WiderSpreads(p, d, t, r, f);
    SpreadAlikeIff(f.Frame(), f.channel, p.nodes[NodeOf(Other(d), t, r)].ChannelFs(Other(d)).channel);
  }

  lemma NegotiationShares(p: Port, d: Dir, t: nat, r: nat, f: Fmt)
    requires Joining(p, d, t, r, f) && !p.hw.Of(d).running
    ensures
      var (p', ret) := CheckFsCompatible(p, NodeOf(d, t, r), d, f);
      && Shared(p, p', ret, d, t, r, f) && p'.Valid() && p'.topo == p.topo && |p'.nodes| == |p.nodes|
      && p'.nodes[NodeOf(Other(d), t, r)].Enabled(Other(d))
  {
    I2sSafety.CompatErrorKeepsBus(p, NodeOf(d, t, r), d, f);
    match PathOf(p, d, f)
    case Same => SameShares(p, d, t, r, f);
    case ExtendSelf => ExtendSelfShares(p, d, t, r, f);
    case ExpandPeer =>
      if f.Frame() == p.nodes[NodeOf(Other(d), t, r)].fs.Frame() {
        EqualFrameShares(p, d, t, r, f);
      } else {
        WiderShares(p, d, t, r, f);
      }
  }

  lemma SetFmtShares(p: Port, d: Dir, t: nat, r: nat, f: Fmt)
    requires Joining(p, d, t, r, f)
    ensures
      var (p', ret) := SetFmtOne(p, NodeOf(d, t, r), d, f);
      && ret == Ok && p'.hw.fate == [] && p'.Valid() && p'.topo == p.topo && |p'.nodes| == |p.nodes|
      && p'.hw.Of(Other(d)).running && p'.nodes[NodeOf(Other(d), t, r)].Enabled(Other(d))
      && p'.hw.Of(d).rate == p'.hw.Of(Other(d)).rate == f.rate
      && (p'.hw.Of(d).Frame() == p'.hw.Of(Other(d)).Frame() <==> SharesFrame(p, d, t, r, f))
  {
    var n := NodeOf(d, t, r);
    var p2 := p.(hw := DrvEnable(p.hw, true, d, false).0);
    NegotiationShares(p2, d, t, r, f);
    var (p3, ret) := CheckFsCompatible(p2, n, d, f);
    assert SetFmtOne(p, n, d, f).0 == if p.hw.Of(d).running then p3.(hw := DrvEnable(p3.hw, true, d, true).0) else p3;
  }

  lemma JoinedEnable(p: Port, d: Dir, t: nat, r: nat, hw1: bool)
    requires p.Valid() && Peers(p.topo, t, r) && p.hw.fate == []
    requires p.hw.Of(Other(d)).running && p.nodes[NodeOf(Other(d), t, r)].Enabled(Other(d))
    ensures
      var p' := EnableOne(p, NodeOf(d, t, r), d, true, hw1).0;
      && |p'.nodes| == |p.nodes| && p'.nodes[t].outEnable && p'.nodes[r].inEnable
      && p'.hw.tx == p.hw.tx.(running := true) && p'.hw.rx == p.hw.rx.(running := true)
  {
  }

  /** After any fitting run, an open beside an active peer of the same rate ends with both in
      use; they share the frame if and only if the format meets the condition of its path. */
  lemma NextOpenSharesFrameIff(p: Port, ops: seq<Op>, d: Dir, f: Fmt, t: nat, r: nat, hw1: bool)
    requires Initial(p, t, r) && RunFits(p, ops, t, r, hw1)
    requires
      var p1 := Run(p, ops, t, r, hw1);
      && ValidFmt(Normalized(f))
      && p1.nodes[NodeOf(Other(d), t, r)].Enabled(Other(d)) && !p1.nodes[NodeOf(d, t, r)].Enabled(d)
      && Normalized(f).rate == p1.nodes[NodeOf(Other(d), t, r)].fs.rate
    ensures Run(p, ops, t, r, hw1).nodes[NodeOf(Other(d), t, r)].ChannelFs(Other(d)).channel > 0
    ensures
      var p1 := Run(p, ops, t, r, hw1);
      var p2 := Step(p1, Open(d, f), t, r, hw1);
      && p2.nodes[t].outEnable && p2.nodes[r].inEnable
      && (Agree(p2) <==> SharesFrame(p1, d, t, r, Normalized(f)))
  {
    RunKeepsInv(p, ops, t, r, hw1);
    var p1 := Run(p, ops, t, r, hw1);
    SetFmtShares(p1, d, t, r, Normalized(f));
    JoinedEnable(SetFmtOne(p1, NodeOf(d, t, r), d, Normalized(f)).0, d, t, r, hw1);
  }

  lemma FirstOpen(p: Port, t: nat, r: nat, f: Fmt, hw1: bool)
    requires Initial(p, t, r) && ValidFmt(f) && f == Normalized(f)
    ensures
      var p' := Step(p, Open(Tx, f), t, r, hw1);
      p'.nodes[t].fs == f && p'.nodes[t].outEnable && !p'.nodes[r].inEnable
  {
    QuietSetFmt(p, t, r, Tx, f);
    AloneProgrammesFrameIff(p, Tx, t, r, f);
    assert SetFmtOne(p, t, Tx, f) == CompatAlone(p, t, Tx, f);
    var p1 := SetFmtOne(p, t, Tx, f).0;
    I2sSafety.CompatErrorKeepsBus(p, t, Tx, f);
    assert I2sSafety.NodeKept(p.nodes[r], p1.nodes[r], true);
  }

  /** Such a format, beside 6 channels of 24 bits, has 10 channels of 8 bits: the frame of 144
      bits does not divide by 10, and both directions run with different frames. */
  lemma UnevenFrameDisagrees(p: Port, t: nat, r: nat, rate: nat, hw1: bool)
    requires Initial(p, t, r)
    ensures
      var p1 := Step(p, Open(Tx, Fmt(24, 6, 0x3F, rate)), t, r, hw1);
      var p2 := Step(p1, Open(Rx, Fmt(8, 10, 0x3FF, rate)), t, r, hw1);
      && p2.nodes[t].outEnable && p2.nodes[r].inEnable && p2.hw.tx.running && p2.hw.rx.running
      && p2.hw.tx.Frame() != p2.hw.rx.Frame()
  {
    var f, g := Fmt(24, 6, 0x3F, rate), Fmt(8, 10, 0x3FF, rate);
    var p1 := Step(p, Open(Tx, f), t, r, hw1);
    FirstOpen(p, t, r, f, hw1);
    StepKeepsInv(p, Open(Tx, f), t, r, hw1);
    SetFmtShares(p1, Rx, t, r, g);
    JoinedEnable(SetFmtOne(p1, r, Rx, g).0, Rx, t, r, hw1);
  }

  // ---------------------------------------------------------------- opening again

  /** A refused format leaves TX as the negotiation found it, which is stopped. */
  lemma RefusedReopenStopsClock(p: Port, t: nat, r: nat, f: Fmt, hw1: bool)
    requires Inv(p, t, r) && ValidFmt(Normalized(f))
    requires !p.nodes[t].outEnable && p.nodes[r].inEnable && Normalized(f).rate != p.nodes[r].fs.rate
    ensures
      var p' := Step(p, Open(Tx, f), t, r, hw1);
      !p'.hw.tx.running && p'.nodes == p.nodes
  {
    var g := Normalized(f);
    var p2 := p.(hw := DrvEnable(p.hw, true, Tx, false).0);
    assert PathOf(p2, Tx, g) == RateConflict;
    assert SetFmtOne(p, t, Tx, g) == (p2, NotSupport);
  }

  lemma AcceptedReopenRuns(p: Port, t: nat, r: nat, f: Fmt, hw1: bool)
    requires Inv(p, t, r) && ValidFmt(Normalized(f))
    requires !p.nodes[t].outEnable && p.nodes[r].inEnable && Normalized(f).rate == p.nodes[r].fs.rate
    ensures
      var p' := Step(p, Open(Tx, f), t, r, hw1);
      p'.hw.tx.running && p'.nodes[r].inEnable
  {
    SetFmtShares(p, Tx, t, r, Normalized(f));
    JoinedEnable(SetFmtOne(p, t, Tx, Normalized(f)).0, Tx, t, r, hw1);
  }

  /** A closed playback device keeps TX running while recording depends on its clock. Opening
      it again, with any format, keeps that clock exactly when the format is invalid or its
      sample rate is the running one: another rate is refused only once TX is stopped, and
      recording stays enabled. */
  lemma ReopenKeepsClockIff(p: Port, t: nat, r: nat, f: Fmt, hw1: bool)
    requires Inv(p, t, r) && !p.nodes[t].outEnable && p.nodes[r].inEnable && p.hw.tx.running
    ensures Step(p, Open(Tx, f), t, r, hw1).nodes[r].inEnable
    ensures Step(p, Open(Tx, f), t, r, hw1).hw.tx.running <==>
            !ValidFmt(Normalized(f)) || Normalized(f).rate == p.nodes[r].fs.rate
  {
    if ValidFmt(Normalized(f)) {
      if Normalized(f).rate == p.nodes[r].fs.rate {
        AcceptedReopenRuns(p, t, r, f, hw1);
      } else {
        RefusedReopenStopsClock(p, t, r, f, hw1);
      }
    }
  }
}

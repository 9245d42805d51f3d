/**
 One bus clock serves both directions. Whenever playback and recording are both enabled, TX
 and RX are programmed with the same sample rate and the same total frame width.
 */
module I2sAgreement {
  import opened Common
  import opened I2sBus
  import I2sSafety
  import opened Arith

  /** Playback runs on node `t`, recording on node `r`, and each is the other's pair. This
      covers one full-duplex node (t == r) and a TX node beside an RX node in either order. */
  predicate Peers(topo: seq<Handles>, t: nat, r: nat) {
    && t < |topo| && r < |topo|
    && topo[t].tx && topo[r].rx
    && Paired(topo, Tx) == Some(r) && Paired(topo, Rx) == Some(t)
  }

  lemma DuplexNodeIsItsOwnPeer(topo: seq<Handles>)
    requires topo == [Handles(true, true)]
    ensures Peers(topo, 0, 0)
  {
    assert forall d :: PairedFrom(topo, 0, d, None) == PairedFrom(topo, 1, d, Some(0)) == Some(0);
  }

  /** A TX-only node and an RX node, which may have found the TX handle of its duplex pair. */
  lemma TxRxNodesArePeers(topo: seq<Handles>, t: nat, r: nat, duplex: bool)
    requires |topo| == 2 && t + r == 1
    requires topo[t] == Handles(true, false) && topo[r] == Handles(duplex, true)
    ensures Peers(topo, t, r)
  {
    var fallback := if duplex then Some(r) else None;
    if t == 0 {
      assert PairedFrom(topo, 0, Tx, None) == PairedFrom(topo, 1, Tx, None);
      assert duplex ==> PairedFrom(topo, 1, Tx, None) == PairedFrom(topo, 2, Tx, fallback);
    } else {
      assert PairedFrom(topo, 0, Rx, None) == PairedFrom(topo, 1, Rx, fallback);
      assert duplex ==>
        PairedFrom(topo, 0, Tx, None) == PairedFrom(topo, 1, Tx, fallback) == PairedFrom(topo, 2, Tx, fallback);
    }
  }

  function NodeOf(d: Dir, t: nat, r: nat): nat { if d == Tx then t else r }

  // ---------------------------------------------------------------- programming a channel

  /** In STD mode a frame has two slots, in TDM mode one per channel. */
  function SlotsOf(mode: Mode, channels: nat): nat { if mode == Std then 2 else channels }

  /** The channel has a frame of so many bits, cut into slots for so many channels. */
  predicate Programmed(c: Chan, frame: nat, channels: nat, rate: nat) {
    c.Frame() == frame && c.slots == SlotsOf(c.mode, channels) && c.rate == rate
  }

  /** Whatever the driver does before: after a success the slots are as the mode has them, and
      as wide as asked for, or in STD mode as wide as the slots of half the channels. */
  lemma SetDrvFsShapes(h: Hw, has: bool, d: Dir, slotBits: nat, f: Fmt)
    requires !h.Of(d).running
    ensures
      var (h', ret) := SetDrvFs(h, has, d, slotBits, f);
      var c := h'.Of(d);
      && c.mode == h.Of(d).mode
      && (ret == Ok ==> c.rate == f.rate && c.slots == SlotsOf(c.mode, f.channel))
      && (ret == Ok && (c.mode == Tdm || f.channel <= 2) ==> c.slotBits == slotBits)
      && (ret == Ok && f.channel > 0 && f.channel % 2 == 0 && slotBits * f.channel < 256 ==>
            c.Frame() == slotBits * f.channel)
  {
    if f.channel % 2 == 0 && slotBits * f.channel < 256 {
      EvenTotalHalves(slotBits, f.channel);
      assert f.channel == 2 ==> slotBits * f.channel == slotBits * 2;
    }
  }

  /** Without driver failures set_drv_fs gives the channel `slotBits` for each channel of the
      format: also in STD mode, where more than two channels share two wider slots. */
  lemma SetDrvFsProgrammes(h: Hw, d: Dir, slotBits: nat, f: Fmt)
    requires h.fate == [] && !h.Of(d).running
    requires f.channel > 0 && f.channel % 2 == 0 && slotBits * f.channel < 256
    ensures
      var (h', ret) := SetDrvFs(h, true, d, slotBits, f);
      && ret == Ok && h'.fate == [] && !h'.Of(d).running && h'.Of(Other(d)) == h.Of(Other(d))
      && Programmed(h'.Of(d), slotBits * f.channel, f.channel, f.rate)
  {
    SetDrvFsShapes(h, true, d, slotBits, f);
  }

  lemma EvenTotalHalves(bits: nat, channels: nat)
    requires channels % 2 == 0 && bits * channels < 256
    ensures U8(bits * channels / 2) * 2 == bits * channels
  {
    var half := channels / 2;
    assert bits * channels == bits * (2 * half) == 2 * (bits * half);
  }

  /** The frame programmed when a bus frame of `total` bits is spread over `ch` channels. */
  function SpreadFrame(total: nat, ch: nat): nat
    requires ch > 0
  {
    U8(total) / ch * ch
  }

  lemma SpreadFrameIsWholeIff(total: nat, ch: nat)
    requires ch > 0
    ensures SpreadFrame(total, ch) == total <==> total < 256 && total % ch == 0
    ensures SpreadFrame(total, ch) <= U8(total)
  {
    QuotientSpreads(U8(total), ch);
  }

  /** get_bits spreads the bus frame over the channels of the direction's own format: exactly
      when the frame has less than 256 bits and the channels divide it, none are lost. */
  lemma GetBitsSpreadsFrame(x: Node, d: Dir)
    requires x.ChannelFs(d).channel > 0
    ensures GetBits(x, d) * x.ChannelFs(d).channel == SpreadFrame(x.fs.Frame(), x.ChannelFs(d).channel)
    ensures GetBits(x, d) * x.ChannelFs(d).channel == x.fs.Frame() <==>
            x.fs.Frame() < 256 && x.fs.Frame() % x.ChannelFs(d).channel == 0
  {
    SpreadFrameIsWholeIff(x.fs.Frame(), x.ChannelFs(d).channel);
  }

  predicate Spreads(x: Node, d: Dir) {
    && x.ChannelFs(d).channel > 0 && x.ChannelFs(d).channel % 2 == 0
    && x.fs.Frame() < 256 && x.fs.Frame() % x.ChannelFs(d).channel == 0
  }

  /** For any bus frame: what set_fs programs, and that the peer TX update programs the same. */
  lemma SetFsSpreads(topo: seq<Handles>, nodes: seq<Node>, h: Hw, n: nat, d: Dir, skip: bool)
    requires |topo| == |nodes| && n < |nodes| && topo[n].Has(d) && h.fate == [] && !h.Of(d).running
    requires nodes[n].ChannelFs(d).channel > 0 && nodes[n].ChannelFs(d).channel % 2 == 0
    ensures
      var (h', ret) := SetFs(topo, nodes, h, n, d, skip);
      var q := Paired(topo, d);
      var x := nodes[n];
      var frame := SpreadFrame(x.fs.Frame(), x.ChannelFs(d).channel);
      && ret == Ok && h'.fate == [] && !h'.Of(d).running
      && Programmed(h'.Of(d), frame, x.ChannelFs(d).channel, x.ChannelFs(d).rate)
      && h'.Of(Other(d)).running == h.Of(Other(d)).running
      && if skip || d == Tx || q.None? || !topo[q.value].tx || nodes[q.value].outEnable
         then h'.Of(Other(d)) == h.Of(Other(d))
         else Programmed(h'.tx, frame, x.ChannelFs(d).channel, x.ChannelFs(d).rate)
  {
    var f := nodes[n].ChannelFs(d);
    var bits := GetBits(nodes[n], d);
    GetBitsSpreadsFrame(nodes[n], d);
    SpreadFrameIsWholeIff(nodes[n].fs.Frame(), f.channel);
    SetDrvFsProgrammes(h, d, bits, f);
    var h1 := SetDrvFs(h, true, d, bits, f).0;
    if d == Rx {
      var (h2, stop) := DrvEnable(h1, true, Tx, false);
      SetDrvFsProgrammes(h2, Tx, bits, f);
    }
  }

  lemma SetFsProgrammes(topo: seq<Handles>, nodes: seq<Node>, h: Hw, n: nat, d: Dir, skip: bool)
    requires |topo| == |nodes| && n < |nodes| && topo[n].Has(d)
    requires h.fate == [] && !h.Of(d).running && Spreads(nodes[n], d)
    ensures
      var (h', ret) := SetFs(topo, nodes, h, n, d, skip);
      var q := Paired(topo, d);
      var x := nodes[n];
      && ret == Ok && h'.fate == [] && !h'.Of(d).running
      && Programmed(h'.Of(d), x.fs.Frame(), x.ChannelFs(d).channel, x.ChannelFs(d).rate)
      && h'.Of(Other(d)).running == h.Of(Other(d)).running
      && (skip || d == Tx || (q.Some? && nodes[q.value].outEnable) ==> h'.Of(Other(d)) == h.Of(Other(d)))
  {
    SetFsSpreads(topo, nodes, h, n, d, skip);
    SpreadFrameIsWholeIff(nodes[n].fs.Frame(), nodes[n].ChannelFs(d).channel);
  }

  /** Whatever the driver does: a channel that set_fs reports as programmed is. */
  lemma SetFsShapes(topo: seq<Handles>, nodes: seq<Node>, h: Hw, n: nat, d: Dir)
    requires |topo| == |nodes| && n < |nodes| && !h.Of(d).running
    requires nodes[n].ChannelFs(d).channel > 0 && nodes[n].ChannelFs(d).channel % 2 == 0
    ensures
      var (h', ret) := SetFs(topo, nodes, h, n, d, true);
      var f := nodes[n].ChannelFs(d);
      && !h'.Of(d).running && h'.Of(Other(d)) == h.Of(Other(d))
      && (ret == Ok ==> Programmed(h'.Of(d), SpreadFrame(nodes[n].fs.Frame(), f.channel), f.channel, f.rate))
  {
    var f := nodes[n].ChannelFs(d);
    I2sSafety.SetFsSafe(topo, nodes, h, n, d, true);
    GetBitsSpreadsFrame(nodes[n], d);
    SpreadFrameIsWholeIff(nodes[n].fs.Frame(), f.channel);
    SetDrvFsShapes(if topo[n].Has(d) then Call(h).0 else h, topo[n].Has(d), d, GetBits(nodes[n], d), f);
  }

  // ---------------------------------------------------------------- which formats, and for both directions

  /** A format is taken with samples of 8, 16, 24 or 32 bits and one channel, which counts as
      two, or an even number of them; any other is refused before the driver is called. */
  lemma FormatIsTakenIff(p: Port, n: nat, t: DevType, f: Fmt)
    requires p.Valid() && n < |p.nodes|
    ensures
      var taken := (f.bits == 8 || f.bits == 16 || f.bits == 24 || f.bits == 32)
                   && (f.channel == 1 || (f.channel > 0 && f.channel % 2 == 0));
      var g := Normalized(f);
      && (ValidFmt(g) <==> taken) && (!taken ==> SetFmt(p, n, t, f) == (p, NotSupport))
      && g.bits == f.bits && g.rate == f.rate && g.channel == (if f.channel == 1 then 2 else f.channel)
      && g.mask == if f.channel == 1 then 1
                   else if f.mask != 0 then f.mask
                   else Pow2(if f.channel < 16 then f.channel else 16) - 1
  {
    MaskIsAllOnes(f.channel);
  }

  /** The default mask has the bits of the first channels, 16 at most. */
  lemma {:induction false} MaskIsAllOnes(channels: nat)
    ensures MaskOf(channels) == Pow2(if channels < 16 then channels else 16) - 1
  {
    Pow2Of16();
    if 0 < channels <= 16 {
      MaskIsAllOnes(channels - 1);
    }
  }

  /** Whatever the driver does: a set_fmt for both directions that succeeds has programmed both
      channels alike and recorded the format; one that fails has recorded nothing. Without
      failures it succeeds on a node with both handles. */
  lemma SetFmtBothProgrammes(p: Port, n: nat, f: Fmt)
    requires p.Valid() && n < |p.nodes| && ValidFmt(f)
    ensures
      var (p', ret) := SetFmtBoth(p, n, f);
      && (ret == Ok ==> BothCarry(p'.hw, f))
      && p'.nodes == (if ret == Ok then p.nodes[n := p.nodes[n].(fs := f, outFs := f, inFs := f)] else p.nodes)
      && (p.hw.fate == [] && p.topo[n].tx && p.topo[n].rx ==> ret == Ok)
  {
    SetFmtBothCarries(p, n, f);
  }

  lemma SetFmtBothCarries(p: Port, n: nat, f: Fmt)
    requires p.Valid() && n < |p.nodes| && ValidFmt(f)
    ensures
      var (p', ret) := SetFmtBoth(p, n, f);
      && (ret == Ok ==> BothCarry(p'.hw, f))
      && (p.hw.fate == [] && p.topo[n].tx && p.topo[n].rx ==> ret == Ok)
  {
    if p.topo[n].tx && p.topo[n].rx {
      var h2 := Call(Call(p.hw).0).0;
      var (h3, stopTx) := DrvEnable(h2, true, Tx, false);
      var (h4, stopRx) := DrvEnable(h3, true, Rx, false);
      BothStopped(h2);
      if stopTx == Ok && stopRx == Ok {
        BothProgrammed(p, n, f, h4);
      }
    }
  }

  lemma BothStopped(h: Hw)
    ensures
      var (h1, stopTx) := DrvEnable(h, true, Tx, false);
      var (h2, stopRx) := DrvEnable(h1, true, Rx, false);
      && (stopTx == stopRx == Ok ==> !h2.tx.running && !h2.rx.running)
      && (h.fate == [] ==> stopTx == stopRx == Ok && h2.fate == [])
  {
    I2sSafety.StoppedAfterDisable(h, true, Tx, false);
    I2sSafety.StoppedAfterDisable(DrvEnable(h, true, Tx, false).0, true, Rx, false);
  }

  /** Both channels are programmed with the frame and the rate of the format, and stopped. */
  predicate BothCarry(h: Hw, f: Fmt)
    requires f.channel > 0
  {
    var frame := SpreadFrame(f.Frame(), f.channel);
    && Programmed(h.tx, frame, f.channel, f.rate) && !h.tx.running
    && Programmed(h.rx, frame, f.channel, f.rate) && !h.rx.running
  }

  lemma BothProgrammed(p: Port, n: nat, f: Fmt, h: Hw)
    requires p.Valid() && n < |p.nodes| && ValidFmt(f) && !h.tx.running && !h.rx.running
    requires p.topo[n].tx && p.topo[n].rx
    ensures
      var own := p.nodes[n := p.nodes[n].(fs := f, inFs := f, outFs := f)];
      var (h1, setTx) := SetFs(p.topo, own, h, n, Tx, true);
      var (h2, setRx) := SetFs(p.topo, own, h1, n, Rx, true);
      && (setTx == setRx == Ok ==> BothCarry(h2, f))
      && (h.fate == [] ==> setTx == setRx == Ok)
  {
    var own := p.nodes[n := p.nodes[n].(fs := f, inFs := f, outFs := f)];
    SetFsShapes(p.topo, own, h, n, Tx);
    var h1 := SetFs(p.topo, own, h, n, Tx, true).0;
    SetFsShapes(p.topo, own, h1, n, Rx);
    if h.fate == [] {
      SetFsSpreads(p.topo, own, h, n, Tx, true);
      SetFsSpreads(p.topo, own, h1, n, Rx, true);
    }
  }

  // ---------------------------------------------------------------- the invariant

  /** What playback or recording in use means: the channel runs with the node's bus format,
      and the direction's own format has its rate. */
  predicate InTune(p: Port, d: Dir, n: nat)
    requires n < |p.nodes|
  {
    var x := p.nodes[n];
    x.Enabled(d) ==>
      && p.hw.Of(d).running
      && Programmed(p.hw.Of(d), x.fs.Frame(), x.ChannelFs(d).channel, x.fs.rate)
      && x.fs.Frame() < 256
      && x.ChannelFs(d).channel % 2 == 0 && x.ChannelFs(d).rate == x.fs.rate
  }

  predicate SameFormat(a: Fmt, b: Fmt) {
    a.bits == b.bits && a.channel == b.channel && a.rate == b.rate
  }

  predicate Inv(p: Port, t: nat, r: nat) {
    && p.Valid() && Peers(p.topo, t, r) && p.hw.fate == []
    && SameFormat(p.nodes[t].fs, p.nodes[r].fs)
    && InTune(p, Tx, t) && InTune(p, Rx, r)
    && (p.nodes[t].outPending ==> !p.nodes[t].outEnable)
    && (p.nodes[r].inPending ==> !p.nodes[r].inEnable)
  }

  /** The formats the property is promised for: frames under 256 bits, and when the other
      direction is in use, channel counts that divide the frame the two must share. */
  predicate Fits(p: Port, d: Dir, t: nat, r: nat, f: Fmt)
    requires p.Valid() && t < |p.nodes| && r < |p.nodes|
  {
    var g := Normalized(f);
    var peer := p.nodes[NodeOf(Other(d), t, r)];
    ValidFmt(g) ==>
      && g.Frame() < 256
      && (peer.Enabled(Other(d)) ==>
            if peer.fs.Frame() > g.Frame() then peer.fs.Frame() % g.channel == 0
            else g.Frame() % peer.ChannelFs(Other(d)).channel == 0)
  }

  /** What a negotiation for the idle direction `d` achieves, once its channel is stopped. */
  predicate Negotiated(p: Port, p': Port, ret: Ret, d: Dir, t: nat, r: nat)
    requires t < |p.nodes| && r < |p.nodes| && |p'.nodes| == |p.nodes|
  {
    var x := p'.nodes[NodeOf(d, t, r)];
    && p'.hw.fate == []
    && SameFormat(p'.nodes[t].fs, p'.nodes[r].fs)
    && InTune(p', Other(d), NodeOf(Other(d), t, r))
    && p'.hw.Of(Other(d)).running == p.hw.Of(Other(d)).running
    && !p'.hw.Of(d).running
    && (ret == Ok ==> InTune(p'.(nodes := p'.nodes[NodeOf(d, t, r) := x.WithEnabled(d, true)],
                                 hw := p'.hw.With(d, p'.hw.Of(d).(running := true))), d, NodeOf(d, t, r)))
    && (ret == Ok ==> x.ChannelFs(d).channel > 0)
  }

  /** The premises of every negotiation: the direction is idle and its channel stopped. */
  predicate Idle(p: Port, d: Dir, t: nat, r: nat, f: Fmt) {
    && Inv(p, t, r) && ValidFmt(f) && f == Normalized(f) && Fits(p, d, t, r, f)
    && !p.nodes[NodeOf(d, t, r)].Enabled(d) && !p.hw.Of(d).running
  }

  lemma AloneNegotiates(p: Port, d: Dir, t: nat, r: nat, f: Fmt)
    requires Idle(p, d, t, r, f) && PathOf(p, d, f) == Alone
    ensures
      var (p', ret) := CompatAlone(p, NodeOf(d, t, r), d, f);
      |p'.nodes| == |p.nodes| && ret == Ok && Negotiated(p, p', ret, d, t, r)
  {
    var n, q := NodeOf(d, t, r), NodeOf(Other(d), t, r);
    var nodes := AloneFormats(p.nodes, n, Some(q), d, f);
    BothAdopt(p.nodes, n, q, d, f);
    FrameDividesByChannel(f);
    SetFsProgrammes(p.topo, nodes, p.hw, n, d, false);
  }

  lemma BothAdopt(nodes: seq<Node>, n: nat, q: nat, d: Dir, f: Fmt)
    requires n < |nodes| && q < |nodes|
    ensures
      var own := AloneFormats(nodes, n, Some(q), d, f);
      && own[n].fs == own[q].fs == f && own[n].ChannelFs(d) == f
      && own[q].Enabled(Other(d)) == nodes[q].Enabled(Other(d)) && own[q].outEnable == nodes[q].outEnable
  {
    var own := AloneFormats(nodes, n, Some(q), d, f);
    assert own[n] == nodes[n].(fs := f).WithChannelFs(d, f);
    if n != q {
      assert own[q] == nodes[q].(fs := f);
    }
  }

  lemma FrameDividesByChannel(f: Fmt)
    requires f.channel > 0
    ensures f.Frame() % f.channel == 0
  {
    ProductDivides(f.bits, f.channel);
  }

  lemma SameNegotiates(p: Port, d: Dir, t: nat, r: nat, f: Fmt)
    requires Idle(p, d, t, r, f) && PathOf(p, d, f) == Same
    ensures
      var (p', ret) := CompatSame(p, NodeOf(d, t, r), d, f);
      |p'.nodes| == |p.nodes| && ret == Ok && Negotiated(p, p', ret, d, t, r)
  {
    var n := NodeOf(d, t, r);
    FrameDividesByChannel(f);
    SetFsProgrammes(p.topo, AloneFormats(p.nodes, n, None, d, f), p.hw, n, d, false);
  }

  /** Programming `q` bits for each channel; `total` only bounds the frame. */
  lemma QuotientProgrammes(h: Hw, d: Dir, q: nat, f: Fmt, total: nat)
    requires h.fate == [] && !h.Of(d).running
    requires f.channel > 0 && f.channel % 2 == 0 && q * f.channel <= total < 256
    ensures
      var (h', ret) := SetDrvFs(h, true, d, q, f);
      && ret == Ok && h'.fate == [] && !h'.Of(d).running && h'.Of(Other(d)) == h.Of(Other(d))
      && h'.Of(d).rate == f.rate && h'.Of(d).Frame() == q * f.channel
  {
    SetDrvFsProgrammes(h, d, q, f);
  }

  lemma QuotientSpreads(total: nat, ch: nat)
    requires ch > 0
    ensures total / ch <= total && total / ch * ch <= total
    ensures total / ch * ch == total <==> total % ch == 0
  {
    var q := total / ch;
    assert total == q * ch + total % ch;
    MulGrows(q, ch);
  }

  lemma MulGrows(q: nat, m: nat)
    requires m > 0
    ensures q <= q * m
  {
  }

  lemma SmallQuotient(total: nat, ch: nat) returns (bits: nat)
    requires ch > 0 && total < 256
    ensures bits == total / ch == U8(total / ch) && bits * ch <= total
  {
    QuotientSpreads(total, ch);
    bits := total / ch;
  }

  lemma ExtendSelfSetsDriver(p: Port, n: nat, q: nat, d: Dir, f: Fmt, bits: nat)
    requires p.Valid() && n < |p.nodes| && q < |p.nodes| && p.topo[n].Has(d) && f.channel > 0
    requires U8(p.nodes[q].fs.Frame() / f.channel) == bits
    ensures
      var (p', ret) := CompatExtendSelf(p, n, q, d, f);
      (p'.hw, ret) == SetDrvFs(p.hw, true, d, bits, f)
  {
  }

  /** What the extending path does to the hardware. */
  lemma ExtendSelfProgrammes(p: Port, n: nat, q: nat, d: Dir, f: Fmt, total: nat) returns (bits: nat)
    requires p.Valid() && n < |p.nodes| && q < |p.nodes| && p.topo[n].Has(d) && p.hw.fate == []
    requires f.channel > 0 && f.channel % 2 == 0 && !p.hw.Of(d).running
    requires p.nodes[q].fs.Frame() == total < 256
    ensures bits == total / f.channel
    ensures
      var (p', ret) := CompatExtendSelf(p, n, q, d, f);
      && ret == Ok && p'.hw.fate == [] && !p'.hw.Of(d).running && p'.hw.Of(Other(d)) == p.hw.Of(Other(d))
      && p'.hw.Of(d).rate == f.rate && p'.hw.Of(d).Frame() == bits * f.channel
  {
    bits := SmallQuotient(total, f.channel);
    ExtendSelfSetsDriver(p, n, q, d, f, bits);
    QuotientProgrammes(p.hw, d, bits, f, total);
  }

  lemma ExtendSelfNegotiates(p: Port, d: Dir, t: nat, r: nat, f: Fmt)
    requires Idle(p, d, t, r, f) && PathOf(p, d, f) == ExtendSelf
    ensures
      var (p', ret) := CompatExtendSelf(p, NodeOf(d, t, r), NodeOf(Other(d), t, r), d, f);
      |p'.nodes| == |p.nodes| && ret == Ok && Negotiated(p, p', ret, d, t, r)
  {
    var total := p.nodes[NodeOf(Other(d), t, r)].fs.Frame();
    var bits := ExtendSelfProgrammes(p, NodeOf(d, t, r), NodeOf(Other(d), t, r), d, f, total);
    QuotientSpreads(total, f.channel);
  }

  /** The divisibility in Fits is exact: a narrower format that fits otherwise shares the
      running frame if and only if its channel count divides it. */
  lemma ExtendSelfSharesFrameIff(p: Port, d: Dir, t: nat, r: nat, f: Fmt)
    requires Inv(p, t, r) && ValidFmt(f) && !p.hw.Of(d).running && PathOf(p, d, f) == ExtendSelf
    ensures
      var (p', ret) := CompatExtendSelf(p, NodeOf(d, t, r), NodeOf(Other(d), t, r), d, f);
      ret == Ok &&
      (p'.hw.Of(d).Frame() == p'.hw.Of(Other(d)).Frame() <==>
       p.nodes[NodeOf(Other(d), t, r)].fs.Frame() % f.channel == 0)
  {
    var total := p.nodes[NodeOf(Other(d), t, r)].fs.Frame();
    var bits := ExtendSelfProgrammes(p, NodeOf(d, t, r), NodeOf(Other(d), t, r), d, f, total);
    QuotientSpreads(total, f.channel);
  }

  /** Two formats of one frame width: the node spreads the frame over its own channels. */
  lemma EqualFrameNegotiates(p: Port, d: Dir, t: nat, r: nat, f: Fmt)
    requires Idle(p, d, t, r, f) && PathOf(p, d, f) == ExpandPeer
    requires f.Frame() == p.nodes[NodeOf(Other(d), t, r)].fs.Frame()
    ensures
      var (p', ret) := CompatExpandPeer(p, NodeOf(d, t, r), NodeOf(Other(d), t, r), d, f);
      |p'.nodes| == |p.nodes| && ret == Ok && Negotiated(p, p', ret, d, t, r)
  {
    var n, q := NodeOf(d, t, r), NodeOf(Other(d), t, r);
    var nodes := ExpandFormats(p.nodes, n, q, d, f, false);
    FrameDividesByChannel(f);
    OwnFormatAt(p.nodes, n, q, d, f);
    SetFsProgrammes(p.topo, nodes, p.hw, n, d, false);
    var h := SetFs(p.topo, nodes, p.hw, n, d, false).0;
    assert CompatExpandPeer(p, n, q, d, f) == (p.(nodes := ClearReconfigs(nodes, n, q), hw := h), Ok);
  }

  lemma OwnFormatAt(nodes: seq<Node>, n: nat, q: nat, d: Dir, f: Fmt)
    requires n < |nodes| && q < |nodes|
    ensures
      var own := ExpandFormats(nodes, n, q, d, f, false);
      var r := ClearReconfigs(own, n, q);
      && own[n].fs == r[n].fs == nodes[n].fs && own[q].fs == r[q].fs == nodes[q].fs
      && own[n].ChannelFs(d) == r[n].ChannelFs(d) == f
      && own[q].ChannelFs(Other(d)) == r[q].ChannelFs(Other(d)) == nodes[q].ChannelFs(Other(d))
      && own[q].Enabled(Other(d)) == r[q].Enabled(Other(d)) == nodes[q].Enabled(Other(d))
  {
  }

  lemma ExpandHwProgrammes(topo: seq<Handles>, nodes: seq<Node>, h: Hw, n: nat, q: nat, d: Dir)
    requires |topo| == |nodes| && n < |nodes| && topo[n].Has(d)
    requires Paired(topo, d) == Some(q) && topo[q].Has(Other(d)) && nodes[q].Enabled(Other(d))
    requires h.fate == [] && !h.Of(d).running && h.Of(Other(d)).running
    requires Spreads(nodes[n], d) && Spreads(nodes[q], Other(d))
    ensures
      var (h', ret) := ExpandHw(topo, nodes, h, n, q, d);
      && ret == Ok && h'.fate == [] && !h'.Of(d).running && h'.Of(Other(d)).running
      && var own, peer := nodes[n].ChannelFs(d), nodes[q].ChannelFs(Other(d));
         && Programmed(h'.Of(d), nodes[n].fs.Frame(), own.channel, own.rate)
         && Programmed(h'.Of(Other(d)), nodes[q].fs.Frame(), peer.channel, peer.rate)
  {
    var h1 := DrvEnable(h, true, Other(d), false).0;
    SetFsProgrammes(topo, nodes, h1, n, d, false);
    var h2 := SetFs(topo, nodes, h1, n, d, false).0;
    SetFsProgrammes(topo, nodes, h2, q, Other(d), true);
    var h3 := SetFs(topo, nodes, h2, q, Other(d), true).0;
    assert ExpandHw(topo, nodes, h, n, q, d) == DrvEnable(h3, true, Other(d), true);
  }

  lemma ExpandFormatsAt(nodes: seq<Node>, n: nat, q: nat, d: Dir, f: Fmt)
    requires n < |nodes| && q < |nodes|
    ensures
      var own := ExpandFormats(nodes, n, q, d, f, true);
      var r := ClearReconfigs(own, n, q);
      && own[n].fs == own[q].fs == r[n].fs == r[q].fs == f
      && own[n].ChannelFs(d) == r[n].ChannelFs(d) == f
      && own[q].ChannelFs(Other(d)) == r[q].ChannelFs(Other(d)) == nodes[q].ChannelFs(Other(d))
      && own[q].Enabled(Other(d)) == r[q].Enabled(Other(d)) == nodes[q].Enabled(Other(d))
  {
    var own := ExpandFormats(nodes, n, q, d, f, true);
    var r := ClearReconfigs(own, n, q);
    assert own[n] == nodes[n].WithChannelFs(d, f).(fs := f);
    assert own[q] == (if q == n then own[n] else nodes[q].(fs := f));
    assert r[n].WithoutReconfig() == own[n].WithoutReconfig() && r[q].WithoutReconfig() == own[q].WithoutReconfig();
  }

  /** A wider format: the peer stops, both channels get the new frame, the peer goes on. */
  lemma WiderFrameNegotiates(p: Port, d: Dir, t: nat, r: nat, f: Fmt)
    requires Idle(p, d, t, r, f) && PathOf(p, d, f) == ExpandPeer
    requires f.Frame() > p.nodes[NodeOf(Other(d), t, r)].fs.Frame()
    ensures
      var (p', ret) := CompatExpandPeer(p, NodeOf(d, t, r), NodeOf(Other(d), t, r), d, f);
      |p'.nodes| == |p.nodes| && ret == Ok && Negotiated(p, p', ret, d, t, r)
  {
    var n, q := NodeOf(d, t, r), NodeOf(Other(d), t, r);
    var nodes := ExpandFormats(p.nodes, n, q, d, f, true);
    ExpandFormatsAt(p.nodes, n, q, d, f);
    FrameDividesByChannel(f);
    ExpandHwProgrammes(p.topo, nodes, p.hw, n, q, d);
    var (h, ret) := ExpandHw(p.topo, nodes, p.hw, n, q, d);
    assert CompatExpandPeer(p, n, q, d, f) == (p.(nodes := ClearReconfigs(nodes, n, q), hw := h), Ok);
  }

  lemma NegotiationAgrees(p: Port, d: Dir, t: nat, r: nat, f: Fmt)
    requires Idle(p, d, t, r, f)
    ensures
      var (p', ret) := CheckFsCompatible(p, NodeOf(d, t, r), d, f);
      && p'.Valid() && I2sSafety.Kept(p.nodes, p'.nodes, ret == Ok) && Negotiated(p, p', ret, d, t, r)
      && (ret == NotSupport <==> PathOf(p, d, f) == RateConflict) && (ret == Ok || ret == NotSupport)
  {
    I2sSafety.CompatErrorKeepsBus(p, NodeOf(d, t, r), d, f);
    match PathOf(p, d, f)
    case RateConflict =>
    case Alone => AloneNegotiates(p, d, t, r, f);
    case Same => SameNegotiates(p, d, t, r, f);
    case ExtendSelf => ExtendSelfNegotiates(p, d, t, r, f);
    case ExpandPeer =>
      if f.Frame() == p.nodes[NodeOf(Other(d), t, r)].fs.Frame() {
        EqualFrameNegotiates(p, d, t, r, f);
      } else {
        WiderFrameNegotiates(p, d, t, r, f);
      }
  }

  // ---------------------------------------------------------------- runs

  /** Opening and closing a device, as esp_codec_dev_open and esp_codec_dev_close use the
      interface: a format, then the enable; nothing when the direction is already open. */
  datatype Op = Open(d: Dir, f: Fmt) | Close(d: Dir)

  function TypeOf(d: Dir): DevType { if d == Tx then Out else In }

  predicate Opened(p: Port, t: nat, r: nat) {
    p.Valid() && t < |p.nodes| && r < |p.nodes|
  }

  function Step(p: Port, op: Op, t: nat, r: nat, hw1: bool): (p': Port)
    requires Opened(p, t, r)
    ensures Opened(p', t, r) && p'.topo == p.topo
  {
    var n := NodeOf(op.d, t, r);
    match op
    case Open(d, f) =>
      if p.nodes[n].Enabled(d) then p
      else
        var (p1, ret) := SetFmt(p, n, TypeOf(d), f);
        I2sSafety.SetFmtErrorKeepsBus(p, n, TypeOf(d), f);
        SetFmtGivesFormat(p, n, d, f);
        if ret == Ok then
          EnableKeepsValid(p1, n, d, true, hw1);
          Enable(p1, n, TypeOf(d), true, hw1).0
        else p1
    case Close(d) =>
      if p.nodes[n].Enabled(d) then
        EnableKeepsValid(p, n, d, false, hw1);
        Enable(p, n, TypeOf(d), false, hw1).0
      else p
  }

  lemma EnableKeepsValid(p: Port, n: nat, d: Dir, on: bool, hw1: bool)
    requires p.Valid() && n < |p.nodes| && (on ==> p.nodes[n].ChannelFs(d).channel > 0)
    ensures
      var p' := EnableOne(p, n, d, on, hw1).0;
      p'.Valid() && p'.topo == p.topo
  {
    var p' := EnableOne(p, n, d, on, hw1).0;
    forall i | 0 <= i < |p.nodes| ensures p'.nodes[i].Formatted() {
      assert p.nodes[i].Formatted();
    }
  }

  lemma SetFmtGivesFormat(p: Port, n: nat, d: Dir, f: Fmt)
    requires p.Valid() && n < |p.nodes|
    ensures
      var (p', ret) := SetFmt(p, n, TypeOf(d), f);
      |p'.nodes| == |p.nodes| && (ret == Ok ==> p'.nodes[n].ChannelFs(d).channel > 0)
  {
    I2sSafety.SetFmtErrorKeepsBus(p, n, TypeOf(d), f);
    var g := Normalized(f);
    if ValidFmt(g) {
      var h1 := if p.topo[n].Has(d) then Call(p.hw).0 else p.hw;
      var p2 := p.(hw := DrvEnable(h1, p.topo[n].Has(d), d, false).0);
      CompatGivesFormat(p2, n, d, g);
    }
  }

  lemma CompatGivesFormat(p: Port, n: nat, d: Dir, f: Fmt)
    requires p.Valid() && n < |p.nodes| && f.channel > 0
    ensures
      var (p', ret) := CheckFsCompatible(p, n, d, f);
      |p'.nodes| == |p.nodes| && (ret == Ok ==> p'.nodes[n].ChannelFs(d) == f)
  {
    var q := Paired(p.topo, d);
    I2sSafety.CompatErrorKeepsBus(p, n, d, f);
    match PathOf(p, d, f)
    case RateConflict =>
    case Alone => AloneFormatsAt(p.nodes, n, q, d, f);
    case Same => AloneFormatsAt(p.nodes, n, None, d, f);
    case ExtendSelf =>
    case ExpandPeer => ExpandFormatsOwn(p.nodes, n, q.value, d, f, f.Frame() > p.nodes[q.value].fs.Frame());
  }

  lemma AloneFormatsAt(nodes: seq<Node>, n: nat, q: Option<nat>, d: Dir, f: Fmt)
    requires n < |nodes| && (q.Some? ==> q.value < |nodes|)
    ensures AloneFormats(nodes, n, q, d, f)[n].ChannelFs(d) == f
  {
  }

  lemma ExpandFormatsOwn(nodes: seq<Node>, n: nat, q: nat, d: Dir, f: Fmt, wider: bool)
    requires n < |nodes| && q < |nodes|
    ensures ClearReconfigs(ExpandFormats(nodes, n, q, d, f, wider), n, q)[n].ChannelFs(d) == f
  {
  }

  lemma SetFmtAgrees(p: Port, d: Dir, t: nat, r: nat, f: Fmt)
    requires Inv(p, t, r) && ValidFmt(f) && f == Normalized(f) && Fits(p, d, t, r, f)
    requires !p.nodes[NodeOf(d, t, r)].Enabled(d)
    ensures
      var (p', ret) := SetFmtOne(p, NodeOf(d, t, r), d, f);
      && Inv(p', t, r) && I2sSafety.Kept(p.nodes, p'.nodes, ret == Ok)
      && (ret == Ok ==>
            var x := p'.nodes[NodeOf(d, t, r)];
            x.ChannelFs(d).channel > 0 &&
            InTune(p'.(nodes := p'.nodes[NodeOf(d, t, r) := x.WithEnabled(d, true)],
                       hw := p'.hw.With(d, p'.hw.Of(d).(running := true))), d, NodeOf(d, t, r)))
  {
    var n := NodeOf(d, t, r);
    var p2 := p.(hw := DrvEnable(p.hw, true, d, false).0);
    NegotiationAgrees(p2, d, t, r, f);
    var (p3, ret) := CheckFsCompatible(p2, n, d, f);
    var p' := SetFmtOne(p, n, d, f).0;
    if ret == Ok && p.hw.Of(d).running {
      assert p' == p3.(hw := p3.hw.With(d, p3.hw.Of(d).(running := true)));
      RestartKeepsTune(p3, d, t, r);
    } else {
      assert p' == p3;
    }
  }

  lemma RestartKeepsTune(p: Port, d: Dir, t: nat, r: nat)
    requires t < |p.nodes| && r < |p.nodes| && InTune(p, Other(d), NodeOf(Other(d), t, r))
    ensures
      var p' := p.(hw := p.hw.With(d, p.hw.Of(d).(running := true)));
      && InTune(p', Other(d), NodeOf(Other(d), t, r))
      && p'.hw.With(d, p'.hw.Of(d).(running := true)) == p'.hw
  {
  }

  lemma OpenKeepsInv(p: Port, d: Dir, t: nat, r: nat, f: Fmt, hw1: bool)
    requires Inv(p, t, r) && Fits(p, d, t, r, f)
    ensures Inv(Step(p, Open(d, f), t, r, hw1), t, r)
  {
    var n := NodeOf(d, t, r);
    var g := Normalized(f);
    if ValidFmt(g) && !p.nodes[n].Enabled(d) {
      SetFmtAgrees(p, d, t, r, g);
      var (p1, ret) := SetFmtOne(p, n, d, g);
      if ret == Ok {
        EnableKeepsInv(p1, d, t, r, hw1);
      }
    }
  }

  lemma EnableKeepsInv(p: Port, d: Dir, t: nat, r: nat, hw1: bool)
    requires Inv(p, t, r) && p.nodes[NodeOf(d, t, r)].ChannelFs(d).channel > 0
    requires
      var x := p.nodes[NodeOf(d, t, r)];
      InTune(p.(nodes := p.nodes[NodeOf(d, t, r) := x.WithEnabled(d, true)],
                hw := p.hw.With(d, p.hw.Of(d).(running := true))), d, NodeOf(d, t, r))
    ensures Inv(EnableOne(p, NodeOf(d, t, r), d, true, hw1).0, t, r)
  {
  }

  lemma DisableKeepsInv(p: Port, d: Dir, t: nat, r: nat, hw1: bool)
    requires Inv(p, t, r) && p.nodes[NodeOf(d, t, r)].Enabled(d)
    ensures Inv(EnableOne(p, NodeOf(d, t, r), d, false, hw1).0, t, r)
  {
    var n, q := NodeOf(d, t, r), NodeOf(Other(d), t, r);
    var (p', ret) := EnableOne(p, n, d, false, hw1);
    var h1 := DrvEnable(p.hw, true, d, false).0;
    if (d == Tx || hw1) && p.nodes[q].Enabled(Other(d)) {
      assert p'.nodes == p.nodes[n := p.nodes[n].WithPending(d, true).WithEnabled(d, false)];
    } else if p.nodes[q].Pending(Other(d)) {
      assert p'.hw == DrvEnable(h1, true, Other(d), false).0;
    } else {
      assert p'.hw == h1;
    }
  }

  // ---------------------------------------------------------------- the theorem

  /** Every format of the run fits the state it meets. */
  predicate RunFits(p: Port, ops: seq<Op>, t: nat, r: nat, hw1: bool)
    requires Opened(p, t, r)
    decreases |ops|
  {
    ops == [] ||
    ((ops[0].Open? ==> Fits(p, ops[0].d, t, r, ops[0].f)) &&
     RunFits(Step(p, ops[0], t, r, hw1), ops[1..], t, r, hw1))
  }

  function Run(p: Port, ops: seq<Op>, t: nat, r: nat, hw1: bool): (p': Port)
    requires Opened(p, t, r)
    ensures Opened(p', t, r)
    decreases |ops|
  {
    if ops == [] then p else Run(Step(p, ops[0], t, r, hw1), ops[1..], t, r, hw1)
  }

  /** Zeroed nodes and stopped channels, programmed in any way. */
  predicate Initial(p: Port, t: nat, r: nat) {
    && Opened(p, t, r) && Peers(p.topo, t, r)
    && p.hw.fate == [] && !p.hw.tx.running && !p.hw.rx.running
    && var zero := Fmt(0, 0, 0, 0);
       forall i :: 0 <= i < |p.nodes| ==> p.nodes[i] == Node(false, false, false, false, false, false, zero, zero, zero)
  }

  lemma StepKeepsInv(p: Port, op: Op, t: nat, r: nat, hw1: bool)
    requires Inv(p, t, r) && (op.Open? ==> Fits(p, op.d, t, r, op.f))
    ensures Inv(Step(p, op, t, r, hw1), t, r)
  {
    match op
    case Open(d, f) => OpenKeepsInv(p, d, t, r, f, hw1);
    case Close(d) => if p.nodes[NodeOf(d, t, r)].Enabled(d) { DisableKeepsInv(p, d, t, r, hw1); }
  }

  lemma {:induction false} RunKeepsInv(p: Port, ops: seq<Op>, t: nat, r: nat, hw1: bool)
    requires Inv(p, t, r) && RunFits(p, ops, t, r, hw1)
    ensures Inv(Run(p, ops, t, r, hw1), t, r)
    decreases |ops|
  {
    if ops != [] {
      StepKeepsInv(p, ops[0], t, r, hw1);
      RunKeepsInv(Step(p, ops[0], t, r, hw1), ops[1..], t, r, hw1);
    }
  }

  /** After any run of opens and closes by a playback and a recording device, in any order
      and through all negotiation paths: if both are in use, both channels run with one
      sample rate and one frame width, that of the bus format, each cut into the slots of its
      own format. */
  lemma BothDirectionsShareTheFrame(p: Port, ops: seq<Op>, t: nat, r: nat, hw1: bool)
    requires Initial(p, t, r) && RunFits(p, ops, t, r, hw1)
    ensures
      var p' := Run(p, ops, t, r, hw1);
      var bus := p'.nodes[t].fs;
      p'.nodes[t].outEnable && p'.nodes[r].inEnable ==>
        && p'.hw.tx.running && p'.hw.rx.running
        && p'.hw.tx.rate == p'.hw.rx.rate == bus.rate
        && p'.hw.tx.Frame() == p'.hw.rx.Frame() == bus.Frame()
        && p'.hw.tx.slots == SlotsOf(p'.hw.tx.mode, p'.nodes[t].outFs.channel)
        && p'.hw.rx.slots == SlotsOf(p'.hw.rx.mode, p'.nodes[r].inFs.channel)
  {
    RunKeepsInv(p, ops, t, r, hw1);
  }

  // ---------------------------------------------------------------- limits

  /** The two calls of an open must not interleave with another device's: here recording
      sets 48 kHz, playback sets 44.1 kHz before recording is enabled, and both run. */
  lemma InterleavedOpensDisagree()
    ensures
      var slow, fast := Fmt(16, 2, 3, 44100), Fmt(16, 2, 3, 48000);
      var zero := Fmt(0, 0, 0, 0);
      var c := Chan(Std, false, 16, 2, 48000);
      var p0 := Port([Handles(true, true)],
                     [Node(false, false, false, false, false, false, zero, zero, zero)], Hw(c, c, [], 0));
      var (p1, a) := SetFmtOne(p0, 0, Rx, fast);
      p1.Valid() && |p1.nodes| == 1 &&
      var (p2, b) := SetFmtOne(p1, 0, Tx, slow);
      |p2.topo| == 1 == |p2.nodes| &&
      var (p3, x) := EnableOne(p2, 0, Rx, true, false);
      |p3.topo| == 1 == |p3.nodes| &&
      var (p4, y) := EnableOne(p3, 0, Tx, true, false);
      && a == b == x == y == Ok && |p4.nodes| == 1 && p4.nodes[0].outEnable && p4.nodes[0].inEnable
      && p4.hw.tx.running && p4.hw.rx.running && p4.hw.tx.rate == 44100 && p4.hw.rx.rate == 48000
  {
    DuplexNodeIsItsOwnPeer([Handles(true, true)]);
  }
}

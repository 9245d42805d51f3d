/**
 The I2S data interface (components/esp_codec_dev/platform/audio_codec_data_i2s.c) as a
 state machine over one port: the nodes opened on it, in keeper-list order, and the port's
 TX and RX driver channels.

 Every call into the I2S driver may fail. `Hw.fate` holds the outcomes of the calls to
 come; an exhausted script means that the remaining calls succeed, so `fate == []` is
 "no driver failure" and quantifying over `fate` covers every pattern of failures. A failed
 driver call has no effect.
 */
module I2sBus {
  import opened Common

  datatype Dir = Tx | Rx

  datatype DevType = In | Out | InOut

  datatype Mode = Std | Tdm

  datatype Ret = Ok | DrvErr | NotFound | NotSupport

  /** esp_codec_dev_sample_info_t without `mclk_multiple`. */
  datatype Fmt = Fmt(bits: nat, channel: nat, mask: nat, rate: nat) {
    function Frame(): nat { bits * channel }
  }

  /** A driver channel: whether it runs, and the slot and clock programmed last. */
  datatype Chan = Chan(mode: Mode, running: bool, slotBits: nat, slots: nat, rate: nat) {
    function Frame(): nat { slotBits * slots }
  }

  /** The port's hardware. `misuse` counts reconfigurations tried on a running channel. */
  datatype Hw = Hw(tx: Chan, rx: Chan, fate: seq<bool>, misuse: nat) {
    function Of(d: Dir): Chan { if d == Tx then tx else rx }

    function With(d: Dir, c: Chan): Hw { if d == Tx then this.(tx := c) else this.(rx := c) }
  }

  /** Which driver handles a node owns: fixed when the node is opened. */
  datatype Handles = Handles(tx: bool, rx: bool) {
    function Has(d: Dir): bool { if d == Tx then tx else rx }
  }

  datatype Node = Node(
    outEnable: bool, inEnable: bool,
    outPending: bool, inPending: bool,
    outReconfig: bool, inReconfig: bool,
    outFs: Fmt, inFs: Fmt, fs: Fmt)
  {
    function Enabled(d: Dir): bool { if d == Tx then outEnable else inEnable }

    function Pending(d: Dir): bool { if d == Tx then outPending else inPending }

    function ChannelFs(d: Dir): Fmt { if d == Tx then outFs else inFs }

    function WithEnabled(d: Dir, on: bool): Node {
      if d == Tx then this.(outEnable := on) else this.(inEnable := on)
    }

    function WithPending(d: Dir, on: bool): Node {
      if d == Tx then this.(outPending := on) else this.(inPending := on)
    }

    function WithChannelFs(d: Dir, f: Fmt): Node {
      if d == Tx then this.(outFs := f) else this.(inFs := f)
    }

    function WithoutReconfig(): Node { this.(outReconfig := false, inReconfig := false) }

    /** An enabled direction has a format: esp_codec_dev_open always sets one first. */
    predicate Formatted() {
      && (outEnable ==> outFs.channel > 0)
      && (inEnable ==> inFs.channel > 0)
    }
  }

  datatype Port = Port(topo: seq<Handles>, nodes: seq<Node>, hw: Hw) {
    predicate Valid() {
      && |topo| == |nodes|
      && forall i :: 0 <= i < |nodes| ==> nodes[i].Formatted()
    }
  }

  function U8(x: int): nat { x % 256 }

  function Other(d: Dir): Dir { if d == Tx then Rx else Tx }

  // ---------------------------------------------------------------- pairing

  /** get_paired: the first half-duplex match, otherwise the last full-duplex node. */
  function PairedFrom(topo: seq<Handles>, i: nat, d: Dir, fallback: Option<nat>): (r: Option<nat>)
    requires i <= |topo|
    requires fallback.Some? ==> fallback.value < |topo|
    ensures r.Some? ==> r.value < |topo|
    decreases |topo| - i
  {
    if i == |topo| then fallback
    else if topo[i].rx && topo[i].tx then PairedFrom(topo, i + 1, d, Some(i))
    else if topo[i].Has(Other(d)) then Some(i)
    else PairedFrom(topo, i + 1, d, fallback)
  }

  function Paired(topo: seq<Handles>, d: Dir): (r: Option<nat>)
    ensures r.Some? ==> r.value < |topo|
  {
    PairedFrom(topo, 0, d, None)
  }

  // ---------------------------------------------------------------- the driver

  /** One driver call: the hardware with that outcome consumed, and the outcome. */
  function Call(h: Hw): (Hw, bool) {
    if h.fate == [] then (h, true) else (h.(fate := h.fate[1..]), h.fate[0])
  }

  /** A slot reconfiguration: the driver refuses it on a running channel. */
  function ReconfigSlot(h: Hw, d: Dir, slotBits: nat, slots: nat): (Hw, bool) {
    if h.Of(d).running then (h.(misuse := h.misuse + 1), false)
    else
      var (h1, ok) := Call(h);
      (if ok then h1.With(d, h1.Of(d).(slotBits := slotBits, slots := slots)) else h1, ok)
  }

  /** A clock reconfiguration: the driver refuses it on a running channel. */
  function ReconfigClock(h: Hw, d: Dir, rate: nat): (Hw, bool) {
    if h.Of(d).running then (h.(misuse := h.misuse + 1), false)
    else
      var (h1, ok) := Call(h);
      (if ok then h1.With(d, h1.Of(d).(rate := rate)) else h1, ok)
  }

  /** _i2s_drv_enable */
  function DrvEnable(h: Hw, has: bool, d: Dir, on: bool): (Hw, Ret) {
    if !has then (h, NotFound)
    else
      var (h1, info) := Call(h);
      if !info then (h1, DrvErr)
      else if h1.Of(d).running == on then (h1, Ok)
      else
        var (h2, done) := Call(h1);
        if done then (h2.With(d, h2.Of(d).(running := on)), Ok) else (h2, DrvErr)
  }

  /** set_drv_fs: a STD frame always has two slots, a TDM frame one per channel. */
  function SetDrvFs(h: Hw, has: bool, d: Dir, slotBits: nat, f: Fmt): (Hw, Ret) {
    if !has then (h, DrvErr)
    else
      var (h1, info) := Call(h);
      if !info then (h1, DrvErr)
      else
        var std := h1.Of(d).mode == Std;
        var bits := if std && f.channel > 2 then U8(slotBits * f.channel / 2) else slotBits;
        var (h2, slotOk) := ReconfigSlot(h1, d, bits, if std then 2 else f.channel);
        if !slotOk then (h2, DrvErr)
        else
          var (h3, clkOk) := ReconfigClock(h2, d, f.rate);
          (h3, if clkOk then Ok else DrvErr)
  }

  // ---------------------------------------------------------------- formats

  function MaskOf(channels: nat): nat {
    if channels == 0 then 0
    else if channels > 16 then 0xFFFF
    else 2 * MaskOf(channels - 1) + 1
  }

  /** The defaults _i2s_data_set_fmt fills in before it checks the format. */
  function Normalized(f: Fmt): Fmt {
    var g := if f.channel == 1 then f.(channel := 2, mask := 1) else f;
    if g.mask == 0 then g.(mask := MaskOf(g.channel)) else g
  }

  /** _i2s_valid_fmt: a bad sample rate is logged, not refused. */
  predicate ValidFmt(f: Fmt) {
    f.channel != 0 && f.channel % 2 == 0 && 8 <= f.bits <= 32 && f.bits % 8 == 0
  }

  /** get_bits */
  function GetBits(x: Node, d: Dir): nat
    requires x.ChannelFs(d).channel > 0
  {
    U8(x.fs.Frame()) / x.ChannelFs(d).channel
  }

  /** set_fs: programs the node's channel and, from an idle RX side, the peer's TX as well. */
  function SetFs(topo: seq<Handles>, nodes: seq<Node>, h: Hw, n: nat, d: Dir, skip: bool): (Hw, Ret)
    requires |topo| == |nodes| && n < |nodes|
    requires nodes[n].ChannelFs(d).channel > 0
  {
    var f := nodes[n].ChannelFs(d);
    var bits := GetBits(nodes[n], d);
    var h0 := if topo[n].Has(d) then Call(h).0 else h;
    var (h1, ret) := SetDrvFs(h0, topo[n].Has(d), d, bits, f);
    var q := Paired(topo, d);
    if ret == Ok && !skip && d == Rx && q.Some? && topo[q.value].tx && !nodes[q.value].outEnable
    then UpdatePeerTx(h1, bits, f)
    else (h1, ret)
  }

  /** The tail of set_fs: stop the peer's TX, program it, start it again if it was running. */
  function UpdatePeerTx(h: Hw, bits: nat, f: Fmt): (Hw, Ret) {
    var (h1, info) := Call(h);
    if !info then (h1, DrvErr)
    else
      var (h2, stop) := DrvEnable(h1, true, Tx, false);
      if stop != Ok then (h2, stop)
      else
        var (h3, ret) := SetDrvFs(h2, true, Tx, bits, f);
        if h1.tx.running then
          var (h4, restore) := DrvEnable(h3, true, Tx, true);
          (h4, if ret == Ok then restore else ret)
        else (h3, ret)
  }

  // ---------------------------------------------------------------- negotiation

  /** The ways check_fs_compatible can go. */
  datatype Path = Alone | RateConflict | Same | ExtendSelf | ExpandPeer

  function PathOf(p: Port, d: Dir, f: Fmt): Path
    requires p.Valid()
  {
    var q := Paired(p.topo, d);
    if q.None? || !p.nodes[q.value].Enabled(Other(d)) then Alone
    else
      var g := p.nodes[q.value].fs;
      if f.rate != g.rate then RateConflict
      else if f.channel == g.channel && f.bits == g.bits then Same
      else if g.Frame() > f.Frame() then ExtendSelf
      else ExpandPeer
  }

  /** The formats while a lone direction is programmed; its pair shares the bus format. */
  function AloneFormats(nodes: seq<Node>, n: nat, q: Option<nat>, d: Dir, f: Fmt): (r: seq<Node>)
    requires n < |nodes| && (q.Some? ==> q.value < |nodes|)
    ensures |r| == |nodes|
  {
    var own := nodes[n := nodes[n].(fs := f).WithChannelFs(d, f)];
    if q.Some? && q.value != n then own[q.value := own[q.value].(fs := f)] else own
  }

  /** check_fs_compatible, "set fs directly when only enable one channel". */
  function CompatAlone(p: Port, n: nat, d: Dir, f: Fmt): (Port, Ret)
    requires p.Valid() && n < |p.nodes| && f.channel > 0
  {
    var nodes := AloneFormats(p.nodes, n, Paired(p.topo, d), d, f);
    var (h, ret) := SetFs(p.topo, nodes, p.hw, n, d, false);
    (p.(nodes := if ret == Ok then nodes else p.nodes, hw := h), ret)
  }

  /** check_fs_compatible, "channel and bits same, set directly". */
  function CompatSame(p: Port, n: nat, d: Dir, f: Fmt): (Port, Ret)
    requires p.Valid() && n < |p.nodes| && f.channel > 0
  {
    var nodes := AloneFormats(p.nodes, n, None, d, f);
    var (h, ret) := SetFs(p.topo, nodes, p.hw, n, d, false);
    (p.(nodes := if ret == Ok then nodes else p.nodes, hw := h), ret)
  }

  /** check_fs_compatible, extending the node's own slots to the running frame. On failure
      the channel format becomes the peer's bus format, whatever it was before. */
  function CompatExtendSelf(p: Port, n: nat, q: nat, d: Dir, f: Fmt): (Port, Ret)
    requires p.Valid() && n < |p.nodes| && q < |p.nodes| && f.channel > 0
  {
    var g := p.nodes[q].fs;
    var (h, ret) := SetDrvFs(p.hw, p.topo[n].Has(d), d, U8(g.Frame() / f.channel), f);
    (p.(nodes := p.nodes[n := p.nodes[n].WithChannelFs(d, if ret == Ok then f else g)], hw := h), ret)
  }

  /** The driver side of the expanding path: stop the peer, program both, start the peer. */
  function ExpandHw(topo: seq<Handles>, nodes: seq<Node>, h: Hw, n: nat, q: nat, d: Dir): (Hw, Ret)
    requires |topo| == |nodes| && n < |nodes| && q < |nodes|
    requires nodes[n].ChannelFs(d).channel > 0 && nodes[q].ChannelFs(Other(d)).channel > 0
  {
    var has := topo[q].Has(Other(d));
    var (h1, stop) := DrvEnable(h, has, Other(d), false);
    if stop != Ok then (h1, stop)
    else
      var (h2, own) := SetFs(topo, nodes, h1, n, d, false);
      if own != Ok then (h2, own)
      else
        var (h3, peer) := SetFs(topo, nodes, h2, q, Other(d), true);
        if peer != Ok then (h3, peer) else DrvEnable(h3, has, Other(d), true)
  }

  /** The formats while both sides of the expanding path are programmed. */
  function ExpandFormats(nodes: seq<Node>, n: nat, q: nat, d: Dir, f: Fmt, wider: bool): (r: seq<Node>)
    requires n < |nodes| && q < |nodes|
    ensures |r| == |nodes|
  {
    var own := nodes[n := nodes[n].WithChannelFs(d, f)];
    if !wider then own
    else
      var peer := own[q := own[q].(fs := f)];
      peer[n := peer[n].(fs := f)]
  }

  function ClearReconfigs(nodes: seq<Node>, n: nat, q: nat): (r: seq<Node>)
    requires n < |nodes| && q < |nodes|
    ensures |r| == |nodes|
  {
    var own := nodes[n := nodes[n].WithoutReconfig()];
    own[q := own[q].WithoutReconfig()]
  }

  /** check_fs_compatible, "need expand peer channel bits". The channel format is saved after
      it was overwritten, so a failure restores the bus formats but keeps the new one. */
  function CompatExpandPeer(p: Port, n: nat, q: nat, d: Dir, f: Fmt): (Port, Ret)
    requires p.Valid() && n < |p.nodes| && q < |p.nodes| && f.channel > 0
    requires p.nodes[q].Enabled(Other(d))
  {
    var wider := f.Frame() > p.nodes[q].fs.Frame();
    var nodes := ExpandFormats(p.nodes, n, q, d, f, wider);
    var (h, ret) := if wider then ExpandHw(p.topo, nodes, p.hw, n, q, d) else SetFs(p.topo, nodes, p.hw, n, d, false);
    var after := if ret == Ok then nodes else ExpandFormats(p.nodes, n, q, d, f, false);
    (p.(nodes := ClearReconfigs(after, n, q), hw := h), ret)
  }

  /** check_fs_compatible */
  function CheckFsCompatible(p: Port, n: nat, d: Dir, f: Fmt): (Port, Ret)
    requires p.Valid() && n < |p.nodes| && f.channel > 0
  {
    match PathOf(p, d, f)
    case Alone => CompatAlone(p, n, d, f)
    case RateConflict => (p, NotSupport)
    case Same => CompatSame(p, n, d, f)
    case ExtendSelf => CompatExtendSelf(p, n, Paired(p.topo, d).value, d, f)
    case ExpandPeer => CompatExpandPeer(p, n, Paired(p.topo, d).value, d, f)
  }

  // ---------------------------------------------------------------- set_fmt and enable

  /** _i2s_data_set_fmt for a single direction, on a normalized and valid format. */
  function SetFmtOne(p: Port, n: nat, d: Dir, f: Fmt): (Port, Ret)
    requires p.Valid() && n < |p.nodes| && f.channel > 0
  {
    var has := p.topo[n].Has(d);
    var (h1, info) := if has then Call(p.hw) else (p.hw, false);
    if !info then (p.(hw := h1), DrvErr)
    else
      var (h2, stop) := DrvEnable(h1, has, d, false);
      if stop != Ok then (p.(hw := h2), stop)
      else
        var (p3, ret) := CheckFsCompatible(p.(hw := h2), n, d, f);
        if ret == Ok && Paired(p.topo, d).Some? && h1.Of(d).running then
          var (h4, restore) := DrvEnable(p3.hw, has, d, true);
          (p3.(hw := h4), restore)
        else (p3, ret)
  }

  /** _i2s_data_set_fmt for both directions at once; neither channel is started again. */
  function SetFmtBoth(p: Port, n: nat, f: Fmt): (Port, Ret)
    requires p.Valid() && n < |p.nodes| && f.channel > 0
  {
    var (h1, outInfo) := if p.topo[n].tx then Call(p.hw) else (p.hw, false);
    if !outInfo then (p.(hw := h1), DrvErr)
    else
      var (h2, inInfo) := if p.topo[n].rx then Call(h1) else (h1, false);
      if !inInfo then (p.(hw := h2), DrvErr)
      else
        var (h3, stopTx) := DrvEnable(h2, true, Tx, false);
        if stopTx != Ok then (p.(hw := h3), stopTx)
        else
          var (h4, stopRx) := DrvEnable(h3, true, Rx, false);
          if stopRx != Ok then (p.(hw := h4), stopRx)
          else
            var own := p.nodes[n := p.nodes[n].(fs := f, inFs := f, outFs := f)];
            var (h5, setTx) := SetFs(p.topo, own, h4, n, Tx, true);
            var (h6, setRx) := if setTx == Ok then SetFs(p.topo, own, h5, n, Rx, true) else (h5, setTx);
            (p.(nodes := if setRx == Ok then own else p.nodes, hw := h6), setRx)
  }

  /** _i2s_data_set_fmt */
  function SetFmt(p: Port, n: nat, t: DevType, f: Fmt): (Port, Ret)
    requires p.Valid() && n < |p.nodes|
  {
    var g := Normalized(f);
    if !ValidFmt(g) then (p, NotSupport)
    else match t
      case InOut => SetFmtBoth(p, n, g)
      case Out => SetFmtOne(p, n, Tx, g)
      case In => SetFmtOne(p, n, Rx, g)
  }

  /** _i2s_data_enable for a single direction. With `hw1` (SOC_I2S_HW_VERSION_1) an RX
      disable is deferred while TX is in use, as a TX disable always is while RX is. */
  function EnableOne(p: Port, n: nat, d: Dir, on: bool, hw1: bool): (Port, Ret)
    requires |p.topo| == |p.nodes| && n < |p.nodes|
  {
    var q := Paired(p.topo, d);
    var has := p.topo[n].Has(d);
    if !on && (d == Tx || hw1) && has && q.Some? && p.nodes[q.value].Enabled(Other(d)) then
      (p.(nodes := p.nodes[n := p.nodes[n].WithPending(d, true).WithEnabled(d, false)]), Ok)
    else
      var (h1, own) := DrvEnable(p.hw, has, d, on);
      if on then
        var x := p.nodes[n].WithPending(d, false);
        (p.(nodes := p.nodes[n := if own == Ok then x.WithEnabled(d, true) else x], hw := h1), own)
      else if q.Some? && p.nodes[q.value].Pending(Other(d)) then
        // The outcome of the deferred disable replaces the outcome of the own one.
        var (h2, peer) := DrvEnable(h1, p.topo[q.value].Has(Other(d)), Other(d), false);
        var nodes := p.nodes[q.value := p.nodes[q.value].WithPending(Other(d), false)];
        (p.(nodes := if peer == Ok then nodes[n := nodes[n].WithEnabled(d, false)] else nodes, hw := h2), peer)
      else
        (p.(nodes := if own == Ok then p.nodes[n := p.nodes[n].WithEnabled(d, false)] else p.nodes, hw := h1), own)
  }

  /** _i2s_data_enable for both directions: a failure on RX puts TX back. */
  function EnableBoth(p: Port, n: nat, on: bool): (Port, Ret)
    requires |p.topo| == |p.nodes| && n < |p.nodes|
  {
    if !p.topo[n].tx || !p.topo[n].rx then (p, DrvErr)
    else
      var (h1, txInfo) := Call(p.hw);
      if !txInfo then (p.(hw := h1), DrvErr)
      else
        var (h2, rxInfo) := Call(h1);
        if !rxInfo then (p.(hw := h2), DrvErr)
        else
          var (h3, tx) := DrvEnable(h2, true, Tx, on);
          if tx != Ok then (p.(hw := h3), tx) else EnableRxAfterTx(p, n, h3, on)
  }

  /** TX is done: enable or disable RX, or put TX back to what it was. */
  function EnableRxAfterTx(p: Port, n: nat, h: Hw, on: bool): (Port, Ret)
    requires n < |p.nodes|
  {
    var (h1, rx) := DrvEnable(h, true, Rx, on);
    if rx == Ok then
      (p.(nodes := p.nodes[n := p.nodes[n].(outEnable := on, inEnable := on)], hw := h1), Ok)
    else
      var (h2, rollback) := DrvEnable(h1, true, Tx, p.hw.tx.running);
      var x := if rollback == Ok then p.nodes[n] else p.nodes[n].(outEnable := on);
      (p.(nodes := p.nodes[n := x], hw := h2), rx)
  }

  /** _i2s_data_enable */
  function Enable(p: Port, n: nat, t: DevType, on: bool, hw1: bool): (Port, Ret)
    requires |p.topo| == |p.nodes| && n < |p.nodes|
  {
    match t
    case InOut => EnableBoth(p, n, on)
    case Out => EnableOne(p, n, Tx, on, hw1)
    case In => EnableOne(p, n, Rx, on, hw1)
  }
}

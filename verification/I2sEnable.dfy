/**
 The deferred disable of _i2s_data_enable. On a full-duplex port TX drives the clock, so TX
 is not stopped while RX is in use; on SOC_I2S_HW_VERSION_1 (`hw1`) neither is stopped while
 the other is in use. The request stays pending until the other direction is disabled.
 */
module I2sEnable {
  import opened Common
  import opened I2sBus
  import opened I2sAgreement
  import I2sSafety

  datatype Request = Request(d: Dir, on: bool)

  function Apply(p: Port, c: Request, t: nat, r: nat, hw1: bool): (result: (Port, Ret))
    requires |p.topo| == |p.nodes| && t < |p.nodes| && r < |p.nodes|
    ensures result.0.topo == p.topo && |result.0.nodes| == |p.nodes|
  {
    EnableOne(p, NodeOf(c.d, t, r), c.d, c.on, hw1)
  }

  function ApplyAll(p: Port, cs: seq<Request>, t: nat, r: nat, hw1: bool): (p': Port)
    requires |p.topo| == |p.nodes| && t < |p.nodes| && r < |p.nodes|
    ensures p'.topo == p.topo && |p'.nodes| == |p.nodes|
    decreases |cs|
  {
    if cs == [] then p else ApplyAll(Apply(p, cs[0], t, r, hw1).0, cs[1..], t, r, hw1)
  }

  /** Playback on node `t`, recording on node `r`, all requests so far idle. */
  predicate Start(p: Port, t: nat, r: nat) {
    && |p.topo| == |p.nodes| && Peers(p.topo, t, r)
    && !p.hw.tx.running && !p.hw.rx.running
    && forall i :: 0 <= i < |p.nodes| ==>
        !p.nodes[i].outEnable && !p.nodes[i].inEnable && !p.nodes[i].outPending && !p.nodes[i].inPending
  }

  /** One direction: in use means running, running means in use or about to stop, and a stop
      is deferred only for a direction that is not in use and whose peer is. */
  predicate Deferred(p: Port, d: Dir, t: nat, r: nat, defers: bool)
    requires |p.nodes| == |p.topo| && t < |p.nodes| && r < |p.nodes|
  {
    var x, y := p.nodes[NodeOf(d, t, r)], p.nodes[NodeOf(Other(d), t, r)];
    && (x.Enabled(d) ==> p.hw.Of(d).running)
    && (p.hw.Of(d).running ==> x.Enabled(d) || x.Pending(d))
    && (x.Pending(d) ==> defers && !x.Enabled(d) && y.Enabled(Other(d)))
  }

  predicate Inv(p: Port, t: nat, r: nat, hw1: bool) {
    && |p.topo| == |p.nodes| && Peers(p.topo, t, r) && p.hw.fate == []
    && Deferred(p, Tx, t, r, true) && Deferred(p, Rx, t, r, hw1)
  }

  lemma ApplyKeepsInv(p: Port, c: Request, t: nat, r: nat, hw1: bool)
    requires Inv(p, t, r, hw1)
    ensures var (p', ret) := Apply(p, c, t, r, hw1); Inv(p', t, r, hw1) && ret == Ok
  {
    var n, q := NodeOf(c.d, t, r), NodeOf(Other(c.d), t, r);
    var p' := Apply(p, c, t, r, hw1).0;
    var h1 := DrvEnable(p.hw, true, c.d, c.on).0;
    if c.on {
      assert p'.nodes == p.nodes[n := p.nodes[n].WithPending(c.d, false).WithEnabled(c.d, true)];
    } else if (c.d == Tx || hw1) && p.nodes[q].Enabled(Other(c.d)) {
      assert p'.nodes == p.nodes[n := p.nodes[n].WithPending(c.d, true).WithEnabled(c.d, false)];
    } else if p.nodes[q].Pending(Other(c.d)) {
      assert p'.hw == DrvEnable(h1, true, Other(c.d), false).0;
    } else {
      assert p'.hw == h1;
    }
  }

  lemma {:induction false} RunKeepsInv(p: Port, cs: seq<Request>, t: nat, r: nat, hw1: bool)
    requires Inv(p, t, r, hw1)
    ensures Inv(ApplyAll(p, cs, t, r, hw1), t, r, hw1)
    decreases |cs|
  {
    if cs != [] {
      ApplyKeepsInv(p, cs[0], t, r, hw1);
      RunKeepsInv(Apply(p, cs[0], t, r, hw1).0, cs[1..], t, r, hw1);
    }
  }

  /** After any run of requests without driver failures: a direction in use runs, a running
      one is in use or has its stop pending, a pending stop means the other one is in use,
      and when neither is in use both channels are off. */
  lemma ChannelsFollowRequests(p: Port, cs: seq<Request>, t: nat, r: nat, hw1: bool)
    requires Start(p, t, r) && p.hw.fate == []
    ensures
      var p' := ApplyAll(p, cs, t, r, hw1);
      var out, inn := p'.nodes[t], p'.nodes[r];
      && (out.outEnable ==> p'.hw.tx.running) && (inn.inEnable ==> p'.hw.rx.running)
      && (p'.hw.tx.running ==> out.outEnable || out.outPending)
      && (p'.hw.rx.running ==> inn.inEnable || (hw1 && inn.inPending))
      && (out.outPending ==> inn.inEnable) && (inn.inPending ==> hw1 && out.outEnable)
      && (!out.outEnable && !inn.inEnable ==> !p'.hw.tx.running && !p'.hw.rx.running)
  {
    RunKeepsInv(p, cs, t, r, hw1);
  }

  /** No request stops TX and leaves recording enabled, nor, on HW version 1, RX and playback. */
  lemma ClockOutlivesRecording(p: Port, cs: seq<Request>, c: Request, t: nat, r: nat, hw1: bool)
    requires Start(p, t, r) && p.hw.fate == []
    ensures
      var p1 := ApplyAll(p, cs, t, r, hw1);
      var p2 := Apply(p1, c, t, r, hw1).0;
      && |p2.nodes| == |p.nodes|
      && (p1.hw.tx.running && !p2.hw.tx.running ==> !p2.nodes[r].inEnable)
      && (hw1 && p1.hw.rx.running && !p2.hw.rx.running ==> !p2.nodes[t].outEnable)
  {
    RunKeepsInv(p, cs, t, r, hw1);
    ApplyKeepsInv(ApplyAll(p, cs, t, r, hw1), c, t, r, hw1);
  }

  /** The last request for a direction. */
  function LastOf(cs: seq<Request>, d: Dir, before: bool): bool {
    if cs == [] then before else LastOf(cs[1..], d, if cs[0].d == d then cs[0].on else before)
  }

  /** A request succeeds and sets the flag of its direction alone; an enable runs the channel,
      and a disable that is not deferred stops it, and the peer's if its stop is pending. */
  lemma RequestTakesEffect(p: Port, c: Request, t: nat, r: nat, hw1: bool)
    requires Inv(p, t, r, hw1)
    ensures
      var (p', ret) := Apply(p, c, t, r, hw1);
      var n, q, e := NodeOf(c.d, t, r), NodeOf(Other(c.d), t, r), Other(c.d);
      && ret == Ok && p'.nodes[n].Enabled(c.d) == c.on && p'.nodes[q].Enabled(e) == p.nodes[q].Enabled(e)
      && (c.on ==> p'.hw.Of(c.d).running && p'.hw.Of(e) == p.hw.Of(e))
      && (!c.on && Defers(p, c.d, t, r, hw1) ==> p'.hw == p.hw && p'.nodes[n].Pending(c.d))
      && (!c.on && !Defers(p, c.d, t, r, hw1) ==>
            !p'.hw.Of(c.d).running
            && p'.hw.Of(e).running == (p.hw.Of(e).running && !p.nodes[q].Pending(e)))
  {
    var n, q := NodeOf(c.d, t, r), NodeOf(Other(c.d), t, r);
    ApplyKeepsInv(p, c, t, r, hw1);
    I2sSafety.StoppedAfterDisable(p.hw, true, c.d, c.on);
    I2sSafety.StoppedAfterDisable(DrvEnable(p.hw, true, c.d, c.on).0, true, Other(c.d), false);
  }

  lemma {:induction false} FlagsFollow(p: Port, cs: seq<Request>, t: nat, r: nat, hw1: bool)
    requires Inv(p, t, r, hw1)
    ensures
      var p' := ApplyAll(p, cs, t, r, hw1);
      && p'.nodes[t].outEnable == LastOf(cs, Tx, p.nodes[t].outEnable)
      && p'.nodes[r].inEnable == LastOf(cs, Rx, p.nodes[r].inEnable)
    decreases |cs|
  {
    if cs != [] {
      RequestTakesEffect(p, cs[0], t, r, hw1);
      ApplyKeepsInv(p, cs[0], t, r, hw1);
      FlagsFollow(Apply(p, cs[0], t, r, hw1).0, cs[1..], t, r, hw1);
    }
  }

  /** After any run a direction is in use exactly if the last request for it was an enable, and
      then its channel runs. */
  lemma InUseIsLastRequest(p: Port, cs: seq<Request>, t: nat, r: nat, hw1: bool)
    requires Start(p, t, r) && p.hw.fate == []
    ensures
      var p' := ApplyAll(p, cs, t, r, hw1);
      && p'.nodes[t].outEnable == LastOf(cs, Tx, false) && p'.nodes[r].inEnable == LastOf(cs, Rx, false)
      && (LastOf(cs, Tx, false) ==> p'.hw.tx.running) && (LastOf(cs, Rx, false) ==> p'.hw.rx.running)
      && (!LastOf(cs, Tx, false) && !LastOf(cs, Rx, false) ==> !p'.hw.tx.running && !p'.hw.rx.running)
  {
    FlagsFollow(p, cs, t, r, hw1);
    ChannelsFollowRequests(p, cs, t, r, hw1);
  }

  // ---------------------------------------------------------------- driver failures

  /** What survives driver failures of enables and disables where only TX stops are deferred:
      the playback flag never claims a channel that does not run, and a deferred stop never
      belongs to one in use. */
  predicate OutFlagTrue(p: Port, t: nat, r: nat) {
    && |p.topo| == |p.nodes| && Peers(p.topo, t, r)
    && (p.nodes[t].outEnable ==> p.hw.tx.running && !p.nodes[t].outPending)
    && !p.nodes[r].inPending
  }

  lemma {:induction false} OutFlagSurvivesFailures(p: Port, cs: seq<Request>, t: nat, r: nat)
    requires OutFlagTrue(p, t, r)
    ensures OutFlagTrue(ApplyAll(p, cs, t, r, false), t, r)
    decreases |cs|
  {
    if cs != [] {
      OutFlagStep(p, cs[0], t, r);
      OutFlagSurvivesFailures(Apply(p, cs[0], t, r, false).0, cs[1..], t, r);
    }
  }

  lemma OutFlagStep(p: Port, c: Request, t: nat, r: nat)
    requires OutFlagTrue(p, t, r)
    ensures OutFlagTrue(Apply(p, c, t, r, false).0, t, r)
  {
    var n, q := NodeOf(c.d, t, r), NodeOf(Other(c.d), t, r);
    var p' := Apply(p, c, t, r, false).0;
    var h1 := DrvEnable(p.hw, true, c.d, c.on).0;
    if !c.on && !(c.d == Tx && p.nodes[q].inEnable) && p.nodes[q].Pending(Other(c.d)) {
      assert p'.hw == DrvEnable(h1, true, Other(c.d), false).0;
    } else if c.on || !(c.d == Tx && p.nodes[q].inEnable) {
      assert p'.hw == h1;
    }
  }

  /** The own disable does not take effect immediately: the request is deferred. */
  predicate Defers(p: Port, d: Dir, t: nat, r: nat, hw1: bool)
    requires |p.nodes| == |p.topo| && t < |p.nodes| && r < |p.nodes|
  {
    (d == Tx || hw1) && p.nodes[NodeOf(Other(d), t, r)].Enabled(Other(d))
  }

  predicate TruthfulDisable(p: Port, d: Dir, t: nat, r: nat, hw1: bool, fate: seq<bool>)
    requires |p.topo| == |p.nodes| && t < |p.nodes| && r < |p.nodes|
  {
    var (p', ret) := Apply(p.(hw := p.hw.(fate := fate)), Request(d, false), t, r, hw1);
    ret == Ok ==> !p'.hw.Of(d).running
  }

  /** "A disable that returns OK has stopped its channel" is false of the code: the outcome of
      a deferred stop overwrites that of the own one. For a disable that is not deferred it
      holds under all driver failures if and only if the channel is already stopped or no
      stop of the peer is pending. */
  lemma DisableReportsTruthIff(p: Port, d: Dir, t: nat, r: nat, hw1: bool)
    requires |p.topo| == |p.nodes| && Peers(p.topo, t, r) && !Defers(p, d, t, r, hw1)
    ensures (forall fate :: TruthfulDisable(p, d, t, r, hw1, fate)) <==>
            (p.hw.Of(d).running ==> !p.nodes[NodeOf(Other(d), t, r)].Pending(Other(d)))
  {
    if p.hw.Of(d).running && p.nodes[NodeOf(Other(d), t, r)].Pending(Other(d)) {
      var fate := [true, false, true, true];
      var h := p.hw.(fate := fate);
      var (h1, own) := DrvEnable(h, true, d, false);
      assert h1.fate == [true, true] && own == DrvErr;
      assert DrvEnable(h1, true, Other(d), false).1 == Ok;
      assert !TruthfulDisable(p, d, t, r, hw1, fate);
    } else {
      forall fate: seq<bool> ensures TruthfulDisable(p, d, t, r, hw1, fate) {
      }
    }
  }

  /** Every running channel is in use or has its stop pending. */
  predicate RunningKnown(p: Port, t: nat, r: nat)
    requires t < |p.nodes| && r < |p.nodes|
  {
    && (p.hw.tx.running ==> p.nodes[t].outEnable || p.nodes[t].outPending)
    && (p.hw.rx.running ==> p.nodes[r].inEnable || p.nodes[r].inPending)
  }

  /** Every direction in use runs. */
  predicate UsedRuns(p: Port, t: nat, r: nat)
    requires t < |p.nodes| && r < |p.nodes|
  {
    (p.nodes[t].outEnable ==> p.hw.tx.running) && (p.nodes[r].inEnable ==> p.hw.rx.running)
  }

  function ApplyFate(p: Port, c: Request, t: nat, r: nat, hw1: bool, fate: seq<bool>): (p': Port)
    requires |p.topo| == |p.nodes| && t < |p.nodes| && r < |p.nodes|
    ensures p'.topo == p.topo && |p'.nodes| == |p.nodes|
  {
    Apply(p.(hw := p.hw.(fate := fate)), c, t, r, hw1).0
  }

  predicate KnownAfter(p: Port, c: Request, t: nat, r: nat, hw1: bool, fate: seq<bool>)
    requires |p.topo| == |p.nodes| && t < |p.nodes| && r < |p.nodes|
  {
    RunningKnown(ApplyFate(p, c, t, r, hw1, fate), t, r)
  }

  predicate UsedAfter(p: Port, c: Request, t: nat, r: nat, hw1: bool, fate: seq<bool>)
    requires |p.topo| == |p.nodes| && t < |p.nodes| && r < |p.nodes|
  {
    UsedRuns(ApplyFate(p, c, t, r, hw1, fate), t, r)
  }

  /** A disable that is not deferred carries out the peer's pending stop. */
  predicate StopsPeer(p: Port, d: Dir, t: nat, r: nat, hw1: bool)
    requires |p.nodes| == |p.topo| && t < |p.nodes| && r < |p.nodes|
  {
    !Defers(p, d, t, r, hw1) && p.nodes[NodeOf(Other(d), t, r)].Pending(Other(d))
  }

  /** How a direction's flags and channel stand after a disable that stops the peer, by what
      the two driver stops do. */
  lemma BothStops(p: Port, d: Dir, t: nat, r: nat, hw1: bool, fate: seq<bool>)
    requires |p.topo| == |p.nodes| && Peers(p.topo, t, r) && StopsPeer(p, d, t, r, hw1)
    ensures
      var n, q, e := NodeOf(d, t, r), NodeOf(Other(d), t, r), Other(d);
      var p' := ApplyFate(p, Request(d, false), t, r, hw1, fate);
      var (h1, own) := DrvEnable(p.hw.(fate := fate), true, d, false);
      var (h2, peer) := DrvEnable(h1, true, e, false);
      && p'.hw == h2 && !p'.nodes[q].Pending(e) && p'.nodes[q].Enabled(e) == p.nodes[q].Enabled(e)
      && p'.nodes[n].Pending(d) == p.nodes[n].Pending(d)
      && p'.nodes[n].Enabled(d) == (p.nodes[n].Enabled(d) && peer != Ok)
  {
  }

  /** The own channel stops, the peer's does not. */
  lemma OnlyOwnStops(h: Hw, d: Dir)
    ensures
      var fate := if h.Of(d).running then [true, true, false] else [true, false];
      var (h1, own) := DrvEnable(h.(fate := fate), true, d, false);
      var (h2, peer) := DrvEnable(h1, true, Other(d), false);
      peer != Ok && h2.Of(Other(d)).running == h.Of(Other(d)).running && !h2.Of(d).running
  {
    var fate := if h.Of(d).running then [true, true, false] else [true, false];
    assert DrvEnable(h.(fate := fate), true, d, false).0.fate == [false];
  }

  /** The peer's channel stops, the own one does not. */
  lemma OnlyPeerStops(h: Hw, d: Dir)
    ensures
      var (h1, own) := DrvEnable(h.(fate := [false]), true, d, false);
      var (h2, peer) := DrvEnable(h1, true, Other(d), false);
      peer == Ok && !h2.Of(Other(d)).running && h2.Of(d).running == h.Of(d).running
  {
    assert DrvEnable(h.(fate := [false]), true, d, false).0.fate == [];
  }

  /** "Every running channel is in use or about to stop" survives an enable under all driver
      failures iff the channel does not run for a pending stop alone, and a disable iff, where
      it carries out a stop of the peer's, the peer's channel is off or in use and its own one
      is off or about to stop. */
  lemma RunningStaysKnownIff(p: Port, c: Request, t: nat, r: nat, hw1: bool)
    requires |p.topo| == |p.nodes| && Peers(p.topo, t, r) && RunningKnown(p, t, r)
    ensures
      var n, q, e := NodeOf(c.d, t, r), NodeOf(Other(c.d), t, r), Other(c.d);
      (forall fate :: KnownAfter(p, c, t, r, hw1, fate)) <==>
      if c.on then p.hw.Of(c.d).running ==> p.nodes[n].Enabled(c.d)
      else StopsPeer(p, c.d, t, r, hw1) ==>
        (p.hw.Of(e).running ==> p.nodes[q].Enabled(e)) && (p.hw.Of(c.d).running ==> p.nodes[n].Pending(c.d))
  {
    if c.on {
      EnableKeepsKnownIff(p, c.d, t, r, hw1);
    } else if StopsPeer(p, c.d, t, r, hw1) {
      StopKeepsKnownIff(p, c.d, t, r, hw1);
    } else {
      forall fate: seq<bool> ensures KnownAfter(p, c, t, r, hw1, fate) {
        PlainStopKeeps(p, c.d, t, r, hw1, fate);
      }
    }
  }

  lemma PlainStopKeeps(p: Port, d: Dir, t: nat, r: nat, hw1: bool, fate: seq<bool>)
    requires |p.topo| == |p.nodes| && Peers(p.topo, t, r) && !StopsPeer(p, d, t, r, hw1)
    ensures RunningKnown(p, t, r) ==> KnownAfter(p, Request(d, false), t, r, hw1, fate)
    ensures UsedRuns(p, t, r) ==> UsedAfter(p, Request(d, false), t, r, hw1, fate)
  {
  }

  lemma EnableKeepsKnownIff(p: Port, d: Dir, t: nat, r: nat, hw1: bool)
    requires |p.topo| == |p.nodes| && Peers(p.topo, t, r) && RunningKnown(p, t, r)
    ensures (forall fate :: KnownAfter(p, Request(d, true), t, r, hw1, fate)) <==>
            (p.hw.Of(d).running ==> p.nodes[NodeOf(d, t, r)].Enabled(d))
  {
    if p.hw.Of(d).running && !p.nodes[NodeOf(d, t, r)].Enabled(d) {
      assert !KnownAfter(p, Request(d, true), t, r, hw1, [false]);
    } else {
      forall fate: seq<bool> ensures KnownAfter(p, Request(d, true), t, r, hw1, fate) {
      }
    }
  }

  lemma FailedPeerStopIsUnknown(p: Port, d: Dir, t: nat, r: nat, hw1: bool)
    requires |p.topo| == |p.nodes| && Peers(p.topo, t, r) && StopsPeer(p, d, t, r, hw1)
    requires p.hw.Of(Other(d)).running && !p.nodes[NodeOf(Other(d), t, r)].Enabled(Other(d))
    ensures exists fate :: !KnownAfter(p, Request(d, false), t, r, hw1, fate)
  {
    var fate := if p.hw.Of(d).running then [true, true, false] else [true, false];
    OnlyOwnStops(p.hw, d);
    BothStops(p, d, t, r, hw1, fate);
    assert !KnownAfter(p, Request(d, false), t, r, hw1, fate);
  }

  lemma StopKeepsKnownIff(p: Port, d: Dir, t: nat, r: nat, hw1: bool)
    requires |p.topo| == |p.nodes| && Peers(p.topo, t, r) && RunningKnown(p, t, r) && StopsPeer(p, d, t, r, hw1)
    ensures
      var n, q, e := NodeOf(d, t, r), NodeOf(Other(d), t, r), Other(d);
      (forall fate :: KnownAfter(p, Request(d, false), t, r, hw1, fate)) <==>
      (p.hw.Of(e).running ==> p.nodes[q].Enabled(e)) && (p.hw.Of(d).running ==> p.nodes[n].Pending(d))
  {
    var n, q, e, c := NodeOf(d, t, r), NodeOf(Other(d), t, r), Other(d), Request(d, false);
    if p.hw.Of(e).running && !p.nodes[q].Enabled(e) {
      FailedPeerStopIsUnknown(p, d, t, r, hw1);
    } else if p.hw.Of(d).running && !p.nodes[n].Pending(d) {
      FailedOwnStopIsUnknown(p, d, t, r, hw1);
    } else {
      forall fate: seq<bool> ensures KnownAfter(p, c, t, r, hw1, fate) {
        StopsStayKnown(p, d, t, r, hw1, fate);
      }
    }
  }

  lemma FailedOwnStopIsUnknown(p: Port, d: Dir, t: nat, r: nat, hw1: bool)
    requires |p.topo| == |p.nodes| && Peers(p.topo, t, r) && StopsPeer(p, d, t, r, hw1)
    requires p.hw.Of(d).running && !p.nodes[NodeOf(d, t, r)].Pending(d)
    ensures exists fate :: !KnownAfter(p, Request(d, false), t, r, hw1, fate)
  {
    OnlyPeerStops(p.hw, d);
    BothStops(p, d, t, r, hw1, [false]);
    assert !KnownAfter(p, Request(d, false), t, r, hw1, [false]);
  }

  lemma StopsStayKnown(p: Port, d: Dir, t: nat, r: nat, hw1: bool, fate: seq<bool>)
    requires |p.topo| == |p.nodes| && Peers(p.topo, t, r) && StopsPeer(p, d, t, r, hw1)
    requires p.hw.Of(Other(d)).running ==> p.nodes[NodeOf(Other(d), t, r)].Enabled(Other(d))
    requires p.hw.Of(d).running ==> p.nodes[NodeOf(d, t, r)].Pending(d)
    ensures KnownAfter(p, Request(d, false), t, r, hw1, fate)
  {
    BothStops(p, d, t, r, hw1, fate);
  }

  /** "Every direction in use runs" survives an enable under all driver failures, and a
      disable iff that does not carry out a stop of the peer's or neither direction is in use. */
  lemma UsedKeepsRunningIff(p: Port, c: Request, t: nat, r: nat, hw1: bool)
    requires |p.topo| == |p.nodes| && Peers(p.topo, t, r) && UsedRuns(p, t, r)
    ensures (forall fate :: UsedAfter(p, c, t, r, hw1, fate)) <==>
            c.on || !StopsPeer(p, c.d, t, r, hw1) || (!p.nodes[t].outEnable && !p.nodes[r].inEnable)
  {
    var n, q, d, e := NodeOf(c.d, t, r), NodeOf(Other(c.d), t, r), c.d, Other(c.d);
    if c.on {
      forall fate: seq<bool> ensures UsedAfter(p, c, t, r, hw1, fate) {
      }
    } else if !StopsPeer(p, d, t, r, hw1) {
      forall fate: seq<bool> ensures UsedAfter(p, c, t, r, hw1, fate) {
        PlainStopKeeps(p, d, t, r, hw1, fate);
      }
    } else if p.nodes[n].Enabled(d) {
      OnlyOwnStops(p.hw, d);
      BothStops(p, d, t, r, hw1, [true, true, false]);
      assert !UsedAfter(p, c, t, r, hw1, [true, true, false]);
    } else if p.nodes[q].Enabled(e) {
      OnlyPeerStops(p.hw, d);
      BothStops(p, d, t, r, hw1, [false]);
      assert !UsedAfter(p, c, t, r, hw1, [false]);
    } else {
      forall fate: seq<bool> ensures UsedAfter(p, c, t, r, hw1, fate) {
        BothStops(p, d, t, r, hw1, fate);
      }
    }
  }

  /** Both properties lost in a run from the start: playback and recording on, playback off
      (deferred), recording off, and the driver fails the deferred stop. TX runs on with
      neither flag set, and recording counts as in use over a stopped RX. */
  lemma FailedDeferredStopLosesTx(p: Port, t: nat, r: nat, hw1: bool)
    requires Start(p, t, r) && p.hw.fate == [true, true, true, true, true, true, false]
    ensures
      var p' := ApplyAll(p, [Request(Tx, true), Request(Rx, true), Request(Tx, false), Request(Rx, false)], t, r, hw1);
      && p'.hw.tx.running && !p'.nodes[t].outEnable && !p'.nodes[t].outPending
      && !p'.hw.rx.running && p'.nodes[r].inEnable
  {
    var c1, c2, c3, c4 := Request(Tx, true), Request(Rx, true), Request(Tx, false), Request(Rx, false);
    var p1 := Apply(p, c1, t, r, hw1).0;
    assert p1.hw.fate == [true, true, true, true, false];
    var p2 := Apply(p1, c2, t, r, hw1).0;
    assert p2.hw.fate == [true, true, false];
    var p3 := Apply(p2, c3, t, r, hw1).0;
    var p4 := Apply(p3, c4, t, r, hw1).0;
    assert DrvEnable(p3.hw, true, Rx, false).0.fate == [false];
    assert [c1, c2, c3, c4][1..] == [c2, c3, c4] && [c2, c3, c4][1..] == [c3, c4] && [c3, c4][1..] == [c4];
  }

  /** And a run in which only the own stop fails: the disable reports success, but RX runs on
      with neither flag set. */
  lemma FailedOwnStopLosesRx(p: Port, t: nat, r: nat, hw1: bool)
    requires Start(p, t, r) && p.hw.fate == [true, true, true, true, true, false, true, true]
    ensures
      var p1 := Apply(p, Request(Tx, true), t, r, hw1).0;
      var p2 := Apply(p1, Request(Rx, true), t, r, hw1).0;
      var p3 := Apply(p2, Request(Tx, false), t, r, hw1).0;
      var (p', ret) := Apply(p3, Request(Rx, false), t, r, hw1);
      ret == Ok && p'.hw.rx.running && !p'.nodes[r].inEnable && !p'.nodes[r].inPending && !p'.hw.tx.running
  {
    var p1 := Apply(p, Request(Tx, true), t, r, hw1).0;
    assert p1.hw.fate == [true, true, true, false, true, true];
    var p2 := Apply(p1, Request(Rx, true), t, r, hw1).0;
    assert p2.hw.fate == [true, false, true, true];
    var p3 := Apply(p2, Request(Tx, false), t, r, hw1).0;
    assert DrvEnable(p3.hw, true, Rx, false).0.fate == [true, true];
  }

  // ---------------------------------------------------------------- formats under failures

  /** A negotiation that does not widen the frame leaves an active peer's channel alone. */
  lemma NarrowNegotiationSparesPeer(p: Port, d: Dir, t: nat, r: nat, f: Fmt)
    requires p.Valid() && Peers(p.topo, t, r) && f.channel > 0 && !p.hw.Of(d).running
    requires p.nodes[NodeOf(Other(d), t, r)].Enabled(Other(d)) && !Widens(p, d, t, r, f)
    ensures
      var h := CheckFsCompatible(p, NodeOf(d, t, r), d, f).0.hw;
      h.Of(Other(d)) == p.hw.Of(Other(d))
  {
    var n, q := NodeOf(d, t, r), NodeOf(Other(d), t, r);
    match PathOf(p, d, f)
    case RateConflict =>
    case Same => I2sSafety.SetFsSafe(p.topo, AloneFormats(p.nodes, n, None, d, f), p.hw, n, d, false);
    case ExtendSelf =>
      I2sSafety.SetDrvFsOnStopped(p.hw, p.topo[n].Has(d), d, U8(p.nodes[q].fs.Frame() / f.channel), f);
    case ExpandPeer =>
      I2sSafety.SetFsSafe(p.topo, ExpandFormats(p.nodes, n, q, d, f, false), p.hw, n, d, false);
  }

  /** The new format has the rate of the peer's and a wider frame. */
  predicate Widens(p: Port, d: Dir, t: nat, r: nat, f: Fmt)
    requires t < |p.nodes| && r < |p.nodes|
  {
    var g := p.nodes[NodeOf(Other(d), t, r)].fs;
    f.rate == g.rate && f.Frame() > g.Frame()
  }

  predicate PeerRunsAfterFmt(p: Port, d: Dir, t: nat, r: nat, f: Fmt, fate: seq<bool>)
    requires p.Valid() && t < |p.nodes| && r < |p.nodes| && f.channel > 0
  {
    SetFmtOne(p.(hw := p.hw.(fate := fate)), NodeOf(d, t, r), d, f).0.hw.Of(Other(d)).running
  }

  /** A set_fmt for one direction leaves the running channel of an active peer running, under
      all driver failures, if and only if it does not widen the peer's frame: one that does
      stops the peer and does not start it again when a call fails in between. */
  lemma SetFmtSparesPeerIff(p: Port, d: Dir, t: nat, r: nat, f: Fmt)
    requires p.Valid() && Peers(p.topo, t, r) && f.channel > 0
    requires p.nodes[NodeOf(Other(d), t, r)].Enabled(Other(d)) && p.hw.Of(Other(d)).running
    ensures (forall fate :: PeerRunsAfterFmt(p, d, t, r, f, fate)) <==> !Widens(p, d, t, r, f)
  {
    if Widens(p, d, t, r, f) {
      WideningStopsPeer(p, d, t, r, f);
    } else {
      forall fate: seq<bool> ensures PeerRunsAfterFmt(p, d, t, r, f, fate) {
        NarrowFmtSparesPeer(p.(hw := p.hw.(fate := fate)), d, t, r, f);
      }
    }
  }

  lemma NarrowFmtSparesPeer(p: Port, d: Dir, t: nat, r: nat, f: Fmt)
    requires p.Valid() && Peers(p.topo, t, r) && f.channel > 0 && !Widens(p, d, t, r, f)
    requires p.nodes[NodeOf(Other(d), t, r)].Enabled(Other(d))
    ensures SetFmtOne(p, NodeOf(d, t, r), d, f).0.hw.Of(Other(d)) == p.hw.Of(Other(d))
  {
    var h1 := Call(p.hw).0;
    I2sSafety.StoppedAfterDisable(h1, true, d, false);
    var (h2, stop) := DrvEnable(h1, true, d, false);
    if stop == Ok {
      NarrowNegotiationSparesPeer(p.(hw := h2), d, t, r, f);
      var p3 := CheckFsCompatible(p.(hw := h2), NodeOf(d, t, r), d, f).0;
      I2sSafety.StoppedAfterDisable(p3.hw, true, d, true);
    }
  }

  /** The failing call: the peer is stopped, and the driver does not answer for the own one. */
  lemma WideningStopsPeer(p: Port, d: Dir, t: nat, r: nat, f: Fmt)
    requires p.Valid() && Peers(p.topo, t, r) && f.channel > 0 && Widens(p, d, t, r, f)
    requires p.nodes[NodeOf(Other(d), t, r)].Enabled(Other(d)) && p.hw.Of(Other(d)).running
    ensures exists fate :: !PeerRunsAfterFmt(p, d, t, r, f, fate)
  {
    var n, q := NodeOf(d, t, r), NodeOf(Other(d), t, r);
    var tail := [true, true, true, false];
    var fate := (if p.hw.Of(d).running then [true, true, true] else [true, true]) + tail;
    var p1 := p.(hw := p.hw.(fate := fate));
    var h2 := DrvEnable(Call(p1.hw).0, true, d, false).0;
    assert h2.fate == tail && !h2.Of(d).running && DrvEnable(Call(p1.hw).0, true, d, false).1 == Ok;
    ExpandStopsPeer(p.(hw := h2), d, t, r, f);
    assert SetFmtOne(p1, n, d, f) == CompatExpandPeer(p.(hw := h2), n, q, d, f);
    assert !PeerRunsAfterFmt(p, d, t, r, f, fate);
  }

  lemma ExpandStopsPeer(p: Port, d: Dir, t: nat, r: nat, f: Fmt)
    requires p.Valid() && Peers(p.topo, t, r) && f.channel > 0 && Widens(p, d, t, r, f)
    requires p.nodes[NodeOf(Other(d), t, r)].Enabled(Other(d)) && p.hw.Of(Other(d)).running && !p.hw.Of(d).running
    requires p.hw.fate == [true, true, true, false]
    ensures PathOf(p, d, f) == ExpandPeer
    ensures
      var (p', ret) := CompatExpandPeer(p, NodeOf(d, t, r), NodeOf(Other(d), t, r), d, f);
      ret == DrvErr && !p'.hw.Of(Other(d)).running
  {
    var n, q := NodeOf(d, t, r), NodeOf(Other(d), t, r);
    var (h1, stop) := DrvEnable(p.hw, true, Other(d), false);
    assert stop == Ok && h1.fate == [true, false] && !h1.Of(Other(d)).running;
    var nodes := ExpandFormats(p.nodes, n, q, d, f, true);
    assert Call(h1).0.fate == [false] && Call(Call(h1).0).0.fate == [] && !Call(Call(h1).0).1;
    assert SetFs(p.topo, nodes, h1, n, d, false) == (h1.(fate := []), DrvErr);
  }

  /** So the playback flag may claim a stopped channel after all: playback is in use at 16 bits,
      recording asks for 32, and the driver fails once the playback channel is stopped. */
  lemma FailedSetFmtStopsPlayback()
    ensures
      var narrow, wide := Fmt(16, 2, 3, 48000), Fmt(32, 2, 3, 48000);
      var node := Node(true, false, false, false, false, false, narrow, narrow, narrow);
      var hw := Hw(Chan(Std, true, 16, 2, 48000), Chan(Std, false, 16, 2, 48000),
                   [true, true, true, true, true, false], 0);
      var (p', ret) := SetFmt(Port([Handles(true, true)], [node], hw), 0, In, wide);
      ret == DrvErr && |p'.nodes| == 1 && p'.nodes[0].outEnable && !p'.hw.tx.running
  {
    var narrow, wide := Fmt(16, 2, 3, 48000), Fmt(32, 2, 3, 48000);
    var node := Node(true, false, false, false, false, false, narrow, narrow, narrow);
    var tail := [true, true, true, false];
    var hw := Hw(Chan(Std, true, 16, 2, 48000), Chan(Std, false, 16, 2, 48000), [true, true] + tail, 0);
    var p := Port([Handles(true, true)], [node], hw);
    DuplexNodeIsItsOwnPeer(p.topo);
    assert hw.fate == [true, true, true, true, true, false];
    var h2 := DrvEnable(Call(hw).0, true, Rx, false).0;
    assert h2 == hw.(fate := tail);
    ExpandStopsPeer(p.(hw := h2), Rx, 0, 0, wide);
    assert SetFmtOne(p, 0, Rx, wide) == CompatExpandPeer(p.(hw := h2), 0, 0, Rx, wide);
  }

  // ---------------------------------------------------------------- both directions at once

  predicate FlagsTrue(p: Port, n: nat) {
    && |p.topo| == |p.nodes| && n < |p.nodes|
    && p.nodes[n].outEnable == p.hw.tx.running
    && p.nodes[n].inEnable == p.hw.rx.running
  }

  function EnableBothAll(p: Port, ons: seq<bool>, n: nat): (p': Port)
    requires |p.topo| == |p.nodes| && n < |p.nodes|
    decreases |ons|
  {
    if ons == [] then p
    else
      var p1 := EnableBoth(p, n, ons[0]).0;
      if |p1.topo| == |p1.nodes| && n < |p1.nodes| then EnableBothAll(p1, ons[1..], n) else p1
  }

  /** Enabling and disabling both directions in one call keeps the flags equal to the driver's
      state under every pattern of driver failures, failed rollbacks included. */
  lemma {:induction false} InOutFlagsSurviveFailures(p: Port, ons: seq<bool>, n: nat)
    requires FlagsTrue(p, n)
    ensures FlagsTrue(EnableBothAll(p, ons, n), n)
    decreases |ons|
  {
    if ons != [] {
      InOutStep(p, n, ons[0]);
      InOutFlagsSurviveFailures(EnableBoth(p, n, ons[0]).0, ons[1..], n);
    }
  }

  /** RX refuses after TX has switched, and TX cannot be put back. */
  predicate RollbackFails(p: Port, n: nat, on: bool)
    requires |p.topo| == |p.nodes| && n < |p.nodes|
  {
    var (h1, txInfo) := Call(p.hw);
    var (h2, rxInfo) := Call(h1);
    var (h3, tx) := DrvEnable(h2, true, Tx, on);
    var (h4, rx) := DrvEnable(h3, true, Rx, on);
    && p.topo[n].tx && p.topo[n].rx && txInfo && rxInfo && tx == Ok && rx != Ok
    && DrvEnable(h4, true, Tx, p.hw.tx.running).1 != Ok
  }

  /** A success switches both channels and sets both flags; a failure leaves all four as they
      were, unless TX is stuck, which the flag then tells. Other nodes are left alone. */
  predicate BothOrNeither(p: Port, n: nat, on: bool, p': Port, ret: Ret, stuck: bool)
    requires n < |p.nodes|
  {
    && p'.topo == p.topo && |p'.nodes| == |p.nodes|
    && (forall i :: 0 <= i < |p.nodes| && i != n ==> p'.nodes[i] == p.nodes[i])
    && (ret == Ok ==> p'.hw.tx.running == p'.hw.rx.running == on
                      && p'.nodes[n].outEnable == p'.nodes[n].inEnable == on)
    && (ret != Ok ==> p'.hw.rx == p.hw.rx && p'.nodes[n].inEnable == p.nodes[n].inEnable)
    && (ret != Ok && !stuck ==> p'.hw.tx == p.hw.tx && p'.nodes == p.nodes)
    && (stuck ==> ret != Ok && p'.hw.tx.running == p'.nodes[n].outEnable == on)
  }

  lemma RxFollows(p: Port, n: nat, h: Hw, on: bool)
    requires n < |p.nodes| && h.tx == p.hw.tx.(running := on) && h.rx == p.hw.rx
    ensures
      var (p', ret) := EnableRxAfterTx(p, n, h, on);
      var (h1, rx) := DrvEnable(h, true, Rx, on);
      var stuck := rx != Ok && DrvEnable(h1, true, Tx, p.hw.tx.running).1 != Ok;
      BothOrNeither(p, n, on, p', ret, stuck) && (h.fate == [] ==> ret == Ok)
  {
    I2sSafety.StoppedAfterDisable(h, true, Rx, on);
    I2sSafety.StoppedAfterDisable(DrvEnable(h, true, Rx, on).0, true, Tx, p.hw.tx.running);
  }

  /** Under every pattern of driver failures: enabling or disabling both directions reports
      success only with both channels and both flags as asked for, and a failure changes
      nothing unless TX cannot be put back. Without failures it succeeds on a node with both
      handles. */
  lemma BothSwitchTogether(p: Port, n: nat, on: bool)
    requires |p.topo| == |p.nodes| && n < |p.nodes|
    ensures
      var (p', ret) := EnableBoth(p, n, on);
      && BothOrNeither(p, n, on, p', ret, RollbackFails(p, n, on))
      && (p.hw.fate == [] ==> (ret == Ok <==> p.topo[n].tx && p.topo[n].rx))
  {
    var (h1, txInfo) := Call(p.hw);
    var (h2, rxInfo) := Call(h1);
    if p.topo[n].tx && p.topo[n].rx && txInfo && rxInfo {
      BothOnceAnswered(p, n, on, h2);
      assert EnableBoth(p, n, on) == SwitchedFrom(p, n, on, h2);
    }
  }

  /** Both directions, once the driver has answered for them. */
  function SwitchedFrom(p: Port, n: nat, on: bool, h: Hw): (Port, Ret)
    requires n < |p.nodes|
  {
    var (h1, tx) := DrvEnable(h, true, Tx, on);
    if tx != Ok then (p.(hw := h1), tx) else EnableRxAfterTx(p, n, h1, on)
  }

  lemma BothOnceAnswered(p: Port, n: nat, on: bool, h: Hw)
    requires n < |p.nodes| && h.tx == p.hw.tx && h.rx == p.hw.rx
    ensures
      var (p', ret) := SwitchedFrom(p, n, on, h);
      var (h1, tx) := DrvEnable(h, true, Tx, on);
      var (h2, rx) := DrvEnable(h1, true, Rx, on);
      var stuck := tx == Ok && rx != Ok && DrvEnable(h2, true, Tx, p.hw.tx.running).1 != Ok;
      BothOrNeither(p, n, on, p', ret, stuck) && (h.fate == [] ==> ret == Ok)
  {
    I2sSafety.StoppedAfterDisable(h, true, Tx, on);
    var (h1, tx) := DrvEnable(h, true, Tx, on);
    if tx == Ok {
      RxFollows(p, n, h1, on);
    }
  }

  lemma InOutStep(p: Port, n: nat, on: bool)
    requires FlagsTrue(p, n)
    ensures FlagsTrue(EnableBoth(p, n, on).0, n)
  {
    var h2 := Call(Call(p.hw).0).0;
    I2sSafety.StoppedAfterDisable(h2, true, Tx, on);
    if p.topo[n].tx && p.topo[n].rx {
      var (h3, tx) := DrvEnable(h2, true, Tx, on);
      if tx == Ok {
        RxAfterTxStep(p, n, h3, on);
      }
    }
  }

  lemma RxAfterTxStep(p: Port, n: nat, h: Hw, on: bool)
    requires FlagsTrue(p, n) && h.tx.running == on && h.rx.running == p.hw.rx.running
    ensures FlagsTrue(EnableRxAfterTx(p, n, h, on).0, n)
  {
    I2sSafety.StoppedAfterDisable(h, true, Rx, on);
    I2sSafety.StoppedAfterDisable(DrvEnable(h, true, Rx, on).0, true, Tx, p.hw.tx.running);
  }
}

/**
 The device lifecycle of components/esp_codec_dev/esp_codec_dev.c: open with rollback, close
 and delete that can be retried. Every enable call of the data interface and of the codec may
 fail, with or without having taken effect, and both interfaces may lack functions.
 */
module CodecDev {

  datatype Side = Data | Codec

  /** What an enable call does: it works, fails without effect, or fails after the effect. */
  datatype Outcome = Done | NoEffect | Late

  datatype Call = Call(side: Side, on: bool, ok: bool)

  /** Whether each side really is on, the enable calls so far, and the outcomes of the calls to
      come; when those run out, calls work. */
  datatype Hw = Hw(dataOn: bool, codecOn: bool, log: seq<Call>, fate: seq<Outcome>)

  function Next(fate: seq<Outcome>): Outcome { if fate == [] then Done else fate[0] }

  function Later(fate: seq<Outcome>): seq<Outcome> { if fate == [] then [] else fate[1..] }

  function Toggle(hw: Hw, side: Side, on: bool): (Hw, bool) {
    var outcome := Next(hw.fate);
    var dataOn := if side == Data && outcome != NoEffect then on else hw.dataOn;
    var codecOn := if side == Codec && outcome != NoEffect then on else hw.codecOn;
    (Hw(dataOn, codecOn, hw.log + [Call(side, on, outcome == Done)], Later(hw.fate)), outcome == Done)
  }

  /** Capabilities, and the functions the interfaces have. */
  datatype Cfg = Cfg(input: bool, output: bool, canRead: bool, canWrite: bool, dataSetFmt: bool, dataEnable: bool,
                     codec: bool, codecSetFs: bool, codecEnable: bool, codecSetVol: bool)

  /** The map of the volume curve: whether the device refers to one, whether that is allocated
      still, and how many were allocated and freed. */
  datatype CurveMap = CurveMap(held: bool, live: bool, made: nat, freed: nat)

  function NewMap(memory: bool): CurveMap {
    if memory then CurveMap(true, true, 1, 0) else CurveMap(false, false, 0, 0)
  }

  /** The size of a curve of `count` points, of 8 bytes each, in 32 bits. */
  function CurveBytes(count: int): nat { count * 8 % 0x1_0000_0000 }

  /** realloc to `size` bytes. To none, it frees the map and returns nothing; so it does to
      any number when the map was freed before, but with a new map. */
  function Realloc(c: CurveMap, size: nat, memory: bool): (CurveMap, bool) {
    if size == 0 && c.held then (c.(live := false, freed := c.freed + 1), false)
    else if !memory then (c, false)
    else if !c.held then (CurveMap(true, true, c.made + 1, c.freed), true)
    else if c.live then (c, true)
    else (c.(live := true, made := c.made + 1, freed := c.freed + 1), true)
  }

  function FreeMap(c: CurveMap): CurveMap {
    if c.held then CurveMap(false, false, c.made, c.freed + 1) else c
  }

  /** The mirror and the curve of a device, and how many mirrors were made and freed. */
  datatype Heap = Heap(mirror: bool, mirrorsMade: nat, mirrorsFreed: nat, curve: CurveMap)

  /** codec_dev_t */
  datatype Dev = Dev(cfg: Cfg, hw: Hw, inputOpened: bool, outputOpened: bool, dataEnabled: bool, codecEnabled: bool,
                     disableWhenClosed: bool, swVol: bool, swVolAlloced: bool, heap: Heap, deleted: bool)

  datatype Code = Ok | InvalidArg | NotSupport | WrongState | NoMem | DrvErr | FromDriver

  /** How the calls that an open makes besides the enables turn out. */
  datatype Answers = Answers(codecOpen: bool, dataOpen: bool, fmtOk: bool, fsOk: bool)

  /** esp_codec_dev_new; the curve may fail to be allocated unnoticed. */
  function New(cfg: Cfg, memory: bool, fate: seq<Outcome>): Dev {
    Dev(cfg, Hw(false, false, [], fate), false, false, false, false, true, false, false,
        Heap(false, 0, 0, NewMap(cfg.output && memory)), false)
  }

  function Flag(d: Dev, side: Side, on: bool): Dev {
    if side == Data then d.(dataEnabled := on) else d.(codecEnabled := on)
  }

  /** Enables a side, whose flag is set before the call. */
  function Enabled(d: Dev, side: Side): (Dev, bool) {
    var (hw, ok) := Toggle(d.hw, side, true);
    (Flag(d.(hw := hw), side, true), ok)
  }

  /** Disables a side, whose flag is cleared when the call succeeds. */
  function Disabled(d: Dev, side: Side): (Dev, bool) {
    var (hw, ok) := Toggle(d.hw, side, false);
    (if ok then Flag(d.(hw := hw), side, false) else d.(hw := hw), ok)
  }

  function Rollback(d: Dev): Dev {
    var d1 := if d.codecEnabled && d.cfg.codec && d.cfg.codecEnable then Disabled(d, Codec).0 else d;
    if d1.dataEnabled && d1.cfg.dataEnable then Disabled(d1, Data).0 else d1
  }

  function Opened(d: Dev, input: bool, output: bool): Dev {
    var makes := d.outputOpened && (!d.cfg.codec || !d.cfg.codecSetVol) && !d.swVol;
    var d1 := if makes then d.(swVol := true, swVolAlloced := true) else d;
    d1.(inputOpened := input, outputOpened := output)
  }

  function EnableCodec(d: Dev, fsOk: bool): (Dev, bool) {
    if !d.cfg.codec then (d, true)
    else if d.cfg.codecSetFs && !fsOk then (d, false)
    else if !d.cfg.codecEnable then (d, true)
    else Enabled(d, Codec)
  }

  function OpenCodec(d: Dev, input: bool, output: bool, fsOk: bool): (Dev, Code) {
    var (d1, ok) := EnableCodec(d, fsOk);
    if ok then (Opened(d1, input, output), Ok) else (Rollback(d1), DrvErr)
  }

  function OpenData(d: Dev, input: bool, output: bool, fsOk: bool): (Dev, Code) {
    if !d.cfg.dataEnable then OpenCodec(d, input, output, fsOk)
    else
      var (d1, ok) := Enabled(d, Data);
      if ok then OpenCodec(d1, input, output, fsOk) else (Disabled(d1, Data).0, FromDriver)
  }

  /** _verify_drv_ready */
  predicate DrvReady(cfg: Cfg, a: Answers, playback: bool) {
    (cfg.codec ==> a.codecOpen) && a.dataOpen && if playback then cfg.canWrite else cfg.canRead
  }

  /** esp_codec_dev_open */
  function Open(d: Dev, a: Answers): (Dev, Code) {
    if d.inputOpened || d.outputOpened then (d, Ok)
    else
      var input := d.cfg.input && DrvReady(d.cfg, a, false);
      var output := d.cfg.output && DrvReady(d.cfg, a, true);
      if !input && !output then (d, NotSupport)
      else if d.cfg.dataSetFmt && !a.fmtOk then (d, FromDriver)
      else OpenData(d, input, output, a.fsOk)
  }

  function FreeMirror(d: Dev): Dev {
    if d.heap.mirror then d.(heap := d.heap.(mirror := false, mirrorsFreed := d.heap.mirrorsFreed + 1)) else d
  }

  function MarkClosed(d: Dev): Dev {
    FreeMirror(d.(inputOpened := false, outputOpened := false))
  }

  function CloseData(d: Dev): (Dev, Code) {
    if d.dataEnabled && d.cfg.dataEnable then
      var (d1, ok) := Disabled(d, Data);
      if ok then (MarkClosed(d1), Ok) else (d1, FromDriver)
    else (MarkClosed(d), Ok)
  }

  /** esp_codec_dev_close */
  function Close(d: Dev): (Dev, Code) {
    if !d.outputOpened && !d.inputOpened && !d.codecEnabled && !d.dataEnabled then (FreeMirror(d), Ok)
    else if d.codecEnabled && d.disableWhenClosed && d.cfg.codec && d.cfg.codecEnable then
      var (d1, ok) := Disabled(d, Codec);
      if ok then CloseData(d1) else (d1, FromDriver)
    else CloseData(d)
  }

  /** esp_codec_dev_delete */
  function Delete(d: Dev): (Dev, Code) {
    var (d1, code) := Close(d);
    if code != Ok then (d1, code)
    else (d1.(heap := d1.heap.(curve := FreeMap(d1.heap.curve)), deleted := true), Ok)
  }

  /** esp_codec_dev_mirror_cfg */
  function MirrorCfg(d: Dev, size: int, memory: bool): (Dev, Code) {
    if size <= 0 then (d, InvalidArg)
    else if !d.cfg.input then (d, NotSupport)
    else if d.heap.mirror then (d, Ok)
    else if !memory then (d, NoMem)
    else (d.(heap := d.heap.(mirror := true, mirrorsMade := d.heap.mirrorsMade + 1)), Ok)
  }

  /** _verify_codec_setting for playback. */
  function VerifyOutput(cfg: Cfg, codecOpen: bool): Code {
    if !cfg.output then NotSupport else if cfg.codec && !codecOpen then WrongState else Ok
  }

  /** esp_codec_dev_set_vol_curve, with a curve that has a map or has none. */
  function SetCurve(d: Dev, codecOpen: bool, hasMap: bool, count: int, memory: bool): (Dev, Code) {
    if !hasMap then (d, InvalidArg)
    else if VerifyOutput(d.cfg, codecOpen) != Ok then (d, VerifyOutput(d.cfg, codecOpen))
    else
      var (curve, ok) := Realloc(d.heap.curve, CurveBytes(count), memory);
      (d.(heap := d.heap.(curve := curve)), if ok then Ok else NoMem)
  }

  /** esp_codec_dev_set_vol_handler */
  function SetVolHandler(d: Dev, codecOpen: bool): (Dev, Code) {
    if VerifyOutput(d.cfg, codecOpen) != Ok then (d, VerifyOutput(d.cfg, codecOpen))
    else (d.(swVol := true, swVolAlloced := false), Ok)
  }

  datatype Op = OpenIt(a: Answers) | CloseIt | DeleteIt | MirrorIt(size: int, memory: bool)
              | CurveIt(codecOpen: bool, hasMap: bool, count: int, memory: bool)
              | VolHandlerIt(codecOpen: bool) | DisableWhenClosedIt(disable: bool)

  /** A deleted handle is not used again. */
  function Step(d: Dev, op: Op): (Dev, Code) {
    if d.deleted then (d, Ok)
    else match op
      case OpenIt(a) => Open(d, a)
      case CloseIt => Close(d)
      case DeleteIt => Delete(d)
      case MirrorIt(size, memory) => MirrorCfg(d, size, memory)
      case CurveIt(codecOpen, hasMap, count, memory) => SetCurve(d, codecOpen, hasMap, count, memory)
      case VolHandlerIt(codecOpen) => SetVolHandler(d, codecOpen)
      case DisableWhenClosedIt(disable) => (d.(disableWhenClosed := disable), Ok)
  }

  function Run(d: Dev, ops: seq<Op>): Dev
    decreases |ops|
  {
    if ops == [] then d else Run(Step(d, ops[0]).0, ops[1..])
  }

  // ---------------------------------------------------------------- the invariant

  /** Whether a side has been called and the last call was not a successful disable. */
  predicate NeedsOff(log: seq<Call>, side: Side) {
    if log == [] then false
    else
      var last := log[|log| - 1];
      if last.side == side then last.on || !last.ok else NeedsOff(log[..|log| - 1], side)
  }

  /** No side is disabled that needs it not. */
  predicate NoVainDisable(log: seq<Call>) {
    forall k :: 0 <= k < |log| && !log[k].on ==> NeedsOff(log[..k], log[k].side)
  }

  function Live(c: CurveMap): nat { if c.live then 1 else 0 }

  /** The device refers to a map exactly if it is allocated, and each other one was freed once. */
  predicate MapSound(c: CurveMap) {
    c.held == c.live && c.freed + Live(c) == c.made
  }

  predicate Owned(h: Heap) {
    && h.mirrorsMade == h.mirrorsFreed + (if h.mirror then 1 else 0)
    && (h.curve.live ==> h.curve.held) && h.curve.freed + Live(h.curve) >= h.curve.made
  }

  predicate Flagged(d: Dev) {
    && (d.hw.dataOn ==> d.dataEnabled) && (d.hw.codecOn ==> d.codecEnabled)
    && d.dataEnabled == NeedsOff(d.hw.log, Data) && d.codecEnabled == NeedsOff(d.hw.log, Codec)
    && (d.dataEnabled ==> d.cfg.dataEnable) && (d.codecEnabled ==> d.cfg.codec && d.cfg.codecEnable)
    && NoVainDisable(d.hw.log)
  }

  predicate Inv(d: Dev) {
    Flagged(d) && Owned(d.heap) && !d.swVolAlloced
  }

  lemma LogGrows(log: seq<Call>, call: Call)
    requires NoVainDisable(log)
    requires !call.on ==> NeedsOff(log, call.side)
    ensures NoVainDisable(log + [call])
    ensures NeedsOff(log + [call], call.side) == (call.on || !call.ok)
    ensures forall side :: side != call.side ==> NeedsOff(log + [call], side) == NeedsOff(log, side)
  {
    var next := log + [call];
    assert next[..|log|] == log;
    forall k | 0 <= k < |next| && !next[k].on ensures NeedsOff(next[..k], next[k].side) {
      assert next[..k] == log[..k];
    }
  }

  /** The parts of a device that enable calls do not touch. */
  predicate SameRest(d: Dev, d': Dev) {
    && d'.cfg == d.cfg && d'.heap == d.heap && d'.deleted == d.deleted && d'.disableWhenClosed == d.disableWhenClosed
    && d'.inputOpened == d.inputOpened && d'.outputOpened == d.outputOpened
    && d'.swVol == d.swVol && d'.swVolAlloced == d.swVolAlloced
  }

  lemma EnabledKeepsFlags(d: Dev, side: Side)
    requires Flagged(d) && if side == Data then d.cfg.dataEnable else d.cfg.codec && d.cfg.codecEnable
    ensures Flagged(Enabled(d, side).0) && SameRest(d, Enabled(d, side).0)
  {
    LogGrows(d.hw.log, Call(side, true, Toggle(d.hw, side, true).1));
  }

  lemma DisabledKeepsFlags(d: Dev, side: Side)
    requires Flagged(d) && if side == Data then d.dataEnabled else d.codecEnabled
    ensures Flagged(Disabled(d, side).0) && SameRest(d, Disabled(d, side).0)
  {
    LogGrows(d.hw.log, Call(side, false, Toggle(d.hw, side, false).1));
  }

  lemma RollbackKeepsFlags(d: Dev)
    requires Flagged(d)
    ensures Flagged(Rollback(d)) && SameRest(d, Rollback(d))
  {
    var d1 := d;
    if d.codecEnabled {
      DisabledKeepsFlags(d, Codec);
      d1 := Disabled(d, Codec).0;
    }
    if d1.dataEnabled {
      DisabledKeepsFlags(d1, Data);
    }
  }

  /** An open leaves the heap alone, and a failed one leaves the device as closed as it was. */
  predicate OpenKept(d: Dev, d': Dev, code: Code) {
    && Inv(d') && d'.cfg == d.cfg && d'.heap == d.heap
    && d'.disableWhenClosed == d.disableWhenClosed && d'.deleted == d.deleted
    && (code != Ok ==> d'.inputOpened == d.inputOpened && d'.outputOpened == d.outputOpened)
  }

  lemma OpenedKeepsInv(d: Dev, input: bool, output: bool)
    requires Inv(d) && !d.outputOpened
    ensures OpenKept(d, Opened(d, input, output), Ok)
  {
  }

  lemma EnableCodecKeepsInv(d: Dev, fsOk: bool)
    requires Inv(d)
    ensures Inv(EnableCodec(d, fsOk).0) && SameRest(d, EnableCodec(d, fsOk).0)
  {
    if d.cfg.codec && d.cfg.codecEnable {
      EnabledKeepsFlags(d, Codec);
    }
  }

  lemma OpenCodecKeepsInv(d: Dev, input: bool, output: bool, fsOk: bool)
    requires Inv(d) && !d.outputOpened
    ensures
      var (d', code) := OpenCodec(d, input, output, fsOk);
      OpenKept(d, d', code)
  {
    EnableCodecKeepsInv(d, fsOk);
    var (d1, ok) := EnableCodec(d, fsOk);
    if ok {
      OpenedKeepsInv(d1, input, output);
    } else {
      RollbackKeepsFlags(d1);
    }
  }

  lemma OpenDataKeepsInv(d: Dev, input: bool, output: bool, fsOk: bool)
    requires Inv(d) && !d.outputOpened
    ensures
      var (d', code) := OpenData(d, input, output, fsOk);
      OpenKept(d, d', code)
  {
    if d.cfg.dataEnable {
      EnabledKeepsFlags(d, Data);
      var (d1, ok) := Enabled(d, Data);
      if ok {
        OpenCodecKeepsInv(d1, input, output, fsOk);
      } else {
        DisabledKeepsFlags(d1, Data);
      }
    } else {
      OpenCodecKeepsInv(d, input, output, fsOk);
    }
  }

  lemma OpenKeepsInv(d: Dev, a: Answers)
    requires Inv(d)
    ensures
      var (d', code) := Open(d, a);
      OpenKept(d, d', code)
  {
    if !d.inputOpened && !d.outputOpened {
      OpenDataKeepsInv(d, d.cfg.input && DrvReady(d.cfg, a, false), d.cfg.output && DrvReady(d.cfg, a, true), a.fsOk);
    }
  }

  /** What closing leaves behind, given what was on before. */
  predicate Closed(d: Dev, d': Dev, code: Code) {
    && Inv(d') && d'.cfg == d.cfg && d'.deleted == d.deleted && d'.heap.curve == d.heap.curve
    && d'.disableWhenClosed == d.disableWhenClosed
    && (code == Ok ==> !d'.dataEnabled && !d'.inputOpened && !d'.outputOpened && !d'.heap.mirror)
    && (code != Ok ==> d'.heap == d.heap && d'.inputOpened == d.inputOpened && d'.outputOpened == d.outputOpened)
  }

  lemma MarkClosedKeepsInv(d: Dev)
    requires Inv(d)
    ensures
      var d' := MarkClosed(d);
      && Inv(d') && d'.hw == d.hw && d'.dataEnabled == d.dataEnabled && d'.codecEnabled == d.codecEnabled
      && (!d.dataEnabled ==> Closed(d, d', Ok))
  {
    if d.heap.mirror {
    }
  }

  lemma DisabledDataKeepsInv(d: Dev)
    requires Inv(d) && d.dataEnabled
    ensures
      var (d', ok) := Disabled(d, Data);
      && Inv(d') && SameRest(d, d') && d'.codecEnabled == d.codecEnabled && d'.hw.codecOn == d.hw.codecOn
      && (ok ==> !d'.dataEnabled)
  {
    DisabledKeepsFlags(d, Data);
    if Toggle(d.hw, Data, false).1 {
    }
  }

  lemma CloseDataKeepsInv(d: Dev)
    requires Inv(d)
    ensures
      var (d', code) := CloseData(d);
      Closed(d, d', code) && d'.codecEnabled == d.codecEnabled && d'.hw.codecOn == d.hw.codecOn
  {
    if d.dataEnabled {
      DisabledDataKeepsInv(d);
      MarkClosedKeepsInv(Disabled(d, Data).0);
    } else {
      MarkClosedKeepsInv(d);
    }
  }

  lemma CloseKeepsInv(d: Dev)
    requires Inv(d)
    ensures
      var (d', code) := Close(d);
      && Closed(d, d', code)
      && (code == Ok ==> d'.codecEnabled == (d.codecEnabled && !d.disableWhenClosed)
                         && d'.hw.codecOn == (d.hw.codecOn && !d.disableWhenClosed))
  {
    if d.codecEnabled && d.disableWhenClosed {
      DisabledKeepsFlags(d, Codec);
      CloseDataKeepsInv(Disabled(d, Codec).0);
    } else {
      CloseDataKeepsInv(d);
    }
  }

  lemma ReallocSoundIff(c: CurveMap, size: nat, memory: bool)
    requires (c.live ==> c.held) && c.freed + Live(c) >= c.made
    ensures MapSound(Realloc(c, size, memory).0) <==> MapSound(c) && !(size == 0 && c.held)
  {
  }

  lemma FreeMapSoundIff(c: CurveMap)
    requires (c.live ==> c.held) && c.freed + Live(c) >= c.made
    ensures MapSound(FreeMap(c)) <==> MapSound(c)
    ensures FreeMap(c).freed == c.made <==> MapSound(c)
  {
  }

  lemma SetCurveKeepsInv(d: Dev, codecOpen: bool, hasMap: bool, count: int, memory: bool)
    requires Inv(d)
    ensures
      var d' := SetCurve(d, codecOpen, hasMap, count, memory).0;
      var zero := hasMap && CurveBytes(count) == 0 && VerifyOutput(d.cfg, codecOpen) == Ok && d.heap.curve.held;
      && Inv(d') && d'.cfg == d.cfg && (MapSound(d'.heap.curve) <==> MapSound(d.heap.curve) && !zero)
  {
    ReallocSoundIff(d.heap.curve, CurveBytes(count), memory);
  }

  lemma FreeMapStaysOwned(h: Heap)
    requires Owned(h)
    ensures Owned(h.(curve := FreeMap(h.curve)))
  {
  }

  lemma DeleteKeepsInv(d: Dev)
    requires Inv(d)
    ensures
      var (d', code) := Delete(d);
      && Inv(d') && d'.cfg == d.cfg && (code == Ok ==> !d'.hw.dataOn)
      && d'.heap.curve == (if code == Ok then FreeMap(d.heap.curve) else d.heap.curve)
      && (code != Ok ==> d'.heap == d.heap && d'.deleted == d.deleted)
  {
    CloseKeepsInv(d);
    FreeMapStaysOwned(Close(d).0.heap);
  }

  lemma StepKeepsInv(d: Dev, op: Op)
    requires Inv(d)
    ensures Inv(Step(d, op).0) && Step(d, op).0.cfg == d.cfg
  {
    match op
    case OpenIt(a) => OpenKeepsInv(d, a);
    case CloseIt => CloseKeepsInv(d);
    case DeleteIt => DeleteKeepsInv(d);
    case CurveIt(codecOpen, hasMap, count, memory) => SetCurveKeepsInv(d, codecOpen, hasMap, count, memory);
    case _ =>
  }

  lemma {:induction false} RunKeepsInv(d: Dev, ops: seq<Op>)
    requires Inv(d)
    ensures Inv(Run(d, ops)) && Run(d, ops).cfg == d.cfg
    decreases |ops|
  {
    if ops != [] {
      StepKeepsInv(d, ops[0]);
      RunKeepsInv(Step(d, ops[0]).0, ops[1..]);
    }
  }

  // ---------------------------------------------------------------- main results

  /** Over all runs, whatever the enable calls do: a side that is on has its flag set, a side
      is never disabled again after a successful disable, the device never makes a software
      volume of its own, and no mirror is lost or freed twice. */
  lemma FlagsCoverHardware(cfg: Cfg, memory: bool, fate: seq<Outcome>, ops: seq<Op>)
    ensures
      var d := Run(New(cfg, memory, fate), ops);
      && (d.hw.dataOn ==> d.dataEnabled) && (d.hw.codecOn ==> d.codecEnabled)
      && NoVainDisable(d.hw.log)
      && !d.swVolAlloced
      && d.heap.mirrorsMade == d.heap.mirrorsFreed + (if d.heap.mirror then 1 else 0)
  {
    RunKeepsInv(New(cfg, memory, fate), ops);
  }

  /** A successful delete leaves the data path off, the codec on exactly if it was and is to
      be left so, every mirror freed once, and no reference to a curve. */
  lemma DeleteFreesAll(cfg: Cfg, memory: bool, fate: seq<Outcome>, ops: seq<Op>)
    requires
      var d := Run(New(cfg, memory, fate), ops);
      !d.deleted && Delete(d).1 == Ok
    ensures
      var d := Run(New(cfg, memory, fate), ops);
      var d' := Delete(d).0;
      && d'.deleted && !d'.hw.dataOn
      && d'.hw.codecOn == (d.hw.codecOn && !d.disableWhenClosed)
      && d'.heap.mirrorsFreed == d'.heap.mirrorsMade && !d'.heap.curve.held
      && (d'.heap.curve.freed == d'.heap.curve.made <==> !ZeroCurveSet(New(cfg, memory, fate), ops))
  {
    RunKeepsInv(New(cfg, memory, fate), ops);
    CloseKeepsInv(Run(New(cfg, memory, fate), ops));
    CurveIsSoundIff(New(cfg, memory, fate), ops);
    FreeMapSoundIff(Run(New(cfg, memory, fate), ops).heap.curve);
  }

  // ---------------------------------------------------------------- the curve

  /** A curve whose size in bytes comes out as 0 is set on a device that has a curve. */
  predicate ZeroSets(d: Dev, op: Op) {
    && !d.deleted && op.CurveIt? && op.hasMap && CurveBytes(op.count) == 0
    && VerifyOutput(d.cfg, op.codecOpen) == Ok && d.heap.curve.held
  }

  predicate ZeroCurveSet(d: Dev, ops: seq<Op>)
    decreases |ops|
  {
    ops != [] && (ZeroSets(d, ops[0]) || ZeroCurveSet(Step(d, ops[0]).0, ops[1..]))
  }

  lemma StepCurveSoundIff(d: Dev, op: Op)
    requires Inv(d)
    ensures MapSound(Step(d, op).0.heap.curve) <==> MapSound(d.heap.curve) && !ZeroSets(d, op)
  {
    if !d.deleted {
      match op
      case CurveIt(codecOpen, hasMap, count, memory) => SetCurveKeepsInv(d, codecOpen, hasMap, count, memory);
      case DeleteIt =>
        DeleteKeepsInv(d);
        FreeMapSoundIff(d.heap.curve);
      case _ => OthersKeepCurve(d, op);
    }
  }

  lemma OthersKeepCurve(d: Dev, op: Op)
    requires Inv(d) && !d.deleted && !op.CurveIt? && !op.DeleteIt?
    ensures Step(d, op).0.heap.curve == d.heap.curve
  {
    match op
    case OpenIt(a) => OpenKeepsInv(d, a);
    case CloseIt => CloseKeepsInv(d);
    case _ =>
  }

  lemma {:induction false} CurveIsSoundIff(d: Dev, ops: seq<Op>)
    requires Inv(d) && MapSound(d.heap.curve)
    ensures MapSound(Run(d, ops).heap.curve) <==> !ZeroCurveSet(d, ops)
    decreases |ops|
  {
    if ops != [] {
      StepKeepsInv(d, ops[0]);
      StepCurveSoundIff(d, ops[0]);
      var d1 := Step(d, ops[0]).0;
      if MapSound(d1.heap.curve) {
        CurveIsSoundIff(d1, ops[1..]);
      } else {
        UnsoundStays(d1, ops[1..]);
      }
    }
  }

  lemma {:induction false} UnsoundStays(d: Dev, ops: seq<Op>)
    requires Inv(d) && !MapSound(d.heap.curve)
    ensures !MapSound(Run(d, ops).heap.curve)
    decreases |ops|
  {
    if ops != [] {
      StepKeepsInv(d, ops[0]);
      StepCurveSoundIff(d, ops[0]);
      UnsoundStays(Step(d, ops[0]).0, ops[1..]);
    }
  }

  /** In every state of every run the device refers to a curve map exactly if it is allocated,
      and each other one was freed once, if and only if no curve of 0 bytes was set on a device
      that had a curve: one without points, or with a multiple of 2 to the 29th. */
  lemma CurveFreedOnceIff(cfg: Cfg, memory: bool, fate: seq<Outcome>, ops: seq<Op>)
    ensures MapSound(Run(New(cfg, memory, fate), ops).heap.curve) <==> !ZeroCurveSet(New(cfg, memory, fate), ops)
  {
    CurveIsSoundIff(New(cfg, memory, fate), ops);
  }

  /** Such runs: the one map is freed when the curve is set, and again by the delete. */
  lemma ZeroCurveFreesTwice(cfg: Cfg, count: int)
    requires cfg.output && count % 0x2000_0000 == 0
    ensures
      var d := Run(New(cfg, true, []), [CurveIt(true, true, count, true), DeleteIt]);
      d.deleted && d.heap.curve.made == 1 && d.heap.curve.freed == 2
  {
    assert CurveBytes(count) == 0;
    var d0 := New(cfg, true, []);
    var d1 := Step(d0, CurveIt(true, true, count, true)).0;
    assert d1.heap.curve == CurveMap(true, false, 1, 1);
    assert Close(d1) == (d1, Ok);
    var d2 := Step(d1, DeleteIt).0;
    assert Run(d0, [CurveIt(true, true, count, true), DeleteIt]) == d2 by {
      assert [CurveIt(true, true, count, true), DeleteIt][1..] == [DeleteIt];
      assert [DeleteIt][1..] == [];
    }
  }

  // ---------------------------------------------------------------- settings

  /** A playback setting is refused on a device that is not for playback, or whose codec is not
      open; a curve also without points to point at, or without memory for them. A refused
      setting changes nothing, but for a curve of no bytes, which costs the one there was. */
  lemma CurveIsTakenIff(d: Dev, codecOpen: bool, hasMap: bool, count: int, memory: bool)
    requires Inv(d)
    ensures
      var (d', code) := SetCurve(d, codecOpen, hasMap, count, memory);
      var playable := d.cfg.output && (d.cfg.codec ==> codecOpen);
      var none := CurveBytes(count) == 0 && d.heap.curve.held;
      && (code == InvalidArg <==> !hasMap) && (code == NotSupport <==> hasMap && !d.cfg.output)
      && (code == WrongState <==> hasMap && d.cfg.output && !playable)
      && (code == Ok <==> hasMap && playable && memory && !none)
      && (code == Ok ==> d'.heap.curve.held && d'.heap.curve.live
                         && d'.heap.curve.made == d.heap.curve.made + (if d.heap.curve.live then 0 else 1))
      && (code == Ok && MapSound(d.heap.curve) ==> d'.heap.curve.freed == d.heap.curve.freed)
      && d' == d.(heap := d.heap.(curve := d'.heap.curve))
      && (code != Ok && !(hasMap && playable && none) ==> d' == d)
  {
  }

  lemma HandlerIsTakenIff(d: Dev, codecOpen: bool)
    ensures
      var (d', code) := SetVolHandler(d, codecOpen);
      && (code == NotSupport <==> !d.cfg.output)
      && (code == WrongState <==> d.cfg.output && d.cfg.codec && !codecOpen)
      && (code == Ok <==> d.cfg.output && (d.cfg.codec ==> codecOpen))
      && d' == if code == Ok then d.(swVol := true, swVolAlloced := false) else d
  {
  }

  /** A mirror is made on a device for recording, with a size and memory, unless there is one:
      then the call succeeds, too. */
  lemma MirrorIsMadeIff(d: Dev, size: int, memory: bool)
    ensures
      var (d', code) := MirrorCfg(d, size, memory);
      && (code == InvalidArg <==> size <= 0) && (code == NotSupport <==> size > 0 && !d.cfg.input)
      && (code == Ok <==> size > 0 && d.cfg.input && (d.heap.mirror || memory))
      && (code == NoMem <==> size > 0 && d.cfg.input && !d.heap.mirror && !memory)
      && (code != Ok || d.heap.mirror ==> d' == d)
      && (code == Ok ==> d'.heap.mirror && d'.heap.curve == d.heap.curve
                         && d'.heap.mirrorsMade == d.heap.mirrorsMade + (if d.heap.mirror then 0 else 1))
  {
  }

  /** A new device is idle, and to switch its codec off when it is closed; it has a curve if it
      is for playback and there is memory. */
  lemma NewIsIdle(cfg: Cfg, memory: bool, fate: seq<Outcome>)
    ensures
      var d := New(cfg, memory, fate);
      && !IsOpened(d) && !d.dataEnabled && !d.codecEnabled && d.hw == Hw(false, false, [], fate)
      && d.disableWhenClosed && !d.heap.mirror && !d.deleted && d.cfg == cfg
      && (d.heap.curve.held <==> cfg.output && memory) && MapSound(d.heap.curve)
  {
  }

  // ---------------------------------------------------------------- what runs keep of the settings

  /** What the last such request of a run says about switching the codec off at a close. */
  function Said(ops: seq<Op>, before: bool): bool
    decreases |ops|
  {
    if ops == [] then before
    else Said(ops[1..], if ops[0].DisableWhenClosedIt? then ops[0].disable else before)
  }

  /** An opened direction is one that the device is for and its data interface can serve. */
  predicate OpenedAreAble(d: Dev) {
    (d.inputOpened ==> d.cfg.input && d.cfg.canRead) && (d.outputOpened ==> d.cfg.output && d.cfg.canWrite)
  }

  /** What an operation leaves of the settings: the configuration, and what was said. */
  predicate SettingsKept(d: Dev, d': Dev) {
    d'.cfg == d.cfg && d'.disableWhenClosed == d.disableWhenClosed && (OpenedAreAble(d) ==> OpenedAreAble(d'))
  }

  lemma StepKeepsSettings(d: Dev, op: Op)
    requires Inv(d) && !d.deleted
    ensures
      var d' := Step(d, op).0;
      SettingsKept(if op.DisableWhenClosedIt? then d.(disableWhenClosed := op.disable) else d, d')
  {
    match op
    case OpenIt(a) =>
      OpenKeepsInv(d, a);
      if Open(d, a).1 == Ok && !IsOpened(d) {
        OkOpenEnablesInOrder(d, a);
      }
    case CloseIt => CloseKeepsInv(d);
    case DeleteIt => CloseKeepsInv(d);
    case _ =>
  }

  lemma {:induction false} DeletedStays(d: Dev, ops: seq<Op>)
    requires d.deleted
    ensures Run(d, ops) == d
    decreases |ops|
  {
    if ops != [] {
      DeletedStays(d, ops[1..]);
    }
  }

  lemma {:induction false} RunKeepsSettings(d: Dev, ops: seq<Op>)
    requires Inv(d) && OpenedAreAble(d)
    ensures
      var d' := Run(d, ops);
      && OpenedAreAble(d') && d'.cfg == d.cfg
      && (!d'.deleted ==> d'.disableWhenClosed == Said(ops, d.disableWhenClosed))
    decreases |ops|
  {
    if ops != [] {
      if d.deleted {
        DeletedStays(d, ops);
      } else {
        StepKeepsSettings(d, ops[0]);
        StepKeepsInv(d, ops[0]);
        RunKeepsSettings(Step(d, ops[0]).0, ops[1..]);
      }
    }
  }

  /** Over all runs: only directions are open that the device is for and that can be served, and
      a close that succeeds leaves the codec on exactly if it is on and the last request about
      that was to leave it on. */
  lemma CloseDoesAsSaid(cfg: Cfg, memory: bool, fate: seq<Outcome>, ops: seq<Op>)
    ensures
      var d := Run(New(cfg, memory, fate), ops);
      var (d', code) := Close(d);
      && d.cfg == cfg && OpenedAreAble(d)
      && (!d.deleted && code == Ok ==>
            && !IsOpened(d') && !d'.hw.dataOn
            && d'.hw.codecOn == (d.hw.codecOn && !Said(ops, true)))
  {
    RunKeepsInv(New(cfg, memory, fate), ops);
    RunKeepsSettings(New(cfg, memory, fate), ops);
    CloseKeepsInv(Run(New(cfg, memory, fate), ops));
  }

  // ---------------------------------------------------------------- retrying

  function Retried(data: bool, codec: bool): seq<Call> {
    (if codec then [Call(Codec, false, true)] else []) + (if data then [Call(Data, false, true)] else [])
  }

  /** When the interfaces obey, a close succeeds and calls exactly the sides that are flagged
      and to be disabled. */
  lemma ObeyedClose(d: Dev)
    requires Inv(d) && d.hw.fate == []
    ensures
      var (d', code) := Close(d);
      && code == Ok && d'.hw.log == d.hw.log + Retried(d.dataEnabled, d.codecEnabled && d.disableWhenClosed)
  {
    var codec := d.codecEnabled && d.disableWhenClosed;
    var log := d.hw.log + Retried(false, codec);
    assert log + Retried(d.dataEnabled, false) == d.hw.log + Retried(d.dataEnabled, codec);
    var d1 := if codec then Disabled(d, Codec).0 else d;
    assert d1.hw.log == log && d1.hw.fate == [] && d1.dataEnabled == d.dataEnabled;
    var d2 := if d1.dataEnabled then Disabled(d1, Data).0 else d1;
    assert d2.hw.log == log + Retried(d.dataEnabled, false);
  }

  /** A failed delete keeps the handle, its mirror and its curve; the next delete, once the
      interfaces obey, succeeds and calls exactly the sides that are not yet off. */
  lemma FailedDeleteCanBeRetried(cfg: Cfg, memory: bool, fate: seq<Outcome>, ops: seq<Op>)
    requires
      var d := Run(New(cfg, memory, fate), ops);
      !d.deleted && Delete(d).1 != Ok
    ensures
      var d := Run(New(cfg, memory, fate), ops);
      var failed := Delete(d).0;
      var (again, code) := Delete(failed.(hw := failed.hw.(fate := [])));
      && !failed.deleted && failed.heap == d.heap
      && code == Ok && again.deleted && !again.hw.dataOn && (d.disableWhenClosed ==> !again.hw.codecOn)
      && again.hw.log == failed.hw.log + Retried(failed.dataEnabled, failed.codecEnabled && d.disableWhenClosed)
  {
    RunKeepsInv(New(cfg, memory, fate), ops);
    var d := Run(New(cfg, memory, fate), ops);
    CloseKeepsInv(d);
    var failed := Close(d).0;
    assert Closed(d, failed, Close(d).1);
    var obeyed := failed.(hw := failed.hw.(fate := []));
    CloseKeepsInv(obeyed);
    ObeyedClose(obeyed);
  }

  /** The last call of a side, if there was one, was a disable. */
  predicate TriedOff(log: seq<Call>, side: Side) {
    if log == [] then true
    else
      var last := log[|log| - 1];
      if last.side == side then !last.on else TriedOff(log[..|log| - 1], side)
  }

  lemma {:induction false} UnneededIsTriedOff(log: seq<Call>, side: Side)
    ensures !NeedsOff(log, side) ==> TriedOff(log, side)
  {
    if log != [] {
      UnneededIsTriedOff(log[..|log| - 1], side);
    }
  }

  lemma TriedOffGrows(log: seq<Call>, call: Call, side: Side)
    ensures TriedOff(log + [call], side) == if side == call.side then !call.on else TriedOff(log, side)
  {
    assert (log + [call])[..|log|] == log;
  }

  lemma DisabledLog(d: Dev, side: Side)
    ensures Disabled(d, side).0.hw.log == d.hw.log + [Call(side, false, Disabled(d, side).1)]
  {
    var (hw, ok) := Toggle(d.hw, side, false);
    if ok {
      if side == Data {
      } else {
      }
    }
  }

  lemma DisabledIsTriedOff(d: Dev, d': Dev, side: Side, other: Side)
    requires d' == Disabled(d, side).0
    ensures TriedOff(d'.hw.log, other) == (other == side || TriedOff(d.hw.log, other))
  {
    DisabledLog(d, side);
    TriedOffGrows(d.hw.log, Call(side, false, Disabled(d, side).1), other);
  }

  lemma RollbackTriesOff(d: Dev)
    requires Flagged(d)
    ensures TriedOff(Rollback(d).hw.log, Data) && TriedOff(Rollback(d).hw.log, Codec)
  {
    UnneededIsTriedOff(d.hw.log, Data);
    UnneededIsTriedOff(d.hw.log, Codec);
    var d1 := if d.codecEnabled then Disabled(d, Codec).0 else d;
    if d.codecEnabled {
      DisabledIsTriedOff(d, d1, Codec, Codec);
      DisabledIsTriedOff(d, d1, Codec, Data);
    }
    if d1.dataEnabled {
      DisabledIsTriedOff(d1, Rollback(d), Data, Codec);
      DisabledIsTriedOff(d1, Rollback(d), Data, Data);
    }
  }

  lemma FailedOpenCodecTriesOff(d: Dev, input: bool, output: bool, fsOk: bool)
    requires Flagged(d)
    ensures
      var (d', code) := OpenCodec(d, input, output, fsOk);
      (code == Ok || code == DrvErr) && (code == DrvErr ==> TriedOff(d'.hw.log, Data) && TriedOff(d'.hw.log, Codec))
  {
    if d.cfg.codec && d.cfg.codecEnable {
      EnabledKeepsFlags(d, Codec);
    }
    RollbackTriesOff(EnableCodec(d, fsOk).0);
  }

  lemma FailedOpenDataTriesOff(d: Dev, input: bool, output: bool, fsOk: bool)
    requires Flagged(d)
    ensures
      var (d', code) := OpenData(d, input, output, fsOk);
      && (code == Ok || code == DrvErr || code == FromDriver)
      && (code == DrvErr ==> TriedOff(d'.hw.log, Data) && TriedOff(d'.hw.log, Codec))
      && (code == FromDriver ==> TriedOff(d'.hw.log, Data) && d'.codecEnabled == d.codecEnabled)
  {
    if d.cfg.dataEnable {
      EnabledKeepsFlags(d, Data);
      var (d1, ok) := Enabled(d, Data);
      if ok {
        FailedOpenCodecTriesOff(d1, input, output, fsOk);
      } else {
        FailedDataTriesOff(d, d1);
      }
    } else {
      FailedOpenCodecTriesOff(d, input, output, fsOk);
    }
  }

  lemma FailedDataTriesOff(d: Dev, d1: Dev)
    requires Flagged(d) && d.cfg.dataEnable && Enabled(d, Data) == (d1, false)
    ensures TriedOff(Disabled(d1, Data).0.hw.log, Data) && Disabled(d1, Data).0.codecEnabled == d.codecEnabled
  {
    EnabledKeepsFlags(d, Data);
    DisabledIsTriedOff(d1, Disabled(d1, Data).0, Data, Data);
  }

  /** An open that fails late has tried to switch off whatever it may have switched on; one
      that fails early changes nothing. */
  lemma FailedOpenTriesOff(d: Dev, a: Answers)
    requires Flagged(d)
    ensures
      var (d', code) := Open(d, a);
      && (code == DrvErr ==> TriedOff(d'.hw.log, Data) && TriedOff(d'.hw.log, Codec))
      && (code == FromDriver ==> d' == d || (TriedOff(d'.hw.log, Data) && d'.codecEnabled == d.codecEnabled))
      && (code == NotSupport ==> d' == d) && code != NoMem && code != WrongState && code != InvalidArg
  {
    if !d.inputOpened && !d.outputOpened {
      FailedOpenDataTriesOff(d, d.cfg.input && DrvReady(d.cfg, a, false), d.cfg.output && DrvReady(d.cfg, a, true),
                             a.fsOk);
    }
  }

  /** Some direction that the device is for is ready. */
  predicate SomeReady(cfg: Cfg, a: Answers) {
    (cfg.input && DrvReady(cfg, a, false)) || (cfg.output && DrvReady(cfg, a, true))
  }

  /** The outcome of the enable call after `k` others. */
  function Nth(fate: seq<Outcome>, k: nat): Outcome { if k < |fate| then fate[k] else Done }

  /** The enable call of the data path works, if there is one. */
  predicate DataWorks(cfg: Cfg, fate: seq<Outcome>) { cfg.dataEnable ==> Nth(fate, 0) == Done }

  /** The calls of a codec work, of which its enable comes after `k` others. */
  predicate CodecWorks(cfg: Cfg, fsOk: bool, fate: seq<Outcome>, k: nat) {
    cfg.codec ==> (cfg.codecSetFs ==> fsOk) && (cfg.codecEnable ==> Nth(fate, k) == Done)
  }

  lemma OpenCodecCode(d: Dev, input: bool, output: bool, fsOk: bool)
    ensures OpenCodec(d, input, output, fsOk).1 == if CodecWorks(d.cfg, fsOk, d.hw.fate, 0) then Ok else DrvErr
  {
  }

  lemma OpenDataCode(d: Dev, input: bool, output: bool, fsOk: bool)
    ensures
      OpenData(d, input, output, fsOk).1 ==
      if !DataWorks(d.cfg, d.hw.fate) then FromDriver
      else if CodecWorks(d.cfg, fsOk, d.hw.fate, if d.cfg.dataEnable then 1 else 0) then Ok
      else DrvErr
  {
    if d.cfg.dataEnable {
      var (d1, ok) := Enabled(d, Data);
      assert d1.cfg == d.cfg && d1.hw.fate == Later(d.hw.fate) && Nth(d1.hw.fate, 0) == Nth(d.hw.fate, 1);
      OpenCodecCode(d1, input, output, fsOk);
    } else {
      OpenCodecCode(d, input, output, fsOk);
    }
  }

  /** How an open of a closed device turns out, by the answers and the outcomes of its calls: it
      succeeds exactly when a direction is ready, the format is taken where there is a set_fmt,
      and each enable call and the codec's set_fs, where there are such, works. What refuses
      first decides the code, and before the first enable nothing changes. */
  lemma OpenSucceedsIff(d: Dev, a: Answers)
    requires !d.inputOpened && !d.outputOpened
    ensures
      var (d', code) := Open(d, a);
      var taken := SomeReady(d.cfg, a) && (d.cfg.dataSetFmt ==> a.fmtOk);
      var data := DataWorks(d.cfg, d.hw.fate);
      var codec := CodecWorks(d.cfg, a.fsOk, d.hw.fate, if d.cfg.dataEnable then 1 else 0);
      && (code == Ok <==> taken && data && codec)
      && (code == NotSupport <==> !SomeReady(d.cfg, a))
      && (code == FromDriver <==> SomeReady(d.cfg, a) && !(taken && data))
      && (code == DrvErr <==> taken && data && !codec)
      && (!taken ==> d' == d)
  {
    OpenDataCode(d, d.cfg.input && DrvReady(d.cfg, a, false), d.cfg.output && DrvReady(d.cfg, a, true), a.fsOk);
  }

  /** Whether all there is to enable is on. */
  predicate Running(d: Dev) {
    (d.cfg.dataEnable ==> d.hw.dataOn) && (d.cfg.codec && d.cfg.codecEnable ==> d.hw.codecOn)
  }

  lemma OkOpenCodecRuns(d: Dev, input: bool, output: bool, fsOk: bool)
    requires OpenCodec(d, input, output, fsOk).1 == Ok
    ensures
      var d' := OpenCodec(d, input, output, fsOk).0;
      d'.cfg == d.cfg && d'.hw.dataOn == d.hw.dataOn && (d.cfg.codec && d.cfg.codecEnable ==> d'.hw.codecOn)
  {
    var (d1, ok) := EnableCodec(d, fsOk);
    if d.cfg.codec && d.cfg.codecEnable {
      assert ok && d1 == Enabled(d, Codec).0 && d1.hw.codecOn;
    } else {
      assert d1 == d;
    }
  }

  lemma OkOpenDataRuns(d: Dev, input: bool, output: bool, fsOk: bool)
    requires OpenData(d, input, output, fsOk).1 == Ok
    ensures Running(OpenData(d, input, output, fsOk).0)
  {
    var (d1, ok) := Enabled(d, Data);
    var d2 := if d.cfg.dataEnable then d1 else d;
    assert d.cfg.dataEnable ==> d2.hw.dataOn;
    OkOpenCodecRuns(d2, input, output, fsOk);
  }

  predicate IsOpened(d: Dev) { d.inputOpened || d.outputOpened }

  /** Every flag that there is a function for is set. */
  predicate AllFlagged(d: Dev) {
    (d.cfg.dataEnable ==> d.dataEnabled) && (d.cfg.codec && d.cfg.codecEnable ==> d.codecEnabled)
  }

  lemma FreshOpenRuns(d: Dev, a: Answers)
    requires !IsOpened(d) && Open(d, a).1 == Ok
    ensures Running(Open(d, a).0)
  {
    OkOpenDataRuns(d, d.cfg.input && DrvReady(d.cfg, a, false), d.cfg.output && DrvReady(d.cfg, a, true), a.fsOk);
  }

  /** When failed calls have no effect, a flag of an opened device means that its side is on. */
  predicate Obedient(d: Dev) {
    && Late !in d.hw.fate
    && (IsOpened(d) ==> (d.dataEnabled ==> d.hw.dataOn) && (d.codecEnabled ==> d.hw.codecOn))
  }

  lemma ObedientDisable(d: Dev, side: Side)
    requires Obedient(d)
    ensures Obedient(Disabled(d, side).0)
  {
    var (hw, ok) := Toggle(d.hw, side, false);
    if ok {
      if side == Data {
      } else {
      }
    }
  }

  lemma ObedientCloseData(d: Dev)
    requires Obedient(d)
    ensures Obedient(CloseData(d).0)
  {
    if d.dataEnabled && d.cfg.dataEnable {
      ObedientDisable(d, Data);
      var (d1, ok) := Disabled(d, Data);
      if ok {
        assert MarkClosed(d1).hw == d1.hw;
      }
    } else {
      assert MarkClosed(d).hw == d.hw;
    }
  }

  lemma ObedientClose(d: Dev)
    requires Obedient(d)
    ensures Obedient(Close(d).0)
  {
    if d.codecEnabled && d.disableWhenClosed && d.cfg.codec && d.cfg.codecEnable {
      ObedientDisable(d, Codec);
      ObedientCloseData(Disabled(d, Codec).0);
    } else {
      ObedientCloseData(d);
    }
  }

  lemma TimelyToggle(hw: Hw, side: Side, on: bool)
    requires Late !in hw.fate
    ensures Late !in Toggle(hw, side, on).0.fate
  {
  }

  lemma TimelyRollback(d: Dev)
    requires Late !in d.hw.fate
    ensures Late !in Rollback(d).hw.fate
  {
    TimelyToggle(d.hw, Codec, false);
    TimelyToggle(d.hw, Data, false);
    var d1 := Disabled(d, Codec).0;
    TimelyToggle(d1.hw, Data, false);
  }

  lemma TimelyOpenCodec(d: Dev, input: bool, output: bool, fsOk: bool)
    requires Late !in d.hw.fate
    ensures Late !in OpenCodec(d, input, output, fsOk).0.hw.fate
  {
    TimelyToggle(d.hw, Codec, true);
    TimelyRollback(EnableCodec(d, fsOk).0);
  }

  lemma TimelyOpenData(d: Dev, input: bool, output: bool, fsOk: bool)
    requires Late !in d.hw.fate
    ensures Late !in OpenData(d, input, output, fsOk).0.hw.fate
  {
    TimelyToggle(d.hw, Data, true);
    var d1 := Enabled(d, Data).0;
    TimelyToggle(d1.hw, Data, false);
    TimelyOpenCodec(if d.cfg.dataEnable then d1 else d, input, output, fsOk);
  }

  lemma ObedientOpen(d: Dev, a: Answers)
    requires Inv(d) && Obedient(d)
    ensures Obedient(Open(d, a).0)
  {
    if !IsOpened(d) {
      TimelyOpenData(d, d.cfg.input && DrvReady(d.cfg, a, false), d.cfg.output && DrvReady(d.cfg, a, true), a.fsOk);
      OpenKeepsInv(d, a);
      if Open(d, a).1 == Ok {
        FreshOpenRuns(d, a);
      }
    }
  }

  lemma ObedientStep(d: Dev, op: Op)
    requires Inv(d) && Obedient(d)
    ensures Obedient(Step(d, op).0)
  {
    if !d.deleted {
      match op
      case OpenIt(a) => ObedientOpen(d, a);
      case CloseIt => ObedientClose(d);
      case DeleteIt => ObedientClose(d);
      case _ =>
    }
  }

  lemma {:induction false} RunStaysObedient(d: Dev, ops: seq<Op>)
    requires Inv(d) && Obedient(d)
    ensures Obedient(Run(d, ops))
    decreases |ops|
  {
    if ops != [] {
      StepKeepsInv(d, ops[0]);
      ObedientStep(d, ops[0]);
      RunStaysObedient(Step(d, ops[0]).0, ops[1..]);
    }
  }

  /** Over all runs: an open that reports success leaves the device running only if it was not
      open, or no flag of it was cleared. */
  lemma OkOpenNeedsFlags(cfg: Cfg, memory: bool, fate: seq<Outcome>, ops: seq<Op>, a: Answers)
    requires Open(Run(New(cfg, memory, fate), ops), a).1 == Ok
    ensures
      var d := Run(New(cfg, memory, fate), ops);
      && (Running(Open(d, a).0) ==> !IsOpened(d) || AllFlagged(d))
      && (!IsOpened(d) ==> Running(Open(d, a).0))
  {
    RunKeepsInv(New(cfg, memory, fate), ops);
    var d := Run(New(cfg, memory, fate), ops);
    if !IsOpened(d) {
      FreshOpenRuns(d, a);
    }
  }

  /** And if, when no failed enable call takes effect. */
  lemma OkOpenRunsIff(cfg: Cfg, memory: bool, fate: seq<Outcome>, ops: seq<Op>, a: Answers)
    requires Late !in fate && Open(Run(New(cfg, memory, fate), ops), a).1 == Ok
    ensures
      var d := Run(New(cfg, memory, fate), ops);
      Running(Open(d, a).0) <==> !IsOpened(d) || AllFlagged(d)
  {
    OkOpenNeedsFlags(cfg, memory, fate, ops, a);
    RunStaysObedient(New(cfg, memory, fate), ops);
  }

  /** Otherwise a codec may be off with its flag set: here its disable fails after the effect. */
  lemma LateCloseHidesIdleCodec(cfg: Cfg, a: Answers)
    requires cfg.input && cfg.canRead && cfg.dataEnable && cfg.codec && cfg.codecEnable
    requires a == Answers(true, true, true, true)
    ensures
      var d := Run(New(cfg, true, [Done, Done, Late]), [OpenIt(a), CloseIt]);
      IsOpened(d) && AllFlagged(d) && Open(d, a).1 == Ok && !Running(Open(d, a).0)
  {
    var d0 := New(cfg, true, [Done, Done, Late]);
    var d1 := Step(d0, OpenIt(a)).0;
    assert d1.hw.fate == [Late] && d1.codecEnabled && d1.dataEnabled;
    var d2 := Step(d1, CloseIt).0;
    assert Run(d0, [OpenIt(a), CloseIt]) == d2 by {
      assert [OpenIt(a), CloseIt][1..] == [CloseIt];
      assert [CloseIt][1..] == [];
    }
  }

  function On(cfg: Cfg, data: bool): seq<Call> {
    (if data && cfg.dataEnable then [Call(Data, true, true)] else [])
    + (if cfg.codec && cfg.codecEnable then [Call(Codec, true, true)] else [])
  }

  lemma OkOpenCodecCalls(d: Dev, input: bool, output: bool, fsOk: bool)
    requires OpenCodec(d, input, output, fsOk).1 == Ok
    ensures
      var d' := OpenCodec(d, input, output, fsOk).0;
      d'.inputOpened == input && d'.outputOpened == output && d'.hw.log == d.hw.log + On(d.cfg, false)
  {
    var (d1, ok) := EnableCodec(d, fsOk);
    if d.cfg.codec && d.cfg.codecEnable {
      assert ok && d1.hw.log == d.hw.log + [Call(Codec, true, true)];
    } else {
      assert d1 == d && d.hw.log + [] == d.hw.log;
    }
  }

  lemma OkOpenDataCalls(d: Dev, input: bool, output: bool, fsOk: bool)
    requires OpenData(d, input, output, fsOk).1 == Ok
    ensures
      var d' := OpenData(d, input, output, fsOk).0;
      d'.inputOpened == input && d'.outputOpened == output && d'.hw.log == d.hw.log + On(d.cfg, true)
  {
    if d.cfg.dataEnable {
      var (d1, ok) := Enabled(d, Data);
      assert ok && d1.hw.log == d.hw.log + [Call(Data, true, true)];
      OkOpenCodecCalls(d1, input, output, fsOk);
      assert d1.hw.log + On(d.cfg, false) == d.hw.log + On(d.cfg, true);
    } else {
      OkOpenCodecCalls(d, input, output, fsOk);
    }
  }

  /** A fresh open that succeeds enables the data path before the codec, each once, and opens
      the directions that are supported and ready. */
  lemma OkOpenEnablesInOrder(d: Dev, a: Answers)
    requires !d.inputOpened && !d.outputOpened && Open(d, a).1 == Ok
    ensures
      var d' := Open(d, a).0;
      && d'.hw.log == d.hw.log + On(d.cfg, true)
      && d'.inputOpened == (d.cfg.input && DrvReady(d.cfg, a, false))
      && d'.outputOpened == (d.cfg.output && DrvReady(d.cfg, a, true))
      && (d'.inputOpened || d'.outputOpened)
  {
    OkOpenDataCalls(d, d.cfg.input && DrvReady(d.cfg, a, false), d.cfg.output && DrvReady(d.cfg, a, true), a.fsOk);
  }

  /** It may not have been: after a close that failed half way, the device counts as open with
      its codec off, and an open reports success. */
  lemma OpenAfterFailedCloseIsIdle(cfg: Cfg, a: Answers)
    requires cfg.input && cfg.canRead && cfg.dataEnable && cfg.codec && cfg.codecEnable
    requires a == Answers(true, true, true, true)
    ensures
      var d := Run(New(cfg, true, [Done, Done, Done, NoEffect]), [OpenIt(a), CloseIt]);
      Open(d, a).1 == Ok && !Running(Open(d, a).0)
  {
    var d0 := New(cfg, true, [Done, Done, Done, NoEffect]);
    var d1 := Step(d0, OpenIt(a)).0;
    assert d1.hw.fate == [Done, NoEffect] && d1.codecEnabled && d1.dataEnabled;
    var d2 := Step(d1, CloseIt).0;
    assert Run(d0, [OpenIt(a), CloseIt]) == d2 by {
      assert [OpenIt(a), CloseIt][1..] == [CloseIt];
      assert [CloseIt][1..] == [];
    }
  }

  // ---------------------------------------------------------------- the device object

  /** The data interface and the codec of a device. */
  class Interfaces {
    const cfg: Cfg
    var hw: Hw

    constructor (cfg: Cfg, fate: seq<Outcome>)
      ensures this.cfg == cfg && hw == Hw(false, false, [], fate)
    {
      this.cfg, hw := cfg, Hw(false, false, [], fate);
    }

    method Enable(side: Side, on: bool) returns (ok: bool)
      modifies this
      ensures (hw, ok) == Toggle(old(hw), side, on)
    {
      var next := Toggle(hw, side, on);
      hw, ok := next.0, next.1;
    }
  }

  class Device {
    const ifs: Interfaces
    var inputOpened: bool
    var outputOpened: bool
    var dataEnabled: bool
    var codecEnabled: bool
    var disableWhenClosed: bool
    var swVol: bool
    var swVolAlloced: bool
    var heap: Heap
    var deleted: bool

    constructor (ifs: Interfaces, memory: bool)
      requires !ifs.hw.dataOn && !ifs.hw.codecOn && ifs.hw.log == []
      ensures this.ifs == ifs && AsDev() == New(ifs.cfg, memory, ifs.hw.fate)
    {
      this.ifs := ifs;
      inputOpened, outputOpened, dataEnabled, codecEnabled := false, false, false, false;
      disableWhenClosed, swVol, swVolAlloced, deleted := true, false, false, false;
      heap := Heap(false, 0, 0, NewMap(ifs.cfg.output && memory));
    }

    function AsDev(): Dev
      reads this, ifs
    {
      Dev(ifs.cfg, ifs.hw, inputOpened, outputOpened, dataEnabled, codecEnabled, disableWhenClosed, swVol, swVolAlloced,
          heap, deleted)
    }

    method EnableSide(side: Side) returns (ok: bool)
      modifies this, ifs
      ensures (AsDev(), ok) == Enabled(old(AsDev()), side)
    {
      if side == Data {
        dataEnabled := true;
      } else {
        codecEnabled := true;
      }
      ok := ifs.Enable(side, true);
    }

    method DisableSide(side: Side) returns (ok: bool)
      modifies this, ifs
      ensures (AsDev(), ok) == Disabled(old(AsDev()), side)
    {
      ok := ifs.Enable(side, false);
      if ok {
        if side == Data {
          dataEnabled := false;
        } else {
          codecEnabled := false;
        }
      }
    }

    method RollBack()
      modifies this, ifs
      ensures AsDev() == Rollback(old(AsDev()))
    {
      if codecEnabled && ifs.cfg.codec && ifs.cfg.codecEnable {
        var _ := DisableSide(Codec);
      }
      if dataEnabled && ifs.cfg.dataEnable {
        var _ := DisableSide(Data);
      }
    }

    method EnableCodecSide(fsOk: bool) returns (ok: bool)
      modifies this, ifs
      ensures (AsDev(), ok) == EnableCodec(old(AsDev()), fsOk)
    {
      if ifs.cfg.codec {
        if ifs.cfg.codecSetFs {
          if !fsOk {
            return false;
          }
        }
        if ifs.cfg.codecEnable {
          ok := EnableSide(Codec);
          return;
        }
      }
      ok := true;
    }

    method MarkOpened(input: bool, output: bool)
      modifies this
      ensures AsDev() == Opened(old(AsDev()), input, output)
    {
      if outputOpened {
        if !ifs.cfg.codec || !ifs.cfg.codecSetVol {
          if !swVol {
            swVol, swVolAlloced := true, true;
          }
        }
      }
      inputOpened, outputOpened := input, output;
    }

    method FinishOpen(input: bool, output: bool, fsOk: bool) returns (code: Code)
      modifies this, ifs
      ensures (AsDev(), code) == OpenData(old(AsDev()), input, output, fsOk)
    {
      if ifs.cfg.dataEnable {
        var ok := EnableSide(Data);
        if !ok {
          var _ := DisableSide(Data);
          return FromDriver;
        }
      }
      var ok := EnableCodecSide(fsOk);
      if !ok {
        RollBack();
        return DrvErr;
      }
      MarkOpened(input, output);
      code := Ok;
    }

    /** esp_codec_dev_open */
    method OpenDevice(a: Answers) returns (code: Code)
      modifies this, ifs
      ensures (AsDev(), code) == Open(old(AsDev()), a)
      ensures old(Inv(AsDev())) ==> Inv(AsDev())
    {
      if Inv(AsDev()) {
        OpenKeepsInv(AsDev(), a);
      }
      if inputOpened || outputOpened {
        return Ok;
      }
      var input := ifs.cfg.input && DrvReady(ifs.cfg, a, false);
      var output := ifs.cfg.output && DrvReady(ifs.cfg, a, true);
      if !input && !output {
        return NotSupport;
      }
      if ifs.cfg.dataSetFmt && !a.fmtOk {
        return FromDriver;
      }
      code := FinishOpen(input, output, a.fsOk);
    }

    method DeinitMirror()
      modifies this
      ensures AsDev() == FreeMirror(old(AsDev()))
    {
      if heap.mirror {
        heap := heap.(mirror := false, mirrorsFreed := heap.mirrorsFreed + 1);
      }
    }

    method FinishClose() returns (code: Code)
      modifies this, ifs
      ensures (AsDev(), code) == CloseData(old(AsDev()))
    {
      if dataEnabled && ifs.cfg.dataEnable {
        var ok := DisableSide(Data);
        if !ok {
          return FromDriver;
        }
      }
      outputOpened, inputOpened := false, false;
      DeinitMirror();
      code := Ok;
    }

    /** esp_codec_dev_close */
    method CloseDevice() returns (code: Code)
      modifies this, ifs
      ensures (AsDev(), code) == Close(old(AsDev()))
      ensures old(Inv(AsDev())) ==> Inv(AsDev())
    {
      if Inv(AsDev()) {
        CloseKeepsInv(AsDev());
      }
      if !outputOpened && !inputOpened && !codecEnabled && !dataEnabled {
        DeinitMirror();
        return Ok;
      }
      if codecEnabled && disableWhenClosed && ifs.cfg.codec && ifs.cfg.codecEnable {
        var ok := DisableSide(Codec);
        if !ok {
          return FromDriver;
        }
      }
      code := FinishClose();
    }

    /** esp_codec_dev_delete */
    method DeleteDevice() returns (code: Code)
      modifies this, ifs
      ensures (AsDev(), code) == Delete(old(AsDev()))
      ensures old(Inv(AsDev())) ==>
        && Inv(AsDev()) && (code == Ok ==> !ifs.hw.dataOn)
        && (code != Ok ==> heap == old(heap) && deleted == old(deleted))
    {
      if Inv(AsDev()) {
        DeleteKeepsInv(AsDev());
      }
      code := CloseDevice();
      if code != Ok {
        return;
      }
      heap := heap.(curve := FreeMap(heap.curve));
      deleted := true;
    }

    /** esp_codec_dev_mirror_cfg */
    method ConfigureMirror(size: int, memory: bool) returns (code: Code)
      modifies this
      ensures (AsDev(), code) == MirrorCfg(old(AsDev()), size, memory)
      ensures old(Inv(AsDev())) ==> Inv(AsDev())
    {
      if size <= 0 {
        return InvalidArg;
      }
      if !ifs.cfg.input {
        return NotSupport;
      }
      if heap.mirror {
        return Ok;
      }
      if !memory {
        return NoMem;
      }
      heap := heap.(mirror := true, mirrorsMade := heap.mirrorsMade + 1);
      code := Ok;
    }

    /** esp_codec_dev_set_vol_curve */
    method SetVolCurve(codecOpen: bool, hasMap: bool, count: int, memory: bool) returns (code: Code)
      modifies this
      ensures (AsDev(), code) == SetCurve(old(AsDev()), codecOpen, hasMap, count, memory)
      ensures old(Inv(AsDev())) ==> Inv(AsDev())
      ensures old(Inv(AsDev())) ==>
        (MapSound(heap.curve) <==>
           old(MapSound(heap.curve))
           && !(hasMap && CurveBytes(count) == 0 && VerifyOutput(ifs.cfg, codecOpen) == Ok && old(heap.curve.held)))
    {
      if Inv(AsDev()) {
        SetCurveKeepsInv(AsDev(), codecOpen, hasMap, count, memory);
      }
      code := ChangeCurve(codecOpen, hasMap, count, memory);
    }

    method ChangeCurve(codecOpen: bool, hasMap: bool, count: int, memory: bool) returns (code: Code)
      modifies this
      ensures (AsDev(), code) == SetCurve(old(AsDev()), codecOpen, hasMap, count, memory)
    {
      if !hasMap {
        return InvalidArg;
      }
      code := VerifyOutput(ifs.cfg, codecOpen);
      if code != Ok {
        return;
      }
      var (curve, ok) := Realloc(heap.curve, CurveBytes(count), memory);
      heap := heap.(curve := curve);
      code := if ok then Ok else NoMem;
    }

    /** esp_codec_dev_set_vol_handler */
    method SetHandler(codecOpen: bool) returns (code: Code)
      modifies this
      ensures (AsDev(), code) == SetVolHandler(old(AsDev()), codecOpen)
      ensures old(Inv(AsDev())) ==> Inv(AsDev())
    {
      code := VerifyOutput(ifs.cfg, codecOpen);
      if code == Ok {
        swVol, swVolAlloced := true, false;
      }
    }
  }
}

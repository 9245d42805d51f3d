/**
 ES8388 codec instances as clients of the reference manager
 (components/esp_codec_dev/device/es8388/es8388.c): any number of instances on any number of
 chips. Chips have an I2C or SPI identity, and get_info and the list lock succeed.
 */
module Es8388 {
  import opened CodecRef

  /** audio_codec_es8388_t, as far as it takes part in the protocol. */
  datatype Inst = Inst(chip: Info, isOpen: bool, enabled: bool)

  /** What an operation asks of the chip: its register initialisation, start and stop. */
  datatype Event = HwInit(chip: Info) | HwStart(chip: Info) | HwStop(chip: Info)

  datatype World = World(refs: RefMap, insts: seq<Inst>)

  /** One operation and how the outside behaves: `memory` for both allocations of a new
      instance, `hwOk` for the register writes. */
  datatype Op = New(chip: Info, memory: bool, hwOk: bool)
              | SetEnable(i: nat, on: bool, hwOk: bool)
              | Close(i: nat)

  /** es8388_codec_new: the chip is initialised only by its first reference. */
  function NewCodec(w: World, chip: Info, memory: bool, hwOk: bool): (World, seq<Event>) {
    if !memory then (w, [])
    else
      var (refs, count) := MapAcquire(w.refs, chip, Open, memory);
      if count < 0 then (w, [])
      else if count == 1 then
        if hwOk then (World(refs, w.insts + [Inst(chip, true, false)]), [HwInit(chip)])
        else (w.(refs := MapRelease(refs, chip, Open).0), [HwInit(chip)])
      else (World(refs, w.insts + [Inst(chip, true, false)]), [])
  }

  /** es8388_enable on an instance and the reference map. */
  function EnableInst(x: Inst, refs: RefMap, on: bool, hwOk: bool): (Inst, RefMap, seq<Event>) {
    if !x.isOpen || x.enabled == on then (x, refs, [])
    else if !on then
      var (refs1, count) := MapRelease(refs, x.chip, Enable);
      if count < 0 then (x, refs1, [])
      else if count == 0 then (if hwOk then x.(enabled := false) else x, refs1, [HwStop(x.chip)])
      else (x.(enabled := false), refs1, [])
    else
      var (refs1, count) := MapAcquire(refs, x.chip, Enable, true);
      if count < 0 then (x, refs1, [])
      else (if hwOk then x.(enabled := true) else x, refs1, [HwStart(x.chip)])
  }

  /** es8388_close: an enabled instance keeps its ENABLE reference. */
  function CloseInst(x: Inst, refs: RefMap): (Inst, RefMap) {
    if !x.isOpen then (x, refs)
    else
      var (refs1, count) := MapRelease(refs, x.chip, Open);
      if count < 0 then (x, refs1) else (x.(isOpen := false), refs1)
  }

  function Step(w: World, op: Op): (World, seq<Event>) {
    match op
    case New(chip, memory, hwOk) => NewCodec(w, chip, memory, hwOk)
    case SetEnable(i, on, hwOk) =>
      if i >= |w.insts| then (w, [])
      else
        var (x, refs, events) := EnableInst(w.insts[i], w.refs, on, hwOk);
        (World(refs, w.insts[i := x]), events)
    case Close(i) =>
      if i >= |w.insts| then (w, [])
      else
        var (x, refs) := CloseInst(w.insts[i], w.refs);
        (World(refs, w.insts[i := x]), [])
  }

  // ---------------------------------------------------------------- counting instances

  predicate Uses(x: Inst, chip: Info, s: Stage) {
    x.chip == chip && x.isOpen && (s == Enable ==> x.enabled)
  }

  /** How many instances of a chip are open, or open and enabled. */
  function Users(insts: seq<Inst>, chip: Info, s: Stage): nat {
    if insts == [] then 0
    else Users(insts[..|insts| - 1], chip, s) + if Uses(insts[|insts| - 1], chip, s) then 1 else 0
  }

  lemma {:induction false} UsersAfterUpdate(insts: seq<Inst>, i: nat, x: Inst, chip: Info, s: Stage)
    requires i < |insts|
    ensures Users(insts[i := x], chip, s) ==
            Users(insts, chip, s) - (if Uses(insts[i], chip, s) then 1 else 0) + (if Uses(x, chip, s) then 1 else 0)
  {
    var last := |insts| - 1;
    if i == last {
      assert insts[i := x][..last] == insts[..last];
    } else {
      UsersAfterUpdate(insts[..last], i, x, chip, s);
      assert insts[i := x][..last] == insts[..last][i := x];
    }
  }

  lemma {:induction false} UsersIncludes(insts: seq<Inst>, i: nat, chip: Info, s: Stage)
    requires i < |insts| && Uses(insts[i], chip, s)
    ensures Users(insts, chip, s) >= 1
  {
    if i < |insts| - 1 {
      assert insts[..|insts| - 1][i] == insts[i];
      UsersIncludes(insts[..|insts| - 1], i, chip, s);
    }
  }

  lemma {:induction false} EnabledAreOpen(insts: seq<Inst>, chip: Info)
    ensures Users(insts, chip, Enable) <= Users(insts, chip, Open)
  {
    if insts != [] {
      EnabledAreOpen(insts[..|insts| - 1], chip);
    }
  }

  // ---------------------------------------------------------------- the invariant

  function RefsOf(w: World, chip: Info, s: Stage): nat {
    if chip in w.refs then w.refs[chip].Of(s) else 0
  }

  /** A chip's OPEN count is its open instances, its ENABLE count at least its enabled open
      ones, and only chips in use are listed. */
  ghost predicate Inv(w: World) {
    && Unknown !in w.refs
    && (forall chip :: RefsOf(w, chip, Open) == Users(w.insts, chip, Open))
    && (forall chip :: RefsOf(w, chip, Enable) >= Users(w.insts, chip, Enable))
    && (forall chip :: chip in w.refs ==> w.refs[chip].open > 0)
  }

  /** The premises: known chips, counts that are not saturated, and a hardware stop that can
      be written. Starts and initialisations may fail. */
  predicate Covered(w: World, op: Op) {
    match op
    case New(chip, _, _) => chip != Unknown && RefsOf(w, chip, Open) < 255
    case SetEnable(i, on, hwOk) =>
      i < |w.insts| && w.insts[i].isOpen && w.insts[i].enabled != on ==>
        if on then w.insts[i].chip != Unknown && RefsOf(w, w.insts[i].chip, Enable) < 255
        else HwStop(w.insts[i].chip) in Step(w, op).1 ==> hwOk
    case Close(_) => true
  }

  lemma NewKeepsInv(w: World, chip: Info, memory: bool, hwOk: bool)
    requires Inv(w) && Covered(w, New(chip, memory, hwOk))
    ensures Inv(NewCodec(w, chip, memory, hwOk).0)
    ensures HwInit(chip) in NewCodec(w, chip, memory, hwOk).1 <==> memory && Users(w.insts, chip, Open) == 0
  {
    var w' := NewCodec(w, chip, memory, hwOk).0;
    assert RefsOf(w, chip, Open) == Users(w.insts, chip, Open);
    if w'.insts != w.insts {
      assert w'.insts[..|w.insts|] == w.insts;
    }
    EnabledAreOpen(w.insts, chip);
    forall c ensures RefsOf(w', c, Open) == Users(w'.insts, c, Open) {
      assert RefsOf(w, c, Open) == Users(w.insts, c, Open);
    }
    forall c ensures RefsOf(w', c, Enable) >= Users(w'.insts, c, Enable) {
      assert RefsOf(w, c, Enable) >= Users(w.insts, c, Enable);
    }
  }

  lemma EnableKeepsInv(w: World, i: nat, on: bool, hwOk: bool)
    requires Inv(w) && Covered(w, SetEnable(i, on, hwOk)) && i < |w.insts|
    ensures Inv(Step(w, SetEnable(i, on, hwOk)).0)
    ensures
      var chip := w.insts[i].chip;
      HwStop(chip) in Step(w, SetEnable(i, on, hwOk)).1 ==>
        Users(w.insts, chip, Enable) == 1 && w.insts[i].enabled && w.insts[i].isOpen
  {
    var (w', events) := Step(w, SetEnable(i, on, hwOk));
    var x := w.insts[i];
    assert RefsOf(w, x.chip, Open) == Users(w.insts, x.chip, Open);
    assert RefsOf(w, x.chip, Enable) >= Users(w.insts, x.chip, Enable);
    if x.isOpen {
      UsersIncludes(w.insts, i, x.chip, Open);
      if x.enabled {
        UsersIncludes(w.insts, i, x.chip, Enable);
      }
    }
    forall c ensures RefsOf(w', c, Open) == Users(w'.insts, c, Open) {
      assert RefsOf(w, c, Open) == Users(w.insts, c, Open);
      UsersAfterUpdate(w.insts, i, w'.insts[i], c, Open);
    }
    forall c ensures RefsOf(w', c, Enable) >= Users(w'.insts, c, Enable) {
      assert RefsOf(w, c, Enable) >= Users(w.insts, c, Enable);
      UsersAfterUpdate(w.insts, i, w'.insts[i], c, Enable);
    }
  }

  lemma CloseKeepsInv(w: World, i: nat)
    requires Inv(w) && i < |w.insts|
    ensures Inv(Step(w, Close(i)).0)
  {
    var w' := Step(w, Close(i)).0;
    var x := w.insts[i];
    assert RefsOf(w, x.chip, Open) == Users(w.insts, x.chip, Open);
    if x.isOpen {
      UsersIncludes(w.insts, i, x.chip, Open);
    }
    forall c ensures RefsOf(w', c, Open) == Users(w'.insts, c, Open) {
      assert RefsOf(w, c, Open) == Users(w.insts, c, Open);
      UsersAfterUpdate(w.insts, i, w'.insts[i], c, Open);
    }
    forall c ensures RefsOf(w', c, Enable) >= Users(w'.insts, c, Enable) {
      assert RefsOf(w, c, Enable) >= Users(w.insts, c, Enable);
      UsersAfterUpdate(w.insts, i, w'.insts[i], c, Enable);
      EnabledAreOpen(w'.insts, c);
      assert RefsOf(w', c, Open) == Users(w'.insts, c, Open);
    }
  }

  // ---------------------------------------------------------------- single calls

  /** A new instance comes of enough memory and, for the first of a chip, an initialisation that
      succeeds; it takes one OPEN reference, and otherwise nothing has changed. */
  lemma NewIsMadeIff(w: World, chip: Info, memory: bool, hwOk: bool)
    requires Inv(w)
    ensures
      var w' := NewCodec(w, chip, memory, hwOk).0;
      var made := memory && (Users(w.insts, chip, Open) == 0 ==> hwOk);
      && w' == (if made then World(w'.refs, w.insts + [Inst(chip, true, false)]) else w)
      && (made && chip != Unknown ==> RefsOf(w', chip, Open) == Saturated(RefsOf(w, chip, Open)))
      && RefsOf(w', chip, Enable) == RefsOf(w, chip, Enable)
  {
    assert RefsOf(w, chip, Open) == Users(w.insts, chip, Open);
  }

  /** An open instance is enabled exactly if its chip starts, and disabled exactly if it holds a
      reference and either leaves another one or its chip stops. One that holds none stays as it
      is, and no other instance changes. */
  lemma SwitchesIff(w: World, i: nat, on: bool, hwOk: bool)
    requires i < |w.insts| && w.insts[i].isOpen && w.insts[i].enabled != on
    ensures
      var (w', events) := Step(w, SetEnable(i, on, hwOk));
      var chip := w.insts[i].chip;
      && (w'.insts[i].enabled == on <==> if on then hwOk else chip in w.refs && (hwOk || RefsOf(w, chip, Enable) > 1))
      && w'.insts == w.insts[i := w.insts[i].(enabled := w'.insts[i].enabled)]
      && (on && chip != Unknown ==> RefsOf(w', chip, Enable) == Saturated(RefsOf(w, chip, Enable)))
      && (!on && chip in w.refs ==> RefsOf(w', chip, Enable) == Lowered(RefsOf(w, chip, Enable)))
      && (!on && chip !in w.refs ==> w' == w && events == [])
  {
    assert w.insts == w.insts[i := w.insts[i]];
  }

  // ---------------------------------------------------------------- all runs

  function Run(w: World, ops: seq<Op>): World
    decreases |ops|
  {
    if ops == [] then w else Run(Step(w, ops[0]).0, ops[1..])
  }

  predicate RunCovered(w: World, ops: seq<Op>)
    decreases |ops|
  {
    ops != [] ==> Covered(w, ops[0]) && RunCovered(Step(w, ops[0]).0, ops[1..])
  }

  const FRESH: World := World(map[], [])

  lemma {:induction false} NobodyUses(chip: Info, s: Stage)
    ensures Users([], chip, s) == 0
  {
  }

  lemma FreshHolds()
    ensures Inv(FRESH)
  {
    forall chip ensures RefsOf(FRESH, chip, Open) == Users(FRESH.insts, chip, Open) {
      NobodyUses(chip, Open);
    }
  }

  lemma StepKeepsInv(w: World, op: Op)
    requires Inv(w) && Covered(w, op)
    ensures Inv(Step(w, op).0)
  {
    match op
    case New(chip, memory, hwOk) => NewKeepsInv(w, chip, memory, hwOk);
    case SetEnable(i, on, hwOk) => if i < |w.insts| { EnableKeepsInv(w, i, on, hwOk); }
    case Close(i) => if i < |w.insts| { CloseKeepsInv(w, i); }
  }

  lemma {:induction false} RunKeepsInv(w: World, ops: seq<Op>)
    requires Inv(w) && RunCovered(w, ops)
    ensures Inv(Run(w, ops))
    decreases |ops|
  {
    if ops != [] {
      StepKeepsInv(w, ops[0]);
      RunKeepsInv(Step(w, ops[0]).0, ops[1..]);
    }
  }

  /** A chip with one user has no other. */
  lemma OnlyUser(insts: seq<Inst>, i: nat, j: nat, chip: Info, s: Stage)
    requires i < |insts| && j < |insts| && i != j
    requires Uses(insts[i], chip, s) && Users(insts, chip, s) == 1
    ensures !Uses(insts[j], chip, s)
  {
    var x := insts[i].(isOpen := false);
    UsersAfterUpdate(insts, i, x, chip, s);
    if Uses(insts[j], chip, s) {
      UsersIncludes(insts[i := x], j, chip, s);
    }
  }

  /** What an enable or disable asks of the chip. */
  lemma EnableEvents(w: World, i: nat, on: bool, hwOk: bool, chip: Info)
    requires Inv(w) && Covered(w, SetEnable(i, on, hwOk)) && i < |w.insts|
    ensures
      var x := w.insts[i];
      var events := Step(w, SetEnable(i, on, hwOk)).1;
      && (HwStart(chip) in events <==> on && x.chip == chip && x.isOpen && !x.enabled)
      && (HwStop(chip) in events <==> !on && Uses(x, chip, Enable) && RefsOf(w, chip, Enable) == 1)
      && HwInit(chip) !in events
  {
    var x := w.insts[i];
    assert RefsOf(w, x.chip, Open) == Users(w.insts, x.chip, Open);
    assert RefsOf(w, x.chip, Enable) >= Users(w.insts, x.chip, Enable);
    if x.isOpen {
      UsersIncludes(w.insts, i, x.chip, Open);
      if x.enabled {
        UsersIncludes(w.insts, i, x.chip, Enable);
      }
    }
  }

  /** Over all covered runs from nothing, even when starts and initialisations fail: the OPEN
      count of a chip is its open instances and its ENABLE count at least its enabled open
      ones. The next operation initialises a chip exactly when it is a new instance of one
      that no open instance uses, starts it for every instance that becomes enabled, and stops
      it exactly when the last reference goes, which no other open instance can need. */
  lemma SharedChipIsSafe(ops: seq<Op>, op: Op, chip: Info)
    requires RunCovered(FRESH, ops) && Covered(Run(FRESH, ops), op)
    ensures
      var w := Run(FRESH, ops);
      var events := Step(w, op).1;
      && RefsOf(w, chip, Open) == Users(w.insts, chip, Open)
      && RefsOf(w, chip, Enable) >= Users(w.insts, chip, Enable)
      && (HwInit(chip) in events <==> op.New? && op.chip == chip && op.memory && Users(w.insts, chip, Open) == 0)
      && (HwStart(chip) in events <==>
            op.SetEnable? && op.on && op.i < |w.insts| && Uses(w.insts[op.i], chip, Open) && !w.insts[op.i].enabled)
      && (HwStop(chip) in events <==>
            && op.SetEnable? && !op.on && op.i < |w.insts|
            && Uses(w.insts[op.i], chip, Enable) && RefsOf(w, chip, Enable) == 1)
      && (HwStop(chip) in events ==>
            forall j :: 0 <= j < |w.insts| && j != op.i ==> !Uses(w.insts[j], chip, Enable))
  {
    FreshHolds();
    RunKeepsInv(FRESH, ops);
    var w := Run(FRESH, ops);
    assert RefsOf(w, chip, Open) == Users(w.insts, chip, Open);
    match op {
      case New(c, memory, hwOk) => NewKeepsInv(w, c, memory, hwOk);
      case SetEnable(i, on, hwOk) =>
        if i < |w.insts| {
          EnableEvents(w, i, on, hwOk, chip);
          EnableKeepsInv(w, i, on, hwOk);
        }
        if HwStop(chip) in Step(w, op).1 {
          forall j | 0 <= j < |w.insts| && j != i ensures !Uses(w.insts[j], chip, Enable) {
            OnlyUser(w.insts, i, j, chip, Enable);
          }
        }
      case Close(i) =>
    }
  }

  // ---------------------------------------------------------------- the last user

  /** The operation leaves an ENABLE reference behind that no instance will give back: a start
      fails, or an enabled instance is closed while another keeps the chip listed. */
  predicate Loses(w: World, op: Op, chip: Info) {
    match op
    case New(_, _, _) => false
    case SetEnable(i, on, hwOk) =>
      i < |w.insts| && on && !hwOk && Uses(w.insts[i], chip, Open) && !w.insts[i].enabled
    case Close(i) => i < |w.insts| && Uses(w.insts[i], chip, Enable) && Users(w.insts, chip, Open) > 1
  }

  /** The last open instance of a chip is closed, and with it go all references. */
  predicate Unlists(w: World, op: Op, chip: Info) {
    op.Close? && op.i < |w.insts| && Uses(w.insts[op.i], chip, Open) && Users(w.insts, chip, Open) == 1
  }

  function LostBy(w: World, op: Op, chip: Info, before: nat): nat {
    if Unlists(w, op, chip) then 0 else if Loses(w, op, chip) then before + 1 else before
  }

  /** How many references a run has left behind since the chip was last without users. */
  function Lost(w: World, ops: seq<Op>, chip: Info, before: nat): nat
    decreases |ops|
  {
    if ops == [] then before else Lost(Step(w, ops[0]).0, ops[1..], chip, LostBy(w, ops[0], chip, before))
  }

  predicate Balanced(w: World, chip: Info, lost: nat) {
    RefsOf(w, chip, Enable) == Users(w.insts, chip, Enable) + lost
  }

  lemma NewBalances(w: World, c: Info, memory: bool, hwOk: bool, chip: Info, lost: nat)
    requires Inv(w) && Covered(w, New(c, memory, hwOk)) && Balanced(w, chip, lost)
    ensures Balanced(NewCodec(w, c, memory, hwOk).0, chip, lost)
  {
    var w' := NewCodec(w, c, memory, hwOk).0;
    assert RefsOf(w, c, Open) == Users(w.insts, c, Open);
    EnabledAreOpen(w.insts, c);
    if w'.insts != w.insts {
      assert w'.insts[..|w.insts|] == w.insts;
    }
  }

  lemma EnableBalances(w: World, i: nat, on: bool, hwOk: bool, chip: Info, lost: nat)
    requires Inv(w) && Covered(w, SetEnable(i, on, hwOk)) && i < |w.insts| && Balanced(w, chip, lost)
    ensures
      var op := SetEnable(i, on, hwOk);
      Balanced(Step(w, op).0, chip, LostBy(w, op, chip, lost))
  {
    var w' := Step(w, SetEnable(i, on, hwOk)).0;
    var x := w.insts[i];
    assert RefsOf(w, x.chip, Open) == Users(w.insts, x.chip, Open);
    if x.isOpen {
      UsersIncludes(w.insts, i, x.chip, Open);
      if x.enabled {
        UsersIncludes(w.insts, i, x.chip, Enable);
      }
    }
    UsersAfterUpdate(w.insts, i, w'.insts[i], chip, Enable);
  }

  lemma CloseBalances(w: World, i: nat, chip: Info, lost: nat)
    requires Inv(w) && i < |w.insts| && Balanced(w, chip, lost)
    ensures Balanced(Step(w, Close(i)).0, chip, LostBy(w, Close(i), chip, lost))
  {
    var w' := Step(w, Close(i)).0;
    var x := w.insts[i];
    assert RefsOf(w, x.chip, Open) == Users(w.insts, x.chip, Open);
    if x.isOpen {
      UsersIncludes(w.insts, i, x.chip, Open);
    }
    UsersAfterUpdate(w.insts, i, w'.insts[i], chip, Enable);
    UsersAfterUpdate(w.insts, i, w'.insts[i], chip, Open);
    EnabledAreOpen(w'.insts, chip);
  }

  lemma {:induction false} RunBalances(w: World, ops: seq<Op>, chip: Info, before: nat)
    requires Inv(w) && RunCovered(w, ops) && Balanced(w, chip, before)
    ensures Balanced(Run(w, ops), chip, Lost(w, ops, chip, before))
    decreases |ops|
  {
    if ops != [] {
      StepKeepsInv(w, ops[0]);
      match ops[0] {
        case New(c, memory, hwOk) => NewBalances(w, c, memory, hwOk, chip, before);
        case SetEnable(i, on, hwOk) => if i < |w.insts| { EnableBalances(w, i, on, hwOk, chip, before); }
        case Close(i) => if i < |w.insts| { CloseBalances(w, i, chip, before); }
      }
      RunBalances(Step(w, ops[0]).0, ops[1..], chip, LostBy(w, ops[0], chip, before));
    }
  }

  /** After any covered run the ENABLE count of a chip is its enabled instances and what the
      run has lost. So disabling the last enabled instance stops the chip if and only if, since
      the chip was last without users, no start of it has failed and no enabled instance of it
      was closed beside another open one. */
  lemma LastDisableStopsIff(ops: seq<Op>, i: nat, hwOk: bool, chip: Info)
    requires RunCovered(FRESH, ops)
    requires
      var w := Run(FRESH, ops);
      i < |w.insts| && Uses(w.insts[i], chip, Enable) && Users(w.insts, chip, Enable) == 1
    ensures
      var w := Run(FRESH, ops);
      && RefsOf(w, chip, Enable) == 1 + Lost(FRESH, ops, chip, 0)
      && (HwStop(chip) in Step(w, SetEnable(i, false, hwOk)).1 <==> Lost(FRESH, ops, chip, 0) == 0)
  {
    FreshHolds();
    NobodyUses(chip, Enable);
    RunBalances(FRESH, ops, chip, 0);
  }

  /** Such a run: a start fails, the next one succeeds, and the only user's disable leaves the
      chip on. */
  lemma FailedStartLeavesChipOn(chip: Info)
    requires chip != Unknown
    ensures
      var ops := [New(chip, true, true), SetEnable(0, true, false), SetEnable(0, true, true)];
      var w := Run(FRESH, ops);
      var (w', events) := Step(w, SetEnable(0, false, true));
      && RunCovered(FRESH, ops) && w.insts == [Inst(chip, true, true)]
      && events == [] && w'.insts == [Inst(chip, true, false)] && RefsOf(w', chip, Enable) == 1
  {
    var idle, used := Inst(chip, true, false), Inst(chip, true, true);
    var create, fail, start := New(chip, true, true), SetEnable(0, true, false), SetEnable(0, true, true);
    var w1 := World(map[chip := Counts(1, 0)], [idle]);
    var w2, w3 := World(map[chip := Counts(1, 1)], [idle]), World(map[chip := Counts(1, 2)], [used]);
    assert Step(FRESH, create).0 == w1 && Step(w1, fail).0 == w2 && Step(w2, start).0 == w3;
    Unfold(FRESH, create, [fail, start]);
    Unfold(w1, fail, [start]);
    Unfold(w2, start, []);
    assert [create, fail, start][1..] == [fail, start] && [fail, start][1..] == [start] && [start][1..] == [];
    assert RunCovered(w2, [start]) && RunCovered(w1, [fail, start]);
  }

  lemma Unfold(w: World, op: Op, rest: seq<Op>)
    ensures Run(w, [op] + rest) == Run(Step(w, op).0, rest)
  {
    assert ([op] + rest)[1..] == rest;
  }

  // ---------------------------------------------------------------- the premises are exact

  /** A new instance breaks the counts exactly when the OPEN count is saturated, or the chip
      has no known identity. */
  lemma NewKeepsInvIff(w: World, chip: Info, memory: bool, hwOk: bool)
    requires Inv(w)
    ensures Inv(NewCodec(w, chip, memory, hwOk).0) <==>
            !memory || if chip == Unknown then !hwOk else RefsOf(w, chip, Open) < 255
  {
    var w' := NewCodec(w, chip, memory, hwOk).0;
    assert RefsOf(w, chip, Open) == Users(w.insts, chip, Open);
    if chip != Unknown && RefsOf(w, chip, Open) < 255 {
      NewKeepsInv(w, chip, memory, hwOk);
    } else if w'.insts != w.insts {
      assert w'.insts[..|w.insts|] == w.insts;
      assert RefsOf(w', chip, Open) != Users(w'.insts, chip, Open);
    }
  }

  /** Disabling an enabled instance breaks them exactly when it drops the last reference and
      the stop fails: the instance stays enabled without one. */
  lemma DisableKeepsInvIff(w: World, i: nat, hwOk: bool)
    requires Inv(w) && i < |w.insts| && Uses(w.insts[i], w.insts[i].chip, Enable)
    ensures Inv(Step(w, SetEnable(i, false, hwOk)).0) <==> hwOk || RefsOf(w, w.insts[i].chip, Enable) >= 2
  {
    var chip := w.insts[i].chip;
    var w' := Step(w, SetEnable(i, false, hwOk)).0;
    assert RefsOf(w, chip, Enable) >= Users(w.insts, chip, Enable);
    UsersIncludes(w.insts, i, chip, Enable);
    if hwOk || RefsOf(w, chip, Enable) >= 2 {
      EnableKeepsInv(w, i, false, hwOk);
    } else {
      UsersIncludes(w'.insts, i, chip, Enable);
      assert RefsOf(w', chip, Enable) < Users(w'.insts, chip, Enable);
    }
  }

  /** And then a later disable stops the chip under an instance that uses it. */
  lemma FailedStopBreaksSharing(chip: Info)
    requires chip != Unknown
    ensures
      var ops := [New(chip, true, true), New(chip, true, true),
                  SetEnable(0, true, true), SetEnable(1, true, true),
                  SetEnable(0, false, true), SetEnable(1, false, false), SetEnable(0, true, true)];
      var w := Run(FRESH, ops);
      && |w.insts| == 2 && Uses(w.insts[0], chip, Enable)
      && HwStop(chip) in Step(w, SetEnable(1, false, true)).1
  {
    var a := Inst(chip, true, true);
    var b := a.(enabled := false);
    var n0, n1, n2 := map[chip := Counts(2, 0)], map[chip := Counts(2, 1)], map[chip := Counts(2, 2)];
    var e0, e1 := SetEnable(0, true, true), SetEnable(1, true, true);
    var d0, d1 := SetEnable(0, false, true), SetEnable(1, false, false);
    var create := New(chip, true, true);
    assert Step(FRESH, create).0 == World(map[chip := Counts(1, 0)], [b]);
    assert Step(World(map[chip := Counts(1, 0)], [b]), create).0 == World(n0, [b, b]);
    assert Step(World(n0, [b, b]), e0).0 == World(n1, [a, b]);
    assert Step(World(n1, [a, b]), e1).0 == World(n2, [a, a]);
    assert Step(World(n2, [a, a]), d0).0 == World(n1, [b, a]);
    assert Step(World(n1, [b, a]), d1).0 == World(n0, [b, a]);
    assert Step(World(n0, [b, a]), e0).0 == World(n1, [a, a]);
    Unfold(FRESH, create, [create, e0, e1, d0, d1, e0]);
    Unfold(World(map[chip := Counts(1, 0)], [b]), create, [e0, e1, d0, d1, e0]);
    Unfold(World(n0, [b, b]), e0, [e1, d0, d1, e0]);
    Unfold(World(n1, [a, b]), e1, [d0, d1, e0]);
    Unfold(World(n2, [a, a]), d0, [d1, e0]);
    Unfold(World(n1, [b, a]), d1, [e0]);
    Unfold(World(n0, [b, a]), e0, []);
  }

  // ---------------------------------------------------------------- the codec object

  /** audio_codec_es8388_t over the linked reference list. `events` lists what is asked of the
      chip. */
  class Codec {
    const chip: Info
    var isOpen: bool
    var enabled: bool

    constructor (chip: Info)
      ensures this.chip == chip && !isOpen && !enabled
    {
      this.chip, isOpen, enabled := chip, false, false;
    }

    function AsInst(): Inst
      reads this
    {
      Inst(chip, isOpen, enabled)
    }

    /** es8388_enable; it reports success exactly when the instance ends up as asked. */
    method SetEnabled(list: RefList, on: bool, hwOk: bool) returns (ok: bool, events: seq<Event>)
      requires list.Valid() && Unique(list.entries)
      modifies this, list, list.spine
      ensures list.Valid() && Unique(list.entries)
      ensures (AsInst(), Abs(list.entries), events) == EnableInst(old(AsInst()), Abs(old(list.entries)), on, hwOk)
      ensures ok <==> isOpen && enabled == on
    {
      events := [];
      if !isOpen {
        return false, [];
      }
      if enabled == on {
        return true, [];
      }
      var res := true;
      if !on {
        ReleaseRefinesMap(list.entries, chip, Enable);
        var count := list.ReleaseRef(chip, Enable);
        if count < 0 {
          return false, [];
        }
        if count == 0 {
          events, res := [HwStop(chip)], hwOk;
        }
      } else {
        AcquireRefinesMap(list.entries, chip, Enable, true);
        var count := list.AcquireRef(chip, Enable, true);
        if count < 0 {
          return false, [];
        }
        events, res := [HwStart(chip)], hwOk;
      }
      if res {
        enabled := on;
      }
      ok := res;
    }

    /** es8388_close; it reports success exactly when the instance ends up closed. */
    method CloseCodec(list: RefList) returns (ok: bool)
      requires list.Valid() && Unique(list.entries)
      modifies this, list, list.spine
      ensures list.Valid() && Unique(list.entries)
      ensures (AsInst(), Abs(list.entries)) == CloseInst(old(AsInst()), Abs(old(list.entries)))
      ensures ok <==> !isOpen
    {
      if isOpen {
        ReleaseRefinesMap(list.entries, chip, Open);
        var count := list.ReleaseRef(chip, Open);
        if count < 0 {
          return false;
        }
        isOpen := false;
      }
      ok := true;
    }
  }

  /** es8388_codec_new, beside the instances `insts` there already are. */
  method CreateCodec(list: RefList, chip: Info, memory: bool, hwOk: bool, ghost insts: seq<Inst>)
    returns (codec: Codec?, events: seq<Event>)
    requires list.Valid() && Unique(list.entries)
    modifies list, list.spine
    ensures list.Valid() && Unique(list.entries)
    ensures codec != null ==> fresh(codec) && codec.AsInst() == Inst(chip, true, false)
    ensures
      var (w, asked) := NewCodec(World(Abs(old(list.entries)), insts), chip, memory, hwOk);
      && w.refs == Abs(list.entries) && asked == events
      && w.insts == if codec == null then insts else insts + [codec.AsInst()]
  {
    if !memory {
      return null, [];
    }
    codec := new Codec(chip);
    var ok;
    ok, events := TakeChip(list, chip, memory, hwOk);
    if !ok {
      return null, events;
    }
    codec.isOpen := true;
  }

  /** The OPEN reference of a new instance, and the initialisation of a chip it is the first
      of; when that fails, the reference is given back. */
  method TakeChip(list: RefList, chip: Info, memory: bool, hwOk: bool) returns (ok: bool, events: seq<Event>)
    requires list.Valid() && Unique(list.entries)
    modifies list, list.spine
    ensures list.Valid() && Unique(list.entries)
    ensures
      var (refs, count) := MapAcquire(Abs(old(list.entries)), chip, Open, memory);
      && ok == (count > 1 || (count == 1 && hwOk)) && events == (if count == 1 then [HwInit(chip)] else [])
      && Abs(list.entries) == if count == 1 && !hwOk then MapRelease(refs, chip, Open).0 else refs
  {
    AcquireRefinesMap(list.entries, chip, Open, memory);
    var count := list.AcquireRef(chip, Open, memory);
    ok, events := count >= 1, [];
    if count == 1 {
      events := [HwInit(chip)];
      if !hwOk {
        ReleaseRefinesMap(list.entries, chip, Open);
        assert forall i :: 0 < i < |list.spine| ==> list.spine[i] == list.spine[1..][i - 1];
        var _ := list.ReleaseRef(chip, Open);
        ok := false;
      }
    }
  }
}

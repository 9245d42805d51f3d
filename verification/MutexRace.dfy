/**
 The lazy creation of the list mutex in codec_ref_get_mutex
 (components/esp_codec_dev/device/common/codec_ref_mgr.c): any number of threads race through
 it, each step atomic, in any order. Mutexes are numbered in the order of their creation.
 */
module MutexRace {
  import opened Common

  /** Where a call stands: before its first read; holding a mutex before and after the failed
      compare-and-set; about to read the installed mutex again; done. */
  datatype Pc = Start | Created(m: nat) | Lost(m: nat) | Reread | Done(result: Option<nat>)

  /** The calls, the installed mutex, who created which mutex, and who destroyed which. */
  datatype Sys = Sys(pcs: seq<Pc>, installed: Option<nat>, creator: seq<nat>, destroyed: seq<(nat, nat)>)

  /** One step of call `t`; a creation fails without `memory`. */
  datatype Act = Act(t: nat, memory: bool)

  function Step(s: Sys, a: Act): Sys {
    if a.t >= |s.pcs| then s
    else match s.pcs[a.t]
      case Start =>
        if s.installed.Some? then s.(pcs := s.pcs[a.t := Reread])
        else if !a.memory then s.(pcs := s.pcs[a.t := Done(None)])
        else s.(pcs := s.pcs[a.t := Created(|s.creator|)], creator := s.creator + [a.t])
      case Created(m) =>
        if s.installed.None? then s.(pcs := s.pcs[a.t := Done(Some(m))], installed := Some(m))
        else s.(pcs := s.pcs[a.t := Lost(m)])
      case Lost(m) => s.(pcs := s.pcs[a.t := Reread], destroyed := s.destroyed + [(a.t, m)])
      case Reread => s.(pcs := s.pcs[a.t := Done(s.installed)])
      case Done(_) => s
  }

  function Run(s: Sys, acts: seq<Act>): Sys
    decreases |acts|
  {
    if acts == [] then s else Run(Step(s, acts[0]), acts[1..])
  }

  function Begin(calls: nat): Sys {
    Sys(seq(calls, _ => Start), None, [], [])
  }

  // ---------------------------------------------------------------- the invariant

  predicate Holds(pc: Pc, m: nat) {
    (pc.Created? || pc.Lost?) && pc.m == m
  }

  predicate HeldBy(s: Sys, t: nat, m: nat) {
    t < |s.pcs| && Holds(s.pcs[t], m)
  }

  predicate DestroyedBy(s: Sys, t: nat, m: nat) {
    (t, m) in s.destroyed
  }

  /** Mutex `m` is in exactly one place: installed, in its creator's hands, or destroyed, and
      then by its creator. */
  predicate Accounted(s: Sys, m: nat)
    requires m < |s.creator|
  {
    var t := s.creator[m];
    if s.installed == Some(m) then !HeldBy(s, t, m) && !DestroyedBy(s, t, m)
    else HeldBy(s, t, m) != DestroyedBy(s, t, m)
  }

  /** What a call may hold or return. */
  predicate Sound(s: Sys, t: nat)
    requires t < |s.pcs|
  {
    match s.pcs[t]
    case Start => true
    case Created(m) => m < |s.creator| && s.creator[m] == t
    case Lost(m) => m < |s.creator| && s.creator[m] == t && s.installed.Some?
    case Reread => s.installed.Some?
    case Done(r) => r.Some? ==> r == s.installed
  }

  predicate Inv(s: Sys) {
    && (s.installed.Some? ==> s.installed.value < |s.creator|)
    && (forall t :: 0 <= t < |s.pcs| ==> Sound(s, t))
    && (forall m :: 0 <= m < |s.creator| ==> Accounted(s, m))
    && (forall d :: d in s.destroyed ==> d.1 < |s.creator| && d.0 == s.creator[d.1])
    && (forall i, j :: 0 <= i < j < |s.destroyed| ==> s.destroyed[i] != s.destroyed[j])
  }

  lemma StepKeepsInv(s: Sys, a: Act)
    requires Inv(s)
    ensures Inv(Step(s, a)) && (s.installed.Some? ==> Step(s, a).installed == s.installed)
  {
    var s' := Step(s, a);
    if a.t < |s.pcs| {
      assert Sound(s, a.t);
      if s.pcs[a.t].Lost? {
        assert Accounted(s, s.pcs[a.t].m);
        forall i, j | 0 <= i < j < |s'.destroyed| ensures s'.destroyed[i] != s'.destroyed[j] {
          assert s.destroyed[i] in s.destroyed;
        }
      }
      forall t | 0 <= t < |s'.pcs| ensures Sound(s', t) {
        assert Sound(s, t);
      }
      forall m | 0 <= m < |s'.creator| ensures Accounted(s', m) {
        if m < |s.creator| {
          assert Accounted(s, m);
        } else {
          forall d | d in s.destroyed ensures d.1 != m {
          }
        }
      }
    }
  }

  lemma {:induction false} RunKeepsInv(s: Sys, acts: seq<Act>)
    requires Inv(s)
    ensures Inv(Run(s, acts)) && (s.installed.Some? ==> Run(s, acts).installed == s.installed)
    decreases |acts|
  {
    if acts != [] {
      StepKeepsInv(s, acts[0]);
      RunKeepsInv(Step(s, acts[0]), acts[1..]);
    }
  }

  lemma {:induction false} RunSplits(s: Sys, before: seq<Act>, after: seq<Act>)
    ensures Run(s, before + after) == Run(Run(s, before), after)
    decreases |before|
  {
    if before == [] {
      assert before + after == after;
    } else {
      RunSplits(Step(s, before[0]), before[1..], after);
      assert (before + after)[1..] == before[1..] + after;
    }
  }

  /** Once a mutex is installed it stays, under every further interleaving. */
  lemma InstalledMutexStays(calls: nat, before: seq<Act>, after: seq<Act>)
    ensures
      var s := Run(Begin(calls), before);
      s.installed.Some? ==> Run(Begin(calls), before + after).installed == s.installed
  {
    RunKeepsInv(Begin(calls), before);
    RunSplits(Begin(calls), before, after);
    RunKeepsInv(Run(Begin(calls), before), after);
  }

  /** Under every interleaving: the installed mutex is never destroyed, every call that
      returns a mutex returns the installed one, nobody destroys a mutex of another call, and
      none is destroyed twice. */
  lemma RaceIsSafe(calls: nat, acts: seq<Act>)
    ensures
      var s := Run(Begin(calls), acts);
      && (s.installed.Some? ==> forall d :: d in s.destroyed ==> d.1 != s.installed.value)
      && (forall t :: 0 <= t < |s.pcs| && s.pcs[t].Done? && s.pcs[t].result.Some? ==> s.pcs[t].result == s.installed)
      && (forall d :: d in s.destroyed ==> d.1 < |s.creator| && s.creator[d.1] == d.0)
      && (forall i, j :: 0 <= i < j < |s.destroyed| ==> s.destroyed[i].1 != s.destroyed[j].1)
  {
    RunKeepsInv(Begin(calls), acts);
    var s := Run(Begin(calls), acts);
    if s.installed.Some? {
      assert Accounted(s, s.installed.value);
    }
    forall t | 0 <= t < |s.pcs| && s.pcs[t].Done? && s.pcs[t].result.Some? ensures s.pcs[t].result == s.installed {
      assert Sound(s, t);
    }
    forall i, j | 0 <= i < j < |s.destroyed| ensures s.destroyed[i].1 != s.destroyed[j].1 {
      assert s.destroyed[i] in s.destroyed && s.destroyed[j] in s.destroyed;
    }
  }

  /** And when all calls have returned, no losing mutex is left over: each created mutex is
      the installed one or was destroyed. */
  lemma LosersAreDestroyed(calls: nat, acts: seq<Act>, m: nat)
    requires forall t :: 0 <= t < |Run(Begin(calls), acts).pcs| ==> Run(Begin(calls), acts).pcs[t].Done?
    requires m < |Run(Begin(calls), acts).creator|
    ensures
      var s := Run(Begin(calls), acts);
      s.installed == Some(m) <==> (s.creator[m], m) !in s.destroyed
  {
    RunKeepsInv(Begin(calls), acts);
    assert Accounted(Run(Begin(calls), acts), m);
  }

  // ---------------------------------------------------------------- every call returns

  /** How many steps a call has left at most. */
  function Left(pc: Pc): nat {
    match pc
    case Start => 4
    case Created(_) => 3
    case Lost(_) => 2
    case Reread => 1
    case Done(_) => 0
  }

  function StepsOf(acts: seq<Act>, t: nat): nat {
    if acts == [] then 0 else StepsOf(acts[1..], t) + if acts[0].t == t then 1 else 0
  }

  /** The first step of call `t` finds no mutex installed, and cannot create one. */
  predicate Starved(s: Sys, acts: seq<Act>, t: nat)
    decreases |acts|
  {
    acts != [] &&
    if acts[0].t == t then s.installed.None? && !acts[0].memory else Starved(Step(s, acts[0]), acts[1..], t)
  }

  lemma {:induction false} ReturnsInTime(s: Sys, acts: seq<Act>, t: nat)
    requires Inv(s) && t < |s.pcs| && StepsOf(acts, t) >= Left(s.pcs[t])
    ensures
      var s' := Run(s, acts);
      && t < |s'.pcs| && s'.pcs[t].Done?
      && (s'.pcs[t].result.None? <==> if s.pcs[t].Start? then Starved(s, acts, t) else s.pcs[t] == Done(None))
    decreases |acts|
  {
    if acts != [] {
      assert Sound(s, t);
      StepKeepsInv(s, acts[0]);
      ReturnsInTime(Step(s, acts[0]), acts[1..], t);
    }
  }

  /** Whatever the others do in between, a call returns after four steps of its own at most:
      with a mutex, and so the installed one, unless nothing was installed at its first step
      and none could be created. */
  lemma EachCallReturns(calls: nat, acts: seq<Act>, t: nat)
    requires t < calls && StepsOf(acts, t) >= 4
    ensures
      var s := Run(Begin(calls), acts);
      && t < |s.pcs| && s.pcs[t].Done?
      && (Starved(Begin(calls), acts, t) ==> s.pcs[t].result == None)
      && (!Starved(Begin(calls), acts, t) ==> s.installed.Some? && s.pcs[t].result == s.installed)
  {
    ReturnsInTime(Begin(calls), acts, t);
    RunKeepsInv(Begin(calls), acts);
    assert Sound(Run(Begin(calls), acts), t);
  }

  // ---------------------------------------------------------------- the call itself

  /** The global, and what the operating system did with mutexes. */
  class RefMutex {
    var installed: Option<nat>
    var created: nat
    var destroyed: set<nat>

    constructor ()
      ensures installed == None && created == 0 && destroyed == {}
    {
      installed, created, destroyed := None, 0, {};
    }

    /** codec_ref_get_mutex; between the creation and the compare-and-set another thread may
        have installed `rival`. */
    method GetMutex(memory: bool, rival: Option<nat>) returns (r: Option<nat>)
      requires installed.Some? ==> rival == installed
      modifies this
      ensures old(installed).Some? ==>
        r == installed == old(installed) && created == old(created) && destroyed == old(destroyed)
      ensures old(installed).None? && !memory ==> r == None && installed == None && created == old(created)
      ensures old(installed).None? && memory ==>
        && r == installed && created == old(created) + 1
        && installed == (if rival.Some? then rival else Some(old(created)))
        && destroyed == if rival.Some? then old(destroyed) + {old(created)} else old(destroyed)
    {
      if installed.Some? {
        return installed;
      }
      if !memory {
        return None;
      }
      var mutex := created;
      created := created + 1;
      if rival.Some? {
        installed := rival;
      }
      if installed.None? {
        installed := Some(mutex);
        return Some(mutex);
      }
      destroyed := destroyed + {mutex};
      r := installed;
    }
  }
}

/**
 The reference manager of components/esp_codec_dev/device/common/codec_ref_mgr.c: a linked
 list of control identities with a saturating count per lifecycle stage. It refines a map
 from identity to counts. Taking the list lock succeeds.
 */
module CodecRef {

  datatype Stage = Open | Enable

  /** audio_codec_ctrl_info_t. Infos of no known type equal nothing, not even themselves. */
  datatype Info = I2c(addr: nat, port: nat) | Spi(csPin: int) | Unknown

  /** ctrl_info_equal */
  predicate Same(a: Info, b: Info) {
    match (a, b)
    case (I2c(a1, p1), I2c(a2, p2)) => a1 == a2 && p1 == p2
    case (Spi(c1), Spi(c2)) => c1 == c2
    case _ => false
  }

  datatype Counts = Counts(open: nat, enable: nat) {
    function Of(s: Stage): nat { if s == Open then open else enable }

    function With(s: Stage, n: nat): Counts {
      if s == Open then this.(open := n) else this.(enable := n)
    }
  }

  function Saturated(n: nat): nat { if n < 255 then n + 1 else n }

  function Lowered(n: nat): nat { if n > 0 then n - 1 else 0 }

  // ---------------------------------------------------------------- the map

  type RefMap = map<Info, Counts>

  /** codec_ref_acquire on the map; -1 when the new node cannot be allocated. Infos of no
      known type are listed anew every time, and the map does not hold them. */
  function MapAcquire(m: RefMap, info: Info, s: Stage, memory: bool): (RefMap, int) {
    if info in m then
      var n: int := Saturated(m[info].Of(s));
      (m[info := m[info].With(s, n)], n)
    else if !memory then (m, -1)
    else if info == Unknown then (m, 1)
    else (m[info := Counts(0, 0).With(s, 1)], 1)
  }

  /** codec_ref_release on the map: an identity goes when its OPEN count is left at 0. */
  function MapRelease(m: RefMap, info: Info, s: Stage): (RefMap, int) {
    if info !in m then (m, -1)
    else
      var n: int := Lowered(m[info].Of(s));
      if s == Open && n == 0 then (m - {info}, n) else (m[info := m[info].With(s, n)], n)
  }

  // ---------------------------------------------------------------- the list

  datatype Entry = Entry(info: Info, counts: Counts)

  function FindInfo(list: seq<Entry>, i: nat, info: Info): (r: nat)
    requires i <= |list|
    ensures i <= r <= |list|
    ensures r < |list| ==> Same(list[r].info, info)
    ensures forall k :: i <= k < r ==> !Same(list[k].info, info)
    decreases |list| - i
  {
    if i < |list| && !Same(list[i].info, info) then FindInfo(list, i + 1, info) else i
  }

  function ListAcquire(list: seq<Entry>, info: Info, s: Stage, memory: bool): (seq<Entry>, int) {
    var i := FindInfo(list, 0, info);
    if i < |list| then
      var n: int := Saturated(list[i].counts.Of(s));
      (list[i := list[i].(counts := list[i].counts.With(s, n))], n)
    else if !memory then (list, -1)
    else ([Entry(info, Counts(0, 0).With(s, 1))] + list, 1)
  }

  function ListRelease(list: seq<Entry>, info: Info, s: Stage): (seq<Entry>, int) {
    var i := FindInfo(list, 0, info);
    if i == |list| then (list, -1)
    else
      var n: int := Lowered(list[i].counts.Of(s));
      if s == Open && n == 0 then (list[..i] + list[i + 1..], n)
      else (list[i := list[i].(counts := list[i].counts.With(s, n))], n)
  }

  /** What a list stands for: the counts of its known identities, newest entry first. */
  function Abs(list: seq<Entry>): RefMap {
    if list == [] then map[]
    else if list[0].info == Unknown then Abs(list[1..])
    else Abs(list[1..])[list[0].info := list[0].counts]
  }

  lemma {:induction false} AbsKeys(list: seq<Entry>, k: Info)
    ensures k in Abs(list) <==> k != Unknown && exists e :: e in list && e.info == k
  {
    if list != [] {
      AbsKeys(list[1..], k);
      assert list == [list[0]] + list[1..];
    }
  }

  /** No known identity is listed twice. */
  predicate Unique(list: seq<Entry>) {
    list != [] ==> (forall e :: e in list[1..] ==> !Same(list[0].info, e.info)) && Unique(list[1..])
  }

  lemma SameIsEqual(a: Info, b: Info)
    ensures Same(a, b) <==> a == b && a != Unknown
  {
  }

  lemma {:induction false} AbsAt(list: seq<Entry>, i: nat)
    requires Unique(list) && i < |list| && list[i].info != Unknown
    ensures list[i].info in Abs(list) && Abs(list)[list[i].info] == list[i].counts
  {
    if i > 0 {
      AbsAt(list[1..], i - 1);
      assert list[i] in list[1..];
      SameIsEqual(list[0].info, list[i].info);
    }
  }

  lemma {:induction false} AbsUpdate(list: seq<Entry>, i: nat, c: Counts)
    requires Unique(list) && i < |list| && list[i].info != Unknown
    ensures Unique(list[i := list[i].(counts := c)])
    ensures Abs(list[i := list[i].(counts := c)]) == Abs(list)[list[i].info := c]
  {
    var next := list[i := list[i].(counts := c)];
    if i > 0 {
      AbsUpdate(list[1..], i - 1, c);
      assert next[1..] == list[1..][i - 1 := list[1..][i - 1].(counts := c)];
      assert list[i] in list[1..];
      SameIsEqual(list[0].info, list[i].info);
      forall e | e in next[1..] ensures !Same(next[0].info, e.info) {
        assert e in list[1..] || e == next[i];
      }
    } else {
      assert next[1..] == list[1..];
    }
  }

  lemma {:induction false} RemoveKeepsUnique(list: seq<Entry>, i: nat)
    requires Unique(list) && i < |list|
    ensures Unique(list[..i] + list[i + 1..])
  {
    var next := list[..i] + list[i + 1..];
    if i > 0 {
      RemoveKeepsUnique(list[1..], i - 1);
      assert next[1..] == list[1..][..i - 1] + list[1..][i..];
      forall e | e in next[1..] ensures !Same(next[0].info, e.info) {
        assert e in list[1..];
      }
    } else {
      assert next == list[1..];
    }
  }

  lemma {:induction false} AbsRemove(list: seq<Entry>, i: nat)
    requires Unique(list) && i < |list| && list[i].info != Unknown
    ensures Abs(list[..i] + list[i + 1..]) == Abs(list) - {list[i].info}
  {
    var next := list[..i] + list[i + 1..];
    if i > 0 {
      AbsRemove(list[1..], i - 1);
      assert next[0] == list[0] && next[1..] == list[1..][..i - 1] + list[1..][i..];
      assert list[i] in list[1..];
      SameIsEqual(list[0].info, list[i].info);
    } else {
      assert next == list[1..];
      assert list[0].info !in Abs(list[1..]) by {
        AbsKeys(list[1..], list[0].info);
        forall e | e in list[1..] ensures e.info != list[0].info {
          SameIsEqual(list[0].info, e.info);
        }
      }
    }
  }

  /** Whether an identity is listed is whether it is in the map. */
  lemma FoundIsInMap(list: seq<Entry>, info: Info)
    ensures FindInfo(list, 0, info) < |list| <==> info in Abs(list)
  {
    var i := FindInfo(list, 0, info);
    AbsKeys(list, info);
    if i < |list| {
      SameIsEqual(list[i].info, info);
      assert list[i] in list;
    } else {
      forall e | e in list ensures e.info != info || info == Unknown {
        SameIsEqual(e.info, info);
      }
    }
  }

  // ---------------------------------------------------------------- refinement

  lemma AcquireRefinesMap(list: seq<Entry>, info: Info, s: Stage, memory: bool)
    requires Unique(list)
    ensures
      var (next, n) := ListAcquire(list, info, s, memory);
      Unique(next) && (Abs(next), n) == MapAcquire(Abs(list), info, s, memory)
  {
    var i := FindInfo(list, 0, info);
    FoundIsInMap(list, info);
    if i < |list| {
      SameIsEqual(list[i].info, info);
      AbsAt(list, i);
      AbsUpdate(list, i, list[i].counts.With(s, Saturated(list[i].counts.Of(s))));
    } else {
      var entry := Entry(info, Counts(0, 0).With(s, 1));
      assert ([entry] + list)[1..] == list;
      forall e | e in list ensures !Same(info, e.info) {
        SameIsEqual(info, e.info);
      }
    }
  }

  /** Releasing refines the map, and unlinks the identity exactly when the OPEN count it
      leaves is 0. */
  lemma ReleaseRefinesMap(list: seq<Entry>, info: Info, s: Stage)
    requires Unique(list)
    ensures
      var (next, n) := ListRelease(list, info, s);
      && Unique(next) && (Abs(next), n) == MapRelease(Abs(list), info, s)
      && (info in Abs(list) && info !in Abs(next) <==> s == Open && n == 0)
  {
    var i := FindInfo(list, 0, info);
    FoundIsInMap(list, info);
    if i < |list| {
      SameIsEqual(list[i].info, info);
      AbsAt(list, i);
      var n := Lowered(list[i].counts.Of(s));
      if s == Open && n == 0 {
        AbsRemove(list, i);
        RemoveKeepsUnique(list, i);
      } else {
        AbsUpdate(list, i, list[i].counts.With(s, n));
      }
    }
  }

  datatype Op = Acquire(info: Info, s: Stage, memory: bool) | Release(info: Info, s: Stage)

  function ListStep(list: seq<Entry>, op: Op): (seq<Entry>, int) {
    match op
    case Acquire(info, s, memory) => ListAcquire(list, info, s, memory)
    case Release(info, s) => ListRelease(list, info, s)
  }

  function MapStep(m: RefMap, op: Op): (RefMap, int) {
    match op
    case Acquire(info, s, memory) => MapAcquire(m, info, s, memory)
    case Release(info, s) => MapRelease(m, info, s)
  }

  /** The results a run returns, and the state it ends in. */
  function ListRun(list: seq<Entry>, ops: seq<Op>): (seq<Entry>, seq<int>)
    decreases |ops|
  {
    if ops == [] then (list, [])
    else
      var (next, n) := ListStep(list, ops[0]);
      var (last, ns) := ListRun(next, ops[1..]);
      (last, [n] + ns)
  }

  function MapRun(m: RefMap, ops: seq<Op>): (RefMap, seq<int>)
    decreases |ops|
  {
    if ops == [] then (m, [])
    else
      var (next, n) := MapStep(m, ops[0]);
      var (last, ns) := MapRun(next, ops[1..]);
      (last, [n] + ns)
  }

  /** Any run on the list returns what the map would, ends in a list for the map's state, and
      never lists an identity twice. */
  lemma {:induction false} ListRefinesMap(list: seq<Entry>, ops: seq<Op>)
    requires Unique(list)
    ensures Unique(ListRun(list, ops).0)
    ensures (Abs(ListRun(list, ops).0), ListRun(list, ops).1) == MapRun(Abs(list), ops)
    decreases |ops|
  {
    if ops != [] {
      match ops[0] {
        case Acquire(info, s, memory) => AcquireRefinesMap(list, info, s, memory);
        case Release(info, s) => ReleaseRefinesMap(list, info, s);
      }
      ListRefinesMap(ListStep(list, ops[0]).0, ops[1..]);
    }
  }

  /** An operation on one identity leaves all others alone. */
  lemma OthersUntouched(list: seq<Entry>, op: Op, k: Info)
    requires Unique(list) && k != op.info
    ensures
      var m, m' := Abs(list), Abs(ListStep(list, op).0);
      (k in m <==> k in m') && (k in m ==> m[k] == m'[k])
  {
    match op
    case Acquire(info, s, memory) => AcquireRefinesMap(list, info, s, memory);
    case Release(info, s) => ReleaseRefinesMap(list, info, s);
  }

  /** A release undoes an acquire of the same stage exactly when the count was not saturated
      and, for a new identity, the stage is OPEN: after ENABLE alone its node stays behind. */
  lemma ReleaseUndoesAcquireIff(m: RefMap, info: Info, s: Stage)
    requires info != Unknown
    requires info in m ==> m[info].Of(s) <= 255 && m[info].open > 0
    ensures MapRelease(MapAcquire(m, info, s, true).0, info, s).0 == m <==>
            if info in m then m[info].Of(s) < 255 else s == Open
  {
    var m1 := MapAcquire(m, info, s, true).0;
    var m2 := MapRelease(m1, info, s).0;
    if info in m {
      assert m[info] == m[info].With(s, m[info].Of(s));
      assert m2[info].Of(s) == if m[info].Of(s) < 255 then m[info].Of(s) else 254;
    } else if s == Open {
      assert m2 == m;
    } else {
      assert info in m2;
    }
  }

  function AcquiredTimes(m: RefMap, info: Info, s: Stage, k: nat): RefMap
    decreases k
  {
    if k == 0 then m else MapAcquire(AcquiredTimes(m, info, s, k - 1), info, s, true).0
  }

  function ReleasedTimes(m: RefMap, info: Info, s: Stage, k: nat): RefMap
    decreases k
  {
    if k == 0 then m else MapRelease(ReleasedTimes(m, info, s, k - 1), info, s).0
  }

  /** However often an identity is acquired, its count stops at 255; nothing else changes. */
  lemma {:induction false} AcquiresStopAt255(m: RefMap, info: Info, s: Stage, k: nat)
    requires info in m && m[info].Of(s) <= 255
    ensures
      var n := m[info].Of(s) + k;
      AcquiredTimes(m, info, s, k) == m[info := m[info].With(s, if n < 255 then n else 255)]
    decreases k
  {
    if k == 0 {
      assert m[info].With(s, m[info].Of(s)) == m[info];
    } else {
      AcquiresStopAt255(m, info, s, k - 1);
    }
  }

  /** However often one is released, its count stops at 0. */
  lemma {:induction false} ReleasesStopAt0(m: RefMap, info: Info, s: Stage, k: nat)
    requires info in m && (s == Open ==> k < m[info].open)
    ensures
      var n := m[info].Of(s);
      ReleasedTimes(m, info, s, k) == m[info := m[info].With(s, if n > k then n - k else 0)]
    decreases k
  {
    if k == 0 {
      assert m[info].With(s, m[info].Of(s)) == m[info];
    } else {
      ReleasesStopAt0(m, info, s, k - 1);
    }
  }

  // ---------------------------------------------------------------- the linked list

  /** codec_dev_ref_node_t */
  class RefNode {
    const info: Info
    var counts: Counts
    var next: RefNode?

    constructor (info: Info, counts: Counts)
      ensures this.info == info && this.counts == counts && next == null
    {
      this.info, this.counts, next := info, counts, null;
    }
  }

  /** s_codec_ref_list; `spine` is the chain of its nodes. */
  class RefList {
    var head: RefNode?
    ghost var spine: seq<RefNode>
    ghost var entries: seq<Entry>

    ghost function NodeAt(i: nat): RefNode?
      reads this`spine
    {
      if i < |spine| then spine[i] else null
    }

    ghost predicate Valid()
      reads this, spine
    {
      && head == NodeAt(0) && |entries| == |spine|
      && (forall i {:trigger spine[i].next} :: 0 <= i < |spine| ==> spine[i].next == NodeAt(i + 1))
      && (forall i :: 0 <= i < |spine| ==> entries[i] == Entry(spine[i].info, spine[i].counts))
      && (forall i, j :: 0 <= i < j < |spine| ==> spine[i] != spine[j])
    }

    constructor ()
      ensures Valid() && entries == []
    {
      head, spine, entries := null, [], [];
    }

    /** codec_ref_mgr_find_node */
    method FindNode(info: Info) returns (p: RefNode?, ghost i: nat)
      requires Valid()
      ensures i == FindInfo(entries, 0, info) && p == NodeAt(i)
    {
      p := head;
      i := 0;
      while p != null
        invariant 0 <= i <= |spine| && p == NodeAt(i)
        invariant FindInfo(entries, 0, info) == FindInfo(entries, i, info)
        decreases |spine| - i
      {
        if Same(p.info, info) {
          return;
        }
        p := p.next;
        i := i + 1;
      }
    }

    /** codec_ref_acquire, with the list locked. */
    method AcquireRef(info: Info, s: Stage, memory: bool) returns (n: int)
      requires Valid()
      modifies this, spine
      ensures Valid() && (entries, n) == ListAcquire(old(entries), info, s, memory)
      ensures spine == old(spine) || (spine != [] && fresh(spine[0]) && spine[1..] == old(spine))
    {
      var p, i := FindNode(info);
      if p != null {
        n := Raise(p, s, i);
        return;
      }
      if !memory {
        return -1;
      }
      Prepend(info, s);
      n := 1;
    }

    /** Adds one reference of a stage to node `i`, `p`. */
    method Raise(p: RefNode, s: Stage, ghost i: nat) returns (n: nat)
      requires Valid() && i < |spine| && p == spine[i]
      modifies p`counts, this`entries
      ensures Valid() && n == Saturated(old(p.counts).Of(s)) && p.counts == old(p.counts).With(s, n)
      ensures entries == old(entries)[i := old(entries)[i].(counts := old(entries)[i].counts.With(s, n))]
    {
      if p.counts.Of(s) < 255 {
        p.counts := p.counts.With(s, p.counts.Of(s) + 1);
      }
      n := p.counts.Of(s);
      entries := entries[i := Entry(p.info, p.counts)];
    }

    /** A new node, with one reference, at the head. */
    method Prepend(info: Info, s: Stage)
      requires Valid()
      modifies this
      ensures Valid() && entries == [Entry(info, Counts(0, 0).With(s, 1))] + old(entries)
      ensures spine != [] && fresh(spine[0]) && spine[1..] == old(spine)
    {
      var node := new RefNode(info, Counts(0, 0).With(s, 1));
      node.next := head;
      head := node;
      spine, entries := [node] + spine, [Entry(info, node.counts)] + entries;
    }

    /** The walk of codec_ref_release, which keeps the predecessor. */
    method FindWithPrev(info: Info) returns (p: RefNode?, prev: RefNode?, ghost i: nat)
      requires Valid()
      ensures i == FindInfo(entries, 0, info) && p == NodeAt(i)
      ensures prev == if i == 0 then null else spine[i - 1]
    {
      p, prev, i := head, null, 0;
      while p != null && !Same(p.info, info)
        invariant 0 <= i <= |spine| && p == NodeAt(i) && prev == if i == 0 then null else spine[i - 1]
        invariant FindInfo(entries, 0, info) == FindInfo(entries, i, info)
        decreases |spine| - i
      {
        prev := p;
        p := p.next;
        i := i + 1;
      }
    }

    /** Takes one reference of a stage off node `i`, `p`. */
    method Lower(p: RefNode, s: Stage, ghost i: nat) returns (n: nat)
      requires Valid() && i < |spine| && p == spine[i]
      modifies p`counts, this`entries
      ensures Valid() && n == Lowered(old(p.counts).Of(s)) && p.counts == old(p.counts).With(s, n)
      ensures entries == old(entries)[i := old(entries)[i].(counts := old(entries)[i].counts.With(s, n))]
    {
      if p.counts.Of(s) > 0 {
        p.counts := p.counts.With(s, p.counts.Of(s) - 1);
      }
      n := p.counts.Of(s);
      entries := entries[i := Entry(p.info, p.counts)];
    }

    /** codec_ref_release, with the list locked. */
    method ReleaseRef(info: Info, s: Stage) returns (n: int)
      requires Valid()
      modifies this, spine
      ensures Valid() && (entries, n) == ListRelease(old(entries), info, s)
    {
      var p, prev, i := FindWithPrev(info);
      if p == null {
        return -1;
      }
      n := Lower(p, s, i);
      if s == Open && n == 0 {
        Unlink(prev, p, i);
        assert entries == old(entries)[..i] + old(entries)[i + 1..];
      }
    }

    /** Takes node `i`, `p`, out of the chain behind its predecessor. */
    method Unlink(prev: RefNode?, p: RefNode, ghost i: nat)
      requires Valid() && i < |spine| && p == spine[i]
      requires prev == if i == 0 then null else spine[i - 1]
      modifies this, prev
      ensures Valid() && entries == old(entries)[..i] + old(entries)[i + 1..]
    {
      if prev != null {
        prev.next := p.next;
      } else {
        head := p.next;
      }
      spine, entries := spine[..i] + spine[i + 1..], entries[..i] + entries[i + 1..];
    }
  }
}

/**
 The keeper list of audio_codec_data_i2s.c: every opened node, newest first, with the mutex
 that its port's nodes share. Memory and mutex creation succeed unless said otherwise.
 */
module I2sKeeper {
  import opened Common
  import opened I2sBus
  import opened I2sData

  datatype Entry = Entry(data: I2sNode, mutex: nat)

  /** The list, the mutexes that exist, and the next one the OS would hand out. */
  datatype Keeper = Keeper(list: seq<Entry>, live: set<nat>, next: nat)

  /** The first entry from `i` on for which a node of `port` is listed. */
  function FindPort(list: seq<Entry>, i: nat, port: nat): (r: nat)
    requires i <= |list|
    ensures i <= r <= |list|
    ensures r < |list| ==> list[r].data.port == port
    ensures forall k :: i <= k < r ==> list[k].data.port != port
    decreases |list| - i
  {
    if i < |list| && list[i].data.port != port then FindPort(list, i + 1, port) else i
  }

  function FindData(list: seq<Entry>, i: nat, data: I2sNode): (r: nat)
    requires i <= |list|
    ensures i <= r <= |list|
    ensures r < |list| ==> list[r].data == data
    ensures forall k :: i <= k < r ==> list[k].data != data
    decreases |list| - i
  {
    if i < |list| && list[i].data != data then FindData(list, i + 1, data) else i
  }

  /** How many listed nodes are on a port. */
  function CountPort(list: seq<Entry>, port: nat): nat {
    if list == [] then 0
    else
      var n := CountPort(list[..|list| - 1], port);
      if list[|list| - 1].data.port == port then n + 1 else n
  }

  lemma {:induction false} CountedPort(list: seq<Entry>, port: nat)
    ensures CountPort(list, port) > 0 <==> exists e :: e in list && e.data.port == port
  {
    if list != [] {
      var last := |list| - 1;
      CountedPort(list[..last], port);
      assert list == list[..last] + [list[last]];
    }
  }

  /** add_to_keeper; `memory` says whether the list entry could be allocated. */
  function Add(k: Keeper, data: I2sNode, memory: bool): Keeper {
    if !memory then k
    else
      var i := FindPort(k.list, 0, data.port);
      if i < |k.list| then k.(list := [Entry(data, k.list[i].mutex)] + k.list)
      else Keeper([Entry(data, k.next)] + k.list, k.live + {k.next}, k.next + 1)
  }

  function Without(list: seq<Entry>, i: nat): seq<Entry>
    requires i < |list|
  {
    list[..i] + list[i + 1..]
  }

  /** Unlinks entry `i`. The users left on the port are counted in eight bits. */
  function RemoveAt(k: Keeper, i: nat): Keeper
    requires i < |k.list|
  {
    var rest := Without(k.list, i);
    var unused := U8(CountPort(rest, k.list[i].data.port)) == 0;
    k.(list := rest, live := if unused then k.live - {k.list[i].mutex} else k.live)
  }

  /** remove_from_keeper */
  function Remove(k: Keeper, data: I2sNode): Keeper {
    var i := FindData(k.list, 0, data);
    if i == |k.list| then k else RemoveAt(k, i)
  }

  // ---------------------------------------------------------------- the invariant

  /** Nodes share a mutex exactly when they share a port, and the mutexes that exist are
      exactly the listed ones: none is destroyed under a user, and none leaks. */
  ghost predicate Inv(k: Keeper) {
    SharedByPort(k.list) && ListedLive(k) && forall m :: m in k.live ==> HasUser(k.list, m)
  }

  ghost predicate SharedByPort(list: seq<Entry>) {
    forall a, b :: a in list && b in list ==> (a.data.port == b.data.port <==> a.mutex == b.mutex)
  }

  ghost predicate ListedLive(k: Keeper) {
    forall e :: e in k.list ==> e.mutex in k.live && e.mutex < k.next
  }

  ghost predicate HasUser(list: seq<Entry>, m: nat) { exists e :: e in list && e.mutex == m }

  lemma AddKeepsInv(k: Keeper, data: I2sNode, memory: bool)
    requires Inv(k)
    ensures Inv(Add(k, data, memory))
  {
    if memory {
      var i := FindPort(k.list, 0, data.port);
      var k' := Add(k, data, memory);
      var added := k'.list[0];
      forall m | m in k'.live ensures HasUser(k'.list, m) {
        if m in k.live {
          assert HasUser(k.list, m);
          var e :| e in k.list && e.mutex == m;
          assert e in k'.list;
        } else {
          assert added in k'.list && added.mutex == m;
        }
      }
    }
  }

  lemma RestIsListed(list: seq<Entry>, i: nat)
    requires i < |list|
    ensures forall e :: e in Without(list, i) ==> e in list
    ensures forall e :: e in list ==> e in Without(list, i) || e == list[i]
  {
    assert list == list[..i] + [list[i]] + list[i + 1..];
  }

  lemma RemoveKeepsInv(k: Keeper, i: nat)
    requires Inv(k) && i < |k.list|
    requires
      var left := CountPort(Without(k.list, i), k.list[i].data.port);
      left == 0 || left % 256 != 0
    ensures Inv(RemoveAt(k, i))
  {
    RestIsListed(k.list, i);
    CountedPort(Without(k.list, i), k.list[i].data.port);
    forall m | m in RemoveAt(k, i).live ensures HasUser(Without(k.list, i), m) {
      LiveHasUserLeft(k, i, m);
    }
  }

  lemma LiveHasUserLeft(k: Keeper, i: nat, m: nat)
    requires Inv(k) && i < |k.list| && m in RemoveAt(k, i).live
    requires
      var left := CountPort(Without(k.list, i), k.list[i].data.port);
      left == 0 || left % 256 != 0
    ensures HasUser(Without(k.list, i), m)
  {
    var gone, rest := k.list[i], Without(k.list, i);
    RestIsListed(k.list, i);
    CountedPort(rest, gone.data.port);
    if m == gone.mutex {
      var u :| u in rest && u.data.port == gone.data.port;
      assert u.mutex == m;
    } else {
      assert HasUser(k.list, m);
      var e :| e in k.list && e.mutex == m;
      assert e in rest;
    }
  }

  /** A listed node's mutex does not exist. */
  ghost predicate MutexGone(k: Keeper) {
    exists e :: e in k.list && e.mutex !in k.live
  }

  lemma RemoveDestroysMutexInUse(k: Keeper, i: nat)
    requires Inv(k) && i < |k.list|
    requires
      var left := CountPort(Without(k.list, i), k.list[i].data.port);
      left > 0 && left % 256 == 0
    ensures !Inv(RemoveAt(k, i))
    ensures MutexGone(RemoveAt(k, i))
  {
    var gone, rest := k.list[i], Without(k.list, i);
    RestIsListed(k.list, i);
    CountedPort(rest, gone.data.port);
    var u :| u in rest && u.data.port == gone.data.port;
    assert u.mutex == gone.mutex && u.mutex !in RemoveAt(k, i).live;
  }

  /** The eight-bit count is exact until 256 other nodes share the port: unlinking a node
      keeps the invariant if and only if the number of nodes left on its port is not a
      positive multiple of 256. With 256 left their mutex is destroyed under them. */
  lemma RemoveKeepsInvIff(k: Keeper, data: I2sNode)
    requires Inv(k) && FindData(k.list, 0, data) < |k.list|
    ensures
      var left := CountPort(Without(k.list, FindData(k.list, 0, data)), data.port);
      Inv(Remove(k, data)) <==> left == 0 || left % 256 != 0
  {
    var i := FindData(k.list, 0, data);
    var left := CountPort(Without(k.list, i), data.port);
    if left == 0 || left % 256 != 0 {
      RemoveKeepsInv(k, i);
    } else {
      RemoveDestroysMutexInUse(k, i);
    }
  }

  // ---------------------------------------------------------------- runs

  datatype Op = Open(data: I2sNode, memory: bool) | Close(data: I2sNode)

  function Step(k: Keeper, op: Op): Keeper {
    match op
    case Open(data, memory) => Add(k, data, memory)
    case Close(data) => Remove(k, data)
  }

  function Run(k: Keeper, ops: seq<Op>): Keeper
    decreases |ops|
  {
    if ops == [] then k else Run(Step(k, ops[0]), ops[1..])
  }

  /** At most 256 nodes of a port are open at any time. */
  ghost predicate Bounded(k: Keeper, ops: seq<Op>)
    decreases |ops|
  {
    && (forall port :: CountPort(k.list, port) <= 256)
    && (ops != [] ==> Bounded(Step(k, ops[0]), ops[1..]))
  }

  lemma {:induction false} CountWithout(list: seq<Entry>, i: nat)
    requires i < |list|
    ensures CountPort(Without(list, i), list[i].data.port) == CountPort(list, list[i].data.port) - 1
  {
    var last := |list| - 1;
    if i == last {
      assert Without(list, i) == list[..last];
    } else {
      CountWithout(list[..last], i);
      assert Without(list, i)[..last - 1] == Without(list[..last], i);
    }
  }

  lemma StepKeepsInv(k: Keeper, op: Op)
    requires Inv(k) && forall port :: CountPort(k.list, port) <= 256
    ensures Inv(Step(k, op))
  {
    match op
    case Open(data, memory) => AddKeepsInv(k, data, memory);
    case Close(data) =>
      assert CountPort(k.list, data.port) <= 256;
      CloseKeepsInv(k, data);
  }

  lemma CloseKeepsInv(k: Keeper, data: I2sNode)
    requires Inv(k) && CountPort(k.list, data.port) <= 256
    ensures Inv(Remove(k, data))
  {
    var i := FindData(k.list, 0, data);
    if i < |k.list| {
      CountWithout(k.list, i);
      RemoveKeepsInv(k, i);
    }
  }

  lemma {:induction false} RunKeepsInv(k: Keeper, ops: seq<Op>)
    requires Inv(k) && Bounded(k, ops)
    ensures Inv(Run(k, ops))
    decreases |ops|
  {
    if ops != [] {
      StepKeepsInv(k, ops[0]);
      RunKeepsInv(Step(k, ops[0]), ops[1..]);
    }
  }

  /** From the empty list, over any opens and closes: nodes of one port share one mutex,
      nodes of different ports have different ones, and exactly the mutexes with a user
      exist. */
  lemma MutexPerPort(ops: seq<Op>)
    requires Bounded(Keeper([], {}, 0), ops)
    ensures Inv(Run(Keeper([], {}, 0), ops))
  {
    RunKeepsInv(Keeper([], {}, 0), ops);
  }

  // ---------------------------------------------------------------- what is listed

  function Datas(list: seq<Entry>): (r: seq<I2sNode>)
    ensures |r| == |list| && forall i :: 0 <= i < |r| ==> r[i] == list[i].data
  {
    if list == [] then [] else [list[0].data] + Datas(list[1..])
  }

  function WithoutFirst(nodes: seq<I2sNode>, x: I2sNode): seq<I2sNode> {
    if nodes == [] then []
    else if nodes[0] == x then nodes[1..]
    else [nodes[0]] + WithoutFirst(nodes[1..], x)
  }

  /** The nodes that are open after a run, the newest first, as far as memory allowed. */
  function OpenNodes(nodes: seq<I2sNode>, ops: seq<Op>): seq<I2sNode>
    decreases |ops|
  {
    if ops == [] then nodes
    else
      match ops[0]
      case Open(data, memory) => OpenNodes(if memory then [data] + nodes else nodes, ops[1..])
      case Close(data) => OpenNodes(WithoutFirst(nodes, data), ops[1..])
  }

  lemma {:induction false} FirstIsAt(nodes: seq<I2sNode>, i: nat, x: I2sNode)
    requires i <= |nodes| && (forall j :: 0 <= j < i ==> nodes[j] != x) && (i < |nodes| ==> nodes[i] == x)
    ensures WithoutFirst(nodes, x) == if i == |nodes| then nodes else nodes[..i] + nodes[i + 1..]
  {
    if i > 0 {
      FirstIsAt(nodes[1..], i - 1, x);
      assert nodes == [nodes[0]] + nodes[1..];
    }
  }

  lemma RemoveLists(k: Keeper, data: I2sNode)
    ensures Datas(Remove(k, data).list) == WithoutFirst(Datas(k.list), data)
  {
    var i := FindData(k.list, 0, data);
    FirstIsAt(Datas(k.list), i, data);
    if i < |k.list| {
      assert Datas(Without(k.list, i)) == Datas(k.list)[..i] + Datas(k.list)[i + 1..];
    }
  }

  lemma StepLists(k: Keeper, op: Op)
    ensures Datas(Step(k, op).list) == OpenNodes(Datas(k.list), [op])
  {
    match op
    case Open(data, memory) =>
    case Close(data) => RemoveLists(k, data);
  }

  /** After any run the list holds exactly the nodes that are open, the newest first. */
  lemma {:induction false} OpenNodesAreListed(k: Keeper, ops: seq<Op>)
    ensures Datas(Run(k, ops).list) == OpenNodes(Datas(k.list), ops)
    decreases |ops|
  {
    if ops != [] {
      StepLists(k, ops[0]);
      OpenNodesAreListed(Step(k, ops[0]), ops[1..]);
    }
  }

  // ---------------------------------------------------------------- beyond 256 nodes

  function Opens(nodes: seq<I2sNode>): seq<Op> {
    if nodes == [] then [] else [Open(nodes[0], true)] + Opens(nodes[1..])
  }

  predicate AllOn(list: seq<Entry>, port: nat) {
    forall e :: e in list ==> e.data.port == port
  }

  lemma {:induction false} AllCounted(list: seq<Entry>, port: nat)
    requires AllOn(list, port)
    ensures CountPort(list, port) == |list|
  {
    if list != [] {
      AllCounted(list[..|list| - 1], port);
    }
  }

  ghost predicate Listed(list: seq<Entry>, data: I2sNode) {
    exists e :: e in list && e.data == data
  }

  /** Opening nodes on a port that alone is in use lists them all. */
  lemma {:induction false} OpensAreListed(k: Keeper, nodes: seq<I2sNode>, port: nat)
    requires Inv(k) && AllOn(k.list, port) && forall x :: x in nodes ==> x.port == port
    ensures
      var k' := Run(k, Opens(nodes));
      && Inv(k') && AllOn(k'.list, port) && |k'.list| == |k.list| + |nodes|
      && forall x :: x in nodes || Listed(k.list, x) ==> Listed(k'.list, x)
    decreases |nodes|
  {
    if nodes != [] {
      var k1 := Add(k, nodes[0], true);
      AddKeepsInv(k, nodes[0], true);
      AddLists(k, nodes[0]);
      OpensAreListed(k1, nodes[1..], port);
      assert Run(k, Opens(nodes)) == Run(k1, Opens(nodes[1..]));
    }
  }

  lemma AddLists(k: Keeper, x: I2sNode)
    ensures
      var list := Add(k, x, true).list;
      && |list| == |k.list| + 1 && (AllOn(k.list, x.port) ==> AllOn(list, x.port))
      && Listed(list, x) && forall y :: Listed(k.list, y) ==> Listed(list, y)
  {
    var list := Add(k, x, true).list;
    assert list[0].data == x && list[0] in list && list[1..] == k.list;
    assert forall e :: e in list <==> e == list[0] || e in k.list;
  }

  function Opened(nodes: seq<I2sNode>): Keeper { Run(Keeper([], {}, 0), Opens(nodes)) }

  /** Data is listed, with `left` other nodes on its port. */
  predicate LeavesBehind(k: Keeper, data: I2sNode, left: nat) {
    var i := FindData(k.list, 0, data);
    i < |k.list| && CountPort(Without(k.list, i), data.port) == left
  }

  lemma LeftAfterClose(nodes: seq<I2sNode>, data: I2sNode)
    requires data in nodes && forall x :: x in nodes ==> x.port == data.port
    ensures Inv(Opened(nodes)) && LeavesBehind(Opened(nodes), data, |nodes| - 1)
  {
    var list := Opened(nodes).list;
    OpensAreListed(Keeper([], {}, 0), nodes, data.port);
    assert Listed(list, data);
    AllCounted(list, data.port);
    CountWithout(list, FindData(list, 0, data));
  }

  /** From the empty list, any number of opens on one port and one close: the invariant holds
      afterwards if and only if the number of nodes left is not a positive multiple of 256.
      With 257 opens the close destroys the mutex of the 256 nodes left. */
  lemma OpensThenCloseIff(nodes: seq<I2sNode>, data: I2sNode)
    requires data in nodes && forall x :: x in nodes ==> x.port == data.port
    ensures
      var k := Step(Opened(nodes), Close(data));
      && (Inv(k) <==> |nodes| == 1 || (|nodes| - 1) % 256 != 0)
      && (|nodes| == 257 ==> MutexGone(k))
  {
    LeftAfterClose(nodes, data);
    CloseIff(Opened(nodes), data, |nodes| - 1);
  }

  lemma CloseIff(k: Keeper, data: I2sNode, left: nat)
    requires Inv(k) && LeavesBehind(k, data, left)
    ensures Inv(Step(k, Close(data))) <==> left == 0 || left % 256 != 0
    ensures left == 256 ==> MutexGone(Step(k, Close(data)))
  {
    RemoveKeepsInvIff(k, data);
    if left == 256 {
      RemoveDestroysMutexInUse(k, FindData(k.list, 0, data));
    }
  }

  // ---------------------------------------------------------------- pairing

  function OnPort(list: seq<Entry>, port: nat): (r: seq<Entry>)
    ensures forall i :: 0 <= i < |r| ==> r[i].data.port == port
  {
    if list == [] then []
    else if list[0].data.port == port then [list[0]] + OnPort(list[1..], port)
    else OnPort(list[1..], port)
  }

  function TopoOf(list: seq<Entry>): (r: seq<Handles>)
    ensures |r| == |list| && forall i :: 0 <= i < |r| ==> r[i] == list[i].data.handles
  {
    if list == [] then [] else [list[0].data.handles] + TopoOf(list[1..])
  }

  /** get_paired, walking the whole list and skipping other ports. */
  function PairFrom(list: seq<Entry>, port: nat, d: Dir, fallback: Option<I2sNode>): Option<I2sNode> {
    if list == [] then fallback
    else
      var x := list[0].data;
      if x.port != port then PairFrom(list[1..], port, d, fallback)
      else if x.handles.rx && x.handles.tx then PairFrom(list[1..], port, d, Some(x))
      else if x.handles.Has(Other(d)) then Some(x)
      else PairFrom(list[1..], port, d, fallback)
  }

  lemma {:induction false} PairFromSkipsOtherPorts(list: seq<Entry>, all: seq<Entry>, n: nat, port: nat, d: Dir,
                                                        fallback: Option<nat>)
    requires n <= |all| && all[n..] == OnPort(list, port)
    requires fallback.Some? ==> fallback.value < |all|
    ensures PairFrom(list, port, d, if fallback.Some? then Some(all[fallback.value].data) else None) ==
            var q := PairedFrom(TopoOf(all), n, d, fallback);
            if q.Some? then Some(all[q.value].data) else None
    decreases |list|
  {
    if list != [] {
      var x := list[0].data;
      if x.port != port {
        PairFromSkipsOtherPorts(list[1..], all, n, port, d, fallback);
      } else {
        assert all[n] == all[n..][0] == list[0];
        assert all[n + 1..] == all[n..][1..] == OnPort(list[1..], port);
        if x.handles.rx && x.handles.tx {
          PairFromSkipsOtherPorts(list[1..], all, n + 1, port, d, Some(n));
        } else if !x.handles.Has(Other(d)) {
          PairFromSkipsOtherPorts(list[1..], all, n + 1, port, d, fallback);
        }
      }
    }
  }

  /** Pairing on the list of all ports is pairing among the nodes of the one port, which is
      how I2sBus sees it. */
  lemma PairingIsPerPort(list: seq<Entry>, port: nat, d: Dir)
    ensures PairFrom(list, port, d, None) ==
            var all := OnPort(list, port);
            var q := Paired(TopoOf(all), d);
            if q.Some? then Some(all[q.value].data) else None
  {
    var all := OnPort(list, port);
    assert all[0..] == all;
    PairFromSkipsOtherPorts(list, all, 0, port, d, None);
  }

  // ---------------------------------------------------------------- the linked list

  class KeepNode {
    const data: I2sNode
    const mutex: nat
    var next: KeepNode?

    constructor (data: I2sNode, mutex: nat)
      ensures this.data == data && this.mutex == mutex && next == null
    {
      this.data, this.mutex, next := data, mutex, null;
    }
  }

  ghost function EntriesOf(spine: seq<KeepNode>): (r: seq<Entry>)
    ensures |r| == |spine|
    ensures forall i :: 0 <= i < |r| ==> r[i] == Entry(spine[i].data, spine[i].mutex)
  {
    if spine == [] then [] else [Entry(spine[0].data, spine[0].mutex)] + EntriesOf(spine[1..])
  }

  /** i2s_data_list with the mutexes of the OS; `spine` is the chain of entries. */
  class KeeperList {
    var head: KeepNode?
    var live: set<nat>
    var nextMutex: nat
    ghost var spine: seq<KeepNode>

    ghost function NodeAt(i: nat): KeepNode?
      reads this`spine
    {
      if i < |spine| then spine[i] else null
    }

    ghost predicate Valid()
      reads this, spine
    {
      && head == NodeAt(0)
      && (forall i {:trigger spine[i].next} :: 0 <= i < |spine| ==> spine[i].next == NodeAt(i + 1))
      && (forall i, j :: 0 <= i < j < |spine| ==> spine[i] != spine[j])
    }

    ghost function Entries(): (r: seq<Entry>)
      reads this`spine
      ensures |r| == |spine|
    {
      EntriesOf(spine)
    }

    ghost function Model(): Keeper
      reads this
    {
      Keeper(Entries(), live, nextMutex)
    }

    constructor ()
      ensures Valid() && Model() == Keeper([], {}, 0)
    {
      head, live, nextMutex := null, {}, 0;
      spine := [];
    }

    /** try_alloc_mutex */
    method TryAllocMutex(port: nat) returns (mutex: nat)
      requires Valid()
      modifies this`live, this`nextMutex
      ensures
        var i := FindPort(Entries(), 0, port);
        if i < |spine| then mutex == spine[i].mutex && live == old(live) && nextMutex == old(nextMutex)
        else mutex == old(nextMutex) && live == old(live) + {mutex} && nextMutex == mutex + 1
    {
      var cur := head;
      ghost var i := 0;
      while cur != null
        invariant 0 <= i <= |spine| && cur == NodeAt(i)
        invariant FindPort(Entries(), 0, port) == FindPort(Entries(), i, port)
        decreases |spine| - i
      {
        if cur.data.port == port {
          return cur.mutex;
        }
        cur := cur.next;
        i := i + 1;
      }
      mutex := nextMutex;
      live, nextMutex := live + {mutex}, mutex + 1;
    }

    /** add_to_keeper */
    method AddToKeeper(data: I2sNode, memory: bool)
      requires Valid()
      modifies this
      ensures Valid() && Model() == Add(old(Model()), data, memory)
    {
      if !memory {
        return;
      }
      var mutex := TryAllocMutex(data.port);
      var node := new KeepNode(data, mutex);
      node.next := head;
      head := node;
      spine := [node] + spine;
      assert Entries() == [Entry(data, mutex)] + old(Entries());
    }

    /** try_free_mutex */
    method TryFreeMutex(port: nat, mutex: nat)
      requires Valid()
      modifies this`live
      ensures live == if U8(CountPort(Entries(), port)) == 0 then old(live) - {mutex} else old(live)
    {
      var refCount := 0;
      var cur := head;
      ghost var i := 0;
      while cur != null
        invariant 0 <= i <= |spine| && cur == NodeAt(i)
        invariant refCount == U8(CountPort(Entries()[..i], port))
        decreases |spine| - i
      {
        assert Entries()[..i + 1][..i] == Entries()[..i];
        if cur.data.port == port {
          refCount := U8(refCount + 1);
        }
        cur := cur.next;
        i := i + 1;
      }
      assert Entries()[..i] == Entries();
      if refCount == 0 {
        live := live - {mutex};
      }
    }

    /** remove_from_keeper */
    method RemoveFromKeeper(data: I2sNode)
      requires Valid()
      modifies this, spine
      ensures Valid() && Model() == Remove(old(Model()), data)
    {
      var pre: KeepNode? := null;
      var cur := head;
      ghost var i := 0;
      while cur != null && cur.data != data
        invariant 0 <= i <= |spine| && cur == NodeAt(i)
        invariant pre == if i == 0 then null else spine[i - 1]
        invariant FindData(Entries(), 0, data) == FindData(Entries(), i, data)
        decreases |spine| - i
      {
        pre := cur;
        cur := cur.next;
        i := i + 1;
      }
      if cur != null {
        UnlinkAndFree(pre, cur, i);
      }
    }

    method UnlinkAndFree(pre: KeepNode?, cur: KeepNode, ghost i: nat)
      requires Valid() && i < |spine| && cur == spine[i]
      requires pre == if i == 0 then null else spine[i - 1]
      modifies this`head, this`spine, this`live, pre
      ensures Valid() && Model() == RemoveAt(old(Model()), i)
    {
      ghost var gone := Entries()[i];
      Unlink(pre, cur, i);
      assert gone == Entry(cur.data, cur.mutex);
      TryFreeMutex(cur.data.port, cur.mutex);
    }

    /** Takes entry `i`, `cur`, out of the chain behind its predecessor. */
    method Unlink(pre: KeepNode?, cur: KeepNode, ghost i: nat)
      requires Valid() && i < |spine| && cur == spine[i]
      requires pre == if i == 0 then null else spine[i - 1]
      modifies this`head, this`spine, pre
      ensures Valid() && Entries() == Without(old(Entries()), i)
    {
      if pre == null {
        head := cur.next;
      } else {
        pre.next := cur.next;
      }
      spine := spine[..i] + spine[i + 1..];
      assert forall j :: 0 <= j < |spine| ==> spine[j] == old(spine)[if j < i then j else j + 1];
    }

    /** get_paired */
    method FindPair(port: nat, d: Dir) returns (r: Option<I2sNode>)
      requires Valid()
      ensures r == PairFrom(Entries(), port, d, None)
    {
      r := None;
      var cur := head;
      ghost var i := 0;
      while cur != null
        invariant 0 <= i <= |spine| && cur == NodeAt(i)
        invariant PairFrom(Entries()[i..], port, d, r) == PairFrom(Entries(), port, d, None)
        decreases |spine| - i
      {
        assert Entries()[i..][1..] == Entries()[i + 1..];
        var x := cur.data;
        if x.port == port {
          if x.handles.rx && x.handles.tx {
            r := Some(x);
          } else if x.handles.Has(Other(d)) {
            return Some(x);
          }
        }
        cur := cur.next;
        i := i + 1;
      }
    }
  }
}

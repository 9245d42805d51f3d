/**
 The input mirror of components/esp_codec_dev/codec_dev_mirror.c: a lossy byte ring. The writer
 drops the oldest bytes to make room while a reader drains the ring.
 */
module Mirror {
  import opened Common

  function Min(a: nat, b: nat): nat { if a < b then a else b }

  function LastN(s: seq<Byte>, n: nat): seq<Byte> { if |s| <= n then s else s[|s| - n..] }

  // ---------------------------------------------------------------- the ring buffer

  /** A byte ring buffer of the operating system, seen as positions in the stream of all bytes
      written: those from `read` on are held, those from `freed` to `read` are an item that was
      received and not yet returned. `at` is the index in memory of the byte at `read`. */
  datatype Ring = Ring(capacity: nat, written: seq<Byte>, freed: nat, read: nat, at: nat) {
    predicate Valid() {
      && 0 < capacity && at < capacity
      && freed <= read <= |written| && |written| - freed <= capacity
    }

    function Held(): seq<Byte>
      requires Valid()
    {
      written[read..]
    }

    /** xRingbufferGetCurFreeSize: an item not yet returned still takes its room. */
    function Free(): nat
      requires Valid()
    {
      capacity - (|written| - freed)
    }

    /** How many bytes a receive of up to `n` gets: there is one item at a time, and it ends
        where the memory does. */
    function Receivable(n: nat): nat
      requires Valid()
    {
      if freed < read then 0 else Min(n, Min(|written| - read, capacity - at))
    }

    /** xRingbufferReceiveUpTo */
    function Receive(n: nat): (r: Ring)
      requires Valid()
      ensures r.Valid() && r.written == written && r.capacity == capacity
    {
      var k := Receivable(n);
      this.(read := read + k, at := if at + k == capacity then 0 else at + k)
    }

    /** vRingbufferReturnItem */
    function Return(): (r: Ring)
      requires Valid()
      ensures r.Valid() && r.written == written
    {
      this.(freed := read)
    }

    /** xRingbufferSend of the last `capacity` bytes of `data`; the bytes before these pass the
        ring by. */
    function Send(data: seq<Byte>): (r: Ring)
      requires Valid() && Min(|data|, capacity) <= Free()
      ensures r.Valid() && r.written == written + data
    {
      var all := written + data;
      if |data| <= capacity then this.(written := all)
      else this.(written := all, freed := |all| - capacity, read := |all| - capacity)
    }
  }

  type LiveRing = r: Ring | r.Valid() witness Ring(1, [], 0, 0, 0)

  // ---------------------------------------------------------------- writer and reader

  /** The writer: outside codec_dev_mirror_write, in its loop with the free size it knows of, or
      holding an item of `k` bytes that it is dropping. `lost` is what this write has dropped,
      and `back` what the reader has given back since it read the free size. */
  datatype Writer = Resting
                  | Looping(data: seq<Byte>, free: nat, lost: nat, back: nat)
                  | Dropping(data: seq<Byte>, free: nat, lost: nat, back: nat, k: nat)

  /** The reader holds an item of `k` bytes, or none when `k` is 0. `delivered` are the positions
      it has received, `dropped` counts the bytes the writer dropped or passed by. */
  datatype Sys = Sys(ring: LiveRing, writer: Writer, k: nat, delivered: seq<nat>, dropped: nat)

  /** One atomic step of either side. A receive that finds nothing changes nothing, be it that
      the reader waits on or gives up. */
  datatype Act = Write(data: seq<Byte>) | WriterStep | Take(n: nat) | GiveBack

  function Positions(from: nat, k: nat): seq<nat> { seq(k, i requires 0 <= i => from + i) }

  function WriterStepOf(s: Sys): Sys {
    match s.writer
    case Resting => s
    case Looping(data, free, lost, back) =>
      var len := Min(|data|, s.ring.capacity);
      if free < len then
        var k := s.ring.Receivable(len - free);
        if k == 0 then s.(writer := Resting)
        else s.(ring := s.ring.Receive(len - free), writer := Dropping(data, free, lost + k, back, k),
                dropped := s.dropped + k)
      else if len <= s.ring.Free() then
        s.(ring := s.ring.Send(data), writer := Resting, dropped := s.dropped + |data| - len)
      else s.(writer := Resting)
    case Dropping(data, free, lost, back, k) =>
      s.(ring := s.ring.Return(), writer := Looping(data, free + k, lost, back))
  }

  function Step(s: Sys, act: Act): Sys {
    match act
    case Write(data) =>
      if s.writer.Resting? && data != [] then s.(writer := Looping(data, s.ring.Free(), 0, 0)) else s
    case WriterStep => WriterStepOf(s)
    case Take(n) =>
      var k := s.ring.Receivable(n);
      if s.k > 0 || k == 0 then s
      else s.(ring := s.ring.Receive(n), k := k, delivered := s.delivered + Positions(s.ring.read, k))
    case GiveBack =>
      if s.k == 0 then s
      else
        var writer := if s.writer.Resting? then s.writer else s.writer.(back := s.writer.back + s.k);
        s.(ring := s.ring.Return(), writer := writer, k := 0)
  }

  predicate Increasing(p: seq<nat>) {
    forall i, j :: 0 <= i < j < |p| ==> p[i] < p[j]
  }

  /** What the writer knows of the free size lacks what the reader gave back since, and once it
      drops, it drops no more than it needs. */
  predicate Inv(s: Sys) {
    && (!s.writer.Resting? ==> s.writer.data != [])
    && s.ring.read - s.ring.freed == s.k + (if s.writer.Dropping? then s.writer.k else 0)
    && (s.writer.Dropping? ==> s.k == 0 && s.writer.k > 0)
    && (!s.writer.Resting? ==> s.ring.Free() == s.writer.free + s.writer.back)
    && (!s.writer.Resting? && s.writer.lost > 0 ==> s.writer.free <= Min(|s.writer.data|, s.ring.capacity))
    && (!s.writer.Resting? ==> s.writer.lost <= s.dropped)
    && (s.writer.Dropping? ==> s.writer.free + s.writer.k <= Min(|s.writer.data|, s.ring.capacity))
    && Increasing(s.delivered) && (forall p :: p in s.delivered ==> p < s.ring.read)
    && s.ring.read == |s.delivered| + s.dropped
  }

  lemma StepKeepsInv(s: Sys, act: Act)
    requires Inv(s)
    ensures Inv(Step(s, act)) && Step(s, act).ring.capacity == s.ring.capacity
  {
    var s' := Step(s, act);
    if act.Take? {
      forall i, j | 0 <= i < j < |s'.delivered| ensures s'.delivered[i] < s'.delivered[j] {
        assert i < |s.delivered| ==> s.delivered[i] in s.delivered;
      }
    }
  }

  function Run(s: Sys, acts: seq<Act>): Sys
    decreases |acts|
  {
    if acts == [] then s else Run(Step(s, acts[0]), acts[1..])
  }

  function Begin(capacity: nat): Sys
    requires capacity > 0
  {
    Sys(Ring(capacity, [], 0, 0, 0), Resting, 0, [], 0)
  }

  lemma {:induction false} RunKeepsInv(s: Sys, acts: seq<Act>)
    requires Inv(s)
    ensures Inv(Run(s, acts)) && Run(s, acts).ring.capacity == s.ring.capacity
    decreases |acts|
  {
    if acts != [] {
      StepKeepsInv(s, acts[0]);
      RunKeepsInv(Step(s, acts[0]), acts[1..]);
    }
  }

  /** In every interleaving the mirror holds a suffix of the bytes written, no longer than its
      capacity; the reader gets positions in strictly increasing order, none of them held any
      more; and each byte written was delivered, dropped or is held. */
  lemma MirrorIsLossyFifo(capacity: nat, acts: seq<Act>)
    requires capacity > 0
    ensures
      var s := Run(Begin(capacity), acts);
      var held := s.ring.Held();
      && |held| <= capacity && held == LastN(s.ring.written, |held|)
      && Increasing(s.delivered) && (forall p :: p in s.delivered ==> p < |s.ring.written| - |held|)
      && |s.ring.written| == |s.delivered| + s.dropped + |held|
  {
    RunKeepsInv(Begin(capacity), acts);
  }

  /** The send at the end of a write always fits, and a write fails exactly when it looks for a
      byte to drop while the reader holds an item, or has emptied the ring behind its back. */
  lemma WriteFailsIff(capacity: nat, acts: seq<Act>)
    requires capacity > 0 && Run(Begin(capacity), acts).writer.Looping?
    ensures
      var s := Run(Begin(capacity), acts);
      var s' := Step(s, WriterStep);
      var len := Min(|s.writer.data|, capacity);
      && (s'.writer.Resting? && s'.ring.written == s.ring.written + s.writer.data <==> s.writer.free >= len)
      && (s'.writer.Resting? && s'.ring == s.ring <==>
            s.writer.free < len && (s.k > 0 || s.ring.Held() == []))
  {
    RunKeepsInv(Begin(capacity), acts);
    var s := Run(Begin(capacity), acts);
    var sent := s.ring.written + s.writer.data;
    assert |sent| > |s.ring.written|;
  }

  /** Whether the send of a write keeps the longest suffix: its write has dropped nothing, or
      what is held is the longest suffix of all written bytes that there is room for. */
  predicate KeepsLongest(s: Sys, s': Sys)
    requires s.writer.Looping? && s.k <= s.ring.capacity
  {
    s.writer.lost == 0 || s'.ring.Held() == LastN(s'.ring.written, s.ring.capacity - s.k)
  }

  /** In every interleaving the send of a write adds its data to what is held, cut to the room
      there is. It keeps the longest suffix exactly when the write has dropped nothing, or the
      reader has given nothing back since the free size was read; otherwise it has dropped for
      nothing as much as the reader gave back. */
  lemma WriteKeepsLongestIff(capacity: nat, acts: seq<Act>)
    requires capacity > 0
    requires
      var s := Run(Begin(capacity), acts);
      s.writer.Looping? && s.writer.free >= Min(|s.writer.data|, capacity)
    ensures
      var s := Run(Begin(capacity), acts);
      var s' := Step(s, WriterStep);
      && s.k <= s.ring.capacity == capacity && s'.ring.written == s.ring.written + s.writer.data
      && s'.ring.Held() == LastN(s.ring.Held() + s.writer.data, capacity - s.k)
      && s.ring.Free() == s.writer.free + s.writer.back
      && (KeepsLongest(s, s') <==> s.writer.lost == 0 || s.writer.free == s.ring.Free())
      && (s.writer.lost > 0 ==> s'.ring.Free() == s.writer.back)
  {
    RunKeepsInv(Begin(capacity), acts);
    SendKeepsLongestIff(Run(Begin(capacity), acts));
  }

  lemma SendKeepsLongestIff(s: Sys)
    requires Inv(s) && s.writer.Looping? && s.writer.free >= Min(|s.writer.data|, s.ring.capacity)
    ensures
      var s' := Step(s, WriterStep);
      && s.k <= s.ring.capacity && s'.ring.written == s.ring.written + s.writer.data
      && s'.ring.Held() == LastN(s.ring.Held() + s.writer.data, s.ring.capacity - s.k)
      && s.ring.Free() == s.writer.free + s.writer.back
      && (KeepsLongest(s, s') <==> s.writer.lost == 0 || s.writer.free == s.ring.Free())
      && (s.writer.lost > 0 ==> s'.ring.Free() == s.writer.back)
  {
    var sent, n := s.ring.Send(s.writer.data), s.ring.capacity - s.k;
    KeepsLongestSuffix(s.ring, s.ring, s.writer.data);
    assert Step(s, WriterStep).ring == sent;
    TailIsLastNIff(sent.written, sent.read, n);
    if s.writer.lost > 0 {
      assert s.ring.read > 0 && |sent.Held()| + s.writer.back == n;
    }
  }

  lemma TailIsLastNIff(all: seq<Byte>, from: nat, n: nat)
    requires from <= |all|
    ensures all[from..] == LastN(all, n) <==> from == if |all| <= n then 0 else |all| - n
  {
    assert |all[from..]| == |all| - from;
  }

  lemma {:induction false} OneMore(s: Sys, acts: seq<Act>, act: Act)
    ensures Run(s, acts + [act]) == Step(Run(s, acts), act)
    decreases |acts|
  {
    if acts == [] {
      assert [] + [act] == [act];
      assert Run(s, [act]) == Run(Step(s, act), []);
    } else {
      assert (acts + [act])[1..] == acts[1..] + [act];
      OneMore(Step(s, acts[0]), acts[1..], act);
    }
  }

  /** It does happen: the reader takes a and gives it back, and the write drops b although
      there is room for it now. */
  lemma WriteDropsForNothing(a: Byte, b: Byte, c: Byte)
    ensures
      var acts := [Write([a, b]), WriterStep, Write([c]), Take(1), GiveBack, WriterStep, WriterStep, WriterStep];
      var s := Run(Begin(2), acts);
      s.writer == Resting && s.ring.Held() == [c] && s.ring.Free() == 1 && s.delivered == [0] && s.dropped == 1
  {
    var begin := Begin(2);
    var acts := [];
    OneMore(begin, acts, Write([a, b]));
    acts := acts + [Write([a, b])];
    OneMore(begin, acts, WriterStep);
    acts := acts + [WriterStep];
    assert Run(begin, acts) == Sys(Ring(2, [a, b], 0, 0, 0), Resting, 0, [], 0);
    OneMore(begin, acts, Write([c]));
    acts := acts + [Write([c])];
    OneMore(begin, acts, Take(1));
    acts := acts + [Take(1)];
    assert Run(begin, acts) == Sys(Ring(2, [a, b], 0, 1, 1), Looping([c], 0, 0, 0), 1, [0], 0);
    OneMore(begin, acts, GiveBack);
    acts := acts + [GiveBack];
    OneMore(begin, acts, WriterStep);
    acts := acts + [WriterStep];
    assert Run(begin, acts) == Sys(Ring(2, [a, b], 1, 2, 0), Dropping([c], 0, 1, 1, 1), 0, [0], 1);
    OneMore(begin, acts, WriterStep);
    acts := acts + [WriterStep];
    OneMore(begin, acts, WriterStep);
    acts := acts + [WriterStep];
    assert Run(begin, acts) == Sys(Ring(2, [a, b, c], 2, 2, 0), Resting, 0, [0], 1);
    assert acts == [Write([a, b]), WriterStep, Write([c]), Take(1), GiveBack, WriterStep, WriterStep, WriterStep];
  }

  /** The second way for a write to fail does occur: one of one byte fails on an empty ring. */
  lemma WriteFailsOnEmptyRing(b: Byte)
    ensures
      var acts := [Write([b]), WriterStep, Write([b]), Take(1), GiveBack];
      var s := Run(Begin(1), acts);
      && s.writer == Looping([b], 0, 0, 1) && s.ring.Free() == 1
      && Step(s, WriterStep) == s.(writer := Resting)
  {
    var begin := Begin(1);
    var acts := [];
    OneMore(begin, acts, Write([b]));
    acts := acts + [Write([b])];
    OneMore(begin, acts, WriterStep);
    acts := acts + [WriterStep];
    assert Run(begin, acts) == Sys(Ring(1, [b], 0, 0, 0), Resting, 0, [], 0);
    OneMore(begin, acts, Write([b]));
    acts := acts + [Write([b])];
    OneMore(begin, acts, Take(1));
    acts := acts + [Take(1)];
    OneMore(begin, acts, GiveBack);
    acts := acts + [GiveBack];
    assert acts == [Write([b]), WriterStep, Write([b]), Take(1), GiveBack];
  }

  // ---------------------------------------------------------------- the mirror object

  lemma LastNOfTail(all: seq<Byte>, from: nat, n: nat)
    requires from <= |all|
    ensures LastN(all[from..], n) == all[if |all| - from <= n then from else |all| - n..]
  {
    if |all| - from > n {
      assert all[from..][|all| - from - n..] == all[|all| - n..];
    }
  }

  /** Sending after just enough was dropped keeps the longest suffix that fits. */
  lemma KeepsLongestSuffix(before: Ring, ring: Ring, data: seq<Byte>)
    requires before.Valid() && ring.Valid() && data != []
    requires ring.written == before.written && ring.capacity == before.capacity
    requires
      var len := Min(|data|, ring.capacity);
      if len <= before.Free() then ring == before
      else ring.freed == ring.read == |ring.written| + len - ring.capacity && before.freed == before.read
    ensures Min(|data|, ring.capacity) <= ring.Free()
    ensures ring.Send(data).read - ring.Send(data).freed == before.read - before.freed
    ensures ring.Send(data).Held() == LastN(before.Held() + data, before.capacity - (before.read - before.freed))
  {
    var all := before.written + data;
    var n := before.capacity - (before.read - before.freed);
    var sent := ring.Send(data);
    assert sent.read == if |all| - before.read <= n then before.read else |all| - n;
    assert before.Held() + data == all[before.read..];
    LastNOfTail(all, before.read, n);
  }

  /** The bytes of `stream` at the positions `at`, in their order, are copied over the start of
      `was`; the positions are among those read since `from`. */
  ghost predicate Picked(buffer: seq<Byte>, was: seq<Byte>, stream: seq<Byte>, at: seq<nat>, from: nat, to: nat) {
    && |at| <= |was| == |buffer| && from <= to <= |stream|
    && (forall i :: 0 <= i < |at| ==> from <= at[i] < to && buffer[i] == stream[at[i]])
    && (forall i, j :: 0 <= i < j < |at| ==> at[i] < at[j])
    && (forall i :: |at| <= i < |was| ==> buffer[i] == was[i])
  }

  lemma PickedOfMore(buffer: seq<Byte>, was: seq<Byte>, stream: seq<Byte>, more: seq<Byte>, at: seq<nat>, from: nat,
                     to: nat, to': nat)
    requires Picked(buffer, was, stream, at, from, to) && stream <= more && to <= to' <= |more|
    ensures Picked(buffer, was, more, at, from, to')
  {
  }

  /** The next `k` bytes, copied behind those there are. */
  lemma PickedNext(buffer: seq<Byte>, next: seq<Byte>, was: seq<Byte>, stream: seq<Byte>, at: seq<nat>, from: nat,
                   to: nat, k: nat)
    requires Picked(buffer, was, stream, at, from, to) && |next| == |buffer|
    requires |at| + k <= |buffer| && to + k <= |stream|
    requires forall i :: 0 <= i < |buffer| ==>
      next[i] == if |at| <= i < |at| + k then stream[to + i - |at|] else buffer[i]
    ensures Picked(next, was, stream, at + Positions(to, k), from, to + k)
  {
    var all := at + Positions(to, k);
    forall i | 0 <= i < |all| ensures from <= all[i] < to + k && next[i] == stream[all[i]] {
    }
  }

  datatype Code = Ok | InvalidArg | WrongState | Timeout

  /** codec_dev_mirror_t around its ring buffer; the calls below run without interruption. */
  class MirrorBuffer {
    var ring: Ring

    constructor (size: nat)
      requires size > 0
      ensures ring == Ring(size, [], 0, 0, 0)
    {
      ring := Ring(size, [], 0, 0, 0);
    }

    /** _mirror_drop_oldest */
    method DropOldest(size: nat) returns (dropped: nat)
      requires ring.Valid()
      modifies this
      ensures dropped == old(ring).Receivable(size)
      ensures ring == if dropped == 0 then old(ring) else old(ring).Receive(size).Return()
    {
      dropped := ring.Receivable(size);
      if dropped == 0 {
        return;
      }
      ring := ring.Receive(size);
      ring := ring.Return();
    }

    /** The loop of codec_dev_mirror_write: drops the oldest bytes until `len` are free. */
    method MakeRoom(len: nat) returns (ok: bool)
      requires ring.Valid() && len <= ring.capacity
      modifies this
      ensures ring.Valid() && ring.written == old(ring).written && ring.capacity == old(ring).capacity
      ensures ok <==> old(ring).freed == old(ring).read || len <= old(ring).Free()
      ensures !ok || len <= old(ring).Free() ==> ring == old(ring)
      ensures ok && len > old(ring).Free() ==> ring.freed == ring.read == |ring.written| + len - ring.capacity
    {
      var free := ring.Free();
      while free < len
        invariant ring.Valid() && ring.written == old(ring).written && ring.capacity == old(ring).capacity
        invariant free == ring.Free()
        invariant
          || ring == old(ring)
          || (old(ring).read < ring.freed == ring.read <= |ring.written| + len - ring.capacity
              && old(ring).freed == old(ring).read)
        decreases |ring.written| - ring.freed
      {
        var dropped := DropOldest(len - free);
        if dropped == 0 {
          return false;
        }
        free := free + dropped;
      }
      ok := true;
    }

    /** codec_dev_mirror_write: it fails exactly when the ring is too full and an item of the
        reader keeps it from dropping, and otherwise leaves the longest suffix of the old
        content and the data that fits. */
    method WriteBytes(data: seq<Byte>) returns (code: Code)
      requires ring.Valid()
      modifies this
      ensures ring.Valid()
      ensures
        var fits := Min(|data|, old(ring).capacity) <= old(ring).Free();
        code == if data == [] then InvalidArg else if old(ring).freed == old(ring).read || fits then Ok else WrongState
      ensures code == Ok ==>
        && ring.written == old(ring).written + data && ring.read - ring.freed == old(ring).read - old(ring).freed
        && ring.Held() == LastN(old(ring).Held() + data, old(ring).capacity - (old(ring).read - old(ring).freed))
      ensures code != Ok ==> ring == old(ring)
    {
      if data == [] {
        return InvalidArg;
      }
      var ok := MakeRoom(Min(|data|, ring.capacity));
      if !ok {
        return WrongState;
      }
      KeepsLongestSuffix(old(ring), ring, data);
      ring := ring.Send(data);
      code := Ok;
    }

    /** _mirror_receive into `buffer` at `from`. */
    method ReceiveInto(buffer: array<Byte>, from: nat, size: nat) returns (k: nat)
      requires ring.Valid() && from + size <= buffer.Length
      modifies this, buffer
      ensures k == old(ring).Receivable(size)
      ensures ring == if k == 0 then old(ring) else old(ring).Receive(size).Return()
      ensures forall i :: 0 <= i < buffer.Length ==>
        buffer[i] == if from <= i < from + k then ring.written[old(ring).read + i - from] else old(buffer[i])
    {
      k := ring.Receivable(size);
      if k == 0 {
        return;
      }
      forall i | from <= i < from + k {
        buffer[i] := ring.written[ring.read + i - from];
      }
      ring := ring.Receive(size);
      ring := ring.Return();
    }

    /** A write between the receives of a read. */
    method Arrive(data: seq<Byte>)
      requires ring.Valid()
      modifies this
      ensures ring.Valid() && old(ring).written <= ring.written && old(ring).read <= ring.read
      ensures old(ring).freed == old(ring).read ==> ring.freed == ring.read && ring.written == old(ring).written + data
    {
      var _ := WriteBytes(data);
    }

    /** One receive of codec_dev_mirror_read. */
    method ReadChunk(buffer: array<Byte>, ghost was: seq<Byte>, ghost at: seq<nat>, ghost from: nat, total: nat,
                     size: nat) returns (k: nat)
      requires ring.Valid() && |at| == total < size <= buffer.Length
      requires Picked(buffer[..], was, ring.written, at, from, ring.read)
      modifies this, buffer
      ensures ring.Valid() && ring.read == old(ring).read + k && ring.written == old(ring).written && total + k <= size
      ensures Picked(buffer[..], was, ring.written, at + Positions(old(ring).read, k), from, ring.read)
      ensures k == 0 <==> old(ring).freed < old(ring).read || old(ring).read == |ring.written|
      ensures if k == 0 then ring == old(ring) else old(ring).freed == old(ring).read && ring.freed == ring.read
    {
      ghost var before, to := buffer[..], ring.read;
      k := ReceiveInto(buffer, total, size - total);
      PickedNext(before, buffer[..], was, ring.written, at, from, to, k);
    }

    /** What arrives before a receive, and that receive. */
    method ReadRound(buffer: array<Byte>, ghost was: seq<Byte>, ghost at: seq<nat>, ghost from: nat, total: nat,
                     size: nat, arrivals: seq<seq<Byte>>, next: nat) returns (k: nat, ghost picked: seq<nat>)
      requires ring.Valid() && |at| == total < size <= buffer.Length && next <= |arrivals|
      requires Picked(buffer[..], was, ring.written, at, from, ring.read)
      modifies this, buffer
      ensures ring.Valid() && total + k <= size && |picked| == total + k
      ensures Picked(buffer[..], was, ring.written, picked, from, ring.read)
      ensures k == 0 ==> ring.freed < ring.read || ring.Held() == []
      ensures old(ring).freed == old(ring).read ==>
        ring.freed == ring.read && ring.written == old(ring).written + if next < |arrivals| then arrivals[next] else []
      ensures next == |arrivals| ==>
        && ring.written == old(ring).written && ring.read == old(ring).read + k
        && picked == at + Positions(old(ring).read, k)
        && (k == 0 <==> old(ring).freed < old(ring).read || old(ring).read == |ring.written|)
        && if k == 0 then ring == old(ring) else old(ring).freed == old(ring).read && ring.freed == ring.read
    {
      if next < |arrivals| {
        Arrive(arrivals[next]);
        PickedOfMore(buffer[..], was, old(ring).written, ring.written, at, from, old(ring).read, ring.read);
      }
      ghost var to := ring.read;
      k := ReadChunk(buffer, was, at, from, total, size);
      picked := at + Positions(to, k);
    }

    /** codec_dev_mirror_read while `arrivals` are written, one at a time, before its receives or
        while they wait: it copies bytes of the stream in their order, each once, and gives up
        only when no byte is held, or another item is out, after the last arrival. When nothing
        arrives these are the oldest bytes, as many as there are and are asked for. */
    method ReadBytes(buffer: array<Byte>, size: int, arrivals: seq<seq<Byte>>)
      returns (code: Code, total: nat, ghost at: seq<nat>)
      requires ring.Valid() && size <= buffer.Length
      modifies this, buffer
      ensures ring.Valid() && |at| == total
      ensures code == if size <= 0 then InvalidArg else if total < size then Timeout else Ok
      ensures Picked(buffer[..], old(buffer[..]), ring.written, at, old(ring).read, ring.read)
      ensures code == Timeout ==> ring.freed < ring.read || ring.Held() == []
      ensures code == Timeout && old(ring).freed == old(ring).read ==>
        ring.written == old(ring).written + Joined(arrivals)
      ensures arrivals == [] ==>
        && ring.written == old(ring).written && at == Positions(old(ring).read, total)
        && total == if size <= 0 || old(ring).freed < old(ring).read then 0 else Min(size, |old(ring).Held()|)
    {
      total, at := 0, [];
      if size <= 0 {
        return InvalidArg, 0, [];
      }
      code := Ok;
      ghost var was := buffer[..];
      var next := 0;
      while total < size
        invariant |at| == total <= size && code == Ok && ring.Valid() && next <= |arrivals|
        invariant Picked(buffer[..], was, ring.written, at, old(ring).read, ring.read)
        invariant AllArrived(old(ring), ring, arrivals, next)
        invariant arrivals == [] ==> Drained(old(ring), ring, total) && at == Positions(old(ring).read, total)
        decreases size - total, |arrivals| - next
      {
        ghost var held := ring;
        var k, picked := ReadRound(buffer, was, at, old(ring).read, total, size, arrivals, next);
        at := picked;
        OneMoreArrived(old(ring), held, ring, arrivals, next);
        if k == 0 && next >= |arrivals| {
          code := Timeout;
          break;
        }
        next := if next < |arrivals| then next + 1 else next;
        total := total + k;
      }
    }
  }

  function Joined(writes: seq<seq<Byte>>): seq<Byte> {
    if writes == [] then [] else Joined(writes[..|writes| - 1]) + writes[|writes| - 1]
  }

  /** Where the reader has no item out, every write has come into the ring. */
  predicate AllArrived(before: Ring, ring: Ring, writes: seq<seq<Byte>>, n: nat)
    requires n <= |writes|
  {
    before.freed == before.read ==> ring.freed == ring.read && ring.written == before.written + Joined(writes[..n])
  }

  lemma OneMoreArrived(before: Ring, ring: Ring, ring': Ring, writes: seq<seq<Byte>>, n: nat)
    requires n <= |writes| && AllArrived(before, ring, writes, n)
    requires ring.freed == ring.read ==>
      ring'.freed == ring'.read && ring'.written == ring.written + if n < |writes| then writes[n] else []
    ensures AllArrived(before, ring', writes, if n < |writes| then n + 1 else n)
    ensures n == |writes| ==> writes[..n] == writes
  {
    if n < |writes| {
      assert writes[..n + 1][..n] == writes[..n];
      var joined := Joined(writes[..n]);
      assert before.written + joined + writes[n] == before.written + (joined + writes[n]);
    }
  }

  /** The first `total` bytes are received, and nothing else happened. */
  predicate Drained(before: Ring, ring: Ring, total: nat) {
    && ring.written == before.written && ring.read == before.read + total
    && if total == 0 then ring == before else before.freed == before.read && ring.freed == ring.read
  }
}

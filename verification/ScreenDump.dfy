/**
 The screen.dump path of tools/cyberdeck_cli.py: the frames of a reply are collected up to the
 end frame, their chunks merged and checked, and the bytes put together. CRC-32 is any
 function of the bytes.
 */
module ScreenDump {
  import opened Base64
  import opened Common
  import P = Pieces

  // ---------------------------------------------------------------- frames

  /** A JSON value where a number or a text is expected. */
  datatype Json = Number(n: int) | Text(t: string) | OtherJson(kind: int)

  datatype Event = Start | RecoveryStart | RecoveryChunk | End | OtherEvent

  /** A JSON object, as far as screen.dump looks at it; `failed` says that its ok is false. */
  datatype Frame = Frame(rid: Option<string>, failed: bool, event: Event, chunk: Option<Json>, b64: Option<Json>,
                         size: Option<Json>, chunks: Option<Json>, crc32: Option<Json>)

  predicate IsNumber(v: Option<Json>) { v.Some? && v.value.Number? }

  predicate IsChunk(f: Frame) { IsNumber(f.chunk) && f.b64.Some? }

  type ChunkFrame = f: Frame | IsChunk(f)
    witness Frame(None, false, OtherEvent, Some(Number(0)), Some(Text("")), None, None, None)

  function IndexOf(f: ChunkFrame): int { f.chunk.value.n }

  type Chunks = map<int, ChunkFrame>

  /** The bytes of a text that is canonical Base64. */
  function Decoded(v: Option<Json>): Option<seq<Byte>> {
    if v.None? || !v.value.Text? then None
    else match Decode(v.value.t)
      case None => None
      case Some(d) => if Encode(d) == v.value.t then Some(d) else None
  }

  /** The check of a chunk and the decoder for fs.write accept the same texts. */
  lemma ChunkTextsAreCanonical(t: string)
    ensures Decoded(Some(Text(t))) == DecodeCanonical(t)
  {
    if Decode(t).Some? {
      ReadIsWritten(t);
      ReadInFours(Read(t).value);
    }
  }

  function BytesOf(f: ChunkFrame): seq<Byte> {
    match Decoded(f.b64)
    case None => []
    case Some(d) => d
  }

  // ---------------------------------------------------------------- the exchange

  /** _merge_chunk: an identical repeat is taken, a conflicting one is an error. */
  function Merge(chunks: Chunks, f: ChunkFrame): Option<Chunks> {
    if IndexOf(f) !in chunks then Some(chunks[IndexOf(f) := f])
    else if chunks[IndexOf(f)].b64 == f.b64 then Some(chunks)
    else None
  }

  datatype Gathered = Conflict | Gathered(frames: seq<Frame>, chunks: Chunks, gotEnd: bool)

  /** The loop of exchange over the frames read, with those it has kept and merged so far. */
  function Gather(rid: string, input: seq<Frame>, frames: seq<Frame>, chunks: Chunks): Gathered
    decreases |input|
  {
    if input == [] then Gathered(frames, chunks, false)
    else
      var f := input[0];
      if f.rid != Some(rid) then Gather(rid, input[1..], frames, chunks)
      else if f.failed then Gathered(frames + [f], chunks, false)
      else if f.event == Start || f.event == RecoveryStart then Gather(rid, input[1..], frames + [f], chunks)
      else if IsChunk(f) then
        match Merge(chunks, f)
        case None => Conflict
        case Some(more) => Gather(rid, input[1..], frames + [f], more)
      else if f.event == End then Gathered(frames + [f], chunks, true)
      else Gather(rid, input[1..], frames + [f], chunks)
  }

  /** _validate_chunks */
  predicate ChunksValid(chunks: Chunks, expected: int) {
    && (forall i :: i in chunks ==> 0 <= i < expected && Decoded(chunks[i].b64).Some?)
    && (forall i :: 0 <= i < expected ==> i in chunks)
  }

  /** The chunks joined in the order of their indices. */
  function Joined(chunks: Chunks, n: nat): seq<Byte>
    requires forall i :: 0 <= i < n ==> i in chunks
  {
    if n == 0 then [] else Joined(chunks, n - 1) + BytesOf(chunks[n - 1])
  }

  predicate StartValid(start: Frame) {
    && start.event == Start && IsNumber(start.size) && IsNumber(start.chunks)
    && start.size.value.n >= 0 && start.chunks.value.n >= 0
  }

  predicate SumsMatch(start: Frame, raw: seq<Byte>, crc: seq<Byte> -> int)
    requires StartValid(start)
  {
    |raw| == start.size.value.n && (start.crc32.Some? ==> start.crc32 == Some(Number(crc(raw))))
  }

  /** What exchange returns: the frames kept, beside the bytes it has checked; or the frames up
      to a failure reply; or an error. */
  datatype Result = Accepted(frames: seq<Frame>, raw: seq<Byte>) | Failed(frames: seq<Frame>) | Rejected

  function Conclude(g: Gathered, crc: seq<Byte> -> int): Result {
    if g.Conflict? || g.frames == [] then Rejected
    else if g.frames[|g.frames| - 1].failed then Failed(g.frames)
    else if !StartValid(g.frames[0]) || !g.gotEnd || !ChunksValid(g.chunks, g.frames[0].chunks.value.n) then Rejected
    else
      var raw := Joined(g.chunks, g.frames[0].chunks.value.n);
      if SumsMatch(g.frames[0], raw, crc) then Accepted(g.frames, raw) else Rejected
  }

  /** exchange for a screen.dump request. */
  method Exchange(rid: string, input: seq<Frame>, crc: seq<Byte> -> int) returns (r: Result)
    ensures r == Conclude(Gather(rid, input, [], map[]), crc)
  {
    var frames: seq<Frame> := [];
    var chunks: Chunks := map[];
    var gotEnd, i := false, 0;
    while i < |input|
      invariant 0 <= i <= |input| && !gotEnd
      invariant Gather(rid, input, [], map[]) == Gather(rid, input[i..], frames, chunks)
      invariant frames != [] ==> !frames[|frames| - 1].failed
    {
      var f := input[i];
      assert input[i..][1..] == input[i + 1..];
      i := i + 1;
      if f.rid != Some(rid) {
        continue;
      }
      frames := frames + [f];
      if f.failed {
        return Failed(frames);
      }
      if f.event == Start || f.event == RecoveryStart {
        continue;
      }
      if IsChunk(f) {
        var merged := Merge(chunks, f);
        if merged.None? {
          return Rejected;
        }
        chunks := merged.value;
      } else if f.event == End {
        gotEnd := true;
        break;
      }
    }
    r := Conclude(Gathered(frames, chunks, gotEnd), crc);
  }

  // ---------------------------------------------------------------- foreign frames

  function Own(rid: string, input: seq<Frame>): (own: seq<Frame>)
    ensures forall f :: f in own ==> f.rid == Some(rid)
  {
    if input == [] then []
    else if input[0].rid == Some(rid) then [input[0]] + Own(rid, input[1..])
    else Own(rid, input[1..])
  }

  /** Frames of other requests, wherever they come, are as if they were not there. */
  lemma {:induction false} ForeignFramesDoNotMatter(rid: string, input: seq<Frame>, frames: seq<Frame>, chunks: Chunks)
    ensures Gather(rid, input, frames, chunks) == Gather(rid, Own(rid, input), frames, chunks)
    decreases |input|
  {
    if input != [] {
      var f, own := input[0], Own(rid, input[1..]);
      ForeignFramesDoNotMatter(rid, input[1..], frames, chunks);
      if f.rid == Some(rid) {
        assert Own(rid, input) == [f] + own && ([f] + own)[1..] == own;
        ForeignFramesDoNotMatter(rid, input[1..], frames + [f], chunks);
        if IsChunk(f) && Merge(chunks, f).Some? {
          ForeignFramesDoNotMatter(rid, input[1..], frames + [f], Merge(chunks, f).value);
        }
      }
    }
  }

  // ---------------------------------------------------------------- merging

  function MergeAll(chunks: Chunks, cs: seq<ChunkFrame>): Option<Chunks>
    decreases |cs|
  {
    if cs == [] then Some(chunks)
    else match Merge(chunks, cs[0])
      case None => None
      case Some(more) => MergeAll(more, cs[1..])
  }

  /** Frames of one index have one text. */
  predicate Agree(cs: seq<ChunkFrame>) {
    forall f, g :: f in cs && g in cs && IndexOf(f) == IndexOf(g) ==> f.b64 == g.b64
  }

  /** The merged chunks hold what was seen, and nothing else. */
  predicate Holds(chunks: Chunks, seen: seq<ChunkFrame>) {
    && (forall f :: f in seen ==> IndexOf(f) in chunks && chunks[IndexOf(f)].b64 == f.b64)
    && (forall i :: i in chunks ==> chunks[i] in seen && IndexOf(chunks[i]) == i)
  }

  lemma {:induction false} MergesIffAgree(chunks: Chunks, seen: seq<ChunkFrame>, cs: seq<ChunkFrame>)
    requires Holds(chunks, seen)
    ensures MergeAll(chunks, cs).Some? <==> Agree(seen + cs)
    ensures MergeAll(chunks, cs).Some? ==> Holds(MergeAll(chunks, cs).value, seen + cs)
    decreases |cs|
  {
    if cs == [] {
      assert seen + cs == seen;
    } else {
      var f := cs[0];
      assert seen + cs == (seen + [f]) + cs[1..];
      if Merge(chunks, f).Some? {
        MergesIffAgree(Merge(chunks, f).value, seen + [f], cs[1..]);
      } else {
        assert f in seen + cs && chunks[IndexOf(f)] in seen + cs;
      }
    }
  }

  // ---------------------------------------------------------------- replies

  /** The end frame of a reply; one that also carries a chunk is taken for the chunk. */
  predicate Closes(f: Frame) { f.event == End && !IsChunk(f) }

  /** The chunk of a start frame is not merged. */
  predicate Merges(f: Frame) { IsChunk(f) && f.event != Start && f.event != RecoveryStart }

  function Merged(frames: seq<Frame>): seq<ChunkFrame> {
    if frames == [] then []
    else (if Merges(frames[0]) then [frames[0]] else []) + Merged(frames[1..])
  }

  /** The frames of a request before its failure or end, and that failure or end. */
  datatype Heard = Heard(body: seq<Frame>, last: Option<Frame>) {
    function All(): seq<Frame> { if last.None? then body else body + [last.value] }

    predicate Ended() { last.Some? && !last.value.failed }
  }

  predicate StopsNowhere(body: seq<Frame>) { forall f :: f in body ==> !f.failed && !Closes(f) }

  function Hear(own: seq<Frame>): (h: Heard)
    ensures StopsNowhere(h.body) && (h.last.Some? ==> h.last.value.failed || Closes(h.last.value))
  {
    if own == [] then Heard([], None)
    else if own[0].failed || Closes(own[0]) then Heard([], Some(own[0]))
    else
      var h := Hear(own[1..]);
      Heard([own[0]] + h.body, h.last)
  }

  lemma {:induction false} GathersOwn(rid: string, own: seq<Frame>, frames: seq<Frame>, chunks: Chunks)
    requires forall f :: f in own ==> f.rid == Some(rid)
    ensures
      var h := Hear(own);
      Gather(rid, own, frames, chunks) ==
      match MergeAll(chunks, Merged(h.body))
      case None => Conflict
      case Some(all) => Gathered(frames + h.All(), all, h.Ended())
    decreases |own|
  {
    if own == [] {
      assert frames + [] == frames;
    } else if !own[0].failed && !Closes(own[0]) {
      var f, rest := own[0], Hear(own[1..]);
      GathersOne(rid, own, frames, chunks);
      AllOfMore(frames, f, rest);
      MergedOfMore(f, rest.body);
      if !Merges(f) {
        GathersOwn(rid, own[1..], frames + [f], chunks);
      } else if Merge(chunks, f).Some? {
        GathersOwn(rid, own[1..], frames + [f], Merge(chunks, f).value);
      }
    }
  }

  lemma GathersOne(rid: string, own: seq<Frame>, frames: seq<Frame>, chunks: Chunks)
    requires own != [] && own[0].rid == Some(rid) && !own[0].failed && !Closes(own[0])
    ensures
      Gather(rid, own, frames, chunks) ==
      if !Merges(own[0]) then Gather(rid, own[1..], frames + [own[0]], chunks)
      else match Merge(chunks, own[0])
        case None => Conflict
        case Some(more) => Gather(rid, own[1..], frames + [own[0]], more)
  {
  }

  lemma AllOfMore(frames: seq<Frame>, f: Frame, rest: Heard)
    ensures frames + [f] + rest.All() == frames + Heard([f] + rest.body, rest.last).All()
  {
  }

  lemma MergedOfMore(f: Frame, body: seq<Frame>)
    ensures
      var cs := Merged([f] + body);
      if Merges(f) then |cs| > 0 && cs[0] == f && cs[1..] == Merged(body) else cs == Merged(body)
  {
    assert ([f] + body)[1..] == body;
  }

  function PieceOf(f: ChunkFrame): P.Piece { P.Piece(IndexOf(f), BytesOf(f)) }

  function PiecesOf(cs: seq<ChunkFrame>): seq<P.Piece> {
    seq(|cs|, i requires 0 <= i < |cs| => PieceOf(cs[i]))
  }

  lemma PiecesAre(cs: seq<ChunkFrame>, f: ChunkFrame)
    requires f in cs
    ensures PieceOf(f) in PiecesOf(cs)
  {
    var i :| 0 <= i < |cs| && cs[i] == f;
    assert PiecesOf(cs)[i] == PieceOf(f);
  }

  lemma PiecesAgree(cs: seq<ChunkFrame>)
    requires Agree(cs)
    ensures P.Agree(PiecesOf(cs))
  {
    forall p, q | p in PiecesOf(cs) && q in PiecesOf(cs) && p.index == q.index ensures p.data == q.data {
      var i :| 0 <= i < |cs| && PiecesOf(cs)[i] == p;
      var j :| 0 <= j < |cs| && PiecesOf(cs)[j] == q;
      assert cs[i] in cs && cs[j] in cs;
    }
  }

  /** The bytes of each index, put together in order. */
  function Assembled(cs: seq<ChunkFrame>, n: nat): seq<Byte> { P.Assembled(PiecesOf(cs), n) }

  lemma BytesAtAny(cs: seq<ChunkFrame>, f: ChunkFrame)
    requires Agree(cs) && f in cs
    ensures P.DataAt(PiecesOf(cs), IndexOf(f)) == BytesOf(f)
  {
    PiecesAre(cs, f);
    PiecesAgree(cs);
    P.DataAtAny(PiecesOf(cs), PieceOf(f));
  }

  lemma ChunkIsAssembled(chunks: Chunks, cs: seq<ChunkFrame>, i: int)
    requires Holds(chunks, cs) && Agree(cs) && i in chunks
    ensures P.DataAt(PiecesOf(cs), i) == BytesOf(chunks[i])
  {
    BytesAtAny(cs, chunks[i]);
  }

  lemma {:induction false} JoinedFollows(chunks: Chunks, ps: seq<P.Piece>, n: nat)
    requires forall i :: 0 <= i < n ==> i in chunks && P.DataAt(ps, i) == BytesOf(chunks[i])
    ensures Joined(chunks, n) == P.Assembled(ps, n)
  {
    if n > 0 {
      JoinedFollows(chunks, ps, n - 1);
      assert P.DataAt(ps, n - 1) == BytesOf(chunks[n - 1]);
    }
  }

  lemma JoinedIsAssembled(chunks: Chunks, cs: seq<ChunkFrame>, n: nat)
    requires Holds(chunks, cs) && Agree(cs) && forall i :: 0 <= i < n ==> i in chunks
    ensures Joined(chunks, n) == Assembled(cs, n)
  {
    forall i | 0 <= i < n ensures P.DataAt(PiecesOf(cs), i) == BytesOf(chunks[i]) {
      ChunkIsAssembled(chunks, cs, i);
    }
    JoinedFollows(chunks, PiecesOf(cs), n);
  }

  predicate HasIndex(cs: seq<ChunkFrame>, i: int) { exists f :: f in cs && IndexOf(f) == i }

  /** The indices are 0 up to `n`, and each text is canonical. */
  predicate Complete(cs: seq<ChunkFrame>, n: nat) {
    && (forall f :: f in cs ==> 0 <= IndexOf(f) < n && Decoded(f.b64).Some?)
    && (forall i :: 0 <= i < n ==> HasIndex(cs, i))
  }

  lemma PiecesComplete(cs: seq<ChunkFrame>, n: nat)
    requires Complete(cs, n)
    ensures P.Complete(PiecesOf(cs), n)
  {
    forall p | p in PiecesOf(cs) ensures 0 <= p.index < n {
      var i :| 0 <= i < |cs| && PiecesOf(cs)[i] == p;
      assert cs[i] in cs;
    }
    forall i | 0 <= i < n ensures P.HasIndex(PiecesOf(cs), i) {
      assert HasIndex(cs, i);
      var f :| f in cs && IndexOf(f) == i;
      PiecesAre(cs, f);
      assert PieceOf(f).index == i;
    }
  }

  lemma ValidIffComplete(chunks: Chunks, cs: seq<ChunkFrame>, n: nat)
    requires Holds(chunks, cs)
    ensures ChunksValid(chunks, n) <==> Complete(cs, n)
  {
    if ChunksValid(chunks, n) {
      forall i | 0 <= i < n ensures HasIndex(cs, i) {
        assert chunks[i] in cs;
      }
    }
    if Complete(cs, n) {
      forall i | 0 <= i < n ensures i in chunks {
        assert HasIndex(cs, i);
      }
      forall i | i in chunks ensures 0 <= i < n && Decoded(chunks[i].b64).Some? {
        assert chunks[i] in cs;
      }
    }
  }

  /** What exchange makes of the frames read. */
  function Outcome(rid: string, input: seq<Frame>, crc: seq<Byte> -> int): Result {
    Conclude(Gather(rid, input, [], map[]), crc)
  }

  /** The request's own frames up to its failure or end. */
  function HeardOf(rid: string, input: seq<Frame>): Heard { Hear(Own(rid, input)) }

  /** The chunks are what the start frame declares. */
  predicate AsDeclared(start: Frame, cs: seq<ChunkFrame>, crc: seq<Byte> -> int) {
    && StartValid(start) && Agree(cs) && Complete(cs, start.chunks.value.n)
    && SumsMatch(start, Assembled(cs, start.chunks.value.n), crc)
  }

  lemma ConcludesIff(frames: seq<Frame>, cs: seq<ChunkFrame>, chunks: Chunks, crc: seq<Byte> -> int)
    requires frames != [] && !frames[|frames| - 1].failed && Holds(chunks, cs) && Agree(cs)
    ensures
      Conclude(Gathered(frames, chunks, true), crc) ==
      if AsDeclared(frames[0], cs, crc) then Accepted(frames, Assembled(cs, frames[0].chunks.value.n)) else Rejected
  {
    if StartValid(frames[0]) {
      var n := frames[0].chunks.value.n;
      ValidIffComplete(chunks, cs, n);
      if ChunksValid(chunks, n) {
        JoinedIsAssembled(chunks, cs, n);
      }
    }
  }

  lemma ConcludesHeard(h: Heard, cs: seq<ChunkFrame>, chunks: Chunks, crc: seq<Byte> -> int)
    requires StopsNowhere(h.body) && Holds(chunks, cs) && Agree(cs)
    ensures
      Conclude(Gathered(h.All(), chunks, h.Ended()), crc) ==
      if h.last.None? then Rejected
      else if h.last.value.failed then Failed(h.All())
      else if AsDeclared(h.All()[0], cs, crc) then Accepted(h.All(), Assembled(cs, h.All()[0].chunks.value.n))
      else Rejected
  {
    if h.last.None? {
      assert h.body != [] ==> h.body[|h.body| - 1] in h.body;
    } else if !h.last.value.failed {
      ConcludesIff(h.All(), cs, chunks, crc);
    }
  }

  lemma MergesFromNothing(cs: seq<ChunkFrame>)
    ensures MergeAll(map[], cs).Some? <==> Agree(cs)
    ensures MergeAll(map[], cs).Some? ==> Holds(MergeAll(map[], cs).value, cs)
  {
    MergesIffAgree(map[], [], cs);
    assert [] + cs == cs;
  }

  lemma GathersInput(rid: string, input: seq<Frame>)
    ensures
      var h := HeardOf(rid, input);
      Gather(rid, input, [], map[]) ==
      match MergeAll(map[], Merged(h.body))
      case None => Conflict
      case Some(all) => Gathered(h.All(), all, h.Ended())
  {
    ForeignFramesDoNotMatter(rid, input, [], map[]);
    GathersOwn(rid, Own(rid, input), [], map[]);
    assert [] + HeardOf(rid, input).All() == HeardOf(rid, input).All();
  }

  /** Of any frames read: they are accepted exactly when the request has an end frame and no
      failure before it, repeats agree, the indices are 0 up to the number declared, each text
      is canonical, and size and CRC of the assembled bytes are as declared; these are the
      bytes that were checked. A failure frame is returned unless chunks conflict before it. */
  lemma AcceptedIff(rid: string, input: seq<Frame>, crc: seq<Byte> -> int)
    ensures
      var h := HeardOf(rid, input);
      var cs := Merged(h.body);
      Outcome(rid, input, crc) ==
      if !Agree(cs) || h.last.None? then Rejected
      else if h.last.value.failed then Failed(h.All())
      else if AsDeclared(h.All()[0], cs, crc) then Accepted(h.All(), Assembled(cs, h.All()[0].chunks.value.n))
      else Rejected
  {
    var h := HeardOf(rid, input);
    GathersInput(rid, input);
    MergesFromNothing(Merged(h.body));
    if Agree(Merged(h.body)) {
      ConcludesHeard(h, Merged(h.body), MergeAll(map[], Merged(h.body)).value, crc);
    }
  }

  /** The bytes of an accepted reply have the length and, where one is given, the CRC that its
      first frame declares, and its last frame is its end. */
  lemma AcceptedHasDeclaredSums(rid: string, input: seq<Frame>, crc: seq<Byte> -> int)
    requires Outcome(rid, input, crc).Accepted?
    ensures
      var r := Outcome(rid, input, crc);
      && r.frames != [] && r.frames[0].event == Start && Closes(r.frames[|r.frames| - 1])
      && r.frames[0].size == Some(Number(|r.raw|))
      && (r.frames[0].crc32.Some? ==> r.frames[0].crc32 == Some(Number(crc(r.raw))))
      && (forall f :: f in r.frames ==> f in input && f.rid == Some(rid) && !f.failed)
  {
    AcceptedIff(rid, input, crc);
    HeardAreRead(rid, input);
  }

  lemma {:induction false} OwnAreRead(rid: string, input: seq<Frame>)
    ensures forall f :: f in Own(rid, input) ==> f in input
  {
    if input != [] {
      OwnAreRead(rid, input[1..]);
    }
  }

  lemma {:induction false} HeardAreOwn(own: seq<Frame>)
    ensures forall f :: f in Hear(own).All() ==> f in own
  {
    if own != [] && !own[0].failed && !Closes(own[0]) {
      HeardAreOwn(own[1..]);
      forall f | f in Hear(own).All() ensures f in own {
        assert f == own[0] || f in Hear(own[1..]).All();
      }
    }
  }

  lemma HeardAreRead(rid: string, input: seq<Frame>)
    ensures forall f :: f in HeardOf(rid, input).All() ==> f in input && f.rid == Some(rid)
  {
    HeardAreOwn(Own(rid, input));
    OwnAreRead(rid, input);
  }

  // ---------------------------------------------------------------- order and repeats

  predicate Says(cs: seq<ChunkFrame>, i: int, v: Option<Json>) {
    exists f :: f in cs && IndexOf(f) == i && f.b64 == v
  }

  /** Every chunk in one list is in the other. */
  predicate Covers(cs: seq<ChunkFrame>, ds: seq<ChunkFrame>) {
    forall f :: f in ds ==> Says(cs, IndexOf(f), f.b64)
  }

  lemma CoveredAgree(cs: seq<ChunkFrame>, ds: seq<ChunkFrame>)
    requires Covers(cs, ds) && Agree(cs)
    ensures Agree(ds)
  {
    forall f, g | f in ds && g in ds && IndexOf(f) == IndexOf(g) ensures f.b64 == g.b64 {
      assert Says(cs, IndexOf(f), f.b64) && Says(cs, IndexOf(g), g.b64);
    }
  }

  lemma CoveredIsComplete(cs: seq<ChunkFrame>, ds: seq<ChunkFrame>, n: nat)
    requires Covers(cs, ds) && Covers(ds, cs) && Complete(cs, n)
    ensures Complete(ds, n)
  {
    forall f | f in ds ensures 0 <= IndexOf(f) < n && Decoded(f.b64).Some? {
      assert Says(cs, IndexOf(f), f.b64);
    }
    forall i | 0 <= i < n ensures HasIndex(ds, i) {
      assert HasIndex(cs, i);
      var f :| f in cs && IndexOf(f) == i;
      assert Says(ds, i, f.b64);
    }
  }

  lemma CoveredBytes(cs: seq<ChunkFrame>, ds: seq<ChunkFrame>, i: int)
    requires Covers(ds, cs) && Agree(cs) && Agree(ds) && HasIndex(cs, i)
    ensures P.DataAt(PiecesOf(cs), i) == P.DataAt(PiecesOf(ds), i)
  {
    var f :| f in cs && IndexOf(f) == i;
    assert Says(ds, i, f.b64);
    var g :| g in ds && IndexOf(g) == i && g.b64 == f.b64;
    BytesAtAny(cs, f);
    BytesAtAny(ds, g);
  }

  lemma CoveredAssembles(cs: seq<ChunkFrame>, ds: seq<ChunkFrame>, n: nat)
    requires Covers(ds, cs) && Agree(cs) && Agree(ds) && forall i :: 0 <= i < n ==> HasIndex(cs, i)
    ensures Assembled(cs, n) == Assembled(ds, n)
  {
    forall i | 0 <= i < n ensures P.DataAt(PiecesOf(cs), i) == P.DataAt(PiecesOf(ds), i) {
      CoveredBytes(cs, ds, i);
    }
    P.AssembledFollows(PiecesOf(cs), PiecesOf(ds), n);
  }

  /** Neither the order of the chunk frames nor identical repeats matter, nor any other frame
      between start and end: two replies with one start frame that cover each other are
      accepted with the same bytes checked, or neither is. */
  lemma OrderAndRepeatsDoNotMatter(rid: string, xs: seq<Frame>, ys: seq<Frame>, crc: seq<Byte> -> int)
    requires HeardOf(rid, xs).Ended() && HeardOf(rid, ys).Ended()
    requires HeardOf(rid, xs).All()[0] == HeardOf(rid, ys).All()[0]
    requires Covers(Merged(HeardOf(rid, xs).body), Merged(HeardOf(rid, ys).body))
    requires Covers(Merged(HeardOf(rid, ys).body), Merged(HeardOf(rid, xs).body))
    ensures
      var r, q := Outcome(rid, xs, crc), Outcome(rid, ys, crc);
      r.Accepted? == q.Accepted? && (r.Accepted? ==> r.raw == q.raw)
  {
    AcceptedIff(rid, xs, crc);
    AcceptedIff(rid, ys, crc);
    var start, cs, ds := HeardOf(rid, xs).All()[0], Merged(HeardOf(rid, xs).body), Merged(HeardOf(rid, ys).body);
    if AsDeclared(start, cs, crc) {
      CoveredAsDeclared(start, cs, ds, crc);
    } else if AsDeclared(start, ds, crc) {
      CoveredAsDeclared(start, ds, cs, crc);
    }
  }

  lemma CoveredAsDeclared(start: Frame, cs: seq<ChunkFrame>, ds: seq<ChunkFrame>, crc: seq<Byte> -> int)
    requires Covers(cs, ds) && Covers(ds, cs) && AsDeclared(start, cs, crc)
    ensures AsDeclared(start, ds, crc)
    ensures Assembled(cs, start.chunks.value.n) == Assembled(ds, start.chunks.value.n)
  {
    var n := start.chunks.value.n;
    CoveredAgree(cs, ds);
    CoveredIsComplete(cs, ds, n);
    CoveredAssembles(cs, ds, n);
  }

  // ---------------------------------------------------------------- the payload

  function ChunksOf(frames: seq<Frame>): seq<ChunkFrame> {
    if frames == [] then []
    else if IsChunk(frames[0]) then [frames[0]] + ChunksOf(frames[1..])
    else ChunksOf(frames[1..])
  }

  /** Decoding that is not strict, as dump_payload does it: any function that fails or gives
      bytes, and decodes the canonical texts rightly. */
  type Loose = Json -> Option<seq<Byte>>

  ghost predicate DecodesCanonical(loose: Loose) {
    forall v :: Decoded(Some(v)).Some? ==> loose(v) == Decoded(Some(v))
  }

  function LoosePiece(f: ChunkFrame, loose: Loose): P.Piece {
    match loose(f.b64.value)
    case None => P.Piece(IndexOf(f), [])
    case Some(d) => P.Piece(IndexOf(f), d)
  }

  function LoosePieces(cs: seq<ChunkFrame>, loose: Loose): seq<P.Piece> {
    if cs == [] then [] else [LoosePiece(cs[0], loose)] + LoosePieces(cs[1..], loose)
  }

  /** dump_payload; it fails where a text cannot be decoded. */
  function DumpPayload(frames: seq<Frame>, loose: Loose): Option<seq<Byte>> {
    if exists f :: f in ChunksOf(frames) && loose(f.b64.value).None? then None
    else Some(P.Concat(P.Sort(LoosePieces(ChunksOf(frames), loose))))
  }

  lemma {:induction false} ChunksOfMore(frames: seq<Frame>, end: Frame)
    requires !IsChunk(end)
    ensures ChunksOf(frames + [end]) == ChunksOf(frames)
    decreases |frames|
  {
    if frames == [] {
      assert frames + [end] == [end];
    } else {
      assert (frames + [end])[1..] == frames[1..] + [end];
      ChunksOfMore(frames[1..], end);
    }
  }

  lemma {:induction false} ChunksAreFrames(frames: seq<Frame>)
    ensures forall f :: f in ChunksOf(frames) <==> f in frames && IsChunk(f)
    ensures forall f :: f in Merged(frames) <==> f in frames && Merges(f)
  {
    if frames != [] {
      ChunksAreFrames(frames[1..]);
    }
  }

  /** A start frame that carries a chunk carries no data. */
  predicate StartsCarryNothing(frames: seq<Frame>, loose: Loose) {
    forall f :: f in frames && IsChunk(f) && !Merges(f) ==> loose(f.b64.value) == Some([])
  }

  /** The pieces of all chunk frames are those of the merged ones, and more. */
  predicate Beside(all: seq<P.Piece>, ps: seq<P.Piece>, nothing: bool) {
    && P.Size(all) >= P.Size(ps) && (P.Size(all) == P.Size(ps) <==> nothing)
    && (nothing ==> P.Filled(all) == P.Filled(ps))
  }

  lemma OneBeside(p: P.Piece, all: seq<P.Piece>, ps: seq<P.Piece>, nothing: bool, merged: bool)
    requires Beside(all, ps, nothing)
    ensures Beside([p] + all, if merged then [p] + ps else ps, nothing && (merged || p.data == []))
  {
    P.SizeOfMore([p], all);
    P.SizeOfMore([p], ps);
    P.FilledOfMore([p], all);
    P.FilledOfMore([p], ps);
    P.SizeOfOne(p);
  }

  lemma LoosePiecesOfMore(f: Frame, rest: seq<Frame>, loose: Loose)
    ensures
      LoosePieces(ChunksOf([f] + rest), loose) ==
      (if IsChunk(f) then [LoosePiece(f, loose)] else []) + LoosePieces(ChunksOf(rest), loose)
  {
    assert ([f] + rest)[1..] == rest;
    if IsChunk(f) {
      assert ([f] + ChunksOf(rest))[1..] == ChunksOf(rest);
    }
  }

  lemma PiecesOfMore(f: Frame, rest: seq<Frame>)
    ensures
      PiecesOf(Merged([f] + rest)) ==
      (if Merges(f) then [PieceOf(f)] else []) + PiecesOf(Merged(rest))
  {
    assert ([f] + rest)[1..] == rest;
    if Merges(f) {
      assert Merged([f] + rest) == [f] + Merged(rest);
    }
  }

  lemma NothingOfMore(f: Frame, rest: seq<Frame>, loose: Loose)
    ensures
      StartsCarryNothing([f] + rest, loose) <==>
      StartsCarryNothing(rest, loose) && (IsChunk(f) && !Merges(f) ==> loose(f.b64.value) == Some([]))
  {
    assert forall g :: g in [f] + rest <==> g == f || g in rest;
  }

  lemma {:induction false} ChunksBesideMerged(frames: seq<Frame>, loose: Loose)
    requires DecodesCanonical(loose)
    requires forall f :: f in frames && Merges(f) ==> Decoded(f.b64).Some?
    requires forall f :: f in frames && IsChunk(f) ==> loose(f.b64.value).Some?
    ensures Beside(LoosePieces(ChunksOf(frames), loose), PiecesOf(Merged(frames)), StartsCarryNothing(frames, loose))
  {
    if frames != [] {
      ChunksBesideMerged(frames[1..], loose);
      OneMoreBeside(frames[0], frames[1..], loose);
      assert frames == [frames[0]] + frames[1..];
    }
  }

  lemma OneMoreBeside(f: Frame, rest: seq<Frame>, loose: Loose)
    requires DecodesCanonical(loose)
    requires (Merges(f) ==> Decoded(f.b64).Some?) && (IsChunk(f) ==> loose(f.b64.value).Some?)
    requires Beside(LoosePieces(ChunksOf(rest), loose), PiecesOf(Merged(rest)), StartsCarryNothing(rest, loose))
    ensures
      var all := [f] + rest;
      Beside(LoosePieces(ChunksOf(all), loose), PiecesOf(Merged(all)), StartsCarryNothing(all, loose))
  {
    LoosePiecesOfMore(f, rest, loose);
    PiecesOfMore(f, rest);
    NothingOfMore(f, rest, loose);
    if IsChunk(f) {
      OneBeside(LoosePiece(f, loose), LoosePieces(ChunksOf(rest), loose), PiecesOf(Merged(rest)),
                StartsCarryNothing(rest, loose), Merges(f));
      if Merges(f) {
        MergedPieceIsStrict(f, loose);
      } else {
        assert [] + PiecesOf(Merged(rest)) == PiecesOf(Merged(rest));
      }
    } else {
      assert [] + PiecesOf(Merged(rest)) == PiecesOf(Merged(rest));
      assert [] + LoosePieces(ChunksOf(rest), loose) == LoosePieces(ChunksOf(rest), loose);
    }
  }

  lemma MergedPieceIsStrict(f: ChunkFrame, loose: Loose)
    requires DecodesCanonical(loose) && Decoded(f.b64).Some?
    ensures LoosePiece(f, loose) == PieceOf(f)
  {
    assert f.b64 == Some(f.b64.value);
  }

  lemma PayloadOfHeard(h: Heard, n: nat, loose: Loose)
    requires DecodesCanonical(loose) && h.last.Some? && !IsChunk(h.last.value)
    requires Agree(Merged(h.body)) && Complete(Merged(h.body), n)
    ensures DumpPayload(h.All(), loose) == Some(Assembled(Merged(h.body), n)) <==>
            P.RepeatsEmpty(PiecesOf(Merged(h.body)), n) && StartsCarryNothing(h.body, loose)
  {
    var cs := Merged(h.body);
    ChunksOfMore(h.body, h.last.value);
    ChunksAreFrames(h.body);
    forall f | f in h.body && Merges(f) ensures Decoded(f.b64).Some? && loose(f.b64.value).Some? {
      assert f in cs && f.b64 == Some(f.b64.value);
    }
    if forall f :: f in h.body && IsChunk(f) ==> loose(f.b64.value).Some? {
      ChunksBesideMerged(h.body, loose);
      PiecesAgree(cs);
      PiecesComplete(cs, n);
      P.MoreIsAssembledIff(LoosePieces(ChunksOf(h.body), loose), PiecesOf(cs), n);
    }
  }

  /** The payload that dump_payload makes of an accepted reply is the bytes that were checked
      exactly when every repeated chunk is empty and so is every chunk that a start frame
      carries, which is not merged; so it is when nothing is repeated and none carries one. */
  lemma PayloadIsCheckedIff(rid: string, input: seq<Frame>, crc: seq<Byte> -> int, loose: Loose)
    requires DecodesCanonical(loose) && Outcome(rid, input, crc).Accepted?
    ensures
      var h, r := HeardOf(rid, input), Outcome(rid, input, crc);
      && r.frames == h.All() != [] && StartValid(h.All()[0])
      && (DumpPayload(r.frames, loose) == Some(r.raw) <==>
          && P.RepeatsEmpty(PiecesOf(Merged(h.body)), h.All()[0].chunks.value.n)
          && StartsCarryNothing(h.body, loose))
  {
    AcceptedIff(rid, input, crc);
    var h := HeardOf(rid, input);
    PayloadOfHeard(h, h.All()[0].chunks.value.n, loose);
  }

  lemma LetterDecodes(f: ChunkFrame)
    requires f.b64 == Some(Text("Zg=="))
    ensures Decoded(f.b64) == Some([102]) && BytesOf(f) == [102]
  {
    KnownTexts();
    CanonicalInvertsEncode("Zg==", [102]);
  }

  lemma LetterTwice(f: ChunkFrame)
    requires IndexOf(f) == 0 && f.b64 == Some(Text("Zg=="))
    ensures Agree([f, f]) && Complete([f, f], 1) && Assembled([f, f], 1) == [102]
    ensures !P.RepeatsEmpty(PiecesOf([f, f]), 1)
  {
    LetterDecodes(f);
    assert f in [f, f] && HasIndex([f, f], 0);
    assert PiecesOf([f, f]) == [PieceOf(f), PieceOf(f)];
    P.TwoAlike(PieceOf(f));
  }

  /** A repeat that is accepted changes the payload. */
  lemma RepeatChangesPayload(rid: string, crc: seq<Byte> -> int, loose: Loose)
    requires DecodesCanonical(loose)
    ensures
      var f := Frame(Some(rid), false, OtherEvent, Some(Number(0)), Some(Text("Zg==")), None, None, None);
      var start := Frame(Some(rid), false, Start, None, None, Some(Number(1)), Some(Number(1)), None);
      var end := Frame(Some(rid), false, End, None, None, None, None, None);
      var r := Outcome(rid, [start, f, f, end], crc);
      r.Accepted? && r.raw == [102] && DumpPayload(r.frames, loose) != Some(r.raw)
  {
    var f := Frame(Some(rid), false, OtherEvent, Some(Number(0)), Some(Text("Zg==")), None, None, None);
    var start := Frame(Some(rid), false, Start, None, None, Some(Number(1)), Some(Number(1)), None);
    var end := Frame(Some(rid), false, End, None, None, None, None, None);
    LetterTwice(f);
    TwiceHeard(rid, start, f, end);
    TwiceMerged(start, f);
    TwiceAccepted(rid, start, f, end, crc);
    PayloadIsCheckedIff(rid, [start, f, f, end], crc, loose);
  }

  /** And so does a chunk in the start frame, of a reply that declares none. */
  lemma StartChunkChangesPayload(rid: string, crc: seq<Byte> -> int, loose: Loose)
    requires DecodesCanonical(loose)
    ensures
      var start := Frame(Some(rid), false, Start, Some(Number(0)), Some(Text("Zg==")), Some(Number(0)),
                         Some(Number(0)), None);
      var end := Frame(Some(rid), false, End, None, None, None, None, None);
      var r := Outcome(rid, [start, end], crc);
      r.Accepted? && r.raw == [] && DumpPayload(r.frames, loose) != Some(r.raw)
  {
    var start := Frame(Some(rid), false, Start, Some(Number(0)), Some(Text("Zg==")), Some(Number(0)),
                       Some(Number(0)), None);
    var end := Frame(Some(rid), false, End, None, None, None, None, None);
    EmptyReplyHeard(rid, start, end);
    AcceptedIff(rid, [start, end], crc);
    PayloadIsCheckedIff(rid, [start, end], crc, loose);
    LetterDecodes(start);
    assert start in [start] && loose(Text("Zg==")) == Some([102]);
  }

  lemma EmptyReplyHeard(rid: string, start: Frame, end: Frame)
    requires start.rid == end.rid == Some(rid) && !start.failed && !end.failed && start.event == Start && Closes(end)
    ensures HeardOf(rid, [start, end]) == Heard([start], Some(end)) && Merged([start]) == []
  {
    assert [start, end][1..] == [end] && [end][1..] == [] && [start][1..] == [];
    assert Own(rid, [end]) == [end] && Own(rid, [start, end]) == [start, end];
    assert Hear([end]) == Heard([], Some(end));
  }

  lemma TwiceAccepted(rid: string, start: Frame, f: ChunkFrame, end: Frame, crc: seq<Byte> -> int)
    requires StartValid(start) && start.size == start.chunks == Some(Number(1)) && start.crc32.None? && !end.failed
    requires Agree([f, f]) && Complete([f, f], 1) && Assembled([f, f], 1) == [102]
    requires HeardOf(rid, [start, f, f, end]) == Heard([start, f, f], Some(end)) && Merged([start, f, f]) == [f, f]
    ensures var r := Outcome(rid, [start, f, f, end], crc); r.Accepted? && r.raw == [102]
  {
    AcceptedIff(rid, [start, f, f, end], crc);
  }

  lemma TwiceHeard(rid: string, start: Frame, f: ChunkFrame, end: Frame)
    requires start.rid == f.rid == end.rid == Some(rid) && !start.failed && !f.failed && !end.failed
    requires start.event == Start && !IsChunk(start) && f.event == OtherEvent && Closes(end)
    ensures HeardOf(rid, [start, f, f, end]) == Heard([start, f, f], Some(end))
  {
    var input := [start, f, f, end];
    assert input[1..] == [f, f, end] && [f, f, end][1..] == [f, end] && [f, end][1..] == [end] && [end][1..] == [];
    assert Own(rid, [end]) == [end] && Own(rid, [f, end]) == [f, end];
    assert Own(rid, [f, f, end]) == [f, f, end];
    assert Hear([end]) == Heard([], Some(end)) && Hear([f, end]) == Heard([f], Some(end));
    assert Hear([f, f, end]) == Heard([f, f], Some(end));
  }

  lemma TwiceMerged(start: Frame, f: ChunkFrame)
    requires !IsChunk(start) && f.event == OtherEvent
    ensures Merged([start, f, f]) == [f, f]
  {
    assert [start, f, f][1..] == [f, f] && [f, f][1..] == [f] && [f][1..] == [];
    assert Merged([]) == [];
    assert Merged([f]) == [f];
    assert Merged([f, f]) == [f, f];
  }
}

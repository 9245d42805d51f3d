/**
 Numbered pieces of data, as dump_payload of tools/cyberdeck_cli.py puts them together: sorted
 by number, and joined however often a number occurs.
 */
module Pieces {
  import opened Common

  datatype Piece = Piece(index: int, data: seq<Byte>)

  // ---------------------------------------------------------------- each number once

  /** Pieces of one number have the same data. */
  predicate Agree(ps: seq<Piece>) {
    forall p, q :: p in ps && q in ps && p.index == q.index ==> p.data == q.data
  }

  predicate HasIndex(ps: seq<Piece>, i: int) { exists p :: p in ps && p.index == i }

  /** The numbers are 0 up to `n`. */
  predicate Complete(ps: seq<Piece>, n: nat) {
    (forall p :: p in ps ==> 0 <= p.index < n) && (forall i :: 0 <= i < n ==> HasIndex(ps, i))
  }

  /** The data of the first piece of a number. */
  function DataAt(ps: seq<Piece>, i: int): seq<Byte> {
    if ps == [] then [] else if ps[0].index == i then ps[0].data else DataAt(ps[1..], i)
  }

  function Assembled(ps: seq<Piece>, n: nat): seq<Byte> {
    if n == 0 then [] else Assembled(ps, n - 1) + DataAt(ps, n - 1)
  }

  lemma {:induction false} DataAtAny(ps: seq<Piece>, p: Piece)
    requires Agree(ps) && p in ps
    ensures DataAt(ps, p.index) == p.data
  {
    if ps[0].index != p.index {
      assert forall q :: q in ps[1..] ==> q in ps;
      DataAtAny(ps[1..], p);
    }
  }

  lemma {:induction false} AssembledFollows(ps: seq<Piece>, qs: seq<Piece>, n: nat)
    requires forall i :: 0 <= i < n ==> DataAt(ps, i) == DataAt(qs, i)
    ensures Assembled(ps, n) == Assembled(qs, n)
  {
    if n > 0 {
      AssembledFollows(ps, qs, n - 1);
    }
  }

  // ---------------------------------------------------------------- sorting

  /** Inserts behind all pieces of no greater number. */
  function Insert(l: seq<Piece>, p: Piece): seq<Piece> {
    if l == [] || l[|l| - 1].index <= p.index then l + [p]
    else Insert(l[..|l| - 1], p) + [l[|l| - 1]]
  }

  /** A stable sort by number. */
  function Sort(ps: seq<Piece>): seq<Piece> {
    if ps == [] then [] else Insert(Sort(ps[..|ps| - 1]), ps[|ps| - 1])
  }

  function Concat(ps: seq<Piece>): seq<Byte> {
    if ps == [] then [] else Concat(ps[..|ps| - 1]) + ps[|ps| - 1].data
  }

  function Count(ps: seq<Piece>, i: int): nat {
    if ps == [] then 0 else Count(ps[..|ps| - 1], i) + if ps[|ps| - 1].index == i then 1 else 0
  }

  predicate Sorted(l: seq<Piece>) {
    l != [] ==> (forall p :: p in l[..|l| - 1] ==> p.index <= l[|l| - 1].index) && Sorted(l[..|l| - 1])
  }

  lemma Snoc(l: seq<Piece>, p: Piece)
    ensures (l + [p])[..|l|] == l && (l + [p])[|l|] == p
    ensures forall i :: Count(l + [p], i) == Count(l, i) + if p.index == i then 1 else 0
    ensures Concat(l + [p]) == Concat(l) + p.data
  {
    assert (l + [p])[..|l|] == l;
  }

  lemma SortedWithLast(l: seq<Piece>, p: Piece)
    requires Sorted(l) && (l != [] ==> l[|l| - 1].index <= p.index)
    ensures Sorted(l + [p])
  {
    assert (l + [p])[..|l|] == l;
    forall q | q in l ensures q.index <= p.index {
      assert q in l[..|l| - 1] || q == l[|l| - 1];
    }
  }

  lemma {:induction false} InsertSorts(l: seq<Piece>, p: Piece)
    requires Sorted(l)
    ensures Sorted(Insert(l, p))
    ensures forall q :: q in Insert(l, p) <==> q in l || q == p
    ensures forall i :: Count(Insert(l, p), i) == Count(l, i) + if p.index == i then 1 else 0
  {
    if l == [] || l[|l| - 1].index <= p.index {
      Snoc(l, p);
      SortedWithLast(l, p);
    } else {
      var last := l[|l| - 1];
      InsertSorts(l[..|l| - 1], p);
      Snoc(Insert(l[..|l| - 1], p), last);
      assert forall q :: q in l <==> q in l[..|l| - 1] || q == last;
    }
  }

  lemma {:induction false} SortSorts(ps: seq<Piece>)
    ensures Sorted(Sort(ps))
    ensures forall q :: q in Sort(ps) <==> q in ps
    ensures forall i :: Count(Sort(ps), i) == Count(ps, i)
  {
    if ps != [] {
      SortSorts(ps[..|ps| - 1]);
      InsertSorts(Sort(ps[..|ps| - 1]), ps[|ps| - 1]);
      assert forall q :: q in ps <==> q in ps[..|ps| - 1] || q == ps[|ps| - 1];
    }
  }

  // ---------------------------------------------------------------- joining sorted pieces

  function Repeated(d: seq<Byte>, k: nat): (r: seq<Byte>)
    ensures |r| == k * |d|
  {
    if k == 0 then []
    else
      assert k * |d| == (k - 1) * |d| + |d|;
      Repeated(d, k - 1) + d
  }

  /** The data of each number, as often as the number occurs in `l`. */
  function Blocks(l: seq<Piece>, ps: seq<Piece>, n: nat): seq<Byte> {
    if n == 0 then [] else Blocks(l, ps, n - 1) + Repeated(DataAt(ps, n - 1), Count(l, n - 1))
  }

  lemma {:induction false} BlocksFollowCounts(l: seq<Piece>, m: seq<Piece>, ps: seq<Piece>, n: nat)
    requires forall i :: 0 <= i < n ==> Count(l, i) == Count(m, i)
    ensures Blocks(l, ps, n) == Blocks(m, ps, n)
  {
    if n > 0 {
      BlocksFollowCounts(l, m, ps, n - 1);
    }
  }

  lemma {:induction false} CountsIfHas(l: seq<Piece>, i: int)
    ensures Count(l, i) > 0 <==> HasIndex(l, i)
  {
    if l != [] {
      var last := l[|l| - 1];
      CountsIfHas(l[..|l| - 1], i);
      assert forall p :: p in l <==> p in l[..|l| - 1] || p == last;
      assert HasIndex(l, i) <==> HasIndex(l[..|l| - 1], i) || last.index == i;
    }
  }

  /** One more piece of the last number. */
  lemma LastBlockGrows(m: seq<Piece>, p: Piece, ps: seq<Piece>, n: nat)
    requires n > 0 && p.index == n - 1 && p.data == DataAt(ps, n - 1) && Concat(m) == Blocks(m, ps, n)
    ensures Concat(m + [p]) == Blocks(m + [p], ps, n)
  {
    Snoc(m, p);
    BlocksFollowCounts(m + [p], m, ps, n - 1);
    OnceMore(Blocks(m, ps, n - 1), DataAt(ps, n - 1), Count(m, n - 1));
  }

  lemma OnceMore(b: seq<Byte>, d: seq<Byte>, k: nat)
    ensures (b + Repeated(d, k)) + d == b + Repeated(d, k + 1)
  {
    assert Repeated(d, k + 1) == Repeated(d, k) + d;
    assert (b + Repeated(d, k)) + d == b + (Repeated(d, k) + d);
  }

  /** No piece of the last number. */
  lemma LastBlockEmpty(l: seq<Piece>, ps: seq<Piece>, n: nat)
    requires n > 0 && Concat(l) == Blocks(l, ps, n - 1) && Count(l, n - 1) == 0
    ensures Concat(l) == Blocks(l, ps, n)
  {
  }

  predicate InBlocks(p: Piece, ps: seq<Piece>, n: nat) {
    0 <= p.index < n && p.data == DataAt(ps, p.index)
  }

  predicate AllInBlocks(l: seq<Piece>, ps: seq<Piece>, n: nat) {
    forall p :: p in l ==> InBlocks(p, ps, n)
  }

  lemma SortedBelow(l: seq<Piece>, ps: seq<Piece>, n: nat)
    requires n > 0 && Sorted(l) && AllInBlocks(l, ps, n) && (l != [] ==> l[|l| - 1].index != n - 1)
    ensures AllInBlocks(l, ps, n - 1) && Count(l, n - 1) == 0
  {
    forall p | p in l ensures InBlocks(p, ps, n - 1) {
      assert p in l[..|l| - 1] || p == l[|l| - 1];
      assert l[|l| - 1] in l;
    }
    CountsIfHas(l, n - 1);
  }

  lemma {:induction false} SortedIsBlocks(l: seq<Piece>, ps: seq<Piece>, n: nat)
    requires Sorted(l) && AllInBlocks(l, ps, n)
    ensures Concat(l) == Blocks(l, ps, n)
    decreases n, |l|
  {
    if l != [] && l[|l| - 1].index == n - 1 {
      var m, last := l[..|l| - 1], l[|l| - 1];
      assert last in l && l == m + [last];
      SortedIsBlocks(m, ps, n);
      LastBlockGrows(m, last, ps, n);
    } else if n > 0 {
      SortedBelow(l, ps, n);
      SortedIsBlocks(l, ps, n - 1);
      LastBlockEmpty(l, ps, n);
    } else {
      assert l != [] ==> InBlocks(l[0], ps, n);
    }
  }

  lemma {:induction false} RepeatedEmpty(k: nat)
    ensures Repeated([], k) == []
  {
  }

  lemma ProductIsOne(k: nat, m: nat)
    requires k >= 1
    ensures k * m >= m && (k * m == m <==> k == 1 || m == 0)
  {
    if k > 1 {
      assert k * m == m + (k - 1) * m;
    }
  }

  /** Whatever comes more than once has no data. */
  predicate RepeatsEmpty(ps: seq<Piece>, n: nat) {
    forall i :: 0 <= i < n && Count(ps, i) > 1 ==> DataAt(ps, i) == []
  }

  lemma SameEnds(b: seq<Byte>, r: seq<Byte>, a: seq<Byte>, d: seq<Byte>)
    requires |b| >= |a| && |r| >= |d|
    ensures b + r == a + d <==> b == a && r == d
  {
    if b + r == a + d {
      assert |b| == |a|;
      assert (b + r)[..|b|] == b && (a + d)[..|a|] == a;
      assert (b + r)[|b|..] == r && (a + d)[|a|..] == d;
    }
  }

  lemma RepeatedIsOnceIff(d: seq<Byte>, k: nat)
    requires k >= 1
    ensures |Repeated(d, k)| >= |d|
    ensures Repeated(d, k) == d <==> k == 1 || d == []
  {
    ProductIsOne(k, |d|);
    if k == 1 {
      assert Repeated(d, 1) == Repeated(d, 0) + d == d;
    }
    if d == [] {
      RepeatedEmpty(k);
    }
  }

  lemma {:induction false} BlocksAreAssembledIff(ps: seq<Piece>, n: nat)
    requires forall i :: 0 <= i < n ==> Count(ps, i) >= 1
    ensures |Blocks(ps, ps, n)| >= |Assembled(ps, n)|
    ensures Blocks(ps, ps, n) == Assembled(ps, n) <==> RepeatsEmpty(ps, n)
  {
    if n > 0 {
      var d, k := DataAt(ps, n - 1), Count(ps, n - 1);
      BlocksAreAssembledIff(ps, n - 1);
      RepeatedIsOnceIff(d, k);
      SameEnds(Blocks(ps, ps, n - 1), Repeated(d, k), Assembled(ps, n - 1), d);
    }
  }

  /** Sorting and joining pieces numbered 0 up to `n` gives each number's data once exactly when
      whatever comes more than once has none; so it does when nothing does. */
  lemma SortedIsAssembledIff(ps: seq<Piece>, n: nat)
    requires Agree(ps) && Complete(ps, n)
    ensures Concat(Sort(ps)) == Assembled(ps, n) <==> RepeatsEmpty(ps, n)
  {
    SortedAsBlocks(ps, n);
    BlocksAreAssembledIff(ps, n);
  }

  lemma SortedAsBlocks(ps: seq<Piece>, n: nat)
    requires Agree(ps) && Complete(ps, n)
    ensures Concat(Sort(ps)) == Blocks(ps, ps, n) && forall i :: 0 <= i < n ==> Count(ps, i) >= 1
  {
    SortSorts(ps);
    forall p | p in Sort(ps) ensures InBlocks(p, ps, n) {
      assert p in ps;
      DataAtAny(ps, p);
    }
    SortedIsBlocks(Sort(ps), ps, n);
    BlocksFollowCounts(Sort(ps), ps, ps, n);
    forall i | 0 <= i < n ensures Count(ps, i) >= 1 {
      assert HasIndex(ps, i);
      CountsIfHas(ps, i);
    }
  }

  // ---------------------------------------------------------------- more pieces than numbers

  /** The pieces that have data. */
  function Filled(ps: seq<Piece>): seq<Piece> {
    if ps == [] then []
    else Filled(ps[..|ps| - 1]) + if ps[|ps| - 1].data == [] then [] else [ps[|ps| - 1]]
  }

  lemma {:induction false} FilledOfMore(ps: seq<Piece>, qs: seq<Piece>)
    ensures Filled(ps + qs) == Filled(ps) + Filled(qs)
  {
    if qs == [] {
      assert ps + qs == ps;
    } else {
      var n := |qs| - 1;
      FilledOfMore(ps, qs[..n]);
      assert (ps + qs)[..|ps + qs| - 1] == ps + qs[..n];
    }
  }

  lemma FilledSnoc(l: seq<Piece>, p: Piece)
    ensures Filled(l + [p]) == Filled(l) + if p.data == [] then [] else [p]
  {
    assert (l + [p])[..|l|] == l;
  }

  lemma {:induction false} FilledConcats(l: seq<Piece>)
    ensures Concat(Filled(l)) == Concat(l)
  {
    if l != [] {
      var m, last := l[..|l| - 1], l[|l| - 1];
      FilledConcats(m);
      if last.data == [] {
        assert Filled(l) == Filled(m);
      } else {
        Snoc(Filled(m), last);
      }
    }
  }

  lemma {:induction false} FilledAreListed(l: seq<Piece>)
    ensures forall q :: q in Filled(l) ==> q in l
  {
    if l != [] {
      FilledAreListed(l[..|l| - 1]);
    }
  }

  lemma InsertBehind(l: seq<Piece>, p: Piece)
    requires forall q :: q in l ==> q.index <= p.index
    ensures Insert(l, p) == l + [p]
  {
    if l != [] {
      assert l[|l| - 1] in l;
    }
  }

  lemma {:induction false} FilledInsert(l: seq<Piece>, p: Piece)
    requires Sorted(l)
    ensures Filled(Insert(l, p)) == if p.data == [] then Filled(l) else Insert(Filled(l), p)
  {
    if l == [] || l[|l| - 1].index <= p.index {
      FilledWithLast(l, p);
    } else {
      FilledInsert(l[..|l| - 1], p);
      FilledBeforeLast(l[..|l| - 1], l[|l| - 1], p);
      assert l == l[..|l| - 1] + [l[|l| - 1]];
    }
  }

  lemma FilledWithLast(l: seq<Piece>, p: Piece)
    requires Sorted(l) && (l != [] ==> l[|l| - 1].index <= p.index)
    ensures Filled(Insert(l, p)) == if p.data == [] then Filled(l) else Insert(Filled(l), p)
  {
    FilledSnoc(l, p);
    FilledAreListed(l);
    forall q | q in l ensures q.index <= p.index {
      assert q in l[..|l| - 1] || q == l[|l| - 1];
    }
    InsertBehind(Filled(l), p);
  }

  lemma FilledBeforeLast(m: seq<Piece>, last: Piece, p: Piece)
    requires last.index > p.index
    requires Filled(Insert(m, p)) == if p.data == [] then Filled(m) else Insert(Filled(m), p)
    ensures Filled(Insert(m + [last], p)) ==
            if p.data == [] then Filled(m + [last]) else Insert(Filled(m + [last]), p)
  {
    InsertBefore(m, last, p);
    FilledSnoc(Insert(m, p), last);
    FilledSnoc(m, last);
    if last.data == [] {
      assert Filled(m + [last]) == Filled(m);
    } else {
      InsertBefore(Filled(m), last, p);
    }
  }

  lemma InsertBefore(l: seq<Piece>, last: Piece, p: Piece)
    requires last.index > p.index
    ensures Insert(l + [last], p) == Insert(l, p) + [last]
  {
    assert (l + [last])[..|l|] == l;
  }

  lemma {:induction false} FilledSort(ps: seq<Piece>)
    ensures Filled(Sort(ps)) == Sort(Filled(ps))
  {
    if ps != [] {
      var rest, last := ps[..|ps| - 1], ps[|ps| - 1];
      FilledSort(rest);
      SortSorts(rest);
      FilledInsert(Sort(rest), last);
      if last.data == [] {
        assert Filled(ps) == Filled(rest);
      } else {
        assert Filled(ps)[..|Filled(rest)|] == Filled(rest);
      }
    }
  }

  /** Pieces without data do not show. */
  lemma EmptyPiecesDoNotShow(ps: seq<Piece>, qs: seq<Piece>)
    requires Filled(ps) == Filled(qs)
    ensures Concat(Sort(ps)) == Concat(Sort(qs))
  {
    FilledSort(ps);
    FilledSort(qs);
    FilledConcats(Sort(ps));
    FilledConcats(Sort(qs));
  }

  /** How much data there is in all. */
  function Size(ps: seq<Piece>): nat {
    if ps == [] then 0 else Size(ps[..|ps| - 1]) + |ps[|ps| - 1].data|
  }

  lemma {:induction false} SizeOfMore(ps: seq<Piece>, qs: seq<Piece>)
    ensures Size(ps + qs) == Size(ps) + Size(qs)
  {
    if qs == [] {
      assert ps + qs == ps;
    } else {
      SizeOfMore(ps, qs[..|qs| - 1]);
      assert (ps + qs)[..|ps + qs| - 1] == ps + qs[..|qs| - 1];
    }
  }

  lemma {:induction false} SizeIsLength(l: seq<Piece>)
    ensures |Concat(l)| == Size(l)
  {
    if l != [] {
      SizeIsLength(l[..|l| - 1]);
    }
  }

  lemma SizeOfOne(p: Piece)
    ensures Size([p]) == |p.data| && Filled([p]) == if p.data == [] then [] else [p]
  {
    assert [p][..0] == [];
  }

  lemma {:induction false} InsertAddsSize(l: seq<Piece>, p: Piece)
    ensures Size(Insert(l, p)) == Size(l) + |p.data|
  {
    if l == [] || l[|l| - 1].index <= p.index {
      SizeOfMore(l, [p]);
      SizeOfOne(p);
    } else {
      var m, last := l[..|l| - 1], l[|l| - 1];
      InsertAddsSize(m, p);
      SizeOfMore(Insert(m, p), [last]);
      SizeOfOne(last);
    }
  }

  lemma {:induction false} SortKeepsSize(ps: seq<Piece>)
    ensures |Concat(Sort(ps))| == Size(ps)
  {
    SizeIsLength(Sort(ps));
    if ps != [] {
      var rest, last := ps[..|ps| - 1], ps[|ps| - 1];
      SortKeepsSize(rest);
      SizeIsLength(Sort(rest));
      InsertAddsSize(Sort(rest), last);
    }
  }

  /** Beside pieces that are assembled there may be others, `all` with them: these show as soon
      as one of them has data. */
  lemma MoreIsAssembledIff(all: seq<Piece>, ps: seq<Piece>, n: nat)
    requires Agree(ps) && Complete(ps, n)
    requires Size(all) >= Size(ps) && (Size(all) == Size(ps) ==> Filled(all) == Filled(ps))
    ensures Concat(Sort(all)) == Assembled(ps, n) <==> RepeatsEmpty(ps, n) && Size(all) == Size(ps)
  {
    SortedIsAssembledIff(ps, n);
    SortKeepsSize(all);
    SortKeepsSize(ps);
    AssembledFits(ps, n);
    if Size(all) == Size(ps) {
      EmptyPiecesDoNotShow(all, ps);
    }
  }

  lemma AssembledFits(ps: seq<Piece>, n: nat)
    requires Agree(ps) && Complete(ps, n)
    ensures |Assembled(ps, n)| <= |Concat(Sort(ps))|
  {
    SortedAsBlocks(ps, n);
    BlocksAreAssembledIff(ps, n);
  }

  /** Two pieces alike are assembled as one, and count as a repeat. */
  lemma TwoAlike(p: Piece)
    requires p.index == 0 && p.data != []
    ensures Assembled([p, p], 1) == p.data && !RepeatsEmpty([p, p], 1)
  {
    assert Assembled([p, p], 0) == [] && [] + p.data == p.data;
    Snoc([], p);
    Snoc([p], p);
    assert [] + [p] == [p] && [p] + [p] == [p, p];
    assert Count([p, p], 0) == 2 && DataAt([p, p], 0) == p.data;
  }
}

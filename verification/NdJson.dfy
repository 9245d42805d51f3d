/**
 The frame reader _iter_frames of tools/cyberdeck_cli.py: lines are put together from reads that
 may split or join them anywhere. Parsing a line is any function of its bytes.
 */
module NdJson {
  import opened Common

  const NEWLINE: Byte := 10

  // ---------------------------------------------------------------- lines

  /** The index of the first newline, or the length. */
  function LineEnd(s: seq<Byte>): (i: nat)
    ensures i <= |s| && (i < |s| ==> s[i] == NEWLINE) && (forall k :: 0 <= k < i ==> s[k] != NEWLINE)
  {
    if s == [] || s[0] == NEWLINE then 0 else 1 + LineEnd(s[1..])
  }

  /** The terminated lines of a text, without their newlines, and what comes after the last. */
  function Lines(s: seq<Byte>): seq<seq<Byte>>
    decreases |s|
  {
    var i := LineEnd(s);
    if i == |s| then [] else [s[..i]] + Lines(s[i + 1..])
  }

  function Tail(s: seq<Byte>): seq<Byte>
    decreases |s|
  {
    var i := LineEnd(s);
    if i == |s| then s else Tail(s[i + 1..])
  }

  /** A text made of lines, each terminated, and an unterminated tail. */
  function Text(lines: seq<seq<Byte>>, tail: seq<Byte>): seq<Byte> {
    if lines == [] then tail else lines[0] + [NEWLINE] + Text(lines[1..], tail)
  }

  predicate Unbroken(s: seq<Byte>) { NEWLINE !in s }

  lemma LineEndIs(line: seq<Byte>, rest: seq<Byte>)
    requires Unbroken(line)
    ensures LineEnd(line + [NEWLINE] + rest) == |line|
  {
    var s := line + [NEWLINE] + rest;
    assert s[|line|] == NEWLINE;
    forall k | 0 <= k < |line| ensures s[k] != NEWLINE {
      assert s[k] == line[k];
    }
  }

  /** A first line comes off. */
  lemma LineComesOff(line: seq<Byte>, rest: seq<Byte>)
    requires Unbroken(line)
    ensures
      var s := line + [NEWLINE] + rest;
      Lines(s) == [line] + Lines(rest) && Tail(s) == Tail(rest)
  {
    LineEndIs(line, rest);
    var s := line + [NEWLINE] + rest;
    assert s[..|line|] == line && s[|line| + 1..] == rest;
  }

  lemma {:induction false} NoLineEnd(s: seq<Byte>)
    ensures LineEnd(s) == |s| <==> Unbroken(s)
  {
    if LineEnd(s) < |s| {
      assert s[LineEnd(s)] in s;
    }
  }

  /** Lines and Tail are the only way to read a text as lines and a tail. */
  lemma {:induction false} LinesAreUnique(lines: seq<seq<Byte>>, tail: seq<Byte>)
    requires Unbroken(tail) && forall l :: l in lines ==> Unbroken(l)
    ensures Lines(Text(lines, tail)) == lines && Tail(Text(lines, tail)) == tail
  {
    if lines == [] {
      NoLineEnd(tail);
    } else {
      LinesAreUnique(lines[1..], tail);
      LineComesOff(lines[0], Text(lines[1..], tail));
      assert [lines[0]] + lines[1..] == lines;
    }
  }

  lemma {:induction false} TextOfLines(s: seq<Byte>)
    ensures Text(Lines(s), Tail(s)) == s
    ensures Unbroken(Tail(s)) && forall l :: l in Lines(s) ==> Unbroken(l)
    decreases |s|
  {
    var i := LineEnd(s);
    if i == |s| {
      NoLineEnd(s);
    } else {
      TextOfLines(s[i + 1..]);
      assert s == s[..i] + [NEWLINE] + s[i + 1..];
      assert Unbroken(s[..i]);
    }
  }

  lemma {:induction false} TextAppends(lines: seq<seq<Byte>>, tail: seq<Byte>, more: seq<Byte>)
    ensures Text(lines, tail) + more == Text(lines, tail + more)
  {
    if lines != [] {
      TextAppends(lines[1..], tail, more);
      var line := lines[0] + [NEWLINE];
      assert line + Text(lines[1..], tail) + more == line + (Text(lines[1..], tail) + more);
    }
  }

  lemma {:induction false} TextNests(a: seq<seq<Byte>>, b: seq<seq<Byte>>, tail: seq<Byte>)
    ensures Text(a, Text(b, tail)) == Text(a + b, tail)
  {
    if a == [] {
      assert a + b == b;
    } else {
      TextNests(a[1..], b, tail);
      assert (a + b)[0] == a[0] && (a + b)[1..] == a[1..] + b;
    }
  }

  /** What is read later only completes the tail. */
  lemma LinesOfMore(s: seq<Byte>, more: seq<Byte>)
    ensures Lines(s + more) == Lines(s) + Lines(Tail(s) + more)
    ensures Tail(s + more) == Tail(Tail(s) + more)
  {
    var t := Tail(s) + more;
    TextOfLines(s);
    TextOfLines(t);
    TextAppends(Lines(s), Tail(s), more);
    TextNests(Lines(s), Lines(t), Tail(t));
    LinesAreUnique(Lines(s) + Lines(t), Tail(t));
  }

  // ---------------------------------------------------------------- frames

  /** The objects among the lines; None stands for a line that is none, whatever else it is. */
  function Objects<F>(lines: seq<seq<Byte>>, parse: seq<Byte> -> Option<F>): seq<F> {
    if lines == [] then []
    else
      var rest := Objects(lines[1..], parse);
      match parse(lines[0])
      case None => rest
      case Some(f) => [f] + rest
  }

  lemma {:induction false} ObjectsAdd<F>(a: seq<seq<Byte>>, b: seq<seq<Byte>>, parse: seq<Byte> -> Option<F>)
    ensures Objects(a + b, parse) == Objects(a, parse) + Objects(b, parse)
  {
    if a == [] {
      assert a + b == b;
    } else {
      ObjectsAdd(a[1..], b, parse);
      assert (a + b)[0] == a[0] && (a + b)[1..] == a[1..] + b;
      match parse(a[0]) {
        case None =>
        case Some(f) =>
          var rest := Objects(a[1..], parse);
          assert [f] + (rest + Objects(b, parse)) == ([f] + rest) + Objects(b, parse);
      }
    }
  }

  /** Each line that is an object gives its frame at its place; any other line gives none. */
  lemma EachObjectIsAFrame<F>(lines: seq<seq<Byte>>, k: nat, parse: seq<Byte> -> Option<F>)
    requires k < |lines|
    ensures
      var before, after := Objects(lines[..k], parse), Objects(lines[k + 1..], parse);
      Objects(lines, parse) ==
      match parse(lines[k]) case None => before + after case Some(f) => before + [f] + after
  {
    assert lines == lines[..k] + lines[k..] && lines[k..][1..] == lines[k + 1..];
    ObjectsAdd(lines[..k], lines[k..], parse);
    if parse(lines[k]).Some? {
      var before, after := Objects(lines[..k], parse), Objects(lines[k + 1..], parse);
      assert before + ([parse(lines[k]).value] + after) == before + [parse(lines[k]).value] + after;
    }
  }

  /** All bytes before the first empty read, which ends the reading. */
  function Stream(raws: seq<seq<Byte>>): seq<Byte> {
    if raws == [] || raws[0] == [] then [] else raws[0] + Stream(raws[1..])
  }

  /** The frames given out for the reads to come, after bytes still pending. */
  function Fed<F>(raws: seq<seq<Byte>>, pending: seq<Byte>, parse: seq<Byte> -> Option<F>): seq<F> {
    if raws == [] || raws[0] == [] then []
    else
      var s := pending + raws[0];
      Objects(Lines(s), parse) + Fed(raws[1..], Tail(s), parse)
  }

  lemma FedUnfolds<F>(raws: seq<seq<Byte>>, i: nat, pending: seq<Byte>, parse: seq<Byte> -> Option<F>, frames: seq<F>)
    requires i < |raws| && raws[i] != []
    ensures
      var s := pending + raws[i];
      frames + Fed(raws[i..], pending, parse) == frames + Objects(Lines(s), parse) + Fed(raws[i + 1..], Tail(s), parse)
  {
    assert raws[i..][1..] == raws[i + 1..];
  }

  /** _iter_frames, to its end. */
  method IterFrames<F>(raws: seq<seq<Byte>>, parse: seq<Byte> -> Option<F>) returns (frames: seq<F>)
    ensures frames == Fed(raws, [], parse)
  {
    frames := [];
    var pending: seq<Byte> := [];
    var i := 0;
    while i < |raws| && raws[i] != []
      invariant 0 <= i <= |raws|
      invariant Fed(raws, [], parse) == frames + Fed(raws[i..], pending, parse)
    {
      FedUnfolds(raws, i, pending, parse, frames);
      var taken, left := TakeLines(pending + raws[i], parse);
      frames, pending := frames + taken, left;
      i := i + 1;
    }
  }

  /** The inner loop: takes the terminated lines off what is pending. */
  method TakeLines<F>(pending: seq<Byte>, parse: seq<Byte> -> Option<F>) returns (frames: seq<F>, left: seq<Byte>)
    ensures frames == Objects(Lines(pending), parse) && left == Tail(pending)
  {
    frames, left := [], pending;
    while NEWLINE in left
      invariant Tail(left) == Tail(pending)
      invariant Objects(Lines(pending), parse) == frames + Objects(Lines(left), parse)
      decreases |left|
    {
      var i := LineEnd(left);
      NoLineEnd(left);
      var f := parse(left[..i]);
      assert ([left[..i]] + Lines(left[i + 1..]))[1..] == Lines(left[i + 1..]);
      left := left[i + 1..];
      if f.Some? {
        frames := frames + [f.value];
      }
    }
    NoLineEnd(left);
  }

  /** The frames are the objects among the terminated lines of all that was read. */
  lemma {:induction false} FramesAreObjects<F>(raws: seq<seq<Byte>>, pending: seq<Byte>, parse: seq<Byte> -> Option<F>)
    requires Unbroken(pending)
    ensures Fed(raws, pending, parse) == Objects(Lines(pending + Stream(raws)), parse)
    decreases |raws|
  {
    if raws == [] || raws[0] == [] {
      assert pending + [] == pending;
      NoLineEnd(pending);
    } else {
      var s, rest := pending + raws[0], Stream(raws[1..]);
      assert pending + Stream(raws) == s + rest;
      TextOfLines(s);
      FramesAreObjects(raws[1..], Tail(s), parse);
      LinesOfMore(s, rest);
      ObjectsAdd(Lines(s), Lines(Tail(s) + rest), parse);
    }
  }

  /** Any two ways of reading the same bytes give the same frames. */
  lemma FragmentationDoesNotMatter<F>(raws: seq<seq<Byte>>, others: seq<seq<Byte>>, parse: seq<Byte> -> Option<F>)
    requires Stream(raws) == Stream(others)
    ensures Fed(raws, [], parse) == Fed(others, [], parse) == Objects(Lines(Stream(raws)), parse)
  {
    FramesAreObjects(raws, [], parse);
    FramesAreObjects(others, [], parse);
    assert [] + Stream(raws) == Stream(raws);
  }
}

/**
 The split transfer of lvgl_port_flush_callback
 (components/esp_lvgl_port/src/lvgl8/esp_lvgl_port_disp.c): an area is copied through a
 transport buffer in groups of whole rows.
 */
module SplitFlush {
  import opened Arith

  /** lv_area_t, both ends included. */
  datatype Area = Area(x1: int, y1: int, x2: int, y2: int) {
    function Width(): int { x2 - x1 + 1 }

    function Height(): int { y2 - y1 + 1 }
  }

  /** A call of esp_lcd_panel_draw_bitmap: the area it names, whose ends its arguments exclude,
      and the pixels it finds in the buffer. */
  datatype Draw<Color> = Draw(area: Area, pixels: seq<Color>)

  /** The area has pixels, and the buffer holds a row of it. */
  predicate Splittable(a: Area, size: nat) {
    a.Width() > 0 && a.Height() > 0 && size >= a.Width()
  }

  function MaxLine(a: Area, size: nat): (m: nat)
    requires Splittable(a, size)
    ensures 1 <= m <= a.Height() && m * a.Width() <= size
  {
    RowsFit(size, a.Width());
    if size / a.Width() > a.Height() then
      (Monotone(a.Height(), size / a.Width(), a.Width()); a.Height())
    else size / a.Width()
  }

  function TransCount(a: Area, size: nat): nat
    requires Splittable(a, size)
  {
    a.Height() / MaxLine(a, size) + if a.Height() % MaxLine(a, size) != 0 then 1 else 0
  }

  // ---------------------------------------------------------------- rows

  lemma RowsFit(size: nat, w: nat)
    requires w > 0
    ensures size / w * w <= size && (size >= w ==> size / w >= 1)
  {
  }

  lemma RowAdds(row: nat, w: nat)
    ensures (row + 1) * w == row * w + w
  {
  }

  /** Groups of `m` rows, the last one perhaps smaller, cover `h` rows. */
  lemma GroupsCover(h: nat, m: nat, count: nat)
    requires h > 0 && m > 0 && count == h / m + if h % m != 0 then 1 else 0
    ensures count >= 1 && (count - 1) * m < h <= count * m
  {
    var q := h / m;
    assert h == q * m + h % m;
    if h % m != 0 {
      RowAdds(q, m);
    } else {
      assert q >= 1;
      RowAdds(q - 1, m);
    }
  }

  /** The first row of group `i`, and the one after its last. */
  function FirstRow(a: Area, size: nat, i: nat): nat
    requires Splittable(a, size)
  {
    i * MaxLine(a, size)
  }

  function EndRow(a: Area, size: nat, i: nat): nat
    requires Splittable(a, size)
  {
    var end := FirstRow(a, size, i) + MaxLine(a, size);
    if end < a.Height() then end else a.Height()
  }

  lemma GroupHasRows(a: Area, size: nat, i: nat)
    requires Splittable(a, size) && i < TransCount(a, size)
    ensures FirstRow(a, size, i) < EndRow(a, size, i) <= a.Height()
    ensures EndRow(a, size, i) * a.Width() <= a.Height() * a.Width()
    ensures FirstRow(a, size, i) * a.Width() <= EndRow(a, size, i) * a.Width()
  {
    var m := MaxLine(a, size);
    GroupsCover(a.Height(), m, TransCount(a, size));
    Monotone(i, TransCount(a, size) - 1, m);
    Monotone(EndRow(a, size, i), a.Height(), a.Width());
    Monotone(FirstRow(a, size, i), EndRow(a, size, i), a.Width());
  }

  /** What transfer `i` is to be: its rows of the area, and their pixels of the source. */
  function Transfer<Color>(a: Area, size: nat, from: seq<Color>, i: nat): Draw<Color>
    requires Splittable(a, size) && |from| >= a.Height() * a.Width() && i < TransCount(a, size)
  {
    GroupHasRows(a, size, i);
    var first, end := FirstRow(a, size, i), EndRow(a, size, i);
    Draw(Area(a.x1, a.y1 + first, a.x2, a.y1 + end - 1), from[first * a.Width()..end * a.Width()])
  }

  // ---------------------------------------------------------------- main results

  lemma Difference(end: nat, first: nat, w: nat)
    requires first <= end
    ensures end * w - first * w == (end - first) * w
  {
  }

  /** Each transfer has a pixel for each place it names, and fits the buffer. */
  lemma TransferFits<Color>(a: Area, size: nat, from: seq<Color>, i: nat)
    requires Splittable(a, size) && |from| >= a.Height() * a.Width() && i < TransCount(a, size)
    ensures
      var t := Transfer(a, size, from, i);
      |t.pixels| == t.area.Height() * t.area.Width() && 0 < |t.pixels| <= size
  {
    var first, end := FirstRow(a, size, i), EndRow(a, size, i);
    GroupHasRows(a, size, i);
    Difference(end, first, a.Width());
    Monotone(1, end - first, a.Width());
    Monotone(end - first, MaxLine(a, size), a.Width());
  }

  /** The first transfer starts at the top of the area, the last ends at its bottom, each goes
      on where the one before stopped, and all are as wide as the area. */
  lemma TransfersFollow<Color>(a: Area, size: nat, from: seq<Color>, i: nat)
    requires Splittable(a, size) && |from| >= a.Height() * a.Width() && i < TransCount(a, size)
    ensures
      var t := Transfer(a, size, from, i).area;
      && t.x1 == a.x1 && t.x2 == a.x2 && a.y1 <= t.y1 <= t.y2 <= a.y2
      && (i == 0 ==> t.y1 == a.y1)
      && (i == TransCount(a, size) - 1 ==> t.y2 == a.y2)
      && (i + 1 < TransCount(a, size) ==> Transfer(a, size, from, i + 1).area.y1 == t.y2 + 1)
  {
    GroupHasRows(a, size, i);
    GroupsCover(a.Height(), MaxLine(a, size), TransCount(a, size));
    RowAdds(i, MaxLine(a, size));
    if i + 1 < TransCount(a, size) {
      GroupHasRows(a, size, i + 1);
    }
  }

  predicate InRows(t: Area, y: int) { t.y1 <= y <= t.y2 }

  /** Which group a row is in. */
  lemma RowIsInGroup(row: nat, m: nat, i: nat)
    requires m > 0
    ensures i * m <= row < i * m + m <==> i == row / m
  {
    var q := row / m;
    assert row == q * m + row % m;
    Difference(if q > i then q else i, if q > i then i else q, m);
    NonzeroMultipleIsFar(q - i, m);
  }

  lemma GroupIsBelow(row: nat, m: nat, i: nat, count: nat)
    requires i * m <= row < count * m
    ensures i < count
  {
    if i >= count {
      Monotone(count, i, m);
    }
  }

  lemma RowOfTransfer<Color>(a: Area, size: nat, from: seq<Color>, k: nat, y: int, i: int)
    requires Splittable(a, size) && |from| >= a.Height() * a.Width() && k < TransCount(a, size) && a.y1 <= y <= a.y2
    requires i == (y - a.y1) / MaxLine(a, size)
    ensures InRows(Transfer(a, size, from, k).area, y) <==> k == i
  {
    RowIsInGroup(y - a.y1, MaxLine(a, size), k);
  }

  lemma GroupOfRow(a: Area, size: nat, y: int) returns (i: nat)
    requires Splittable(a, size) && a.y1 <= y <= a.y2
    ensures i == (y - a.y1) / MaxLine(a, size) && i < TransCount(a, size)
  {
    var m, row := MaxLine(a, size), y - a.y1;
    i := row / m;
    GroupsCover(a.Height(), m, TransCount(a, size));
    RowIsInGroup(row, m, i);
    GroupIsBelow(row, m, i, TransCount(a, size));
  }

  /** Transfer `i`, and no other, sends row `y`. */
  predicate OnlyIn<Color>(a: Area, size: nat, from: seq<Color>, y: int, i: nat)
    requires Splittable(a, size) && |from| >= a.Height() * a.Width()
  {
    && i < TransCount(a, size)
    && forall k :: 0 <= k < TransCount(a, size) ==> (InRows(Transfer(a, size, from, k).area, y) <==> k == i)
  }

  /** Each row of the area is sent by exactly one transfer. */
  lemma EachRowIsSentOnce<Color>(a: Area, size: nat, from: seq<Color>, y: int)
    requires Splittable(a, size) && |from| >= a.Height() * a.Width() && a.y1 <= y <= a.y2
    ensures exists i: nat :: OnlyIn(a, size, from, y, i)
  {
    var i := GroupOfRow(a, size, y);
    forall k | 0 <= k < TransCount(a, size) ensures InRows(Transfer(a, size, from, k).area, y) <==> k == i {
      RowOfTransfer(a, size, from, k, y, i);
    }
    assert OnlyIn(a, size, from, y, i);
  }

  /** A group of rows that fits the buffer is no larger than MaxLine, or the area is not. */
  lemma NoMoreRowsFit(a: Area, size: nat, m: nat)
    requires Splittable(a, size) && m * a.Width() <= size
    ensures m <= MaxLine(a, size) || a.Height() == MaxLine(a, size)
  {
    var q := size / a.Width();
    assert size == q * a.Width() + size % a.Width();
    if m > q {
      RowAdds(q, a.Width());
      Monotone(q + 1, m, a.Width());
    }
  }

  /** No split into groups of rows that fit the buffer takes fewer transfers. */
  lemma FewestTransfers(a: Area, size: nat, m: nat, n: nat)
    requires Splittable(a, size) && m * a.Width() <= size && n * m >= a.Height()
    ensures TransCount(a, size) <= n
  {
    NoMoreRowsFit(a, size, m);
    GroupsAreFewest(a.Height(), MaxLine(a, size), TransCount(a, size), m, n);
  }

  lemma GroupsAreFewest(h: nat, most: nat, count: nat, m: nat, n: nat)
    requires h > 0 && most > 0 && count == h / most + if h % most != 0 then 1 else 0
    requires n * m >= h && (m <= most || h == most)
    ensures count <= n
  {
    GroupsCover(h, most, count);
    if count > n {
      Monotone(n, count - 1, most);
      if m <= most {
        Monotone(m, most, n);
      }
    }
  }

  predicate InArea(a: Area, x: int, y: int) { a.x1 <= x <= a.x2 && a.y1 <= y <= a.y2 }

  /** An area has a place for each of its pixels, row by row, and its pixels are these places. */
  lemma PlacesAreRowByRow(a: Area, k: nat)
    requires a.Width() > 0
    ensures k < a.Height() * a.Width() ==> InArea(a, a.x1 + k % a.Width(), a.y1 + k / a.Width())
    ensures forall x, y :: InArea(a, x, y) ==>
      (k == (y - a.y1) * a.Width() + (x - a.x1) <==> x == a.x1 + k % a.Width() && y == a.y1 + k / a.Width())
  {
    var w := a.Width();
    assert k == k / w * w + k % w;
    if k < a.Height() * w && k / w >= a.Height() {
      Monotone(a.Height(), k / w, w);
    }
    forall x, y | InArea(a, x, y)
      ensures k == (y - a.y1) * w + (x - a.x1) <==> x == a.x1 + k % w && y == a.y1 + k / w
    {
      RowIsInGroup(k, w, y - a.y1);
    }
  }

  /** The pixel that a transfer has for a place of the area is that of the source. */
  lemma PixelsAreOfSource<Color>(a: Area, size: nat, from: seq<Color>, i: nat, x: int, y: int)
    requires Splittable(a, size) && |from| >= a.Height() * a.Width() && i < TransCount(a, size)
    requires a.x1 <= x <= a.x2 && InRows(Transfer(a, size, from, i).area, y)
    ensures
      var t := Transfer(a, size, from, i);
      var p, q := (y - t.area.y1) * a.Width() + (x - a.x1), (y - a.y1) * a.Width() + (x - a.x1);
      0 <= p < |t.pixels| && 0 <= q < |from| && t.pixels[p] == from[q]
  {
    GroupHasRows(a, size, i);
    PixelIsIn(FirstRow(a, size, i), EndRow(a, size, i), a.Height(), y - a.y1, a.Width(), x - a.x1, from);
  }

  lemma PixelIsIn<Color>(first: nat, end: nat, h: nat, row: nat, w: nat, x: nat, from: seq<Color>)
    requires first <= row < end <= h && x < w && |from| >= h * w
    ensures first * w <= end * w <= |from|
    ensures 0 <= (row - first) * w + x < end * w - first * w
    ensures 0 <= row * w + x < |from| && from[first * w..end * w][(row - first) * w + x] == from[row * w + x]
  {
    Monotone(end, h, w);
    Monotone(row + 1, end, w);
    Monotone(first, row, w);
    RowAdds(row, w);
    Difference(row, first, w);
  }

  // ---------------------------------------------------------------- the callback

  /** The copying loops: `lines` rows of the source from `off` on. */
  method CopyRows<Color>(to: array<Color>, from: seq<Color>, off: nat, lines: nat, width: nat)
    requires lines * width <= to.Length && off + lines * width <= |from|
    modifies to
    ensures to[..lines * width] == from[off..off + lines * width]
  {
    var y := 0;
    while y < lines
      invariant 0 <= y <= lines && y * width <= lines * width
      invariant forall k :: 0 <= k < y * width ==> to[k] == from[off + k]
    {
      Monotone(y + 1, lines, width);
      RowAdds(y, width);
      ghost var row := y * width;
      var x := 0;
      while x < width
        invariant 0 <= x <= width && row == y * width
        invariant forall k :: 0 <= k < row + x ==> to[k] == from[off + k]
      {
        to[y * width + x] := from[off + y * width + x];
        x := x + 1;
      }
      y := y + 1;
    }
  }

  /** lvgl_port_flush_callback with a transport buffer: it draws the transfers, in order. */
  method Flush<Color>(a: Area, size: nat, from: seq<Color>, to: array<Color>) returns (draws: seq<Draw<Color>>)
    requires Splittable(a, size) && |from| >= a.Height() * a.Width() && to.Length == size
    modifies to
    ensures |draws| == TransCount(a, size)
    ensures forall i :: 0 <= i < |draws| ==> draws[i] == Transfer(a, size, from, i)
  {
    draws := [];
    var yStart, offset := a.y1, 0;
    var maxLine := MaxLine(a, size);
    var transCount := TransCount(a, size);
    for i := 0 to transCount
      invariant |draws| == i && forall k :: 0 <= k < i ==> draws[k] == Transfer(a, size, from, k)
      invariant yStart == a.y1 + FirstRow(a, size, i) && offset == FirstRow(a, size, i) * a.Width()
    {
      GroupHasRows(a, size, i);
      var left := a.y2 - yStart + 1;
      var transLine := if left > maxLine then maxLine else left;
      var yEnd := if left > maxLine then yStart + maxLine - 1 else a.y2;
      Difference(EndRow(a, size, i), FirstRow(a, size, i), a.Width());
      Monotone(transLine, maxLine, a.Width());
      CopyRows(to, from, offset, transLine, a.Width());
      draws := draws + [Draw(Area(a.x1, yStart, a.x2, yEnd), to[..transLine * a.Width()])];
      RowAdds(i, maxLine);
      Difference(FirstRow(a, size, i + 1), FirstRow(a, size, i), a.Width());
      offset := offset + maxLine * a.Width();
      yStart := yStart + maxLine;
    }
  }
}

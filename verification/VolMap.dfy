/**
 Volume registers and volume curves, over exact numbers for float:
 components/esp_codec_dev/esp_codec_dev_vol.c, and _get_vol_db of
 components/esp_codec_dev/esp_codec_dev.c.
 */
module VolMap {

  /** `x` along a line that rises by `rise` over `run`. */
  function Scale(x: real, rise: real, run: real): real
    requires run != 0.0
  {
    x * (rise / run)
  }

  // ---------------------------------------------------------------- exact numbers

  lemma Cancels(y: real, d: real)
    requires y * d == d && d != 0.0
    ensures y == 1.0
  {
    assert (y - 1.0) * d == 0.0;
  }

  lemma InverseRatios(x: real, q: real, p: real, d: real, v: real)
    requires q * v == d && p * d == v && d != 0.0
    ensures (x * q) * p == x
  {
    calc {
      (q * p) * d;
      q * (p * d);
      q * v;
      d;
    }
    Cancels(q * p, d);
    calc {
      (x * q) * p;
      x * (q * p);
      x;
    }
  }

  /** Scaling one way and back. */
  lemma ScaleBack(x: real, d: real, v: real)
    requires d != 0.0 && v != 0.0
    ensures Scale(Scale(x, d, v), v, d) == x
  {
    InverseRatios(x, d / v, v / d, d, v);
  }

  lemma Grows(a: real, b: real, q: real)
    requires a < b && q > 0.0
    ensures a * q < b * q
  {
  }

  lemma Negates(a: real, q: real)
    ensures a * -q == -(a * q)
  {
  }

  /** Scaling keeps the order, and turns it round when the line falls. */
  lemma ScaleOrders(a: real, b: real, d: real, v: real)
    requires a < b && d != 0.0 && v != 0.0
    ensures (d > 0.0) == (v > 0.0) ==> Scale(a, d, v) < Scale(b, d, v)
    ensures (d > 0.0) != (v > 0.0) ==> Scale(a, d, v) > Scale(b, d, v)
  {
    var q := d / v;
    assert q * v == d;
    if q > 0.0 {
      Grows(a, b, q);
    } else {
      Grows(a, b, -q);
      Negates(a, q);
      Negates(b, q);
    }
  }

  lemma ScaleEnds(d: real, v: real)
    requires v != 0.0
    ensures Scale(v, d, v) == d && Scale(0.0, d, v) == 0.0
  {
    assert (d / v) * v == d;
  }

  lemma ScaleAdds(a: real, b: real, d: real, v: real)
    requires v != 0.0
    ensures Scale(a + b, d, v) == Scale(a, d, v) + Scale(b, d, v)
  {
  }

  // ---------------------------------------------------------------- registers

  /** esp_codec_dev_vol_range_t: the registers and decibel values of both ends. */
  datatype VolRange = VolRange(minVol: int, minDb: real, maxVol: int, maxDb: real) {
    function Registers(): real { maxVol as real - minVol as real }

    function Decibels(): real { maxDb - minDb }
  }

  /** Conversion to int cuts towards zero. */
  function Truncated(x: real): int {
    if x >= 0.0 then x.Floor else -((-x).Floor)
  }

  /** esp_codec_dev_vol_calc_reg */
  function RegOf(r: VolRange, db: real): int {
    if r.maxDb == r.minDb then r.maxVol
    else if db >= r.maxDb then r.maxVol
    else if db <= r.minDb then r.minVol
    else Truncated(Scale(db - r.minDb, r.Registers(), r.Decibels()) + r.minVol as real)
  }

  /** esp_codec_dev_vol_calc_db */
  function DbOf(r: VolRange, vol: int): real {
    if r.maxVol == r.minVol then r.maxDb
    else if r.maxVol > r.minVol && vol >= r.maxVol then r.maxDb
    else if r.maxVol > r.minVol && vol <= r.minVol then r.minDb
    else if r.maxVol < r.minVol && vol <= r.maxVol then r.maxDb
    else if r.maxVol < r.minVol && vol >= r.minVol then r.minDb
    else Scale(vol as real - r.minVol as real, r.Decibels(), r.Registers()) + r.minDb
  }

  /** In either orientation. */
  predicate InRange(r: VolRange, vol: int) {
    r.minVol <= vol <= r.maxVol || r.maxVol <= vol <= r.minVol
  }

  lemma InteriorComesBack(r: VolRange, vol: int)
    requires r.minDb < r.maxDb && InRange(r, vol) && vol != r.minVol && vol != r.maxVol
    ensures RegOf(r, DbOf(r, vol)) == vol
  {
    var d, v, x := r.Decibels(), r.Registers(), vol as real - r.minVol as real;
    ScaleEnds(d, v);
    if v > 0.0 {
      ScaleOrders(0.0, x, d, v);
      ScaleOrders(x, v, d, v);
    } else {
      ScaleOrders(x, 0.0, d, v);
      ScaleOrders(v, x, d, v);
    }
    ScaleBack(x, d, v);
    var y := Scale(x, d, v);
    assert DbOf(r, vol) - r.minDb == y;
    assert Truncated(Scale(y, v, d) + r.minVol as real) == vol;
  }

  /** Every register in range comes back from its decibel value exactly when the decibel
      values increase from end to end, or there is but one register. */
  lemma RegistersComeBackIff(r: VolRange)
    ensures (forall vol :: InRange(r, vol) ==> RegOf(r, DbOf(r, vol)) == vol) <==>
            r.minDb < r.maxDb || r.minVol == r.maxVol
  {
    if r.minDb < r.maxDb {
      forall vol | InRange(r, vol) ensures RegOf(r, DbOf(r, vol)) == vol {
        if vol != r.minVol && vol != r.maxVol {
          InteriorComesBack(r, vol);
        }
      }
    } else {
      assert InRange(r, r.minVol) && RegOf(r, DbOf(r, r.minVol)) == r.maxVol;
    }
  }

  function AbsReal(x: real): real { if x < 0.0 then -x else x }

  function Clamped(r: VolRange, db: real): real {
    if db >= r.maxDb then r.maxDb else if db <= r.minDb then r.minDb else db
  }

  /** How many decibels lie between two registers. */
  function StepDb(r: VolRange): real
    requires r.minVol != r.maxVol
  {
    AbsReal(Scale(1.0, r.Decibels(), r.Registers()))
  }

  lemma TruncatedIsNear(x: real, lo: int, hi: int)
    requires lo as real <= x <= hi as real
    ensures lo <= Truncated(x) <= hi && -1.0 < Truncated(x) as real - x < 1.0
  {
    if x < 0.0 {
      assert (-x).Floor as real <= -x < (-x).Floor as real + 1.0;
      assert -(hi as real) == (-hi) as real && -(lo as real) == (-lo) as real;
    }
  }

  /** The line formula holds at the ends, too. */
  lemma DbOnLine(r: VolRange, vol: int)
    requires InRange(r, vol) && r.minVol != r.maxVol
    ensures DbOf(r, vol) == Scale(vol as real - r.minVol as real, r.Decibels(), r.Registers()) + r.minDb
  {
    ScaleEnds(r.Decibels(), r.Registers());
  }

  /** A register beyond the ends has the decibels of the nearer end, in either orientation, and
      one between them those on the line. */
  lemma RegistersBeyondAreTheEnds(r: VolRange, vol: int)
    requires r.minVol != r.maxVol
    ensures
      var toMin, toMax := if vol < r.minVol then r.minVol - vol else vol - r.minVol,
                          if vol < r.maxVol then r.maxVol - vol else vol - r.maxVol;
      var near := if InRange(r, vol) then vol else if toMin < toMax then r.minVol else r.maxVol;
      DbOf(r, vol) == Scale(near as real - r.minVol as real, r.Decibels(), r.Registers()) + r.minDb
  {
    ScaleEnds(r.Decibels(), r.Registers());
    if InRange(r, vol) {
      DbOnLine(r, vol);
    }
  }

  lemma NearOnLine(e: real, d: real, v: real)
    requires -1.0 < e < 1.0 && d > 0.0 && v != 0.0
    ensures AbsReal(Scale(e, d, v)) < AbsReal(Scale(1.0, d, v))
  {
    ScaleOrders(e, 1.0, d, v);
    ScaleOrders(-1.0, e, d, v);
    Negates(1.0, d / v);
    assert Scale(-1.0, d, v) == -Scale(1.0, d, v);
  }

  lemma CutInside(r: VolRange, y: real)
    requires 0.0 < y < r.Registers() || r.Registers() < y < 0.0
    ensures
      var w := Truncated(y + r.minVol as real);
      InRange(r, w) && -1.0 < w as real - (y + r.minVol as real) < 1.0
  {
    if r.minVol < r.maxVol {
      TruncatedIsNear(y + r.minVol as real, r.minVol, r.maxVol);
    } else {
      TruncatedIsNear(y + r.minVol as real, r.maxVol, r.minVol);
    }
  }

  /** The register of a decibel value between the ends, and how far cutting moves it. */
  lemma InteriorReg(r: VolRange, db: real) returns (e: real)
    requires r.minVol != r.maxVol && r.minDb < db < r.maxDb
    ensures InRange(r, RegOf(r, db)) && -1.0 < e < 1.0
    ensures RegOf(r, db) as real - r.minVol as real == Scale(db - r.minDb, r.Registers(), r.Decibels()) + e
  {
    var d, v, t := r.Decibels(), r.Registers(), db - r.minDb;
    ScaleEnds(v, d);
    ScaleOrders(0.0, t, v, d);
    ScaleOrders(t, d, v, d);
    var y := Scale(t, v, d);
    CutInside(r, y);
    assert RegOf(r, db) == Truncated(y + r.minVol as real);
    e := RegOf(r, db) as real - (y + r.minVol as real);
  }

  /** Between the ends the register is the value on the line, cut towards zero. */
  lemma RegisterIsCutTowardsZero(r: VolRange, db: real)
    requires r.minDb < db < r.maxDb
    ensures
      var exact := Scale(db - r.minDb, r.Registers(), r.Decibels()) + r.minVol as real;
      var reg := RegOf(r, db) as real;
      && (exact >= 0.0 ==> 0.0 <= reg <= exact < reg + 1.0)
      && (exact <= 0.0 ==> reg - 1.0 < exact <= reg <= 0.0)
  {
    var exact := Scale(db - r.minDb, r.Registers(), r.Decibels()) + r.minVol as real;
    if exact < 0.0 {
      assert (-exact).Floor as real <= -exact < (-exact).Floor as real + 1.0;
      assert -((-exact).Floor as real) == (-((-exact).Floor)) as real;
    }
  }

  /** A decibel value comes back, from a register in range, less than one step off; values
      beyond the ends come back as the ends. */
  lemma DecibelsComeBackNear(r: VolRange, db: real)
    requires r.minDb < r.maxDb && r.minVol != r.maxVol
    ensures InRange(r, RegOf(r, db))
    ensures AbsReal(DbOf(r, RegOf(r, db)) - Clamped(r, db)) < StepDb(r)
  {
    var d, v, e := r.Decibels(), r.Registers(), 0.0;
    ScaleEnds(d, v);
    if r.minDb < db < r.maxDb {
      e := InteriorReg(r, db);
      DbOnLine(r, RegOf(r, db));
      var y := Scale(db - r.minDb, v, d);
      ScaleBack(db - r.minDb, v, d);
      ScaleAdds(y, e, d, v);
      assert DbOf(r, RegOf(r, db)) - db == Scale(e, d, v);
    }
    NearOnLine(e, d, v);
  }

  // ---------------------------------------------------------------- curves

  datatype Point = Point(vol: int, db: real)

  /** The line through a point and the next one. */
  function Line(c: seq<Point>, i: nat, vol: int): real
    requires i + 1 < |c| && c[i].vol != c[i + 1].vol
  {
    c[i].db + Scale((vol - c[i].vol) as real, c[i + 1].db - c[i].db, (c[i + 1].vol - c[i].vol) as real)
  }

  /** The first index from `i` on whose next point lies above `vol`. */
  function Segment(c: seq<Point>, vol: int, i: nat): (j: nat)
    requires i < |c|
    ensures i <= j < |c|
    ensures j + 1 < |c| ==> vol < c[j + 1].vol
    ensures forall k :: i < k <= j ==> c[k].vol <= vol
    decreases |c| - i
  {
    if i + 1 < |c| && c[i + 1].vol <= vol then Segment(c, vol, i + 1) else i
  }

  /** _get_vol_db */
  function VolDb(c: seq<Point>, vol: int): real {
    if vol == 0 then -96.0
    else if c == [] then 0.0
    else if vol >= c[|c| - 1].vol then c[|c| - 1].db
    else
      var i := Segment(c, vol, 0);
      if i + 1 < |c| && c[i].vol != c[i + 1].vol then Line(c, i, vol) else 0.0
  }

  method GetVolDb(c: seq<Point>, vol: int) returns (db: real)
    ensures db == VolDb(c, vol)
  {
    if vol == 0 {
      return -96.0;
    }
    var n := |c|;
    if n == 0 {
      return 0.0;
    }
    if vol >= c[n - 1].vol {
      return c[n - 1].db;
    }
    var i := 0;
    while i < n - 1
      invariant 0 <= i <= n - 1 && Segment(c, vol, 0) == Segment(c, vol, i)
    {
      if vol < c[i + 1].vol {
        if c[i].vol != c[i + 1].vol {
          return Line(c, i, vol);
        }
        break;
      }
      i := i + 1;
    }
    db := 0.0;
  }

  /** Strictly increasing volumes and decibel values that do not fall. */
  predicate Curve(c: seq<Point>) {
    forall i, j :: 0 <= i < j < |c| ==> c[i].vol < c[j].vol && c[i].db <= c[j].db
  }

  lemma ScaleClimbs(a: real, b: real, d: real, v: real)
    requires a <= b && d >= 0.0 && v > 0.0
    ensures Scale(a, d, v) <= Scale(b, d, v)
  {
    if d > 0.0 {
      if a < b {
        ScaleOrders(a, b, d, v);
      }
    } else {
      assert d / v == 0.0;
    }
  }

  lemma LineIsMonotone(c: seq<Point>, i: nat, v: int, w: int)
    requires Curve(c) && i + 1 < |c| && v <= w
    ensures Line(c, i, v) <= Line(c, i, w)
    ensures Line(c, i, c[i].vol) == c[i].db && Line(c, i, c[i + 1].vol) == c[i + 1].db
  {
    var d, run := c[i + 1].db - c[i].db, (c[i + 1].vol - c[i].vol) as real;
    ScaleEnds(d, run);
    ScaleClimbs((v - c[i].vol) as real, (w - c[i].vol) as real, d, run);
  }

  lemma {:induction false} SegmentReaches(c: seq<Point>, k: nat, i: nat)
    requires Curve(c) && k <= i < |c|
    ensures Segment(c, c[i].vol, k) == i
    decreases i - k
  {
    if k < i {
      SegmentReaches(c, k + 1, i);
    }
  }

  /** A curve hits all its points but one at volume 0, ... */
  lemma CurveHitsPoints(c: seq<Point>, i: nat)
    requires Curve(c) && i < |c| && c[i].vol != 0
    ensures VolDb(c, c[i].vol) == c[i].db
  {
    if i < |c| - 1 {
      SegmentReaches(c, 0, i);
      LineIsMonotone(c, i, c[i].vol, c[i].vol);
    }
  }

  /** ... and one of at least two points does not fall from volume 1 on. */
  lemma CurveIsMonotone(c: seq<Point>, v: int, w: int)
    requires Curve(c) && |c| >= 2 && 1 <= v <= w
    ensures VolDb(c, v) <= VolDb(c, w)
  {
    var last := |c| - 1;
    if v < c[last].vol {
      var i := Segment(c, v, 0);
      LineIsMonotone(c, i, v, c[i + 1].vol);
      if w < c[last].vol {
        var j := Segment(c, w, 0);
        if i == j {
          LineIsMonotone(c, i, v, w);
        } else {
          assert i < j;
          LineIsMonotone(c, j, c[j].vol, w);
        }
      }
    }
  }

  /** Volume 0 is -96 dB whatever the curve says, so a curve of at least two points is monotone
      from volume 0 on exactly when it is not below that at volume 1. Below its first point it
      goes on along its first line. */
  lemma VolumeZeroIsMute(c: seq<Point>)
    requires Curve(c) && |c| >= 2
    ensures VolDb(c, 0) == -96.0
    ensures (forall v, w :: 0 <= v <= w ==> VolDb(c, v) <= VolDb(c, w)) <==> VolDb(c, 1) >= -96.0
    ensures forall v :: v != 0 && v < c[0].vol ==> VolDb(c, v) == Line(c, 0, v)
  {
    if VolDb(c, 1) >= -96.0 {
      forall v, w | 0 <= v <= w ensures VolDb(c, v) <= VolDb(c, w) {
        if v > 0 {
          CurveIsMonotone(c, v, w);
        } else if w > 0 {
          CurveIsMonotone(c, 1, w);
        }
      }
    }
  }

  /** A curve of one point falls to 0 dB below it, so it is monotone exactly when the point is
      at 0 dB or more, or no volume from 1 on lies below it. */
  lemma OnePointIsMonotoneIff(p: Point)
    ensures (forall v, w :: 1 <= v <= w ==> VolDb([p], v) <= VolDb([p], w)) <==> p.db >= 0.0 || p.vol <= 1
  {
    if p.db < 0.0 && p.vol > 1 {
      assert VolDb([p], p.vol - 1) > VolDb([p], p.vol);
    }
  }
}

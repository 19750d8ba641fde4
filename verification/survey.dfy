/**
 The `/survey-boundary` computation: the four corner traces read from the file,
 visited in polygon order, closed into a ring, and summarised by an extent, the
 distinct line numbers, bin sizes and an orientation.
 */
module Survey {
  import opened Scaling
  import opened Geometry
  import opened Ordering
  import opened Metadata

  datatype Option<T> = None | Some(value: T)

  /** Why `survey_boundary` fails: both are `min` of an empty list raising. */
  datatype SurveyError =
    | EmptyBoundary  // no corner row was found, so the extent has no vertices
    | NoTraces       // the trace table is empty, so the line ranges have no ends

  datatype Result<T> = Ok(value: T) | Err(error: SurveyError)

  /** The header words read from one corner trace. */
  datatype CornerHeader = CornerHeader(cdpX: int, cdpY: int, inline: int, xline: int)

  /** One row of the corner frame of `read_segy_metadata`. */
  datatype Corner = Corner(x: real, y: real, xRaw: int, yRaw: int, inline: int, xline: int,
                           cornerIndex: int, sgs: int)

  function CornerPoint(c: Corner): Point {
    Point(c.x, c.y)
  }

  function ReadCorner(h: CornerHeader, i: int, sgsHeader: int): Corner {
    var sgs := EffectiveSgs(sgsHeader);
    Corner(ApplySgs(h.cdpX as real, sgs), ApplySgs(h.cdpY as real, sgs), h.cdpX, h.cdpY,
           h.inline, h.xline, i, sgs)
  }

  /** `read_segy_metadata` after the headers are read: row `i` is corner `i`, with its raw
      coordinates and the coordinates scaled by the file's SGS scalar. */
  function ReadCorners(headers: seq<CornerHeader>, sgsHeader: int): (cs: seq<Corner>)
    ensures |cs| == |headers|
    ensures forall i :: 0 <= i < |cs| ==> cs[i].cornerIndex == i && cs[i].sgs != 0
    ensures forall i :: 0 <= i < |cs| ==>
      cs[i].xRaw == headers[i].cdpX && cs[i].yRaw == headers[i].cdpY &&
      cs[i].inline == headers[i].inline && cs[i].xline == headers[i].xline
    ensures forall i :: 0 <= i < |cs| ==>
      cs[i].x == ApplySgs(headers[i].cdpX as real, sgsHeader) &&
      cs[i].y == ApplySgs(headers[i].cdpY as real, sgsHeader)
  {
    var cs := seq(|headers|, i requires 0 <= i < |headers| => ReadCorner(headers[i], i, sgsHeader));
    assert forall i :: 0 <= i < |cs| ==>
      cs[i].x == ApplySgs(headers[i].cdpX as real, sgsHeader) &&
      cs[i].y == ApplySgs(headers[i].cdpY as real, sgsHeader) by {
      forall i | 0 <= i < |cs|
        ensures cs[i].x == ApplySgs(headers[i].cdpX as real, sgsHeader)
        ensures cs[i].y == ApplySgs(headers[i].cdpY as real, sgsHeader)
      {
        EffectiveSgsKeepsScaling(headers[i].cdpX as real, sgsHeader);
        EffectiveSgsKeepsScaling(headers[i].cdpY as real, sgsHeader);
      }
    }
    cs
  }

  /** `df[df['corner_index'] == idx].iloc[0]`: the first row with that corner index, if any. */
  function FindCorner(cs: seq<Corner>, idx: int): (r: Option<Corner>)
    ensures r.None? <==> forall i :: 0 <= i < |cs| ==> cs[i].cornerIndex != idx
    ensures r.Some? ==> exists i :: 0 <= i < |cs| && cs[i] == r.value && cs[i].cornerIndex == idx &&
                                    (forall j :: 0 <= j < i ==> cs[j].cornerIndex != idx)
  {
    if |cs| == 0 then None
    else if cs[0].cornerIndex == idx then Some(cs[0])
    else
      var r := FindCorner(cs[1..], idx);
      assert forall i :: 0 < i < |cs| ==> cs[i] == cs[1..][i - 1];
      if r.Some? then
        var i :| 0 <= i < |cs[1..]| && cs[1..][i] == r.value && cs[1..][i].cornerIndex == idx &&
          forall j :: 0 <= j < i ==> cs[1..][j].cornerIndex != idx;
        assert cs[i + 1] == r.value;
        assert forall j :: 0 <= j < i + 1 ==> cs[j].cornerIndex != idx by {
          forall j | 0 < j < i + 1 ensures cs[j].cornerIndex != idx {
            assert cs[j] == cs[1..][j - 1];
          }
        }
        r
      else
        r
  }

  /** The rows found for the corner indices of `order`, in that order; an index with no
      row is skipped (the `if not corner_df.empty` guard). */
  function Visit(cs: seq<Corner>, order: seq<int>): (found: seq<Corner>)
    ensures |found| <= |order|
    ensures forall c :: c in found ==> c in cs
    ensures |found| == |order| <==> forall k :: 0 <= k < |order| ==> FindCorner(cs, order[k]).Some?
    ensures |found| == |order| ==> forall k :: 0 <= k < |order| ==> found[k] == FindCorner(cs, order[k]).value
  {
    if |order| == 0 then []
    else
      var front := order[..|order| - 1];
      var rest := Visit(cs, front);
      assert forall k :: 0 <= k < |front| ==> front[k] == order[k];
      match FindCorner(cs, order[|order| - 1])
      case Some(c) =>
        assert forall k :: 0 <= k < |rest| ==> (rest + [c])[k] == rest[k];
        rest + [c]
      case None => rest
  }

  /** `ks` lists, in increasing order, the positions of `order` whose corner index has a
      row, all of them, and `found` holds those rows in that order. */
  predicate VisitPicks(cs: seq<Corner>, order: seq<int>, ks: seq<int>, found: seq<Corner>) {
    |ks| == |found| &&
    (forall j :: 0 <= j < |ks| ==> 0 <= ks[j] < |order| && FindCorner(cs, order[ks[j]]) == Some(found[j])) &&
    (forall i, j :: 0 <= i < j < |ks| ==> ks[i] < ks[j]) &&
    (forall k :: 0 <= k < |order| && FindCorner(cs, order[k]).Some? ==> k in ks)
  }

  /** Visiting keeps the found corners in the order of `order` and skips only the
      indices without a row. */
  lemma {:induction false} VisitInOrder(cs: seq<Corner>, order: seq<int>)
    ensures exists ks :: VisitPicks(cs, order, ks, Visit(cs, order))
  {
    if |order| == 0 {
      assert VisitPicks(cs, order, [], Visit(cs, order));
    } else {
      var n := |order|;
      var front := order[..n - 1];
      VisitInOrder(cs, front);
      var rest := Visit(cs, front);
      var ks :| VisitPicks(cs, front, ks, rest);
      match FindCorner(cs, order[n - 1])
      case Some(c) =>
        assert Visit(cs, order) == rest + [c];
        VisitSomeStep(cs, order, ks, rest, c);
      case None =>
        assert Visit(cs, order) == rest;
        VisitNoneStep(cs, order, ks, rest);
    }
  }

  /** The step of `VisitInOrder` where the last index of `order` has no row: the picks
      for the other indices stay as they are. */
  lemma VisitNoneStep(cs: seq<Corner>, order: seq<int>, ks: seq<int>, rest: seq<Corner>)
    requires |order| > 0 && FindCorner(cs, order[|order| - 1]).None?
    requires VisitPicks(cs, order[..|order| - 1], ks, rest)
    ensures VisitPicks(cs, order, ks, rest)
  {
    var front := order[..|order| - 1];
    assert forall k :: 0 <= k < |front| ==> front[k] == order[k];
  }

  /** The step of `VisitInOrder` where the last index of `order` has a row `c`: the
      picks for the other indices extend by the last position. */
  lemma VisitSomeStep(cs: seq<Corner>, order: seq<int>, ks: seq<int>, rest: seq<Corner>, c: Corner)
    requires |order| > 0 && FindCorner(cs, order[|order| - 1]) == Some(c)
    requires VisitPicks(cs, order[..|order| - 1], ks, rest)
    ensures VisitPicks(cs, order, ks + [|order| - 1], rest + [c])
  {
    var n := |order|;
    var front := order[..n - 1];
    assert forall k :: 0 <= k < n - 1 ==> front[k] == order[k];
    var found := rest + [c];
    var ks' := ks + [n - 1];
    forall j | 0 <= j < |ks'|
      ensures 0 <= ks'[j] < n && FindCorner(cs, order[ks'[j]]) == Some(found[j])
    {
      if j < |ks| {
        assert ks'[j] == ks[j] && found[j] == rest[j];
      }
    }
    forall i, j | 0 <= i < j < |ks'| ensures ks'[i] < ks'[j] {
      assert ks'[i] == ks[i];
    }
    forall k | 0 <= k < n && FindCorner(cs, order[k]).Some? ensures k in ks' {
      if k < n - 1 {
        assert k in ks;
      } else {
        assert ks'[|ks|] == k;
      }
    }
  }

  /** The visiting order of `survey_boundary`, chosen to follow the polygon's winding. */
  const CornerOrder: seq<int> := [0, 3, 1, 2]

  /** Closing a polygon re-appends its first vertex; no vertices stay no vertices. */
  function Close(pts: seq<Point>): (ring: seq<Point>)
    ensures |pts| == 0 ==> ring == []
    ensures |pts| > 0 ==> |ring| == |pts| + 1 && ring[..|pts|] == pts && ring[|pts|] == pts[0]
  {
    if |pts| == 0 then [] else pts + [pts[0]]
  }

  /** `boundary_points[:-1]`: the ring without its closing point. */
  function Open(ring: seq<Point>): (pts: seq<Point>)
    ensures |ring| == 0 ==> pts == []
    ensures |ring| > 0 ==> |pts| == |ring| - 1 && forall k :: 0 <= k < |pts| ==> pts[k] == ring[k]
  {
    if |ring| == 0 then [] else ring[..|ring| - 1]
  }

  /** Removing the closing point gives back the vertices that were closed. */
  lemma OpenClose(pts: seq<Point>)
    ensures Open(Close(pts)) == pts
  {
  }

  /** The polygon of `survey_boundary` with its two parallel lists of line numbers. */
  datatype Ring = Ring(boundary: seq<Point>, ilineCood: seq<int>, xlineCood: seq<int>)

  function Vertices(found: seq<Corner>): (pts: seq<Point>)
    ensures |pts| == |found|
    ensures forall k :: 0 <= k < |found| ==> pts[k] == CornerPoint(found[k])
  {
    seq(|found|, k requires 0 <= k < |found| => CornerPoint(found[k]))
  }

  /** Lines 126-138: the corners visited in `CornerOrder` give the vertices and, at the
      same positions, their inline and crossline numbers; the ring is then closed. */
  function SurveyRing(cs: seq<Corner>): (r: Ring)
    ensures |r.boundary| > 0 ==> r.boundary[|r.boundary| - 1] == r.boundary[0]
    ensures |Open(r.boundary)| == |r.ilineCood| == |r.xlineCood| <= |CornerOrder|
    ensures (forall k :: 0 <= k < |CornerOrder| ==> FindCorner(cs, CornerOrder[k]).Some?) ==>
      |r.ilineCood| == |CornerOrder| &&
      forall k :: 0 <= k < |CornerOrder| ==>
        Open(r.boundary)[k] == CornerPoint(FindCorner(cs, CornerOrder[k]).value) &&
        r.ilineCood[k] == FindCorner(cs, CornerOrder[k]).value.inline &&
        r.xlineCood[k] == FindCorner(cs, CornerOrder[k]).value.xline
  {
    var found := Visit(cs, CornerOrder);
    var boundary := Close(Vertices(found));
    OpenClose(Vertices(found));
    Ring(boundary,
         seq(|found|, k requires 0 <= k < |found| => found[k].inline),
         seq(|found|, k requires 0 <= k < |found| => found[k].xline))
  }

  /** `ks` picks the corner indices of the order 0, 3, 1, 2 that have a row (all of them,
      in order), and vertex `j` of ring `r` and the line numbers at `j` are those of the
      row of the `j`-th pick. */
  predicate RingPicks(cs: seq<Corner>, r: Ring, ks: seq<int>) {
    VisitPicks(cs, CornerOrder, ks, Visit(cs, CornerOrder)) &&
    |ks| == |Open(r.boundary)| == |r.ilineCood| == |r.xlineCood| &&
    forall j :: 0 <= j < |ks| ==>
      Open(r.boundary)[j] == CornerPoint(FindCorner(cs, CornerOrder[ks[j]]).value) &&
      r.ilineCood[j] == FindCorner(cs, CornerOrder[ks[j]]).value.inline &&
      r.xlineCood[j] == FindCorner(cs, CornerOrder[ks[j]]).value.xline
  }

  /** Whatever corners are missing, the ring holds exactly the corners that have a row,
      in the order 0, 3, 1, 2, each with its own line numbers. */
  lemma SurveyRingInOrder(cs: seq<Corner>)
    ensures exists ks :: RingPicks(cs, SurveyRing(cs), ks)
  {
    var r := SurveyRing(cs);
    var found := Visit(cs, CornerOrder);
    VisitInOrder(cs, CornerOrder);
    var ks :| VisitPicks(cs, CornerOrder, ks, found);
    RingOfFound(cs);
    forall j | 0 <= j < |ks|
      ensures Open(r.boundary)[j] == CornerPoint(FindCorner(cs, CornerOrder[ks[j]]).value)
      ensures r.ilineCood[j] == FindCorner(cs, CornerOrder[ks[j]]).value.inline
      ensures r.xlineCood[j] == FindCorner(cs, CornerOrder[ks[j]]).value.xline
    {
      assert FindCorner(cs, CornerOrder[ks[j]]).value == found[j];
    }
    assert RingPicks(cs, r, ks);
  }

  /** Vertex `j` of the ring and the line numbers at `j` are those of the `j`-th corner
      visited. */
  lemma RingOfFound(cs: seq<Corner>)
    ensures var r := SurveyRing(cs);
      var found := Visit(cs, CornerOrder);
      |Open(r.boundary)| == |r.ilineCood| == |r.xlineCood| == |found| &&
      forall j :: 0 <= j < |found| ==>
        Open(r.boundary)[j] == CornerPoint(found[j]) &&
        r.ilineCood[j] == found[j].inline && r.xlineCood[j] == found[j].xline
  {
    OpenClose(Vertices(Visit(cs, CornerOrder)));
  }

  /** In a frame whose row `i` has corner index `base + i`, corner `base + j` is row `j`. */
  lemma {:induction false} FindIndexedCorner(cs: seq<Corner>, base: int, j: int)
    requires forall i :: 0 <= i < |cs| ==> cs[i].cornerIndex == base + i
    requires 0 <= j < |cs|
    ensures FindCorner(cs, base + j) == Some(cs[j])
  {
    if j > 0 {
      assert cs[0].cornerIndex != base + j;
      FindIndexedCorner(cs[1..], base + 1, j - 1);
    }
  }

  /** The four corner traces the file yields make a closed ring of five points: the
      corners in the order 0, 3, 1, 2 and the first once more, each scaled by the SGS
      rule, with their own inline and crossline numbers alongside. */
  lemma FourCornerRing(headers: seq<CornerHeader>, sgsHeader: int)
    requires |headers| == 4
    ensures var r := SurveyRing(ReadCorners(headers, sgsHeader));
      |r.boundary| == 5 && r.boundary[4] == r.boundary[0] &&
      forall k :: 0 <= k < 4 ==>
        var h := headers[CornerOrder[k]];
        r.boundary[k] == Point(ApplySgs(h.cdpX as real, sgsHeader), ApplySgs(h.cdpY as real, sgsHeader)) &&
        r.ilineCood[k] == h.inline && r.xlineCood[k] == h.xline
  {
    var cs := ReadCorners(headers, sgsHeader);
    forall k | 0 <= k < 4 ensures FindCorner(cs, CornerOrder[k]) == Some(cs[CornerOrder[k]]) {
      FindIndexedCorner(cs, 0, CornerOrder[k]);
    }
  }

  /** The bounding box of the boundary (`x_min`, `x_max`, `y_min`, `y_max`). */
  datatype Extent = Extent(xMin: real, xMax: real, yMin: real, yMax: real)

  predicate InBox(p: Point, e: Extent) {
    e.xMin <= p.x <= e.xMax && e.yMin <= p.y <= e.yMax
  }

  /** `min` of a non-empty list: an element no larger than any other. */
  function MinOf(s: seq<real>): (m: real)
    requires |s| > 0
    ensures m in s
    ensures forall i :: 0 <= i < |s| ==> m <= s[i]
  {
    if |s| == 1 then s[0]
    else
      var rest := MinOf(s[1..]);
      assert forall i :: 1 <= i < |s| ==> s[i] == s[1..][i - 1];
      if s[0] <= rest then s[0] else rest
  }

  /** `max` of a non-empty list: an element no smaller than any other. */
  function MaxOf(s: seq<real>): (m: real)
    requires |s| > 0
    ensures m in s
    ensures forall i :: 0 <= i < |s| ==> s[i] <= m
  {
    if |s| == 1 then s[0]
    else
      var rest := MaxOf(s[1..]);
      assert forall i :: 1 <= i < |s| ==> s[i] == s[1..][i - 1];
      if s[0] >= rest then s[0] else rest
  }

  function Xs(pts: seq<Point>): (xs: seq<real>)
    ensures |xs| == |pts|
    ensures forall k :: 0 <= k < |pts| ==> xs[k] == pts[k].x
  {
    seq(|pts|, k requires 0 <= k < |pts| => pts[k].x)
  }

  function Ys(pts: seq<Point>): (ys: seq<real>)
    ensures |ys| == |pts|
    ensures forall k :: 0 <= k < |pts| ==> ys[k] == pts[k].y
  {
    seq(|pts|, k requires 0 <= k < |pts| => pts[k].y)
  }

  /** Lines 146-149: the extent of the ring without its closing point; `min` of an empty
      list raises when there is no vertex. Every bound is met by some vertex and every
      vertex lies in the box. */
  function ExtentOf(ring: seq<Point>): (r: Result<Extent>)
    ensures r.Err? <==> |Open(ring)| == 0
    ensures r.Err? ==> r.error == EmptyBoundary
    ensures r.Ok? ==> r.value.xMin <= r.value.xMax && r.value.yMin <= r.value.yMax
    ensures r.Ok? ==> forall k :: 0 <= k < |Open(ring)| ==> InBox(Open(ring)[k], r.value)
    ensures r.Ok? ==>
      (exists k :: 0 <= k < |Open(ring)| && Open(ring)[k].x == r.value.xMin) &&
      (exists k :: 0 <= k < |Open(ring)| && Open(ring)[k].x == r.value.xMax) &&
      (exists k :: 0 <= k < |Open(ring)| && Open(ring)[k].y == r.value.yMin) &&
      (exists k :: 0 <= k < |Open(ring)| && Open(ring)[k].y == r.value.yMax)
  {
    var pts := Open(ring);
    if |pts| == 0 then Err(EmptyBoundary)
    else
      var xs := Xs(pts);
      var ys := Ys(pts);
      var e := Extent(MinOf(xs), MaxOf(xs), MinOf(ys), MaxOf(ys));
      assert e.xMin <= xs[0] <= e.xMax && e.yMin <= ys[0] <= e.yMax;
      Ok(e)
  }

  /** Dropping the closing point loses nothing: the closing point lies in the extent
      of the other vertices, so the box covers the whole closed ring. */
  lemma {:induction false} ExtentCoversClosedRing(pts: seq<Point>)
    requires |pts| > 0
    ensures ExtentOf(Close(pts)).Ok?
    ensures forall k :: 0 <= k < |Close(pts)| ==> InBox(Close(pts)[k], ExtentOf(Close(pts)).value)
  {
    var ring := Close(pts);
    OpenClose(pts);
    var e := ExtentOf(ring).value;
    forall k | 0 <= k < |ring| ensures InBox(ring[k], e) {
      if k < |pts| {
        assert ring[k] == Open(ring)[k];
      } else {
        assert ring[k] == Open(ring)[0];
      }
    }
  }

  /** Lines 192-197 as written: the piecewise map from `deg_1`, the angle of the
      corner 0 to corner 3 direction counter-clockwise from east, to `fin_deg`. Its
      three branches land in disjoint parts of [0, 360). */
  function OrientationAsWritten(deg: real): (fin: real)
    ensures -180.0 < deg <= 180.0 ==> 0.0 <= fin < 360.0
    ensures deg < 0.0 ==> fin == 270.0 + deg
    ensures -180.0 < deg < 0.0 ==> 90.0 < fin < 270.0
    ensures 0.0 <= deg <= 90.0 ==> 0.0 <= fin <= 90.0
    ensures 90.0 < deg <= 180.0 ==> 270.0 <= fin < 360.0
  {
    if deg < 0.0 then 270.0 + deg
    else if deg <= 90.0 then 90.0 - deg
    else 450.0 - deg
  }

  /** On (-180, 180] the map as written is one-to-one ... */
  lemma OrientationAsWrittenInjective(a: real, b: real)
    requires -180.0 < a <= 180.0 && -180.0 < b <= 180.0
    requires OrientationAsWritten(a) == OrientationAsWritten(b)
    ensures a == b
  {
  }

  /** ... and reaches every angle of [0, 360). */
  lemma OrientationAsWrittenOnto(fin: real)
    requires 0.0 <= fin < 360.0
    ensures exists deg :: -180.0 < deg <= 180.0 && OrientationAsWritten(deg) == fin
  {
    var deg := if fin <= 90.0 then 90.0 - fin else if fin < 270.0 then fin - 270.0 else 450.0 - fin;
    assert OrientationAsWritten(deg) == fin;
  }

  /** The compass azimuth, clockwise from north, of a direction whose angle
      counter-clockwise from east is `deg`: the representative of `90 - deg` modulo 360
      in [0, 360). */
  function Orientation(deg: real): (fin: real)
    ensures -180.0 < deg <= 180.0 ==> 0.0 <= fin < 360.0
    ensures fin == 90.0 - deg || fin == 450.0 - deg
  {
    if deg <= 90.0 then 90.0 - deg else 450.0 - deg
  }

  /** An angle in [0, 360) that differs from `90 - deg` by whole turns is the azimuth. */
  lemma AzimuthUnique(deg: real, fin: real, turns: int)
    requires -180.0 < deg <= 180.0
    requires 0.0 <= fin < 360.0 && fin == 90.0 - deg + 360.0 * (turns as real)
    ensures fin == Orientation(deg)
  {
    assert turns == 0 || turns == 1;
  }

  /** For every negative `deg_1` the map as written gives the mirror image of the azimuth
      about the north-south axis; the two agree only for a direction due south. */
  lemma OrientationAsWrittenMirrorsNegative(deg: real)
    requires -180.0 < deg < 0.0
    ensures OrientationAsWritten(deg) == 360.0 - Orientation(deg)
    ensures OrientationAsWritten(deg) == Orientation(deg) <==> deg == -90.0
  {
  }

  /** A corner-3 direction pointing south-east (`deg_1 == -45`) has azimuth 135, but the
      map as written reports 225, south-west. */
  lemma OrientationSouthEast()
    ensures Orientation(-45.0) == 135.0
    ensures OrientationAsWritten(-45.0) == 225.0
  {
  }

  /** Lines 185-186 without the rounding: the edge length spread over the gaps between
      `count` lines, divided by `|sgs|` (a zero scalar counts as 1); 0 when there is at
      most one line. */
  function BinSize(len: real, count: int, sgsHeader: int): (b: real)
    ensures count <= 1 ==> b == 0.0
    ensures count > 1 ==> b * ((count - 1) as real) * (Abs(EffectiveSgs(sgsHeader)) as real) == len
    ensures count > 1 && len >= 0.0 ==> b >= 0.0
  {
    if count > 1 then
      var gaps := (count - 1) as real;
      var s := Abs(EffectiveSgs(sgsHeader)) as real;
      QuotientBounds(len, gaps);
      QuotientBounds(len / gaps, s);
      SpreadNonNegative(len, gaps, s);
      (len / gaps) / s
    else 0.0
  }

  function Abs(n: int): (a: nat)
    ensures a == n || a == -n
  {
    if n < 0 then -n else n
  }

  /** Dividing a non-negative length by positive counts keeps it non-negative. */
  lemma SpreadNonNegative(len: real, gaps: real, s: real)
    requires gaps > 0.0 && s > 0.0
    ensures len >= 0.0 ==> (len / gaps) / s >= 0.0
  {
  }

  /** The lengths and the angle `survey_boundary` computes with `sqrt` and `np.angle`. */
  datatype Metrics = Metrics(len1: real, len2: real, deg1: real)

  /** Lines 181-182: `len1` is the distance from corner 0 to corner 3 and `len2` the
      distance from corner 0 to corner 2, both between scaled corner positions. */
  predicate CornerMetrics(headers: seq<CornerHeader>, sgsHeader: int, m: Metrics)
    requires |headers| == 4
  {
    var cs := ReadCorners(headers, sgsHeader);
    m.len1 >= 0.0 && Sqr(m.len1) == DistSq(CornerPoint(cs[0]), CornerPoint(cs[3])) &&
    m.len2 >= 0.0 && Sqr(m.len2) == DistSq(CornerPoint(cs[0]), CornerPoint(cs[2]))
  }

  /** The numeric part of the `/survey-boundary` response (strings, rounding and the
      area are not modelled). */
  datatype SurveyInfo = SurveyInfo(
    ring: Ring,
    allInlines: seq<int>,
    allXlines: seq<int>,
    extent: Extent,
    sgs: int,
    orientation: real,
    binSizeIl: real,
    binSizeXl: real)

  /** `survey_boundary`: the ring from the corner headers, the distinct line numbers of the
      trace table, the extent, bin sizes and orientation. It fails when no corner is found
      or the trace table is empty. */
  function SurveyBoundary(headers: seq<CornerHeader>, sgsHeader: int, traces: seq<TraceHeader>, m: Metrics)
    : (r: Result<SurveyInfo>)
    ensures r.Err? <==> |Open(SurveyRing(ReadCorners(headers, sgsHeader)).boundary)| == 0 || |traces| == 0
    ensures r.Ok? ==> r.value.ring == SurveyRing(ReadCorners(headers, sgsHeader))
    ensures r.Ok? ==> StrictlyIncreasing(r.value.allInlines) && StrictlyIncreasing(r.value.allXlines)
    ensures r.Ok? ==> forall t :: t in traces ==> t.inline in r.value.allInlines && t.xline in r.value.allXlines
    ensures r.Ok? ==> forall l :: l in r.value.allInlines ==> exists t :: t in traces && t.inline == l
    ensures r.Ok? ==> forall l :: l in r.value.allXlines ==> exists t :: t in traces && t.xline == l
    ensures r.Ok? ==> ExtentOf(r.value.ring.boundary) == Ok(r.value.extent)
    ensures r.Ok? ==> r.value.extent.xMin <= r.value.extent.xMax && r.value.extent.yMin <= r.value.extent.yMax
    ensures r.Ok? ==> r.value.sgs == EffectiveSgs(sgsHeader)
    ensures r.Ok? ==> r.value.orientation == OrientationAsWritten(m.deg1)
    ensures r.Ok? && -180.0 < m.deg1 <= 180.0 ==> 0.0 <= r.value.orientation < 360.0
    ensures r.Ok? ==> r.value.binSizeIl == BinSize(m.len2, |r.value.allInlines|, sgsHeader)
    ensures r.Ok? ==> r.value.binSizeXl == BinSize(m.len1, |r.value.allXlines|, sgsHeader)
    ensures r.Ok? && |r.value.allInlines| <= 1 ==> r.value.binSizeIl == 0.0
    ensures r.Ok? && |r.value.allXlines| <= 1 ==> r.value.binSizeXl == 0.0
  {
    var ring := SurveyRing(ReadCorners(headers, sgsHeader));
    var table := ReadAllMetadata(traces, sgsHeader);
    var allInlines := SortedDistinct(LineNumbers(table, Inline));
    var allXlines := SortedDistinct(LineNumbers(table, Xline));
    match ExtentOf(ring.boundary)
    case Err(e) => Err(e)
    case Ok(extent) =>
      if |traces| == 0 then Err(NoTraces)
      else
        TableLinesAreTraceLines(traces, sgsHeader, Inline);
        TableLinesAreTraceLines(traces, sgsHeader, Xline);
        Ok(SurveyInfo(ring, allInlines, allXlines, extent, EffectiveSgs(sgsHeader),
                      OrientationAsWritten(m.deg1),
                      BinSize(m.len2, |allInlines|, sgsHeader),
                      BinSize(m.len1, |allXlines|, sgsHeader)))
  }

  /** With non-negative lengths both bin sizes are non-negative, and each spread over its
      gaps and the scalar's magnitude gives back its length. When the lengths are the
      corner distances, `bin_size_il` thus spans corner 0 to corner 2 over the inlines,
      and `bin_size_xl` corner 0 to corner 3 over the crosslines. */
  lemma SurveyBoundaryBinSizes(headers: seq<CornerHeader>, sgsHeader: int, traces: seq<TraceHeader>, m: Metrics)
    requires |headers| == 4 && |traces| > 0 && m.len1 >= 0.0 && m.len2 >= 0.0
    ensures SurveyBoundary(headers, sgsHeader, traces, m).Ok?
    ensures var info := SurveyBoundary(headers, sgsHeader, traces, m).value;
      info.binSizeIl >= 0.0 && info.binSizeXl >= 0.0
    ensures var info := SurveyBoundary(headers, sgsHeader, traces, m).value;
      |info.allInlines| > 1 ==> Spread(info.binSizeIl, |info.allInlines|, sgsHeader) == m.len2
    ensures var info := SurveyBoundary(headers, sgsHeader, traces, m).value;
      |info.allXlines| > 1 ==> Spread(info.binSizeXl, |info.allXlines|, sgsHeader) == m.len1
    ensures var info := SurveyBoundary(headers, sgsHeader, traces, m).value;
      CornerMetrics(headers, sgsHeader, m) && |info.allInlines| > 1 ==>
        Sqr(Spread(info.binSizeIl, |info.allInlines|, sgsHeader)) ==
        DistSq(CornerPoint(ReadCorners(headers, sgsHeader)[0]), CornerPoint(ReadCorners(headers, sgsHeader)[2]))
    ensures var info := SurveyBoundary(headers, sgsHeader, traces, m).value;
      CornerMetrics(headers, sgsHeader, m) && |info.allXlines| > 1 ==>
        Sqr(Spread(info.binSizeXl, |info.allXlines|, sgsHeader)) ==
        DistSq(CornerPoint(ReadCorners(headers, sgsHeader)[0]), CornerPoint(ReadCorners(headers, sgsHeader)[3]))
  {
    SurveyBoundaryAnswers(headers, sgsHeader, traces, m);
    var info := SurveyBoundary(headers, sgsHeader, traces, m).value;
    var cs := ReadCorners(headers, sgsHeader);
    BinSizeSpans(m.len2, |info.allInlines|, sgsHeader, Sqr(m.len2), info.binSizeIl);
    BinSizeSpans(m.len1, |info.allXlines|, sgsHeader, Sqr(m.len1), info.binSizeXl);
  }

  /** Four corner traces and a non-empty trace table always give an answer. */
  lemma SurveyBoundaryAnswers(headers: seq<CornerHeader>, sgsHeader: int, traces: seq<TraceHeader>, m: Metrics)
    requires |headers| == 4 && |traces| > 0
    ensures SurveyBoundary(headers, sgsHeader, traces, m).Ok?
  {
    FourCornerRing(headers, sgsHeader);
    assert |Open(SurveyRing(ReadCorners(headers, sgsHeader)).boundary)| == 4;
  }

  /** A bin size `b` computed from a length whose square is `d2` is not negative, and
      spread back over the gaps and the scalar it squares to `d2`. */
  lemma BinSizeSpans(len: real, count: int, sgsHeader: int, d2: real, b: real)
    requires len >= 0.0 && Sqr(len) == d2 && b == BinSize(len, count, sgsHeader)
    ensures b >= 0.0
    ensures count > 1 ==> Spread(b, count, sgsHeader) == len
    ensures count > 1 ==> Sqr(Spread(b, count, sgsHeader)) == d2
  {
  }

  /** A bin size spread back over the gaps between `count` lines and the scalar. */
  function Spread(b: real, count: int, sgsHeader: int): real {
    b * ((count - 1) as real) * (Abs(EffectiveSgs(sgsHeader)) as real)
  }

  /** How the reported orientation relates to the compass azimuth of `deg_1`: the same for
      `deg_1` in [0, 180], and its mirror image (the two summing to 360) for negative
      `deg_1`, agreeing there only due south. */
  lemma SurveyBoundaryAzimuth(headers: seq<CornerHeader>, sgsHeader: int, traces: seq<TraceHeader>, m: Metrics)
    ensures var r := SurveyBoundary(headers, sgsHeader, traces, m);
      r.Ok? && 0.0 <= m.deg1 ==> r.value.orientation == Orientation(m.deg1)
    ensures var r := SurveyBoundary(headers, sgsHeader, traces, m);
      r.Ok? && -180.0 < m.deg1 < 0.0 ==>
        r.value.orientation + Orientation(m.deg1) == 360.0 &&
        (r.value.orientation == Orientation(m.deg1) <==> m.deg1 == -90.0)
  {
    if -180.0 < m.deg1 < 0.0 {
      OrientationAsWrittenMirrorsNegative(m.deg1);
    }
  }

  function TraceLine(t: TraceHeader, kind: LineKind): int {
    match kind
    case Inline => t.inline
    case Xline => t.xline
  }

  /** The line numbers in the deduplicated table are exactly those of the traces. */
  lemma TableLinesAreTraceLines(traces: seq<TraceHeader>, sgsHeader: int, kind: LineKind)
    ensures forall l :: l in LineNumbers(ReadAllMetadata(traces, sgsHeader), kind) <==>
      exists t :: t in traces && TraceLine(t, kind) == l
  {
    forall l ensures l in LineNumbers(ReadAllMetadata(traces, sgsHeader), kind) <==>
      exists t :: t in traces && TraceLine(t, kind) == l
    {
      if l in LineNumbers(ReadAllMetadata(traces, sgsHeader), kind) {
        TableLineIsTraceLine(traces, sgsHeader, kind, l);
      }
      if exists t :: t in traces && TraceLine(t, kind) == l {
        var t :| t in traces && TraceLine(t, kind) == l;
        TraceLineIsTableLine(traces, sgsHeader, kind, t);
      }
    }
  }

  lemma TableLineIsTraceLine(traces: seq<TraceHeader>, sgsHeader: int, kind: LineKind, l: int)
    requires l in LineNumbers(ReadAllMetadata(traces, sgsHeader), kind)
    ensures exists t :: t in traces && TraceLine(t, kind) == l
  {
    var table := ReadAllMetadata(traces, sgsHeader);
    var ids := LineNumbers(table, kind);
    var i :| 0 <= i < |ids| && ids[i] == l;
    assert HasKey(table, GridKey(table[i]));
    var j :| 0 <= j < |traces| && (traces[j].inline, traces[j].xline) == GridKey(table[i]);
    assert traces[j] in traces && TraceLine(traces[j], kind) == l;
  }

  lemma TraceLineIsTableLine(traces: seq<TraceHeader>, sgsHeader: int, kind: LineKind, t: TraceHeader)
    requires t in traces
    ensures TraceLine(t, kind) in LineNumbers(ReadAllMetadata(traces, sgsHeader), kind)
  {
    var table := ReadAllMetadata(traces, sgsHeader);
    var j :| 0 <= j < |traces| && traces[j] == t;
    assert HasKey(table, (t.inline, t.xline));
    var i :| 0 <= i < |table| && GridKey(table[i]) == (t.inline, t.xline);
    assert LineNumbers(table, kind)[i] == TraceLine(t, kind);
  }
}

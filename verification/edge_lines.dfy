/**
 The `/boundary-edge-lines` computation: which inlines and crosslines come within the
 tolerance of each of the four edges of the survey boundary.
 */
module EdgeLines {
  import opened Geometry
  import opened Ordering
  import opened Metadata
  import opened Survey

  /** The distance under which a line counts as lying on an edge. */
  const Tolerance: real := 50.0

  /** `point_to_line_distance(point, edge) < tolerance`, compared on squares. */
  predicate Near(p: Point, e: Segment) {
    SegmentDistSq(p, e) < Tolerance * Tolerance
  }

  /** For a non-negative distance `d` with square `d2`, comparing `d` with the tolerance
      is the same as comparing `d2` with the tolerance squared. */
  lemma SquaredComparison(d: real, d2: real)
    requires d >= 0.0 && Sqr(d) == d2
    ensures d < Tolerance <==> d2 < Tolerance * Tolerance
  {
    if d < Tolerance {
      ProductBelow(d, Same(d));
    } else {
      ProductAbove(d, Same(d));
    }
  }

  lemma ProductBelow(a: real, b: real)
    requires 0.0 <= a < Tolerance && 0.0 <= b < Tolerance
    ensures a * b < Tolerance * Tolerance
  {
    NonNegativeProduct(a, Tolerance - b);
  }

  lemma ProductAbove(a: real, b: real)
    requires Tolerance <= a && Tolerance <= b
    ensures a * b >= Tolerance * Tolerance
  {
    NonNegativeProduct(a - Tolerance, b);
    NonNegativeProduct(Tolerance, b - Tolerance);
  }

  /** Lines 305-310: the four edges of the boundary, each vertex to the next and the
      last back to the first. */
  function Edges(v: seq<Point>): (es: seq<Segment>)
    requires |v| >= 4
    ensures |es| == 4
    ensures forall i :: 0 <= i < 4 ==> es[i] == Segment(v[i], v[(i + 1) % 4])
  {
    [Segment(v[0], v[1]), Segment(v[1], v[2]), Segment(v[2], v[3]), Segment(v[3], v[0])]
  }

  /** The edges form one closed loop: each edge ends where the next one starts. */
  lemma EdgesChain(v: seq<Point>)
    requires |v| >= 4
    ensures forall i :: 0 <= i < 4 ==> Edges(v)[i].stop == Edges(v)[(i + 1) % 4].start
    ensures Edges(v)[3].stop == Edges(v)[0].start
  {
  }

  /** The point loop with its `break`: whether some point of the line lies within the
      tolerance of the edge. */
  function TouchesEdge(pts: seq<Point>, e: Segment): (b: bool)
    ensures b <==> exists j :: 0 <= j < |pts| && Near(pts[j], e)
  {
    if |pts| == 0 then false
    else if Near(pts[0], e) then true
    else
      assert forall j :: 1 <= j < |pts| ==> pts[j] == pts[1..][j - 1];
      TouchesEdge(pts[1..], e)
  }

  /** Some record of line `id` lies within the tolerance of edge `e`. */
  predicate HitsEdge(rs: seq<Record>, kind: LineKind, id: int, e: Segment) {
    exists r :: r in rs && LineOf(r, kind) == id && Near(Position(r), e)
  }

  /** Looking at the points of line `id` is looking at the records of that line. */
  lemma TouchesIffHits(rs: seq<Record>, kind: LineKind, id: int, e: Segment)
    ensures TouchesEdge(Positions(Rows(rs, kind, id)), e) <==> HitsEdge(rs, kind, id, e)
  {
    var rows := Rows(rs, kind, id);
    var pts := Positions(rows);
    if TouchesEdge(pts, e) {
      var j :| 0 <= j < |pts| && Near(pts[j], e);
      assert rows[j] in rows;
    }
    if HitsEdge(rs, kind, id, e) {
      var r :| r in rs && LineOf(r, kind) == id && Near(Position(r), e);
      var j :| 0 <= j < |rows| && rows[j] == r;
      assert Near(pts[j], e);
    }
  }

  /** One pass of the edge loop for line `id` with points `pts`: every edge the line
      touches gets `id` appended, unless it is listed there already. */
  function AddToEdges(id: int, pts: seq<Point>, edges: seq<Segment>, lists: seq<seq<int>>)
    : (out: seq<seq<int>>)
    requires |lists| == |edges|
    ensures |out| == |edges|
    ensures forall k, l :: 0 <= k < |edges| ==>
      (l in out[k] <==> l in lists[k] || (l == id && TouchesEdge(pts, edges[k])))
    ensures forall k :: 0 <= k < |edges| && Distinct(lists[k]) ==> Distinct(out[k])
  {
    var out := seq(|edges|, k requires 0 <= k < |edges| =>
      if TouchesEdge(pts, edges[k]) && id !in lists[k] then lists[k] + [id] else lists[k]);
    assert forall k :: 0 <= k < |edges| && Distinct(lists[k]) ==> Distinct(out[k]) by {
      forall k | 0 <= k < |edges| && Distinct(lists[k]) ensures Distinct(out[k]) {
        if TouchesEdge(pts, edges[k]) && id !in lists[k] {
          AppendFresh(lists[k], id);
        }
      }
    }
    out
  }

  /** Appending a value not yet present keeps a list free of duplicates. */
  lemma AppendFresh(s: seq<int>, x: int)
    requires Distinct(s) && x !in s
    ensures Distinct(s + [x])
  {
    forall i, j | 0 <= i < j < |s + [x]| ensures (s + [x])[i] != (s + [x])[j] {
      if j == |s| {
        assert (s + [x])[i] == s[i];
      } else {
        assert (s + [x])[i] == s[i] && (s + [x])[j] == s[j];
      }
    }
  }

  /** Lines 350-359 (and 362-371 for crosslines): the outer loop over the line numbers
      `ids`, each line compared with every edge. */
  function ScanLines(ids: seq<int>, rs: seq<Record>, kind: LineKind, edges: seq<Segment>,
                     lists: seq<seq<int>>): (out: seq<seq<int>>)
    requires |lists| == |edges|
    ensures |out| == |edges|
    ensures forall k :: 0 <= k < |edges| && Distinct(lists[k]) ==> Distinct(out[k])
    ensures forall k, l :: 0 <= k < |edges| ==>
      (l in out[k] <==> l in lists[k] || (l in ids && TouchesEdge(Positions(Rows(rs, kind, l)), edges[k])))
    decreases |ids|
  {
    if |ids| == 0 then lists
    else
      var id := ids[0];
      var next := AddToEdges(id, Positions(Rows(rs, kind, id)), edges, lists);
      assert ids == [id] + ids[1..];
      ScanLines(ids[1..], rs, kind, edges, next)
  }

  /** The sorted list of each edge's line numbers for one family of lines: exactly the
      lines with a record within the tolerance of that edge, ascending and without
      repeats. */
  function EdgeIds(rs: seq<Record>, kind: LineKind, edges: seq<Segment>): (lists: seq<seq<int>>)
    ensures |lists| == |edges|
    ensures forall k :: 0 <= k < |edges| ==> StrictlyIncreasing(lists[k])
    ensures forall k, l :: 0 <= k < |edges| ==> (l in lists[k] <==> HitsEdge(rs, kind, l, edges[k]))
  {
    var ids := Unique(LineNumbers(rs, kind));
    var empty := seq(|edges|, k requires 0 <= k < |edges| => []);
    var raw := ScanLines(ids, rs, kind, edges, empty);
    assert forall k, l :: 0 <= k < |edges| ==> (l in raw[k] <==> HitsEdge(rs, kind, l, edges[k])) by {
      forall k, l | 0 <= k < |edges| ensures l in raw[k] <==> HitsEdge(rs, kind, l, edges[k]) {
        TouchesIffHits(rs, kind, l, edges[k]);
        if HitsEdge(rs, kind, l, edges[k]) {
          var r :| r in rs && LineOf(r, kind) == l && Near(Position(r), edges[k]);
          var i :| 0 <= i < |rs| && rs[i] == r;
          assert LineNumbers(rs, kind)[i] == l;
        }
      }
    }
    seq(|edges|, k requires 0 <= k < |edges| => Sort(raw[k]))
  }

  /** The inlines and crosslines listed for one edge. */
  datatype EdgeLines = EdgeLines(inlines: seq<int>, xlines: seq<int>)

  /** `boundary_edge_lines` on a boundary ring and the trace table: nothing when the ring
      has fewer than four vertices, otherwise one entry per edge listing exactly the
      lines that come within the tolerance of it, ascending and without repeats. */
  function BoundaryEdgeLines(ring: seq<Point>, rs: seq<Record>): (r: seq<EdgeLines>)
    ensures |Open(ring)| < 4 ==> r == []
    ensures |Open(ring)| >= 4 ==> |r| == 4
    ensures |Open(ring)| >= 4 ==> forall k :: 0 <= k < 4 ==>
      StrictlyIncreasing(r[k].inlines) && StrictlyIncreasing(r[k].xlines)
    ensures |Open(ring)| >= 4 ==> forall k, l :: 0 <= k < 4 ==>
      (l in r[k].inlines <==> HitsEdge(rs, Inline, l, Edges(Open(ring))[k])) &&
      (l in r[k].xlines <==> HitsEdge(rs, Xline, l, Edges(Open(ring))[k]))
  {
    var v := Open(ring);
    if |v| < 4 then []
    else
      var edges := Edges(v);
      var inlines := EdgeIds(rs, Inline, edges);
      var xlines := EdgeIds(rs, Xline, edges);
      seq(4, k requires 0 <= k < 4 => EdgeLines(inlines[k], xlines[k]))
  }

  /** The endpoint as a whole: the boundary comes from `survey_boundary` (whose failure
      it shares) and the records from the deduplicated trace table. */
  function BoundaryEdgeLinesResponse(headers: seq<CornerHeader>, sgsHeader: int,
                                     traces: seq<TraceHeader>, m: Metrics)
    : (r: Result<seq<EdgeLines>>)
    ensures r.Err? <==> SurveyBoundary(headers, sgsHeader, traces, m).Err?
    ensures r.Ok? ==> r.value == BoundaryEdgeLines(SurveyBoundary(headers, sgsHeader, traces, m).value.ring.boundary,
                                                   ReadAllMetadata(traces, sgsHeader))
  {
    match SurveyBoundary(headers, sgsHeader, traces, m)
    case Err(e) => Err(e)
    case Ok(info) => Ok(BoundaryEdgeLines(info.ring.boundary, ReadAllMetadata(traces, sgsHeader)))
  }

  /** With the four corner traces of a file and a non-empty trace table the endpoint
      answers with four edge entries. */
  lemma FourCornerEdgesAnswer(headers: seq<CornerHeader>, sgsHeader: int, traces: seq<TraceHeader>, m: Metrics)
    requires |headers| == 4 && |traces| > 0
    ensures var r := BoundaryEdgeLinesResponse(headers, sgsHeader, traces, m);
      r.Ok? && |r.value| == 4
  {
    var ring := SurveyRing(ReadCorners(headers, sgsHeader));
    FourCornerRing(headers, sgsHeader);
    assert |Open(ring.boundary)| == 4;
  }

  /** Edge `k` of the four corner traces runs between the corners visited `k`-th and
      next in the order 0, 3, 1, 2. */
  lemma FourCornerEdges(headers: seq<CornerHeader>, sgsHeader: int)
    requires |headers| == 4
    ensures var v := Open(SurveyRing(ReadCorners(headers, sgsHeader)).boundary);
      |v| == 4 &&
      forall k :: 0 <= k < 4 ==>
        Edges(v)[k] == Segment(CornerPoint(ReadCorners(headers, sgsHeader)[CornerOrder[k]]),
                               CornerPoint(ReadCorners(headers, sgsHeader)[CornerOrder[(k + 1) % 4]]))
  {
    var cs := ReadCorners(headers, sgsHeader);
    var v := Open(SurveyRing(cs).boundary);
    FourCornerRing(headers, sgsHeader);
    forall k | 0 <= k < 4 ensures FindCorner(cs, CornerOrder[k]) == Some(cs[CornerOrder[k]]) {
      FindIndexedCorner(cs, 0, CornerOrder[k]);
    }
    assert forall k :: 0 <= k < 4 ==> v[k] == CornerPoint(cs[CornerOrder[k]]);
  }
}

/**
 The `/grid-data-all` computation: every inline and every crossline with at least two
 traces, as a polyline of scaled trace positions with one hover entry per point.
 */
module Grid {
  import opened Geometry
  import opened Ordering
  import opened Metadata

  /** The values one `hover_info` string shows: the line and the scaled coordinates. */
  datatype Hover = Hover(kind: LineKind, id: int, x: real, y: real)

  /** One entry of the `inlines` or `xlines` list. */
  datatype LineTrace = LineTrace(id: int, points: seq<Point>, hover: seq<Hover>)

  datatype GridResponse = GridResponse(inlines: seq<LineTrace>, xlines: seq<LineTrace>,
                                       totalInlines: int, totalXlines: int)

  function HoverOf(r: Record, kind: LineKind): Hover {
    Hover(kind, LineOf(r, kind), r.x, r.y)
  }

  /** The entry of line `id`: its records' positions and hover values, in table order. Each
      hover value describes the point at the same position, and the points are exactly
      the positions of the records on the line. */
  function TraceOf(rs: seq<Record>, kind: LineKind, id: int): (t: LineTrace)
    ensures t.id == id
    ensures |t.points| == |t.hover| == |Rows(rs, kind, id)|
    ensures Aligned(t, kind)
    ensures forall p :: p in t.points <==> exists r :: r in rs && LineOf(r, kind) == id && Position(r) == p
  {
    var rows := Rows(rs, kind, id);
    var pts := Positions(rows);
    var hover := seq(|rows|, j requires 0 <= j < |rows| => HoverOf(rows[j], kind));
    assert forall j :: 0 <= j < |rows| ==> LineOf(rows[j], kind) == id by {
      forall j | 0 <= j < |rows| ensures LineOf(rows[j], kind) == id {
        assert rows[j] in rows;
      }
    }
    assert forall p :: p in pts <==> exists r :: r in rs && LineOf(r, kind) == id && Position(r) == p by {
      forall p ensures p in pts <==> exists r :: r in rs && LineOf(r, kind) == id && Position(r) == p {
        if p in pts {
          var j :| 0 <= j < |pts| && pts[j] == p;
          assert rows[j] in rows;
        }
        if exists r :: r in rs && LineOf(r, kind) == id && Position(r) == p {
          var r :| r in rs && LineOf(r, kind) == id && Position(r) == p;
          var j :| 0 <= j < |rows| && rows[j] == r;
          assert pts[j] == p;
        }
      }
    }
    LineTrace(id, pts, hover)
  }

  function Ids(ts: seq<LineTrace>): (ids: seq<int>)
    ensures |ids| == |ts|
    ensures forall i :: 0 <= i < |ts| ==> ids[i] == ts[i].id
  {
    seq(|ts|, i requires 0 <= i < |ts| => ts[i].id)
  }

  /** Hover value `j` of an entry shows its line and the coordinates of point `j`. */
  predicate Aligned(t: LineTrace, kind: LineKind) {
    |t.hover| == |t.points| &&
    forall j :: 0 <= j < |t.points| ==> t.hover[j] == Hover(kind, t.id, t.points[j].x, t.points[j].y)
  }

  /** Lines 246-259 (and 263-276): one entry per line number of `ids`, in that order,
      for the lines with at least two records; an entry's points are its line's
      positions in table order, with a hover value for each. */
  function Group(ids: seq<int>, rs: seq<Record>, kind: LineKind): (out: seq<LineTrace>)
    ensures |out| <= |ids|
    ensures forall t :: t in out ==>
      |t.points| >= 2 && Aligned(t, kind) && t.points == Positions(Rows(rs, kind, t.id))
  {
    if |ids| == 0 then []
    else
      var id := ids[0];
      var rest := Group(ids[1..], rs, kind);
      if |Rows(rs, kind, id)| >= 2 then
        [TraceOf(rs, kind, id)] + rest
      else
        rest
  }

  /** A line gets an entry exactly when it is among `ids` and has at least two records. */
  lemma {:induction false} GroupLists(ids: seq<int>, rs: seq<Record>, kind: LineKind)
    ensures forall l :: l in Ids(Group(ids, rs, kind)) <==> l in ids && |Rows(rs, kind, l)| >= 2
  {
    if |ids| > 0 {
      var id := ids[0];
      var rest := Group(ids[1..], rs, kind);
      GroupLists(ids[1..], rs, kind);
      assert ids == [id] + ids[1..];
      if |Rows(rs, kind, id)| >= 2 {
        assert Ids(Group(ids, rs, kind)) == [id] + Ids(rest);
      } else {
        assert Group(ids, rs, kind) == rest;
      }
    }
  }

  /** Grouping ascending line numbers gives entries in ascending order. */
  lemma {:induction false} GroupAscending(ids: seq<int>, rs: seq<Record>, kind: LineKind)
    requires StrictlyIncreasing(ids)
    ensures StrictlyIncreasing(Ids(Group(ids, rs, kind)))
  {
    if |ids| > 0 {
      var id := ids[0];
      var rest := Group(ids[1..], rs, kind);
      assert StrictlyIncreasing(ids[1..]);
      GroupAscending(ids[1..], rs, kind);
      if |Rows(rs, kind, id)| >= 2 {
        GroupLists(ids[1..], rs, kind);
        assert ids == [id] + ids[1..];
        assert Ids(Group(ids, rs, kind)) == [id] + Ids(rest);
        PrependIncreasing(id, ids[1..], Ids(rest));
      } else {
        assert Group(ids, rs, kind) == rest;
      }
    }
  }

  /** A value below every element of a strictly increasing list `s` may go in front of
      any list `t` drawn from `s` that is strictly increasing. */
  lemma PrependIncreasing(a: int, s: seq<int>, t: seq<int>)
    requires StrictlyIncreasing([a] + s)
    requires StrictlyIncreasing(t) && forall y :: y in t ==> y in s
    ensures StrictlyIncreasing([a] + t)
  {
    var r := [a] + t;
    forall i, j | 0 <= i < j < |r| ensures r[i] < r[j] {
      assert r[j] == t[j - 1];
      if i > 0 {
        assert r[i] == t[i - 1];
      } else {
        assert t[j - 1] in s;
        var k :| 0 <= k < |s| && s[k] == t[j - 1];
        assert ([a] + s)[0] == a && ([a] + s)[k + 1] == s[k];
      }
    }
  }

  /** `grid_data_all` on the trace table: the inlines and the crosslines grouped in
      ascending order, each listed line with at least two points, and the totals counting
      the entries. */
  function GridData(rs: seq<Record>): (g: GridResponse)
    ensures g.totalInlines == |g.inlines| && g.totalXlines == |g.xlines|
    ensures StrictlyIncreasing(Ids(g.inlines)) && StrictlyIncreasing(Ids(g.xlines))
    ensures forall l :: l in Ids(g.inlines) <==> |Rows(rs, Inline, l)| >= 2
    ensures forall l :: l in Ids(g.xlines) <==> |Rows(rs, Xline, l)| >= 2
    ensures forall t :: t in g.inlines ==>
      |t.points| >= 2 && Aligned(t, Inline) && t.points == Positions(Rows(rs, Inline, t.id))
    ensures forall t :: t in g.xlines ==>
      |t.points| >= 2 && Aligned(t, Xline) && t.points == Positions(Rows(rs, Xline, t.id))
  {
    var inIds := SortedDistinct(LineNumbers(rs, Inline));
    var xlIds := SortedDistinct(LineNumbers(rs, Xline));
    var inlines := Group(inIds, rs, Inline);
    var xlines := Group(xlIds, rs, Xline);
    GroupLists(inIds, rs, Inline);
    GroupLists(xlIds, rs, Xline);
    GroupAscending(inIds, rs, Inline);
    GroupAscending(xlIds, rs, Xline);
    LinesWithRowsAreListed(rs, Inline);
    LinesWithRowsAreListed(rs, Xline);
    GridResponse(inlines, xlines, |inlines|, |xlines|)
  }

  /** A line with a record is among the line numbers of the table. */
  lemma LinesWithRowsAreListed(rs: seq<Record>, kind: LineKind)
    ensures forall l :: |Rows(rs, kind, l)| > 0 ==> l in SortedDistinct(LineNumbers(rs, kind))
  {
    forall l | |Rows(rs, kind, l)| > 0 ensures l in SortedDistinct(LineNumbers(rs, kind)) {
      var r := Rows(rs, kind, l)[0];
      assert r in Rows(rs, kind, l);
      var i :| 0 <= i < |rs| && rs[i] == r;
      assert LineNumbers(rs, kind)[i] == l;
    }
  }

  /** Selecting the rows of one line keeps their order, so it keeps keys unique. */
  lemma {:induction false} RowsKeepUniqueKeys(rs: seq<Record>, kind: LineKind, id: int)
    requires UniqueKeys(rs)
    ensures UniqueKeys(Rows(rs, kind, id))
  {
    if |rs| > 0 {
      var tail := rs[1..];
      assert UniqueKeys(tail) by {
        forall i, j | 0 <= i < j < |tail| ensures GridKey(tail[i]) != GridKey(tail[j]) {
          assert tail[i] == rs[i + 1] && tail[j] == rs[j + 1];
        }
      }
      RowsKeepUniqueKeys(tail, kind, id);
      var rest := Rows(tail, kind, id);
      if LineOf(rs[0], kind) == id {
        var out := [rs[0]] + rest;
        assert Rows(rs, kind, id) == out;
        forall j | 0 <= j < |rest| ensures GridKey(rs[0]) != GridKey(rest[j]) {
          assert rest[j] in tail;
          var m :| 0 <= m < |tail| && tail[m] == rest[j];
          assert rs[m + 1] == rest[j];
        }
        forall i, j | 0 <= i < j < |out| ensures GridKey(out[i]) != GridKey(out[j]) {
          if i > 0 {
            assert out[i] == rest[i - 1] && out[j] == rest[j - 1];
          } else {
            assert out[j] == rest[j - 1];
          }
        }
      } else {
        assert Rows(rs, kind, id) == rest;
      }
    }
  }

  /** After deduplication a grid line never visits a cell twice: the records of one
      inline lie on distinct crosslines, and those of one crossline on distinct inlines. */
  lemma GridLineCellsDistinct(traces: seq<TraceHeader>, sgsHeader: int, id: int)
    ensures var rows := Rows(ReadAllMetadata(traces, sgsHeader), Inline, id);
      forall i, j :: 0 <= i < j < |rows| ==> rows[i].xline != rows[j].xline
    ensures var rows := Rows(ReadAllMetadata(traces, sgsHeader), Xline, id);
      forall i, j :: 0 <= i < j < |rows| ==> rows[i].inline != rows[j].inline
  {
    var table := ReadAllMetadata(traces, sgsHeader);
    RowsKeepUniqueKeys(table, Inline, id);
    RowsKeepUniqueKeys(table, Xline, id);
    var inl := Rows(table, Inline, id);
    var xl := Rows(table, Xline, id);
    forall i, j | 0 <= i < j < |inl| ensures inl[i].xline != inl[j].xline {
      assert inl[i] in inl && inl[j] in inl;
    }
    forall i, j | 0 <= i < j < |xl| ensures xl[i].inline != xl[j].inline {
      assert xl[i] in xl && xl[j] in xl;
    }
  }
}

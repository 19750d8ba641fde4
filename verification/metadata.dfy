/**
 The trace table of `read_all_segy_metadata`: one record per trace with its inline
 and crossline numbers and its coordinates, raw and scaled by the SGS rule, with
 repeated (inline, crossline) pairs dropped. Also the per-line row selections
 (`df[df['INLINE'] == il]`) that the other endpoints build on.
 */
module Metadata {
  import opened Scaling
  import opened Geometry

  /** The header words of one trace that the backend reads. */
  datatype TraceHeader = TraceHeader(inline: int, xline: int, cdpX: int, cdpY: int)

  /** One row of the trace table. */
  datatype Record = Record(inline: int, xline: int, x: real, y: real, xRaw: int, yRaw: int)

  /** The two families of survey lines. */
  datatype LineKind = Inline | Xline

  /** The line number of a record in the given family (its `INLINE` or `XLINE` column). */
  function LineOf(r: Record, kind: LineKind): int {
    match kind
    case Inline => r.inline
    case Xline => r.xline
  }

  /** The scaled coordinates of a record (its `X`, `Y` columns). */
  function Position(r: Record): Point {
    Point(r.x, r.y)
  }

  /** The pair `drop_duplicates(subset=['INLINE', 'XLINE'])` compares. */
  function GridKey(r: Record): (int, int) {
    (r.inline, r.xline)
  }

  predicate HasKey(rs: seq<Record>, k: (int, int)) {
    exists i :: 0 <= i < |rs| && GridKey(rs[i]) == k
  }

  predicate UniqueKeys(rs: seq<Record>) {
    forall i, j :: 0 <= i < j < |rs| ==> GridKey(rs[i]) != GridKey(rs[j])
  }

  /** No earlier record of `rs` has the key of `rs[i]`. */
  predicate FirstOfKey(rs: seq<Record>, i: int)
    requires 0 <= i < |rs|
  {
    forall j :: 0 <= j < i ==> GridKey(rs[j]) != GridKey(rs[i])
  }

  /** The records among the first `n` of `rs` that are the first with their key,
      in their original order. */
  function KeepFirst(rs: seq<Record>, n: nat): (out: seq<Record>)
    requires n <= |rs|
    ensures UniqueKeys(out)
    ensures forall k :: HasKey(out, k) <==> HasKey(rs[..n], k)
    ensures forall r :: r in out <==> exists i :: 0 <= i < n && rs[i] == r && FirstOfKey(rs, i)
  {
    if n == 0 then []
    else
      var prev := KeepFirst(rs, n - 1);
      var last := rs[n - 1];
      assert rs[..n] == rs[..n - 1] + [last];
      HasKeyAppend(rs[..n - 1], last);
      if FirstOfKey(rs, n - 1) then
        assert !HasKey(rs[..n - 1], GridKey(last)) by {
          var pre := rs[..n - 1];
          forall i | 0 <= i < |pre| ensures GridKey(pre[i]) != GridKey(last) {
            assert pre[i] == rs[i];
          }
        }
        var out := prev + [last];
        HasKeyAppend(prev, last);
        assert forall i :: 0 <= i < |prev| ==> GridKey(prev[i]) != GridKey(last) by {
          forall i | 0 <= i < |prev| ensures GridKey(prev[i]) != GridKey(last) {
            if GridKey(prev[i]) == GridKey(last) {
              assert HasKey(prev, GridKey(last));
            }
          }
        }
        out
      else
        assert HasKey(rs[..n - 1], GridKey(last)) by {
          var j :| 0 <= j < n - 1 && GridKey(rs[j]) == GridKey(last);
          assert rs[..n - 1][j] == rs[j];
        }
        prev
  }

  /** Appending a record adds its key and no other. */
  lemma HasKeyAppend(rs: seq<Record>, r: Record)
    ensures forall k :: HasKey(rs + [r], k) <==> HasKey(rs, k) || GridKey(r) == k
  {
    var out := rs + [r];
    forall k ensures HasKey(out, k) <==> HasKey(rs, k) || GridKey(r) == k {
      if HasKey(out, k) {
        var i :| 0 <= i < |out| && GridKey(out[i]) == k;
        if i < |rs| {
          assert out[i] == rs[i];
        }
      }
      if HasKey(rs, k) {
        var i :| 0 <= i < |rs| && GridKey(rs[i]) == k;
        assert out[i] == rs[i];
      }
      if GridKey(r) == k {
        assert out[|rs|] == r;
      }
    }
  }

  /** `drop_duplicates(subset=['INLINE', 'XLINE'])`: keeps the first record of each
      (inline, crossline) pair, in the original order. */
  function Dedup(rs: seq<Record>): (out: seq<Record>)
    ensures UniqueKeys(out)
    ensures forall k :: HasKey(out, k) <==> HasKey(rs, k)
    ensures forall r :: r in out <==> exists i :: 0 <= i < |rs| && rs[i] == r && FirstOfKey(rs, i)
  {
    assert rs[..|rs|] == rs;
    KeepFirst(rs, |rs|)
  }

  /** `idx` lists, in increasing order, positions below `n` of records of `rs` that are
      each the first with their key, and `out` holds those records in that order. */
  predicate PicksFirsts(rs: seq<Record>, n: nat, idx: seq<int>, out: seq<Record>) {
    |idx| == |out| &&
    (forall j :: 0 <= j < |idx| ==> 0 <= idx[j] < n && idx[j] < |rs| && rs[idx[j]] == out[j] && FirstOfKey(rs, idx[j])) &&
    (forall i, j :: 0 <= i < j < |idx| ==> idx[i] < idx[j])
  }

  /** The kept records appear in their original table order. */
  lemma {:induction false} KeepFirstInOrder(rs: seq<Record>, n: nat)
    requires n <= |rs|
    ensures exists idx :: PicksFirsts(rs, n, idx, KeepFirst(rs, n))
  {
    if n == 0 {
      assert PicksFirsts(rs, n, [], KeepFirst(rs, n));
    } else {
      KeepFirstInOrder(rs, n - 1);
      var prev := KeepFirst(rs, n - 1);
      var idx :| PicksFirsts(rs, n - 1, idx, prev);
      if FirstOfKey(rs, n - 1) {
        var out := prev + [rs[n - 1]];
        assert KeepFirst(rs, n) == out;
        var idx' := idx + [n - 1];
        forall j | 0 <= j < |idx'|
          ensures 0 <= idx'[j] < n && idx'[j] < |rs| && rs[idx'[j]] == out[j] && FirstOfKey(rs, idx'[j])
        {
          if j < |idx| {
            assert idx'[j] == idx[j] && out[j] == prev[j];
          }
        }
        forall i, j | 0 <= i < j < |idx'| ensures idx'[i] < idx'[j] {
          assert idx'[i] == idx[i];
        }
        assert PicksFirsts(rs, n, idx', out);
      } else {
        assert KeepFirst(rs, n) == prev;
        assert PicksFirsts(rs, n, idx, prev);
      }
    }
  }

  /** `drop_duplicates` keeps the surviving records in table order. */
  lemma DedupInOrder(rs: seq<Record>)
    ensures exists idx :: PicksFirsts(rs, |rs|, idx, Dedup(rs))
  {
    assert rs[..|rs|] == rs;
    KeepFirstInOrder(rs, |rs|);
    var idx :| PicksFirsts(rs, |rs|, idx, KeepFirst(rs, |rs|));
    assert PicksFirsts(rs, |rs|, idx, Dedup(rs));
  }

  /** No earlier trace has the (inline, crossline) pair of `traces[i]`. */
  predicate FirstTrace(traces: seq<TraceHeader>, i: int)
    requires 0 <= i < |traces|
  {
    forall j :: 0 <= j < i ==> (traces[j].inline, traces[j].xline) != (traces[i].inline, traces[i].xline)
  }

  /** `idx` lists, in increasing order, traces that are each the first of their pair, and
      `table` holds those traces scaled by `sgs`, in that order. */
  predicate PicksFirstTraces(traces: seq<TraceHeader>, sgs: int, idx: seq<int>, table: seq<Record>) {
    |idx| == |table| &&
    (forall j :: 0 <= j < |idx| ==>
      0 <= idx[j] < |traces| && table[j] == ScaleTrace(traces[idx[j]], sgs) && FirstTrace(traces, idx[j])) &&
    (forall i, j :: 0 <= i < j < |idx| ==> idx[i] < idx[j])
  }

  /** One trace header turned into a table row with coordinates scaled by `sgs`. */
  function ScaleTrace(h: TraceHeader, sgs: int): Record {
    Record(h.inline, h.xline, ApplySgs(h.cdpX as real, sgs), ApplySgs(h.cdpY as real, sgs), h.cdpX, h.cdpY)
  }

  function ScaleTraces(traces: seq<TraceHeader>, sgs: int): (rs: seq<Record>)
    ensures |rs| == |traces|
    ensures forall i :: 0 <= i < |rs| ==> rs[i] == ScaleTrace(traces[i], sgs)
  {
    seq(|traces|, i requires 0 <= i < |traces| => ScaleTrace(traces[i], sgs))
  }

  /** `read_all_segy_metadata`: every trace scaled by the header's SGS scalar (a zero
      scalar counts as 1), then one record kept per (inline, crossline) pair. */
  function ReadAllMetadata(traces: seq<TraceHeader>, sgsHeader: int): (rs: seq<Record>)
    ensures UniqueKeys(rs)
    ensures forall k :: HasKey(rs, k) <==> exists i :: 0 <= i < |traces| && (traces[i].inline, traces[i].xline) == k
  {
    var all := ScaleTraces(traces, EffectiveSgs(sgsHeader));
    assert forall k :: HasKey(all, k) <==> exists i :: 0 <= i < |traces| && (traces[i].inline, traces[i].xline) == k by {
      forall k ensures HasKey(all, k) <==> exists i :: 0 <= i < |traces| && (traces[i].inline, traces[i].xline) == k {
        if HasKey(all, k) {
          var i :| 0 <= i < |all| && GridKey(all[i]) == k;
          assert (traces[i].inline, traces[i].xline) == k;
        }
        if exists i :: 0 <= i < |traces| && (traces[i].inline, traces[i].xline) == k {
          var i :| 0 <= i < |traces| && (traces[i].inline, traces[i].xline) == k;
          assert GridKey(all[i]) == k;
        }
      }
    }
    Dedup(all)
  }

  /** Every record of the table is the first trace of its pair scaled by the effective
      scalar, and its X and Y are its raw coordinates under the SGS rule with the header's
      own scalar. */
  lemma ReadAllMetadataRecords(traces: seq<TraceHeader>, sgsHeader: int)
    ensures forall r :: r in ReadAllMetadata(traces, sgsHeader) ==>
      exists i :: 0 <= i < |traces| && r == ScaleTrace(traces[i], EffectiveSgs(sgsHeader)) && FirstTrace(traces, i)
    ensures forall r :: r in ReadAllMetadata(traces, sgsHeader) ==>
      r.x == ApplySgs(r.xRaw as real, sgsHeader) && r.y == ApplySgs(r.yRaw as real, sgsHeader)
  {
    var all := ScaleTraces(traces, EffectiveSgs(sgsHeader));
    var rs := ReadAllMetadata(traces, sgsHeader);
    assert rs == Dedup(all);
    forall r | r in rs
      ensures exists i :: 0 <= i < |traces| && r == ScaleTrace(traces[i], EffectiveSgs(sgsHeader)) && FirstTrace(traces, i)
      ensures r.x == ApplySgs(r.xRaw as real, sgsHeader) && r.y == ApplySgs(r.yRaw as real, sgsHeader)
    {
      var i :| 0 <= i < |all| && all[i] == r && FirstOfKey(all, i);
      FirstOfKeyIsFirstTrace(traces, EffectiveSgs(sgsHeader), i);
      EffectiveSgsKeepsScaling(traces[i].cdpX as real, sgsHeader);
      EffectiveSgsKeepsScaling(traces[i].cdpY as real, sgsHeader);
    }
  }

  /** Scaling keeps the pairs, so the first record of a pair is the first trace of it. */
  lemma FirstOfKeyIsFirstTrace(traces: seq<TraceHeader>, sgs: int, i: int)
    requires 0 <= i < |traces|
    ensures FirstOfKey(ScaleTraces(traces, sgs), i) <==> FirstTrace(traces, i)
  {
    var all := ScaleTraces(traces, sgs);
    assert forall j :: 0 <= j < |traces| ==> GridKey(all[j]) == (traces[j].inline, traces[j].xline);
  }

  /** `read_all_segy_metadata` keeps the first trace of each pair, in the order of the
      traces in the file. */
  lemma ReadAllMetadataInOrder(traces: seq<TraceHeader>, sgsHeader: int)
    ensures exists idx :: PicksFirstTraces(traces, EffectiveSgs(sgsHeader), idx, ReadAllMetadata(traces, sgsHeader))
  {
    var sgs := EffectiveSgs(sgsHeader);
    var all := ScaleTraces(traces, sgs);
    var table := ReadAllMetadata(traces, sgsHeader);
    assert table == Dedup(all);
    DedupInOrder(all);
    var idx :| PicksFirsts(all, |all|, idx, table);
    forall j | 0 <= j < |idx|
      ensures 0 <= idx[j] < |traces| && table[j] == ScaleTrace(traces[idx[j]], sgs) && FirstTrace(traces, idx[j])
    {
      FirstOfKeyIsFirstTrace(traces, sgs, idx[j]);
    }
    assert PicksFirstTraces(traces, sgs, idx, table);
  }

  /** The line numbers of the records in one family, in table order (`df['INLINE']`). */
  function LineNumbers(rs: seq<Record>, kind: LineKind): (ids: seq<int>)
    ensures |ids| == |rs|
    ensures forall i :: 0 <= i < |rs| ==> ids[i] == LineOf(rs[i], kind)
  {
    seq(|rs|, i requires 0 <= i < |rs| => LineOf(rs[i], kind))
  }

  /** `df[df['INLINE'] == id]`: the records of one line, in table order, each as often
      as it occurs in the table. */
  function Rows(rs: seq<Record>, kind: LineKind, id: int): (out: seq<Record>)
    ensures |out| <= |rs|
    ensures forall r :: r in out <==> r in rs && LineOf(r, kind) == id
  {
    if |rs| == 0 then []
    else
      assert rs == [rs[0]] + rs[1..];
      (if LineOf(rs[0], kind) == id then [rs[0]] else []) + Rows(rs[1..], kind, id)
  }

  /** A line holds each of its records exactly as often as the table does, and no other
      record: so `len(il_data)` counts the table's records of that line. */
  lemma {:induction false} RowsCount(rs: seq<Record>, kind: LineKind, id: int)
    ensures forall r :: multiset(Rows(rs, kind, id))[r] == if LineOf(r, kind) == id then multiset(rs)[r] else 0
  {
    if |rs| > 0 {
      RowsCount(rs[1..], kind, id);
      assert rs == [rs[0]] + rs[1..];
      assert multiset(rs) == multiset([rs[0]]) + multiset(rs[1..]);
      var head := if LineOf(rs[0], kind) == id then [rs[0]] else [];
      assert Rows(rs, kind, id) == head + Rows(rs[1..], kind, id);
      assert multiset(Rows(rs, kind, id)) == multiset(head) + multiset(Rows(rs[1..], kind, id));
    }
  }

  /** `rows[['X', 'Y']].values`: the scaled positions of some records, in order. */
  function Positions(rows: seq<Record>): (pts: seq<Point>)
    ensures |pts| == |rows|
    ensures forall j :: 0 <= j < |rows| ==> pts[j] == Position(rows[j])
  {
    seq(|rows|, j requires 0 <= j < |rows| => Position(rows[j]))
  }
}

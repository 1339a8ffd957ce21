/**
  * The read side of a checklist's inspection data. The records of the
  * checklist are left-joined with their measurements (one joined row per
  * measurement, or a single row without one for a record that has none),
  * and the reader folds the joined rows into one view per record through a
  * dictionary keyed by record id.
  */
module RecordsView {
  import opened Wrappers
  import opened Text
  import opened Models

  /** A row of the records-with-measurements left join; `measurement` is `None` when ParameterId is NULL. */
  datatype JoinedRow = JoinedRow(
    recordId: int,
    shift: string,
    time: Option<string>,
    note: Option<string>,
    measurement: Option<MeasurementView>)

  // ---------------------------------------------------------------------
  // The join
  // ---------------------------------------------------------------------

  /** The measurement columns the join selects. */
  function ToView(m: InspectionMeasurementData): (v: MeasurementView)
    ensures v.parameterId == m.parameterId && v.value == m.measurementValue
    ensures v.isPass == m.isPass && v.isFail == m.isFail
  {
    MeasurementView(m.parameterId, m.parameterName, m.measurementType, m.measurementValue, m.unit,
                    m.isPass, m.isFail, m.minValue, m.maxValue, m.standardValue)
  }

  /** The stored measurements of one record, in table order. */
  function MeasurementsOf(measurements: seq<InspectionMeasurementData>, recordId: int): seq<InspectionMeasurementData>
    decreases |measurements|
  {
    if measurements == [] then []
    else (if measurements[0].recordId == recordId then [measurements[0]] else []) + MeasurementsOf(measurements[1..], recordId)
  }

  /** Inserts `v` after every view whose ParameterId sorts at or below its own. */
  function InsertByParameter(sorted: seq<MeasurementView>, v: MeasurementView): (r: seq<MeasurementView>)
    ensures multiset(r) == multiset(sorted) + multiset{v}
    decreases |sorted|
  {
    if sorted == [] || LexLessEq(sorted[|sorted| - 1].parameterId, v.parameterId) then sorted + [v]
    else
      var init := sorted[..|sorted| - 1];
      assert sorted == init + [sorted[|sorted| - 1]];
      InsertByParameter(init, v) + [sorted[|sorted| - 1]]
  }

  /** `ORDER BY imd.ParameterId` within one record (ordinal order; equal ids keep table order). */
  function SortByParameter(s: seq<MeasurementView>): (r: seq<MeasurementView>)
    ensures multiset(r) == multiset(s)
    decreases |s|
  {
    if s == [] then []
    else
      assert s == s[..|s| - 1] + [s[|s| - 1]];
      InsertByParameter(SortByParameter(s[..|s| - 1]), s[|s| - 1])
  }

  predicate SortedByParameter(s: seq<MeasurementView>) {
    forall i, j :: 0 <= i < j < |s| ==> LexLessEq(s[i].parameterId, s[j].parameterId)
  }

  function MapToView(ms: seq<InspectionMeasurementData>): (r: seq<MeasurementView>)
    ensures |r| == |ms| && forall k :: 0 <= k < |ms| ==> r[k] == ToView(ms[k])
  {
    seq(|ms|, k requires 0 <= k < |ms| => ToView(ms[k]))
  }

  /** The joined rows of a record with at least one measurement: one per measurement. */
  function BlockRows(id: int, shift: string, time: string, note: Option<string>, ms: seq<MeasurementView>): (rows: seq<JoinedRow>)
    ensures |rows| == |ms|
    ensures forall k :: 0 <= k < |rows| ==> rows[k] == JoinedRow(id, shift, Some(time), note, Some(ms[k]))
  {
    seq(|ms|, k requires 0 <= k < |ms| => JoinedRow(id, shift, Some(time), note, Some(ms[k])))
  }

  /** The joined rows of one record. */
  function JoinRecord(r: InspectionRecord, measurements: seq<InspectionMeasurementData>): (rows: seq<JoinedRow>)
    ensures |rows| >= 1
    ensures forall k :: 0 <= k < |rows| ==> rows[k].recordId == r.recordId
  {
    var ms := SortByParameter(MapToView(MeasurementsOf(measurements, r.recordId)));
    var time := HourMinute(r.inspectionTime);
    if ms == [] then [JoinedRow(r.recordId, r.shift, Some(time), r.note, None)]
    else BlockRows(r.recordId, r.shift, time, r.note, ms)
  }

  /**
    * The left join of the checklist's records with their measurements,
    * records in table order (which is the order of CreatedDate and RecordId,
    * as both grow with every insert).
    */
  function JoinRows(records: seq<InspectionRecord>, measurements: seq<InspectionMeasurementData>, checklistId: int): seq<JoinedRow>
    decreases |records|
  {
    if records == [] then []
    else
      var init := records[..|records| - 1];
      var last := records[|records| - 1];
      JoinRows(init, measurements, checklistId)
        + (if last.checklistId == checklistId then JoinRecord(last, measurements) else [])
  }

  // ---------------------------------------------------------------------
  // The fold, as a specification
  // ---------------------------------------------------------------------

  /** The view a record's first joined row creates. */
  function NewView(row: JoinedRow): RecordView {
    RecordView(row.recordId, row.shift, row.time.GetOr(""), row.note, [])
  }

  /** A joined row adds its measurement, if it has one. */
  function AddMeasurement(v: RecordView, row: JoinedRow): (r: RecordView)
    ensures r.recordId == v.recordId
  {
    if row.measurement.Some? then v.(measurements := v.measurements + [row.measurement.value]) else v
  }

  /** The position of the view of `id`, or `|views|` when there is none. */
  function FindView(views: seq<RecordView>, id: int): (k: nat)
    ensures k <= |views|
    ensures k < |views| ==> views[k].recordId == id
    ensures forall j :: 0 <= j < k ==> views[j].recordId != id
    decreases |views|
  {
    if views == [] then 0
    else if views[0].recordId == id then 0
    else 1 + FindView(views[1..], id)
  }

  /** One reader callback: create the view on first sight of its id, then add the measurement. */
  function Step(views: seq<RecordView>, row: JoinedRow): seq<RecordView> {
    var k := FindView(views, row.recordId);
    if k < |views| then views[k := AddMeasurement(views[k], row)]
    else views + [AddMeasurement(NewView(row), row)]
  }

  /** The dictionary's values after reading `rows`, in insertion order. */
  function Fold(rows: seq<JoinedRow>): seq<RecordView>
    decreases |rows|
  {
    if rows == [] then [] else Step(Fold(rows[..|rows| - 1]), rows[|rows| - 1])
  }

  // ---------------------------------------------------------------------
  // The fold, as the reader loop runs it
  // ---------------------------------------------------------------------

  function ViewsOf(dict: map<int, RecordView>, order: seq<int>): (r: seq<RecordView>)
    requires forall k :: 0 <= k < |order| ==> order[k] in dict
    ensures |r| == |order| && forall k :: 0 <= k < |order| ==> r[k] == dict[order[k]]
  {
    seq(|order|, k requires 0 <= k < |order| && order[k] in dict => dict[order[k]])
  }

  /** What the reader loop keeps: a dictionary and the order its keys were added in. */
  ghost predicate DictInvariant(dict: map<int, RecordView>, order: seq<int>) {
    (forall id :: id in dict <==> id in order)
    && (forall a, b :: 0 <= a < b < |order| ==> order[a] != order[b])
    && (forall k :: 0 <= k < |order| ==> order[k] in dict && dict[order[k]].recordId == order[k])
  }

  /** The dictionary after one reader callback. */
  function StepDict(dict: map<int, RecordView>, row: JoinedRow): map<int, RecordView> {
    if row.recordId in dict then dict[row.recordId := AddMeasurement(dict[row.recordId], row)]
    else dict[row.recordId := AddMeasurement(NewView(row), row)]
  }

  /** The insertion order after one reader callback. */
  function StepOrder(dict: map<int, RecordView>, order: seq<int>, row: JoinedRow): seq<int> {
    if row.recordId in dict then order else order + [row.recordId]
  }

  /** One callback on the dictionary is one `Step` on its values in insertion order. */
  lemma StepOnDict(dict: map<int, RecordView>, order: seq<int>, row: JoinedRow)
    requires DictInvariant(dict, order)
    ensures DictInvariant(StepDict(dict, row), StepOrder(dict, order, row))
    ensures Step(ViewsOf(dict, order), row) == ViewsOf(StepDict(dict, row), StepOrder(dict, order, row))
  {
    if row.recordId in dict {
      StepOnSeenId(dict, order, row);
    } else {
      StepOnNewId(dict, order, row);
    }
  }

  lemma StepOnSeenId(dict: map<int, RecordView>, order: seq<int>, row: JoinedRow)
    requires DictInvariant(dict, order) && row.recordId in dict
    ensures DictInvariant(StepDict(dict, row), order)
    ensures Step(ViewsOf(dict, order), row) == ViewsOf(StepDict(dict, row), order)
  {
    var views := ViewsOf(dict, order);
    var id := row.recordId;
    var k :| 0 <= k < |order| && order[k] == id;
    assert views[k].recordId == id;
    assert FindView(views, id) == k;
    assert Step(views, row) == views[k := AddMeasurement(views[k], row)];
  }

  lemma StepOnNewId(dict: map<int, RecordView>, order: seq<int>, row: JoinedRow)
    requires DictInvariant(dict, order) && row.recordId !in dict
    ensures DictInvariant(StepDict(dict, row), order + [row.recordId])
    ensures Step(ViewsOf(dict, order), row) == ViewsOf(StepDict(dict, row), order + [row.recordId])
  {
    var views := ViewsOf(dict, order);
    var id := row.recordId;
    assert forall j :: 0 <= j < |views| ==> views[j].recordId == order[j] && order[j] != id;
    assert FindView(views, id) == |views|;
  }

  /** `GetInspectionRecordsAsync`'s reader loop over the joined rows. */
  method FoldRecords(rows: seq<JoinedRow>) returns (result: seq<RecordView>)
    ensures result == Fold(rows)
  {
    var recordsDict: map<int, RecordView> := map[];
    var order: seq<int> := [];
    var i := 0;
    while i < |rows|
      invariant 0 <= i <= |rows|
      invariant DictInvariant(recordsDict, order)
      invariant ViewsOf(recordsDict, order) == Fold(rows[..i])
    {
      var row := rows[i];
      assert rows[..i + 1][..i] == rows[..i];
      FoldLast(rows[..i + 1], Fold(rows[..i]), row);
      StepOnDict(recordsDict, order, row);
      ghost var dict', order' := StepDict(recordsDict, row), StepOrder(recordsDict, order, row);
      if row.recordId !in recordsDict {
        recordsDict := recordsDict[row.recordId := NewView(row)];
        order := order + [row.recordId];
      }
      if row.measurement.Some? {
        var v := recordsDict[row.recordId];
        recordsDict := recordsDict[row.recordId := v.(measurements := v.measurements + [row.measurement.value])];
      }
      assert recordsDict == dict' && order == order';
      i := i + 1;
    }
    assert rows[..i] == rows;
    result := ViewsOf(recordsDict, order);
  }

  // ---------------------------------------------------------------------
  // What the fold yields
  // ---------------------------------------------------------------------

  /** The record ids of `rows` without repeats, in order of first appearance. */
  function Distinct(ids: seq<int>): seq<int>
    decreases |ids|
  {
    if ids == [] then []
    else
      var rest := Distinct(ids[..|ids| - 1]);
      if ids[|ids| - 1] in rest then rest else rest + [ids[|ids| - 1]]
  }

  function RowIds(rows: seq<JoinedRow>): (r: seq<int>)
    ensures |r| == |rows| && forall k :: 0 <= k < |rows| ==> r[k] == rows[k].recordId
  {
    seq(|rows|, k requires 0 <= k < |rows| => rows[k].recordId)
  }

  function ViewIds(views: seq<RecordView>): (r: seq<int>)
    ensures |r| == |views| && forall k :: 0 <= k < |views| ==> r[k] == views[k].recordId
  {
    seq(|views|, k requires 0 <= k < |views| => views[k].recordId)
  }

  /** The first joined row of record `id`, if there is one. */
  function FirstRowOf(rows: seq<JoinedRow>, id: int): (r: Option<JoinedRow>)
    ensures r.Some? ==> r.value in rows && r.value.recordId == id
    ensures r.None? <==> forall k :: 0 <= k < |rows| ==> rows[k].recordId != id
    decreases |rows|
  {
    if rows == [] then None
    else if rows[0].recordId == id then Some(rows[0])
    else
      var r := FirstRowOf(rows[1..], id);
      assert forall k :: 1 <= k < |rows| ==> rows[k] == rows[1..][k - 1];
      r
  }

  /** The measurements of the joined rows of record `id`, in row order. */
  function MeasurementsFor(rows: seq<JoinedRow>, id: int): seq<MeasurementView>
    decreases |rows|
  {
    if rows == [] then []
    else
      var last := rows[|rows| - 1];
      MeasurementsFor(rows[..|rows| - 1], id)
        + (if last.recordId == id && last.measurement.Some? then [last.measurement.value] else [])
  }

  /**
    * The view record `id` must get from `rows`: header from its first row,
    * every measurement of its rows; `None` when no row has that id.
    */
  function ViewFor(rows: seq<JoinedRow>, id: int): Option<RecordView> {
    match FirstRowOf(rows, id)
    case None => None
    case Some(first) => Some(RecordView(id, first.shift, first.time.GetOr(""), first.note, MeasurementsFor(rows, id)))
  }

  lemma {:induction false} FirstRowOfAppend(rows: seq<JoinedRow>, row: JoinedRow, id: int)
    ensures FirstRowOf(rows + [row], id) == if FirstRowOf(rows, id).Some? then FirstRowOf(rows, id)
                                            else if row.recordId == id then Some(row) else None
    decreases |rows|
  {
    if rows == [] {
      assert rows + [row] == [row];
    } else {
      assert (rows + [row])[1..] == rows[1..] + [row];
      FirstRowOfAppend(rows[1..], row, id);
    }
  }

  /** How one more joined row changes the view the rows determine. */
  lemma ViewForAppend(rows: seq<JoinedRow>, row: JoinedRow, id: int)
    ensures ViewFor(rows + [row], id)
            == if ViewFor(rows, id).Some? then
                 (if row.recordId == id then Some(AddMeasurement(ViewFor(rows, id).value, row)) else ViewFor(rows, id))
               else if row.recordId == id then Some(AddMeasurement(NewView(row), row))
               else None
  {
    FirstRowOfAppend(rows, row, id);
    assert (rows + [row])[..|rows|] == rows;
    assert MeasurementsFor(rows + [row], id)
           == MeasurementsFor(rows, id) + (if row.recordId == id && row.measurement.Some? then [row.measurement.value] else []);
    if FirstRowOf(rows, id).None? {
      NoRowsNoMeasurements(rows, id);
      if row.recordId == id {
        var first := FirstRowOf(rows + [row], id).value;
        assert first == row;
        if row.measurement.Some? {
          assert MeasurementsFor(rows + [row], id) == [row.measurement.value];
        } else {
          assert MeasurementsFor(rows + [row], id) == [];
        }
      }
    } else {
      var first := FirstRowOf(rows, id).value;
      var v := ViewFor(rows, id).value;
      assert v == RecordView(id, first.shift, first.time.GetOr(""), first.note, MeasurementsFor(rows, id));
      assert FirstRowOf(rows + [row], id) == Some(first);
      if row.recordId == id && row.measurement.Some? {
        assert ViewFor(rows + [row], id) == Some(v.(measurements := v.measurements + [row.measurement.value]));
      } else {
        assert MeasurementsFor(rows + [row], id) == MeasurementsFor(rows, id);
        assert ViewFor(rows + [row], id) == Some(v);
      }
    }
  }

  lemma {:induction false} NoRowsNoMeasurements(rows: seq<JoinedRow>, id: int)
    requires forall k :: 0 <= k < |rows| ==> rows[k].recordId != id
    ensures MeasurementsFor(rows, id) == []
    decreases |rows|
  {
    if rows != [] {
      NoRowsNoMeasurements(rows[..|rows| - 1], id);
    }
  }

  /**
    * `views` are the views the rows determine: each is the view of its id,
    * every id with rows has one, and no id has two.
    */
  ghost predicate ViewsMatch(rows: seq<JoinedRow>, views: seq<RecordView>) {
    (forall k :: 0 <= k < |views| ==> ViewFor(rows, views[k].recordId) == Some(views[k]))
    && (forall id :: ViewFor(rows, id).Some? ==> exists k :: 0 <= k < |views| && views[k].recordId == id)
    && (forall a, b :: 0 <= a < b < |views| ==> views[a].recordId != views[b].recordId)
  }

  /** The fold's views are the ones the rows determine. */
  lemma {:induction false} FoldViews(rows: seq<JoinedRow>)
    ensures ViewsMatch(rows, Fold(rows))
    decreases |rows|
  {
    if rows != [] {
      var init := rows[..|rows| - 1];
      var row := rows[|rows| - 1];
      FoldViews(init);
      SnocLast(rows);
      var views := Fold(init);
      var f := FindView(views, row.recordId);
      if f < |views| {
        SeenIdMatches(init, row, views, f);
      } else {
        NewIdMatches(init, row, views);
      }
    }
  }

  /** A row of a record that already has a view adds its measurement to that view. */
  lemma SeenIdMatches(rows: seq<JoinedRow>, row: JoinedRow, views: seq<RecordView>, f: nat)
    requires ViewsMatch(rows, views) && f < |views| && views[f].recordId == row.recordId
    ensures ViewsMatch(rows + [row], views[f := AddMeasurement(views[f], row)])
  {
    var next := views[f := AddMeasurement(views[f], row)];
    forall k | 0 <= k < |next|
      ensures ViewFor(rows + [row], next[k].recordId) == Some(next[k])
    {
      ViewForAppend(rows, row, next[k].recordId);
    }
    forall id | ViewFor(rows + [row], id).Some?
      ensures exists k :: 0 <= k < |next| && next[k].recordId == id
    {
      ViewForAppend(rows, row, id);
      assert ViewFor(rows, views[f].recordId) == Some(views[f]);
      assert ViewFor(rows, id).Some?;
      var k :| 0 <= k < |views| && views[k].recordId == id;
      assert next[k].recordId == id;
    }
  }

  /** The first row of a record without a view opens a new view at the end. */
  lemma NewIdMatches(rows: seq<JoinedRow>, row: JoinedRow, views: seq<RecordView>)
    requires ViewsMatch(rows, views)
    requires forall k :: 0 <= k < |views| ==> views[k].recordId != row.recordId
    ensures ViewsMatch(rows + [row], views + [AddMeasurement(NewView(row), row)])
  {
    var next := views + [AddMeasurement(NewView(row), row)];
    assert ViewFor(rows, row.recordId).None?;
    forall k | 0 <= k < |next|
      ensures ViewFor(rows + [row], next[k].recordId) == Some(next[k])
    {
      ViewForAppend(rows, row, next[k].recordId);
    }
    forall id | ViewFor(rows + [row], id).Some?
      ensures exists k :: 0 <= k < |next| && next[k].recordId == id
    {
      ViewForAppend(rows, row, id);
      if ViewFor(rows, id).Some? {
        var k :| 0 <= k < |views| && views[k].recordId == id;
        assert next[k].recordId == id;
      } else {
        assert next[|views|].recordId == id;
      }
    }
  }

  /** The views come in order of first appearance of their record ids, one per id. */
  lemma {:induction false} FoldIds(rows: seq<JoinedRow>)
    ensures ViewIds(Fold(rows)) == Distinct(RowIds(rows))
    decreases |rows|
  {
    if rows != [] {
      var init := rows[..|rows| - 1];
      var row := rows[|rows| - 1];
      FoldIds(init);
      var views := Fold(init);
      assert RowIds(rows)[..|rows| - 1] == RowIds(init);
      DistinctMembers(RowIds(init));
      var f := FindView(views, row.recordId);
      if f < |views| {
        assert ViewIds(Fold(rows)) == ViewIds(views);
        assert row.recordId in ViewIds(views);
      } else {
        assert row.recordId !in ViewIds(views);
        assert ViewIds(Fold(rows)) == ViewIds(views) + [row.recordId];
      }
    }
  }

  /** The ids `Distinct` keeps are exactly the ids of its input. */
  lemma {:induction false} DistinctMembers(ids: seq<int>)
    ensures forall x :: x in Distinct(ids) <==> x in ids
    ensures forall a, b :: 0 <= a < b < |Distinct(ids)| ==> Distinct(ids)[a] != Distinct(ids)[b]
    decreases |ids|
  {
    if ids != [] {
      DistinctMembers(ids[..|ids| - 1]);
      assert ids == ids[..|ids| - 1] + [ids[|ids| - 1]];
    }
  }

  /** The number of joined rows that carry a measurement. */
  function CountWithMeasurement(rows: seq<JoinedRow>): nat
    decreases |rows|
  {
    if rows == [] then 0
    else CountWithMeasurement(rows[..|rows| - 1]) + (if rows[|rows| - 1].measurement.Some? then 1 else 0)
  }

  /** The number of measurements over all views. */
  function TotalMeasurements(views: seq<RecordView>): nat
    decreases |views|
  {
    if views == [] then 0
    else TotalMeasurements(views[..|views| - 1]) + |views[|views| - 1].measurements|
  }

  lemma {:induction false} TotalUpdate(views: seq<RecordView>, k: nat, v: RecordView)
    requires k < |views|
    ensures TotalMeasurements(views[k := v]) + |views[k].measurements| == TotalMeasurements(views) + |v.measurements|
    decreases |views|
  {
    var n := |views| - 1;
    if k < n {
      assert views[k := v][..n] == views[..n][k := v];
      TotalUpdate(views[..n], k, v);
    } else {
      assert views[k := v][..n] == views[..n];
    }
  }

  /** Every joined row with a ParameterId adds exactly one measurement, and no other row adds one. */
  lemma {:induction false} FoldCountsMeasurements(rows: seq<JoinedRow>)
    ensures TotalMeasurements(Fold(rows)) == CountWithMeasurement(rows)
    decreases |rows|
  {
    if rows != [] {
      var init := rows[..|rows| - 1];
      var row := rows[|rows| - 1];
      FoldCountsMeasurements(init);
      var views := Fold(init);
      var f := FindView(views, row.recordId);
      if f < |views| {
        TotalUpdate(views, f, AddMeasurement(views[f], row));
      } else {
        assert (views + [AddMeasurement(NewView(row), row)])[..|views|] == views;
      }
    }
  }

  // ---------------------------------------------------------------------
  // Properties of the join
  // ---------------------------------------------------------------------

  lemma {:induction false} InsertByParameterSorted(sorted: seq<MeasurementView>, v: MeasurementView)
    requires SortedByParameter(sorted)
    ensures SortedByParameter(InsertByParameter(sorted, v))
    decreases |sorted|
  {
    if sorted != [] {
      var init := sorted[..|sorted| - 1];
      var last := sorted[|sorted| - 1];
      if !LexLessEq(last.parameterId, v.parameterId) {
        InsertByParameterSorted(init, v);
        LexTotal(last.parameterId, v.parameterId);
        InsertedBelow(sorted, v);
        SortedSnoc(InsertByParameter(init, v), last);
      } else {
        forall y | y in sorted
          ensures LexLessEq(y.parameterId, v.parameterId)
        {
          var i :| 0 <= i < |sorted| && sorted[i] == y;
          if y.parameterId != last.parameterId && last.parameterId != v.parameterId {
            LexTransitive(y.parameterId, last.parameterId, v.parameterId);
          }
        }
        SortedSnoc(sorted, v);
      }
    }
  }

  /** Inserting a view that sorts below the last one leaves every view at or below the last one. */
  lemma InsertedBelow(sorted: seq<MeasurementView>, v: MeasurementView)
    requires SortedByParameter(sorted) && sorted != []
    requires LexLessEq(v.parameterId, sorted[|sorted| - 1].parameterId)
    ensures forall y :: y in InsertByParameter(sorted[..|sorted| - 1], v) ==>
              LexLessEq(y.parameterId, sorted[|sorted| - 1].parameterId)
  {
    var init := sorted[..|sorted| - 1];
    var r := InsertByParameter(init, v);
    forall y | y in r
      ensures LexLessEq(y.parameterId, sorted[|sorted| - 1].parameterId)
    {
      assert y in multiset(r);
      if y != v {
        assert y in multiset(init);
        var i :| 0 <= i < |init| && init[i] == y;
        assert sorted[i] == y;
      }
    }
  }

  /** A view at or above every view of a sorted sequence can go at its end. */
  lemma SortedSnoc(s: seq<MeasurementView>, x: MeasurementView)
    requires SortedByParameter(s)
    requires forall y :: y in s ==> LexLessEq(y.parameterId, x.parameterId)
    ensures SortedByParameter(s + [x])
  {
    var t := s + [x];
    forall i, j | 0 <= i < j < |t|
      ensures LexLessEq(t[i].parameterId, t[j].parameterId)
    {
      assert t[i] == s[i] && s[i] in s;
      if j < |s| {
        assert t[j] == s[j];
      }
    }
  }

  /** Within a record, measurements come out ordered by ParameterId, and none is lost or added. */
  lemma {:induction false} SortByParameterCorrect(s: seq<MeasurementView>)
    ensures SortedByParameter(SortByParameter(s))
    ensures multiset(SortByParameter(s)) == multiset(s)
    decreases |s|
  {
    if s != [] {
      SortByParameterCorrect(s[..|s| - 1]);
      InsertByParameterSorted(SortByParameter(s[..|s| - 1]), s[|s| - 1]);
    }
  }

  // ---------------------------------------------------------------------
  // The join read back through the fold
  // ---------------------------------------------------------------------

  /** The records of checklist `checklistId`, in table order. */
  function RecordsOf(records: seq<InspectionRecord>, checklistId: int): (r: seq<InspectionRecord>)
    ensures forall x :: x in r <==> x in records && x.checklistId == checklistId
    ensures |r| <= |records|
    decreases |records|
  {
    if records == [] then []
    else
      var init := records[..|records| - 1];
      var last := records[|records| - 1];
      assert records == init + [last];
      RecordsOf(init, checklistId) + (if last.checklistId == checklistId then [last] else [])
  }

  /** The view of a stored record: its time as "HH:mm", its measurements by ParameterId. */
  function ExpectedView(r: InspectionRecord, measurements: seq<InspectionMeasurementData>): RecordView {
    RecordView(r.recordId, r.shift, HourMinute(r.inspectionTime), r.note,
               SortByParameter(MapToView(MeasurementsOf(measurements, r.recordId))))
  }

  function ExpectedViews(rs: seq<InspectionRecord>, measurements: seq<InspectionMeasurementData>): (r: seq<RecordView>)
    ensures |r| == |rs| && forall k :: 0 <= k < |rs| ==> r[k] == ExpectedView(rs[k], measurements)
  {
    seq(|rs|, k requires 0 <= k < |rs| => ExpectedView(rs[k], measurements))
  }

  predicate RecordIdsDistinct(records: seq<InspectionRecord>) {
    forall i, j :: 0 <= i < j < |records| ==> records[i].recordId != records[j].recordId
  }

  /** The rows of a block whose id is new to the fold add one view holding all of the block's measurements. */
  lemma {:induction false} FoldBlockRows(a: seq<JoinedRow>, id: int, shift: string, time: string, note: Option<string>, ms: seq<MeasurementView>)
    requires forall k :: 0 <= k < |Fold(a)| ==> Fold(a)[k].recordId != id
    requires |ms| >= 1
    ensures Fold(a + BlockRows(id, shift, time, note, ms)) == Fold(a) + [RecordView(id, shift, time, note, ms)]
    decreases |ms|
  {
    var n := |ms| - 1;
    var rows := a + BlockRows(id, shift, time, note, ms);
    var row := JoinedRow(id, shift, Some(time), note, Some(ms[n]));
    assert rows[|rows| - 1] == row;
    if n == 0 {
      assert rows[..|rows| - 1] == a;
      assert FindView(Fold(a), id) == |Fold(a)|;
      assert ms == [] + [ms[0]];
    } else {
      assert rows[..|rows| - 1] == a + BlockRows(id, shift, time, note, ms[..n]);
      FoldBlockRows(a, id, shift, time, note, ms[..n]);
      var prev := Fold(a) + [RecordView(id, shift, time, note, ms[..n])];
      FoldLast(rows, prev, row);
      StepOnLastView(Fold(a), RecordView(id, shift, time, note, ms[..n]), row);
      SnocLast(ms);
    }
  }

  /** A row of the last view's record, when no earlier view has that record, extends the last view. */
  lemma StepOnLastView(views: seq<RecordView>, v: RecordView, row: JoinedRow)
    requires forall k :: 0 <= k < |views| ==> views[k].recordId != v.recordId
    requires row.recordId == v.recordId && row.measurement.Some?
    ensures Step(views + [v], row) == views + [v.(measurements := v.measurements + [row.measurement.value])]
  {
    var prev := views + [v];
    assert prev[|views|].recordId == v.recordId;
    assert forall j :: 0 <= j < |views| ==> prev[j] == views[j];
    assert FindView(prev, v.recordId) == |views|;
  }

  lemma FoldLast(rows: seq<JoinedRow>, prev: seq<RecordView>, row: JoinedRow)
    requires |rows| > 0 && Fold(rows[..|rows| - 1]) == prev && rows[|rows| - 1] == row
    ensures Fold(rows) == Step(prev, row)
  {
  }

  /** A record whose id is new to the fold adds exactly its expected view. */
  lemma FoldBlock(a: seq<JoinedRow>, r: InspectionRecord, measurements: seq<InspectionMeasurementData>)
    requires forall k :: 0 <= k < |Fold(a)| ==> Fold(a)[k].recordId != r.recordId
    ensures Fold(a + JoinRecord(r, measurements)) == Fold(a) + [ExpectedView(r, measurements)]
  {
    var ms := SortByParameter(MapToView(MeasurementsOf(measurements, r.recordId)));
    if ms == [] {
      var rows := a + JoinRecord(r, measurements);
      assert rows[..|rows| - 1] == a;
      assert FindView(Fold(a), r.recordId) == |Fold(a)|;
    } else {
      FoldBlockRows(a, r.recordId, r.shift, HourMinute(r.inspectionTime), r.note, ms);
    }
  }

  /**
    * Reading a checklist's inspection data yields exactly one view per
    * record of the checklist, in table order, each with the record's shift,
    * its time as "HH:mm", its note and all of its stored measurements ordered
    * by ParameterId; a record without measurements still appears.
    */
  lemma {:induction false} ReadBackRecords(records: seq<InspectionRecord>, measurements: seq<InspectionMeasurementData>, checklistId: int)
    requires RecordIdsDistinct(records)
    ensures Fold(JoinRows(records, measurements, checklistId)) == ExpectedViews(RecordsOf(records, checklistId), measurements)
    decreases |records|
  {
    if records != [] {
      var init := records[..|records| - 1];
      var last := records[|records| - 1];
      var a := JoinRows(init, measurements, checklistId);
      ReadBackRecords(init, measurements, checklistId);
      RecordsOfSnoc(init, last, checklistId);
      if last.checklistId == checklistId {
        LastIdIsNew(records, checklistId);
        FoldBlock(a, last, measurements);
        assert JoinRows(records, measurements, checklistId) == a + JoinRecord(last, measurements);
        ExpectedViewsSnoc(RecordsOf(init, checklistId), last, measurements);
      } else {
        assert JoinRows(records, measurements, checklistId) == a + [];
        assert a + [] == a;
      }
    }
  }

  lemma RecordsOfSnoc(records: seq<InspectionRecord>, x: InspectionRecord, c: int)
    ensures RecordsOf(records + [x], c) == RecordsOf(records, c) + (if x.checklistId == c then [x] else [])
  {
    assert (records + [x])[..|records|] == records;
  }

  lemma ExpectedViewsSnoc(rs: seq<InspectionRecord>, x: InspectionRecord, measurements: seq<InspectionMeasurementData>)
    ensures ExpectedViews(rs + [x], measurements) == ExpectedViews(rs, measurements) + [ExpectedView(x, measurements)]
  {
  }

  /** With distinct ids, the last record's id is not among the earlier records of any checklist. */
  lemma LastIdIsNew(records: seq<InspectionRecord>, checklistId: int)
    requires records != [] && RecordIdsDistinct(records)
    ensures var init := records[..|records| - 1];
            forall k :: 0 <= k < |RecordsOf(init, checklistId)| ==>
              RecordsOf(init, checklistId)[k].recordId != records[|records| - 1].recordId
  {
    var init := records[..|records| - 1];
    forall k | 0 <= k < |RecordsOf(init, checklistId)|
      ensures RecordsOf(init, checklistId)[k].recordId != records[|records| - 1].recordId
    {
      var x := RecordsOf(init, checklistId)[k];
      assert x in RecordsOf(init, checklistId);
      var i :| 0 <= i < |init| && init[i] == x;
      assert records[i] == x;
    }
  }
}

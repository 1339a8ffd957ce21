/**
  * The CSV export of one checklist: a header line, then one line per
  * measurement of each record the inspection page reads back, in record
  * order. Fields are joined with commas and never quoted, so a field that
  * holds a comma shifts the columns after it.
  */
module CsvExport {
  import opened Wrappers
  import opened Text
  import opened Models
  import opened RecordsView
  import opened InspectCode
  import opened ChecklistService

  const CsvHeader: string := "วันที่,FG Code,สินค้า,ลูกค้า,กะ,เวลา,พารามิเตอร์,ค่าที่วัดได้,หน่วย,ประเภท,ผลการตรวจ,ผู้ตรวจสอบ,หมายเหตุ"

  const ChecklistMissingMessage: string := "ไม่พบรายการตรวจสอบ"

  const MeasuredLabel: string := "วัดค่า"
  const CheckedLabel: string := "ตรวจสอบ"
  const PassLabel: string := "ผ่าน"
  const FailLabel: string := "ไม่ผ่าน"
  const NoVerdictLabel: string := "N/A"

  /** The number of columns of every line. */
  const ColumnCount: nat := 13

  /** `{date:yyyy-MM-dd}`. */
  function DateText(d: Date): (r: string)
    requires d.year >= 0 && 0 <= d.month < 100 && 0 <= d.day < 100
    ensures d.year < 10000 ==> |r| == 10 && r[4] == '-' && r[7] == '-'
  {
    FormatDLength(d.year, 4);
    FormatDLength(d.month, 2);
    FormatDLength(d.day, 2);
    FormatD(d.year, 4) + "-" + FormatD(d.month, 2) + "-" + FormatD(d.day, 2)
  }

  /** The type column: a numeric parameter is measured, any other one checked. */
  function TypeLabel(measurementType: string): string {
    if measurementType == "number" then MeasuredLabel else CheckedLabel
  }

  /** The result column: the pass flag wins over the fail flag. */
  function Verdict(m: MeasurementView): string {
    if m.isPass then PassLabel else if m.isFail then FailLabel else NoVerdictLabel
  }

  /** The thirteen fields of the line of measurement `m` of record `r`. */
  function CsvFields(c: InspectionChecklist, r: RecordView, m: MeasurementView): (f: seq<string>)
    requires ValidDate(c.createdDate)
    ensures |f| == ColumnCount
  {
    [DateText(c.createdDate), c.fgCode, c.itemName, c.customer, r.shift, r.time, m.parameterName,
     m.value.GetOr(""), m.unit.GetOr(""), TypeLabel(m.measurementType), Verdict(m),
     c.inspector.GetOr(""), r.note.GetOr("")]
  }

  function CsvLine(c: InspectionChecklist, r: RecordView, m: MeasurementView): string
    requires ValidDate(c.createdDate)
  {
    Join(CsvFields(c, r, m))
  }

  /** The lines of the given measurements of record `r`, in order. */
  function RecordLines(c: InspectionChecklist, r: RecordView, ms: seq<MeasurementView>): (lines: seq<string>)
    requires ValidDate(c.createdDate)
    ensures |lines| == |ms|
    decreases |ms|
  {
    if ms == [] then []
    else RecordLines(c, r, ms[..|ms| - 1]) + [CsvLine(c, r, ms[|ms| - 1])]
  }

  /** The lines of every measurement of the given records, record after record. */
  function Lines(c: InspectionChecklist, views: seq<RecordView>): seq<string>
    requires ValidDate(c.createdDate)
    decreases |views|
  {
    if views == [] then []
    else
      var last := views[|views| - 1];
      Lines(c, views[..|views| - 1]) + RecordLines(c, last, last.measurements)
  }

  /** The whole export: the header line, then the measurement lines. */
  function CsvLines(c: InspectionChecklist, views: seq<RecordView>): seq<string>
    requires ValidDate(c.createdDate)
  {
    [CsvHeader] + Lines(c, views)
  }

  /** The number of measurements of the given records. */
  function MeasurementCount(views: seq<RecordView>): nat
    decreases |views|
  {
    if views == [] then 0
    else MeasurementCount(views[..|views| - 1]) + |views[|views| - 1].measurements|
  }

  // ---------------------------------------------------------------------
  // Joining and splitting on commas
  // ---------------------------------------------------------------------

  /** The fields laid end to end with a comma between neighbours. */
  function Join(fields: seq<string>): string
    requires |fields| > 0
    decreases |fields|
  {
    if |fields| == 1 then fields[0] else fields[0] + "," + Join(fields[1..])
  }

  /** The number of commas in `s`. */
  function Commas(s: string): nat
    decreases |s|
  {
    if s == [] then 0 else (if s[0] == ',' then 1 else 0) + Commas(s[1..])
  }

  /** How a CSV reader cuts a line: at every comma, with no quoting. */
  function Split(s: string): (r: seq<string>)
    ensures |r| == Commas(s) + 1
    decreases |s|
  {
    if s == [] then [""]
    else
      var rest := Split(s[1..]);
      if s[0] == ',' then [""] + rest else [[s[0]] + rest[0]] + rest[1..]
  }

  /** The commas of all the fields together. */
  function FieldCommas(fields: seq<string>): nat
    decreases |fields|
  {
    if fields == [] then 0 else Commas(fields[0]) + FieldCommas(fields[1..])
  }

  // ---------------------------------------------------------------------
  // The export
  // ---------------------------------------------------------------------

  /**
    * `ExportInspectionDataAsync(checklistId)`, each `AppendLine` an element
    * of the result: fails when the checklist does not exist, and otherwise
    * writes the header and then, for each record the inspection page reads
    * back, one line per measurement.
    */
  method ExportInspectionData(db: ChecklistDb, checklistId: int) returns (r: Result<seq<string>, string>)
    requires db.Valid()
    requires forall c :: c in db.checklists ==> ValidDate(c.createdDate)
    ensures db.GetChecklistById(checklistId).None? ==> r == Err(ChecklistMissingMessage)
    ensures db.GetChecklistById(checklistId).Some? ==>
              r == Ok(CsvLines(db.GetChecklistById(checklistId).value,
                               ExpectedViews(RecordsOf(db.records, checklistId), db.measurements)))
  {
    var checklist := db.GetChecklistById(checklistId);
    if checklist.None? {
      return Err(ChecklistMissingMessage);
    }
    var c := checklist.value;
    var records := db.GetInspectionRecords(checklistId);
    var csv := [CsvHeader];
    var i := 0;
    while i < |records|
      invariant 0 <= i <= |records|
      invariant csv == [CsvHeader] + Lines(c, records[..i])
    {
      csv := AppendRecordLines(csv, c, records[i]);
      LinesStep(c, records, i);
      AppendAssoc([CsvHeader], Lines(c, records[..i]), RecordLines(c, records[i], records[i].measurements));
      i := i + 1;
    }
    assert records[..i] == records;
    r := Ok(csv);
  }

  /** The inner loop of the export: one line per measurement of `record`, appended in order. */
  method AppendRecordLines(csv: seq<string>, c: InspectionChecklist, record: RecordView) returns (out: seq<string>)
    requires ValidDate(c.createdDate)
    ensures out == csv + RecordLines(c, record, record.measurements)
  {
    out := csv;
    var j := 0;
    while j < |record.measurements|
      invariant 0 <= j <= |record.measurements|
      invariant out == csv + RecordLines(c, record, record.measurements[..j])
    {
      out := out + [CsvLine(c, record, record.measurements[j])];
      assert record.measurements[..j + 1][..j] == record.measurements[..j];
      j := j + 1;
    }
    assert record.measurements[..j] == record.measurements;
  }

  // ---------------------------------------------------------------------
  // Properties
  // ---------------------------------------------------------------------

  lemma LinesStep(c: InspectionChecklist, views: seq<RecordView>, i: int)
    requires ValidDate(c.createdDate)
    requires 0 <= i < |views|
    ensures Lines(c, views[..i + 1]) == Lines(c, views[..i]) + RecordLines(c, views[i], views[i].measurements)
  {
    assert views[..i + 1][..i] == views[..i];
  }

  /** The result column says pass exactly when the pass flag is set, fail exactly when only the fail flag is. */
  lemma VerdictCases(m: MeasurementView)
    ensures Verdict(m) == PassLabel <==> m.isPass
    ensures Verdict(m) == FailLabel <==> !m.isPass && m.isFail
    ensures Verdict(m) == NoVerdictLabel <==> !m.isPass && !m.isFail
  {
    assert PassLabel != FailLabel && PassLabel[0] != NoVerdictLabel[0] && FailLabel[0] != NoVerdictLabel[0];
  }

  /** The type column says measured exactly for a numeric parameter. */
  lemma TypeLabelCases(measurementType: string)
    ensures TypeLabel(measurementType) == MeasuredLabel <==> measurementType == "number"
  {
    assert MeasuredLabel[0] != CheckedLabel[0];
  }

  /** The export has one line more than there are measurements: the header. */
  lemma {:induction false} CsvLineCount(c: InspectionChecklist, views: seq<RecordView>)
    requires ValidDate(c.createdDate)
    ensures |CsvLines(c, views)| == 1 + MeasurementCount(views)
    ensures CsvLines(c, views)[0] == CsvHeader
  {
    LinesLength(c, views);
  }

  lemma {:induction false} LinesLength(c: InspectionChecklist, views: seq<RecordView>)
    requires ValidDate(c.createdDate)
    ensures |Lines(c, views)| == MeasurementCount(views)
    decreases |views|
  {
    if views != [] {
      LinesLength(c, views[..|views| - 1]);
    }
  }

  /** Lines of a record sit in the order of its measurements. */
  lemma {:induction false} RecordLinesAt(c: InspectionChecklist, r: RecordView, ms: seq<MeasurementView>, t: int)
    requires ValidDate(c.createdDate)
    requires 0 <= t < |ms|
    ensures RecordLines(c, r, ms)[t] == CsvLine(c, r, ms[t])
    decreases |ms|
  {
    if t < |ms| - 1 {
      RecordLinesAt(c, r, ms[..|ms| - 1], t);
    }
  }

  /**
    * Line `1 + MeasurementCount(views[..j]) + t` of the export is the line of
    * measurement `t` of record `j`: records in order, each record's
    * measurements in order, nothing in between.
    */
  lemma {:induction false} CsvLineAt(c: InspectionChecklist, views: seq<RecordView>, j: int, t: int)
    requires ValidDate(c.createdDate)
    requires 0 <= j < |views| && 0 <= t < |views[j].measurements|
    ensures 1 + MeasurementCount(views[..j]) + t < |CsvLines(c, views)|
    ensures CsvLines(c, views)[1 + MeasurementCount(views[..j]) + t] == CsvLine(c, views[j], views[j].measurements[t])
  {
    LinesAt(c, views, j, t);
  }

  lemma {:induction false} LinesAt(c: InspectionChecklist, views: seq<RecordView>, j: int, t: int)
    requires ValidDate(c.createdDate)
    requires 0 <= j < |views| && 0 <= t < |views[j].measurements|
    ensures MeasurementCount(views[..j]) + t < |Lines(c, views)|
    ensures Lines(c, views)[MeasurementCount(views[..j]) + t] == CsvLine(c, views[j], views[j].measurements[t])
    decreases |views|
  {
    var init := views[..|views| - 1];
    if j == |views| - 1 {
      LinesAtLast(c, views, t);
    } else {
      var last := views[|views| - 1];
      assert Lines(c, views) == Lines(c, init) + RecordLines(c, last, last.measurements);
      assert views[..j] == init[..j] && views[j] == init[j];
      LinesAt(c, init, j, t);
    }
  }

  lemma LinesAtLast(c: InspectionChecklist, views: seq<RecordView>, t: int)
    requires ValidDate(c.createdDate)
    requires 0 < |views| && 0 <= t < |views[|views| - 1].measurements|
    ensures var j := |views| - 1;
            MeasurementCount(views[..j]) + t < |Lines(c, views)|
            && Lines(c, views)[MeasurementCount(views[..j]) + t] == CsvLine(c, views[j], views[j].measurements[t])
  {
    var init := views[..|views| - 1];
    var last := views[|views| - 1];
    assert Lines(c, views) == Lines(c, init) + RecordLines(c, last, last.measurements);
    LinesLength(c, init);
    RecordLinesAt(c, last, last.measurements, t);
  }

  /** A field without commas comes back from the reader whole. */
  lemma {:induction false} SplitField(f: string)
    requires Commas(f) == 0
    ensures Split(f) == [f]
    decreases |f|
  {
    if f != [] {
      SplitField(f[1..]);
      assert [f[0]] + f[1..] == f;
    }
  }

  /** A comma-free field followed by a comma is cut off as one column. */
  lemma {:induction false} SplitFirstField(f: string, tail: string)
    requires Commas(f) == 0
    ensures Split(f + "," + tail) == [f] + Split(tail)
    decreases |f|
  {
    var s := f + "," + tail;
    if f == [] {
      assert s[1..] == tail;
    } else {
      assert s[1..] == f[1..] + "," + tail;
      SplitFirstField(f[1..], tail);
      assert [f[0]] + f[1..] == f;
    }
  }

  /** Splitting undoes joining when no field holds a comma. */
  lemma {:induction false} SplitJoin(fields: seq<string>)
    requires |fields| > 0
    requires FieldCommas(fields) == 0
    ensures Split(Join(fields)) == fields
    decreases |fields|
  {
    if |fields| == 1 {
      SplitField(fields[0]);
    } else {
      SplitJoin(fields[1..]);
      SplitFirstField(fields[0], Join(fields[1..]));
    }
  }

  lemma {:induction false} CommasAppend(a: string, b: string)
    ensures Commas(a + b) == Commas(a) + Commas(b)
    decreases |a|
  {
    if a == [] {
      assert a + b == b;
    } else {
      assert (a + b)[0] == a[0] && (a + b)[1..] == a[1..] + b;
      CommasAppend(a[1..], b);
    }
  }

  /** A joined line holds one comma between each pair of fields, plus the fields' own. */
  lemma {:induction false} CommasJoin(fields: seq<string>)
    requires |fields| > 0
    ensures Commas(Join(fields)) == |fields| - 1 + FieldCommas(fields)
    decreases |fields|
  {
    if |fields| > 1 {
      CommasJoin(fields[1..]);
      CommasAppend(fields[0] + ",", Join(fields[1..]));
      CommasAppend(fields[0], ",");
      assert ","[1..] == [];
    }
  }

  lemma {:induction false} FieldCommasZero(fields: seq<string>)
    ensures FieldCommas(fields) == 0 <==> forall i :: 0 <= i < |fields| ==> Commas(fields[i]) == 0
    decreases |fields|
  {
    if fields != [] {
      FieldCommasZero(fields[1..]);
      assert forall i :: 1 <= i < |fields| ==> fields[i] == fields[1..][i - 1];
    }
  }

  /**
    * A reader sees exactly thirteen columns in a measurement line if and only
    * if none of its fields holds a comma; then the columns are the fields,
    * so the type and result columns read back as written.
    */
  lemma CsvColumns(c: InspectionChecklist, r: RecordView, m: MeasurementView)
    requires ValidDate(c.createdDate)
    ensures |Split(CsvLine(c, r, m))| == ColumnCount
            <==> forall i :: 0 <= i < ColumnCount ==> Commas(CsvFields(c, r, m)[i]) == 0
    ensures |Split(CsvLine(c, r, m))| == ColumnCount ==>
              Split(CsvLine(c, r, m)) == CsvFields(c, r, m)
              && Split(CsvLine(c, r, m))[9] == TypeLabel(m.measurementType)
              && Split(CsvLine(c, r, m))[10] == Verdict(m)
  {
    var fields := CsvFields(c, r, m);
    CommasJoin(fields);
    FieldCommasZero(fields);
    if FieldCommas(fields) == 0 {
      SplitJoin(fields);
    }
  }

  /** A note holding a comma pushes the line past thirteen columns. */
  lemma CommaInNoteShifts(c: InspectionChecklist, r: RecordView, m: MeasurementView)
    requires ValidDate(c.createdDate)
    requires r.note.Some? && Commas(r.note.value) > 0
    ensures |Split(CsvLine(c, r, m))| > ColumnCount
  {
    var fields := CsvFields(c, r, m);
    CommasJoin(fields);
    FieldCommasZero(fields);
    assert Commas(fields[12]) > 0;
  }
}

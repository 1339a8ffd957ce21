/**
  * The checklist service over its three tables: `InspectionChecklist`
  * (headers), `InspectionRecord` (rows of the inspection sheet) and
  * `InspectionMeasurementData` (one measured parameter of one row). Creating
  * a checklist allocates its inspect code; saving the inspection sheet
  * rewrites the header's remark, inspector and approver and replaces every
  * record of the checklist with the posted rows and their measurements.
  *
  * Each statement of the save runs on a connection of its own, outside the
  * transaction the service opens, so a failure part-way through keeps the
  * writes made before it.
  */
module ChecklistService {
  import opened Wrappers
  import opened Text
  import opened Models
  import opened InspectCode
  import opened RecordsView

  // ---------------------------------------------------------------------
  // Creating a checklist
  // ---------------------------------------------------------------------

  /** The non-NULL values of the `InspectCode` column, in table order. */
  function InspectCodesOf(checklists: seq<InspectionChecklist>): (r: seq<string>)
    ensures forall code :: code in r <==> exists c :: c in checklists && c.inspectCode == Some(code)
    decreases |checklists|
  {
    if checklists == [] then []
    else
      var init := checklists[..|checklists| - 1];
      var last := checklists[|checklists| - 1];
      assert checklists == init + [last];
      InspectCodesOf(init) + (if last.inspectCode.Some? then [last.inspectCode.value] else [])
  }

  /** `string.IsNullOrEmpty(InspectCode)`: the form left the code to the service. */
  predicate NeedsCode(c: InspectionChecklist) {
    c.inspectCode.None? || c.inspectCode == Some("")
  }

  /** The allocator's plant and zone for a form: KB01 and A when the form has none. */
  function CodePlant(c: InspectionChecklist): string { c.plant.GetOr(DefaultPlant) }

  function CodeZone(c: InspectionChecklist): string { c.machineZone.GetOr("A") }

  /** The number of allocation attempts the service allows. */
  const MaxRetries: int := 5

  /** SQL Server's refusal of the insert when the `@Plant` parameter is NULL (its text also quotes the query). */
  const PlantNotSuppliedMessage: string := NotSuppliedMessage("@Plant")

  /**
    * The header row the insert stores, with the inspector columns holding the
    * selected users' names.
    */
  function HeaderRow(c: InspectionChecklist, code: string, id: int): (r: InspectionChecklist)
    ensures r.checklistId == id && r.inspectCode == Some(code)
    ensures r.inspectorTeamA == c.inspectorTeamA && r.inspectorTeamB == c.inspectorTeamB
    ensures r.fgCode == c.fgCode && r.plant == c.plant && r.status == c.status && r.createdBy == c.createdBy
  {
    c.(checklistId := id, inspectCode := Some(code))
  }

  /**
    * The header row the insert stores as written: the inspector columns are
    * bound to the selected users' ids, so they hold the ids' decimal text.
    */
  function HeaderRowAsWritten(c: InspectionChecklist, code: string, id: int): (r: InspectionChecklist)
    ensures r.inspectorTeamA == Some(IntToString(c.inspectorTeamAId))
    ensures r.inspectorTeamB == Some(IntToString(c.inspectorTeamBId))
  {
    HeaderRow(c, code, id).(inspectorTeamA := Some(IntToString(c.inspectorTeamAId)),
                            inspectorTeamB := Some(IntToString(c.inspectorTeamBId)))
  }

  /**
    * As written, a selected inspector's name never reaches the table when it
    * does not start with a digit or a minus sign: the column gets the id.
    */
  lemma AsWrittenLosesInspectorName(c: InspectionChecklist, code: string, id: int)
    requires c.inspectorTeamA.Some? && |c.inspectorTeamA.value| > 0
    requires !IsDigit(c.inspectorTeamA.value[0]) && c.inspectorTeamA.value[0] != '-'
    ensures HeaderRowAsWritten(c, code, id).inspectorTeamA != c.inspectorTeamA
    ensures HeaderRow(c, code, id).inspectorTeamA == c.inspectorTeamA
  {
    var stored := IntToString(c.inspectorTeamAId);
    assert stored[0] == '-' || IsDigit(stored[0]);
  }

  /** The code a new checklist gets, or the allocator's error. */
  function CodeFor(c: InspectionChecklist, codes: seq<string>, today: Date): (r: Result<string, string>)
    requires ValidDate(today)
    ensures r.Err? ==> NeedsCode(c) && r.error == ExhaustedMessage
    ensures !NeedsCode(c) ==> r == Ok(c.inspectCode.value)
    ensures NeedsCode(c) && r.Ok? ==> r.value !in codes
  {
    if !NeedsCode(c) then Ok(c.inspectCode.value)
    else
      var generated := GenerateInspectCode(codes, CodePlant(c), CodeZone(c), today);
      if generated !in codes then Ok(generated) else Err(ExhaustedMessage)
  }

  /**
    * A code the service allocates is new, starts with the day's prefix of the
    * form's plant and zone, and is held by exactly one checklist once the
    * header is inserted.
    */
  lemma AllocatedCodeIsUnique(checklists: seq<InspectionChecklist>, c: InspectionChecklist, today: Date, id: int)
    requires ValidDate(today) && NeedsCode(c)
    requires CodeFor(c, InspectCodesOf(checklists), today).Ok?
    ensures var code := CodeFor(c, InspectCodesOf(checklists), today).value;
            StartsWith(code, InspectPrefix(CodePlant(c), CodeZone(c), today))
            && CountCode(InspectCodesOf(checklists + [HeaderRow(c, code, id)]), code) == 1
  {
    var codes := InspectCodesOf(checklists);
    var code := CodeFor(c, codes, today).value;
    var all := checklists + [HeaderRow(c, code, id)];
    assert all[..|all| - 1] == checklists;
    assert InspectCodesOf(all) == codes + [code];
    CountCodeAppend(codes, code);
  }

  lemma {:induction false} CountCodeAppend(codes: seq<string>, code: string)
    requires code !in codes
    ensures CountCode(codes + [code], code) == 1
    decreases |codes|
  {
    if codes == [] {
      assert CountCode([code], code) == 1 by {
        assert [code][1..] == [];
      }
    } else {
      assert (codes + [code])[1..] == codes[1..] + [code];
      CountCodeAppend(codes[1..], code);
    }
  }

  // ---------------------------------------------------------------------
  // Saving the inspection sheet: the state the save produces
  // ---------------------------------------------------------------------

  /** The reason a save stops: `TimeSpan.Parse` refused a row's time. */
  datatype SaveError = InvalidTime(text: string)

  /** The header update: remark, inspector and approver of checklist `req.checklistId`. */
  function UpdateHeader(checklists: seq<InspectionChecklist>, req: InspectionDataRequest): (r: seq<InspectionChecklist>)
    ensures |r| == |checklists|
    ensures forall k :: 0 <= k < |r| && checklists[k].checklistId != req.checklistId ==> r[k] == checklists[k]
    ensures forall k :: 0 <= k < |r| && checklists[k].checklistId == req.checklistId ==>
              r[k].remark == req.remark && r[k].inspector == req.inspector && r[k].approver == req.approver
              && r[k] == checklists[k].(remark := r[k].remark, inspector := r[k].inspector, approver := r[k].approver)
  {
    seq(|checklists|, k requires 0 <= k < |checklists| =>
      if checklists[k].checklistId == req.checklistId
      then checklists[k].(remark := req.remark, inspector := req.inspector, approver := req.approver)
      else checklists[k])
  }

  /** The records the delete keeps: those of other checklists. */
  function WithoutRecordsOf(records: seq<InspectionRecord>, checklistId: int): (r: seq<InspectionRecord>)
    ensures forall x :: x in r <==> x in records && x.checklistId != checklistId
    decreases |records|
  {
    if records == [] then []
    else
      var init := records[..|records| - 1];
      var last := records[|records| - 1];
      assert records == init + [last];
      WithoutRecordsOf(init, checklistId) + (if last.checklistId != checklistId then [last] else [])
  }

  /** The ids of the records the delete removes. */
  function DeletedIds(records: seq<InspectionRecord>, checklistId: int): set<int> {
    set x | x in records && x.checklistId == checklistId :: x.recordId
  }

  /** The measurements that survive the delete (their records are not deleted). */
  function KeepMeasurements(measurements: seq<InspectionMeasurementData>, deleted: set<int>): (r: seq<InspectionMeasurementData>)
    ensures forall m :: m in r <==> m in measurements && m.recordId !in deleted
    decreases |measurements|
  {
    if measurements == [] then []
    else
      var init := measurements[..|measurements| - 1];
      var last := measurements[|measurements| - 1];
      assert measurements == init + [last];
      KeepMeasurements(init, deleted) + (if last.recordId !in deleted then [last] else [])
  }

  /** `request.Measurements.Where(m => m.RowIndex == i)`. */
  function RowMeasurements(ms: seq<InspectionMeasurement>, i: int): (r: seq<InspectionMeasurement>)
    ensures forall m :: m in r <==> m in ms && m.rowIndex == i
    ensures |r| <= |ms|
    decreases |ms|
  {
    if ms == [] then []
    else
      var init := ms[..|ms| - 1];
      var last := ms[|ms| - 1];
      assert ms == init + [last];
      RowMeasurements(init, i) + (if last.rowIndex == i then [last] else [])
  }

  /**
    * The stored row of a posted measurement. The verdict is the page's own:
    * IsPass and IsFail are copied, never computed from the value. A "number"
    * keeps its parsed value (when it parses) and its limits; a "leftright"
    * gets PassFailValue true; any other type stores no value and no limits.
    * `NumericValue`, `MinValue`, `MaxValue` and `StandardValue` are
    * `decimal(18,2)` columns and hold the values rounded to hundredths;
    * `ActualValue` keeps the parsed value as it is.
    */
  function ToMeasurementRow(m: InspectionMeasurement, recordId: int, parseDecimal: string -> Option<real>): (r: InspectionMeasurementData)
    ensures r.recordId == recordId && r.parameterId == m.parameter && r.measurementType == m.measurementType
    ensures r.measurementValue == m.value && r.unit == m.unit
    ensures r.isPass == m.passed && r.isFail == m.failed
    ensures r.numericValue == Round2Opt(r.actualValue)
    ensures m.measurementType == "number" ==>
              r.actualValue == (if m.value.Some? then parseDecimal(m.value.value) else None)
              && r.minValue == Round2Opt(m.minValue) && r.maxValue == Round2Opt(m.maxValue)
              && r.standardValue == Round2Opt(m.standardValue)
              && r.passFailValue.None?
    ensures m.measurementType != "number" ==>
              r.actualValue.None? && r.numericValue.None? && r.minValue.None? && r.maxValue.None? && r.standardValue.None?
              && r.passFailValue == (if m.measurementType == "leftright" then Some(true) else None)
  {
    var numeric := if m.measurementType == "number" && m.value.Some? then parseDecimal(m.value.value) else None;
    var isNumber := m.measurementType == "number";
    InspectionMeasurementData(
      recordId, m.parameter, m.parameterName, m.measurementType, m.value,
      Round2Opt(numeric), numeric, m.unit,
      if m.measurementType == "leftright" then Some(true) else None,
      m.passed, m.failed,
      if isNumber then Round2Opt(m.minValue) else None,
      if isNumber then Round2Opt(m.maxValue) else None,
      if isNumber then Round2Opt(m.standardValue) else None)
  }

  /**
    * A "number" measurement's limits read back as posted when they have at
    * most two places, and within half a hundredth of the posted value
    * otherwise.
    */
  lemma StoredLimitsOfNumber(m: InspectionMeasurement, recordId: int, parseDecimal: string -> Option<real>)
    requires m.measurementType == "number"
    ensures var v := ToView(ToMeasurementRow(m, recordId, parseDecimal));
            (m.minValue.None? || TwoPlaces(m.minValue.value) ==> v.minValue == m.minValue)
            && (m.maxValue.None? || TwoPlaces(m.maxValue.value) ==> v.maxValue == m.maxValue)
            && (m.standardValue.None? || TwoPlaces(m.standardValue.value) ==> v.standardValue == m.standardValue)
            && (v.minValue.Some? <==> m.minValue.Some?)
            && (m.minValue.Some? ==> -0.005 <= v.minValue.value - m.minValue.value <= 0.005)
  {
    if m.minValue.None? || TwoPlaces(m.minValue.value) {
      Round2OptExact(m.minValue);
    }
    if m.maxValue.None? || TwoPlaces(m.maxValue.value) {
      Round2OptExact(m.maxValue);
    }
    if m.standardValue.None? || TwoPlaces(m.standardValue.value) {
      Round2OptExact(m.standardValue);
    }
  }

  /** A posted MinValue of 9.484 reads back as 9.48. */
  lemma FinerLimitReadsBackRounded(m: InspectionMeasurement, recordId: int, parseDecimal: string -> Option<real>)
    requires m.measurementType == "number" && m.minValue == Some(9.484)
    ensures ToView(ToMeasurementRow(m, recordId, parseDecimal)).minValue == Some(9.48)
  {
    assert NearestHundredths(9.484 * 100.0) == 948;
  }

  /** `rowMeasurements.Select(m => ToMeasurementRow(m, recordId))`, in posting order. */
  function MeasurementRows(ms: seq<InspectionMeasurement>, recordId: int, parseDecimal: string -> Option<real>): (r: seq<InspectionMeasurementData>)
    ensures |r| == |ms|
    decreases |ms|
  {
    if ms == [] then []
    else MeasurementRows(ms[..|ms| - 1], recordId, parseDecimal) + [ToMeasurementRow(ms[|ms| - 1], recordId, parseDecimal)]
  }

  /** Each posted measurement becomes the stored row at its own position. */
  lemma {:induction false} MeasurementRowsAt(ms: seq<InspectionMeasurement>, recordId: int, parseDecimal: string -> Option<real>)
    ensures forall k :: 0 <= k < |ms| ==>
              MeasurementRows(ms, recordId, parseDecimal)[k] == ToMeasurementRow(ms[k], recordId, parseDecimal)
    decreases |ms|
  {
    if ms != [] {
      MeasurementRowsAt(ms[..|ms| - 1], recordId, parseDecimal);
    }
  }

  /** The number of leading rows whose time parses: the save stops at the first that does not. */
  function ParsedPrefix(rows: seq<InspectionRowData>, parseTime: string -> Option<ClockTime>): (n: nat)
    ensures n <= |rows|
    ensures forall i :: 0 <= i < n ==> parseTime(rows[i].time).Some?
    ensures n < |rows| ==> parseTime(rows[n].time).None?
    decreases |rows|
  {
    if rows == [] || parseTime(rows[0].time).None? then 0
    else
      var n := ParsedPrefix(rows[1..], parseTime);
      assert forall i :: 1 <= i < n + 1 ==> rows[i] == rows[1..][i - 1];
      1 + n
  }

  /** The record the `i`-th posted row becomes, with id `id`. */
  function RowRecord(checklistId: int, row: InspectionRowData, time: ClockTime, id: int): InspectionRecord {
    InspectionRecord(id, checklistId, row.shift, time, row.note)
  }

  /** The records the first `k` posted rows become, with ids from `base` on. */
  function NewRecords(checklistId: int, rows: seq<InspectionRowData>, parseTime: string -> Option<ClockTime>, base: int, k: nat)
    : (r: seq<InspectionRecord>)
    requires k <= ParsedPrefix(rows, parseTime)
    ensures |r| == k
    decreases k
  {
    if k == 0 then []
    else NewRecords(checklistId, rows, parseTime, base, k - 1)
         + [RowRecord(checklistId, rows[k - 1], parseTime(rows[k - 1].time).value, base + k - 1)]
  }

  /** Row `i` becomes record `base + i` of the checklist, with the row's shift, parsed time and note. */
  lemma {:induction false} NewRecordsAt(checklistId: int, rows: seq<InspectionRowData>, parseTime: string -> Option<ClockTime>, base: int, k: nat)
    requires k <= ParsedPrefix(rows, parseTime)
    ensures forall i :: 0 <= i < k ==>
              NewRecords(checklistId, rows, parseTime, base, k)[i]
              == InspectionRecord(base + i, checklistId, rows[i].shift, parseTime(rows[i].time).value, rows[i].note)
    decreases k
  {
    if k > 0 {
      NewRecordsAt(checklistId, rows, parseTime, base, k - 1);
    }
  }

  /** The stored measurements of posted row `i`, under record `base + i`. */
  function RowBlock(ms: seq<InspectionMeasurement>, base: int, i: int, parseDecimal: string -> Option<real>)
    : (r: seq<InspectionMeasurementData>)
    ensures |r| == |RowMeasurements(ms, i)|
  {
    MeasurementRows(RowMeasurements(ms, i), base + i, parseDecimal)
  }

  /** The measurements of the first `k` posted rows, row by row, row `i`'s under record `base + i`. */
  function NewMeasurements(ms: seq<InspectionMeasurement>, base: int, k: nat, parseDecimal: string -> Option<real>)
    : (r: seq<InspectionMeasurementData>)
    decreases k
  {
    if k == 0 then []
    else NewMeasurements(ms, base, k - 1, parseDecimal) + RowBlock(ms, base, k - 1, parseDecimal)
  }

  // ---------------------------------------------------------------------
  // The database
  // ---------------------------------------------------------------------

  predicate ChecklistIdsBelow(checklists: seq<InspectionChecklist>, bound: int) {
    (forall i, j :: 0 <= i < j < |checklists| ==> checklists[i].checklistId < checklists[j].checklistId)
    && (forall i :: 0 <= i < |checklists| ==> checklists[i].checklistId < bound)
  }

  predicate RecordIdsBelow(records: seq<InspectionRecord>, bound: int) {
    (forall i, j :: 0 <= i < j < |records| ==> records[i].recordId < records[j].recordId)
    && (forall i :: 0 <= i < |records| ==> records[i].recordId < bound)
  }

  predicate MeasurementIdsBelow(measurements: seq<InspectionMeasurementData>, bound: int) {
    forall m :: m in measurements ==> m.recordId < bound
  }

  class ChecklistDb {
    var checklists: seq<InspectionChecklist>
    var records: seq<InspectionRecord>
    var measurements: seq<InspectionMeasurementData>
    /** The identity counters of the two tables that use SCOPE_IDENTITY. */
    var nextChecklistId: int
    var nextRecordId: int

    /** Identity ids grow in insertion order and no stored row refers to an id not yet issued. */
    ghost predicate Valid()
      reads this
    {
      ChecklistIdsBelow(checklists, nextChecklistId)
      && RecordIdsBelow(records, nextRecordId)
      && MeasurementIdsBelow(measurements, nextRecordId)
    }

    constructor ()
      ensures Valid()
      ensures checklists == [] && records == [] && measurements == []
      ensures nextChecklistId == 1 && nextRecordId == 1
    {
      checklists := [];
      records := [];
      measurements := [];
      nextChecklistId := 1;
      nextRecordId := 1;
    }

    /** `GetChecklistByIdAsync(id)`: the header with that id, if any. */
    function GetChecklistById(id: int): (r: Option<InspectionChecklist>)
      reads this
      ensures r.Some? ==> r.value in checklists && r.value.checklistId == id
      ensures r.None? <==> forall c :: c in checklists ==> c.checklistId != id
    {
      FindChecklist(checklists, id)
    }

    /**
      * `CreateChecklistAsync(c)` on day `today`: allocates an inspect code
      * when the form has none (up to five attempts), then inserts the header
      * and returns its new id. The allocator's failure and a NULL plant both
      * leave the tables as they were.
      */
    method CreateChecklist(c: InspectionChecklist, today: Date) returns (r: Result<int, string>)
      requires Valid() && ValidDate(today)
      modifies this
      ensures Valid()
      ensures records == old(records) && measurements == old(measurements) && nextRecordId == old(nextRecordId)
      ensures var code := CodeFor(c, old(InspectCodesOf(checklists)), today);
              if code.Err? then
                r == Err(code.error) && checklists == old(checklists) && nextChecklistId == old(nextChecklistId)
              else if c.plant.None? then
                r == Err(PlantNotSuppliedMessage) && checklists == old(checklists) && nextChecklistId == old(nextChecklistId)
              else
                r == Ok(old(nextChecklistId))
                && checklists == old(checklists) + [HeaderRow(c, code.value, old(nextChecklistId))]
                && nextChecklistId == old(nextChecklistId) + 1
    {
      var code: string;
      if NeedsCode(c) {
        var generated := GenerateUniqueInspectCode(InspectCodesOf(checklists), CodePlant(c), CodeZone(c), today, MaxRetries);
        if generated.Err? {
          return Err(generated.error);
        }
        code := generated.value;
      } else {
        code := c.inspectCode.value;
      }
      if c.plant.None? {
        return Err(PlantNotSuppliedMessage);
      }
      var id := nextChecklistId;
      checklists := checklists + [HeaderRow(c, code, id)];
      nextChecklistId := nextChecklistId + 1;
      r := Ok(id);
    }

    /**
      * `SaveInspectionDataAsync(req)`, with `TimeSpan.Parse` as `parseTime`
      * and `decimal.TryParse` as `parseDecimal`: updates the header, deletes
      * the checklist's records (and, with them, their measurements), then
      * inserts the posted rows in order, each followed by the measurements
      * whose RowIndex is its position. The first row whose time does not
      * parse stops the save with the rows before it already stored.
      */
    method SaveInspectionData(req: InspectionDataRequest, parseTime: string -> Option<ClockTime>,
                              parseDecimal: string -> Option<real>)
      returns (outcome: Outcome<SaveError>)
      requires Valid()
      modifies this
      ensures Valid()
      ensures checklists == UpdateHeader(old(checklists), req) && nextChecklistId == old(nextChecklistId)
      ensures records == SavedRecords(old(records), req, parseTime, old(nextRecordId))
      ensures measurements == SavedMeasurements(old(measurements), old(records), req, parseTime, parseDecimal, old(nextRecordId))
      ensures var k := ParsedPrefix(req.inspectionRows, parseTime);
              nextRecordId == old(nextRecordId) + k
              && (outcome.Pass? <==> k == |req.inspectionRows|)
              && (outcome.Fail? ==> outcome.error == InvalidTime(req.inspectionRows[k].time))
    {
      UpdateChecklistHeader(req);
      DeleteRecordsOf(req.checklistId);
      outcome := InsertRows(req, parseTime, parseDecimal);
    }

    /**
      * The first `i` posted rows of `req` are stored after `records0` and
      * `measurements0`, with record ids from `base` on.
      */
    ghost predicate RowsStored(req: InspectionDataRequest, parseTime: string -> Option<ClockTime>,
                               parseDecimal: string -> Option<real>, base: int,
                               records0: seq<InspectionRecord>, measurements0: seq<InspectionMeasurementData>, i: nat)
      requires i <= ParsedPrefix(req.inspectionRows, parseTime)
      reads this
    {
      records == records0 + NewRecords(req.checklistId, req.inspectionRows, parseTime, base, i)
      && measurements == measurements0 + NewMeasurements(req.measurements, base, i, parseDecimal)
      && nextRecordId == base + i
    }

    /**
      * The insert loop of the save: each posted row in order becomes a record
      * followed by its measurements, until a time does not parse.
      */
    method InsertRows(req: InspectionDataRequest, parseTime: string -> Option<ClockTime>,
                      parseDecimal: string -> Option<real>)
      returns (outcome: Outcome<SaveError>)
      requires Valid()
      modifies this
      ensures Valid()
      ensures checklists == old(checklists) && nextChecklistId == old(nextChecklistId)
      ensures RowsStored(req, parseTime, parseDecimal, old(nextRecordId), old(records), old(measurements),
                         ParsedPrefix(req.inspectionRows, parseTime))
      ensures var k := ParsedPrefix(req.inspectionRows, parseTime);
              (outcome.Pass? <==> k == |req.inspectionRows|)
              && (outcome.Fail? ==> outcome.error == InvalidTime(req.inspectionRows[k].time))
    {
      var rows := req.inspectionRows;
      ghost var base, records0, measurements0 := nextRecordId, records, measurements;
      ghost var k := ParsedPrefix(rows, parseTime);
      var i := 0;
      while i < |rows|
        invariant Valid()
        invariant 0 <= i <= k
        invariant RowsStored(req, parseTime, parseDecimal, base, records0, measurements0, i)
        invariant checklists == old(checklists) && nextChecklistId == old(nextChecklistId)
      {
        var time := parseTime(rows[i].time);
        if time.None? {
          assert k == i;
          outcome := Fail(InvalidTime(rows[i].time));
          return;
        }
        StoreParsedRow(req, parseTime, parseDecimal, i, base, records0, measurements0);
        i := i + 1;
      }
      outcome := Pass;
    }

    /** Row `i` of a save whose first `i` rows are stored: afterwards the first `i + 1` are. */
    method StoreParsedRow(req: InspectionDataRequest, parseTime: string -> Option<ClockTime>,
                          parseDecimal: string -> Option<real>, i: nat, ghost base: int,
                          ghost records0: seq<InspectionRecord>, ghost measurements0: seq<InspectionMeasurementData>)
      requires Valid() && i < ParsedPrefix(req.inspectionRows, parseTime)
      requires RowsStored(req, parseTime, parseDecimal, base, records0, measurements0, i)
      modifies this
      ensures Valid()
      ensures RowsStored(req, parseTime, parseDecimal, base, records0, measurements0, i + 1)
      ensures checklists == old(checklists) && nextChecklistId == old(nextChecklistId)
    {
      var rows := req.inspectionRows;
      var time := parseTime(rows[i].time).value;
      ghost var before, beforeMs, id := records, measurements, nextRecordId;
      assert id == base + i;
      ghost var record := RowRecord(req.checklistId, rows[i], time, id);
      ghost var block := RowBlock(req.measurements, base, i, parseDecimal);
      RowBlockOf(req.measurements, base, i, parseDecimal, id);
      RecordStep(records0, req.checklistId, rows, parseTime, base, i, before, record);
      MeasurementStep(measurements0, req.measurements, base, i, parseDecimal, beforeMs);
      StoreRow(req.checklistId, rows[i], time, RowMeasurements(req.measurements, i), parseDecimal);
      assert records == before + [record];
      assert measurements == beforeMs + block;
    }

    /** One posted row: its record, then its measurements under the new record's id. */
    method StoreRow(checklistId: int, row: InspectionRowData, time: ClockTime,
                    rowMeasurements: seq<InspectionMeasurement>, parseDecimal: string -> Option<real>)
      requires Valid()
      modifies this
      ensures Valid()
      ensures records == old(records) + [RowRecord(checklistId, row, time, old(nextRecordId))]
      ensures measurements == old(measurements) + MeasurementRows(rowMeasurements, old(nextRecordId), parseDecimal)
      ensures nextRecordId == old(nextRecordId) + 1
      ensures checklists == old(checklists) && nextChecklistId == old(nextChecklistId)
    {
      var recordId := nextRecordId;
      InsertRecord(RowRecord(checklistId, row, time, recordId));
      InsertMeasurements(rowMeasurements, recordId, parseDecimal);
    }

    /** The header update of the save. */
    method UpdateChecklistHeader(req: InspectionDataRequest)
      requires Valid()
      modifies this
      ensures Valid()
      ensures checklists == UpdateHeader(old(checklists), req)
      ensures records == old(records) && measurements == old(measurements)
      ensures nextChecklistId == old(nextChecklistId) && nextRecordId == old(nextRecordId)
    {
      checklists := UpdateHeader(checklists, req);
      assert forall k :: 0 <= k < |checklists| ==> checklists[k].checklistId == old(checklists)[k].checklistId;
    }

    /** `DELETE FROM InspectionRecord WHERE ChecklistId = id`, cascading to the records' measurements. */
    method DeleteRecordsOf(checklistId: int)
      requires Valid()
      modifies this
      ensures Valid()
      ensures records == WithoutRecordsOf(old(records), checklistId)
      ensures measurements == KeepMeasurements(old(measurements), DeletedIds(old(records), checklistId))
      ensures checklists == old(checklists)
      ensures nextChecklistId == old(nextChecklistId) && nextRecordId == old(nextRecordId)
    {
      measurements := KeepMeasurements(measurements, DeletedIds(records, checklistId));
      WithoutKeepsOrder(records, checklistId, nextRecordId);
      records := WithoutRecordsOf(records, checklistId);
    }

    /** One record insert: the record takes the next identity value. */
    method InsertRecord(record: InspectionRecord)
      requires Valid() && record.recordId == nextRecordId
      modifies this
      ensures Valid()
      ensures records == old(records) + [record] && nextRecordId == old(nextRecordId) + 1
      ensures checklists == old(checklists) && measurements == old(measurements)
      ensures nextChecklistId == old(nextChecklistId)
    {
      records := records + [record];
      nextRecordId := nextRecordId + 1;
    }

    /** The measurement inserts of one record, in the order they were posted. */
    method InsertMeasurements(rowMeasurements: seq<InspectionMeasurement>, recordId: int, parseDecimal: string -> Option<real>)
      requires Valid() && recordId < nextRecordId
      modifies this
      ensures Valid()
      ensures measurements == old(measurements) + MeasurementRows(rowMeasurements, recordId, parseDecimal)
      ensures checklists == old(checklists) && records == old(records)
      ensures nextChecklistId == old(nextChecklistId) && nextRecordId == old(nextRecordId)
    {
      var j := 0;
      while j < |rowMeasurements|
        invariant 0 <= j <= |rowMeasurements|
        invariant measurements == old(measurements) + MeasurementRows(rowMeasurements[..j], recordId, parseDecimal)
        invariant checklists == old(checklists) && records == old(records)
        invariant nextChecklistId == old(nextChecklistId) && nextRecordId == old(nextRecordId)
        invariant Valid()
      {
        var stored := ToMeasurementRow(rowMeasurements[j], recordId, parseDecimal);
        assert MeasurementRows(rowMeasurements[..j + 1], recordId, parseDecimal)
               == MeasurementRows(rowMeasurements[..j], recordId, parseDecimal) + [stored] by {
          assert rowMeasurements[..j + 1][..j] == rowMeasurements[..j];
        }
        measurements := measurements + [stored];
        j := j + 1;
      }
      assert rowMeasurements[..j] == rowMeasurements;
    }

    /** `GetInspectionRecordsAsync(checklistId)`: the join folded into one view per record. */
    method GetInspectionRecords(checklistId: int) returns (views: seq<RecordView>)
      requires Valid()
      ensures views == Fold(JoinRows(records, measurements, checklistId))
      ensures views == ExpectedViews(RecordsOf(records, checklistId), measurements)
    {
      views := FoldRecords(JoinRows(records, measurements, checklistId));
      ReadBackRecords(records, measurements, checklistId);
    }
  }

  lemma RecordStep(kept: seq<InspectionRecord>, checklistId: int, rows: seq<InspectionRowData>,
                   parseTime: string -> Option<ClockTime>, base: int, i: nat, before: seq<InspectionRecord>, record: InspectionRecord)
    requires i + 1 <= ParsedPrefix(rows, parseTime)
    requires before == kept + NewRecords(checklistId, rows, parseTime, base, i)
    requires record == RowRecord(checklistId, rows[i], parseTime(rows[i].time).value, base + i)
    ensures before + [record] == kept + NewRecords(checklistId, rows, parseTime, base, i + 1)
  {
  }

  lemma RowBlockOf(ms: seq<InspectionMeasurement>, base: int, i: int, parseDecimal: string -> Option<real>, id: int)
    requires id == base + i
    ensures RowBlock(ms, base, i, parseDecimal) == MeasurementRows(RowMeasurements(ms, i), id, parseDecimal)
  {
  }

  lemma MeasurementStep(kept: seq<InspectionMeasurementData>, ms: seq<InspectionMeasurement>, base: int, i: nat,
                        parseDecimal: string -> Option<real>, before: seq<InspectionMeasurementData>)
    requires before == kept + NewMeasurements(ms, base, i, parseDecimal)
    ensures before + RowBlock(ms, base, i, parseDecimal) == kept + NewMeasurements(ms, base, i + 1, parseDecimal)
  {
    NewMeasurementsUnfold(ms, base, i, parseDecimal);
    AppendAssoc(kept, NewMeasurements(ms, base, i, parseDecimal), RowBlock(ms, base, i, parseDecimal));
  }

  lemma NewMeasurementsUnfold(ms: seq<InspectionMeasurement>, base: int, i: nat, parseDecimal: string -> Option<real>)
    ensures NewMeasurements(ms, base, i + 1, parseDecimal) == NewMeasurements(ms, base, i, parseDecimal) + RowBlock(ms, base, i, parseDecimal)
  {
  }

  lemma AppendAssoc<T>(a: seq<T>, b: seq<T>, c: seq<T>)
    ensures a + b + c == a + (b + c)
  {
  }

  /** The first header with the given id. */
  function FindChecklist(checklists: seq<InspectionChecklist>, id: int): (r: Option<InspectionChecklist>)
    ensures r.Some? ==> r.value in checklists && r.value.checklistId == id
    ensures r.None? <==> forall c :: c in checklists ==> c.checklistId != id
    decreases |checklists|
  {
    if checklists == [] then None
    else if checklists[0].checklistId == id then Some(checklists[0])
    else
      assert forall c :: c in checklists ==> c == checklists[0] || c in checklists[1..];
      FindChecklist(checklists[1..], id)
  }

  /** Deleting rows keeps the survivors' order, so their ids stay increasing and below the counter. */
  lemma {:induction false} WithoutKeepsOrder(records: seq<InspectionRecord>, checklistId: int, bound: int)
    requires RecordIdsBelow(records, bound)
    ensures RecordIdsBelow(WithoutRecordsOf(records, checklistId), bound)
    decreases |records|
  {
    if records != [] {
      var init := records[..|records| - 1];
      var last := records[|records| - 1];
      assert RecordIdsBelow(init, last.recordId);
      WithoutKeepsOrder(init, checklistId, last.recordId);
      var kept := WithoutRecordsOf(init, checklistId);
      if last.checklistId != checklistId {
        RecordIdsSnoc(kept, last, bound);
      }
    }
  }

  /** A record above every id of a sequence can go at its end. */
  lemma RecordIdsSnoc(records: seq<InspectionRecord>, x: InspectionRecord, bound: int)
    requires RecordIdsBelow(records, x.recordId) && x.recordId < bound
    ensures RecordIdsBelow(records + [x], bound)
  {
    var r := records + [x];
    forall i, j | 0 <= i < j < |r|
      ensures r[i].recordId < r[j].recordId
    {
      assert r[i] == records[i];
    }
  }

  // ---------------------------------------------------------------------
  // What a save leaves in the tables
  // ---------------------------------------------------------------------

  lemma {:induction false} RecordsOfAppend(a: seq<InspectionRecord>, b: seq<InspectionRecord>, c: int)
    ensures RecordsOf(a + b, c) == RecordsOf(a, c) + RecordsOf(b, c)
    decreases |b|
  {
    if b == [] {
      assert a + b == a;
    } else {
      assert (a + b)[..|a + b| - 1] == a + b[..|b| - 1];
      RecordsOfAppend(a, b[..|b| - 1], c);
    }
  }

  lemma {:induction false} RecordsOfWithout(records: seq<InspectionRecord>, checklistId: int, c: int)
    ensures RecordsOf(WithoutRecordsOf(records, checklistId), c)
            == if c == checklistId then [] else RecordsOf(records, c)
    decreases |records|
  {
    if records != [] {
      var init := records[..|records| - 1];
      var last := records[|records| - 1];
      assert records == init + [last];
      RecordsOfWithout(init, checklistId, c);
      var kept := WithoutRecordsOf(init, checklistId);
      if last.checklistId != checklistId {
        assert WithoutRecordsOf(records, checklistId) == kept + [last];
        assert RecordsOf(kept + [last], c) == RecordsOf(kept, c) + (if last.checklistId == c then [last] else []) by {
          assert (kept + [last])[..|kept|] == kept;
        }
      } else {
        assert WithoutRecordsOf(records, checklistId) == kept;
      }
    }
  }

  lemma {:induction false} RecordsOfNew(checklistId: int, rows: seq<InspectionRowData>, parseTime: string -> Option<ClockTime>,
                                        base: int, k: nat, c: int)
    requires k <= ParsedPrefix(rows, parseTime)
    ensures RecordsOf(NewRecords(checklistId, rows, parseTime, base, k), c)
            == if c == checklistId then NewRecords(checklistId, rows, parseTime, base, k) else []
    decreases k
  {
    var all := NewRecords(checklistId, rows, parseTime, base, k);
    if k == 0 {
      assert all == [];
    } else {
      var prev := NewRecords(checklistId, rows, parseTime, base, k - 1);
      var r := RowRecord(checklistId, rows[k - 1], parseTime(rows[k - 1].time).value, base + k - 1);
      assert all == prev + [r];
      RecordsOfNew(checklistId, rows, parseTime, base, k - 1, c);
      RecordsOfSnoc(prev, r, c);
      if c == checklistId {
        assert RecordsOf(all, c) == prev + [r];
      } else {
        assert RecordsOf(all, c) == [] + [];
      }
    }
  }

  /**
    * After a save of checklist `checklistId` that stored its first `k` rows,
    * the checklist's records are exactly those rows' records, and every
    * other checklist keeps exactly the records it had.
    */
  lemma SaveReplacesRecords(records: seq<InspectionRecord>, checklistId: int, rows: seq<InspectionRowData>,
                            parseTime: string -> Option<ClockTime>, base: int, k: nat, c: int)
    requires k <= ParsedPrefix(rows, parseTime)
    ensures var after := WithoutRecordsOf(records, checklistId) + NewRecords(checklistId, rows, parseTime, base, k);
            RecordsOf(after, c) == if c == checklistId then NewRecords(checklistId, rows, parseTime, base, k)
                                   else RecordsOf(records, c)
  {
    RecordsOfAppend(WithoutRecordsOf(records, checklistId), NewRecords(checklistId, rows, parseTime, base, k), c);
    RecordsOfWithout(records, checklistId, c);
    RecordsOfNew(checklistId, rows, parseTime, base, k, c);
  }

  lemma {:induction false} MeasurementsOfAppend(a: seq<InspectionMeasurementData>, b: seq<InspectionMeasurementData>, id: int)
    ensures MeasurementsOf(a + b, id) == MeasurementsOf(a, id) + MeasurementsOf(b, id)
    decreases |a|
  {
    if a == [] {
      assert a + b == b;
    } else {
      var head := if a[0].recordId == id then [a[0]] else [];
      assert (a + b)[1..] == a[1..] + b;
      assert MeasurementsOf(a + b, id) == head + MeasurementsOf(a[1..] + b, id);
      MeasurementsOfAppend(a[1..], b, id);
      AppendAssoc(head, MeasurementsOf(a[1..], id), MeasurementsOf(b, id));
    }
  }

  lemma {:induction false} MeasurementsOfNone(ms: seq<InspectionMeasurementData>, id: int)
    requires forall t :: 0 <= t < |ms| ==> ms[t].recordId != id
    ensures MeasurementsOf(ms, id) == []
    decreases |ms|
  {
    if ms != [] {
      MeasurementsOfNone(ms[1..], id);
    }
  }

  /** The blocks of `NewMeasurements`, one per stored row. */
  function RowBlocks(ms: seq<InspectionMeasurement>, base: int, k: nat, parseDecimal: string -> Option<real>)
    : (r: seq<seq<InspectionMeasurementData>>)
    ensures |r| == k
    ensures forall j :: 0 <= j < k ==> r[j] == RowBlock(ms, base, j, parseDecimal)
  {
    seq(k, j requires 0 <= j < k => RowBlock(ms, base, j, parseDecimal))
  }

  /** The blocks laid end to end. */
  function Concat<T>(blocks: seq<seq<T>>): seq<T>
    decreases |blocks|
  {
    if blocks == [] then [] else Concat(blocks[..|blocks| - 1]) + blocks[|blocks| - 1]
  }

  lemma {:induction false} NewMeasurementsConcat(ms: seq<InspectionMeasurement>, base: int, k: nat, parseDecimal: string -> Option<real>)
    ensures NewMeasurements(ms, base, k, parseDecimal) == Concat(RowBlocks(ms, base, k, parseDecimal))
    decreases k
  {
    if k > 0 {
      NewMeasurementsConcat(ms, base, k - 1, parseDecimal);
      assert RowBlocks(ms, base, k, parseDecimal)[..k - 1] == RowBlocks(ms, base, k - 1, parseDecimal);
    }
  }

  /** Every row of block `j` carries record id `base + j`. */
  predicate BlocksTagged(blocks: seq<seq<InspectionMeasurementData>>, base: int) {
    forall j, t :: 0 <= j < |blocks| && 0 <= t < |blocks[j]| ==> blocks[j][t].recordId == base + j
  }

  lemma RowBlocksTagged(ms: seq<InspectionMeasurement>, base: int, k: nat, parseDecimal: string -> Option<real>)
    ensures BlocksTagged(RowBlocks(ms, base, k, parseDecimal), base)
  {
    var blocks: seq<seq<InspectionMeasurementData>> := RowBlocks(ms, base, k, parseDecimal);
    forall j, t | 0 <= j < |blocks| && 0 <= t < |blocks[j]|
      ensures blocks[j][t].recordId == base + j
    {
      MeasurementRowsTagged(RowMeasurements(ms, j), base + j, parseDecimal);
    }
  }

  lemma {:induction false} MeasurementRowsTagged(ms: seq<InspectionMeasurement>, recordId: int, parseDecimal: string -> Option<real>)
    ensures forall t :: 0 <= t < |ms| ==> MeasurementRows(ms, recordId, parseDecimal)[t].recordId == recordId
    decreases |ms|
  {
    if ms != [] {
      MeasurementRowsTagged(ms[..|ms| - 1], recordId, parseDecimal);
    }
  }

  /** In tagged blocks laid end to end, record `base + i` owns exactly block `i`. */
  lemma {:induction false} MeasurementsOfConcat(blocks: seq<seq<InspectionMeasurementData>>, base: int, i: int)
    requires BlocksTagged(blocks, base) && 0 <= i
    ensures i < |blocks| ==> MeasurementsOf(Concat(blocks), base + i) == blocks[i]
    ensures |blocks| <= i ==> MeasurementsOf(Concat(blocks), base + i) == []
    decreases |blocks|
  {
    if blocks != [] {
      var n := |blocks| - 1;
      var init, last := blocks[..n], blocks[n];
      BlocksTaggedSplit(blocks, base, n);
      MeasurementsOfConcat(init, base, i);
      assert Concat(blocks) == Concat(init) + last;
      if i == n {
        MeasurementsOfAll(last, base + i);
        MeasurementsOfAfterNone(Concat(init), last, base + i);
      } else {
        MeasurementsOfNone(last, base + i);
        MeasurementsOfBeforeNone(Concat(init), last, base + i);
        if i < n {
          assert init[i] == blocks[i];
        }
      }
    }
  }

  /** The front blocks are tagged as before, and every row of the last block has the last id. */
  lemma BlocksTaggedSplit(blocks: seq<seq<InspectionMeasurementData>>, base: int, n: nat)
    requires BlocksTagged(blocks, base) && n == |blocks| - 1
    ensures BlocksTagged(blocks[..n], base)
    ensures forall t :: 0 <= t < |blocks[n]| ==> blocks[n][t].recordId == base + n
  {
    var init: seq<seq<InspectionMeasurementData>> := blocks[..n];
    forall j, t | 0 <= j < |init| && 0 <= t < |init[j]|
      ensures init[j][t].recordId == base + j
    {
      assert init[j] == blocks[j];
    }
  }

  lemma {:induction false} MeasurementsOfAll(ms: seq<InspectionMeasurementData>, id: int)
    requires forall t :: 0 <= t < |ms| ==> ms[t].recordId == id
    ensures MeasurementsOf(ms, id) == ms
    decreases |ms|
  {
    if ms != [] {
      MeasurementsOfAll(ms[1..], id);
      assert ms == [ms[0]] + ms[1..];
    }
  }

  lemma MeasurementsOfNew(ms: seq<InspectionMeasurement>, base: int, k: nat, parseDecimal: string -> Option<real>, i: int)
    requires 0 <= i
    ensures i < k ==> MeasurementsOf(NewMeasurements(ms, base, k, parseDecimal), base + i) == RowBlock(ms, base, i, parseDecimal)
    ensures k <= i ==> MeasurementsOf(NewMeasurements(ms, base, k, parseDecimal), base + i) == []
  {
    NewMeasurementsConcat(ms, base, k, parseDecimal);
    RowBlocksTagged(ms, base, k, parseDecimal);
    MeasurementsOfConcat(RowBlocks(ms, base, k, parseDecimal), base, i);
  }

  /** Rows of other records behind do not change the rows of `id`. */
  lemma MeasurementsOfBeforeNone(front: seq<InspectionMeasurementData>, rest: seq<InspectionMeasurementData>, id: int)
    requires MeasurementsOf(rest, id) == []
    ensures MeasurementsOf(front + rest, id) == MeasurementsOf(front, id)
  {
    MeasurementsOfAppend(front, rest, id);
    assert MeasurementsOf(front, id) + [] == MeasurementsOf(front, id);
  }

  /**
    * After a save whose records start at id `base` (every id in use being
    * below it), stored row `i` holds exactly the posted measurements whose
    * RowIndex is `i`, in posting order, and nothing else.
    */
  lemma SavedMeasurementsOfRow(old_measurements: seq<InspectionMeasurementData>, deleted: set<int>,
                               ms: seq<InspectionMeasurement>, base: int, k: nat, parseDecimal: string -> Option<real>, i: int)
    requires MeasurementIdsBelow(old_measurements, base)
    requires 0 <= i < k
    ensures MeasurementsOf(KeepMeasurements(old_measurements, deleted) + NewMeasurements(ms, base, k, parseDecimal), base + i)
            == RowBlock(ms, base, i, parseDecimal)
  {
    var kept := KeepMeasurements(old_measurements, deleted);
    var added := NewMeasurements(ms, base, k, parseDecimal);
    MeasurementsOfNew(ms, base, k, parseDecimal, i);
    KeptBelow(old_measurements, deleted, base);
    BlockAfterOthers(kept, added, base + i, RowBlock(ms, base, i, parseDecimal));
  }

  /** Rows of lower ids in front do not change the rows of `id`. */
  lemma BlockAfterOthers(front: seq<InspectionMeasurementData>, rest: seq<InspectionMeasurementData>, id: int,
                         block: seq<InspectionMeasurementData>)
    requires forall t :: 0 <= t < |front| ==> front[t].recordId < id
    requires MeasurementsOf(rest, id) == block
    ensures MeasurementsOf(front + rest, id) == block
  {
    MeasurementsOfNone(front, id);
    MeasurementsOfAfterNone(front, rest, id);
  }

  lemma KeptBelow(measurements: seq<InspectionMeasurementData>, deleted: set<int>, base: int)
    requires MeasurementIdsBelow(measurements, base)
    ensures forall t :: 0 <= t < |KeepMeasurements(measurements, deleted)| ==> KeepMeasurements(measurements, deleted)[t].recordId < base
  {
    var kept := KeepMeasurements(measurements, deleted);
    forall t | 0 <= t < |kept|
      ensures kept[t].recordId < base
    {
      assert kept[t] in kept;
    }
  }

  /** Rows of other records in front do not change the rows of `id`. */
  lemma MeasurementsOfAfterNone(front: seq<InspectionMeasurementData>, rest: seq<InspectionMeasurementData>, id: int)
    requires MeasurementsOf(front, id) == []
    ensures MeasurementsOf(front + rest, id) == MeasurementsOf(rest, id)
  {
    MeasurementsOfAppend(front, rest, id);
    assert [] + MeasurementsOf(rest, id) == MeasurementsOf(rest, id);
  }

  /** The posted measurements whose RowIndex names one of the first `k` rows. */
  function InRows(ms: seq<InspectionMeasurement>, k: int): (r: seq<InspectionMeasurement>)
    ensures forall m :: m in r <==> m in ms && 0 <= m.rowIndex < k
    decreases |ms|
  {
    if ms == [] then []
    else
      var init := ms[..|ms| - 1];
      var last := ms[|ms| - 1];
      assert ms == init + [last];
      InRows(init, k) + (if 0 <= last.rowIndex < k then [last] else [])
  }

  lemma {:induction false} InRowsStep(ms: seq<InspectionMeasurement>, k: nat)
    ensures |InRows(ms, k + 1)| == |InRows(ms, k)| + |RowMeasurements(ms, k)|
    decreases |ms|
  {
    if ms != [] {
      InRowsStep(ms[..|ms| - 1], k);
    }
  }

  /**
    * A save that stores `k` rows stores one measurement per posted
    * measurement whose RowIndex is below `k`: a measurement naming no posted
    * row (a negative index, or one past the last row) is dropped silently.
    */
  lemma StoredMeasurementCount(ms: seq<InspectionMeasurement>, base: int, k: nat, parseDecimal: string -> Option<real>)
    ensures |NewMeasurements(ms, base, k, parseDecimal)| == |InRows(ms, k)|
  {
    NewMeasurementsLength(ms, base, k, parseDecimal);
    InRowsLength(ms, k);
  }

  /** The number of posted measurements naming each of rows `0 .. k - 1`, summed. */
  function RowCountSum(ms: seq<InspectionMeasurement>, k: nat): nat
    decreases k
  {
    if k == 0 then 0 else RowCountSum(ms, k - 1) + |RowMeasurements(ms, k - 1)|
  }

  lemma {:induction false} NewMeasurementsLength(ms: seq<InspectionMeasurement>, base: int, k: nat, parseDecimal: string -> Option<real>)
    ensures |NewMeasurements(ms, base, k, parseDecimal)| == RowCountSum(ms, k)
    decreases k
  {
    if k > 0 {
      var j := k - 1;
      NewMeasurementsLength(ms, base, j, parseDecimal);
      NewMeasurementsUnfold(ms, base, j, parseDecimal);
      assert |RowBlock(ms, base, j, parseDecimal)| == |RowMeasurements(ms, j)|;
      RowCountSumStep(ms, j);
    }
  }

  lemma RowCountSumStep(ms: seq<InspectionMeasurement>, j: nat)
    ensures RowCountSum(ms, j + 1) == RowCountSum(ms, j) + |RowMeasurements(ms, j)|
  {
  }

  lemma {:induction false} InRowsLength(ms: seq<InspectionMeasurement>, k: nat)
    ensures |InRows(ms, k)| == RowCountSum(ms, k)
    decreases k
  {
    if k == 0 {
      NoneInNoRows(ms);
    } else {
      var j := k - 1;
      InRowsLength(ms, j);
      InRowsStep(ms, j);
      RowCountSumStep(ms, j);
    }
  }

  lemma {:induction false} NoneInNoRows(ms: seq<InspectionMeasurement>)
    ensures InRows(ms, 0) == []
    decreases |ms|
  {
    if ms != [] {
      NoneInNoRows(ms[..|ms| - 1]);
    }
  }
  // ---------------------------------------------------------------------
  // Saving, then reading back
  // ---------------------------------------------------------------------

  /** The records table after a save of `req` whose first new id is `base`. */
  function SavedRecords(records: seq<InspectionRecord>, req: InspectionDataRequest,
                        parseTime: string -> Option<ClockTime>, base: int): seq<InspectionRecord>
  {
    WithoutRecordsOf(records, req.checklistId)
    + NewRecords(req.checklistId, req.inspectionRows, parseTime, base, ParsedPrefix(req.inspectionRows, parseTime))
  }

  /** The measurements table after a save of `req` whose first new id is `base`. */
  function SavedMeasurements(measurements: seq<InspectionMeasurementData>, records: seq<InspectionRecord>,
                             req: InspectionDataRequest, parseTime: string -> Option<ClockTime>,
                             parseDecimal: string -> Option<real>, base: int): seq<InspectionMeasurementData>
  {
    KeepMeasurements(measurements, DeletedIds(records, req.checklistId))
    + NewMeasurements(req.measurements, base, ParsedPrefix(req.inspectionRows, parseTime), parseDecimal)
  }

  /**
    * What the inspection page should show for posted row `i` once it is
    * stored under id `base + i`: its shift, its time as HH:mm, its note and
    * the posted measurements of that row, ordered by parameter.
    */
  function PostedView(req: InspectionDataRequest, parseTime: string -> Option<ClockTime>,
                      parseDecimal: string -> Option<real>, base: int, i: int): RecordView
    requires 0 <= i < ParsedPrefix(req.inspectionRows, parseTime)
  {
    var row := req.inspectionRows[i];
    RecordView(base + i, row.shift, HourMinute(parseTime(row.time).value), row.note,
               SortByParameter(MapToView(RowBlock(req.measurements, base, i, parseDecimal))))
  }

  /** The saved records table keeps its ids increasing, now below `base + k`. */
  lemma SavedIdsIncreasing(records: seq<InspectionRecord>, req: InspectionDataRequest,
                           parseTime: string -> Option<ClockTime>, base: int)
    requires RecordIdsBelow(records, base)
    ensures RecordIdsBelow(SavedRecords(records, req, parseTime, base),
                           base + ParsedPrefix(req.inspectionRows, parseTime))
  {
    var k := ParsedPrefix(req.inspectionRows, parseTime);
    var kept := WithoutRecordsOf(records, req.checklistId);
    var added := NewRecords(req.checklistId, req.inspectionRows, parseTime, base, k);
    WithoutKeepsOrder(records, req.checklistId, base);
    NewRecordsAt(req.checklistId, req.inspectionRows, parseTime, base, k);
    assert |added| == k;
    forall i | 0 <= i < |added|
      ensures added[i].recordId == base + i
    {
    }
    IdsBelowConcat(kept, added, base);
  }

  /** Records below `base` followed by records numbered `base`, `base + 1`, ... keep increasing ids. */
  lemma IdsBelowConcat(kept: seq<InspectionRecord>, added: seq<InspectionRecord>, base: int)
    requires RecordIdsBelow(kept, base)
    requires forall i :: 0 <= i < |added| ==> added[i].recordId == base + i
    ensures RecordIdsBelow(kept + added, base + |added|)
  {
    var r := kept + added;
    forall i | 0 <= i < |r|
      ensures r[i].recordId < base + |added|
    {
      if i >= |kept| {
        assert r[i] == added[i - |kept|];
      }
    }
    forall i, j | 0 <= i < j < |r|
      ensures r[i].recordId < r[j].recordId
    {
      if j < |kept| {
        assert r[i] == kept[i] && r[j] == kept[j];
      } else if i < |kept| {
        assert r[i] == kept[i] && r[j] == added[j - |kept|];
      } else {
        assert r[i] == added[i - |kept|] && r[j] == added[j - |kept|];
      }
    }
  }

  /**
    * Saving then reading back: after a save of `req` into tables whose ids
    * are all below `base`, the page reads exactly one view per stored row,
    * in posting order, each showing that row's shift, time, note and
    * measurements.
    */
  lemma SaveThenRead(records: seq<InspectionRecord>, measurements: seq<InspectionMeasurementData>,
                     req: InspectionDataRequest, parseTime: string -> Option<ClockTime>,
                     parseDecimal: string -> Option<real>, base: int)
    requires RecordIdsBelow(records, base) && MeasurementIdsBelow(measurements, base)
    ensures var views := Fold(JoinRows(SavedRecords(records, req, parseTime, base),
                                       SavedMeasurements(measurements, records, req, parseTime, parseDecimal, base),
                                       req.checklistId));
            |views| == ParsedPrefix(req.inspectionRows, parseTime)
            && forall i :: 0 <= i < |views| ==> views[i] == PostedView(req, parseTime, parseDecimal, base, i)
  {
    var k := ParsedPrefix(req.inspectionRows, parseTime);
    var after := SavedRecords(records, req, parseTime, base);
    var stored := SavedMeasurements(measurements, records, req, parseTime, parseDecimal, base);
    SavedIdsIncreasing(records, req, parseTime, base);
    ReadBackRecords(after, stored, req.checklistId);
    SaveReplacesRecords(records, req.checklistId, req.inspectionRows, parseTime, base, k, req.checklistId);
    forall i | 0 <= i < k
      ensures MeasurementsOf(stored, base + i) == RowBlock(req.measurements, base, i, parseDecimal)
    {
      SavedMeasurementsOfRow(measurements, DeletedIds(records, req.checklistId), req.measurements, base, k, parseDecimal, i);
    }
    NewRecordViews(req, parseTime, parseDecimal, base, stored);
  }

  /** Each new record reads back as its posted row, given the measurements stored under its id. */
  lemma NewRecordViews(req: InspectionDataRequest, parseTime: string -> Option<ClockTime>,
                       parseDecimal: string -> Option<real>, base: int, stored: seq<InspectionMeasurementData>)
    requires forall i :: 0 <= i < ParsedPrefix(req.inspectionRows, parseTime) ==>
               MeasurementsOf(stored, base + i) == RowBlock(req.measurements, base, i, parseDecimal)
    ensures var k := ParsedPrefix(req.inspectionRows, parseTime);
            var views := ExpectedViews(NewRecords(req.checklistId, req.inspectionRows, parseTime, base, k), stored);
            |views| == k && forall i :: 0 <= i < k ==> views[i] == PostedView(req, parseTime, parseDecimal, base, i)
  {
    var k := ParsedPrefix(req.inspectionRows, parseTime);
    var added := NewRecords(req.checklistId, req.inspectionRows, parseTime, base, k);
    NewRecordsAt(req.checklistId, req.inspectionRows, parseTime, base, k);
    var views := ExpectedViews(added, stored);
    forall i | 0 <= i < k
      ensures views[i] == PostedView(req, parseTime, parseDecimal, base, i)
    {
      RowReadsBack(added[i], req, parseTime, parseDecimal, base, stored, i);
    }
  }

  lemma RowReadsBack(r: InspectionRecord, req: InspectionDataRequest, parseTime: string -> Option<ClockTime>,
                     parseDecimal: string -> Option<real>, base: int, stored: seq<InspectionMeasurementData>, i: int)
    requires 0 <= i < ParsedPrefix(req.inspectionRows, parseTime)
    requires r == InspectionRecord(base + i, req.checklistId, req.inspectionRows[i].shift,
                                   parseTime(req.inspectionRows[i].time).value, req.inspectionRows[i].note)
    requires MeasurementsOf(stored, base + i) == RowBlock(req.measurements, base, i, parseDecimal)
    ensures ExpectedView(r, stored) == PostedView(req, parseTime, parseDecimal, base, i)
  {
    assert r.recordId == base + i;
    var block := RowBlock(req.measurements, base, i, parseDecimal);
    assert MeasurementsOf(stored, r.recordId) == block;
    assert MapToView(MeasurementsOf(stored, r.recordId)) == MapToView(block);
  }

  /** Every measurement a save adds belongs to a new record, whose id is at least `base`. */
  lemma {:induction false} NewMeasurementsFrom(ms: seq<InspectionMeasurement>, base: int, k: nat, parseDecimal: string -> Option<real>)
    ensures forall t :: 0 <= t < |NewMeasurements(ms, base, k, parseDecimal)| ==>
              base <= NewMeasurements(ms, base, k, parseDecimal)[t].recordId
    decreases k
  {
    if k > 0 {
      var prev := NewMeasurements(ms, base, k - 1, parseDecimal);
      var block := RowBlock(ms, base, k - 1, parseDecimal);
      NewMeasurementsFrom(ms, base, k - 1, parseDecimal);
      MeasurementRowsTagged(RowMeasurements(ms, k - 1), base + k - 1, parseDecimal);
      var all := prev + block;
      forall t | 0 <= t < |all|
        ensures base <= all[t].recordId
      {
        if t >= |prev| {
          assert all[t] == block[t - |prev|];
        }
      }
    }
  }

  /** The delete keeps every measurement of a record it does not delete, in order. */
  lemma {:induction false} MeasurementsOfKeep(ms: seq<InspectionMeasurementData>, deleted: set<int>, id: int)
    requires id !in deleted
    ensures MeasurementsOf(KeepMeasurements(ms, deleted), id) == MeasurementsOf(ms, id)
    decreases |ms|
  {
    if ms != [] {
      var init := ms[..|ms| - 1];
      var last := ms[|ms| - 1];
      var tail := if last.recordId !in deleted then [last] else [];
      KeepSnoc(ms, deleted);
      MeasurementsOfKeep(init, deleted, id);
      MeasurementsOfAppend(KeepMeasurements(init, deleted), tail, id);
      SnocLast(ms);
      MeasurementsOfAppend(init, [last], id);
      MeasurementsOfOne(last, id);
    }
  }

  lemma KeepSnoc(ms: seq<InspectionMeasurementData>, deleted: set<int>)
    requires ms != []
    ensures KeepMeasurements(ms, deleted)
            == KeepMeasurements(ms[..|ms| - 1], deleted) + (if ms[|ms| - 1].recordId !in deleted then [ms[|ms| - 1]] else [])
  {
  }

  lemma MeasurementsOfOne(m: InspectionMeasurementData, id: int)
    ensures MeasurementsOf([m], id) == if m.recordId == id then [m] else []
  {
    assert [m][1..] == [];
  }

  /** A record of another checklist keeps its measurements through a save. */
  lemma OtherRecordMeasurements(records: seq<InspectionRecord>, measurements: seq<InspectionMeasurementData>,
                                req: InspectionDataRequest, parseTime: string -> Option<ClockTime>,
                                parseDecimal: string -> Option<real>, base: int, x: InspectionRecord)
    requires RecordIdsBelow(records, base)
    requires x in records && x.checklistId != req.checklistId
    ensures MeasurementsOf(SavedMeasurements(measurements, records, req, parseTime, parseDecimal, base), x.recordId)
            == MeasurementsOf(measurements, x.recordId)
  {
    var deleted := DeletedIds(records, req.checklistId);
    var b := IndexOf(records, x);
    assert x.recordId < base;
    if x.recordId in deleted {
      assert false;
    }
    var added := NewMeasurements(req.measurements, base, ParsedPrefix(req.inspectionRows, parseTime), parseDecimal);
    MeasurementsOfKeep(measurements, deleted, x.recordId);
    NewMeasurementsFrom(req.measurements, base, ParsedPrefix(req.inspectionRows, parseTime), parseDecimal);
    MeasurementsOfNone(added, x.recordId);
    MeasurementsOfBeforeNone(KeepMeasurements(measurements, deleted), added, x.recordId);
  }

  /** The position of `x` in `s`. */
  function IndexOf<T(==)>(s: seq<T>, x: T): (i: nat)
    requires x in s
    ensures i < |s| && s[i] == x
  {
    if s[0] == x then 0 else 1 + IndexOf(s[1..], x)
  }

  /**
    * A save touches one checklist only: every other checklist reads back
    * exactly the views it read before.
    */
  lemma SaveKeepsOtherChecklists(records: seq<InspectionRecord>, measurements: seq<InspectionMeasurementData>,
                                 req: InspectionDataRequest, parseTime: string -> Option<ClockTime>,
                                 parseDecimal: string -> Option<real>, base: int, c: int)
    requires RecordIdsBelow(records, base) && c != req.checklistId
    ensures Fold(JoinRows(SavedRecords(records, req, parseTime, base),
                          SavedMeasurements(measurements, records, req, parseTime, parseDecimal, base), c))
            == Fold(JoinRows(records, measurements, c))
  {
    var after := SavedRecords(records, req, parseTime, base);
    var stored := SavedMeasurements(measurements, records, req, parseTime, parseDecimal, base);
    SavedIdsIncreasing(records, req, parseTime, base);
    ReadBackRecords(after, stored, c);
    ReadBackRecords(records, measurements, c);
    SaveReplacesRecords(records, req.checklistId, req.inspectionRows, parseTime, base,
                        ParsedPrefix(req.inspectionRows, parseTime), c);
    var mine := RecordsOf(records, c);
    forall j | 0 <= j < |mine|
      ensures ExpectedView(mine[j], stored) == ExpectedView(mine[j], measurements)
    {
      assert mine[j] in mine;
      OtherRecordMeasurements(records, measurements, req, parseTime, parseDecimal, base, mine[j]);
    }
  }
}

/**
  * The entities of the QC inspection application: inspection checklists,
  * their time-stamped inspection records and per-parameter measurements, the
  * inspection-parameter catalogue (`DocumentInspection`), material masters,
  * users, the JSON request bodies of the inspection page, and the read-side
  * view models.
  */
module Models {
  import opened Wrappers
  import opened Text

  /** The date part of a `DateTime`. */
  datatype Date = Date(year: int, month: int, day: int)

  /** A `TimeSpan` used as a time of day. */
  datatype TimeOfDay = TimeOfDay(hours: nat, minutes: nat, seconds: nat)

  /** A time of day the SQL `time` column can hold. */
  type ClockTime = t: TimeOfDay | t.hours < 24 && t.minutes < 60 && t.seconds < 60 witness TimeOfDay(0, 0, 0)

  /**
    * `CONVERT(varchar(5), t, 108)`: the "HH:mm" part of the SQL time style 108,
    * two digits of the hour, a colon and two digits of the minute, each of
    * which reads back as the time's own hour and minute.
    */
  function HourMinute(t: ClockTime): (r: string)
    ensures |r| == 5 && r[2] == ':'
    ensures AllDigits(r[..2]) && AllDigits(r[3..])
    ensures ParseInt32(r[..2]) == Some(t.hours as int) && ParseInt32(r[3..]) == Some(t.minutes as int)
  {
    FormatDLength(t.hours, 2);
    FormatDLength(t.minutes, 2);
    FormatDRoundTrip(t.hours, 2);
    FormatDRoundTrip(t.minutes, 2);
    var hh := FormatD(t.hours, 2);
    var mm := FormatD(t.minutes, 2);
    assert (hh + ":" + mm)[..2] == hh && (hh + ":" + mm)[3..] == mm;
    hh + ":" + mm
  }

  /** A stored `InspectionChecklist` header row (or the form object the controller fills). */
  datatype InspectionChecklist = InspectionChecklist(
    checklistId: int,
    fgCode: string,
    itemName: string,
    customer: string,
    soNumber: Option<string>,
    plant: Option<string>,
    process: string,
    size: Option<string>,
    typeOfFilm: Option<string>,
    status: string,
    createdDate: Date,
    createdBy: Option<string>,
    remark: Option<string>,
    inspector: Option<string>,
    approver: Option<string>,
    productionOrder: Option<string>,
    salesOrderItem: Option<string>,
    customerCode: Option<string>,
    machineZone: Option<string>,
    machineProcess: Option<string>,
    machineName: Option<string>,
    machineStorage: Option<string>,
    inspectCode: Option<string>,
    inspectorTeamA: Option<string>,
    inspectorTeamB: Option<string>,
    // form-only fields (not mapped to a column): the selected user ids
    inspectorTeamAId: int,
    inspectorTeamBId: int)

  /** A stored `InspectionRecord`: one row of the inspection sheet. */
  datatype InspectionRecord = InspectionRecord(
    recordId: int,
    checklistId: int,
    shift: string,
    inspectionTime: ClockTime,
    note: Option<string>)

  /** A stored `InspectionMeasurementData` row: one parameter of one record. */
  datatype InspectionMeasurementData = InspectionMeasurementData(
    recordId: int,
    parameterId: string,
    parameterName: string,
    measurementType: string,
    measurementValue: Option<string>,
    numericValue: Option<real>,
    actualValue: Option<real>,
    unit: Option<string>,
    passFailValue: Option<bool>,
    isPass: bool,
    isFail: bool,
    minValue: Option<real>,
    maxValue: Option<real>,
    standardValue: Option<real>)

  /** One row of the inspection sheet as the page posts it. */
  datatype InspectionRowData = InspectionRowData(shift: string, time: string, note: Option<string>)

  /** One measured cell as the page posts it; `rowIndex` names its sheet row. */
  datatype InspectionMeasurement = InspectionMeasurement(
    parameter: string,
    parameterName: string,
    rowIndex: int,
    shift: string,
    time: string,
    value: Option<string>,
    unit: Option<string>,
    measurementType: string,
    passed: bool,
    failed: bool,
    minValue: Option<real>,
    maxValue: Option<real>,
    standardValue: Option<real>,
    actualValue: Option<real>)

  /** The body of the save request of the inspection page. */
  datatype InspectionDataRequest = InspectionDataRequest(
    checklistId: int,
    inspectionRows: seq<InspectionRowData>,
    measurements: seq<InspectionMeasurement>,
    remark: Option<string>,
    inspector: Option<string>,
    approver: Option<string>)

  /** `MeasurementViewModel`. */
  datatype MeasurementView = MeasurementView(
    parameterId: string,
    parameterName: string,
    measurementType: string,
    value: Option<string>,
    unit: Option<string>,
    isPass: bool,
    isFail: bool,
    minValue: Option<real>,
    maxValue: Option<real>,
    standardValue: Option<real>)

  /** `InspectionRecordViewModel`: a record with its measurements. */
  datatype RecordView = RecordView(
    recordId: int,
    shift: string,
    time: string,
    note: Option<string>,
    measurements: seq<MeasurementView>)

  /** A row of the `DocumentInspection` catalogue: one inspection parameter of a finished good. */
  datatype DocumentInspection = DocumentInspection(
    docId: int,
    docPlant: string,
    docProcess: string,
    docInspection: string,
    docUnit: string,
    docMin: real,
    docMax: real,
    docStd: real,
    docIsLr: bool,
    docIsMm: bool,
    docRemark: Option<string>,
    docCustomer: Option<string>,
    docSo: Option<string>,
    docSoItem: Option<string>,
    docFg: Option<string>,
    docFgItem: Option<string>,
    docSize: Option<string>,
    docTypeOfFilm: Option<string>,
    docPassed: bool,
    docOrderSort: int,
    docHide: bool,
    docDataType: Option<string>)

  /** A row of the local `MaterialMaster` table. */
  datatype MaterialMaster = MaterialMaster(
    materialId: int,
    materialCode: string,
    productName: string,
    size: Option<string>,
    unit: Option<string>,
    plant: string,
    filmType: Option<string>,
    isActive: bool,
    createdBy: Option<string>)

  /** The plant every material and production order belongs to. */
  const DefaultPlant: string := "KB01"

  /**
    * `new MaterialMaster { MaterialCode = .., ProductName = .. }`: the
    * unset fields take their declared defaults.
    */
  function NewMaterialMaster(code: string, name: string): (m: MaterialMaster)
    ensures m.materialCode == code && m.productName == name
    ensures m.plant == "KB01" && m.isActive
    ensures m.size.None? && m.unit.None? && m.filmType.None? && m.createdBy.None?
  {
    MaterialMaster(0, code, name, None, None, DefaultPlant, None, true, None)
  }

  /** An upstream (ERP) material as the material-master lookup returns it. */
  datatype MaterialMasterViewModel = MaterialMasterViewModel(
    materialNumber: string,
    materialDescription: string,
    size: string,
    unit: string,
    materialGroup: string,
    materialType: string,
    typeOfFilm: string)
  {
    /** The dropdown label: number, a spaced dash, then description. */
    function DisplayText(): (r: string)
      ensures StartsWith(r, materialNumber)
      ensures r[|materialNumber|..] == " - " + materialDescription
    {
      materialNumber + " - " + materialDescription
    }

    /** The text the dropdown filters on; the same as the label. */
    function SearchText(): (r: string)
      ensures r == DisplayText()
    {
      materialNumber + " - " + materialDescription
    }
  }

  /** A material master with its catalogue parameters, as the material index shows it. */
  datatype MaterialGroupViewModel = MaterialGroupViewModel(
    materialMaster: MaterialMaster,
    parameters: seq<DocumentInspection>,
    passedCount: int,
    totalCount: int)
  {
    /** All parameters passed, and there is at least one. */
    predicate OverallPassed() {
      totalCount > 0 && passedCount == totalCount
    }
  }

  /** A production order as the creation form shows it. */
  datatype ProductionOrderViewModel = ProductionOrderViewModel(
    orderNumber: string,
    salesOrder: string,
    salesOrderItem: string,
    customerNumber: string,
    customerName: string,
    plant: string,
    materialDescription: string,
    size: string,
    materialGroup: Option<string>,
    materialGroupDesc: string)
  {
    /** "order - description (customer)". */
    function DisplayText(): (r: string)
      ensures StartsWith(r, orderNumber + " - " + materialDescription + " (")
      ensures |r| == |orderNumber| + |materialDescription| + |customerName| + 6
      ensures r[|r| - 1] == ')'
      ensures r[|orderNumber| + |materialDescription| + 5..|r| - 1] == customerName
    {
      orderNumber + " - " + materialDescription + " (" + customerName + ")"
    }
  }

  /** An application user; only the fields the core reads. */
  datatype User = User(id: int, username: string, userFullName: string, isActive: bool)
}

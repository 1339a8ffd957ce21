/**
  * The material controller: the material index (local material masters with
  * their inspection parameters, filtered by a search term), the creation of
  * an inspection parameter from a JSON request (its validation and the
  * fields it derives), and the edit of a parameter. The
  * `DocumentInspection` catalogue is a table with an identity counter.
  */
module MaterialController {
  import opened Wrappers
  import opened Text
  import opened Models
  import opened Catalogue
  import opened MaterialMasterLocal

  // ---------------------------------------------------------------------
  // Index
  // ---------------------------------------------------------------------

  /** A material master the search term selects: by code or by product name. */
  predicate MatchesSearch(m: MaterialMaster, term: string) {
    ContainsIgnoreCase(m.materialCode, term) || ContainsIgnoreCase(m.productName, term)
  }

  /** The masters the search term selects, in listing order. */
  function FilterBySearch(ms: seq<MaterialMaster>, term: string): (r: seq<MaterialMaster>)
    ensures forall m :: m in r <==> m in ms && MatchesSearch(m, term)
    ensures |r| <= |ms|
    decreases |ms|
  {
    if ms == [] then []
    else
      var init := ms[..|ms| - 1];
      var m := ms[|ms| - 1];
      assert ms == init + [m];
      if MatchesSearch(m, term) then FilterBySearch(init, term) + [m] else FilterBySearch(init, term)
  }

  /** The empty string occurs in every string. */
  lemma ContainsEmpty(s: string)
    ensures ContainsIgnoreCase(s, "")
  {
    assert MatchesAt(s, "", 0);
  }

  /** Filtering by the empty term keeps every master, in order: the empty-term guard only saves work. */
  lemma {:induction false} EmptyTermKeepsAll(ms: seq<MaterialMaster>)
    ensures FilterBySearch(ms, "") == ms
    decreases |ms|
  {
    if ms != [] {
      EmptyTermKeepsAll(ms[..|ms| - 1]);
      ContainsEmpty(ms[|ms| - 1].materialCode);
      assert ms[..|ms| - 1] + [ms[|ms| - 1]] == ms;
    }
  }

  /** `parameters.Count(p => p.DocPassed)`. */
  function PassedCount(ps: seq<DocumentInspection>): (n: nat)
    ensures n <= |ps|
    decreases |ps|
  {
    if ps == [] then 0 else PassedCount(ps[..|ps| - 1]) + (if ps[|ps| - 1].docPassed then 1 else 0)
  }

  /** Every parameter passed exactly when the passed count reaches the total. */
  lemma {:induction false} PassedCountAll(ps: seq<DocumentInspection>)
    ensures PassedCount(ps) == |ps| <==> forall p :: p in ps ==> p.docPassed
    decreases |ps|
  {
    if ps != [] {
      var init := ps[..|ps| - 1];
      var last := ps[|ps| - 1];
      PassedCountAll(init);
      assert ps == init + [last];
      assert forall p :: p in ps <==> p in init || p == last;
    }
  }

  /** The index entry of one master. */
  function GroupOf(m: MaterialMaster, catalogue: seq<DocumentInspection>): MaterialGroupViewModel {
    var ps := ParametersFor(catalogue, m.materialCode);
    MaterialGroupViewModel(m, ps, PassedCount(ps), |ps|)
  }

  /**
    * An entry is marked passed exactly when its material has at least one
    * visible parameter and every one of them is marked passed.
    */
  lemma OverallPassedIff(m: MaterialMaster, catalogue: seq<DocumentInspection>)
    ensures GroupOf(m, catalogue).OverallPassed() <==>
              (exists x :: x in catalogue && Selected(x, m.materialCode))
              && forall x :: x in catalogue && Selected(x, m.materialCode) ==> x.docPassed
  {
    var ps := ParametersFor(catalogue, m.materialCode);
    ParametersForCorrect(catalogue, m.materialCode);
    PassedCountAll(ps);
    if |ps| > 0 {
      assert ps[0] in ps;
    }
  }

  /** Every master's parameter query, in turn, reads without hitting a NULL mapped column. */
  predicate ParametersReadable(ms: seq<MaterialMaster>, catalogue: seq<DocumentInspection>)
    decreases |ms|
  {
    ms == [] || (ParametersReadable(ms[..|ms| - 1], catalogue) && CodeReadable(catalogue, ms[|ms| - 1].materialCode))
  }

  /** The queries all read exactly when no master's parameters hold a NULL mapped column. */
  lemma {:induction false} ParametersReadableIff(ms: seq<MaterialMaster>, catalogue: seq<DocumentInspection>)
    ensures ParametersReadable(ms, catalogue) <==> forall i :: 0 <= i < |ms| ==> CodeReadable(catalogue, ms[i].materialCode)
    decreases |ms|
  {
    if ms != [] {
      var init := ms[..|ms| - 1];
      ParametersReadableIff(init, catalogue);
      assert forall i :: 0 <= i < |init| ==> init[i] == ms[i];
    }
  }

  /**
    * `Index(searchTerm)`: the active material masters, newest first, kept
    * when the term is empty or occurs (ignoring case) in the code or the
    * product name, each with its parameters and their passed and total
    * counts. When a parameter query fails on a NULL mapped column, the page
    * shows no entries and the error text.
    */
  method Index(table: MaterialMasterTable, catalogue: seq<DocumentInspection>, searchTerm: Option<string>)
    returns (groups: seq<MaterialGroupViewModel>, error: Option<string>)
    ensures var shown := FilterBySearch(table.GetAllMaterialMaster(), searchTerm.GetOr(""));
            error.None? <==> ParametersReadable(shown, catalogue)
    ensures error.Some? ==> groups == [] && error.value == ErrorPrefix + NullReadMessage
    ensures var shown := FilterBySearch(table.GetAllMaterialMaster(), searchTerm.GetOr(""));
            error.None? ==>
              |groups| == |shown|
              && forall i :: 0 <= i < |groups| ==>
                   groups[i].materialMaster == shown[i]
                   && groups[i].parameters == ParametersFor(catalogue, shown[i].materialCode)
                   && groups[i].passedCount == PassedCount(groups[i].parameters)
                   && groups[i].totalCount == |groups[i].parameters|
  {
    var all := table.GetAllMaterialMaster();
    var materials := all;
    if searchTerm.Some? && searchTerm.value != "" {
      materials := FilterBySearch(all, searchTerm.value);
    } else {
      EmptyTermKeepsAll(all);
    }
    assert materials == FilterBySearch(all, searchTerm.GetOr(""));
    var failure;
    groups, failure := GroupMaterials(materials, catalogue);
    if failure.Some? {
      return [], Some(ErrorPrefix + failure.value);
    }
    error := None;
  }

  lemma ParametersReadablePrefix(ms: seq<MaterialMaster>, i: int, catalogue: seq<DocumentInspection>)
    requires 0 <= i < |ms|
    requires ParametersReadable(ms[..i], catalogue) && CodeReadable(catalogue, ms[i].materialCode)
    ensures ParametersReadable(ms[..i + 1], catalogue)
  {
    assert ms[..i + 1][..i] == ms[..i];
  }

  lemma ParametersUnreadableAt(ms: seq<MaterialMaster>, i: int, catalogue: seq<DocumentInspection>)
    requires 0 <= i < |ms| && !CodeReadable(catalogue, ms[i].materialCode)
    ensures !ParametersReadable(ms, catalogue)
  {
    ParametersReadableIff(ms, catalogue);
  }

  /** One pass of the loop of `Index`: the master's parameter query and its entry. */
  method ReadGroup(m: MaterialMaster, catalogue: seq<DocumentInspection>) returns (r: Result<MaterialGroupViewModel, string>)
    ensures r.Ok? <==> CodeReadable(catalogue, m.materialCode)
    ensures r.Ok? ==> r.value == GroupOf(m, catalogue)
    ensures r.Err? ==> r.error == NullReadMessage
  {
    var parameters := ReadParameters(catalogue, m.materialCode);
    if parameters.Err? {
      return Err(parameters.error);
    }
    var ps := parameters.value;
    r := Ok(MaterialGroupViewModel(m, ps, PassedCount(ps), |ps|));
  }

  /** One index entry per master, in order. */
  function GroupsOf(ms: seq<MaterialMaster>, catalogue: seq<DocumentInspection>): (r: seq<MaterialGroupViewModel>)
    ensures |r| == |ms|
    ensures forall i :: 0 <= i < |ms| ==> r[i] == GroupOf(ms[i], catalogue)
    decreases |ms|
  {
    if ms == [] then [] else GroupsOf(ms[..|ms| - 1], catalogue) + [GroupOf(ms[|ms| - 1], catalogue)]
  }

  /**
    * The loop of `Index`: appends the entry of each master in turn, and
    * stops with the mapper's error at the first query that fails.
    */
  method GroupMaterials(materials: seq<MaterialMaster>, catalogue: seq<DocumentInspection>)
    returns (groups: seq<MaterialGroupViewModel>, failure: Option<string>)
    ensures failure.None? <==> ParametersReadable(materials, catalogue)
    ensures failure.Some? ==> failure.value == NullReadMessage
    ensures failure.None? ==> groups == GroupsOf(materials, catalogue)
  {
    groups := [];
    var i := 0;
    while i < |materials|
      invariant 0 <= i <= |materials|
      invariant ParametersReadable(materials[..i], catalogue)
      invariant groups == GroupsOf(materials[..i], catalogue)
    {
      var group := ReadGroup(materials[i], catalogue);
      if group.Err? {
        ParametersUnreadableAt(materials, i, catalogue);
        return groups, Some(group.error);
      }
      ParametersReadablePrefix(materials, i, catalogue);
      assert materials[..i + 1][..i] == materials[..i];
      groups := groups + [group.value];
      i := i + 1;
    }
    assert materials[..i] == materials;
    failure := None;
  }

  // ---------------------------------------------------------------------
  // AddInspectionParameter
  // ---------------------------------------------------------------------

  /** The JSON body of the add-parameter request; `None` is a null or absent value. */
  datatype AddParameterRequest = AddParameterRequest(
    docFg: string,
    docFgItem: string,
    docCustomer: string,
    docPlant: string,
    docProcess: string,
    docSize: string,
    docTypeOfFilm: string,
    docSo: Option<string>,
    docSoItem: Option<string>,
    parameterType: string,
    docInspection: string,
    docUnit: string,
    docMin: Option<real>,
    docMax: Option<real>,
    docStd: Option<real>,
    docRemark: Option<string>,
    docDataType: Option<string>)

  /** The JSON reply; `parameterId` only on success. */
  datatype AddParameterReply = AddParameterReply(success: bool, message: string, parameterId: Option<int>)

  const NoInspectionMessage: string := "กรุณากรอกชื่อการตรวจสอบ"
  const NoUnitMessage: string := "กรุณากรอกหน่วย"
  const MissingLimitsMessage: string := "กรุณากรอกค่า Min, Max, Std สำหรับการตรวจแบบตัวเลข"
  const MinNotBelowMaxMessage: string := "ค่า Min ต้องน้อยกว่า Max"
  const StdOutOfRangeMessage: string := "ค่า Standard ต้องอยู่ระหว่าง Min และ Max"
  const ParameterAddedMessage: string := "เพิ่มพารามิเตอร์สำเร็จ"

  /** A numeric parameter's limits are all given, Min is below Max and Std lies between them. */
  predicate LimitsValid(req: AddParameterRequest) {
    req.docMin.Some? && req.docMax.Some? && req.docStd.Some?
    && req.docMin.value < req.docMax.value
    && req.docMin.value <= req.docStd.value <= req.docMax.value
  }

  /** The message the request is refused with, checked in the controller's order; `None` when it is accepted. */
  function ParameterRejection(req: AddParameterRequest): (r: Option<string>)
    ensures r.None? <==> !IsNullOrWhiteSpace(Some(req.docInspection)) && !IsNullOrWhiteSpace(Some(req.docUnit))
                         && (req.parameterType == "number" ==> LimitsValid(req))
    ensures IsNullOrWhiteSpace(Some(req.docInspection)) ==> r == Some(NoInspectionMessage)
    ensures !IsNullOrWhiteSpace(Some(req.docInspection)) && IsNullOrWhiteSpace(Some(req.docUnit)) ==> r == Some(NoUnitMessage)
    ensures r.Some? && !IsNullOrWhiteSpace(Some(req.docInspection)) && !IsNullOrWhiteSpace(Some(req.docUnit)) ==>
              req.parameterType == "number"
              && (r.value == MissingLimitsMessage <==> req.docMin.None? || req.docMax.None? || req.docStd.None?)
  {
    if IsNullOrWhiteSpace(Some(req.docInspection)) then Some(NoInspectionMessage)
    else if IsNullOrWhiteSpace(Some(req.docUnit)) then Some(NoUnitMessage)
    else if req.parameterType == "number" then
      if req.docMin.None? || req.docMax.None? || req.docStd.None? then Some(MissingLimitsMessage)
      else if req.docMin.value >= req.docMax.value then Some(MinNotBelowMaxMessage)
      else if req.docStd.value < req.docMin.value || req.docStd.value > req.docMax.value then Some(StdOutOfRangeMessage)
      else None
    else None
  }

  /** The greatest `DocOrderSort` among `rows` of the finished good `fg`, if it has any. */
  function MaxOrderOf(rows: seq<DocumentInspection>, fg: string): (r: Option<int>)
    ensures r.None? <==> forall x :: x in rows ==> x.docFg != Some(fg)
    ensures r.Some? ==> (forall x :: x in rows && x.docFg == Some(fg) ==> x.docOrderSort <= r.value)
                        && exists x :: x in rows && x.docFg == Some(fg) && x.docOrderSort == r.value
    decreases |rows|
  {
    if rows == [] then None
    else
      var init := rows[..|rows| - 1];
      var x := rows[|rows| - 1];
      assert rows == init + [x];
      var rest := MaxOrderOf(init, fg);
      if x.docFg != Some(fg) then rest
      else if rest.None? || rest.value < x.docOrderSort then Some(x.docOrderSort)
      else rest
  }

  /**
    * The new parameter's `DocOrderSort`: one more than the greatest among the
    * visible rows of the same finished good, or 1 when there are none, in
    * unchecked `int` arithmetic, so one more than `int.MaxValue` is
    * `int.MinValue`.
    */
  function NextOrderSort(visible: seq<DocumentInspection>, fg: string): (r: int)
    ensures IsInt32(r)
    ensures (forall x :: x in visible ==> x.docFg != Some(fg)) ==> r == 1
    ensures (forall x :: x in visible && x.docFg == Some(fg) ==> Int32Min <= x.docOrderSort < Int32Max) ==>
              (forall x :: x in visible && x.docFg == Some(fg) ==> x.docOrderSort < r)
              && ((exists x :: x in visible && x.docFg == Some(fg)) ==>
                    exists x :: x in visible && x.docFg == Some(fg) && x.docOrderSort == r - 1)
    ensures ((forall x :: x in visible && x.docFg == Some(fg) ==> IsInt32(x.docOrderSort))
             && (exists x :: x in visible && x.docFg == Some(fg) && x.docOrderSort == Int32Max)) ==> r == Int32Min
  {
    Wrap32(MaxOrderOf(visible, fg).GetOr(0) + 1)
  }

  /** The greatest `DocOrderSort` of a finished good depends only on which rows there are, not on their order. */
  lemma MaxOrderOfSameRows(a: seq<DocumentInspection>, b: seq<DocumentInspection>, fg: string)
    requires forall x :: x in a <==> x in b
    ensures MaxOrderOf(a, fg) == MaxOrderOf(b, fg)
  {
    var ma := MaxOrderOf(a, fg);
    var mb := MaxOrderOf(b, fg);
    if ma.Some? && mb.Some? {
      var xa :| xa in a && xa.docFg == Some(fg) && xa.docOrderSort == ma.value;
      var xb :| xb in b && xb.docFg == Some(fg) && xb.docOrderSort == mb.value;
      assert xa in b && xb in a;
    }
  }

  /** The next `DocOrderSort` depends only on which rows there are, not on their order. */
  lemma NextOrderSortSameRows(a: seq<DocumentInspection>, b: seq<DocumentInspection>, fg: string)
    requires forall x :: x in a <==> x in b
    ensures NextOrderSort(a, fg) == NextOrderSort(b, fg)
  {
    MaxOrderOfSameRows(a, b, fg);
  }

  /** The listing holds the same rows as the visible rows in table order. */
  lemma ListingSameRows(table: seq<DocumentInspection>)
    ensures forall x :: x in CatalogueOrder(table) <==> x in Visible(table)
  {
    CatalogueOrderCorrect(table);
  }

  /** The row the request creates, before the table assigns its id. */
  function NewParameter(req: AddParameterRequest, orderSort: int): (p: DocumentInspection)
    ensures p.docIsLr <==> req.parameterType == "leftright"
    ensures p.docIsMm <==> req.parameterType == "passfail"
    ensures !(p.docIsLr && p.docIsMm)
    ensures !p.docPassed && !p.docHide && p.docOrderSort == orderSort && p.docId == 0
    ensures p.docSo == Some(req.docSo.GetOr("")) && p.docSoItem == Some(req.docSoItem.GetOr(""))
    ensures req.docMin.None? ==> p.docMin == 0.0
    ensures req.docMax.None? ==> p.docMax == 0.0
    ensures req.docStd.None? ==> p.docStd == 0.0
    ensures req.docMin.Some? ==> p.docMin == req.docMin.value
    ensures req.docMax.Some? ==> p.docMax == req.docMax.value
    ensures req.docStd.Some? ==> p.docStd == req.docStd.value
    ensures p.docFg == Some(req.docFg) && p.docInspection == req.docInspection && p.docUnit == req.docUnit
  {
    DocumentInspection(
      0, req.docPlant, req.docProcess, req.docInspection, req.docUnit,
      req.docMin.GetOr(0.0), req.docMax.GetOr(0.0), req.docStd.GetOr(0.0),
      req.parameterType == "leftright", req.parameterType == "passfail",
      req.docRemark, Some(req.docCustomer), Some(req.docSo.GetOr("")), Some(req.docSoItem.GetOr("")),
      Some(req.docFg), Some(req.docFgItem), Some(req.docSize), Some(req.docTypeOfFilm),
      false, orderSort, false, req.docDataType)
  }

  /**
    * An accepted numeric parameter is stored with Std between Min and Max,
    * and with Min below Max when the request's limits have at most two
    * places; finer limits are rounded to hundredths on the way in.
    */
  lemma AcceptedLimitsStored(req: AddParameterRequest, orderSort: int)
    requires ParameterRejection(req).None? && req.parameterType == "number"
    ensures var p := Stored(NewParameter(req, orderSort));
            p.docMin <= p.docStd <= p.docMax && !p.docIsLr && !p.docIsMm
            && (LimitsStored(NewParameter(req, orderSort)) ==> p.docMin < p.docMax)
  {
    StoredKeepsLimitOrder(NewParameter(req, orderSort));
  }

  /**
    * The check runs on the request's values, the table keeps hundredths:
    * limits 1.001, 1.004 and standard 1.002 pass the check and are all
    * stored as 1.00, so the stored Min is not below the stored Max.
    */
  lemma AcceptedLimitsCollapse(req: AddParameterRequest, orderSort: int)
    requires req.parameterType == "number" && req.docInspection == "Thickness" && req.docUnit == "mm"
    requires req.docMin == Some(1.001) && req.docMax == Some(1.004) && req.docStd == Some(1.002)
    ensures ParameterRejection(req).None?
    ensures var p := Stored(NewParameter(req, orderSort));
            p.docMin == p.docMax == p.docStd == 1.0
  {
    assert req.docInspection[0] == 'T' && !IsWhiteSpace('T');
    assert req.docUnit[0] == 'm' && !IsWhiteSpace('m');
    Round2Collapses();
  }

  /**
    * The id the reply reports as written: the object given to the insert
    * never receives the identity value, so its `DocId` is still 0.
    */
  function ReportedIdAsWritten(req: AddParameterRequest, orderSort: int): (id: int)
    ensures id == 0
  {
    NewParameter(req, orderSort).docId
  }

  /** The nullable text columns the insert and the update bind without a `DBNull` fallback, in binding order. */
  function RawBoundColumns(m: DocumentInspection): seq<(string, Option<string>)> {
    [("@DocCustomer", m.docCustomer), ("@DocSo", m.docSo), ("@DocSoItem", m.docSoItem), ("@DocFg", m.docFg),
     ("@DocFgItem", m.docFgItem), ("@DocSize", m.docSize), ("@DocTypeOfFilm", m.docTypeOfFilm),
     ("@DocDataType", m.docDataType)]
  }

  /** The name of the first column in `columns` whose value is null. */
  function FirstNull(columns: seq<(string, Option<string>)>): (r: Option<string>)
    ensures r.None? <==> forall k :: 0 <= k < |columns| ==> columns[k].1.Some?
    ensures r.Some? ==> exists k :: 0 <= k < |columns| && columns[k].0 == r.value && columns[k].1.None?
                                    && forall j :: 0 <= j < k ==> columns[j].1.Some?
    decreases |columns|
  {
    if columns == [] then None
    else if columns[0].1.None? then Some(columns[0].0)
    else
      var r := FirstNull(columns[1..]);
      if r.Some? then
        var k :| 0 <= k < |columns[1..]| && columns[1..][k].0 == r.value && columns[1..][k].1.None?
                 && forall j :: 0 <= j < k ==> columns[1..][j].1.Some?;
        assert columns[k + 1] == columns[1..][k];
        assert forall j :: 1 <= j < k + 1 ==> columns[j] == columns[1..][j - 1];
        r
      else
        assert forall k :: 1 <= k < |columns| ==> columns[k] == columns[1..][k - 1];
        r
  }

  /**
    * The parameter SQL Server reports as not supplied when `m` is written:
    * the first of the raw-bound columns that is null, or none when all hold
    * a value.
    */
  function UnsuppliedParameter(m: DocumentInspection): (r: Option<string>)
    ensures r.None? <==> m.docCustomer.Some? && m.docSo.Some? && m.docSoItem.Some? && m.docFg.Some?
                         && m.docFgItem.Some? && m.docSize.Some? && m.docTypeOfFilm.Some? && m.docDataType.Some?
    ensures m.docCustomer.None? ==> r == Some("@DocCustomer")
    ensures r == Some("@DocDataType") <==>
              (m.docDataType.None? && m.docCustomer.Some? && m.docSo.Some? && m.docSoItem.Some? && m.docFg.Some?
               && m.docFgItem.Some? && m.docSize.Some? && m.docTypeOfFilm.Some?)
  {
    var cols := RawBoundColumns(m);
    var r := FirstNull(cols);
    assert cols[0].1 == m.docCustomer && cols[1].1 == m.docSo && cols[2].1 == m.docSoItem && cols[3].1 == m.docFg;
    assert cols[4].1 == m.docFgItem && cols[5].1 == m.docSize && cols[6].1 == m.docTypeOfFilm && cols[7].1 == m.docDataType;
    r
  }

  /**
    * The row a request creates binds every raw column but the data type,
    * which the request may leave null; then the insert fails on it.
    */
  lemma NewParameterUnsupplied(req: AddParameterRequest, orderSort: int, id: int)
    ensures req.docDataType.None? ==> UnsuppliedParameter(NewParameter(req, orderSort).(docId := id)) == Some("@DocDataType")
    ensures req.docDataType.Some? ==> UnsuppliedParameter(NewParameter(req, orderSort).(docId := id)).None?
  {
  }

  /**
    * A visible parameter of `fg` whose `DocOrderSort` is above every other
    * visible row of `fg` goes last in the parameter list when appended.
    */
  lemma AppendedParameterComesLast(table: seq<DocumentInspection>, x: DocumentInspection, fg: string)
    requires Selected(x, fg)
    requires forall y :: y in table && Selected(y, fg) ==> y.docOrderSort < x.docOrderSort
    ensures ParametersFor(table + [x], fg) == ParametersFor(table, fg) + [x]
  {
    assert (table + [x])[..|table|] == table;
    var sorted := ParametersFor(table, fg);
    ParametersForCorrect(table, fg);
    if sorted != [] {
      assert sorted[|sorted| - 1] in sorted;
    }
  }

  /**
    * Unless the finished good already holds a row at `int.MaxValue`, the row
    * the request adds is listed after every other visible parameter of its
    * finished good.
    */
  lemma NewParameterComesLast(rows: seq<DocumentInspection>, req: AddParameterRequest, id: int)
    requires forall y :: y in rows ==> IsInt32(y.docOrderSort)
    requires forall y :: y in rows && Selected(y, req.docFg) ==> y.docOrderSort < Int32Max
    ensures var p := Stored(NewParameter(req, NextOrderSort(Visible(rows), req.docFg)).(docId := id));
            ParametersFor(rows + [p], req.docFg) == ParametersFor(rows, req.docFg) + [p]
  {
    var p := Stored(NewParameter(req, NextOrderSort(Visible(rows), req.docFg)).(docId := id));
    forall y | y in rows && Selected(y, req.docFg)
      ensures y.docOrderSort < p.docOrderSort
    {
      assert y in Visible(rows);
    }
    AppendedParameterComesLast(rows, p, req.docFg);
  }

  /**
    * When a visible row of the finished good already has `DocOrderSort`
    * `int.MaxValue` and none has `int.MinValue`, the new row wraps round to
    * `int.MinValue` and is listed first instead of last.
    */
  lemma NewParameterWrapsFirst(rows: seq<DocumentInspection>, req: AddParameterRequest, id: int, top: DocumentInspection)
    requires forall y :: y in rows ==> IsInt32(y.docOrderSort)
    requires forall y :: y in rows && Selected(y, req.docFg) ==> y.docOrderSort != Int32Min
    requires top in rows && Selected(top, req.docFg) && top.docOrderSort == Int32Max
    ensures var p := Stored(NewParameter(req, NextOrderSort(Visible(rows), req.docFg)).(docId := id));
            p.docOrderSort == Int32Min && ParametersFor(rows + [p], req.docFg)[0] == p
            && |ParametersFor(rows + [p], req.docFg)| >= 2
  {
    var fg := req.docFg;
    assert top in Visible(rows);
    var next := NextOrderSort(Visible(rows), fg);
    assert next == Int32Min;
    var p := Stored(NewParameter(req, next).(docId := id));
    ParametersForCorrect(rows + [p], fg);
    MinimumFirst(rows, p, fg);
    assert top in ParametersFor(rows + [p], fg) && top != p;
  }

  /**
    * A visible row of `fg` whose `DocOrderSort` is below every other visible
    * row of `fg` is listed first when appended.
    */
  lemma MinimumFirst(rows: seq<DocumentInspection>, p: DocumentInspection, fg: string)
    requires Selected(p, fg)
    requires forall y :: y in rows && Selected(y, fg) ==> p.docOrderSort < y.docOrderSort
    ensures ParametersFor(rows + [p], fg)[0] == p
  {
    var r := ParametersFor(rows + [p], fg);
    ParametersForCorrect(rows + [p], fg);
    assert p in r;
    assert r[0] in rows + [p];
  }

  /** A row of `rows` with id `id`. */
  predicate HasDocId(rows: seq<DocumentInspection>, id: int) {
    exists k :: 0 <= k < |rows| && rows[k].docId == id
  }

  /** `UPDATE ... WHERE DocId = model.DocId`: every column of the matching row takes the model's value. */
  function ReplaceById(rows: seq<DocumentInspection>, model: DocumentInspection): (r: seq<DocumentInspection>)
    ensures |r| == |rows|
    ensures forall k :: 0 <= k < |r| ==> r[k].docId == rows[k].docId
    ensures forall k :: 0 <= k < |r| && rows[k].docId != model.docId ==> r[k] == rows[k]
    ensures forall k :: 0 <= k < |r| && rows[k].docId == model.docId ==> r[k] == model
  {
    seq(|rows|, k requires 0 <= k < |rows| => if rows[k].docId == model.docId then model else rows[k])
  }

  /** The identity column: ids grow in row order, are positive and below the counter. */
  predicate DocIdsBelow(rows: seq<DocumentInspection>, bound: int) {
    (forall i, j :: 0 <= i < j < |rows| ==> rows[i].docId < rows[j].docId)
    && forall i :: 0 <= i < |rows| ==> 1 <= rows[i].docId < bound
  }

  /** A row whose id is above every id of the table can go at its end. */
  lemma DocIdsSnoc(rows: seq<DocumentInspection>, x: DocumentInspection, bound: int)
    requires DocIdsBelow(rows, x.docId) && 1 <= x.docId < bound
    ensures DocIdsBelow(rows + [x], bound)
  {
    var r := rows + [x];
    forall i, j | 0 <= i < j < |r|
      ensures r[i].docId < r[j].docId
    {
      assert r[i] == rows[i];
    }
  }

  /**
    * As written, the reply to an accepted request names no row: the table
    * after the insert holds the new row under the next identity value, while
    * the reported `parameterId` is 0, which no row has.
    */
  lemma AsWrittenReportsZero(rows: seq<DocumentInspection>, nextDocId: int, req: AddParameterRequest)
    requires nextDocId >= 1 && DocIdsBelow(rows, nextDocId)
    ensures var orderSort := NextOrderSort(Visible(rows), req.docFg);
            var stored := rows + [Stored(NewParameter(req, orderSort).(docId := nextDocId))];
            DocIdsBelow(stored, nextDocId + 1)
            && stored[|rows|].docId == nextDocId
            && ReportedIdAsWritten(req, orderSort) == 0
            && !HasDocId(stored, ReportedIdAsWritten(req, orderSort))
  {
    AsWrittenReportsZeroAt(rows, nextDocId, req, NextOrderSort(Visible(rows), req.docFg));
  }

  /** `AsWrittenReportsZero` for any `DocOrderSort` the new row gets. */
  lemma AsWrittenReportsZeroAt(rows: seq<DocumentInspection>, nextDocId: int, req: AddParameterRequest, orderSort: int)
    requires nextDocId >= 1 && DocIdsBelow(rows, nextDocId)
    ensures var stored := rows + [Stored(NewParameter(req, orderSort).(docId := nextDocId))];
            DocIdsBelow(stored, nextDocId + 1)
            && stored[|rows|].docId == nextDocId
            && !HasDocId(stored, 0)
  {
    var x := Stored(NewParameter(req, orderSort).(docId := nextDocId));
    assert x.docId == nextDocId;
    DocIdsSnoc(rows, x, nextDocId + 1);
  }

  /** What the edit POST answers. */
  datatype EditResult = EditNotFound | EditRedirect(message: string) | EditForm(error: Option<string>)

  const UpdatedMessage: string := "อัปเดตข้อมูลสำเร็จ"
  const NothingToUpdateMessage: string := "ไม่พบข้อมูลที่ต้องการอัปเดต"

  /** The `DocumentInspection` table with its identity counter. */
  class CatalogueTable {
    var rows: seq<DocumentInspection>
    var nextDocId: int

    ghost predicate Valid()
      reads this
    {
      nextDocId >= 1 && DocIdsBelow(rows, nextDocId)
      && (forall i :: 0 <= i < |rows| ==> IsInt32(rows[i].docOrderSort))
      && forall i :: 0 <= i < |rows| ==> LimitsStored(rows[i])
    }

    constructor ()
      ensures Valid() && rows == [] && nextDocId == 1
    {
      rows := [];
      nextDocId := 1;
    }

    /**
      * `AddInspectionParameter(request)`: refuses an invalid request with its
      * message; a listing read that meets a NULL mapped column, or a request
      * without a data type (the insert fails), gives the error text and
      * writes nothing; otherwise inserts the new parameter with the next
      * `DocOrderSort` of its finished good, its limits rounded to hundredths,
      * and reports the new row's id. Unless that finished good already holds
      * `int.MaxValue`, the new parameter is listed after every other one of it.
      */
    method AddInspectionParameter(req: AddParameterRequest) returns (reply: AddParameterReply)
      requires Valid()
      modifies this
      ensures Valid()
      ensures ParameterRejection(req).Some? ==>
                reply == AddParameterReply(false, ParameterRejection(req).value, None)
                && rows == old(rows) && nextDocId == old(nextDocId)
      ensures ParameterRejection(req).None? && !ListingReadable(old(rows)) ==>
                reply == AddParameterReply(false, ErrorPrefix + NullReadMessage, None)
                && rows == old(rows) && nextDocId == old(nextDocId)
      ensures ParameterRejection(req).None? && ListingReadable(old(rows)) && req.docDataType.None? ==>
                reply == AddParameterReply(false, ErrorPrefix + NotSuppliedMessage("@DocDataType"), None)
                && rows == old(rows) && nextDocId == old(nextDocId)
      ensures ParameterRejection(req).None? && ListingReadable(old(rows)) && req.docDataType.Some? ==>
                reply == AddParameterReply(true, ParameterAddedMessage, Some(old(nextDocId)))
                && rows == old(rows) + [Stored(NewParameter(req, NextOrderSort(Visible(old(rows)), req.docFg)).(docId := old(nextDocId)))]
                && nextDocId == old(nextDocId) + 1
      ensures ParameterRejection(req).None? && ListingReadable(old(rows)) && req.docDataType.Some?
              && (forall y :: y in old(rows) && Selected(y, req.docFg) ==> y.docOrderSort < Int32Max) ==>
                ParametersFor(rows, req.docFg) == ParametersFor(old(rows), req.docFg) + [rows[|rows| - 1]]
    {
      var rejection := ParameterRejection(req);
      if rejection.Some? {
        return AddParameterReply(false, rejection.value, None);
      }
      var orderSort := NextOrderSortOf(req.docFg);
      if orderSort.Err? {
        return AddParameterReply(false, ErrorPrefix + orderSort.error, None);
      }
      reply := CreateParameter(req, orderSort.value);
    }

    /**
      * The new row of an accepted request with its next `DocOrderSort`: the
      * insert fails without a data type, and otherwise stores the row.
      */
    method CreateParameter(req: AddParameterRequest, orderSort: int) returns (reply: AddParameterReply)
      requires Valid() && orderSort == NextOrderSort(Visible(rows), req.docFg)
      modifies this
      ensures Valid()
      ensures req.docDataType.None? ==>
                reply == AddParameterReply(false, ErrorPrefix + NotSuppliedMessage("@DocDataType"), None)
                && rows == old(rows) && nextDocId == old(nextDocId)
      ensures req.docDataType.Some? ==>
                reply == AddParameterReply(true, ParameterAddedMessage, Some(old(nextDocId)))
                && rows == old(rows) + [Stored(NewParameter(req, orderSort).(docId := old(nextDocId)))]
                && nextDocId == old(nextDocId) + 1
      ensures req.docDataType.Some?
              && (forall y :: y in old(rows) && Selected(y, req.docFg) ==> y.docOrderSort < Int32Max) ==>
                ParametersFor(rows, req.docFg) == ParametersFor(old(rows), req.docFg) + [rows[|rows| - 1]]
    {
      var created := NewParameter(req, orderSort).(docId := nextDocId);
      NewParameterUnsupplied(req, orderSort, nextDocId);
      var unsupplied := UnsuppliedParameter(created);
      if unsupplied.Some? {
        return AddParameterReply(false, ErrorPrefix + NotSuppliedMessage(unsupplied.value), None);
      }
      ComesLastWhenRoom(req);
      InsertParameter(created);
      reply := AddParameterReply(true, ParameterAddedMessage, Some(created.docId));
    }

    /**
      * The next `DocOrderSort` of `fg`, from the maximum over the listing:
      * the same as over the visible rows in table order; or the listing's
      * read error.
      */
    method NextOrderSortOf(fg: string) returns (orderSort: Result<int, string>)
      ensures orderSort.Ok? <==> ListingReadable(rows)
      ensures orderSort.Err? ==> orderSort.error == NullReadMessage
      ensures orderSort.Ok? ==> orderSort.value == NextOrderSort(Visible(rows), fg)
    {
      var existing := ReadListing(rows);
      if existing.Err? {
        return Err(existing.error);
      }
      ListingSameRows(rows);
      NextOrderSortSameRows(existing.value, Visible(rows), fg);
      orderSort := Ok(NextOrderSort(existing.value, fg));
    }

    lemma ComesLastWhenRoom(req: AddParameterRequest)
      requires Valid()
      ensures (forall y :: y in rows && Selected(y, req.docFg) ==> y.docOrderSort < Int32Max) ==>
                var p := Stored(NewParameter(req, NextOrderSort(Visible(rows), req.docFg)).(docId := nextDocId));
                ParametersFor(rows + [p], req.docFg) == ParametersFor(rows, req.docFg) + [p]
    {
      if forall y :: y in rows && Selected(y, req.docFg) ==> y.docOrderSort < Int32Max {
        forall y | y in rows
          ensures IsInt32(y.docOrderSort)
        {
          var i :| 0 <= i < |rows| && rows[i] == y;
        }
        NewParameterComesLast(rows, req, nextDocId);
      }
    }

    /**
      * `CreateMaterialAsync(row)`: the insert, with the next identity value as
      * the row's id and its limits rounded to the columns' two places.
      */
    method InsertParameter(row: DocumentInspection)
      requires Valid() && row.docId == nextDocId && IsInt32(row.docOrderSort)
      modifies this
      ensures Valid()
      ensures rows == old(rows) + [Stored(row)] && nextDocId == old(nextDocId) + 1
    {
      DocIdsSnoc(rows, Stored(row), nextDocId + 1);
      rows := rows + [Stored(row)];
      nextDocId := nextDocId + 1;
    }

    /**
      * `Edit(id, model)` (POST): NotFound when the route id is not the
      * model's; the form again when it is invalid, when a raw-bound column
      * of the model is null (the update fails with the error text) or when
      * no row has the id; otherwise the row is overwritten with the model,
      * its limits rounded to the columns' two places.
      * `model.DocOrderSort` is a C# `int`.
      */
    method EditPost(id: int, model: DocumentInspection, modelStateValid: bool) returns (r: EditResult)
      requires Valid() && IsInt32(model.docOrderSort)
      modifies this
      ensures Valid() && nextDocId == old(nextDocId)
      ensures id != model.docId ==> r == EditNotFound && rows == old(rows)
      ensures id == model.docId && !modelStateValid ==> r == EditForm(None) && rows == old(rows)
      ensures id == model.docId && modelStateValid && UnsuppliedParameter(model).Some? ==>
                r == EditForm(Some(ErrorPrefix + NotSuppliedMessage(UnsuppliedParameter(model).value)))
                && rows == old(rows)
      ensures id == model.docId && modelStateValid && UnsuppliedParameter(model).None? && !HasDocId(old(rows), id) ==>
                r == EditForm(Some(NothingToUpdateMessage)) && rows == old(rows)
      ensures id == model.docId && modelStateValid && UnsuppliedParameter(model).None? && HasDocId(old(rows), id) ==>
                r == EditRedirect(UpdatedMessage) && rows == ReplaceById(old(rows), Stored(model))
    {
      if id != model.docId {
        return EditNotFound;
      }
      if !modelStateValid {
        return EditForm(None);
      }
      var unsupplied := UnsuppliedParameter(model);
      if unsupplied.Some? {
        return EditForm(Some(ErrorPrefix + NotSuppliedMessage(unsupplied.value)));
      }
      var success := HasDocId(rows, model.docId);
      if success {
        rows := ReplaceById(rows, Stored(model));
        return EditRedirect(UpdatedMessage);
      }
      r := EditForm(Some(NothingToUpdateMessage));
    }
  }
}

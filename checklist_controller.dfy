/**
  * The checklist controller's decisions: which catalogue rows the inspection
  * page shows, when the creation form is accepted and what it stores, the
  * defaults of the finished-good lookup, and the reply of the save request.
  * Views, TempData and the dropdown lists are not modelled; a page is
  * represented by the values it is given.
  */
module ChecklistController {
  import opened Wrappers
  import opened Text
  import opened Models
  import opened Catalogue
  import opened ProductionOrder
  import opened MaterialMasterLocal
  import opened RecordsView
  import opened InspectCode
  import opened ChecklistService

  // ---------------------------------------------------------------------
  // Inspect
  // ---------------------------------------------------------------------

  /**
    * The inspection page, NotFound, or the exception of a listing read that
    * met a NULL mapped column: the action has no handler for it.
    */
  datatype InspectResult =
    | InspectNotFound
    | InspectFailed(message: string)
    | InspectPage(checklist: InspectionChecklist, parameters: seq<DocumentInspection>, records: seq<RecordView>)

  /**
    * The page's parameter list: the catalogue listing (visible rows by
    * finished good, item and `DocOrderSort`), filtered again to the
    * checklist's finished good and visible rows, then ordered by
    * `DocOrderSort` with LINQ's stable `OrderBy`.
    */
  function InspectParameters(catalogue: seq<DocumentInspection>, fg: string): seq<DocumentInspection> {
    SortByOrder(SelectFor(CatalogueOrder(catalogue), fg))
  }

  /** Dropping hidden rows first changes nothing about a finished good's visible rows. */
  lemma {:induction false} SelectForVisible(table: seq<DocumentInspection>, fg: string)
    ensures SelectFor(Visible(table), fg) == SelectFor(table, fg)
    decreases |table|
  {
    if table != [] {
      var init := table[..|table| - 1];
      var x := table[|table| - 1];
      SelectForVisible(init, fg);
      if !x.docHide {
        assert Visible(table) == Visible(init) + [x];
        assert (Visible(init) + [x])[..|Visible(init)|] == Visible(init);
      }
    }
  }

  /**
    * The page shows the catalogue rows of the checklist's finished good that
    * are not hidden, each as often as it is stored, sorted by `DocOrderSort`;
    * rows sharing a `DocOrderSort` come in `DocFgItem` order (NULL first),
    * the order the listing query delivers them in.
    */
  lemma InspectParametersCorrect(catalogue: seq<DocumentInspection>, fg: string)
    ensures SortedByOrder(InspectParameters(catalogue, fg))
    ensures multiset(InspectParameters(catalogue, fg)) == multiset(SelectFor(catalogue, fg))
    ensures forall x :: x in InspectParameters(catalogue, fg) <==> x in catalogue && x.docFg == Some(fg) && !x.docHide
    ensures forall k :: ItemSorted(WithOrder(InspectParameters(catalogue, fg), k))
  {
    InspectParametersPermutation(catalogue, fg);
    InspectParametersItemOrder(catalogue, fg);
    var r := InspectParameters(catalogue, fg);
    forall x
      ensures x in r <==> x in catalogue && x.docFg == Some(fg) && !x.docHide
    {
      assert x in r <==> x in multiset(r);
      assert x in SelectFor(catalogue, fg) <==> x in multiset(SelectFor(catalogue, fg));
    }
  }

  lemma InspectParametersPermutation(catalogue: seq<DocumentInspection>, fg: string)
    ensures multiset(InspectParameters(catalogue, fg)) == multiset(SelectFor(catalogue, fg))
  {
    SortByOrderCorrect(SelectFor(CatalogueOrder(catalogue), fg));
    ListingSelectPermutation(catalogue, fg);
  }

  /** Selecting `fg` from the listing keeps each of its visible rows as often as stored. */
  lemma ListingSelectPermutation(catalogue: seq<DocumentInspection>, fg: string)
    ensures multiset(SelectFor(CatalogueOrder(catalogue), fg)) == multiset(SelectFor(catalogue, fg))
  {
    var listing := CatalogueOrder(catalogue);
    SortByKeyCorrect(Visible(catalogue));
    SelectForVisible(catalogue, fg);
    forall x
      ensures multiset(SelectFor(listing, fg))[x] == multiset(SelectFor(catalogue, fg))[x]
    {
      SelectForCount(listing, fg, x);
      SelectForCount(Visible(catalogue), fg, x);
    }
  }

  lemma InspectParametersItemOrder(catalogue: seq<DocumentInspection>, fg: string)
    ensures SortedByOrder(InspectParameters(catalogue, fg))
    ensures forall k :: ItemSorted(WithOrder(InspectParameters(catalogue, fg), k))
  {
    var listing := CatalogueOrder(catalogue);
    var selected := SelectFor(listing, fg);
    SortByKeyCorrect(Visible(catalogue));
    SortByOrderCorrect(selected);
    SelectForItemSorted(listing, fg);
    forall k
      ensures ItemSorted(WithOrder(InspectParameters(catalogue, fg), k))
    {
      WithOrderItemSorted(selected, k);
    }
  }

  /**
    * Two visible rows of one finished good with the same `DocOrderSort`,
    * stored with item "B" before item "A": the page lists item "A" first.
    */
  lemma TieFollowsItemExample(b: DocumentInspection, a: DocumentInspection)
    requires b.docFg == a.docFg == Some("FG1") && !b.docHide && !a.docHide
    requires b.docOrderSort == a.docOrderSort
    requires b.docFgItem == Some("B") && a.docFgItem == Some("A")
    ensures InspectParameters([b, a], "FG1") == [a, b]
  {
    PairVisible(b, a);
    assert LexLess("A", "B");
    PairListing(b, a);
    PairSelected(a, b, "FG1");
    PairByOrder(a, b);
  }

  lemma PairVisible(x: DocumentInspection, y: DocumentInspection)
    requires !x.docHide && !y.docHide
    ensures Visible([x, y]) == [x, y]
  {
    assert [x, y][..1] == [x] && [x][..0] == [];
    assert Visible([x]) == [x];
  }

  lemma PairListing(x: DocumentInspection, y: DocumentInspection)
    requires KeyLess(y, x)
    ensures SortByKey([x, y]) == [y, x]
  {
    assert [x, y][..1] == [x] && [x][..0] == [];
    assert SortByKey([x]) == [x];
  }

  lemma PairSelected(x: DocumentInspection, y: DocumentInspection, fg: string)
    requires Selected(x, fg) && Selected(y, fg)
    ensures SelectFor([x, y], fg) == [x, y]
  {
    assert [x, y][..1] == [x] && [x][..0] == [];
  }

  lemma PairByOrder(x: DocumentInspection, y: DocumentInspection)
    requires x.docOrderSort <= y.docOrderSort
    ensures SortByOrder([x, y]) == [x, y]
  {
    assert [x, y][..1] == [x] && [x][..0] == [];
    assert SortByOrder([x]) == [x];
  }

  /**
    * `Inspect(id)`: NotFound when no header has the id; the read error when
    * a visible catalogue row of any finished good has a NULL mapped column;
    * otherwise the header, its parameter list and the records already saved
    * for it.
    */
  method Inspect(db: ChecklistDb, catalogue: seq<DocumentInspection>, id: int) returns (r: InspectResult)
    requires db.Valid()
    ensures r.InspectNotFound? <==> db.GetChecklistById(id).None?
    ensures r.InspectFailed? <==> db.GetChecklistById(id).Some? && !ListingReadable(catalogue)
    ensures r.InspectFailed? ==> r.message == NullReadMessage
    ensures r.InspectPage? ==>
              r.checklist == db.GetChecklistById(id).value
              && r.parameters == InspectParameters(catalogue, r.checklist.fgCode)
              && SortedByOrder(r.parameters)
              && (forall x :: x in r.parameters <==> x in catalogue && x.docFg == Some(r.checklist.fgCode) && !x.docHide)
              && (forall k :: ItemSorted(WithOrder(r.parameters, k)))
              && r.records == ExpectedViews(RecordsOf(db.records, id), db.measurements)
  {
    var checklist := db.GetChecklistById(id);
    if checklist.None? {
      return InspectNotFound;
    }
    var materials := ReadListing(catalogue);
    if materials.Err? {
      return InspectFailed(materials.error);
    }
    var related := SortByOrder(SelectFor(materials.value, checklist.value.fgCode));
    InspectParametersCorrect(catalogue, checklist.value.fgCode);
    var existing := db.GetInspectionRecords(id);
    r := InspectPage(checklist.value, related, existing);
  }

  // ---------------------------------------------------------------------
  // Create (POST)
  // ---------------------------------------------------------------------

  /** What the POST answers: a redirect to the new checklist's page, or the form again. */
  datatype CreateResult =
    | RedirectToInspect(checklistId: int)
    | FormWithError(key: string, message: string)
    | FormInvalid

  const BadTeamAIdMessage: string := "รหัสผู้ตรวจสอบ กะ A ไม่ถูกต้อง"
  const BadTeamBIdMessage: string := "รหัสผู้ตรวจสอบ กะ B ไม่ถูกต้อง"
  const NoTeamAMessage: string := "ไม่พบข้อมูลผู้ตรวจสอบ กะ A"
  const NoTeamBMessage: string := "ไม่พบข้อมูลผู้ตรวจสอบ กะ B"

  /** `GetUserByIdAsync(id)`: the user with that id, active or not. */
  function UserById(users: seq<User>, id: int): (r: Option<User>)
    ensures r.Some? ==> r.value in users && r.value.id == id
    ensures r.None? <==> forall u :: u in users ==> u.id != id
    decreases |users|
  {
    if users == [] then None
    else if users[0].id == id then Some(users[0])
    else
      assert forall u :: u in users ==> u == users[0] || u in users[1..];
      UserById(users[1..], id)
  }

  /**
    * The production-order check the form must pass: the order exists, names
    * a material, and that material is an active local material master.
    */
  predicate OrderAccepted(orders: seq<OrderRow>, masters: seq<MaterialMaster>, number: string) {
    var found := FindOrder(orders, PadOrderNumber(number));
    found.Some? && found.value.plnbez.GetOr("") != "" && ActiveByCode(masters, found.value.plnbez.GetOr("")).Some?
  }

  /** The form after acceptance: the selected users' full names, the creation date, the creator and status Active. */
  function Filled(model: InspectionChecklist, teamA: User, teamB: User, identity: Option<string>, now: Date): (r: InspectionChecklist)
    ensures r.inspectorTeamA == Some(teamA.userFullName) && r.inspectorTeamB == Some(teamB.userFullName)
    ensures r.status == "Active" && r.createdDate == now
    ensures identity.Some? ==> r.createdBy == identity
    ensures identity.None? ==> r.createdBy == Some("System")
    ensures r.plant == model.plant && r.machineZone == model.machineZone && r.inspectCode == model.inspectCode
    ensures r.fgCode == model.fgCode && r.productionOrder == model.productionOrder
  {
    model.(inspectorTeamA := Some(teamA.userFullName), inspectorTeamB := Some(teamB.userFullName),
           createdDate := now, createdBy := Some(identity.GetOr("System")), status := "Active")
  }

  /** `int.TryParse(id.ToString())` gives back every 32-bit id, so the two parse guards never reject. */
  lemma IdTextParses(id: int)
    requires IsInt32(id)
    ensures ParseInt32(IntToString(id)) == Some(id)
  {
    FormatDRoundTrip(id, 1);
  }

  /**
    * `Create(model)` (POST) on day `now` by the signed-in user `identity`,
    * with the users table, the ERP order view and the local material
    * masters. An invalid form, a missing Team A or Team B user and a
    * production order that fails validation all return the form without
    * saving; otherwise the header is created with the users' full names,
    * and a failure of the creation comes back as a form error.
    */
  method CreatePost(db: ChecklistDb, modelStateValid: bool, model: InspectionChecklist, users: seq<User>,
                    orders: seq<OrderRow>, masters: seq<MaterialMaster>, identity: Option<string>, now: Date)
    returns (r: CreateResult)
    requires db.Valid() && ValidDate(now)
    requires IsInt32(model.inspectorTeamAId) && IsInt32(model.inspectorTeamBId)
    modifies db
    ensures db.Valid()
    ensures db.records == old(db.records) && db.measurements == old(db.measurements)
    ensures db.nextRecordId == old(db.nextRecordId)
    ensures !modelStateValid ==> r == FormInvalid
    ensures modelStateValid && UserById(users, model.inspectorTeamAId).None? ==>
              r == FormWithError("InspectorTeamAId", NoTeamAMessage)
    ensures modelStateValid && UserById(users, model.inspectorTeamAId).Some?
            && UserById(users, model.inspectorTeamBId).None? ==>
              r == FormWithError("InspectorTeamBId", NoTeamBMessage)
    ensures modelStateValid && UserById(users, model.inspectorTeamAId).Some? && UserById(users, model.inspectorTeamBId).Some?
            && !OrderAccepted(orders, masters, model.productionOrder.GetOr("")) ==>
              r == FormWithError("", ValidationMessage(orders, masters, model.productionOrder.GetOr("")))
    ensures !r.RedirectToInspect? ==> db.checklists == old(db.checklists) && db.nextChecklistId == old(db.nextChecklistId)
    ensures r.RedirectToInspect? ==>
              modelStateValid && OrderAccepted(orders, masters, model.productionOrder.GetOr(""))
              && UserById(users, model.inspectorTeamAId).Some? && UserById(users, model.inspectorTeamBId).Some?
    ensures modelStateValid && UserById(users, model.inspectorTeamAId).Some? && UserById(users, model.inspectorTeamBId).Some?
            && OrderAccepted(orders, masters, model.productionOrder.GetOr("")) ==>
              var filled := Filled(model, UserById(users, model.inspectorTeamAId).value,
                                   UserById(users, model.inspectorTeamBId).value, identity, now);
              var code := CodeFor(filled, old(InspectCodesOf(db.checklists)), now);
              if code.Err? then
                r == FormWithError("", ErrorPrefix + code.error)
              else if filled.plant.None? then
                r == FormWithError("", ErrorPrefix + PlantNotSuppliedMessage)
              else
                r == RedirectToInspect(old(db.nextChecklistId))
                && db.checklists == old(db.checklists) + [HeaderRow(filled, code.value, old(db.nextChecklistId))]
    ensures r.RedirectToInspect? ==>
              var header := db.checklists[|db.checklists| - 1];
              header.inspectorTeamA == Some(UserById(users, model.inspectorTeamAId).value.userFullName)
              && header.inspectorTeamB == Some(UserById(users, model.inspectorTeamBId).value.userFullName)
              && header.status == "Active" && header.checklistId == r.checklistId
  {
    if !modelStateValid {
      return FormInvalid;
    }
    var teamAId := ParseInt32(IntToString(model.inspectorTeamAId));
    IdTextParses(model.inspectorTeamAId);
    if teamAId.None? {
      return FormWithError("InspectorTeamAId", BadTeamAIdMessage);
    }
    var teamBId := ParseInt32(IntToString(model.inspectorTeamBId));
    IdTextParses(model.inspectorTeamBId);
    if teamBId.None? {
      return FormWithError("InspectorTeamBId", BadTeamBIdMessage);
    }
    var teamA := UserById(users, teamAId.value);
    var teamB := UserById(users, teamBId.value);
    if teamA.None? {
      return FormWithError("InspectorTeamAId", NoTeamAMessage);
    }
    if teamB.None? {
      return FormWithError("InspectorTeamBId", NoTeamBMessage);
    }
    var validation := GetAndValidateProductionOrder(orders, masters, model.productionOrder.GetOr(""));
    if !validation.success || !validation.hasMaterialMaster {
      return FormWithError("", validation.message);
    }
    var filled := Filled(model, teamA.value, teamB.value, identity, now);
    var created := db.CreateChecklist(filled, now);
    if created.Err? {
      return FormWithError("", ErrorPrefix + created.error);
    }
    r := RedirectToInspect(created.value);
  }

  // ---------------------------------------------------------------------
  // GetMaterialData
  // ---------------------------------------------------------------------

  /** The `data` object of a successful finished-good lookup. */
  datatype MaterialData = MaterialData(
    fgCode: string,
    itemName: string,
    customer: string,
    plant: string,
    process: string,
    size: string,
    typeOfFilm: string)

  /** The JSON reply: the data, the not-found message, or the message of a caught exception. */
  datatype MaterialDataReply = MaterialFound(data: MaterialData) | MaterialNotFound(message: string) | MaterialError(message: string)

  const FgNotFoundMessage: string := "ไม่พบข้อมูล FG Code นี้"

  /**
    * `GetMaterialData(fgCode)`: the active material master of the code, with
    * customer and process taken from its first parameter (by `DocOrderSort`)
    * when it has any, and "" and "CP" otherwise; the read error, without the
    * error prefix, when one of its parameters has a NULL mapped column.
    */
  function GetMaterialData(masters: seq<MaterialMaster>, catalogue: seq<DocumentInspection>, fgCode: string): (r: MaterialDataReply)
    ensures r.MaterialNotFound? <==> ActiveByCode(masters, fgCode).None?
    ensures r.MaterialNotFound? ==> r.message == FgNotFoundMessage
    ensures r.MaterialError? <==> ActiveByCode(masters, fgCode).Some? && !CodeReadable(catalogue, fgCode)
    ensures r.MaterialError? ==> r.message == NullReadMessage
    ensures r.MaterialFound? ==>
              exists m :: m in masters && m.isActive && m.materialCode == fgCode
                          && r.data.fgCode == fgCode && r.data.itemName == m.productName && r.data.plant == m.plant
                          && r.data.size == m.size.GetOr("") && r.data.typeOfFilm == m.filmType.GetOr("")
    ensures r.MaterialFound? && (forall x :: x in catalogue ==> !Selected(x, fgCode)) ==>
              r.data.customer == "" && r.data.process == "CP"
  {
    var material := ActiveByCode(masters, fgCode);
    if material.None? then MaterialNotFound(FgNotFoundMessage)
    else
      var m := material.value;
      var read := ReadParameters(catalogue, m.materialCode);
      if read.Err? then MaterialError(read.error)
      else
        var parameters := read.value;
        ParametersForCorrect(catalogue, m.materialCode);
        assert |parameters| > 0 ==> parameters[0] in parameters && Readable(parameters[0]);
        var customer := if |parameters| > 0 then parameters[0].docCustomer.value else "";
        var process := if |parameters| > 0 then parameters[0].docProcess else "CP";
        MaterialFound(MaterialData(m.materialCode, m.productName, customer, m.plant, process,
                                   m.size.GetOr(""), m.filmType.GetOr("")))
  }

  /**
    * When the finished good has visible parameters and none has a NULL mapped
    * column, the lookup's customer and process come from one of them whose
    * `DocOrderSort` is the smallest.
    */
  lemma MaterialDataFromFirstParameter(masters: seq<MaterialMaster>, catalogue: seq<DocumentInspection>, fgCode: string, y: DocumentInspection)
    requires ActiveByCode(masters, fgCode).Some?
    requires y in catalogue && Selected(y, fgCode)
    ensures var r := GetMaterialData(masters, catalogue, fgCode);
            CodeReadable(catalogue, fgCode) ==>
              r.MaterialFound?
              && exists p :: p in catalogue && Selected(p, fgCode)
                             && Some(r.data.customer) == p.docCustomer && r.data.process == p.docProcess
                             && forall x :: x in catalogue && Selected(x, fgCode) ==> p.docOrderSort <= x.docOrderSort
  {
    if CodeReadable(catalogue, fgCode) {
      var parameters := ParametersFor(catalogue, fgCode);
      ParametersForCorrect(catalogue, fgCode);
      assert y in parameters;
      var p := parameters[0];
      assert p in parameters;
      forall x | x in catalogue && Selected(x, fgCode)
        ensures p.docOrderSort <= x.docOrderSort
      {
        assert x in parameters;
        var j :| 0 <= j < |parameters| && parameters[j] == x;
        if j > 0 {
          assert parameters[0].docOrderSort <= parameters[j].docOrderSort;
        }
      }
    }
  }

  // ---------------------------------------------------------------------
  // SaveInspectionData
  // ---------------------------------------------------------------------

  /** The JSON reply `{ success, message }`. */
  datatype JsonReply = JsonReply(success: bool, message: string)

  const SaveSucceededMessage: string := "บันทึกข้อมูลสำเร็จ"

  /**
    * `SaveInspectionData(request)`: runs the save and reports success, or
    * reports failure with the message of the exception the save raised
    * (`messageOf` gives an error's message). The tables hold what the save
    * wrote either way.
    */
  method SaveInspectionData(db: ChecklistDb, req: InspectionDataRequest, parseTime: string -> Option<ClockTime>,
                            parseDecimal: string -> Option<real>, messageOf: SaveError -> string)
    returns (reply: JsonReply)
    requires db.Valid()
    modifies db
    ensures db.Valid()
    ensures reply.success <==> ParsedPrefix(req.inspectionRows, parseTime) == |req.inspectionRows|
    ensures reply.success ==> reply.message == SaveSucceededMessage
    ensures !reply.success ==>
              var k := ParsedPrefix(req.inspectionRows, parseTime);
              reply.message == messageOf(InvalidTime(req.inspectionRows[k].time))
    ensures db.checklists == UpdateHeader(old(db.checklists), req)
    ensures db.records == SavedRecords(old(db.records), req, parseTime, old(db.nextRecordId))
    ensures db.measurements == SavedMeasurements(old(db.measurements), old(db.records), req, parseTime, parseDecimal, old(db.nextRecordId))
  {
    var outcome := db.SaveInspectionData(req, parseTime, parseDecimal);
    if outcome.Fail? {
      return JsonReply(false, messageOf(outcome.error));
    }
    reply := JsonReply(true, SaveSucceededMessage);
  }
}

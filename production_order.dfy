/**
  * Production-order lookup and validation before a checklist is created:
  * the order number is padded to the ERP's 12 characters when it has 8, the
  * order is looked up in the ERP production-order view, and the order is
  * accepted only when its material (PLNBEZ) is an active local material
  * master.
  */
module ProductionOrder {
  import opened Wrappers
  import opened Text
  import opened Models
  import opened MaterialMasterLocal

  /** A row of the ERP production-order view; `None` is a NULL column. */
  datatype OrderRow = OrderRow(
    aufnr: string,
    kdauf: Option<string>,
    kdpos: Option<string>,
    kunnr: Option<string>,
    name1: Option<string>,
    plnbez: Option<string>,
    maktx: Option<string>,
    groes: Option<string>,
    wgbez: Option<string>)

  /** `ProductionOrderValidationResult`. */
  datatype ValidationResult = ValidationResult(
    success: bool,
    hasMaterialMaster: bool,
    message: string,
    materialCode: string,
    productionOrder: Option<ProductionOrderViewModel>)

  /** An order number of exactly 8 characters gets four leading zeros; any other is used as is. */
  function PadOrderNumber(number: string): (r: string)
    ensures |number| == 8 ==> |r| == 12 && r[..4] == "0000" && r[4..] == number
    ensures |number| != 8 ==> r == number
  {
    if |number| == 8 then "0000" + number else number
  }

  /** The first order row with the given AUFNR. */
  function FindOrder(orders: seq<OrderRow>, aufnr: string): (r: Option<OrderRow>)
    ensures r.Some? ==> r.value in orders && r.value.aufnr == aufnr
    ensures r.None? <==> forall o :: o in orders ==> o.aufnr != aufnr
    decreases |orders|
  {
    if orders == [] then None
    else if orders[0].aufnr == aufnr then Some(orders[0])
    else
      assert forall o :: o in orders ==> o == orders[0] || o in orders[1..];
      FindOrder(orders[1..], aufnr)
  }

  /** The view model of an order row: NULL columns become "", the plant is always KB01. */
  function ToViewModel(row: OrderRow): (v: ProductionOrderViewModel)
    ensures v.orderNumber == row.aufnr && v.plant == "KB01" && v.materialGroup.None?
    ensures row.name1.None? ==> v.customerName == ""
    ensures row.maktx.None? ==> v.materialDescription == ""
  {
    ProductionOrderViewModel(
      row.aufnr, row.kdauf.GetOr(""), row.kdpos.GetOr(""), row.kunnr.GetOr(""), row.name1.GetOr(""),
      DefaultPlant, row.maktx.GetOr(""), row.groes.GetOr(""), None, row.wgbez.GetOr(""))
  }

  function OrderNotFoundMessage(number: string): string {
    "ไม่พบ Production Order: " + number
  }

  function MaterialFoundMessage(code: string): string {
    "พบข้อมูล Material Code: " + code
  }

  function MaterialMissingMessage(code: string): string {
    "ยังไม่มี Material Code '" + code + "' ใน Material Master"
  }

  const NoMaterialCodeMessage: string := "ไม่พบ Material Code (PLNBEZ) ในข้อมูล Production Order"

  /**
    * The message the validation reports: the order is not found, the order
    * names no material, the material has no active master, or it was found.
    */
  function ValidationMessage(orders: seq<OrderRow>, masters: seq<MaterialMaster>, number: string): (m: string)
    ensures FindOrder(orders, PadOrderNumber(number)).None? ==> m == OrderNotFoundMessage(number)
    ensures FindOrder(orders, PadOrderNumber(number)).Some? && FindOrder(orders, PadOrderNumber(number)).value.plnbez.GetOr("") == "" ==>
              m == NoMaterialCodeMessage
  {
    var found := FindOrder(orders, PadOrderNumber(number));
    if found.None? then OrderNotFoundMessage(number)
    else
      var code := found.value.plnbez.GetOr("");
      if code == "" then NoMaterialCodeMessage
      else if ActiveByCode(masters, code).Some? then MaterialFoundMessage(code)
      else MaterialMissingMessage(code)
  }

  /**
    * `GetAndValidateProductionOrderAsync(number)` against the ERP order view
    * `orders` and the local material-master rows `masters`.
    */
  method GetAndValidateProductionOrder(orders: seq<OrderRow>, masters: seq<MaterialMaster>, number: string)
    returns (result: ValidationResult)
    ensures FindOrder(orders, PadOrderNumber(number)).None? ==>
              !result.success && !result.hasMaterialMaster && result.productionOrder.None?
              && result.message == OrderNotFoundMessage(number) && result.materialCode == ""
    ensures FindOrder(orders, PadOrderNumber(number)).Some? ==>
              var row := FindOrder(orders, PadOrderNumber(number)).value;
              result.productionOrder == Some(ToViewModel(row))
              && result.materialCode == row.plnbez.GetOr("")
              && (result.success <==> result.materialCode != "" && ActiveByCode(masters, result.materialCode).Some?)
    ensures result.hasMaterialMaster == result.success
    ensures result.message == ValidationMessage(orders, masters, number)
    ensures result.success ==> exists m :: m in masters && m.isActive && m.materialCode == result.materialCode
    ensures result.productionOrder.Some? ==> result.productionOrder.value.plant == "KB01"
  {
    result := ValidationResult(false, false, "", "", None);
    var ppOrder := PadOrderNumber(number);
    var found := FindOrder(orders, ppOrder);
    if found.None? {
      result := result.(success := false, message := OrderNotFoundMessage(number));
      return;
    }
    var row := found.value;
    result := result.(productionOrder := Some(ToViewModel(row)));
    var materialCode := row.plnbez.GetOr("");
    result := result.(materialCode := materialCode);
    if materialCode != "" {
      var materialMaster := ActiveByCode(masters, materialCode);
      if materialMaster.Some? {
        result := result.(success := true, hasMaterialMaster := true, message := MaterialFoundMessage(materialCode));
      } else {
        result := result.(success := false, hasMaterialMaster := false, message := MaterialMissingMessage(materialCode));
      }
    } else {
      result := result.(success := false, hasMaterialMaster := false, message := NoMaterialCodeMessage);
    }
  }

  // ---------------------------------------------------------------------
  // Properties
  // ---------------------------------------------------------------------

  /** Padding twice is padding once. */
  lemma PadIdempotent(number: string)
    ensures PadOrderNumber(PadOrderNumber(number)) == PadOrderNumber(number)
  {
  }

  /**
    * An 8-character number and the same number with four leading zeros name
    * the same order: padding is not injective.
    */
  lemma PadMerges(number: string)
    requires |number| == 8
    ensures PadOrderNumber("0000" + number) == PadOrderNumber(number)
    ensures "0000" + number != number
  {
    assert |"0000" + number| == 12;
  }
}

/**
  * The local `MaterialMaster` table: finished goods copied from the ERP
  * material master. Saving is check-then-insert; lookups by code see only
  * active rows, while the duplicate check sees every row.
  */
module MaterialMasterLocal {
  import opened Wrappers
  import opened Models

  /** `SELECT COUNT(*) ... WHERE MaterialCode = code` is positive: any row, active or not. */
  predicate HasCode(rows: seq<MaterialMaster>, code: string) {
    exists i :: 0 <= i < |rows| && rows[i].materialCode == code
  }

  /** `... WHERE MaterialCode = code AND IsActive = 1`: the first such row, if any. */
  function ActiveByCode(rows: seq<MaterialMaster>, code: string): (r: Option<MaterialMaster>)
    ensures r.Some? ==> r.value in rows && r.value.materialCode == code && r.value.isActive
    ensures r.None? <==> forall m :: m in rows ==> !(m.materialCode == code && m.isActive)
    decreases |rows|
  {
    if rows == [] then None
    else if rows[0].materialCode == code && rows[0].isActive then Some(rows[0])
    else
      assert forall m :: m in rows ==> m == rows[0] || m in rows[1..];
      ActiveByCode(rows[1..], code)
  }

  /** `WHERE IsActive = 1 ORDER BY MaterialId DESC`, for a table whose ids grow in row order. */
  function ActiveNewestFirst(rows: seq<MaterialMaster>): (r: seq<MaterialMaster>)
    ensures forall m :: m in r <==> m in rows && m.isActive
    decreases |rows|
  {
    if rows == [] then []
    else
      var rest := ActiveNewestFirst(rows[1..]);
      assert forall m :: m in rows ==> m == rows[0] || m in rows[1..];
      if rows[0].isActive then rest + [rows[0]] else rest
  }

  predicate IdsIncreasing(rows: seq<MaterialMaster>) {
    forall i, j :: 0 <= i < j < |rows| ==> rows[i].materialId < rows[j].materialId
  }

  /** The row the save inserts for an upstream material. */
  function InsertedRow(id: int, upstream: MaterialMasterViewModel, createdBy: string): (m: MaterialMaster)
    ensures m.materialCode == upstream.materialNumber && m.productName == upstream.materialDescription
    ensures m.plant == "KB01" && m.isActive && m.createdBy == Some(createdBy) && m.materialId == id
  {
    MaterialMaster(id, upstream.materialNumber, upstream.materialDescription, Some(upstream.size),
                   Some(upstream.unit), DefaultPlant, Some(upstream.typeOfFilm), true, Some(createdBy))
  }

  function AlreadyExistsMessage(code: string): string {
    "มีรายการ Material Code: " + code + " อยู่ในระบบแล้ว"
  }

  function NotInErpMessage(code: string): string {
    "ไม่พบข้อมูล Material Code: " + code + " ใน ZMATMASDW"
  }

  function SavedMessage(code: string): string {
    "บันทึก Material Code: " + code + " สำเร็จ"
  }

  /** The `MaterialMaster` table with its identity counter. */
  class MaterialMasterTable {
    var rows: seq<MaterialMaster>
    var nextId: int

    ghost predicate Valid()
      reads this
    {
      IdsIncreasing(rows) && forall i :: 0 <= i < |rows| ==> rows[i].materialId < nextId
    }

    constructor ()
      ensures Valid() && rows == [] && nextId == 1
    {
      rows := [];
      nextId := 1;
    }

    /** `CheckMaterialExistsAsync(code)`. */
    function CheckMaterialExists(code: string): (r: bool)
      reads this
      ensures r <==> exists m :: m in rows && m.materialCode == code
    {
      HasCode(rows, code)
    }

    /** `GetMaterialMasterByCodeAsync(code)`. */
    function GetMaterialMasterByCode(code: string): (r: Option<MaterialMaster>)
      reads this
      ensures r.Some? ==> r.value in rows && r.value.materialCode == code && r.value.isActive
      ensures r.None? <==> forall m :: m in rows ==> !(m.materialCode == code && m.isActive)
    {
      ActiveByCode(rows, code)
    }

    /** `GetAllMaterialMasterAsync()`. */
    function GetAllMaterialMaster(): (r: seq<MaterialMaster>)
      reads this
      ensures forall m :: m in r <==> m in rows && m.isActive
    {
      ActiveNewestFirst(rows)
    }

    /**
      * `SaveMaterialMasterAsync(code, createdBy)`, with the ERP lookup as the
      * map `erp`: refuses a code the table already holds in any row, refuses
      * a code the ERP does not know, and otherwise inserts one active row
      * copied from the ERP record, in plant KB01.
      */
    method SaveMaterialMaster(materialCode: string, createdBy: string, erp: map<string, MaterialMasterViewModel>)
      returns (success: bool, message: string)
      requires Valid()
      modifies this
      ensures Valid()
      ensures old(CheckMaterialExists(materialCode)) ==>
                !success && message == AlreadyExistsMessage(materialCode) && rows == old(rows) && nextId == old(nextId)
      ensures !old(CheckMaterialExists(materialCode)) && materialCode !in erp ==>
                !success && message == NotInErpMessage(materialCode) && rows == old(rows) && nextId == old(nextId)
      ensures !old(CheckMaterialExists(materialCode)) && materialCode in erp ==>
                success && message == SavedMessage(materialCode)
                && rows == old(rows) + [InsertedRow(old(nextId), erp[materialCode], createdBy)]
                && nextId == old(nextId) + 1
    {
      var existingCheck := CheckMaterialExists(materialCode);
      if existingCheck {
        return false, AlreadyExistsMessage(materialCode);
      }
      if materialCode !in erp {
        return false, NotInErpMessage(materialCode);
      }
      var row := InsertedRow(nextId, erp[materialCode], createdBy);
      rows := rows + [row];
      nextId := nextId + 1;
      return true, SavedMessage(materialCode);
    }
  }

  // ---------------------------------------------------------------------
  // Properties
  // ---------------------------------------------------------------------

  /**
    * An inactive row blocks saving its code again, yet lookup by code does
    * not see it: such a material can be neither re-added nor used.
    */
  lemma InactiveRowBlocksButIsInvisible(rows: seq<MaterialMaster>, code: string, i: int)
    requires 0 <= i < |rows| && rows[i].materialCode == code && !rows[i].isActive
    requires forall m :: m in rows && m.materialCode == code ==> !m.isActive
    ensures HasCode(rows, code)
    ensures ActiveByCode(rows, code).None?
  {
  }

  /** Newest first: under increasing ids, the listing is sorted by id, descending. */
  lemma {:induction false} ActiveNewestFirstDescending(rows: seq<MaterialMaster>)
    requires IdsIncreasing(rows)
    ensures forall i, j :: 0 <= i < j < |ActiveNewestFirst(rows)| ==>
              ActiveNewestFirst(rows)[i].materialId > ActiveNewestFirst(rows)[j].materialId
    decreases |rows|
  {
    if rows != [] {
      var rest := ActiveNewestFirst(rows[1..]);
      ActiveNewestFirstDescending(rows[1..]);
      if rows[0].isActive {
        var r := rest + [rows[0]];
        forall i, j | 0 <= i < j < |r|
          ensures r[i].materialId > r[j].materialId
        {
          if j == |rest| {
            assert r[i] in rest;
            var k :| 0 <= k < |rows[1..]| && rows[1..][k] == r[i];
            assert rows[k + 1] == r[i];
          } else {
            assert r[i] == rest[i] && r[j] == rest[j];
          }
        }
      }
    }
  }
}

/**
  * The layout of the Excel export of one checklist: three title rows, a
  * blank row, a table header whose parameter columns are grouped by data
  * type (cutting, blowing, printing, ...), and one data row per inspection
  * record, each parameter cell filled from the record's first measurement
  * of that parameter and tinted by its verdict. Fonts, colours, borders,
  * merges as objects and column widths are not part of this model: a merge
  * is a column span, a tint is a hint.
  */
module ExcelLayout {
  import opened Wrappers
  import opened Text
  import opened Models
  import opened Catalogue
  import opened RecordsView
  import opened ChecklistService

  const ChecklistMissingMessage: string := "ไม่พบข้อมูล Checklist"

  /** The group of a catalogue row without a data type. */
  const OtherGroup: string := "อื่นๆ"

  /** The worksheet row of the table header; rows 1-3 hold the title, row 4 is blank. */
  const HeaderRow: nat := 5

  /** The worksheet row of the first record; header rows 5-8 come before it. */
  const FirstDataRow: nat := HeaderRow + 4

  /** The first parameter column; columns 1-3 hold shift, time and lot. */
  const FirstParameterColumn: nat := 4

  /** `m.DocDataType ?? "อื่นๆ"`. */
  function GroupKey(d: DocumentInspection): string {
    d.docDataType.GetOr(OtherGroup)
  }

  /** One group of `GroupBy`: its key and its rows in catalogue order. */
  datatype Group = Group(key: string, items: seq<DocumentInspection>)

  /** The index of the group with the given key, or -1. */
  function FindGroup(gs: seq<Group>, key: string): (g: int)
    ensures -1 <= g < |gs|
    ensures 0 <= g ==> gs[g].key == key
    ensures g == -1 ==> forall h :: 0 <= h < |gs| ==> gs[h].key != key
    decreases |gs|
  {
    if gs == [] then -1
    else if gs[|gs| - 1].key == key then |gs| - 1
    else FindGroup(gs[..|gs| - 1], key)
  }

  /** One step of the lookup `GroupBy` builds: `d` joins its group, or opens a new one at the end. */
  function AddToGroups(gs: seq<Group>, d: DocumentInspection): seq<Group> {
    var g := FindGroup(gs, GroupKey(d));
    if g < 0 then gs + [Group(GroupKey(d), [d])]
    else gs[g := Group(gs[g].key, gs[g].items + [d])]
  }

  /** LINQ's `GroupBy(m => m.DocDataType ?? "อื่นๆ")`. */
  function GroupBy(ds: seq<DocumentInspection>): seq<Group>
    decreases |ds|
  {
    if ds == [] then [] else AddToGroups(GroupBy(ds[..|ds| - 1]), ds[|ds| - 1])
  }

  /** The rows of `ds` with the given key, in order. */
  function Members(ds: seq<DocumentInspection>, key: string): seq<DocumentInspection>
    decreases |ds|
  {
    if ds == [] then []
    else Members(ds[..|ds| - 1], key) + (if GroupKey(ds[|ds| - 1]) == key then [ds[|ds| - 1]] else [])
  }

  /** The groups' rows laid end to end: the parameter columns, left to right. */
  function Flatten(gs: seq<Group>): seq<DocumentInspection>
    decreases |gs|
  {
    if gs == [] then [] else Flatten(gs[..|gs| - 1]) + gs[|gs| - 1].items
  }

  /** Keys pairwise distinct, no group empty. */
  predicate WellGrouped(gs: seq<Group>) {
    (forall g, h :: 0 <= g < h < |gs| ==> gs[g].key != gs[h].key)
    && (forall g :: 0 <= g < |gs| ==> |gs[g].items| > 0)
  }

  /** Each group holds exactly the rows of its key, and every row's key has a group. */
  predicate GroupsMembers(gs: seq<Group>, ds: seq<DocumentInspection>) {
    (forall g :: 0 <= g < |gs| ==> gs[g].items == Members(ds, gs[g].key))
    && (forall i :: 0 <= i < |ds| ==> FindGroup(gs, GroupKey(ds[i])) >= 0)
  }

  // ---------------------------------------------------------------------
  // Grouping
  // ---------------------------------------------------------------------

  lemma AddKeepsWellGrouped(gs: seq<Group>, d: DocumentInspection)
    requires WellGrouped(gs)
    ensures WellGrouped(AddToGroups(gs, d))
  {
    var g := FindGroup(gs, GroupKey(d));
    var r := AddToGroups(gs, d);
    if g < 0 {
      forall a, b | 0 <= a < b < |r|
        ensures r[a].key != r[b].key
      {
        if b == |gs| {
          assert r[a] == gs[a];
        } else {
          assert r[a] == gs[a] && r[b] == gs[b];
        }
      }
    }
  }

  lemma {:induction false} GroupByWellGrouped(ds: seq<DocumentInspection>)
    ensures WellGrouped(GroupBy(ds))
    decreases |ds|
  {
    if ds != [] {
      GroupByWellGrouped(ds[..|ds| - 1]);
      AddKeepsWellGrouped(GroupBy(ds[..|ds| - 1]), ds[|ds| - 1]);
    }
  }

  lemma MembersStep(ds: seq<DocumentInspection>, d: DocumentInspection, key: string)
    ensures Members(ds + [d], key) == Members(ds, key) + (if GroupKey(d) == key then [d] else [])
  {
    assert (ds + [d])[..|ds|] == ds;
  }

  /** A key no row has has no members. */
  lemma {:induction false} MembersNone(ds: seq<DocumentInspection>, key: string)
    requires forall i :: 0 <= i < |ds| ==> GroupKey(ds[i]) != key
    ensures Members(ds, key) == []
    decreases |ds|
  {
    if ds != [] {
      MembersNone(ds[..|ds| - 1], key);
    }
  }

  lemma AddKeepsMembers(gs: seq<Group>, ds: seq<DocumentInspection>, d: DocumentInspection)
    requires WellGrouped(gs) && GroupsMembers(gs, ds)
    ensures GroupsMembers(AddToGroups(gs, d), ds + [d])
  {
    var key := GroupKey(d);
    var g := FindGroup(gs, key);
    var r := AddToGroups(gs, d);
    var ds' := ds + [d];
    forall h | 0 <= h < |r|
      ensures r[h].items == Members(ds', r[h].key)
    {
      MembersStep(ds, d, r[h].key);
      if h < |gs| && h != g {
        assert r[h] == gs[h] && gs[h].key != key;
      } else if g < 0 {
        forall i | 0 <= i < |ds|
          ensures GroupKey(ds[i]) != key
        {
          assert FindGroup(gs, GroupKey(ds[i])) >= 0;
        }
        MembersNone(ds, key);
      }
    }
    forall i | 0 <= i < |ds'|
      ensures FindGroup(r, GroupKey(ds'[i])) >= 0
    {
      var k := GroupKey(ds'[i]);
      if i < |ds| {
        assert ds'[i] == ds[i];
        var h := FindGroup(gs, k);
        assert r[h].key == k;
      } else {
        assert r[if g < 0 then |gs| else g].key == k;
      }
    }
  }

  /** Each group holds exactly the catalogue rows of its key, in catalogue order. */
  lemma {:induction false} GroupByMembers(ds: seq<DocumentInspection>)
    ensures GroupsMembers(GroupBy(ds), ds)
    decreases |ds|
  {
    if ds != [] {
      var init := ds[..|ds| - 1];
      GroupByMembers(init);
      GroupByWellGrouped(init);
      AddKeepsMembers(GroupBy(init), init, ds[|ds| - 1]);
      assert init + [ds[|ds| - 1]] == ds;
    }
  }
  /** The catalogue rows a group key has, as indices. */
  lemma {:induction false} MembersWitness(ds: seq<DocumentInspection>, key: string)
    requires |Members(ds, key)| > 0
    ensures exists i :: 0 <= i < |ds| && GroupKey(ds[i]) == key
    decreases |ds|
  {
    var init := ds[..|ds| - 1];
    if GroupKey(ds[|ds| - 1]) != key {
      MembersWitness(init, key);
      var i :| 0 <= i < |init| && GroupKey(init[i]) == key;
      assert ds[i] == init[i];
    }
  }

  /** Some row of key `a` comes before every row of key `b`. */
  predicate FirstBefore(ds: seq<DocumentInspection>, a: string, b: string) {
    exists i :: 0 <= i < |ds| && GroupKey(ds[i]) == a && forall j :: 0 <= j <= i ==> GroupKey(ds[j]) != b
  }

  lemma FirstBeforeExtend(ds: seq<DocumentInspection>, d: DocumentInspection, a: string, b: string)
    requires FirstBefore(ds, a, b)
    ensures FirstBefore(ds + [d], a, b)
  {
    var i :| 0 <= i < |ds| && GroupKey(ds[i]) == a && forall j :: 0 <= j <= i ==> GroupKey(ds[j]) != b;
    var ds' := ds + [d];
    assert forall j :: 0 <= j <= i ==> ds'[j] == ds[j];
    assert GroupKey(ds'[i]) == a;
  }

  /** Every group's key occurs before any row of a later group. */
  predicate GroupsInOrder(gs: seq<Group>, ds: seq<DocumentInspection>) {
    forall a, b :: 0 <= a < b < |gs| ==> FirstBefore(ds, gs[a].key, gs[b].key)
  }

  lemma AddKeepsOrder(gs: seq<Group>, ds: seq<DocumentInspection>, d: DocumentInspection)
    requires WellGrouped(gs) && GroupsMembers(gs, ds) && GroupsInOrder(gs, ds)
    ensures GroupsInOrder(AddToGroups(gs, d), ds + [d])
  {
    var key := GroupKey(d);
    var g := FindGroup(gs, key);
    var r := AddToGroups(gs, d);
    forall a, b | 0 <= a < b < |r|
      ensures FirstBefore(ds + [d], r[a].key, r[b].key)
    {
      if b < |gs| {
        assert r[a].key == gs[a].key && r[b].key == gs[b].key;
        FirstBeforeExtend(ds, d, gs[a].key, gs[b].key);
      } else {
        assert r[a] == gs[a] && r[b].key == key;
        MembersWitness(ds, gs[a].key);
        var i :| 0 <= i < |ds| && GroupKey(ds[i]) == gs[a].key;
        forall j | 0 <= j <= i
          ensures GroupKey(ds[j]) != key
        {
          assert FindGroup(gs, GroupKey(ds[j])) >= 0;
        }
        FirstBeforeWitness(ds, d, gs[a].key, key, i);
      }
    }
  }

  lemma FirstBeforeWitness(ds: seq<DocumentInspection>, d: DocumentInspection, a: string, b: string, i: int)
    requires 0 <= i < |ds| && GroupKey(ds[i]) == a
    requires forall j :: 0 <= j <= i ==> GroupKey(ds[j]) != b
    ensures FirstBefore(ds + [d], a, b)
  {
    var ds' := ds + [d];
    assert forall j :: 0 <= j <= i ==> ds'[j] == ds[j];
    assert GroupKey(ds'[i]) == a;
  }

  /**
    * Groups come in the order their keys first occur in the catalogue: of
    * two groups, the earlier one's key occurs before any row of the later.
    */
  lemma {:induction false} GroupByOrder(ds: seq<DocumentInspection>)
    ensures GroupsInOrder(GroupBy(ds), ds)
    decreases |ds|
  {
    if ds != [] {
      var init := ds[..|ds| - 1];
      var prev := GroupBy(init);
      GroupByOrder(init);
      GroupByMembers(init);
      GroupByWellGrouped(init);
      AddKeepsOrder(prev, init, ds[|ds| - 1]);
      assert init + [ds[|ds| - 1]] == ds;
    }
  }

  lemma {:induction false} FlattenUpdate(gs: seq<Group>, g: int, x: DocumentInspection)
    requires 0 <= g < |gs|
    ensures multiset(Flatten(gs[g := Group(gs[g].key, gs[g].items + [x])])) == multiset(Flatten(gs)) + multiset{x}
    decreases |gs|
  {
    var gs' := gs[g := Group(gs[g].key, gs[g].items + [x])];
    var n := |gs| - 1;
    FlattenLast(gs);
    FlattenLast(gs');
    if g == n {
      assert gs'[..n] == gs[..n];
    } else {
      var init := gs[..n];
      assert gs'[..n] == init[g := Group(init[g].key, init[g].items + [x])];
      FlattenUpdate(init, g, x);
      assert gs'[n] == gs[n];
      MultisetAppendOne(Flatten(init), Flatten(gs'[..n]), gs[n].items, x);
    }
  }

  lemma MultisetAppendOne<T>(a: seq<T>, a': seq<T>, b: seq<T>, x: T)
    requires multiset(a') == multiset(a) + multiset{x}
    ensures multiset(a' + b) == multiset(a + b) + multiset{x}
  {
  }

  lemma FlattenLast(gs: seq<Group>)
    requires gs != []
    ensures Flatten(gs) == Flatten(gs[..|gs| - 1]) + gs[|gs| - 1].items
  {
  }

  lemma FlattenAdd(gs: seq<Group>, d: DocumentInspection)
    ensures multiset(Flatten(AddToGroups(gs, d))) == multiset(Flatten(gs)) + multiset{d}
  {
    var g := FindGroup(gs, GroupKey(d));
    if g < 0 {
      assert (gs + [Group(GroupKey(d), [d])])[..|gs|] == gs;
    } else {
      FlattenUpdate(gs, g, d);
    }
  }

  /** The parameter columns are the catalogue rows, each exactly once: a permutation. */
  lemma {:induction false} GroupByPermutation(ds: seq<DocumentInspection>)
    ensures multiset(Flatten(GroupBy(ds))) == multiset(ds)
    ensures |Flatten(GroupBy(ds))| == |ds|
    decreases |ds|
  {
    if ds != [] {
      var init, last := ds[..|ds| - 1], ds[|ds| - 1];
      assert ds == init + [last];
      GroupByPermutation(init);
      FlattenAdd(GroupBy(init), last);
      assert multiset(Flatten(GroupBy(ds))) == multiset(init) + multiset{last};
    }
    LengthOfMultiset(Flatten(GroupBy(ds)), ds);
  }

  lemma LengthOfMultiset<T>(a: seq<T>, b: seq<T>)
    requires multiset(a) == multiset(b)
    ensures |a| == |b|
  {
    assert |multiset(a)| == |a| && |multiset(b)| == |b|;
  }

  // ---------------------------------------------------------------------
  // Columns and header spans
  // ---------------------------------------------------------------------

  /** A merged header cell on the header row: a label over columns `fromCol .. toCol`. */
  datatype Span = Span(caption: string, fromCol: int, toCol: int)

  /** The first column of group `g`. */
  function Start(gs: seq<Group>, g: int): nat
    requires 0 <= g <= |gs|
  {
    FirstParameterColumn + |Flatten(gs[..g])|
  }

  /** The header of group `g`: its key over its columns. */
  function GroupSpan(gs: seq<Group>, g: int): Span
    requires 0 <= g < |gs|
  {
    Span(gs[g].key, Start(gs, g), Start(gs, g) + |gs[g].items| - 1)
  }

  function GroupSpans(gs: seq<Group>): (r: seq<Span>)
    ensures |r| == |gs| && forall g :: 0 <= g < |gs| ==> r[g] == GroupSpan(gs, g)
  {
    seq(|gs|, g requires 0 <= g < |gs| => GroupSpan(gs, g))
  }

  lemma FlattenStep(gs: seq<Group>, g: int)
    requires 0 <= g < |gs|
    ensures Flatten(gs[..g + 1]) == Flatten(gs[..g]) + gs[g].items
  {
    assert gs[..g + 1][..g] == gs[..g];
  }

  /**
    * The group headers tile the parameter columns: the first starts at
    * column 4, each starts right after the one before, none is empty when
    * the groups come from `GroupBy`, and the last ends at column 3 + n for n
    * catalogue rows.
    */
  lemma SpansTile(ds: seq<DocumentInspection>)
    ensures var gs := GroupBy(ds);
            var spans := GroupSpans(gs);
            (|gs| > 0 ==> spans[0].fromCol == FirstParameterColumn)
            && (forall g :: 0 <= g < |gs| ==> spans[g].fromCol <= spans[g].toCol)
            && (forall g :: 0 <= g < |gs| - 1 ==> spans[g + 1].fromCol == spans[g].toCol + 1)
            && (|gs| > 0 ==> spans[|gs| - 1].toCol == FirstParameterColumn + |ds| - 1)
  {
    GroupByWellGrouped(ds);
    GroupByPermutation(ds);
    SpansTileGroups(GroupBy(ds), |ds|);
  }

  /** The spans of any groups without an empty one tile the `n` columns their rows fill. */
  lemma SpansTileGroups(gs: seq<Group>, n: int)
    requires forall g :: 0 <= g < |gs| ==> |gs[g].items| > 0
    requires |Flatten(gs)| == n
    ensures var spans := GroupSpans(gs);
            (|gs| > 0 ==> spans[0].fromCol == FirstParameterColumn)
            && (forall g :: 0 <= g < |gs| ==> spans[g].fromCol <= spans[g].toCol)
            && (forall g :: 0 <= g < |gs| - 1 ==> spans[g + 1].fromCol == spans[g].toCol + 1)
            && (|gs| > 0 ==> spans[|gs| - 1].toCol == FirstParameterColumn + n - 1)
  {
    forall g | 0 <= g < |gs|
      ensures Start(gs, g + 1) == Start(gs, g) + |gs[g].items|
    {
      FlattenStep(gs, g);
    }
    if |gs| > 0 {
      assert gs[..0] == [];
      assert gs[..|gs|] == gs;
    }
  }

  /** Column `|Flatten(gs[..g])| + t` among the parameter columns is row `t` of group `g`. */
  lemma {:induction false} FlattenAt(gs: seq<Group>, g: int, t: int)
    requires 0 <= g < |gs| && 0 <= t < |gs[g].items|
    ensures |Flatten(gs[..g])| + t < |Flatten(gs)|
    ensures Flatten(gs)[|Flatten(gs[..g])| + t] == gs[g].items[t]
    decreases |gs|
  {
    var n := |gs| - 1;
    assert Flatten(gs) == Flatten(gs[..n]) + gs[n].items;
    if g == n {
      assert gs[..g] == gs[..n];
    } else {
      assert gs[..g] == gs[..n][..g] && gs[g] == gs[..n][g];
      FlattenAt(gs[..n], g, t);
    }
  }

  // ---------------------------------------------------------------------
  // Sub-headers and cells
  // ---------------------------------------------------------------------

  /** The three sub-header cells of a parameter column (rows 6, 7 and 8). */
  datatype SubHeader = SubHeader(name: string, unit: string, limits: Option<string>)

  /** Row 8: the limits, written only when one of them is positive; `formatDecimal` prints a decimal. */
  function Limits(d: DocumentInspection, formatDecimal: real -> string): (r: Option<string>)
    ensures r.Some? <==> d.docMin > 0.0 || d.docMax > 0.0
  {
    if d.docMin > 0.0 || d.docMax > 0.0
    then Some("min: " + formatDecimal(d.docMin) + " | Max: " + formatDecimal(d.docMax))
    else None
  }

  function SubHeaderOf(d: DocumentInspection, formatDecimal: real -> string): SubHeader {
    SubHeader(d.docInspection, "(" + d.docUnit + ")", Limits(d, formatDecimal))
  }

  function SubHeaders(cols: seq<DocumentInspection>, formatDecimal: real -> string): (r: seq<SubHeader>)
    ensures |r| == |cols|
    decreases |cols|
  {
    if cols == [] then []
    else SubHeaders(cols[..|cols| - 1], formatDecimal) + [SubHeaderOf(cols[|cols| - 1], formatDecimal)]
  }

  /** The tint of a filled cell: the fail colour wins over the pass colour. */
  datatype Hint = FailHint | PassHint | NoHint

  /** A parameter cell of a data row: never written, or written with a value and a tint. */
  datatype Cell = Blank | Filled(text: string, hint: Hint)

  /** The ParameterId the inspection page gives the measurements of catalogue row `d`. */
  function ParamKey(d: DocumentInspection): string {
    "param_" + IntToString(d.docId)
  }

  /** `FirstOrDefault(m => m.ParameterId == key)`. */
  function FirstWith(ms: seq<MeasurementView>, key: string): (r: Option<MeasurementView>)
    ensures r.Some? ==> r.value in ms && r.value.parameterId == key
    ensures r.None? <==> forall m :: m in ms ==> m.parameterId != key
    decreases |ms|
  {
    if ms == [] then None
    else if ms[0].parameterId == key then Some(ms[0])
    else
      assert forall m :: m in ms ==> m == ms[0] || m in ms[1..];
      FirstWith(ms[1..], key)
  }

  function HintOf(m: MeasurementView): Hint {
    if m.isFail then FailHint else if m.isPass then PassHint else NoHint
  }

  /** The cell of catalogue row `d` in the data row of a record with measurements `ms`. */
  function CellFor(ms: seq<MeasurementView>, d: DocumentInspection): Cell {
    match FirstWith(ms, ParamKey(d))
    case None => Blank
    case Some(m) => Filled(m.value.GetOr(""), HintOf(m))
  }

  function CellsFor(ms: seq<MeasurementView>, cols: seq<DocumentInspection>): (r: seq<Cell>)
    ensures |r| == |cols|
    decreases |cols|
  {
    if cols == [] then []
    else CellsFor(ms, cols[..|cols| - 1]) + [CellFor(ms, cols[|cols| - 1])]
  }

  /** A data row: shift, time and lot in columns 1-3, then the parameter cells. */
  datatype DataRow = DataRow(shift: string, time: string, lot: Option<string>, cells: seq<Cell>)

  function RowOf(record: RecordView, gs: seq<Group>): DataRow {
    DataRow(record.shift, record.time, record.note, CellsFor(record.measurements, Flatten(gs)))
  }

  function RowsOf(views: seq<RecordView>, gs: seq<Group>): (r: seq<DataRow>)
    ensures |r| == |views| && forall i :: 0 <= i < |views| ==> r[i] == RowOf(views[i], gs)
  {
    seq(|views|, i requires 0 <= i < |views| => RowOf(views[i], gs))
  }

  /** The title rows 1-3, four cells each; a NULL column prints as nothing, a NULL machine as "N/A". */
  function TitleRows(c: InspectionChecklist): (rows: seq<seq<string>>)
    ensures |rows| == 3 && forall i :: 0 <= i < 3 ==> |rows[i]| == 4
  {
    [["Sales Order: " + c.soNumber.GetOr(""), "Sales Order Item: " + c.salesOrderItem.GetOr(""),
      "Customer Code: " + c.customerCode.GetOr(""), "Customer Name: " + c.customer],
     ["Production Order: " + c.productionOrder.GetOr(""), "Material Code (FG Code): " + c.fgCode,
      "Material Name: " + c.itemName, "Size: " + c.size.GetOr("")],
     ["Film Type: " + c.typeOfFilm.GetOr(""), "Plant: " + c.plant.GetOr(""),
      "Zone: " + c.machineZone.GetOr(""), "Machine: " + c.machineName.GetOr("N/A")]]
  }

  /** The worksheet, cell contents only. `lastColumn` is the last column of the table. */
  datatype Sheet = Sheet(
    title: seq<seq<string>>,
    spans: seq<Span>,
    subHeaders: seq<SubHeader>,
    rows: seq<DataRow>,
    lastColumn: int)

  /** The sheet of checklist `c` with parameters `materials` and read-back records `views`. */
  function ExpectedSheet(c: InspectionChecklist, materials: seq<DocumentInspection>, views: seq<RecordView>,
                         formatDecimal: real -> string): Sheet
  {
    var gs := GroupBy(materials);
    Sheet(TitleRows(c), GroupSpans(gs), SubHeaders(Flatten(gs), formatDecimal), RowsOf(views, gs),
          Start(gs, |gs|) - 1)
  }

  // ---------------------------------------------------------------------
  // The export
  // ---------------------------------------------------------------------

  lemma SubHeadersStep(cols: seq<DocumentInspection>, x: DocumentInspection, formatDecimal: real -> string)
    ensures SubHeaders(cols + [x], formatDecimal) == SubHeaders(cols, formatDecimal) + [SubHeaderOf(x, formatDecimal)]
  {
    assert (cols + [x])[..|cols|] == cols;
  }

  lemma PrefixStep<T>(front: seq<T>, items: seq<T>, i: int)
    requires 0 <= i < |items|
    ensures front + items[..i + 1] == front + items[..i] + [items[i]]
  {
    assert items[..i + 1] == items[..i] + [items[i]];
  }

  lemma CellsStep(ms: seq<MeasurementView>, cols: seq<DocumentInspection>, x: DocumentInspection)
    ensures CellsFor(ms, cols + [x]) == CellsFor(ms, cols) + [CellFor(ms, x)]
  {
    assert (cols + [x])[..|cols|] == cols;
  }

  /**
    * The table-header loop: for each group in turn, its span from the
    * running column, then one sub-header per row of the group, the column
    * advancing by the group's size.
    */
  method TableHeader(gs: seq<Group>, formatDecimal: real -> string)
    returns (spans: seq<Span>, subs: seq<SubHeader>, col: int)
    ensures spans == GroupSpans(gs)
    ensures subs == SubHeaders(Flatten(gs), formatDecimal)
    ensures col == Start(gs, |gs|)
  {
    spans := [];
    subs := [];
    col := FirstParameterColumn;
    var g := 0;
    assert gs[..0] == [];
    while g < |gs|
      invariant 0 <= g <= |gs|
      invariant col == Start(gs, g)
      invariant |spans| == g && forall h :: 0 <= h < g ==> spans[h] == GroupSpan(gs, h)
      invariant subs == SubHeaders(Flatten(gs[..g]), formatDecimal)
    {
      var startCol := col;
      var items := gs[g].items;
      spans := spans + [Span(gs[g].key, startCol, startCol + |items| - 1)];
      var i := 0;
      assert Flatten(gs[..g]) + items[..0] == Flatten(gs[..g]);
      while i < |items|
        invariant 0 <= i <= |items|
        invariant subs == SubHeaders(Flatten(gs[..g]) + items[..i], formatDecimal)
      {
        SubHeadersStep(Flatten(gs[..g]) + items[..i], items[i], formatDecimal);
        subs := subs + [SubHeaderOf(items[i], formatDecimal)];
        PrefixStep(Flatten(gs[..g]), items, i);
        i := i + 1;
      }
      assert items[..i] == items;
      FlattenStep(gs, g);
      col := col + |items|;
      g := g + 1;
    }
    assert gs[..g] == gs;
  }

  /** The data-row loop for one record: shift, time, lot, then one cell per parameter column. */
  method RecordRow(record: RecordView, gs: seq<Group>) returns (row: DataRow)
    ensures row == RowOf(record, gs)
  {
    var cells: seq<Cell> := [];
    var g := 0;
    assert gs[..0] == [];
    while g < |gs|
      invariant 0 <= g <= |gs|
      invariant cells == CellsFor(record.measurements, Flatten(gs[..g]))
    {
      var items := gs[g].items;
      var i := 0;
      assert Flatten(gs[..g]) + items[..0] == Flatten(gs[..g]);
      while i < |items|
        invariant 0 <= i <= |items|
        invariant cells == CellsFor(record.measurements, Flatten(gs[..g]) + items[..i])
      {
        CellsStep(record.measurements, Flatten(gs[..g]) + items[..i], items[i]);
        cells := cells + [CellFor(record.measurements, items[i])];
        PrefixStep(Flatten(gs[..g]), items, i);
        i := i + 1;
      }
      assert items[..i] == items;
      FlattenStep(gs, g);
      g := g + 1;
    }
    assert gs[..g] == gs;
    row := DataRow(record.shift, record.time, record.note, cells);
  }

  /**
    * `ExportChecklistToExcelAsync(checklistId)` without the styling, with
    * the catalogue table `catalogue` and `formatDecimal` printing a decimal:
    * fails when the checklist does not exist; otherwise lays out the title,
    * the grouped header of the checklist's visible parameters and one row
    * per record the inspection page reads back.
    */
  method ExportChecklistToExcel(db: ChecklistDb, catalogue: seq<DocumentInspection>, checklistId: int,
                                formatDecimal: real -> string)
    returns (r: Result<Sheet, string>)
    requires db.Valid()
    ensures db.GetChecklistById(checklistId).None? ==> r == Err(ChecklistMissingMessage)
    ensures db.GetChecklistById(checklistId).Some? ==>
              var c := db.GetChecklistById(checklistId).value;
              r == Ok(ExpectedSheet(c, ParametersFor(catalogue, c.fgCode),
                                    ExpectedViews(RecordsOf(db.records, checklistId), db.measurements), formatDecimal))
  {
    var checklist := db.GetChecklistById(checklistId);
    if checklist.None? {
      return Err(ChecklistMissingMessage);
    }
    var c := checklist.value;
    var records := db.GetInspectionRecords(checklistId);
    var materials := ParametersFor(catalogue, c.fgCode);
    var title := TitleRows(c);
    var groups := GroupBy(materials);
    var spans, subs, col := TableHeader(groups, formatDecimal);
    var rows: seq<DataRow> := [];
    var i := 0;
    while i < |records|
      invariant 0 <= i <= |records|
      invariant |rows| == i && forall k :: 0 <= k < i ==> rows[k] == RowOf(records[k], groups)
    {
      var row := RecordRow(records[i], groups);
      RowsStep(rows, records, groups, row);
      rows := rows + [row];
      i := i + 1;
    }
    assert rows == RowsOf(records, groups);
    r := Ok(Sheet(title, spans, subs, rows, col - 1));
  }

  lemma RowsStep(rows: seq<DataRow>, records: seq<RecordView>, gs: seq<Group>, row: DataRow)
    requires |rows| < |records| && forall k :: 0 <= k < |rows| ==> rows[k] == RowOf(records[k], gs)
    requires row == RowOf(records[|rows|], gs)
    ensures forall k :: 0 <= k < |rows| + 1 ==> (rows + [row])[k] == RowOf(records[k], gs)
  {
  }

  // ---------------------------------------------------------------------
  // Properties
  // ---------------------------------------------------------------------

  /** `FirstWith` finds the first measurement with the key. */
  lemma {:induction false} FirstWithIsFirst(ms: seq<MeasurementView>, key: string)
    requires FirstWith(ms, key).Some?
    ensures exists i :: 0 <= i < |ms| && ms[i] == FirstWith(ms, key).value
                        && forall j :: 0 <= j < i ==> ms[j].parameterId != key
    decreases |ms|
  {
    if ms[0].parameterId != key {
      FirstWithIsFirst(ms[1..], key);
      var i :| 0 <= i < |ms[1..]| && ms[1..][i] == FirstWith(ms, key).value
               && forall j :: 0 <= j < i ==> ms[1..][j].parameterId != key;
      assert ms[i + 1] == FirstWith(ms, key).value;
      assert forall j :: 1 <= j < i + 1 ==> ms[j] == ms[1..][j - 1];
    }
  }

  /**
    * A parameter cell is blank exactly when the record has no measurement
    * of that parameter; otherwise it shows the value of the first one, and
    * is tinted fail when that one failed, pass when it passed and did not
    * fail, and not at all otherwise.
    */
  lemma CellForCases(ms: seq<MeasurementView>, d: DocumentInspection)
    ensures CellFor(ms, d).Blank? <==> forall m :: m in ms ==> m.parameterId != ParamKey(d)
    ensures CellFor(ms, d).Filled? ==>
              exists i :: 0 <= i < |ms| && ms[i].parameterId == ParamKey(d)
                          && (forall j :: 0 <= j < i ==> ms[j].parameterId != ParamKey(d))
                          && CellFor(ms, d).text == ms[i].value.GetOr("")
                          && (CellFor(ms, d).hint == FailHint <==> ms[i].isFail)
                          && (CellFor(ms, d).hint == PassHint <==> !ms[i].isFail && ms[i].isPass)
  {
    if FirstWith(ms, ParamKey(d)).Some? {
      FirstWithIsFirst(ms, ParamKey(d));
    }
  }

  lemma {:induction false} CellsForAt(ms: seq<MeasurementView>, cols: seq<DocumentInspection>, k: int)
    requires 0 <= k < |cols|
    ensures CellsFor(ms, cols)[k] == CellFor(ms, cols[k])
    decreases |cols|
  {
    if k < |cols| - 1 {
      CellsForAt(ms, cols[..|cols| - 1], k);
    }
  }

  lemma {:induction false} SubHeadersAt(cols: seq<DocumentInspection>, formatDecimal: real -> string, k: int)
    requires 0 <= k < |cols|
    ensures SubHeaders(cols, formatDecimal)[k] == SubHeaderOf(cols[k], formatDecimal)
    decreases |cols|
  {
    if k < |cols| - 1 {
      SubHeadersAt(cols[..|cols| - 1], formatDecimal, k);
    }
  }

  /**
    * The exported sheet: the table spans columns 1 .. 3 + n for n
    * parameters, there is one data row per record, and under every group
    * header, column `fromCol + t` belongs to row `t` of that group: its
    * sub-header names it and each record's cell there is that parameter's
    * cell.
    */
  lemma SheetLayout(c: InspectionChecklist, materials: seq<DocumentInspection>, views: seq<RecordView>,
                    formatDecimal: real -> string)
    ensures var sheet := ExpectedSheet(c, materials, views, formatDecimal);
            var gs := GroupBy(materials);
            sheet.lastColumn == 3 + |materials|
            && |sheet.rows| == |views| && |sheet.spans| == |gs| && |sheet.subHeaders| == |materials|
            && forall i :: 0 <= i < |views| ==> |sheet.rows[i].cells| == |materials|
  {
    var gs := GroupBy(materials);
    GroupByPermutation(materials);
    assert gs[..|gs|] == gs;
  }

  /** Column `fromCol + t` under group header `g` holds row `t` of group `g`, in the sub-header and every data row. */
  lemma ColumnUnderHeader(c: InspectionChecklist, materials: seq<DocumentInspection>, views: seq<RecordView>,
                          formatDecimal: real -> string, g: int, t: int)
    requires 0 <= g < |GroupBy(materials)| && 0 <= t < |GroupBy(materials)[g].items|
    ensures var sheet := ExpectedSheet(c, materials, views, formatDecimal);
            var d := GroupBy(materials)[g].items[t];
            var k := sheet.spans[g].fromCol - FirstParameterColumn + t;
            0 <= k < |sheet.subHeaders| && sheet.spans[g].caption == GroupBy(materials)[g].key
            && GroupKey(d) == sheet.spans[g].caption
            && sheet.subHeaders[k] == SubHeaderOf(d, formatDecimal)
            && forall i :: 0 <= i < |views| ==> k < |sheet.rows[i].cells| && sheet.rows[i].cells[k] == CellFor(views[i].measurements, d)
  {
    var gs := GroupBy(materials);
    var sheet := ExpectedSheet(c, materials, views, formatDecimal);
    assert sheet.spans == GroupSpans(gs) && sheet.subHeaders == SubHeaders(Flatten(gs), formatDecimal)
           && sheet.rows == RowsOf(views, gs);
    var k := |Flatten(gs[..g])| + t;
    SpanStart(gs, g);
    GroupColumn(gs, views, formatDecimal, g, t, k);
    ItemKey(materials, g, t);
  }

  /** Every row of a group has the group's key. */
  lemma ItemKey(materials: seq<DocumentInspection>, g: int, t: int)
    requires 0 <= g < |GroupBy(materials)| && 0 <= t < |GroupBy(materials)[g].items|
    ensures GroupKey(GroupBy(materials)[g].items[t]) == GroupBy(materials)[g].key
  {
    GroupByMembers(materials);
    MembersKey(materials, GroupBy(materials)[g].key, t);
  }

  /** The header of group `g` starts right after the columns of the groups before it. */
  lemma SpanStart(gs: seq<Group>, g: int)
    requires 0 <= g < |gs|
    ensures GroupSpans(gs)[g].fromCol == FirstParameterColumn + |Flatten(gs[..g])|
    ensures GroupSpans(gs)[g].caption == gs[g].key
  {
  }

  /** The same, for any grouping: column `k`, counted from the first parameter column, is row `t` of group `g`. */
  lemma GroupColumn(gs: seq<Group>, views: seq<RecordView>, formatDecimal: real -> string, g: int, t: int, k: int)
    requires 0 <= g < |gs| && 0 <= t < |gs[g].items| && k == |Flatten(gs[..g])| + t
    ensures var d := gs[g].items[t];
            var rows := RowsOf(views, gs);
            0 <= k < |Flatten(gs)| && SubHeaders(Flatten(gs), formatDecimal)[k] == SubHeaderOf(d, formatDecimal)
            && forall i :: 0 <= i < |views| ==> k < |rows[i].cells| && rows[i].cells[k] == CellFor(views[i].measurements, d)
  {
    var d := gs[g].items[t];
    FlattenAt(gs, g, t);
    SubHeadersAt(Flatten(gs), formatDecimal, k);
    ColumnCells(views, gs, k, d);
  }

  /** Column `k` of every data row is the cell of the column's parameter. */
  lemma ColumnCells(views: seq<RecordView>, gs: seq<Group>, k: int, d: DocumentInspection)
    requires 0 <= k < |Flatten(gs)| && Flatten(gs)[k] == d
    ensures var rows := RowsOf(views, gs);
            forall i :: 0 <= i < |views| ==> k < |rows[i].cells| && rows[i].cells[k] == CellFor(views[i].measurements, d)
  {
    var rows := RowsOf(views, gs);
    forall i | 0 <= i < |views|
      ensures k < |rows[i].cells| && rows[i].cells[k] == CellFor(views[i].measurements, d)
    {
      RowCellAt(views[i], gs, k, d);
    }
  }

  lemma RowCellAt(record: RecordView, gs: seq<Group>, k: int, d: DocumentInspection)
    requires 0 <= k < |Flatten(gs)| && Flatten(gs)[k] == d
    ensures k < |RowOf(record, gs).cells| && RowOf(record, gs).cells[k] == CellFor(record.measurements, d)
  {
    CellsForAt(record.measurements, Flatten(gs), k);
  }

  /** The members of a key have that key. */
  lemma {:induction false} MembersKey(ds: seq<DocumentInspection>, key: string, t: int)
    requires 0 <= t < |Members(ds, key)|
    ensures GroupKey(Members(ds, key)[t]) == key
    decreases |ds|
  {
    var init := ds[..|ds| - 1];
    if t < |Members(init, key)| {
      MembersKey(init, key, t);
    }
  }
}

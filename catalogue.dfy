/**
  * The inspection-parameter catalogue (`DocumentInspection`) and the query
  * the core runs on it everywhere: the visible parameters of one finished
  * good, ordered by `DocOrderSort`, and the listing of all visible rows
  * ordered by finished good, item and `DocOrderSort`. The table is a
  * sequence in insertion order; ties in a sort key keep that order.
  */
module Catalogue {
  import opened Wrappers
  import opened Text
  import opened Models

  /** A visible catalogue row of the finished good `fg`. */
  predicate Selected(m: DocumentInspection, fg: string) {
    m.docFg == Some(fg) && !m.docHide
  }

  /** `WHERE DocFg = fg AND DocHide = 0`, in table order. */
  function SelectFor(table: seq<DocumentInspection>, fg: string): (r: seq<DocumentInspection>)
    ensures forall x :: x in r <==> x in table && Selected(x, fg)
    ensures |r| <= |table|
    decreases |table|
  {
    if table == [] then []
    else
      var rest := SelectFor(table[..|table| - 1], fg);
      var x := table[|table| - 1];
      assert table == table[..|table| - 1] + [x];
      if Selected(x, fg) then rest + [x] else rest
  }

  /** `WHERE DocHide = 0`, in table order. */
  function Visible(table: seq<DocumentInspection>): (r: seq<DocumentInspection>)
    ensures forall x :: x in r <==> x in table && !x.docHide
    decreases |table|
  {
    if table == [] then []
    else
      var rest := Visible(table[..|table| - 1]);
      var x := table[|table| - 1];
      assert table == table[..|table| - 1] + [x];
      if !x.docHide then rest + [x] else rest
  }

  predicate SortedByOrder(s: seq<DocumentInspection>) {
    forall i, j :: 0 <= i < j < |s| ==> s[i].docOrderSort <= s[j].docOrderSort
  }

  /** The rows of `s` whose `DocOrderSort` is `k`, in the order of `s`. */
  function WithOrder(s: seq<DocumentInspection>, k: int): seq<DocumentInspection>
    decreases |s|
  {
    if s == [] then []
    else WithOrder(s[..|s| - 1], k) + (if s[|s| - 1].docOrderSort == k then [s[|s| - 1]] else [])
  }

  /** Inserts `x` after every row whose key is at most its own. */
  function InsertByOrder(sorted: seq<DocumentInspection>, x: DocumentInspection): (r: seq<DocumentInspection>)
    ensures multiset(r) == multiset(sorted) + multiset{x}
    ensures |r| == |sorted| + 1
    decreases |sorted|
  {
    if sorted == [] || sorted[|sorted| - 1].docOrderSort <= x.docOrderSort then sorted + [x]
    else
      var init := sorted[..|sorted| - 1];
      assert sorted == init + [sorted[|sorted| - 1]];
      InsertByOrder(init, x) + [sorted[|sorted| - 1]]
  }

  /** LINQ's `OrderBy(m => m.DocOrderSort)`: a stable sort. */
  function SortByOrder(s: seq<DocumentInspection>): (r: seq<DocumentInspection>)
    ensures multiset(r) == multiset(s)
    ensures |r| == |s|
    decreases |s|
  {
    if s == [] then []
    else
      assert s == s[..|s| - 1] + [s[|s| - 1]];
      InsertByOrder(SortByOrder(s[..|s| - 1]), s[|s| - 1])
  }

  /** `GetParametersByMaterialCodeAsync(fg)`: the visible parameters of `fg` by `DocOrderSort`. */
  function ParametersFor(table: seq<DocumentInspection>, fg: string): seq<DocumentInspection> {
    SortByOrder(SelectFor(table, fg))
  }

  // ---------------------------------------------------------------------
  // Properties
  // ---------------------------------------------------------------------

  lemma {:induction false} WithOrderAppend(a: seq<DocumentInspection>, b: seq<DocumentInspection>, k: int)
    ensures WithOrder(a + b, k) == WithOrder(a, k) + WithOrder(b, k)
    decreases |b|
  {
    if b == [] {
      assert a + b == a;
    } else {
      assert (a + b)[..|a + b| - 1] == a + b[..|b| - 1];
      WithOrderAppend(a, b[..|b| - 1], k);
    }
  }

  lemma {:induction false} InsertSorted(sorted: seq<DocumentInspection>, x: DocumentInspection)
    requires SortedByOrder(sorted)
    ensures SortedByOrder(InsertByOrder(sorted, x))
    decreases |sorted|
  {
    if sorted != [] && sorted[|sorted| - 1].docOrderSort > x.docOrderSort {
      var init := sorted[..|sorted| - 1];
      InsertSorted(init, x);
      InsertedBelow(sorted, x);
      SortedSnoc(InsertByOrder(init, x), sorted[|sorted| - 1]);
    } else if sorted != [] {
      SortedSnoc(sorted, x);
    }
  }

  /** Inserting a row whose key is below the last one's leaves every row at or below the last one. */
  lemma InsertedBelow(sorted: seq<DocumentInspection>, x: DocumentInspection)
    requires SortedByOrder(sorted) && sorted != [] && x.docOrderSort <= sorted[|sorted| - 1].docOrderSort
    ensures forall y :: y in InsertByOrder(sorted[..|sorted| - 1], x) ==> y.docOrderSort <= sorted[|sorted| - 1].docOrderSort
  {
    var init := sorted[..|sorted| - 1];
    var r := InsertByOrder(init, x);
    forall y | y in r
      ensures y.docOrderSort <= sorted[|sorted| - 1].docOrderSort
    {
      assert y in multiset(r);
      if y != x {
        assert y in multiset(init);
        var i :| 0 <= i < |init| && init[i] == y;
        assert sorted[i] == y;
      }
    }
  }

  /** A row whose key is at or above every key of a sorted sequence can go at its end. */
  lemma SortedSnoc(s: seq<DocumentInspection>, x: DocumentInspection)
    requires SortedByOrder(s)
    requires forall y :: y in s ==> y.docOrderSort <= x.docOrderSort
    ensures SortedByOrder(s + [x])
  {
    var t := s + [x];
    forall i, j | 0 <= i < j < |t|
      ensures t[i].docOrderSort <= t[j].docOrderSort
    {
      assert t[i] == s[i] && s[i] in s;
      if j < |s| {
        assert t[j] == s[j];
      }
    }
  }

  /** Insertion puts `x` after every row of its own key. */
  lemma {:induction false} InsertStable(sorted: seq<DocumentInspection>, x: DocumentInspection, k: int)
    ensures WithOrder(InsertByOrder(sorted, x), k) == WithOrder(sorted, k) + (if x.docOrderSort == k then [x] else [])
    decreases |sorted|
  {
    if sorted == [] || sorted[|sorted| - 1].docOrderSort <= x.docOrderSort {
      WithOrderSnoc(sorted, x, k);
    } else {
      var init := sorted[..|sorted| - 1];
      var last := sorted[|sorted| - 1];
      var r := InsertByOrder(init, x);
      assert InsertByOrder(sorted, x) == r + [last];
      InsertStable(init, x, k);
      WithOrderSnoc(r, last, k);
      WithOrderSnoc(init, last, k);
      SnocLast(sorted);
    }
  }

  lemma WithOrderSnoc(s: seq<DocumentInspection>, y: DocumentInspection, k: int)
    ensures WithOrder(s + [y], k) == WithOrder(s, k) + (if y.docOrderSort == k then [y] else [])
  {
    assert (s + [y])[..|s|] == s;
  }

  /**
    * The sort orders by `DocOrderSort` and is stable: the rows of each key
    * come out in their input order, so the result is a permutation of the
    * input.
    */
  lemma {:induction false} SortByOrderCorrect(s: seq<DocumentInspection>)
    ensures SortedByOrder(SortByOrder(s))
    ensures forall k :: WithOrder(SortByOrder(s), k) == WithOrder(s, k)
    decreases |s|
  {
    if s != [] {
      var init := s[..|s| - 1];
      var x := s[|s| - 1];
      SortByOrderCorrect(init);
      InsertSorted(SortByOrder(init), x);
      forall k
        ensures WithOrder(SortByOrder(s), k) == WithOrder(s, k)
      {
        InsertStable(SortByOrder(init), x, k);
      }
    }
  }

  /**
    * The parameters of a finished good are exactly its visible catalogue
    * rows (with multiplicity), sorted by `DocOrderSort`, ties in table order.
    */
  lemma ParametersForCorrect(table: seq<DocumentInspection>, fg: string)
    ensures SortedByOrder(ParametersFor(table, fg))
    ensures multiset(ParametersFor(table, fg)) == multiset(SelectFor(table, fg))
    ensures forall x :: x in ParametersFor(table, fg) <==> x in table && Selected(x, fg)
    ensures forall k :: WithOrder(ParametersFor(table, fg), k) == WithOrder(SelectFor(table, fg), k)
  {
    SortByOrderCorrect(SelectFor(table, fg));
    var r := ParametersFor(table, fg);
    forall x
      ensures x in r <==> x in table && Selected(x, fg)
    {
      assert x in r <==> x in multiset(r);
      assert x in SelectFor(table, fg) <==> x in multiset(SelectFor(table, fg));
    }
  }

  // ---------------------------------------------------------------------
  // The full listing: ORDER BY DocFg, DocFgItem, DocOrderSort
  // ---------------------------------------------------------------------

  /** SQL Server's ascending order of a nullable text column: NULL first, then ordinal order standing in for the column's collation. */
  predicate NullableLess(a: Option<string>, b: Option<string>) {
    (a.None? && b.Some?) || (a.Some? && b.Some? && LexLess(a.value, b.value))
  }

  /** `a` sorts strictly before `b` under `ORDER BY DocFg, DocFgItem, DocOrderSort`. */
  predicate KeyLess(a: DocumentInspection, b: DocumentInspection) {
    NullableLess(a.docFg, b.docFg)
    || (a.docFg == b.docFg && NullableLess(a.docFgItem, b.docFgItem))
    || (a.docFg == b.docFg && a.docFgItem == b.docFgItem && a.docOrderSort < b.docOrderSort)
  }

  /** No row sorts strictly before an earlier one. */
  predicate KeySorted(s: seq<DocumentInspection>) {
    forall i, j :: 0 <= i < j < |s| ==> !KeyLess(s[j], s[i])
  }

  /** Rows listed with their `DocFgItem` in ascending order. */
  predicate ItemSorted(s: seq<DocumentInspection>) {
    forall i, j :: 0 <= i < j < |s| ==> !NullableLess(s[j].docFgItem, s[i].docFgItem)
  }

  /** Inserts `x` after every row that does not sort after it. */
  function InsertByKey(sorted: seq<DocumentInspection>, x: DocumentInspection): (r: seq<DocumentInspection>)
    ensures multiset(r) == multiset(sorted) + multiset{x}
    decreases |sorted|
  {
    if sorted == [] || !KeyLess(x, sorted[|sorted| - 1]) then sorted + [x]
    else
      var init := sorted[..|sorted| - 1];
      assert sorted == init + [sorted[|sorted| - 1]];
      InsertByKey(init, x) + [sorted[|sorted| - 1]]
  }

  /** The sort by (`DocFg`, `DocFgItem`, `DocOrderSort`); rows equal in all three keep table order. */
  function SortByKey(s: seq<DocumentInspection>): (r: seq<DocumentInspection>)
    ensures multiset(r) == multiset(s)
    decreases |s|
  {
    if s == [] then []
    else
      assert s == s[..|s| - 1] + [s[|s| - 1]];
      InsertByKey(SortByKey(s[..|s| - 1]), s[|s| - 1])
  }

  /** `GetAllMaterialsAsync()` without filters: the visible rows by finished good, item and `DocOrderSort`. */
  function CatalogueOrder(table: seq<DocumentInspection>): seq<DocumentInspection> {
    SortByKey(Visible(table))
  }

  lemma NullableLessTransitive(a: Option<string>, b: Option<string>, c: Option<string>)
    requires NullableLess(a, b) && NullableLess(b, c)
    ensures NullableLess(a, c)
  {
    if a.Some? {
      LexTransitive(a.value, b.value, c.value);
    }
  }

  lemma NullableLessTotal(a: Option<string>, b: Option<string>)
    ensures a == b || NullableLess(a, b) || NullableLess(b, a)
  {
    if a.Some? && b.Some? {
      LexTotal(a.value, b.value);
    }
  }

  lemma NullableLessAsymmetric(a: Option<string>, b: Option<string>)
    ensures !(NullableLess(a, b) && NullableLess(b, a))
  {
    if a.Some? && b.Some? {
      LexAsymmetric(a.value, b.value);
    }
  }

  lemma KeyLessTransitive(a: DocumentInspection, b: DocumentInspection, c: DocumentInspection)
    requires KeyLess(a, b) && KeyLess(b, c)
    ensures KeyLess(a, c)
  {
    if NullableLess(a.docFg, b.docFg) && NullableLess(b.docFg, c.docFg) {
      NullableLessTransitive(a.docFg, b.docFg, c.docFg);
    } else if a.docFg == b.docFg == c.docFg && NullableLess(a.docFgItem, b.docFgItem) && NullableLess(b.docFgItem, c.docFgItem) {
      NullableLessTransitive(a.docFgItem, b.docFgItem, c.docFgItem);
    }
  }

  /** Two rows either sort apart or agree on all three keys. */
  lemma KeyLessTotal(a: DocumentInspection, b: DocumentInspection)
    ensures KeyLess(a, b) || KeyLess(b, a)
            || (a.docFg == b.docFg && a.docFgItem == b.docFgItem && a.docOrderSort == b.docOrderSort)
  {
    NullableLessTotal(a.docFg, b.docFg);
    NullableLessTotal(a.docFgItem, b.docFgItem);
  }

  /** If `x` is not below `m` and `m` is not below `y`, then `x` is not below `y`. */
  lemma KeyLeTransitive(x: DocumentInspection, m: DocumentInspection, y: DocumentInspection)
    requires !KeyLess(x, m) && !KeyLess(m, y)
    ensures !KeyLess(x, y)
  {
    KeyLessTotal(x, m);
    if KeyLess(x, y) && KeyLess(m, x) {
      KeyLessTransitive(m, x, y);
    }
  }

  /** A row that no row of a sorted sequence sorts after can go at its end. */
  lemma KeySortedSnoc(s: seq<DocumentInspection>, x: DocumentInspection)
    requires KeySorted(s)
    requires forall y :: y in s ==> !KeyLess(x, y)
    ensures KeySorted(s + [x])
  {
    var t := s + [x];
    forall i, j | 0 <= i < j < |t|
      ensures !KeyLess(t[j], t[i])
    {
      assert t[i] == s[i] && s[i] in s;
      if j < |s| {
        assert t[j] == s[j];
      }
    }
  }

  lemma {:induction false} InsertByKeySorted(sorted: seq<DocumentInspection>, x: DocumentInspection)
    requires KeySorted(sorted)
    ensures KeySorted(InsertByKey(sorted, x))
    decreases |sorted|
  {
    if sorted == [] {
    } else {
      var init := sorted[..|sorted| - 1];
      var last := sorted[|sorted| - 1];
      if !KeyLess(x, last) {
        forall y | y in sorted
          ensures !KeyLess(x, y)
        {
          var i :| 0 <= i < |sorted| && sorted[i] == y;
          if i < |sorted| - 1 {
            KeyLeTransitive(x, last, y);
          }
        }
        KeySortedSnoc(sorted, x);
      } else {
        InsertByKeySorted(init, x);
        var r := InsertByKey(init, x);
        forall y | y in r
          ensures !KeyLess(last, y)
        {
          assert y in multiset(r);
          if y == x {
            KeyLessAsymmetric(x, last);
          } else {
            assert y in multiset(init);
            var i :| 0 <= i < |init| && init[i] == y;
            assert sorted[i] == y;
          }
        }
        KeySortedSnoc(r, last);
      }
    }
  }

  lemma KeyLessAsymmetric(a: DocumentInspection, b: DocumentInspection)
    ensures !(KeyLess(a, b) && KeyLess(b, a))
  {
    NullableLessAsymmetric(a.docFg, b.docFg);
    NullableLessAsymmetric(a.docFgItem, b.docFgItem);
  }

  /** The listing is sorted by finished good, item and `DocOrderSort`, and holds the visible rows with multiplicity. */
  lemma {:induction false} SortByKeyCorrect(s: seq<DocumentInspection>)
    ensures KeySorted(SortByKey(s))
    ensures multiset(SortByKey(s)) == multiset(s)
    decreases |s|
  {
    if s != [] {
      SortByKeyCorrect(s[..|s| - 1]);
      InsertByKeySorted(SortByKey(s[..|s| - 1]), s[|s| - 1]);
    }
  }

  /** One finished good's rows taken from the sorted listing come in item order. */
  lemma {:induction false} SelectForItemSorted(s: seq<DocumentInspection>, fg: string)
    requires KeySorted(s)
    ensures ItemSorted(SelectFor(s, fg))
    decreases |s|
  {
    if s != [] {
      var init := s[..|s| - 1];
      var x := s[|s| - 1];
      assert KeySorted(init) by {
        forall i, j | 0 <= i < j < |init|
          ensures !KeyLess(init[j], init[i])
        {
          assert init[i] == s[i] && init[j] == s[j];
        }
      }
      SelectForItemSorted(init, fg);
      if Selected(x, fg) {
        var rest := SelectFor(init, fg);
        var r := rest + [x];
        forall i, j | 0 <= i < j < |r|
          ensures !NullableLess(r[j].docFgItem, r[i].docFgItem)
        {
          if j < |rest| {
            assert r[i] == rest[i] && r[j] == rest[j];
          } else {
            assert r[i] == rest[i] && rest[i] in rest;
            var k :| 0 <= k < |init| && init[k] == rest[i];
            assert s[k] == rest[i];
          }
        }
      }
    }
  }

  /** The rows of one `DocOrderSort` taken from an item-sorted sequence stay in item order. */
  lemma {:induction false} WithOrderItemSorted(s: seq<DocumentInspection>, k: int)
    requires ItemSorted(s)
    ensures ItemSorted(WithOrder(s, k))
    ensures forall x :: x in WithOrder(s, k) ==> x in s
    decreases |s|
  {
    if s != [] {
      var init := s[..|s| - 1];
      var x := s[|s| - 1];
      assert ItemSorted(init) by {
        forall i, j | 0 <= i < j < |init|
          ensures !NullableLess(init[j].docFgItem, init[i].docFgItem)
        {
          assert init[i] == s[i] && init[j] == s[j];
        }
      }
      WithOrderItemSorted(init, k);
      var rest := WithOrder(init, k);
      if x.docOrderSort == k {
        var r := rest + [x];
        assert WithOrder(s, k) == r;
        forall i, j | 0 <= i < j < |r|
          ensures !NullableLess(r[j].docFgItem, r[i].docFgItem)
        {
          if j < |rest| {
            assert r[i] == rest[i] && r[j] == rest[j];
          } else {
            assert r[i] == rest[i] && rest[i] in rest;
            var m :| 0 <= m < |init| && init[m] == rest[i];
            assert s[m] == rest[i];
          }
        }
      } else {
        assert WithOrder(s, k) == rest;
      }
    }
  }

  /** Only the selected rows count: selecting from two permutations gives permutations. */
  lemma {:induction false} SelectForCount(s: seq<DocumentInspection>, fg: string, x: DocumentInspection)
    ensures multiset(SelectFor(s, fg))[x] == if Selected(x, fg) then multiset(s)[x] else 0
    decreases |s|
  {
    if s != [] {
      SelectForCount(s[..|s| - 1], fg, x);
      assert s == s[..|s| - 1] + [s[|s| - 1]];
    }
  }

  // ---------------------------------------------------------------------
  // Reading rows back: MapDocumentInspection
  // ---------------------------------------------------------------------

  /**
    * A row the material service's mapper can read: it calls `GetString`
    * without a NULL check on `DocCustomer`, `DocSo`, `DocSoItem`, `DocFg`,
    * `DocFgItem`, `DocSize` and `DocTypeOfFilm`.
    */
  predicate Readable(m: DocumentInspection) {
    m.docCustomer.Some? && m.docSo.Some? && m.docSoItem.Some? && m.docFg.Some?
    && m.docFgItem.Some? && m.docSize.Some? && m.docTypeOfFilm.Some?
  }

  /** The message of the `SqlNullValueException` that `GetString` throws on a NULL. */
  const NullReadMessage: string := "Data is Null. This method or property cannot be called on Null values."

  /**
    * `ExecuteReaderListAsync(sql, MapDocumentInspection)`: maps the rows in
    * the order the query delivers them and fails on the first unreadable one.
    */
  function ReadRows(rows: seq<DocumentInspection>): (r: Result<seq<DocumentInspection>, string>)
    ensures r.Ok? <==> forall x :: x in rows ==> Readable(x)
    ensures r.Ok? ==> r.value == rows
    ensures r.Err? ==> r.error == NullReadMessage
  {
    if rows == [] then Ok([])
    else if !Readable(rows[0]) then Err(NullReadMessage)
    else
      var rest := ReadRows(rows[1..]);
      assert forall x :: x in rows ==> x == rows[0] || x in rows[1..];
      if rest.Err? then rest else Ok([rows[0]] + rest.value)
  }

  /** No visible row of any finished good has a NULL in a mapped column. */
  predicate ListingReadable(table: seq<DocumentInspection>) {
    forall x :: x in table && !x.docHide ==> Readable(x)
  }

  /**
    * `GetAllMaterialsAsync()` as read: the listing, or the mapper's error
    * when a visible row of any finished good has a NULL in a mapped column.
    */
  function ReadListing(table: seq<DocumentInspection>): (r: Result<seq<DocumentInspection>, string>)
    ensures r.Ok? <==> ListingReadable(table)
    ensures r.Err? ==> r.error == NullReadMessage
    ensures r.Ok? ==> r.value == CatalogueOrder(table)
  {
    CatalogueOrderCorrect(table);
    ReadRows(CatalogueOrder(table))
  }

  /**
    * The listing holds every visible row, each as often as stored, by
    * finished good, item and `DocOrderSort`.
    */
  lemma CatalogueOrderCorrect(table: seq<DocumentInspection>)
    ensures forall x :: x in CatalogueOrder(table) <==> x in table && !x.docHide
    ensures KeySorted(CatalogueOrder(table)) && multiset(CatalogueOrder(table)) == multiset(Visible(table))
  {
    SortByKeyCorrect(Visible(table));
    var listing := CatalogueOrder(table);
    assert forall x :: x in listing <==> x in multiset(listing);
    assert forall x :: x in Visible(table) <==> x in multiset(Visible(table));
  }

  /** No visible row of `fg` has a NULL in a mapped column. */
  predicate CodeReadable(table: seq<DocumentInspection>, fg: string) {
    forall x :: x in table && Selected(x, fg) ==> Readable(x)
  }

  /**
    * `GetParametersByMaterialCodeAsync(fg)` as read: the parameters, or the
    * mapper's error when one of them has a NULL in a mapped column.
    */
  function ReadParameters(table: seq<DocumentInspection>, fg: string): (r: Result<seq<DocumentInspection>, string>)
    ensures r.Ok? <==> CodeReadable(table, fg)
    ensures r.Ok? ==> r.value == ParametersFor(table, fg)
    ensures r.Err? ==> r.error == NullReadMessage
  {
    ParametersForCorrect(table, fg);
    ReadRows(ParametersFor(table, fg))
  }

  // ---------------------------------------------------------------------
  // Writing rows: decimal(18,2) limits
  // ---------------------------------------------------------------------

  /** Every limit of the row fits the column's scale of two places. */
  predicate LimitsStored(m: DocumentInspection) {
    TwoPlaces(m.docMin) && TwoPlaces(m.docMax) && TwoPlaces(m.docStd)
  }

  /**
    * The row as the table holds it after an insert or an update: `DocMin`,
    * `DocMax` and `DocStd` are `decimal(18,2)` columns and are rounded to
    * hundredths; every other column is kept.
    */
  function Stored(m: DocumentInspection): (r: DocumentInspection)
    ensures LimitsStored(r)
    ensures -0.005 <= r.docMin - m.docMin <= 0.005 && -0.005 <= r.docMax - m.docMax <= 0.005
    ensures -0.005 <= r.docStd - m.docStd <= 0.005
    ensures r.(docMin := m.docMin, docMax := m.docMax, docStd := m.docStd) == m
  {
    m.(docMin := Round2(m.docMin), docMax := Round2(m.docMax), docStd := Round2(m.docStd))
  }

  /** A row whose limits already have two places is stored as it is. */
  lemma StoredExact(m: DocumentInspection)
    requires LimitsStored(m)
    ensures Stored(m) == m
  {
    Round2Exact(m.docMin);
    Round2Exact(m.docMax);
    Round2Exact(m.docStd);
  }

  /** Storing keeps `Min <= Std <= Max`, and keeps `Min < Max` when the limits have two places. */
  lemma StoredKeepsLimitOrder(m: DocumentInspection)
    requires m.docMin <= m.docStd <= m.docMax
    ensures Stored(m).docMin <= Stored(m).docStd <= Stored(m).docMax
    ensures LimitsStored(m) && m.docMin < m.docMax ==> Stored(m).docMin < Stored(m).docMax
  {
    Round2Monotone(m.docMin, m.docStd);
    Round2Monotone(m.docStd, m.docMax);
    if LimitsStored(m) {
      StoredExact(m);
    }
  }
}

/** The library browser (`components/FileViewer.tsx`) for one category: the
    unit list offered for the chosen subject, the file listing (a filter and
    an order over the `files` table) and the checkout record written when a
    file is viewed or downloaded. A backend response is an input: `None` is a
    query that returned an error. */
module FileViewer {
  import opened Wrappers
  import opened Types
  import opened Strings

  /** The unit filter's "Show All Units" value. */
  const AllUnits: string := "all"

  /** The component's state. `category` is the string the parent passed in,
      which need not be the name of a `Category`. */
  datatype ViewerState = ViewerState(
    category: string,
    subjectId: string,
    availableUnits: seq<string>,
    selectedUnit: string,
    files: seq<AcademicFile>)

  function Initial(category: string): (r: ViewerState)
    ensures r.category == category && r.subjectId == [] && r.selectedUnit == AllUnits
    ensures r.availableUnits == [] && r.files == []
  {
    ViewerState(category, [], [], AllUnits, [])
  }

  /** `isUnitApplicable`: only Assignments and Notes are filed by unit. */
  predicate IsUnitApplicable(category: string) {
    category == "Assignments" || category == "Notes"
  }

  /** A row belongs to the chosen subject in this viewer's category. */
  predicate InSubject(f: AcademicFile, subjectId: string, category: string) {
    f.subjectId == subjectId && CategoryName(f.category) == category
  }

  // ----- the unit list -----

  predicate StrictlySorted(xs: seq<string>) {
    forall i, j | 0 <= i < j < |xs| :: Less(xs[i], xs[j])
  }

  /** `x` added to a strictly sorted list, keeping it strictly sorted and free
      of duplicates. */
  function InsertUnique(xs: seq<string>, x: string): (r: seq<string>)
    requires StrictlySorted(xs)
    ensures StrictlySorted(r)
    ensures forall y :: y in r <==> y in xs || y == x
  {
    if xs == [] then [x]
    else if x == xs[0] then xs
    else if Less(x, xs[0]) then
      assert forall j | 0 < j < |xs| :: Less(x, xs[j]) by {
        forall j | 0 < j < |xs| ensures Less(x, xs[j]) { LessTransitive(x, xs[0], xs[j]); }
      }
      [x] + xs
    else
      LessTotal(x, xs[0]);
      var rest := InsertUnique(xs[1..], x);
      assert forall y | y in rest :: Less(xs[0], y);
      [xs[0]] + rest
  }

  /** `Array.from(new Set(units)).sort()`: the distinct units in ascending order. */
  function SortUnique(xs: seq<string>): (r: seq<string>)
    ensures StrictlySorted(r)
    ensures forall y :: y in r <==> y in xs
  {
    if xs == [] then [] else InsertUnique(SortUnique(xs[1..]), xs[0])
  }

  /** A strictly sorted list is determined by its elements, so the unit list
      does not depend on the order in which the rows arrived. */
  lemma {:induction false} StrictlySortedUnique(a: seq<string>, b: seq<string>)
    requires StrictlySorted(a) && StrictlySorted(b)
    requires forall y :: y in a <==> y in b
    ensures a == b
  {
    assert a != [] ==> a[0] in b;
    assert b != [] ==> b[0] in a;
    if a != [] && b != [] {
      if a[0] != b[0] {
        assert Less(a[0], b[0]) by { assert b[0] in a; }
        assert Less(b[0], a[0]) by { assert a[0] in b; }
        LessTransitive(a[0], b[0], a[0]);
        LessIrreflexive(a[0]);
      }
      forall y ensures y in a[1..] <==> y in b[1..] {
        if y in a[1..] { assert y != a[0] by { LessIrreflexive(a[0]); } assert y in b; }
        if y in b[1..] { assert y != b[0] by { LessIrreflexive(b[0]); } assert y in a; }
      }
      StrictlySortedUnique(a[1..], b[1..]);
      assert a == [a[0]] + a[1..] && b == [b[0]] + b[1..];
    }
  }

  /** The units query: the non-null `unit_no` of each row of the subject in
      this category, in row order. */
  function UnitsOf(rows: seq<AcademicFile>, subjectId: string, category: string): (r: seq<string>)
    ensures forall u :: u in r <==>
              exists f | f in rows :: InSubject(f, subjectId, category) && f.unitNo == Some(u)
  {
    if rows == [] then []
    else
      var rest := UnitsOf(rows[1..], subjectId, category);
      assert forall f | f in rows[1..] :: f in rows;
      assert forall f | f in rows && f != rows[0] :: f in rows[1..];
      var f := rows[0];
      if InSubject(f, subjectId, category) && f.unitNo.Some? then [f.unitNo.value] + rest else rest
  }

  /** The unit-list effect: without a subject, or in a category without
      units, the list is cleared; otherwise it becomes the sorted distinct
      units of the subject's rows. Whenever it is cleared or recomputed the
      selected unit returns to `'all'`; a failed query changes nothing. */
  function FetchUnits(st: ViewerState, table: Option<seq<AcademicFile>>): (r: ViewerState)
    ensures r.(availableUnits := st.availableUnits, selectedUnit := st.selectedUnit) == st
    ensures st.subjectId == [] || !IsUnitApplicable(st.category) ==>
              r.availableUnits == [] && r.selectedUnit == AllUnits
    ensures st.subjectId != [] && IsUnitApplicable(st.category) && table.None? ==> r == st
    ensures st.subjectId != [] && IsUnitApplicable(st.category) && table.Some? ==>
              && r.selectedUnit == AllUnits
              && StrictlySorted(r.availableUnits)
              && forall u :: u in r.availableUnits <==>
                   exists f | f in table.value :: InSubject(f, st.subjectId, st.category) && f.unitNo == Some(u)
  {
    if st.subjectId == [] || !IsUnitApplicable(st.category) then
      st.(availableUnits := [], selectedUnit := AllUnits)
    else
      match table
      case None => st
      case Some(rows) =>
        st.(availableUnits := SortUnique(UnitsOf(rows, st.subjectId, st.category)), selectedUnit := AllUnits)
  }

  // ----- the file listing -----

  /** The unit filter is active only in a unit category with a unit chosen. */
  predicate UnitFilterActive(st: ViewerState) {
    IsUnitApplicable(st.category) && st.selectedUnit != AllUnits
  }

  /** The files query's `eq` filters. */
  predicate Listed(st: ViewerState, f: AcademicFile) {
    && InSubject(f, st.subjectId, st.category)
    && (UnitFilterActive(st) ==> f.unitNo == Some(st.selectedUnit))
  }

  /** The rows the query's filters keep, each as often as it occurs. */
  function Select(rows: seq<AcademicFile>, st: ViewerState): (r: seq<AcademicFile>)
    ensures forall f :: multiset(r)[f] == if Listed(st, f) then multiset(rows)[f] else 0
  {
    if rows == [] then []
    else
      var rest := Select(rows[1..], st);
      assert rows == [rows[0]] + rows[1..];
      if Listed(st, rows[0]) then [rows[0]] + rest else rest
  }

  /** `unit_no` ascending with nulls last, PostgreSQL's default for an
      ascending order. */
  predicate UnitBefore(a: Option<string>, b: Option<string>) {
    match (a, b)
    case (Some(x), Some(y)) => Less(x, y)
    case (Some(_), None) => true
    case (None, _) => false
  }

  /** `a` may be listed before `b`: a smaller unit, or the same unit and an
      upload time no earlier than `b`'s (`uploaded_at` descending). */
  predicate Before(a: AcademicFile, b: AcademicFile) {
    UnitBefore(a.unitNo, b.unitNo) || (a.unitNo == b.unitNo && !Less(a.uploadedAt, b.uploadedAt))
  }

  lemma BeforeTotal(a: AcademicFile, b: AcademicFile)
    ensures Before(a, b) || Before(b, a)
  {
    if a.unitNo != b.unitNo && a.unitNo.Some? && b.unitNo.Some? {
      LessTotal(a.unitNo.value, b.unitNo.value);
    }
    if a.unitNo == b.unitNo && Less(a.uploadedAt, b.uploadedAt) && Less(b.uploadedAt, a.uploadedAt) {
      LessTransitive(a.uploadedAt, b.uploadedAt, a.uploadedAt);
      LessIrreflexive(a.uploadedAt);
    }
  }

  lemma BeforeTransitive(a: AcademicFile, b: AcademicFile, c: AcademicFile)
    requires Before(a, b) && Before(b, c)
    ensures Before(a, c)
  {
    if UnitBefore(a.unitNo, b.unitNo) && UnitBefore(b.unitNo, c.unitNo) && c.unitNo.Some? {
      LessTransitive(a.unitNo.value, b.unitNo.value, c.unitNo.value);
    }
    if a.unitNo == b.unitNo == c.unitNo {
      if a.unitNo.Some? { LessIrreflexive(a.unitNo.value); }
      NotLessTransitive(a.uploadedAt, b.uploadedAt, c.uploadedAt);
    }
  }

  /** "No earlier than" is transitive. */
  lemma NotLessTransitive(a: string, b: string, c: string)
    requires !Less(a, b) && !Less(b, c)
    ensures !Less(a, c)
  {
    if a != b && b != c {
      LessTotal(a, b);
      LessTotal(b, c);
      LessTransitive(c, b, a);
      if Less(a, c) {
        LessTransitive(a, c, a);
        LessIrreflexive(a);
      }
    }
  }

  predicate Sorted(xs: seq<AcademicFile>) {
    forall i, j | 0 <= i < j < |xs| :: Before(xs[i], xs[j])
  }

  /** A file that may precede every file of a sorted listing may head it. */
  lemma PrependSorted(x: AcademicFile, xs: seq<AcademicFile>)
    requires Sorted(xs)
    requires forall y | y in xs :: Before(x, y)
    ensures Sorted([x] + xs)
  {
    forall i, j | 0 <= i < j < |[x] + xs| ensures Before(([x] + xs)[i], ([x] + xs)[j]) {
      if i == 0 { assert ([x] + xs)[j] == xs[j - 1]; }
    }
  }

  /** `x` placed into a sorted listing. */
  function InsertFile(xs: seq<AcademicFile>, x: AcademicFile): (r: seq<AcademicFile>)
    requires Sorted(xs)
    ensures Sorted(r)
    ensures multiset(r) == multiset(xs) + multiset{x}
  {
    if xs == [] then [x]
    else if Before(x, xs[0]) then
      assert forall y | y in xs :: Before(x, y) by {
        forall y | y in xs ensures Before(x, y) {
          if y != xs[0] {
            var j :| 0 <= j < |xs| && xs[j] == y;
            BeforeTransitive(x, xs[0], y);
          }
        }
      }
      PrependSorted(x, xs);
      [x] + xs
    else
      BeforeTotal(x, xs[0]);
      var rest := InsertFile(xs[1..], x);
      assert xs == [xs[0]] + xs[1..];
      assert forall y | y in rest :: Before(xs[0], y) by {
        forall y | y in rest ensures Before(xs[0], y) {
          assert y in multiset(rest);
          if y != x { assert y in xs[1..]; }
        }
      }
      PrependSorted(xs[0], rest);
      [xs[0]] + rest
  }

  /** The query's `order` clauses: the same rows, by unit then newest first. */
  function SortFiles(xs: seq<AcademicFile>): (r: seq<AcademicFile>)
    ensures Sorted(r)
    ensures multiset(r) == multiset(xs)
  {
    if xs == [] then []
    else
      assert xs == [xs[0]] + xs[1..];
      InsertFile(SortFiles(xs[1..]), xs[0])
  }

  /** The files effect: without a subject the listing is empty; otherwise it
      holds exactly the rows that pass the filters, each as often as in the
      table, ordered by unit and then newest first. A failed query changes
      nothing. */
  function FetchFiles(st: ViewerState, table: Option<seq<AcademicFile>>): (r: ViewerState)
    ensures r.(files := st.files) == st
    ensures st.subjectId == [] ==> r.files == []
    ensures st.subjectId != [] && table.None? ==> r == st
    ensures st.subjectId != [] && table.Some? ==>
              && Sorted(r.files)
              && (forall f | f in r.files :: Listed(st, f))
              && forall f :: multiset(r.files)[f] == if Listed(st, f) then multiset(table.value)[f] else 0
  {
    if st.subjectId == [] then st.(files := [])
    else
      match table
      case None => st
      case Some(rows) =>
        var r := SortFiles(Select(rows, st));
        assert forall f | f in r :: Listed(st, f) by {
          forall f | f in r ensures Listed(st, f) { assert multiset(r)[f] > 0; }
        }
        st.(files := r)
  }

  /** Choosing a subject: the unit list is recomputed (resetting the unit
      filter), then the listing is fetched with that filter. */
  function ChooseSubject(
    st: ViewerState, subjectId: string,
    unitsTable: Option<seq<AcademicFile>>, filesTable: Option<seq<AcademicFile>>): (r: ViewerState)
    ensures r.subjectId == subjectId && r.category == st.category
    ensures subjectId == [] ==> r.availableUnits == [] && r.files == [] && r.selectedUnit == AllUnits
    ensures subjectId != [] && unitsTable.Some? && filesTable.Some? ==>
              && r.selectedUnit == AllUnits
              && forall f | f in r.files :: InSubject(f, subjectId, st.category)
  {
    FetchFiles(FetchUnits(st.(subjectId := subjectId), unitsTable), filesTable)
  }

  /** The unit `<select>`: the listing is refetched with the new filter. */
  function ChooseUnit(st: ViewerState, unit: string, filesTable: Option<seq<AcademicFile>>): (r: ViewerState)
    ensures r.selectedUnit == unit && r.subjectId == st.subjectId && r.category == st.category
    ensures st.subjectId != [] && filesTable.Some? && IsUnitApplicable(st.category) && unit != AllUnits ==>
              forall f | f in r.files :: InSubject(f, st.subjectId, st.category) && f.unitNo == Some(unit)
  {
    FetchFiles(st.(selectedUnit := unit), filesTable)
  }

  /** Outside Assignments and Notes a chosen unit never narrows the listing:
      every row of the subject in the category is listed. */
  lemma UnitIgnoredOutsideUnitCategories(st: ViewerState, table: seq<AcademicFile>, f: AcademicFile)
    requires st.subjectId != [] && !IsUnitApplicable(st.category)
    requires f in table && InSubject(f, st.subjectId, st.category)
    ensures f in FetchFiles(st, Some(table)).files
  {
    var r := FetchFiles(st, Some(table)).files;
    assert multiset(table)[f] > 0;
    assert multiset(r)[f] > 0;
  }

  // ----- the checkout log -----

  datatype Action = View | Download

  function ActionName(a: Action): string {
    match a
    case View => "View"
    case Download => "Download"
  }

  /** The row inserted into `checkouts` by `logActivity`. */
  datatype CheckoutRecord = CheckoutRecord(
    fileId: string,
    fileName: string,
    category: string,
    timestamp: string,
    userRole: string)

  /** `logActivity`: the file's id, name and category, the time, and the role
      text `Student (View)` or `Student (Download)`. */
  function LogActivity(f: AcademicFile, a: Action, timestamp: string): (r: CheckoutRecord)
    ensures r.fileId == f.id && r.fileName == f.fileName && r.category == CategoryName(f.category)
    ensures r.timestamp == timestamp
    ensures a == View ==> r.userRole == "Student (View)"
    ensures a == Download ==> r.userRole == "Student (Download)"
  {
    CheckoutRecord(f.id, f.fileName, CategoryName(f.category), timestamp, "Student (" + ActionName(a) + ")")
  }

  /** The inverse of the role text `LogActivity` writes, used to state the
      round trip below. */
  function ActionOfRole(role: string): (r: Option<Action>)
    ensures r.Some? ==> role == "Student (" + ActionName(r.value) + ")"
  {
    if role == "Student (View)" then Some(View)
    else if role == "Student (Download)" then Some(Download)
    else None
  }

  /** The role text of a checkout record tells which action was logged, and
      its category parses back to the file's category. */
  lemma CheckoutRoundTrip(f: AcademicFile, a: Action, timestamp: string)
    ensures ActionOfRole(LogActivity(f, a, timestamp).userRole) == Some(a)
    ensures ParseCategory(LogActivity(f, a, timestamp).category) == Some(f.category)
  {
  }
}

/**
  ExcelComponent: a working file, the workbook loaded from it on first use,
  the searches over one, some or all of its sheets, and the conversion of a
  sheet into a data array.
 */
module Excel {
  import opened Wrappers
  import opened PhpArray
  import opened Worksheet
  import opened CellSearch
  import opened Reshape
  import opened Spreadsheet

  /**
    `$worksheets` of `find`: null, one sheet reference, or an array of them.
    Only the first element of an array decides between numbers and titles.
   */
  datatype Worksheets = AllWorksheets | OneSheet(ref: SheetRef) | SheetList(refs: seq<SheetRef>)

  /**
    What `find` returns: one sheet's answer ('first'), the answers per sheet,
    or null (`$found[0]` read where no key 0 was assigned).
   */
  datatype Found = Single(result: FindResult) | PerSheet(results: Arr<int, FindResult>) | Missing

  /** PHP `empty()` on a path: the empty string and "0". */
  predicate EmptyPath(p: string) {
    p == "" || p == "0"
  }

  // ---------------------------------------------------------------------------
  // Which sheets a search visits.

  /** `$worksheets != null`: the integer 0 and the empty string compare equal to null. */
  predicate LooselyNull(ref: SheetRef) {
    ref == Index(0) || ref == Name("")
  }

  /** `$worksheets` after the null test and the wrapping of a single reference; [] stands for all sheets. */
  function SheetRefs(ws: Worksheets): seq<SheetRef> {
    match ws
    case AllWorksheets => []
    case OneSheet(ref) => if LooselyNull(ref) then [] else [ref]
    case SheetList(refs) => refs
  }

  /** The sheet a reference selects: a title in a list of titles, an index in a list of numbers. */
  function Resolve(sheets: seq<Sheet>, ref: SheetRef, byNumber: bool): (r: Option<nat>)
    ensures r.Some? ==> r.value < |sheets|
  {
    match ref
    case Index(n) => if byNumber && 0 <= n < |sheets| then Some(n) else None
    case Name(s) => if byNumber then None else IndexOfTitle(sheets, s)
  }

  /** The first `|sel|` references selected the sheets `sel`, one each. */
  predicate Resolves(sheets: seq<Sheet>, refs: seq<SheetRef>, byNumber: bool, sel: seq<nat>) {
    && |sel| <= |refs|
    && forall k :: 0 <= k < |sel| ==> Resolve(sheets, refs[k], byNumber) == Some(sel[k])
  }

  /**
    `sel` lists the sheets selected one after the other until the first
    reference that selects nothing (where the exception leaves the loop).
   */
  predicate SelectsPrefix(sheets: seq<Sheet>, refs: seq<SheetRef>, byNumber: bool, sel: seq<nat>) {
    && Resolves(sheets, refs, byNumber, sel)
    && (|sel| < |refs| ==> Resolve(sheets, refs[|sel|], byNumber).None?)
  }

  function Selected(sheets: seq<Sheet>, refs: seq<SheetRef>, byNumber: bool): (sel: seq<nat>)
    ensures SelectsPrefix(sheets, refs, byNumber, sel)
  {
    if refs == [] then []
    else
      match Resolve(sheets, refs[0], byNumber)
      case None => []
      case Some(i) =>
        var rest := Selected(sheets, refs[1..], byNumber);
        assert forall k :: 1 <= k < |refs| ==> refs[k] == refs[1..][k - 1];
        [i] + rest
  }

  /** The references a loop gets through: 'first' returns after the first one. */
  function Scope(mode: FindType, refs: seq<SheetRef>): seq<SheetRef>
    requires |refs| > 0
  {
    if mode == First then refs[..1] else refs
  }

  /** The active sheet after selecting the sheets `sel` in turn, starting from `start`. */
  function LastOr(start: int, sel: seq<nat>): int {
    if sel == [] then start else sel[|sel| - 1]
  }

  // ---------------------------------------------------------------------------
  // What the searches return.

  /** `findInActiveSheet` with sheet `i` active. */
  function SheetFind(sheets: seq<Sheet>, m: Matcher, c: Conditions, mode: FindType, i: nat): FindResult
    requires i < |sheets|
  {
    SearchGrid(m, c, mode, sheets[i].grid)
  }

  /** `$found[] = ...` for the sheets `sel` in turn. */
  function Listed(sheets: seq<Sheet>, m: Matcher, c: Conditions, mode: FindType, sel: seq<nat>): Arr<int, FindResult>
    requires forall k :: 0 <= k < |sel| ==> sel[k] < |sheets|
  {
    seq(|sel|, k requires 0 <= k < |sel| => (k, SheetFind(sheets, m, c, mode, sel[k])))
  }

  /** `$found[$worksheet] = ...` for the sheets `sel` in turn. */
  function Keyed(sheets: seq<Sheet>, m: Matcher, c: Conditions, mode: FindType, sel: seq<nat>): Arr<int, FindResult>
    requires forall k :: 0 <= k < |sel| ==> sel[k] < |sheets|
  {
    if sel == [] then []
    else
      var last := sel[|sel| - 1];
      Put(Keyed(sheets, m, c, mode, sel[..|sel| - 1]), last, SheetFind(sheets, m, c, mode, last))
  }

  /** `findInAllSheets`: every sheet's answer under its index. */
  function AllSheetResults(sheets: seq<Sheet>, m: Matcher, c: Conditions, mode: FindType): Arr<int, FindResult> {
    seq(|sheets|, i requires 0 <= i < |sheets| => (i, SheetFind(sheets, m, c, mode, i)))
  }

  /** `$found[$i] = ...` for the next sheet extends the answers by that sheet's answer. */
  lemma AllSheetResultsStep(sheets: seq<Sheet>, m: Matcher, c: Conditions, mode: FindType, i: nat)
    requires i < |sheets|
    ensures Put(AllSheetResults(sheets[..i], m, c, mode), i, SearchGrid(m, c, mode, sheets[i].grid))
      == AllSheetResults(sheets[..i + 1], m, c, mode)
  {
    var a := AllSheetResults(sheets[..i], m, c, mode);
    var v := SearchGrid(m, c, mode, sheets[i].grid);
    PutDense(a, i, v);
    assert a + [(i, v)] == AllSheetResults(sheets[..i + 1], m, c, mode);
  }

  /** `findBySheetsName`. */
  function ByNames(sheets: seq<Sheet>, m: Matcher, c: Conditions, mode: FindType, refs: seq<SheetRef>): Result<Found, Error>
    requires |refs| > 0
  {
    var scope := Scope(mode, refs);
    var sel := Selected(sheets, scope, false);
    if |sel| < |scope| then Err(SheetNotFound(scope[|sel|]))
    else if mode == First then Ok(Single(Listed(sheets, m, c, mode, sel)[0].1))
    else Ok(PerSheet(Listed(sheets, m, c, mode, sel)))
  }

  /** `return $found[0]`: null when no sheet 0 was searched. */
  function AtZero(found: Arr<int, FindResult>): Found {
    match Get(found, 0)
    case Some(v) => Single(v)
    case None => Missing
  }

  /** `findBySheetsNumber`. */
  function ByNumbers(sheets: seq<Sheet>, m: Matcher, c: Conditions, mode: FindType, refs: seq<SheetRef>): Result<Found, Error>
    requires |refs| > 0
  {
    var scope := Scope(mode, refs);
    var sel := Selected(sheets, scope, true);
    if |sel| < |scope| then Err(SheetNotFound(scope[|sel|]))
    else
      var found := Keyed(sheets, m, c, mode, sel);
      if mode == First then Ok(AtZero(found)) else Ok(PerSheet(found))
  }

  /** What `find` returns on a workbook with the given sheets. */
  function FindIn(sheets: seq<Sheet>, m: Matcher, c: Conditions, mode: FindType, ws: Worksheets): Result<Found, Error> {
    var refs := SheetRefs(ws);
    if refs == [] then Ok(PerSheet(AllSheetResults(sheets, m, c, mode)))
    else if refs[0].Index? then ByNumbers(sheets, m, c, mode, refs)
    else ByNames(sheets, m, c, mode, refs)
  }

  /** The active sheet `find` leaves behind when a selection fails: the last one it selected. */
  function ActiveAfterFailure(sheets: seq<Sheet>, start: int, mode: FindType, ws: Worksheets): int {
    var refs := SheetRefs(ws);
    if refs == [] then start
    else LastOr(start, Selected(sheets, Scope(mode, refs), refs[0].Index?))
  }

  // ---------------------------------------------------------------------------
  // What `toDataArray` reads.

  /** `$range == null`: no range, or the empty string. */
  predicate RangeIsNull(range: Option<string>) {
    range.None? || range.value == ""
  }

  /** The sheet `toDataArray` reads: the one `$worksheet` selects, else the active one. */
  function Pick(b: Book, worksheet: Option<SheetRef>): (r: Option<nat>)
    requires b.Valid()
    ensures r.Some? ==> r.value < |b.sheets|
  {
    match worksheet
    case None => Some(b.active)
    case Some(ref) => Resolve(b.sheets, ref, ref.Index?)
  }

  /** `toArray` of the whole sheet, or `rangeToArray` of the range. */
  function SheetArray(s: Sheet, range: Option<string>, rangeToArray: (Sheet, string) -> Grid): Grid {
    if RangeIsNull(range) then s.grid else rangeToArray(s, range.value)
  }

  // ---------------------------------------------------------------------------
  // Properties of the searches.

  /** The selection a loop records is the only one consistent with the references. */
  lemma {:induction false} SelectedUnique(sheets: seq<Sheet>, refs: seq<SheetRef>, byNumber: bool, sel: seq<nat>)
    requires SelectsPrefix(sheets, refs, byNumber, sel)
    ensures sel == Selected(sheets, refs, byNumber)
  {
    var s := Selected(sheets, refs, byNumber);
    assert |sel| == |s|;
    forall k | 0 <= k < |sel| ensures sel[k] == s[k] {
      assert Resolve(sheets, refs[k], byNumber) == Some(sel[k]);
    }
  }

  /** A loop that stops at reference `|sel|`, which selects nothing, has selected `sel`. */
  lemma SelectionStops(sheets: seq<Sheet>, m: Matcher, c: Conditions, mode: FindType, refs: seq<SheetRef>, byNumber: bool, sel: seq<nat>)
    requires |sel| < |refs| && (mode != First || sel == [])
    requires Resolves(sheets, refs, byNumber, sel)
    requires Resolve(sheets, refs[|sel|], byNumber).None?
    ensures var scope := Scope(mode, refs);
      Selected(sheets, scope, byNumber) == sel && |sel| < |scope| && scope[|sel|] == refs[|sel|]
    ensures !byNumber ==> ByNames(sheets, m, c, mode, refs) == Err(SheetNotFound(refs[|sel|]))
    ensures byNumber ==> ByNumbers(sheets, m, c, mode, refs) == Err(SheetNotFound(refs[|sel|]))
  {
    SelectedUnique(sheets, Scope(mode, refs), byNumber, sel);
  }

  /** A loop that got through every reference in scope has selected `sel`. */
  lemma SelectionCompletes(sheets: seq<Sheet>, mode: FindType, refs: seq<SheetRef>, byNumber: bool, sel: seq<nat>)
    requires |refs| > 0 && |sel| == |Scope(mode, refs)|
    requires Resolves(sheets, refs, byNumber, sel)
    ensures Selected(sheets, Scope(mode, refs), byNumber) == sel
  {
    SelectedUnique(sheets, Scope(mode, refs), byNumber, sel);
  }

  /** What `findBySheetsName` returns once its loop got through every title in scope. */
  lemma NamesComplete(sheets: seq<Sheet>, m: Matcher, c: Conditions, mode: FindType, refs: seq<SheetRef>, sel: seq<nat>)
    requires |refs| > 0 && |sel| == |Scope(mode, refs)|
    requires Resolves(sheets, refs, false, sel)
    ensures Selected(sheets, Scope(mode, refs), false) == sel
    ensures ByNames(sheets, m, c, mode, refs)
      == if mode == First then Ok(Single(Listed(sheets, m, c, mode, sel)[0].1)) else Ok(PerSheet(Listed(sheets, m, c, mode, sel)))
  {
    SelectionCompletes(sheets, mode, refs, false, sel);
  }

  /** What `findBySheetsNumber` returns once its loop got through every number in scope. */
  lemma NumbersComplete(sheets: seq<Sheet>, m: Matcher, c: Conditions, mode: FindType, refs: seq<SheetRef>, sel: seq<nat>)
    requires |refs| > 0 && |sel| == |Scope(mode, refs)|
    requires Resolves(sheets, refs, true, sel)
    ensures Selected(sheets, Scope(mode, refs), true) == sel
    ensures var found := Keyed(sheets, m, c, mode, sel);
      ByNumbers(sheets, m, c, mode, refs)
      == if mode != First then Ok(PerSheet(found))
         else Ok(AtZero(found))
  {
    SelectionCompletes(sheets, mode, refs, true, sel);
  }

  /** One more `$found[] = ...`. */
  lemma ListedAppend(sheets: seq<Sheet>, m: Matcher, c: Conditions, mode: FindType, sel: seq<nat>, i: nat)
    requires forall k :: 0 <= k < |sel| ==> sel[k] < |sheets|
    requires i < |sheets|
    ensures Listed(sheets, m, c, mode, sel + [i]) == Listed(sheets, m, c, mode, sel) + [(|sel|, SheetFind(sheets, m, c, mode, i))]
  {
  }

  /** One more `$found[$worksheet] = ...`. */
  lemma KeyedAppend(sheets: seq<Sheet>, m: Matcher, c: Conditions, mode: FindType, sel: seq<nat>, i: nat)
    requires forall k :: 0 <= k < |sel| ==> sel[k] < |sheets|
    requires i < |sheets|
    ensures Keyed(sheets, m, c, mode, sel + [i]) == Put(Keyed(sheets, m, c, mode, sel), i, SheetFind(sheets, m, c, mode, i))
  {
    assert (sel + [i])[..|sel|] == sel;
  }

  /**
    The numbered answers: one key per sheet number listed, repeated numbers
    collapsing onto one key, each holding that sheet's answer.
   */
  lemma {:induction false} KeyedAt(sheets: seq<Sheet>, m: Matcher, c: Conditions, mode: FindType, sel: seq<nat>, n: int)
    requires forall k :: 0 <= k < |sel| ==> sel[k] < |sheets|
    ensures UniqueKeys(Keyed(sheets, m, c, mode, sel))
    ensures Get(Keyed(sheets, m, c, mode, sel), n)
      == if n in sel then Some(SearchGrid(m, c, mode, sheets[n].grid)) else None
  {
    if sel != [] {
      var init := sel[..|sel| - 1];
      var last := sel[|sel| - 1];
      KeyedAt(sheets, m, c, mode, init, n);
      PutGet(Keyed(sheets, m, c, mode, init), last, SheetFind(sheets, m, c, mode, last));
      assert sel == init + [last];
    }
  }

  /**
    0, the empty string, an empty array and null all search every sheet: a
    search of sheet 0 alone is a search of the whole workbook.
   */
  lemma LooselyNullSearchesAllSheets(sheets: seq<Sheet>, m: Matcher, c: Conditions, mode: FindType, ref: SheetRef)
    requires LooselyNull(ref)
    ensures FindIn(sheets, m, c, mode, OneSheet(ref)) == FindIn(sheets, m, c, mode, AllWorksheets)
    ensures FindIn(sheets, m, c, mode, SheetList([])) == FindIn(sheets, m, c, mode, AllWorksheets)
  {
  }

  /**
    With every sheet searched, sheet i's answer sits under key i, also in
    'first' mode, where the search goes on past the first sheet.
   */
  lemma AllSheetsSearched(sheets: seq<Sheet>, m: Matcher, c: Conditions, mode: FindType)
    ensures FindIn(sheets, m, c, mode, AllWorksheets).Ok?
    ensures var r := FindIn(sheets, m, c, mode, AllWorksheets).value;
      r.PerSheet? && |r.results| == |sheets| && Dense(r.results)
      && forall i :: 0 <= i < |sheets| ==> r.results[i].1 == SearchGrid(m, c, mode, sheets[i].grid)
  {
  }

  /** 'count' over every sheet gives, per sheet, the number of cells some term matches. */
  lemma CountPerSheet(sheets: seq<Sheet>, m: Matcher, c: Conditions, i: int)
    requires 0 <= i < |sheets|
    ensures FindIn(sheets, m, c, Count, AllWorksheets)
      == Ok(PerSheet(AllSheetResults(sheets, m, c, Count)))
    ensures Get(AllSheetResults(sheets, m, c, Count), i) == Some(Number(|MatchingCells(m, c, sheets[i].grid)|))
  {
    var r := AllSheetResults(sheets, m, c, Count);
    assert UniqueKeys(r);
    assert r[i].0 == i;
    CountIsNumberOfMatchingCells(m, c, sheets[i].grid);
  }

  /**
    'first' by title answers with the first listed sheet's result, whatever
    it is (also `false`), and never looks at the other titles.
   */
  lemma FirstByNameIsFirstSheet(sheets: seq<Sheet>, m: Matcher, c: Conditions, refs: seq<SheetRef>, i: nat)
    requires |refs| > 0 && refs[0].Name? && IndexOfTitle(sheets, refs[0].name) == Some(i)
    ensures ByNames(sheets, m, c, First, refs) == Ok(Single(SearchGrid(m, c, First, sheets[i].grid)))
  {
    assert Selected(sheets, refs[..1], false) == [i];
  }

  /**
    'first' by number answers with `$found[0]`: the first listed sheet's
    result when that sheet is sheet 0, and null for any other sheet.
   */
  lemma FirstByNumberNeedsSheetZero(sheets: seq<Sheet>, m: Matcher, c: Conditions, refs: seq<SheetRef>)
    requires |refs| > 0 && refs[0].Index? && 0 <= refs[0].n < |sheets|
    ensures ByNumbers(sheets, m, c, First, refs)
      == if refs[0].n == 0 then Ok(Single(SearchGrid(m, c, First, sheets[0].grid))) else Ok(Missing)
  {
    var n := refs[0].n;
    assert Selected(sheets, refs[..1], true) == [n];
    KeyedAt(sheets, m, c, First, [n], 0);
  }

  /**
    By title, in 'all' or 'count' mode, when every title exists: one answer
    per listed title, in list order, under keys 0, 1, 2, ...
   */
  lemma ByNamesInListOrder(sheets: seq<Sheet>, m: Matcher, c: Conditions, mode: FindType, refs: seq<SheetRef>)
    requires |refs| > 0 && mode != First
    requires forall k :: 0 <= k < |refs| ==> Resolve(sheets, refs[k], false).Some?
    ensures ByNames(sheets, m, c, mode, refs).Ok?
    ensures var r := ByNames(sheets, m, c, mode, refs).value;
      r.PerSheet? && |r.results| == |refs| && Dense(r.results)
      && forall k :: 0 <= k < |refs| ==>
        r.results[k].1 == SearchGrid(m, c, mode, sheets[Resolve(sheets, refs[k], false).value].grid)
  {
    var sel := Selected(sheets, refs, false);
    assert |sel| == |refs|;
  }

  /**
    By number, in 'all' or 'count' mode, when every number is a sheet: one
    key per listed number, holding that sheet's answer, and no other key.
   */
  lemma ByNumbersKeyed(sheets: seq<Sheet>, m: Matcher, c: Conditions, mode: FindType, refs: seq<SheetRef>, n: int)
    requires |refs| > 0 && mode != First
    requires forall k :: 0 <= k < |refs| ==> Resolve(sheets, refs[k], true).Some?
    ensures ByNumbers(sheets, m, c, mode, refs).Ok?
    ensures var r := ByNumbers(sheets, m, c, mode, refs).value;
      r.PerSheet? && UniqueKeys(r.results)
      && Get(r.results, n) == if Index(n) in refs then Some(SearchGrid(m, c, mode, sheets[n].grid)) else None
  {
    var sel := Selected(sheets, refs, true);
    assert |sel| == |refs|;
    KeyedAt(sheets, m, c, mode, sel, n);
    if Index(n) in refs {
      var k :| 0 <= k < |refs| && refs[k] == Index(n);
      assert sel[k] == n;
    }
    if n in sel {
      var k :| 0 <= k < |sel| && sel[k] == n;
      assert refs[k] == Index(n);
    }
  }

  /**
    A reference that selects nothing raises the exception for the first such
    reference, and the active sheet stays at the last sheet selected before it.
   */
  lemma FailureAtFirstBadReference(sheets: seq<Sheet>, m: Matcher, c: Conditions, mode: FindType, start: int, ws: Worksheets, k: nat)
    requires var refs := SheetRefs(ws);
      && 0 < |refs| && k < |Scope(mode, refs)|
      && Resolve(sheets, refs[k], refs[0].Index?).None?
      && forall j :: 0 <= j < k ==> Resolve(sheets, refs[j], refs[0].Index?).Some?
    ensures var refs := SheetRefs(ws);
      && FindIn(sheets, m, c, mode, ws) == Err(SheetNotFound(refs[k]))
      && ActiveAfterFailure(sheets, start, mode, ws)
        == if k == 0 then start else Resolve(sheets, refs[k - 1], refs[0].Index?).value
  {
    var refs := SheetRefs(ws);
    var byNumber := refs[0].Index?;
    var scope := Scope(mode, refs);
    var sel := seq(k, j requires 0 <= j < k => Resolve(sheets, refs[j], byNumber).value);
    assert SelectsPrefix(sheets, scope, byNumber, sel);
    SelectedUnique(sheets, scope, byNumber, sel);
  }

  // ---------------------------------------------------------------------------
  // The searches over the workbook `getReader()` hands out. Once loaded, every
  // `getReader()` call returns the same object (see `GetReader`), so the
  // loops below work on that object directly.

  /**
    One pass of `findBySheetsName`'s loop: `setActiveSheetIndexByName`, then
    `$found[] = findInActiveSheet(...)`. A number in a list of titles selects
    nothing.
   */
  method NamePass(book: Workbook, m: Matcher, c: Conditions, mode: FindType, refs: seq<SheetRef>, k: nat,
                  found: Arr<int, FindResult>, ghost sel: seq<nat>)
    returns (r: Result<Arr<int, FindResult>, Error>)
    requires book.Valid() && k == |sel| < |refs| && Resolves(book.sheets, refs, false, sel)
    requires found == Listed(book.sheets, m, c, mode, sel)
    modifies book
    ensures book.Valid()
    ensures r.Err? ==>
      && Resolve(book.sheets, refs[k], false).None?
      && r.error == SheetNotFound(refs[k]) && book.activeIndex == old(book.activeIndex)
    ensures r.Ok? ==>
      && Resolves(book.sheets, refs, false, sel + [book.activeIndex])
      && r.value == Listed(book.sheets, m, c, mode, sel + [book.activeIndex])
  {
    if !refs[k].Name? {
      return Err(SheetNotFound(refs[k]));
    }
    var selected := book.SetActiveSheetIndexByName(refs[k].name);
    if selected.Err? {
      return Err(selected.error);
    }
    var result := FindInGrid(m, c, mode, book.ActiveSheet().grid);
    ListedAppend(book.sheets, m, c, mode, sel, book.activeIndex);
    r := Ok(found + [(k, result)]);
  }

  /** `findBySheetsName`: select each title in turn and search it. */
  method FindBySheetsName(book: Workbook, m: Matcher, c: Conditions, mode: FindType, refs: seq<SheetRef>)
    returns (r: Result<Found, Error>)
    requires book.Valid() && |refs| > 0
    modifies book
    ensures book.Valid()
    ensures r == ByNames(book.sheets, m, c, mode, refs)
    ensures book.activeIndex == LastOr(old(book.activeIndex), Selected(book.sheets, Scope(mode, refs), false))
  {
    var found: Arr<int, FindResult> := [];
    ghost var sel: seq<nat> := [];
    for k := 0 to |refs|
      invariant book.Valid()
      invariant mode != First || k == 0
      invariant |sel| == k && Resolves(book.sheets, refs, false, sel)
      invariant found == Listed(book.sheets, m, c, mode, sel)
      invariant book.activeIndex == LastOr(old(book.activeIndex), sel)
    {
      var next := NamePass(book, m, c, mode, refs, k, found, sel);
      if next.Err? {
        SelectionStops(book.sheets, m, c, mode, refs, false, sel);
        return Err(next.error);
      }
      sel := sel + [book.activeIndex];
      found := next.value;
      if mode == First && found != [] {
        NamesComplete(book.sheets, m, c, mode, refs, sel);
        return Ok(Single(found[0].1));
      }
    }
    NamesComplete(book.sheets, m, c, mode, refs, sel);
    r := Ok(PerSheet(found));
  }

  /**
    One pass of `findBySheetsNumber`'s loop: `setActiveSheetIndex`, then
    `$found[$worksheet] = findInActiveSheet(...)`. A title in a list of
    numbers selects nothing.
   */
  method NumberPass(book: Workbook, m: Matcher, c: Conditions, mode: FindType, refs: seq<SheetRef>, k: nat,
                    found: Arr<int, FindResult>, ghost sel: seq<nat>)
    returns (r: Result<Arr<int, FindResult>, Error>)
    requires book.Valid() && k == |sel| < |refs| && Resolves(book.sheets, refs, true, sel)
    requires found == Keyed(book.sheets, m, c, mode, sel)
    modifies book
    ensures book.Valid()
    ensures r.Err? ==>
      && Resolve(book.sheets, refs[k], true).None?
      && r.error == SheetNotFound(refs[k]) && book.activeIndex == old(book.activeIndex)
    ensures r.Ok? ==>
      && refs[k] == Index(book.activeIndex)
      && Resolves(book.sheets, refs, true, sel + [book.activeIndex])
      && r.value == Keyed(book.sheets, m, c, mode, sel + [book.activeIndex])
  {
    if !refs[k].Index? {
      return Err(SheetNotFound(refs[k]));
    }
    var selected := book.SetActiveSheetIndex(refs[k].n);
    if selected.Err? {
      return Err(selected.error);
    }
    var result := FindInGrid(m, c, mode, book.ActiveSheet().grid);
    KeyedAppend(book.sheets, m, c, mode, sel, book.activeIndex);
    r := Ok(Put(found, refs[k].n, result));
  }

  /** `findBySheetsNumber`: select each sheet number in turn and search it. */
  method FindBySheetsNumber(book: Workbook, m: Matcher, c: Conditions, mode: FindType, refs: seq<SheetRef>)
    returns (r: Result<Found, Error>)
    requires book.Valid() && |refs| > 0
    modifies book
    ensures book.Valid()
    ensures r == ByNumbers(book.sheets, m, c, mode, refs)
    ensures book.activeIndex == LastOr(old(book.activeIndex), Selected(book.sheets, Scope(mode, refs), true))
  {
    var found: Arr<int, FindResult> := [];
    ghost var sel: seq<nat> := [];
    for k := 0 to |refs|
      invariant book.Valid()
      invariant mode != First || k == 0
      invariant |sel| == k && Resolves(book.sheets, refs, true, sel)
      invariant found == Keyed(book.sheets, m, c, mode, sel)
      invariant book.activeIndex == LastOr(old(book.activeIndex), sel)
    {
      var next := NumberPass(book, m, c, mode, refs, k, found, sel);
      if next.Err? {
        SelectionStops(book.sheets, m, c, mode, refs, true, sel);
        return Err(next.error);
      }
      sel := sel + [book.activeIndex];
      found := next.value;
      if mode == First && found != [] {
        NumbersComplete(book.sheets, m, c, mode, refs, sel);
        return Ok(AtZero(found));
      }
    }
    NumbersComplete(book.sheets, m, c, mode, refs, sel);
    r := Ok(PerSheet(found));
  }

  /** `findInAllSheets`: select every sheet in turn and search it. */
  method FindInAllSheets(book: Workbook, m: Matcher, c: Conditions, mode: FindType) returns (r: Arr<int, FindResult>)
    requires book.Valid()
    modifies book
    ensures book.Valid()
    ensures r == AllSheetResults(book.sheets, m, c, mode)
    ensures book.activeIndex == |book.sheets| - 1
  {
    var allSheets := book.sheets;
    var found: Arr<int, FindResult> := [];
    for i := 0 to |allSheets|
      invariant book.Valid()
      invariant found == AllSheetResults(allSheets[..i], m, c, mode)
      invariant i > 0 ==> book.activeIndex == i - 1
    {
      var selected := book.SetActiveSheetIndex(i);
      var result := FindInGrid(m, c, mode, book.ActiveSheet().grid);
      AllSheetResultsStep(allSheets, m, c, mode, i);
      found := Put(found, i, result);
    }
    assert allSheets[..|allSheets|] == allSheets;
    r := found;
  }

  /** The middle of `find`: the null test on `$worksheets` and the choice of search. */
  method SearchSheets(book: Workbook, m: Matcher, c: Conditions, mode: FindType, ws: Worksheets) returns (r: Result<Found, Error>)
    requires book.Valid()
    modifies book
    ensures book.Valid()
    ensures r == FindIn(book.sheets, m, c, mode, ws)
    ensures r.Err? ==> book.activeIndex == ActiveAfterFailure(book.sheets, old(book.activeIndex), mode, ws)
  {
    var refs := SheetRefs(ws);
    if refs != [] {
      if !refs[0].Index? {
        r := FindBySheetsName(book, m, c, mode, refs);
      } else {
        r := FindBySheetsNumber(book, m, c, mode, refs);
      }
    } else {
      var all := FindInAllSheets(book, m, c, mode);
      r := Ok(PerSheet(all));
    }
  }

  // ---------------------------------------------------------------------------
  // The component.

  class ExcelComponent {
    /** `WWW_ROOT`, put in front of a relative path. */
    const webRoot: string
    /** The workbook the spreadsheet library loads from each path it can open. */
    const files: map<string, Book>
    var workingFile: Option<string>
    /** The workbook of the working file, once loaded. */
    var reader: Workbook?

    /** Every file the library opens holds at least one sheet, one of them active. */
    predicate FilesValid()
      reads this
    {
      forall p :: p in files ==> files[p].Valid()
    }

    /** A cached workbook is the one loaded from the current working file. */
    predicate Valid()
      reads this, reader
    {
      && FilesValid()
      && (reader != null ==>
            && workingFile.Some? && !EmptyPath(workingFile.value) && workingFile.value in files
            && reader.Valid() && reader.sheets == files[workingFile.value].sheets)
    }

    /** What `getObjectForFile` yields for a path. */
    function Load(path: string): (r: Result<Book, Error>)
      reads this
      requires FilesValid()
      ensures r.Ok? ==> r.value.Valid()
    {
      if path in files then Ok(files[path]) else Err(LoadFailed(path))
    }

    /** The workbook `getReader` would hand out now, or the exception it would raise. */
    function Current(): (r: Result<Book, Error>)
      reads this, reader
      requires Valid()
      ensures r.Ok? ==> r.value.Valid()
    {
      if workingFile.None? || EmptyPath(workingFile.value) then Err(NoFileLoaded)
      else if reader != null then Ok(reader.Snapshot())
      else Load(workingFile.value)
    }

    constructor (webRoot: string, files: map<string, Book>)
      requires forall p :: p in files ==> files[p].Valid()
      ensures Valid() && this.webRoot == webRoot && this.files == files
      ensures workingFile == None && reader == null
    {
      this.webRoot := webRoot;
      this.files := files;
      workingFile := None;
      reader := null;
    }

    /** `setWorkingFile`: a relative path is taken from the web root; the cached workbook is dropped. */
    method SetWorkingFile(filePath: string, absolute: bool)
      requires Valid()
      modifies this
      ensures Valid()
      ensures workingFile == Some(if absolute then filePath else webRoot + filePath)
      ensures reader == null
    {
      UnsetWorkingFile();
      var path := filePath;
      if !absolute {
        path := webRoot + filePath;
      }
      workingFile := Some(path);
    }

    /** `unsetWorkingFile`: no working file and no workbook. */
    method UnsetWorkingFile()
      requires Valid()
      modifies this
      ensures Valid()
      ensures workingFile == None && reader == null
      ensures Current() == Err(NoFileLoaded)
    {
      workingFile := None;
      reader := null;
    }

    /** `getObjectForFile`: a new workbook for the file, or the library's exception. */
    method GetObjectForFile(path: string) returns (r: Result<Workbook, Error>)
      requires Valid()
      ensures match Load(path)
        case Ok(b) => r.Ok? && fresh(r.value) && r.value.Snapshot() == b
        case Err(e) => r == Err(e)
    {
      if path !in files {
        return Err(LoadFailed(path));
      }
      var w := new Workbook(files[path]);
      r := Ok(w);
    }

    /**
      `getReader`: no working file raises an exception; the workbook is
      loaded on the first call and the same object is returned afterwards.
     */
    method GetReader() returns (r: Result<Workbook, Error>)
      requires Valid()
      modifies this
      ensures Valid() && workingFile == old(workingFile)
      ensures match old(Current())
        case Err(e) => r == Err(e) && reader == old(reader)
        case Ok(b) => r.Ok? && r.value == reader && reader.Snapshot() == b
      ensures old(reader) != null ==> reader == old(reader) && r.Ok? && r.value == reader
      ensures old(reader) == null && reader != null ==> fresh(reader)
    {
      if workingFile.None? || EmptyPath(workingFile.value) {
        return Err(NoFileLoaded);
      }
      if reader == null {
        var loaded := GetObjectForFile(workingFile.value);
        if loaded.Err? {
          return Err(loaded.error);
        }
        reader := loaded.value;
      }
      r := Ok(reader);
    }

    /** `findInActiveSheet`: the cell search on the active sheet. */
    method FindInActiveSheet(m: Matcher, c: Conditions, mode: FindType) returns (r: Result<FindResult, Error>)
      requires Valid()
      modifies this
      ensures Valid() && workingFile == old(workingFile)
      ensures old(reader) != null ==>
        reader == old(reader) && r == Ok(SheetFind(reader.sheets, m, c, mode, reader.activeIndex))
      ensures match old(Current())
        case Err(e) => r == Err(e) && reader == old(reader)
        case Ok(b) => reader != null && reader.Snapshot() == b && r == Ok(SheetFind(b.sheets, m, c, mode, b.active))
    {
      var got := GetReader();
      if got.Err? {
        return Err(got.error);
      }
      var found := FindInGrid(m, c, mode, got.value.ActiveSheet().grid);
      r := Ok(found);
    }

    /**
      `find`: search the sheets `$worksheets` names and make the sheet that
      was active before active again. An exception from a sheet selection
      leaves the search, and the active sheet, where it stopped.
     */
    method Find(m: Matcher, c: Conditions, mode: FindType, ws: Worksheets) returns (r: Result<Found, Error>)
      requires Valid()
      modifies this, reader
      ensures Valid() && workingFile == old(workingFile)
      ensures old(reader) != null ==> reader == old(reader)
      ensures match old(Current())
        case Err(e) => r == Err(e) && reader == old(reader)
        case Ok(b) =>
          && reader != null && reader.sheets == b.sheets
          && r == FindIn(b.sheets, m, c, mode, ws)
          && reader.activeIndex == if r.Ok? then b.active else ActiveAfterFailure(b.sheets, b.active, mode, ws)
    {
      var got := GetReader();
      if got.Err? {
        return Err(got.error);
      }
      var activeSheet := got.value.activeIndex;
      var found := SearchSheets(got.value, m, c, mode, ws);
      if found.Err? {
        return found;
      }
      got := GetReader();
      var restored := got.value.SetActiveSheetIndex(activeSheet);
      r := found;
    }

    /**
      `toDataArray`: select the sheet `$worksheet` names (it stays active),
      read the whole sheet or the range, and reshape it into a data array.
     */
    method ToDataArray(format: Format, range: Option<string>, worksheet: Option<SheetRef>,
                       rangeToArray: (Sheet, string) -> Grid)
      returns (r: Result<Records, Error>)
      requires Valid()
      modifies this, reader
      ensures Valid() && workingFile == old(workingFile)
      ensures old(reader) != null ==> reader == old(reader)
      ensures match old(Current())
        case Err(e) => r == Err(e) && reader == old(reader)
        case Ok(b) =>
          && reader != null && reader.sheets == b.sheets
          && match Pick(b, worksheet)
             case None => r == Err(SheetNotFound(worksheet.value)) && reader.activeIndex == b.active
             case Some(i) =>
               && r == Ok(DataArray(SheetArray(b.sheets[i], range, rangeToArray), format))
               && reader.activeIndex == i
    {
      if worksheet.Some? {
        var got := GetReader();
        if got.Err? {
          return Err(got.error);
        }
        var selected: Result<(), Error>;
        if !worksheet.value.Index? {
          selected := got.value.SetActiveSheetIndexByName(worksheet.value.name);
        } else {
          selected := got.value.SetActiveSheetIndex(worksheet.value.n);
        }
        if selected.Err? {
          return Err(selected.error);
        }
      }
      var got := GetReader();
      if got.Err? {
        return Err(got.error);
      }
      var sheet := got.value.ActiveSheet();
      var rawArray: Grid;
      if RangeIsNull(range) {
        rawArray := sheet.grid;
      } else {
        rawArray := rangeToArray(sheet, range.value);
      }
      var dataArray := RawArrayToDataArray(rawArray, format);
      r := Ok(dataArray);
    }
  }
}

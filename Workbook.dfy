/**
  The part of the spreadsheet library the component drives: a loaded
  workbook, its sheets in tab order, and which of them is active. Selecting a
  sheet that does not exist raises an exception and leaves the active sheet
  as it was.
 */
module Spreadsheet {
  import opened Wrappers
  import opened Worksheet

  /** A worksheet as the caller names it: by number (0-based) or by title. */
  datatype SheetRef = Index(n: int) | Name(name: string)

  /** The exceptions that escape the component. */
  datatype Error =
    | NoFileLoaded               // no working file, or an empty path
    | LoadFailed(path: string)   // the library cannot open the file
    | SheetNotFound(ref: SheetRef)

  /** A workbook as a value: its sheets and the index of the active one. */
  datatype Book = Book(sheets: seq<Sheet>, active: int) {
    predicate Valid() {
      0 <= active < |sheets|
    }
  }

  /** `getSheetByName`: the first sheet with the given title. */
  function IndexOfTitle(sheets: seq<Sheet>, name: string): (r: Option<nat>)
    ensures r.None? <==> forall i :: 0 <= i < |sheets| ==> sheets[i].title != name
    ensures r.Some? ==> r.value < |sheets| && sheets[r.value].title == name
    ensures r.Some? ==> forall i :: 0 <= i < r.value ==> sheets[i].title != name
  {
    if sheets == [] then None
    else if sheets[0].title == name then Some(0)
    else
      match IndexOfTitle(sheets[1..], name)
      case Some(i) => Some(i + 1)
      case None =>
        assert forall i :: 1 <= i < |sheets| ==> sheets[i] == sheets[1..][i - 1];
        None
  }

  class Workbook {
    const sheets: seq<Sheet>
    var activeIndex: int

    predicate Valid()
      reads this
    {
      0 <= activeIndex < |sheets|
    }

    /** The workbook's current state as a value. */
    function Snapshot(): (b: Book)
      reads this
      ensures b.Valid() <==> Valid()
    {
      Book(sheets, activeIndex)
    }

    /** The workbook the library builds when it loads a file. */
    constructor (b: Book)
      requires b.Valid()
      ensures Snapshot() == b && Valid()
    {
      sheets := b.sheets;
      activeIndex := b.active;
    }

    /** `getActiveSheet`. */
    function ActiveSheet(): (s: Sheet)
      reads this
      requires Valid()
      ensures s in sheets
    {
      sheets[activeIndex]
    }

    /** `setActiveSheetIndex`: an index outside the sheets raises an exception. */
    method SetActiveSheetIndex(n: int) returns (r: Result<(), Error>)
      requires Valid()
      modifies this
      ensures Valid()
      ensures 0 <= n < |sheets| ==> r.Ok? && activeIndex == n
      ensures !(0 <= n < |sheets|) ==> r == Err(SheetNotFound(Index(n))) && activeIndex == old(activeIndex)
    {
      if n < 0 || n >= |sheets| {
        return Err(SheetNotFound(Index(n)));
      }
      activeIndex := n;
      r := Ok(());
    }

    /** `setActiveSheetIndexByName`: a title no sheet has raises an exception. */
    method SetActiveSheetIndexByName(name: string) returns (r: Result<(), Error>)
      requires Valid()
      modifies this
      ensures Valid()
      ensures match IndexOfTitle(sheets, name)
        case Some(i) => r.Ok? && activeIndex == i
        case None => r == Err(SheetNotFound(Name(name))) && activeIndex == old(activeIndex)
    {
      match IndexOfTitle(sheets, name)
      case Some(i) =>
        activeIndex := i;
        r := Ok(());
      case None =>
        r := Err(SheetNotFound(Name(name)));
    }
  }
}

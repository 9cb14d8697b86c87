# ExcelComponent, modelled in Dafny

ExcelComponent is a CakePHP component that wraps the PHPExcel library. It
keeps a working file and loads its workbook lazily on first use (the
reader). It searches the cells of one, some or all worksheets for text or
regular expressions, in the modes 'all', 'first' and 'count'. It also turns
a worksheet into a CakePHP data array (`[index][Model][field] => value`)
that is ready for `Model::save()`.

The model has six files:

- `PhpArray.dfy` holds module `Wrappers` (`Option`, `Result`) and module
  `PhpArray`. PHP arrays are ordered maps, written as sequences of key/value
  pairs. `Put` is `$a[$k] = $v`: an existing key keeps its place, a new key
  goes at the end. `Get` is `isset($a[$k]) ? $a[$k] : null`.
- `Worksheet.dfy` defines a sheet's grid as rows of (row number, cells),
  with cells as (column label, value), in the order `toArray(null, true,
  false, true)` yields them. A cell is modelled by its string form, and an
  empty cell by "". It also defines ASCII lower-casing.
- `Workbook.dfy` (module `Spreadsheet`) models the part of PHPExcel the
  component drives. A `Workbook` object holds its sheets and a mutable
  active-sheet index. `SetActiveSheetIndex` and `SetActiveSheetIndexByName`
  either select a sheet or raise an exception that leaves the index as it
  was.
- `CellSearch.dfy` models the scan of `findInActiveSheet`. It has a loop
  version (`FindInGrid`) proved equal to a specification function
  (`SearchGrid`). What the three modes return is then proved against an
  independent description: the set of matching cells and their scan order.
- `Reshape.dfy` models `rawArrayToDataArray`, `rowsToEntries`,
  `columnsToEntries` and `dotNotationToDataArray`. The loops are written as
  methods and proved equal to specification functions. The lemmas say what
  those functions mean for a given row, column, field and dotted key.
- `Component.dfy` (module `Excel`) covers several parts:
  - the class `ExcelComponent`, with `workingFile` and the cached `reader`;
  - `setWorkingFile`, `unsetWorkingFile` and `getReader`;
  - `find` with its helpers `findBySheetsName`, `findBySheetsNumber` and
    `findInAllSheets`;
  - `findInActiveSheet` and `toDataArray`;
  - the specification functions those are proved against (`FindIn`,
    `ByNames`, `ByNumbers`, `AllSheetResults`), with their properties.

How the external pieces are modelled:

- **Files.** The file system and the PHPExcel loader are the map
  `ExcelComponent.files` from a path to the workbook loaded from it. A path
  missing from the map is a load failure.
- **Regular expressions.** `preg_match` is the function parameter
  `Matcher`. It is applied to `'/' . term . '/'` exactly as the component
  builds the pattern, without escaping.
- **Ranges.** `rangeToArray` is the parameter `rangeToArray` of
  `ToDataArray`.
- **Exceptions.** Every exception the component lets escape is an `Err`
  of `Result`.

The model follows the code, including behaviour a reader of its comments
or of the component's name might not expect:

- **'first' mode across sheets.** The code does not stop at the first
  match across sheets:
  - `findInAllSheets` searches every sheet in 'first' mode;
  - `findBySheetsName` returns the first listed sheet's result even when
    that result is `false`;
  - `findBySheetsNumber` returns `$found[0]`, which is null unless the
    first listed number is 0.
- **'count' across sheets.** Over several sheets, 'count' gives one count
  per sheet, not a total. `find` is documented to return coordinates
  (`@return array`, Controller/Component/ExcelComponent.php:105); with
  'count' it returns numbers, and with no match `false`.
- **Restoring the active sheet.** The comment at
  Controller/Component/ExcelComponent.php:127 says `find` sets the active
  sheet back, but it does so only when it returns normally. An exception
  leaves the last sheet it selected active.
- **Mixed sheet lists.** A list mixing names and numbers is not rejected
  up front. The first element decides the kind. An element of the other
  kind then fails when it is selected.
- **'all' with no match.** The result is `false`, not an empty list.
- **Unequal column lengths.** `columnsToEntries` does not check that the
  fields' value lists have equal length. A field with fewer values is
  simply absent from the later entries.
- **Rows without a mapped column.** In `rowsToEntries` such a row produces
  no record, but it still advances the record index.
- **Dotted keys.** A key is split with `explode('.')`. The model is the
  first segment and the field the second; any further segments are
  ignored.

## Model

| member | source | states |
|---|---|---|
| PhpArray.PutGet | Controller/Component/ExcelComponent.php:285 | after `$found[$k] = $v`, reading key k gives v and every other key reads as before |
| PhpArray.PutPut | Controller/Component/ExcelComponent.php:340 | assigning the same key twice keeps only the second value, in the first assignment's place |
| Worksheet.Lower | Controller/Component/ExcelComponent.php:167-168 | lower-casing keeps the length of the text |
| Spreadsheet.IndexOfTitle | Controller/Component/ExcelComponent.php:272 | the sheet a title selects is the first sheet with that title; None exactly when no sheet has it |
| Spreadsheet.Workbook.SetActiveSheetIndex | Controller/Component/ExcelComponent.php:284 | an index within the sheets becomes active; any other index raises SheetNotFound and leaves the active sheet unchanged |
| Spreadsheet.Workbook.SetActiveSheetIndexByName | Controller/Component/ExcelComponent.php:272 | the first sheet with the title becomes active; an unknown title raises SheetNotFound and leaves the active sheet unchanged |
| CellSearch.FindInGrid | Controller/Component/ExcelComponent.php:148-191 | the nested loops with `break` and the early return in 'first' give exactly the scan's answer `SearchGrid` |
| CellSearch.MatchPositionsAreGridHits | Controller/Component/ExcelComponent.php:159-171 | the scan records each matching cell exactly once, in strictly increasing row-then-column order, with its row number, column label and original text |
| CellSearch.CountIsNumberOfMatchingCells | Controller/Component/ExcelComponent.php:159-188 | 'count' is the number of cells some term matches, not the number of matching terms |
| CellSearch.NotFoundIffNoMatch | Controller/Component/ExcelComponent.php:179-184 | 'all' and 'first' give `false`, and 'count' gives 0, exactly when no cell matches |
| CellSearch.FirstIsEarliestMatch | Controller/Component/ExcelComponent.php:159-173 | 'first' gives a one-element list holding the earliest matching cell in scan order, un-lowered; every earliest match is that cell |
| CellSearch.AllIsEveryMatchInScanOrder | Controller/Component/ExcelComponent.php:159-171 | 'all' lists a hit for every matching cell and no other, in scan order; `false` when there is none |
| Reshape.RowsToEntries | Controller/Component/ExcelComponent.php:335-346 | the loop with the `$cont` counter builds exactly the row entries `RowEntries` |
| Reshape.RowEntriesIndices | Controller/Component/ExcelComponent.php:336-344 | entry n is row n's entry (n counts every row, mapped or not); a row has an entry exactly when it has a mapped column; indices increase and are unique |
| Reshape.RowEntryFields | Controller/Component/ExcelComponent.php:338-341 | a row's entry holds under field f the cell of the last column mapped to f, and has no f when no column maps to it |
| Reshape.RowEntryFieldPresent | Controller/Component/ExcelComponent.php:338-341 | a row's entry has field f exactly when some column of the row is mapped to f |
| Reshape.RowEntryLastWins | Controller/Component/ExcelComponent.php:340 | when several columns map to one field, the last one's cell is kept |
| Reshape.CollectColumns | Controller/Component/ExcelComponent.php:358-365 | the first loop of `columnsToEntries` builds exactly `CollectFields`: each mapped row's values appended under its field |
| Reshape.CollectFieldsValues | Controller/Component/ExcelComponent.php:358-365 | field f's list is every value of every row mapped to f, rows in scan order and cells in column order; f is present exactly when that list is non-empty |
| Reshape.TransposeColumns | Controller/Component/ExcelComponent.php:367-371 | the second loop of `columnsToEntries` builds exactly the transposition: entry i gathers the i-th value of every field |
| Reshape.ColumnsToEntries | Controller/Component/ExcelComponent.php:356-373 | `columnsToEntries` gives exactly `ColumnEntries` |
| Reshape.ColumnEntriesMeaning | Controller/Component/ExcelComponent.php:356-373 | entries are numbered 0, 1, 2, ...; there are as many as the longest field list; entry i has the i-th value of each field that has one and lacks every shorter field, with no error |
| Reshape.DotNotationToDataArray | Controller/Component/ExcelComponent.php:378-388 | the nested loops build exactly `Nested`: each entry's record under the same index |
| Reshape.NestedAt | Controller/Component/ExcelComponent.php:379-384 | index x of the result holds the nesting of entry x; an empty entry leaves no record |
| Reshape.NestedUnique | Controller/Component/ExcelComponent.php:378-388 | the result has unique indices, so it is a PHP array |
| Reshape.BeforeDotPrefix | Controller/Component/ExcelComponent.php:381-382 | the model segment is the longest prefix of the key without a '.' |
| Reshape.AfterDotSplits | Controller/Component/ExcelComponent.php:381-383 | the key has a second segment exactly when it contains a '.'; then it is model segment + "." + the rest |
| Reshape.SplitJoin | Controller/Component/ExcelComponent.php:381-383 | splitting "Model.field" gives back Model and field |
| Reshape.JoinSplit | Controller/Component/ExcelComponent.php:381-383 | a key with exactly one '.' is its model, a '.', and its field |
| Reshape.NestEntryModels | Controller/Component/ExcelComponent.php:380-384 | a record has model m exactly when some flat key's first segment is m |
| Reshape.NestEntryFields | Controller/Component/ExcelComponent.php:380-384 | `[m][f]` holds the value of the last flat key that splits into m and f, and is absent when none does |
| Reshape.NestEntryFieldPresent | Controller/Component/ExcelComponent.php:380-384 | `[m][f]` is present exactly when some flat key splits into m and f |
| Reshape.NestEntryLastWins | Controller/Component/ExcelComponent.php:384 | of several keys that split the same way, the last one's value is kept |
| Reshape.NestEntryRoundTrip | Controller/Component/ExcelComponent.php:380-384 | when every key is "Model.field", `[Model][field]` reads exactly the flat entry's "Model.field" |
| Reshape.RawArrayToDataArray | Controller/Component/ExcelComponent.php:312-325 | rows as entries when the first format key is not numeric, columns otherwise, then always nested: exactly `DataArray` |
| Reshape.DataArrayRows | Controller/Component/ExcelComponent.php:312-346 | with rows as entries, record x is the nesting of row x's entry, absent when row x has no mapped column |
| Reshape.DataArrayColumns | Controller/Component/ExcelComponent.php:312-325 | with columns as entries, record i is the nesting of column entry i, for each i below the longest field list, and absent otherwise |
| Excel.Selected | Controller/Component/ExcelComponent.php:271-272 | the sheets a list selects in turn, stopping at the first reference that selects nothing |
| Excel.SelectedUnique | Controller/Component/ExcelComponent.php:271-272 | that selection is the only one consistent with the references |
| Excel.KeyedAt | Controller/Component/ExcelComponent.php:283-285 | the numbered answers have one key per listed number, repeats collapsing onto one key, each with that sheet's answer |
| Excel.LooselyNullSearchesAllSheets | Controller/Component/ExcelComponent.php:113-126 | the worksheets 0, "" and the empty list compare equal to null and search every sheet |
| Excel.AllSheetsSearched | Controller/Component/ExcelComponent.php:294-301 | with every sheet searched, sheet i's answer sits under key i, also in 'first' mode |
| Excel.CountPerSheet | Controller/Component/ExcelComponent.php:294-301 | 'count' over all sheets gives, under key i, the number of matching cells of sheet i |
| Excel.FirstByNameIsFirstSheet | Controller/Component/ExcelComponent.php:270-278 | 'first' by title answers with the first listed sheet's result, whatever it is, ignoring the rest of the list |
| Excel.FirstByNumberNeedsSheetZero | Controller/Component/ExcelComponent.php:282-290 | 'first' by number answers with sheet 0's result when the first listed number is 0, and null for any other sheet |
| Excel.ByNamesInListOrder | Controller/Component/ExcelComponent.php:270-278 | by title, when every title exists: one answer per listed title, in list order, under keys 0, 1, 2, ... |
| Excel.ByNumbersKeyed | Controller/Component/ExcelComponent.php:282-290 | by number, when every number is a sheet: key n is present exactly when n is listed, holding sheet n's answer |
| Excel.FailureAtFirstBadReference | Controller/Component/ExcelComponent.php:107-130 | the first reference that selects nothing raises the exception; the active sheet stays at the last sheet selected before it |
| Excel.NamePass | Controller/Component/ExcelComponent.php:272-273 | one pass selects the title and appends its answer, or raises SheetNotFound with the active sheet unchanged |
| Excel.FindBySheetsName | Controller/Component/ExcelComponent.php:270-278 | the loop gives exactly `ByNames` and leaves the last selected sheet active |
| Excel.NumberPass | Controller/Component/ExcelComponent.php:284-285 | one pass selects the number and stores its answer under that number, or raises SheetNotFound with the active sheet unchanged |
| Excel.FindBySheetsNumber | Controller/Component/ExcelComponent.php:282-290 | the loop gives exactly `ByNumbers` and leaves the last selected sheet active |
| Excel.FindInAllSheets | Controller/Component/ExcelComponent.php:294-301 | the loop gives exactly `AllSheetResults` and leaves the last sheet active |
| Excel.SearchSheets | Controller/Component/ExcelComponent.php:113-126 | the null test and the first element's kind choose the search, giving exactly `FindIn`; on an exception the active sheet is where the selection stopped |
| Excel.ExcelComponent.constructor | Controller/Component/ExcelComponent.php:18-24 | a new component has no working file and no reader |
| Excel.ExcelComponent.SetWorkingFile | Controller/Component/ExcelComponent.php:40-46 | the cached reader is dropped, and the path is stored, prefixed with the web root unless absolute |
| Excel.ExcelComponent.UnsetWorkingFile | Controller/Component/ExcelComponent.php:53-56 | no working file and no reader; `getReader` would now raise NoFileLoaded |
| Excel.ExcelComponent.GetObjectForFile | Controller/Component/ExcelComponent.php:63-68 | a new workbook holding the file's sheets, or the loader's exception |
| Excel.ExcelComponent.GetReader | Controller/Component/ExcelComponent.php:254-265 | no or empty working file raises NoFileLoaded; the workbook is loaded on the first call only; afterwards the same object is returned unchanged |
| Excel.ExcelComponent.FindInActiveSheet | Controller/Component/ExcelComponent.php:148-191 | the scan of the active sheet of the (possibly just loaded) workbook |
| Excel.ExcelComponent.Find | Controller/Component/ExcelComponent.php:107-130 | gives `FindIn` on the loaded workbook; after a normal return the active sheet is the one active before; after an exception it is where the selection stopped; a cached reader stays the same object |
| Excel.ExcelComponent.ToDataArray | Controller/Component/ExcelComponent.php:230-246 | selects the named or numbered sheet, which stays active; an unknown one raises SheetNotFound; otherwise the data array of the whole sheet or of the range; a cached reader stays the same object |

## Left out

- The internals of PHPExcel are not modelled: format detection, parsing and `toArray`. A workbook is its sheets' grids as the loader produces them (`ExcelComponent.files`). `getAllSheetsAsArray` (Controller/Component/ExcelComponent.php:75-88) only calls `toArray` per sheet and is not modelled.
- `rangeToArray` and the parsing of ranges such as 'A1:F10' are left to the library and taken as a parameter.
- Regular expressions are not modelled: `preg_match` is an uninterpreted function of the pattern and the text. An invalid pattern counts as no match.
- `initialize` and `App::import` (Controller/Component/ExcelComponent.php:30-32) are framework plumbing and are not modelled. `WWW_ROOT` is the constant `webRoot`.
- `ExcelException` carries only a message; the model keeps only which error was raised (`Error`).
- `validateWorksheetsArray` (Controller/Component/ExcelComponent.php:393-400) is never called and is not modelled.
- The null check at Controller/Component/ExcelComponent.php:109-112 is unreachable, because line 108 calls `getReader`, which already raises when there is no file. The model has no branch for it.
- Excel.SearchSheets, Excel.NamePass and Excel.NumberPass are a decomposition of `find` and of the loop bodies; they are not separate operations of the component. Inside the loops, `getReader()` returns the cached workbook (`GetReader` proves this), so those methods work on that object directly.
- Excel.ExcelComponent.Find: worksheet references are numbers or strings. A numeric string such as "2" is treated as a title. PHP's `is_numeric` would treat it as a number, and PHP would also turn it into an integer array key.
- Excel.ExcelComponent.ToDataArray: the worksheet is a number or a string. A numeric string such as "2" is treated as a title, where `is_numeric` (Controller/Component/ExcelComponent.php:232) would select sheet 2.
- Excel.NumberPass: in a list of numbers, a title is taken to select nothing. What the library does with a string passed as a sheet index depends on the PHP version.
- Spreadsheet.Workbook.SetActiveSheetIndex: a negative index raises the exception and leaves the active sheet unchanged. The library checks only the upper bound, stores the index and then fails when it reads the sheet back.
- Worksheet.Lower: `strtolower` is ASCII lower-casing, as in PHP 8.2 and later. Locale-dependent lower-casing of older PHP versions is not modelled.
- Reshape.RawArrayToDataArray: when no row or column is mapped, PHP returns null (an undefined `$retorno`, with a notice). The model returns the empty array.
- Reshape.RawArrayToDataArray: format keys are integers or strings. A numeric string key other than a canonical integer (such as "1.5") counts as a string. `is_numeric` would call it numeric.
- The 'case_sensitive' condition is a boolean. Other truthy and falsy values are not modelled, and neither is a missing 'text' condition.
- Cells are modelled by their string form. `toArray(null, true, false, true)` gives an empty cell as null and a number or boolean unformatted. Search is unaffected, because `strtolower` and `preg_match` turn these into strings, but a hit's `'cell'` and the data array keep the raw value, where the model has its string (and "" for null).

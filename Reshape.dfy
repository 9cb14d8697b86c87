/**
  The grid reshaping behind `toDataArray`: a format maps column labels (rows
  are entries) or row numbers (columns are entries) to "Model.field" keys;
  the grid becomes flat entries "Model.field" => value, and then nested
  records Model => field => value, the data shape Model::save() takes.
 */
module Reshape {
  import opened Wrappers
  import opened PhpArray
  import opened Worksheet

  /** A PHP array key: an integer or a string. */
  datatype Key = IntKey(n: int) | StrKey(s: string)

  /** `$format`: column label or row number => "Model.field". */
  type Format = Arr<Key, string>

  /** A flat entry: "Model.field" => cell value. */
  type Entry = Arr<string, string>

  /** Entry index => flat entry. */
  type Entries = Arr<int, Entry>

  /** Field => values collected for it, in scan order. */
  type Collected = Arr<string, seq<string>>

  /** A nested record: Model => field => value. */
  type Record = Arr<string, Arr<string, string>>

  /** Entry index => nested record. */
  type Records = Arr<int, Record>

  /**
    `!is_numeric(key($format))`: the first key of the format is a string. An
    empty format has the key null, which is not numeric.
   */
  predicate RowsAreEntries(format: Format) {
    format == [] || format[0].0.StrKey?
  }

  // ---------------------------------------------------------------------------
  // Rows as entries.

  /** The entry one row yields: each mapped column assigns its cell to its field. */
  function RowEntry(format: Format, cells: Cells): (e: Entry)
    ensures UniqueKeys(e)
  {
    if cells == [] then []
    else
      var e := RowEntry(format, cells[..|cells| - 1]);
      var (col, cell) := cells[|cells| - 1];
      match Get(format, StrKey(col))
      case Some(field) => Put(e, field, cell)
      case None => e
  }

  /** Row number n of the scan (0-based) yields entry n, when it has a mapped column. */
  function RowEntries(format: Format, raw: Grid): Entries {
    if raw == [] then []
    else
      var n := |raw| - 1;
      var e := RowEntry(format, raw[n].1);
      RowEntries(format, raw[..n]) + (if e == [] then [] else [(n, e)])
  }

  // ---------------------------------------------------------------------------
  // Columns as entries.

  /** Phase one: each mapped row appends its values, in column order, to its field's list. */
  function CollectFields(format: Format, raw: Grid): (data: Collected)
    ensures UniqueKeys(data)
  {
    if raw == [] then []
    else
      var n := |raw| - 1;
      var data := CollectFields(format, raw[..n]);
      var (k, row) := raw[n];
      match Get(format, IntKey(k))
      case Some(field) => if row == [] then data else Put(data, field, GetOr(data, field, []) + Values(row))
      case None => data
  }

  /** The length of the longest list of collected values. */
  function MaxLen(data: Collected): (n: nat)
    ensures forall p :: 0 <= p < |data| ==> |data[p].1| <= n
    ensures data != [] ==> exists p :: 0 <= p < |data| && |data[p].1| == n
    ensures data == [] ==> n == 0
  {
    if data == [] then 0
    else
      var front := data[..|data| - 1];
      var m := MaxLen(front);
      assert forall p :: 0 <= p < |front| ==> front[p] == data[p];
      if |data[|data| - 1].1| <= m then m else |data[|data| - 1].1|
  }

  /** Entry i of the transposition: each field that has an i-th value, with that value. */
  function Column(data: Collected, i: nat): Entry {
    if data == [] then []
    else
      var (field, values) := data[|data| - 1];
      Column(data[..|data| - 1], i) + (if i < |values| then [(field, values[i])] else [])
  }

  /** Phase two: entry i gathers the i-th value of every field. */
  function Transpose(data: Collected): Entries {
    seq(MaxLen(data), i requires 0 <= i < MaxLen(data) => (i, Column(data, i)))
  }

  function ColumnEntries(format: Format, raw: Grid): Entries {
    Transpose(CollectFields(format, raw))
  }

  // ---------------------------------------------------------------------------
  // Dot notation.

  /** The characters before the first '.', or the whole string. */
  function BeforeDot(s: string): string {
    if s == [] || s[0] == '.' then [] else [s[0]] + BeforeDot(s[1..])
  }

  /** What follows the first '.', or None when there is none. */
  function AfterDot(s: string): Option<string> {
    if s == [] then None
    else if s[0] == '.' then Some(s[1..])
    else AfterDot(s[1..])
  }

  /** `BeforeDot` is the longest prefix without a '.'. */
  lemma {:induction false} BeforeDotPrefix(s: string)
    ensures var r := BeforeDot(s);
      r <= s && '.' !in r && (|r| < |s| ==> s[|r|] == '.')
  {
    if s != [] && s[0] != '.' {
      BeforeDotPrefix(s[1..]);
    }
  }

  /** `AfterDot` finds a '.' exactly when there is one, and cuts the string there. */
  lemma {:induction false} AfterDotSplits(s: string)
    ensures AfterDot(s).None? <==> '.' !in s
    ensures AfterDot(s).Some? ==> s == BeforeDot(s) + "." + AfterDot(s).value
  {
    if s != [] && s[0] != '.' {
      AfterDotSplits(s[1..]);
      assert s == [s[0]] + s[1..];
    }
  }

  /** `explode(".", $key)[0]`. */
  function ModelOf(key: string): string {
    BeforeDot(key)
  }

  /**
    `explode(".", $key)[1]`; a key without '.' has no second segment, and PHP
    reads the missing element as null, which becomes the array key "".
   */
  function FieldOf(key: string): string {
    match AfterDot(key)
    case None => ""
    case Some(rest) => BeforeDot(rest)
  }

  /** `$retorno[$x][$model][$field] = $value` within one record. */
  function Assign(r: Record, key: string, value: string): Record {
    var model := ModelOf(key);
    Put(r, model, Put(GetOr(r, model, []), FieldOf(key), value))
  }

  /** The nested record of one flat entry. */
  function NestEntry(e: Entry): Record {
    if e == [] then []
    else
      var (key, value) := e[|e| - 1];
      Assign(NestEntry(e[..|e| - 1]), key, value)
  }

  /** Every non-empty entry becomes a record under the same index. */
  function Nested(entries: Entries): Records {
    if entries == [] then []
    else
      var (x, e) := entries[|entries| - 1];
      Nested(entries[..|entries| - 1]) + (if e == [] then [] else [(x, NestEntry(e))])
  }

  /** `rawArrayToDataArray`: choose the orientation, then nest. */
  function DataArray(raw: Grid, format: Format): Records {
    Nested(if RowsAreEntries(format) then RowEntries(format, raw) else ColumnEntries(format, raw))
  }

  // ---------------------------------------------------------------------------
  // Facts the loops below rely on.

  /**
    `rowsToEntries` numbers entries by the row's ordinal in the scan, counting
    rows without a mapped column too: entry n is row n's entry, present exactly
    when that row has a mapped column, and entries come in increasing order.
   */
  lemma RowEntriesIndices(format: Format, raw: Grid)
    ensures var r := RowEntries(format, raw);
      && (forall p, q :: 0 <= p < q < |r| ==> r[p].0 < r[q].0)
      && (forall p :: 0 <= p < |r| ==>
            0 <= r[p].0 < |raw| && r[p].1 == RowEntry(format, raw[r[p].0].1) && r[p].1 != [])
      && (forall x :: 0 <= x < |raw| && RowEntry(format, raw[x].1) != [] ==> HasKey(r, x))
      && UniqueKeys(r)
  {
    RowEntriesOrdered(format, raw);
    RowEntriesComplete(format, raw);
  }

  lemma {:induction false} RowEntriesOrdered(format: Format, raw: Grid)
    ensures var r := RowEntries(format, raw);
      && (forall p, q :: 0 <= p < q < |r| ==> r[p].0 < r[q].0)
      && (forall p :: 0 <= p < |r| ==>
            0 <= r[p].0 < |raw| && r[p].1 == RowEntry(format, raw[r[p].0].1) && r[p].1 != [])
      && UniqueKeys(r)
  {
    if raw != [] {
      var n := |raw| - 1;
      var front := raw[..n];
      RowEntriesOrdered(format, front);
      forall x | 0 <= x < n ensures front[x] == raw[x] { }
      var e := RowEntry(format, raw[n].1);
      assert RowEntries(format, raw) == RowEntries(format, front) + (if e == [] then [] else [(n, e)]);
    }
  }

  lemma {:induction false} RowEntriesComplete(format: Format, raw: Grid)
    ensures forall x :: 0 <= x < |raw| && RowEntry(format, raw[x].1) != [] ==> HasKey(RowEntries(format, raw), x)
  {
    if raw != [] {
      var n := |raw| - 1;
      var front := raw[..n];
      RowEntriesComplete(format, front);
      var r0 := RowEntries(format, front);
      var e := RowEntry(format, raw[n].1);
      var r := RowEntries(format, raw);
      assert r == r0 + (if e == [] then [] else [(n, e)]);
      forall x | 0 <= x < |raw| && RowEntry(format, raw[x].1) != [] ensures HasKey(r, x) {
        if x < n {
          assert front[x] == raw[x];
          var p :| 0 <= p < |r0| && r0[p].0 == x;
          assert r[p].0 == x;
        } else {
          assert r[|r0|].0 == x;
        }
      }
    }
  }

  /** One cell of `rowsToEntries`: `$array[$cont][$format[$col]] = $cell`. */
  lemma RowStep(prev: Entries, cont: int, format: Format, row: Cells, j: nat)
    requires !HasKey(prev, cont) && j < |row|
    ensures var e := RowEntry(format, row[..j]);
      var e' := RowEntry(format, row[..j + 1]);
      var cur := prev + (if e == [] then [] else [(cont, e)]);
      (match Get(format, StrKey(row[j].0))
       case Some(f) => Put(cur, cont, Put(GetOr(cur, cont, []), f, row[j].1))
       case None => cur)
      == prev + (if e' == [] then [] else [(cont, e')])
  {
    var e := RowEntry(format, row[..j]);
    assert row[..j + 1][..j] == row[..j];
    match Get(format, StrKey(row[j].0))
    case Some(f) =>
      if e == [] {
        PutFresh(prev, cont, Put(e, f, row[j].1));
      } else {
        assert Position(prev + [(cont, e)], cont) == Some(|prev|);
        PutLast(prev, cont, e, Put(e, f, row[j].1));
      }
    case None =>
  }

  /** One cell of the first loop of `columnsToEntries`: `$data[$format[$k]][] = $valor`. */
  lemma CollectStep(prev: Collected, f: string, row: Cells, j: nat)
    requires UniqueKeys(prev) && j < |row|
    ensures var cur := if j == 0 then prev else Put(prev, f, GetOr(prev, f, []) + Values(row[..j]));
      Put(cur, f, GetOr(cur, f, []) + [row[j].1]) == Put(prev, f, GetOr(prev, f, []) + Values(row[..j + 1]))
  {
    assert Values(row[..j + 1]) == Values(row[..j]) + [row[j].1];
    if j > 0 {
      var X := GetOr(prev, f, []) + Values(row[..j]);
      PutGet(prev, f, X);
      assert GetOr(Put(prev, f, X), f, []) == X;
      PutPut(prev, f, X, X + [row[j].1]);
      assert X + [row[j].1] == GetOr(prev, f, []) + Values(row[..j + 1]);
    } else {
      assert Values(row[..j + 1]) == [row[j].1];
    }
  }

  lemma {:induction false} ColumnAppend(d: Collected, field: string, vs: seq<string>, i: nat)
    ensures Column(d + [(field, vs)], i) == Column(d, i) + (if i < |vs| then [(field, vs[i])] else [])
  {
    assert (d + [(field, vs)])[..|d|] == d;
  }

  lemma MaxLenAppend(d: Collected, field: string, vs: seq<string>)
    ensures MaxLen(d + [(field, vs)]) == if |vs| <= MaxLen(d) then MaxLen(d) else |vs|
  {
    assert (d + [(field, vs)])[..|d|] == d;
  }

  /** Keys of a column entry are fields of the collected data. */
  lemma {:induction false} ColumnKeys(data: Collected, i: nat, f: string)
    ensures HasKey(Column(data, i), f) ==> HasKey(data, f)
  {
    if data != [] {
      var front := data[..|data| - 1];
      ColumnKeys(front, i, f);
      if HasKey(Column(front, i), f) {
        var p :| 0 <= p < |front| && front[p].0 == f;
        assert data[p].0 == f;
      }
    }
  }

  /** Past the longest list, the transposition has nothing. */
  lemma {:induction false} ColumnBeyond(data: Collected, i: nat)
    requires i >= MaxLen(data)
    ensures Column(data, i) == []
  {
    if data != [] {
      var front := data[..|data| - 1];
      assert forall p :: 0 <= p < |front| ==> front[p] == data[p];
      ColumnBeyond(front, i);
    }
  }

  /** A field with no values changes nothing in the transposition. */
  lemma TransposeEmptyField(d: Collected, field: string)
    ensures Transpose(d + [(field, [])]) == Transpose(d)
  {
    MaxLenAppend(d, field, []);
    forall i: nat ensures Column(d + [(field, [])], i) == Column(d, i) {
      ColumnAppend(d, field, [], i);
    }
  }

  /** Appending the (b+1)-th value of a new field changes only entry b of the transposition. */
  lemma TransposeGrowColumn(d: Collected, field: string, vs: seq<string>, b: nat, i: nat)
    requires b < |vs|
    ensures Column(d + [(field, vs[..b + 1])], i)
      == if i == b then Column(d + [(field, vs[..b])], i) + [(field, vs[b])] else Column(d + [(field, vs[..b])], i)
  {
    ColumnAppend(d, field, vs[..b], i);
    ColumnAppend(d, field, vs[..b + 1], i);
  }

  /** The transposition is numbered 0, 1, 2, ... and entry i is column i. */
  lemma TransposeAt(d: Collected, i: nat)
    ensures Dense(Transpose(d)) && |Transpose(d)| == MaxLen(d)
    ensures Get(Transpose(d), i) == if i < MaxLen(d) then Some(Column(d, i)) else None
  {
    var T := Transpose(d);
    assert UniqueKeys(T);
    if i < MaxLen(d) {
      assert T[i].0 == i && T[i].1 == Column(d, i);
    }
  }

  /** The transposition after the (b+1)-th value of a new field, when entry b already exists. */
  lemma TransposeGrowInside(d: Collected, field: string, vs: seq<string>, b: nat)
    requires b < |vs| && b < MaxLen(d + [(field, vs[..b])])
    ensures var T := Transpose(d + [(field, vs[..b])]);
      T[b := (b, T[b].1 + [(field, vs[b])])] == Transpose(d + [(field, vs[..b + 1])])
  {
    var T := Transpose(d + [(field, vs[..b])]);
    var T2 := Transpose(d + [(field, vs[..b + 1])]);
    MaxLenAppend(d, field, vs[..b]);
    MaxLenAppend(d, field, vs[..b + 1]);
    forall i | 0 <= i < |T2| ensures T[b := (b, T[b].1 + [(field, vs[b])])][i] == T2[i] {
      TransposeGrowColumn(d, field, vs, b, i);
    }
  }

  /** Entry b is new exactly when b reaches the longest list; then the longest list grows by one. */
  lemma TransposeGrowLengths(d: Collected, field: string, vs: seq<string>, b: nat)
    requires b < |vs| && b >= MaxLen(d + [(field, vs[..b])])
    ensures MaxLen(d + [(field, vs[..b])]) == b && MaxLen(d + [(field, vs[..b + 1])]) == b + 1
  {
    MaxLenAppend(d, field, vs[..b]);
    MaxLenAppend(d, field, vs[..b + 1]);
  }

  /** The transposition after the (b+1)-th value of a new field, when entry b is new. */
  lemma TransposeGrowBeyond(d: Collected, field: string, vs: seq<string>, b: nat)
    requires b < |vs| && b >= MaxLen(d + [(field, vs[..b])])
    ensures var T := Transpose(d + [(field, vs[..b])]);
      T + [(b, [(field, vs[b])])] == Transpose(d + [(field, vs[..b + 1])])
  {
    var d1 := d + [(field, vs[..b])];
    var d2 := d + [(field, vs[..b + 1])];
    TransposeGrowLengths(d, field, vs, b);
    ColumnBeyond(d1, b);
    var T := Transpose(d1);
    var T2 := Transpose(d2);
    var R := T + [(b, [(field, vs[b])])];
    assert |R| == |T2|;
    forall i | 0 <= i < |T2| ensures R[i] == T2[i] {
      TransposeGrowColumn(d, field, vs, b, i);
      assert T2[i] == (i, Column(d2, i));
      if i < b {
        assert R[i] == T[i] == (i, Column(d1, i));
      } else {
        assert i == b && R[i] == (b, [(field, vs[b])]);
        assert Column(d2, b) == [(field, vs[b])];
      }
    }
  }

  /** Entry b of the transposition before the (b+1)-th value of a new field has no such field yet. */
  lemma TransposeEntryBefore(d: Collected, field: string, vs: seq<string>, b: nat)
    requires !HasKey(d, field) && b <= |vs|
    ensures var T := Transpose(d + [(field, vs[..b])]);
      && Dense(T) && |T| == MaxLen(d + [(field, vs[..b])])
      && GetOr(T, b, []) == (if b < |T| then T[b].1 else [])
      && !HasKey(GetOr(T, b, []), field)
  {
    var d1 := d + [(field, vs[..b])];
    TransposeAt(d1, b);
    ColumnAppend(d, field, vs[..b], b);
    ColumnKeys(d, b, field);
  }

  /** One value of the second loop of `columnsToEntries`: `$retorno[$index][$campo] = $valor`. */
  lemma TransposeStep(d: Collected, field: string, vs: seq<string>, b: nat)
    requires !HasKey(d, field) && b < |vs|
    ensures var T := Transpose(d + [(field, vs[..b])]);
      Put(T, b, Put(GetOr(T, b, []), field, vs[b])) == Transpose(d + [(field, vs[..b + 1])])
  {
    var T := Transpose(d + [(field, vs[..b])]);
    TransposeEntryBefore(d, field, vs, b);
    var C := GetOr(T, b, []);
    PutFresh(C, field, vs[b]);
    PutDense(T, b, C + [(field, vs[b])]);
    if b < |T| {
      TransposeGrowInside(d, field, vs, b);
    } else {
      TransposeGrowBeyond(d, field, vs, b);
    }
  }

  /** The records `dotNotationToDataArray` builds come from the entries under the same index. */
  lemma {:induction false} NestedKeys(entries: Entries, x: int)
    ensures HasKey(Nested(entries), x) ==> HasKey(entries, x)
  {
    if entries != [] {
      var n := |entries| - 1;
      var front := entries[..n];
      NestedKeys(front, x);
      if HasKey(Nested(front), x) {
        var p :| 0 <= p < |front| && front[p].0 == x;
        assert entries[p].0 == x;
      }
    }
  }

  /** One flat key of `dotNotationToDataArray`: `$retorno[$x][$model][$field] = $value`. */
  lemma NestStep(prev: Records, x: int, row: Entry, q: nat)
    requires !HasKey(prev, x) && q < |row|
    ensures var cur := prev + (if q == 0 then [] else [(x, NestEntry(row[..q]))]);
      Put(cur, x, Assign(GetOr(cur, x, []), row[q].0, row[q].1)) == prev + [(x, NestEntry(row[..q + 1]))]
  {
    assert row[..q + 1][..q] == row[..q];
    var rec := if q == 0 then [] else NestEntry(row[..q]);
    assert NestEntry(row[..q + 1]) == Assign(rec, row[q].0, row[q].1);
    if q == 0 {
      PutFresh(prev, x, Assign(rec, row[q].0, row[q].1));
    } else {
      assert Position(prev + [(x, rec)], x) == Some(|prev|);
      PutLast(prev, x, rec, Assign(rec, row[q].0, row[q].1));
    }
  }

  // ---------------------------------------------------------------------------
  // What the reshaping means.

  /** Column `col` is mapped to field `f`: `$format[$col] == f`. */
  predicate MapsTo(format: Format, col: Label, f: string) {
    Get(format, StrKey(col)) == Some(f)
  }

  /** The position of the last column of the row mapped to field f, if any. */
  function LastMappedAt(format: Format, cells: Cells, f: string): (r: Option<nat>)
    ensures r.Some? ==> r.value < |cells|
  {
    if cells == [] then None
    else if MapsTo(format, cells[|cells| - 1].0, f) then Some(|cells| - 1)
    else LastMappedAt(format, cells[..|cells| - 1], f)
  }

  /** Column j is the last column of the row mapped to field f. */
  predicate LastMapped(format: Format, cells: Cells, j: int, f: string) {
    0 <= j < |cells| && MapsTo(format, cells[j].0, f)
    && forall j' :: j < j' < |cells| ==> !MapsTo(format, cells[j'].0, f)
  }

  lemma {:induction false} LastMappedAtMeaning(format: Format, cells: Cells, f: string)
    ensures var r := LastMappedAt(format, cells, f);
      && (r.None? <==> forall j :: 0 <= j < |cells| ==> !MapsTo(format, cells[j].0, f))
      && (r.Some? ==> LastMapped(format, cells, r.value, f))
  {
    if cells != [] {
      var n := |cells| - 1;
      var front := cells[..n];
      LastMappedAtMeaning(format, front, f);
      forall j | 0 <= j < n ensures front[j] == cells[j] { }
    }
  }

  /**
    A row's entry holds, under field f, the cell of the last column mapped to f
    (later columns overwrite), and has no field f when no column is mapped to it.
   */
  lemma {:induction false} RowEntryFields(format: Format, cells: Cells, f: string)
    ensures Get(RowEntry(format, cells), f)
      == match LastMappedAt(format, cells, f) case Some(j) => Some(cells[j].1) case None => None
  {
    if cells != [] {
      var n := |cells| - 1;
      var front := cells[..n];
      RowEntryFields(format, front, f);
      var e0 := RowEntry(format, front);
      match Get(format, StrKey(cells[n].0))
      case Some(g) =>
        PutGet(e0, g, cells[n].1);
      case None =>
    }
  }

  /** A row's entry has field f exactly when some column of the row is mapped to f. */
  lemma RowEntryFieldPresent(format: Format, cells: Cells, f: string)
    ensures HasKey(RowEntry(format, cells), f) <==> exists j :: 0 <= j < |cells| && MapsTo(format, cells[j].0, f)
  {
    RowEntryFields(format, cells, f);
    LastMappedAtMeaning(format, cells, f);
  }

  /** When several columns are mapped to one field, the last one's cell is kept. */
  lemma RowEntryLastWins(format: Format, cells: Cells, j: int, f: string)
    requires LastMapped(format, cells, j, f)
    ensures Get(RowEntry(format, cells), f) == Some(cells[j].1)
  {
    RowEntryFields(format, cells, f);
    LastMappedAtMeaning(format, cells, f);
    var k := LastMappedAt(format, cells, f).value;
    assert !(j < k) && !(k < j);
  }

  /** Row number `k` is mapped to field `f`: `$format[$k] == f`. */
  predicate RowMapsTo(format: Format, k: int, f: string) {
    Get(format, IntKey(k)) == Some(f)
  }

  /** Every value of every row mapped to f: rows in scan order, each row's cells in column order. */
  function ValuesFor(format: Format, raw: Grid, f: string): seq<string> {
    if raw == [] then []
    else
      var (k, row) := raw[|raw| - 1];
      ValuesFor(format, raw[..|raw| - 1], f) + (if RowMapsTo(format, k, f) then Values(row) else [])
  }

  /**
    The first phase of the column orientation collects, for each field, the
    values of the rows mapped to it; a field is present exactly when it got a value.
   */
  lemma {:induction false} CollectFieldsValues(format: Format, raw: Grid, f: string)
    ensures GetOr(CollectFields(format, raw), f, []) == ValuesFor(format, raw, f)
    ensures HasKey(CollectFields(format, raw), f) <==> ValuesFor(format, raw, f) != []
  {
    if raw != [] {
      var n := |raw| - 1;
      var (k, row) := raw[n];
      var data := CollectFields(format, raw[..n]);
      CollectFieldsValues(format, raw[..n], f);
      var vf := ValuesFor(format, raw[..n], f);
      assert ValuesFor(format, raw, f) == vf + (if RowMapsTo(format, k, f) then Values(row) else []);
      match Get(format, IntKey(k))
      case Some(g) =>
        if row != [] {
          var X := GetOr(data, g, []) + Values(row);
          assert CollectFields(format, raw) == Put(data, g, X);
          PutGet(data, g, X);
          if f == g {
            assert RowMapsTo(format, k, f);
            assert GetOr(Put(data, g, X), f, []) == X;
          } else {
            assert !RowMapsTo(format, k, f);
            assert Get(Put(data, g, X), f) == Get(data, f);
          }
        } else {
          assert CollectFields(format, raw) == data;
          assert Values(row) == [];
        }
      case None =>
        assert CollectFields(format, raw) == data;
        assert !RowMapsTo(format, k, f);
    }
  }

  /** Entry i of the transposition holds the i-th value of every field that has one. */
  lemma {:induction false} ColumnFields(data: Collected, i: nat, f: string)
    requires UniqueKeys(data)
    ensures UniqueKeys(Column(data, i))
    ensures Get(Column(data, i), f) == if i < |GetOr(data, f, [])| then Some(GetOr(data, f, [])[i]) else None
  {
    if data != [] {
      var n := |data| - 1;
      var front := data[..n];
      var (g, vs) := data[n];
      assert data == front + [(g, vs)];
      ColumnFields(front, i, f);
      ColumnKeys(front, i, g);
      assert !HasKey(front, g) by {
        forall p | 0 <= p < n ensures front[p].0 != g {
          assert front[p] == data[p];
        }
      }
      GetAppend(front, g, vs, f);
      assert Column(data, i) == Column(front, i) + (if i < |vs| then [(g, vs[i])] else []);
      if i < |vs| {
        GetAppend(Column(front, i), g, vs[i], f);
        if f == g {
          ColumnFields(front, i, g);
        }
      } else {
        assert Column(data, i) == Column(front, i);
        assert GetOr(data, f, []) == if f == g then vs else GetOr(front, f, []);
      }
    }
  }

  /**
    The column orientation: entries are numbered 0, 1, 2, ...; there are as many
    as the longest list of values; entry i has, for every field, the i-th value
    collected for it, and no field whose list is shorter.
   */
  lemma ColumnEntriesMeaning(format: Format, raw: Grid)
    ensures var r := ColumnEntries(format, raw);
      && Dense(r)
      && (forall f :: |ValuesFor(format, raw, f)| <= |r|)
      && (r == [] || exists f :: |ValuesFor(format, raw, f)| == |r|)
      && (forall i, f :: 0 <= i < |r| ==>
            Get(r[i].1, f) == if i < |ValuesFor(format, raw, f)| then Some(ValuesFor(format, raw, f)[i]) else None)
  {
    var data := CollectFields(format, raw);
    var r := ColumnEntries(format, raw);
    forall f ensures |ValuesFor(format, raw, f)| <= |r| {
      CollectFieldsValues(format, raw, f);
      if HasKey(data, f) {
        var p :| 0 <= p < |data| && data[p].0 == f;
        assert GetOr(data, f, []) == data[p].1;
      }
    }
    if r != [] {
      var p :| 0 <= p < |data| && |data[p].1| == MaxLen(data);
      CollectFieldsValues(format, raw, data[p].0);
      assert GetOr(data, data[p].0, []) == data[p].1;
    }
    forall i, f | 0 <= i < |r|
      ensures Get(r[i].1, f) == if i < |ValuesFor(format, raw, f)| then Some(ValuesFor(format, raw, f)[i]) else None
    {
      CollectFieldsValues(format, raw, f);
      ColumnFields(data, i, f);
    }
  }

  /** A key "Model.field" with exactly one '.'. */
  predicate DotKey(key: string) {
    AfterDot(key).Some? && '.' !in AfterDot(key).value
  }

  lemma {:induction false} BeforeDotOfJoin(m: string, rest: string)
    requires '.' !in m
    ensures BeforeDot(m + "." + rest) == m
  {
    if m != [] {
      BeforeDotOfJoin(m[1..], rest);
      assert (m + "." + rest)[1..] == m[1..] + "." + rest;
    }
  }

  lemma {:induction false} AfterDotOfJoin(m: string, rest: string)
    requires '.' !in m
    ensures AfterDot(m + "." + rest) == Some(rest)
  {
    if m != [] {
      AfterDotOfJoin(m[1..], rest);
      assert (m + "." + rest)[1..] == m[1..] + "." + rest;
    }
  }

  lemma {:induction false} BeforeDotNoDot(s: string)
    requires '.' !in s
    ensures BeforeDot(s) == s
  {
    if s != [] {
      BeforeDotNoDot(s[1..]);
      assert s == [s[0]] + s[1..];
    }
  }

  /** Splitting "Model.field" gives back the model and the field. */
  lemma SplitJoin(m: string, f: string)
    requires '.' !in m && '.' !in f
    ensures ModelOf(m + "." + f) == m && FieldOf(m + "." + f) == f
    ensures DotKey(m + "." + f)
  {
    BeforeDotOfJoin(m, f);
    AfterDotOfJoin(m, f);
    BeforeDotNoDot(f);
  }

  /** A key with exactly one '.' is its model, a '.', and its field. */
  lemma JoinSplit(key: string)
    requires DotKey(key)
    ensures key == ModelOf(key) + "." + FieldOf(key)
    ensures '.' !in ModelOf(key) && '.' !in FieldOf(key)
  {
    AfterDotSplits(key);
    BeforeDotPrefix(key);
    BeforeDotNoDot(AfterDot(key).value);
  }

  /** Every record `NestEntry` builds, and every model's fields within it, have unique keys. */
  lemma {:induction false} NestEntryUnique(e: Entry)
    ensures UniqueKeys(NestEntry(e))
    ensures forall m :: UniqueKeys(GetOr(NestEntry(e), m, []))
  {
    if e != [] {
      var n := |e| - 1;
      NestEntryUnique(e[..n]);
      var r := NestEntry(e[..n]);
      var (key, value) := e[n];
      var model := ModelOf(key);
      var inner := Put(GetOr(r, model, []), FieldOf(key), value);
      PutGet(r, model, inner);
      forall m ensures UniqueKeys(GetOr(NestEntry(e), m, [])) {
        if m != model {
          assert GetOr(NestEntry(e), m, []) == GetOr(r, m, []);
        }
      }
    }
  }

  /** The record of one entry is a PHP array, and so is each model's part of it. */
  lemma NestEntryWellFormed(e: Entry, key: string)
    ensures UniqueKeys(NestEntry(e)) && UniqueKeys(GetOr(NestEntry(e), ModelOf(key), []))
  {
    NestEntryUnique(e);
  }

  /** The flat key at position p names model m. */
  predicate NamesModel(e: Entry, p: int, m: string)
    requires 0 <= p < |e|
  {
    ModelOf(e[p].0) == m
  }

  /** The flat key at position p goes to model m, field f. */
  predicate SplitsTo(e: Entry, p: int, m: string, f: string)
    requires 0 <= p < |e|
  {
    ModelOf(e[p].0) == m && FieldOf(e[p].0) == f
  }

  /** One assignment `$retorno[$x][$model][$field] = $value` within a record, read back. */
  lemma AssignGet(r: Record, key: string, value: string, m: string, f: string)
    requires UniqueKeys(r) && UniqueKeys(GetOr(r, ModelOf(key), []))
    ensures HasKey(Assign(r, key, value), m) <==> HasKey(r, m) || ModelOf(key) == m
    ensures Get(GetOr(Assign(r, key, value), m, []), f)
      == if ModelOf(key) == m && FieldOf(key) == f then Some(value) else Get(GetOr(r, m, []), f)
  {
    var model := ModelOf(key);
    var inner := Put(GetOr(r, model, []), FieldOf(key), value);
    PutGet(r, model, inner);
    PutGet(GetOr(r, model, []), FieldOf(key), value);
    if model != m {
      assert GetOr(Assign(r, key, value), m, []) == GetOr(r, m, []);
    }
  }

  /** Nesting the last key of an entry: the models present, in terms of the keys before it. */
  lemma NestModelStep(e: Entry, m: string)
    requires e != []
    ensures HasKey(NestEntry(e), m) <==> HasKey(NestEntry(e[..|e| - 1]), m) || NamesModel(e, |e| - 1, m)
  {
    var n := |e| - 1;
    NestEntryWellFormed(e[..n], e[n].0);
    AssignGet(NestEntry(e[..n]), e[n].0, e[n].1, m, "");
  }

  /** Nesting the last key of an entry: the fields of model m, in terms of the keys before it. */
  lemma NestFieldStep(e: Entry, m: string, f: string)
    requires e != []
    ensures Get(GetOr(NestEntry(e), m, []), f)
      == if SplitsTo(e, |e| - 1, m, f) then Some(e[|e| - 1].1) else Get(GetOr(NestEntry(e[..|e| - 1]), m, []), f)
    ensures HasKey(GetOr(NestEntry(e), m, []), f)
      <==> SplitsTo(e, |e| - 1, m, f) || HasKey(GetOr(NestEntry(e[..|e| - 1]), m, []), f)
  {
    var n := |e| - 1;
    NestEntryWellFormed(e[..n], e[n].0);
    AssignGet(NestEntry(e[..n]), e[n].0, e[n].1, m, f);
  }

  /** Nesting one entry: model m is present exactly when some key names it. */
  lemma {:induction false} NestEntryModels(e: Entry, m: string)
    ensures HasKey(NestEntry(e), m) <==> exists p :: 0 <= p < |e| && NamesModel(e, p, m)
  {
    if e != [] {
      var n := |e| - 1;
      var front := e[..n];
      NestEntryModels(front, m);
      NestModelStep(e, m);
      forall p | 0 <= p < n ensures NamesModel(front, p, m) == NamesModel(e, p, m) {
        assert front[p] == e[p];
      }
      if !NamesModel(e, n, m) && HasKey(NestEntry(front), m) {
        var p :| 0 <= p < n && NamesModel(front, p, m);
        assert NamesModel(e, p, m);
      }
    }
  }

  /** Key p is the last one of the entry that splits to model m and field f. */
  predicate LastSplit(e: Entry, p: int, m: string, f: string) {
    0 <= p < |e| && SplitsTo(e, p, m, f) && forall q :: p < q < |e| ==> !SplitsTo(e, q, m, f)
  }

  /** The position of the last key that splits to model m and field f, if any. */
  function LastSplitAt(e: Entry, m: string, f: string): (r: Option<nat>)
    ensures r.Some? ==> r.value < |e|
  {
    if e == [] then None
    else if SplitsTo(e, |e| - 1, m, f) then Some(|e| - 1)
    else LastSplitAt(e[..|e| - 1], m, f)
  }

  lemma {:induction false} LastSplitAtMeaning(e: Entry, m: string, f: string)
    ensures var r := LastSplitAt(e, m, f);
      && (r.None? <==> forall p :: 0 <= p < |e| ==> !SplitsTo(e, p, m, f))
      && (r.Some? ==> LastSplit(e, r.value, m, f))
  {
    if e != [] {
      var n := |e| - 1;
      var front := e[..n];
      LastSplitAtMeaning(front, m, f);
      forall p | 0 <= p < n ensures SplitsTo(front, p, m, f) == SplitsTo(e, p, m, f) {
        assert front[p] == e[p];
      }
    }
  }

  /**
    Nesting one entry: field f of model m holds the value of the last key that
    splits to m and f (later keys overwrite), and is absent when none does.
   */
  lemma {:induction false} NestEntryFields(e: Entry, m: string, f: string)
    ensures Get(GetOr(NestEntry(e), m, []), f)
      == match LastSplitAt(e, m, f) case Some(p) => Some(e[p].1) case None => None
  {
    if e != [] {
      NestEntryFields(e[..|e| - 1], m, f);
      NestFieldStep(e, m, f);
    }
  }

  /** Nesting one entry: a later key overwrites an earlier one that splits the same way. */
  lemma NestEntryLastWins(e: Entry, p: int, m: string, f: string)
    requires LastSplit(e, p, m, f)
    ensures Get(GetOr(NestEntry(e), m, []), f) == Some(e[p].1)
  {
    NestEntryFields(e, m, f);
    LastSplitAtMeaning(e, m, f);
    var q := LastSplitAt(e, m, f).value;
    assert LastSplit(e, q, m, f);
    assert !(p < q) && !(q < p);
  }

  /** Nesting one entry: field f of model m is present exactly when some key splits to m and f. */
  lemma NestEntryFieldPresent(e: Entry, m: string, f: string)
    ensures HasKey(GetOr(NestEntry(e), m, []), f) <==> exists p :: 0 <= p < |e| && SplitsTo(e, p, m, f)
  {
    NestEntryFields(e, m, f);
    LastSplitAtMeaning(e, m, f);
  }

  /**
    When every key of an entry is "Model.field", nesting loses nothing:
    `$retorno[$x][Model][field]` is exactly the entry's "Model.field".
   */
  lemma NestEntryRoundTrip(e: Entry, m: string, f: string)
    requires UniqueKeys(e)
    requires forall p :: 0 <= p < |e| ==> DotKey(e[p].0)
    requires '.' !in m && '.' !in f
    ensures Get(GetOr(NestEntry(e), m, []), f) == Get(e, m + "." + f)
  {
    var key := m + "." + f;
    SplitJoin(m, f);
    NestEntryFieldPresent(e, m, f);
    forall p | 0 <= p < |e| && SplitsTo(e, p, m, f) ensures e[p].0 == key {
      JoinSplit(e[p].0);
    }
    if HasKey(e, key) {
      var p :| 0 <= p < |e| && e[p].0 == key;
      assert SplitsTo(e, p, m, f);
      assert LastSplit(e, p, m, f);
      NestEntryLastWins(e, p, m, f);
    }
  }

  /** The records `dotNotationToDataArray` builds form a PHP array. */
  lemma {:induction false} NestedUnique(entries: Entries)
    requires UniqueKeys(entries)
    ensures UniqueKeys(Nested(entries))
  {
    if entries != [] {
      var front := entries[..|entries| - 1];
      UniqueKeysFront(entries);
      NestedUnique(front);
      NestedKeys(front, entries[|entries| - 1].0);
    }
  }

  /**
    `dotNotationToDataArray` keeps each entry's index: index x holds the nested
    record of entry x, and an empty entry leaves no record.
   */
  lemma {:induction false} NestedAt(entries: Entries, p: nat)
    requires UniqueKeys(entries) && p < |entries|
    ensures Get(Nested(entries), entries[p].0)
      == if entries[p].1 == [] then None else Some(NestEntry(entries[p].1))
  {
    var n := |entries| - 1;
    var front := entries[..n];
    UniqueKeysFront(entries);
    NestedLast(entries, entries[p].0);
    if p == n {
      NestedKeys(front, entries[n].0);
    } else {
      assert front[p] == entries[p];
      NestedAt(front, p);
    }
  }

  /** Reading the records after the last entry was nested. */
  lemma NestedLast(entries: Entries, y: int)
    requires entries != []
    ensures var last := entries[|entries| - 1];
      var front := Nested(entries[..|entries| - 1]);
      Get(Nested(entries), y)
        == if last.1 == [] || HasKey(front, y) then Get(front, y)
           else if y == last.0 then Some(NestEntry(last.1)) else None
  {
    var last := entries[|entries| - 1];
    var front := Nested(entries[..|entries| - 1]);
    if last.1 != [] {
      assert Nested(entries) == front + [(last.0, NestEntry(last.1))];
      GetAppend(front, last.0, NestEntry(last.1), y);
    } else {
      assert Nested(entries) == front + [];
      assert front + [] == front;
    }
  }

  /**
    Rows as entries, end to end: record x of the data array is the nesting of
    row x's entry, and there is none when row x has no mapped column.
   */
  lemma DataArrayRows(raw: Grid, format: Format, x: int)
    requires RowsAreEntries(format)
    ensures Get(DataArray(raw, format), x)
      == if 0 <= x < |raw| && RowEntry(format, raw[x].1) != [] then Some(NestEntry(RowEntry(format, raw[x].1))) else None
  {
    var r := RowEntries(format, raw);
    RowEntriesIndices(format, raw);
    NestedKeys(r, x);
    if HasKey(r, x) {
      var p :| 0 <= p < |r| && r[p].0 == x;
      NestedAt(r, p);
    }
  }

  /** A column entry within the longest list has at least the field of that list. */
  lemma ColumnNonEmpty(data: Collected, i: nat)
    requires UniqueKeys(data) && i < MaxLen(data)
    ensures Column(data, i) != []
  {
    var p :| 0 <= p < |data| && |data[p].1| == MaxLen(data);
    ColumnFields(data, i, data[p].0);
    assert GetOr(data, data[p].0, []) == data[p].1;
  }

  /**
    Columns as entries, end to end: record i of the data array is the nesting
    of column entry i, for every i below the length of the longest list.
   */
  lemma DataArrayColumns(raw: Grid, format: Format, i: int)
    requires !RowsAreEntries(format)
    ensures var r := ColumnEntries(format, raw);
      Get(DataArray(raw, format), i) == if 0 <= i < |r| then Some(NestEntry(r[i].1)) else None
  {
    var data := CollectFields(format, raw);
    var r := ColumnEntries(format, raw);
    TransposeAt(data, 0);
    assert UniqueKeys(r);
    NestedKeys(r, i);
    if 0 <= i < |r| {
      ColumnNonEmpty(data, i);
      NestedAt(r, i);
    }
  }

  // ---------------------------------------------------------------------------
  // The component's loops.

  /** `rowsToEntries`: the `$cont` counter advances for every row. */
  method RowsToEntries(raw: Grid, format: Format) returns (entries: Entries)
    ensures entries == RowEntries(format, raw)
  {
    entries := [];
    var cont := 0;
    for i := 0 to |raw|
      invariant cont == i
      invariant entries == RowEntries(format, raw[..i])
    {
      var (k, row) := raw[i];
      assert raw[..i + 1][..i] == raw[..i];
      RowEntriesIndices(format, raw[..i]);
      ghost var prev := entries;
      assert !HasKey(prev, cont);
      for j := 0 to |row|
        invariant entries == prev + (if RowEntry(format, row[..j]) == [] then [] else [(cont, RowEntry(format, row[..j]))])
      {
        var (col, cell) := row[j];
        RowStep(prev, cont, format, row, j);
        var field := Get(format, StrKey(col));
        if field.Some? {
          entries := Put(entries, cont, Put(GetOr(entries, cont, []), field.value, cell));
        }
      }
      assert row[..|row|] == row;
      cont := cont + 1;
    }
    assert raw[..|raw|] == raw;
  }

  /** The first loop of `columnsToEntries`: `$data[$format[$k]][] = $valor` for every cell of a mapped row. */
  method CollectColumns(raw: Grid, format: Format) returns (data: Collected)
    ensures data == CollectFields(format, raw)
  {
    data := [];
    for i := 0 to |raw|
      invariant data == CollectFields(format, raw[..i])
    {
      var (k, row) := raw[i];
      assert raw[..i + 1][..i] == raw[..i];
      ghost var prev := data;
      ghost var mapped := Get(format, IntKey(k));
      for j := 0 to |row|
        invariant data == if mapped.None? || j == 0 then prev
          else Put(prev, mapped.value, GetOr(prev, mapped.value, []) + Values(row[..j]))
      {
        var (col, valor) := row[j];
        var field := Get(format, IntKey(k));
        if field.Some? {
          CollectStep(prev, field.value, row, j);
          data := Put(data, field.value, GetOr(data, field.value, []) + [valor]);
        }
      }
      assert row[..|row|] == row;
    }
    assert raw[..|raw|] == raw;
  }

  /** The second loop of `columnsToEntries`: `$retorno[$index][$campo] = $valor`. */
  method TransposeColumns(data: Collected) returns (retorno: Entries)
    requires UniqueKeys(data)
    ensures retorno == Transpose(data)
  {
    retorno := [];
    for a := 0 to |data|
      invariant retorno == Transpose(data[..a])
    {
      var (campo, valores) := data[a];
      assert data[..a + 1] == data[..a] + [(campo, valores)];
      assert !HasKey(data[..a], campo) by {
        forall p | 0 <= p < a ensures data[..a][p].0 != campo {
          assert data[..a][p] == data[p];
        }
      }
      assert valores[..0] == [];
      TransposeEmptyField(data[..a], campo);
      for b := 0 to |valores|
        invariant retorno == Transpose(data[..a] + [(campo, valores[..b])])
      {
        TransposeStep(data[..a], campo, valores, b);
        retorno := Put(retorno, b, Put(GetOr(retorno, b, []), campo, valores[b]));
      }
      assert valores[..|valores|] == valores;
    }
    assert data[..|data|] == data;
  }

  /**
    `columnsToEntries`: collect each mapped row's values under its field, then
    give entry i the i-th value of every field. Lists of unequal length are not
    checked: a field with fewer values is missing from the later entries.
   */
  method ColumnsToEntries(raw: Grid, format: Format) returns (retorno: Entries)
    ensures retorno == ColumnEntries(format, raw)
  {
    var data := CollectColumns(raw, format);
    retorno := TransposeColumns(data);
  }

  /** `dotNotationToDataArray`: `$retorno[$x][$model][$field] = $value` for every flat key. */
  method DotNotationToDataArray(entries: Entries) returns (retorno: Records)
    requires UniqueKeys(entries)
    ensures retorno == Nested(entries)
  {
    retorno := [];
    for p := 0 to |entries|
      invariant retorno == Nested(entries[..p])
    {
      var (x, row) := entries[p];
      assert entries[..p + 1][..p] == entries[..p];
      NestedKeys(entries[..p], x);
      assert !HasKey(entries[..p], x) by {
        forall q | 0 <= q < p ensures entries[..p][q].0 != x {
          assert entries[..p][q] == entries[q];
        }
      }
      ghost var prev := retorno;
      for q := 0 to |row|
        invariant retorno == prev + (if q == 0 then [] else [(x, NestEntry(row[..q]))])
      {
        var (key, value) := row[q];
        NestStep(prev, x, row, q);
        retorno := Put(retorno, x, Assign(GetOr(retorno, x, []), key, value));
      }
      assert row[..|row|] == row;
    }
    assert entries[..|entries|] == entries;
  }

  /** `rawArrayToDataArray`: rows as entries when the first format key is not numeric, then nesting. */
  method RawArrayToDataArray(raw: Grid, format: Format) returns (r: Records)
    ensures r == DataArray(raw, format)
  {
    var entries: Entries;
    if RowsAreEntries(format) {
      entries := RowsToEntries(raw, format);
      RowEntriesIndices(format, raw);
    } else {
      entries := ColumnsToEntries(raw, format);
      assert Dense(entries);
    }
    r := DotNotationToDataArray(entries);
  }
}

/**
  The cell search of `findInActiveSheet`: scan one grid row by row, cell by
  cell, test the search terms against each cell and record at most one hit
  per cell; then answer in one of the modes 'all', 'first' or 'count'.
 */
module CellSearch {
  import opened PhpArray
  import opened Worksheet

  /** `$type`: 'first' and 'count' are recognised; any other value behaves as 'all'. */
  datatype FindType = All | First | Count

  /** `$conditions['text']`: one search term, or a list of them. */
  datatype Text = OneTerm(term: string) | ManyTerms(terms: seq<string>)

  /** `$conditions`; an absent or falsy 'case_sensitive' is `false`. */
  datatype Conditions = Conditions(text: Text, caseSensitive: bool)

  /** A single term is wrapped into a one-element list. */
  function Terms(c: Conditions): seq<string> {
    match c.text
    case OneTerm(t) => [t]
    case ManyTerms(ts) => ts
  }

  /**
    The regular-expression engine: `m(pattern, subject)` stands for
    `preg_match(pattern, subject) == 1`. An invalid pattern, for which
    preg_match returns false, is a pattern that matches nothing.
   */
  type Matcher = (string, string) -> bool

  /** The term is put between '/' delimiters as it is, without escaping. */
  function Delimited(term: string): string {
    "/" + term + "/"
  }

  /** One term against one cell; both are lowered unless the search is case sensitive. */
  predicate TermMatches(m: Matcher, caseSensitive: bool, term: string, cell: string) {
    if caseSensitive then m(Delimited(term), cell)
    else m(Delimited(Lower(term)), Lower(cell))
  }

  /** A cell matches when ANY of the terms matches it. */
  predicate CellMatches(m: Matcher, c: Conditions, cell: string) {
    exists k :: 0 <= k < |Terms(c)| && TermMatches(m, c.caseSensitive, Terms(c)[k], cell)
  }

  /** `array("row" => ..., "col" => ..., "cell" => ...)`: the cell keeps its original case. */
  datatype Hit = Hit(row: int, col: Label, cell: string)

  /** The hits of one row, in column order. */
  function RowHits(m: Matcher, c: Conditions, rowNum: int, cells: Cells): seq<Hit> {
    if cells == [] then []
    else
      var (col, cell) := cells[|cells| - 1];
      RowHits(m, c, rowNum, cells[..|cells| - 1])
        + (if CellMatches(m, c, cell) then [Hit(rowNum, col, cell)] else [])
  }

  /** The hits of a grid, in row-then-column scan order. */
  function GridHits(m: Matcher, c: Conditions, g: Grid): seq<Hit> {
    if g == [] then []
    else GridHits(m, c, g[..|g| - 1]) + RowHits(m, c, g[|g| - 1].0, g[|g| - 1].1)
  }

  /**
    What `findInActiveSheet` returns: the list of hits, a count, or `false`
    (NotFound).
   */
  datatype FindResult = Hits(hits: seq<Hit>) | Number(n: nat) | NotFound

  /** The answer of one sheet's scan for each mode. */
  function SearchGrid(m: Matcher, c: Conditions, mode: FindType, g: Grid): FindResult {
    var hits := GridHits(m, c, g);
    match mode
    case Count => Number(|hits|)
    case First => if hits == [] then NotFound else Hits([hits[0]])
    case All => if hits == [] then NotFound else Hits(hits)
  }

  // ---------------------------------------------------------------------------
  // Cells by position: an independent description of what the scan finds.

  /** (row index, cell index) of a cell of the grid. */
  type Pos = (int, int)

  /** Scan order: row first, then column. */
  predicate Before(p: Pos, q: Pos) {
    p.0 < q.0 || (p.0 == q.0 && p.1 < q.1)
  }

  predicate InGrid(g: Grid, p: Pos) {
    0 <= p.0 < |g| && 0 <= p.1 < |g[p.0].1|
  }

  predicate MatchesAt(m: Matcher, c: Conditions, g: Grid, p: Pos) {
    InGrid(g, p) && CellMatches(m, c, g[p.0].1[p.1].1)
  }

  function HitAt(g: Grid, p: Pos): Hit
    requires InGrid(g, p)
  {
    Hit(g[p.0].0, g[p.0].1[p.1].0, g[p.0].1[p.1].1)
  }

  /** Every cell where some term matches. */
  ghost function MatchingCells(m: Matcher, c: Conditions, g: Grid): set<Pos> {
    set i, j | 0 <= i < |g| && 0 <= j < |g[i].1| && CellMatches(m, c, g[i].1[j].1) :: (i, j)
  }

  /** A matching cell that no other matching cell precedes in scan order. */
  ghost predicate EarliestMatch(m: Matcher, c: Conditions, g: Grid, p: Pos) {
    MatchesAt(m, c, g, p) && forall q :: MatchesAt(m, c, g, q) ==> !Before(q, p)
  }

  ghost function RowPositions(m: Matcher, c: Conditions, i: int, cells: Cells): seq<Pos> {
    if cells == [] then []
    else
      RowPositions(m, c, i, cells[..|cells| - 1])
        + (if CellMatches(m, c, cells[|cells| - 1].1) then [(i, |cells| - 1)] else [])
  }

  /** The positions of the hits, in the order the scan records them. */
  ghost function MatchPositions(m: Matcher, c: Conditions, g: Grid): seq<Pos> {
    if g == [] then []
    else MatchPositions(m, c, g[..|g| - 1]) + RowPositions(m, c, |g| - 1, g[|g| - 1].1)
  }

  lemma {:induction false} RowPositionsAreRowHits(m: Matcher, c: Conditions, i: int, rowNum: int, cells: Cells)
    ensures var P := RowPositions(m, c, i, cells); var H := RowHits(m, c, rowNum, cells);
      && |P| == |H|
      && (forall k :: 0 <= k < |P| ==>
            P[k].0 == i && 0 <= P[k].1 < |cells| && H[k] == Hit(rowNum, cells[P[k].1].0, cells[P[k].1].1))
      && (forall k, l :: 0 <= k < l < |P| ==> P[k].1 < P[l].1)
      && (forall j :: (i, j) in P <==> 0 <= j < |cells| && CellMatches(m, c, cells[j].1))
      && (forall p :: p in P ==> p.0 == i)
  {
    if cells != [] {
      var n := |cells|;
      var front := cells[..n - 1];
      RowPositionsAreRowHits(m, c, i, rowNum, front);
      forall j | 0 <= j < n - 1 ensures front[j] == cells[j] { }
      var hit := CellMatches(m, c, cells[n - 1].1);
      assert RowPositions(m, c, i, cells)
        == RowPositions(m, c, i, front) + (if hit then [(i, n - 1)] else []);
      assert RowHits(m, c, rowNum, cells)
        == RowHits(m, c, rowNum, front) + (if hit then [Hit(rowNum, cells[n - 1].0, cells[n - 1].1)] else []);
    }
  }

  /**
    The scan records exactly the matching cells, each once, in strictly
    increasing scan order, and each hit carries the cell's row number, column
    label and original text.
   */
  lemma {:induction false} MatchPositionsAreGridHits(m: Matcher, c: Conditions, g: Grid)
    ensures var P := MatchPositions(m, c, g); var H := GridHits(m, c, g);
      && |P| == |H|
      && (forall k :: 0 <= k < |P| ==> InGrid(g, P[k]) && H[k] == HitAt(g, P[k]))
      && (forall k, l :: 0 <= k < l < |P| ==> Before(P[k], P[l]))
      && (forall p :: p in P <==> MatchesAt(m, c, g, p))
  {
    if g != [] {
      var n := |g|;
      var front := g[..n - 1];
      MatchPositionsAreGridHits(m, c, front);
      RowPositionsAreRowHits(m, c, n - 1, g[n - 1].0, g[n - 1].1);
      forall i | 0 <= i < n - 1 ensures front[i] == g[i] { }
      var P0 := MatchPositions(m, c, front);
      var R := RowPositions(m, c, n - 1, g[n - 1].1);
      assert MatchPositions(m, c, g) == P0 + R;
      forall p | MatchesAt(m, c, g, p) ensures p in P0 + R {
        if p.0 < n - 1 {
          assert MatchesAt(m, c, front, p);
        } else {
          assert (n - 1, p.1) in R;
        }
      }
      forall p | p in P0 + R ensures MatchesAt(m, c, g, p) {
        if p in P0 {
          assert MatchesAt(m, c, front, p);
        } else {
          assert p.0 == n - 1 && (n - 1, p.1) in R;
        }
      }
    }
  }

  lemma MatchingCellsAreMatchPositions(m: Matcher, c: Conditions, g: Grid)
    ensures MatchingCells(m, c, g) == set p | p in MatchPositions(m, c, g)
  {
    MatchPositionsAreGridHits(m, c, g);
    var P := MatchPositions(m, c, g);
    forall p | p in MatchingCells(m, c, g) ensures p in P {
      assert MatchesAt(m, c, g, p);
    }
  }

  lemma {:induction false} DistinctCardinality<T>(s: seq<T>)
    requires forall i, j :: 0 <= i < j < |s| ==> s[i] != s[j]
    ensures |set x | x in s| == |s|
  {
    if s != [] {
      var front := s[..|s| - 1];
      DistinctCardinality(front);
      assert (set x | x in s) == (set x | x in front) + {s[|s| - 1]};
      assert s[|s| - 1] !in (set x | x in front);
    }
  }

  // ---------------------------------------------------------------------------
  // What the three modes return.

  /** 'count' is the number of cells where some term matches (not the number of matching terms). */
  lemma CountIsNumberOfMatchingCells(m: Matcher, c: Conditions, g: Grid)
    ensures SearchGrid(m, c, Count, g) == Number(|MatchingCells(m, c, g)|)
  {
    MatchPositionsAreGridHits(m, c, g);
    MatchingCellsAreMatchPositions(m, c, g);
    var P := MatchPositions(m, c, g);
    forall i, j | 0 <= i < j < |P| ensures P[i] != P[j] {
      assert Before(P[i], P[j]);
    }
    DistinctCardinality(P);
  }

  /** No matching cell gives `false` for 'all' and 'first' and 0 for 'count', and only then. */
  lemma NotFoundIffNoMatch(m: Matcher, c: Conditions, mode: FindType, g: Grid)
    ensures SearchGrid(m, c, mode, g) == NotFound <==> mode != Count && MatchingCells(m, c, g) == {}
    ensures SearchGrid(m, c, Count, g) == Number(0) <==> MatchingCells(m, c, g) == {}
  {
    CountIsNumberOfMatchingCells(m, c, g);
  }

  /**
    'first' returns a one-element list holding the earliest matching cell in
    scan order, with its original text.
   */
  lemma FirstIsEarliestMatch(m: Matcher, c: Conditions, g: Grid)
    ensures (exists q :: MatchesAt(m, c, g, q)) ==>
      exists p :: EarliestMatch(m, c, g, p) && SearchGrid(m, c, First, g) == Hits([HitAt(g, p)])
    ensures forall p :: EarliestMatch(m, c, g, p) ==> SearchGrid(m, c, First, g) == Hits([HitAt(g, p)])
  {
    MatchPositionsAreGridHits(m, c, g);
    var P := MatchPositions(m, c, g);
    if q :| MatchesAt(m, c, g, q) {
      assert q in P;
      var p := P[0];
      forall q' | MatchesAt(m, c, g, q') ensures !Before(q', p) {
        assert q' in P;
        var l :| 0 <= l < |P| && P[l] == q';
        if l > 0 {
          assert Before(p, q');
        }
      }
      assert EarliestMatch(m, c, g, p);
    }
    forall p | EarliestMatch(m, c, g, p) ensures SearchGrid(m, c, First, g) == Hits([HitAt(g, p)]) {
      assert p in P;
      var k :| 0 <= k < |P| && P[k] == p;
      assert k == 0;
    }
  }

  /** 'all' lists every matching cell once, in scan order; `false` when there is none. */
  lemma AllIsEveryMatchInScanOrder(m: Matcher, c: Conditions, g: Grid)
    ensures var P := MatchPositions(m, c, g);
      && (forall k, l :: 0 <= k < l < |P| ==> Before(P[k], P[l]))
      && (forall p :: p in P <==> MatchesAt(m, c, g, p))
      && (forall k :: 0 <= k < |P| ==> InGrid(g, P[k]))
      && SearchGrid(m, c, All, g) ==
           if P == [] then NotFound
           else Hits(seq(|P|, k requires 0 <= k < |P| => HitAt(g, P[k])))
  {
    MatchPositionsAreGridHits(m, c, g);
  }

  // ---------------------------------------------------------------------------
  // The scan itself.

  lemma {:induction false} RowHitsPrefix(m: Matcher, c: Conditions, rowNum: int, cells: Cells, j: nat)
    requires j <= |cells|
    ensures RowHits(m, c, rowNum, cells[..j]) <= RowHits(m, c, rowNum, cells)
    decreases |cells| - j
  {
    if j < |cells| {
      var front := cells[..|cells| - 1];
      assert front[..j] == cells[..j];
      RowHitsPrefix(m, c, rowNum, front, j);
    } else {
      assert cells[..j] == cells;
    }
  }

  lemma {:induction false} GridHitsPrefix(m: Matcher, c: Conditions, g: Grid, i: nat)
    requires i <= |g|
    ensures GridHits(m, c, g[..i]) <= GridHits(m, c, g)
    decreases |g| - i
  {
    if i < |g| {
      var front := g[..|g| - 1];
      assert front[..i] == g[..i];
      GridHitsPrefix(m, c, front, i);
    } else {
      assert g[..i] == g;
    }
  }

  /**
    `findInActiveSheet` on a grid: the nested loops over rows, cells and terms,
    the `break` after the first matching term and the early return in 'first'
    mode.
   */
  method FindInGrid(m: Matcher, c: Conditions, mode: FindType, g: Grid) returns (r: FindResult)
    ensures r == SearchGrid(m, c, mode, g)
  {
    var terms := Terms(c);
    var found: seq<Hit> := [];
    for i := 0 to |g|
      invariant found == GridHits(m, c, g[..i])
      invariant mode == First ==> found == []
    {
      var (rowNum, row) := g[i];
      assert g[..i + 1][..i] == g[..i];
      for j := 0 to |row|
        invariant found == GridHits(m, c, g[..i]) + RowHits(m, c, rowNum, row[..j])
        invariant mode == First ==> found == []
      {
        var (col, cell) := row[j];
        assert row[..j + 1][..j] == row[..j];
        for k := 0 to |terms|
          invariant found == GridHits(m, c, g[..i]) + RowHits(m, c, rowNum, row[..j])
          invariant forall k' :: 0 <= k' < k ==> !TermMatches(m, c.caseSensitive, terms[k'], cell)
        {
          var text, cellVal;
          if c.caseSensitive {
            text, cellVal := terms[k], cell;
          } else {
            text, cellVal := Lower(terms[k]), Lower(cell);
          }
          if m(Delimited(text), cellVal) {
            assert TermMatches(m, c.caseSensitive, terms[k], cell);
            found := found + [Hit(rowNum, col, cell)];
            if mode == First {
              RowHitsPrefix(m, c, rowNum, row, j + 1);
              GridHitsPrefix(m, c, g, i + 1);
              return Hits(found);
            }
            break;
          }
        }
      }
      assert row[..|row|] == row;
    }
    assert g[..|g|] == g;
    if found == [] {
      r := if mode == Count then Number(0) else NotFound;
    } else if mode == Count {
      r := Number(|found|);
    } else {
      r := Hits(found);
    }
  }
}

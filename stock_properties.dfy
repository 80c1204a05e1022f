/**
 * What parse() of main/stock.c guarantees about a slot, proved about the
 * functions that specify its loops: which column it reads, which cells of
 * it, where each price lands, and the bounds it reports.
 */
module StockProperties {
  import opened CStrings
  import opened StockSeries

  // ---------------------------------------------------------------------------
  // Placement of the series

  /** The series in reverse order. */
  function Reverse(ps: seq<int>): (r: seq<int>)
    ensures |r| == |ps|
    decreases |ps|
  {
    if ps == [] then [] else Reverse(ps[1..]) + [ps[0]]
  }

  /** Reverse puts the r-th element at index |ps| - 1 - r. */
  lemma {:induction false} ReverseAt(ps: seq<int>)
    ensures forall r :: 0 <= r < |ps| ==> Reverse(ps)[|ps| - 1 - r] == ps[r]
    decreases |ps|
  {
    if ps != [] {
      ReverseAt(ps[1..]);
      forall r | 0 <= r < |ps|
        ensures Reverse(ps)[|ps| - 1 - r] == ps[r]
      {
        if r > 0 {
          assert ps[1..][r - 1] == ps[r];
        }
      }
    }
  }

  /** One element of the placed series. */
  lemma PlaceAt(prev: seq<int>, ps: seq<int>, k: nat)
    requires |prev| == TIMESERIES_LEN && |ps| <= TIMESERIES_LEN && k < TIMESERIES_LEN
    ensures Place(prev, ps)[k] == if TIMESERIES_LEN - 1 - k < |ps| then ps[TIMESERIES_LEN - 1 - k] else prev[k]
  {
  }

  /**
   * The r-th price read lands at TIMESERIES_LEN - 1 - r, so the series ends
   * oldest first with the prices of this call in reverse; the slots in
   * front of them keep the previous values.
   */
  lemma Placement(prev: seq<int>, ps: seq<int>)
    requires |prev| == TIMESERIES_LEN && |ps| <= TIMESERIES_LEN
    ensures forall r :: 0 <= r < |ps| ==> Place(prev, ps)[TIMESERIES_LEN - 1 - r] == ps[r]
    ensures forall k :: 0 <= k < TIMESERIES_LEN - |ps| ==> Place(prev, ps)[k] == prev[k]
    ensures Place(prev, ps)[TIMESERIES_LEN - |ps|..] == Reverse(ps)
  {
    var q, n := Place(prev, ps), TIMESERIES_LEN - |ps|;
    forall r | 0 <= r < |ps|
      ensures q[TIMESERIES_LEN - 1 - r] == ps[r]
    {
      PlaceAt(prev, ps, TIMESERIES_LEN - 1 - r);
    }
    forall k | 0 <= k < n
      ensures q[k] == prev[k]
    {
      PlaceAt(prev, ps, k);
    }
    ReverseAt(ps);
    forall k | 0 <= k < |ps|
      ensures q[n..][k] == Reverse(ps)[k]
    {
      PlaceAt(prev, ps, n + k);
    }
  }

  // ---------------------------------------------------------------------------
  // price_min and price_max

  /**
   * price_min is the least of INT_MAX and the prices read, and price_max the
   * greatest of 0 and the prices read: each bounds every price and is one
   * of them or its starting value.
   */
  lemma {:induction false} Bounds(ps: seq<int>)
    ensures Low(ps) <= INT_MAX && (Low(ps) == INT_MAX || Low(ps) in ps)
    ensures High(ps) >= 0 && (High(ps) == 0 || High(ps) in ps)
    ensures forall r :: 0 <= r < |ps| ==> Low(ps) <= ps[r] <= High(ps)
    decreases |ps|
  {
    if ps != [] {
      var init := ps[..|ps| - 1];
      Bounds(init);
      assert forall r :: 0 <= r < |init| ==> init[r] == ps[r];
      assert forall x :: x in init ==> x in ps;
    }
  }

  // ---------------------------------------------------------------------------
  // The cells the row loop reads

  /** Where the cell at i ends: at the next comma, line break or the terminator. */
  function CellEnd(s: seq<char>, i: nat): (e: nat)
    requires Terminated(s) && i < |s|
    ensures i <= e < |s| && (s[e] == NUL || s[e] == ',' || s[e] == '\n')
    decreases |s| - i
  {
    if s[i] == NUL || s[i] == ',' || s[i] == '\n' then i else CellEnd(s, i + 1)
  }

  /**
   * The reference reading of the data rows: every cell of column `col` from
   * position i on (in column colN), whole and in row order, with no bound on
   * their number or their length.
   */
  function Column(s: seq<char>, i: nat, colN: nat, col: int): seq<seq<char>>
    requires Terminated(s) && i < |s|
    decreases |s| - i
  {
    if s[i] == NUL then []
    else if s[i] == ',' then Column(s, i + 1, colN + 1, col)
    else if s[i] == '\n' then Column(s, i + 1, 0, col)
    else if colN == col then [s[i..CellEnd(s, i)]] + Column(s, CellEnd(s, i), colN, col)
    else Column(s, i + 1, colN, col)
  }

  /** The cells of the price column of a payload. */
  function Cells(s: seq<char>): seq<seq<char>>
    requires Terminated(s)
  {
    Column(s, HeaderOf(s).end, 0, HeaderOf(s).col)
  }

  /** Whether one of the first n + 1 cells has PRICE_LEN characters or more, so that copying it overflows price_buf. */
  predicate LongCell(cells: seq<seq<char>>, n: nat) {
    exists r :: 0 <= r < |cells| && r <= n && |cells[r]| >= PRICE_LEN
  }

  /** The first n cells, or all of them when there are fewer. */
  function Take(cells: seq<seq<char>>, n: nat): (t: seq<seq<char>>)
    ensures |t| <= n && t <= cells
    ensures |cells| <= n ==> t == cells
  {
    if |cells| <= n then cells else cells[..n]
  }

  /** The bounded copy stops at the end of the cell, or after PRICE_LEN - j characters of a longer one. */
  lemma {:induction false} FieldOfCell(s: seq<char>, i: nat, j: nat)
    requires Terminated(s) && i < |s| && j <= PRICE_LEN
    ensures FieldEnd(s, i, j) == if CellEnd(s, i) - i < PRICE_LEN - j then CellEnd(s, i) else i + PRICE_LEN - j
    decreases |s| - i
  {
    if !(s[i] == NUL || s[i] == ',' || s[i] == '\n' || j == PRICE_LEN) {
      FieldOfCell(s, i + 1, j + 1);
    }
  }

  /** A long cell among the first n + 2 is the first cell or a long one among the n + 1 after it. */
  lemma LongCellStep(c: seq<char>, rest: seq<seq<char>>, n: nat)
    ensures LongCell([c] + rest, n + 1) <==> |c| >= PRICE_LEN || LongCell(rest, n)
    ensures LongCell([c] + rest, 0) <==> |c| >= PRICE_LEN
  {
    var cells := [c] + rest;
    if LongCell(rest, n) {
      var r :| 0 <= r < |rest| && r <= n && |rest[r]| >= PRICE_LEN;
      assert cells[r + 1] == rest[r];
    }
    if LongCell(cells, n + 1) && |c| < PRICE_LEN {
      var r :| 0 <= r < |cells| && r <= n + 1 && |cells[r]| >= PRICE_LEN;
      assert rest[r - 1] == cells[r];
    }
    if |c| >= PRICE_LEN {
      assert cells[0] == c;
    }
  }

  /**
   * The row loop from i reads the first cells of the column: it overflows
   * exactly when one of the next 31 - |done| cells is too long for
   * price_buf, and otherwise records the first 30 - |done| of them.
   */
  lemma {:induction false} RowsReadColumn(s: seq<char>, i: nat, colN: nat, col: int, done: seq<seq<char>>)
    requires Terminated(s) && i < |s| && |done| <= TIMESERIES_LEN
    ensures ScanRows(s, i, colN, col, done).overflow == LongCell(Column(s, i, colN, col), TIMESERIES_LEN - |done|)
    ensures !ScanRows(s, i, colN, col, done).overflow ==>
      ScanRows(s, i, colN, col, done).fields == done + Take(Column(s, i, colN, col), TIMESERIES_LEN - |done|)
    decreases |s| - i
  {
    if s[i] == NUL {
    } else if s[i] == ',' {
      RowsReadColumn(s, i + 1, colN + 1, col, done);
    } else if s[i] == '\n' {
      RowsReadColumn(s, i + 1, 0, col, done);
    } else if colN == col {
      RowTurn(s, i, colN, col, done);
    } else {
      RowsReadColumn(s, i + 1, colN, col, done);
    }
  }

  /** The inductive step of RowsReadColumn on a cell of the price column. */
  lemma {:induction false} RowTurn(s: seq<char>, i: nat, colN: nat, col: int, done: seq<seq<char>>)
    requires Terminated(s) && i < |s| && |done| <= TIMESERIES_LEN
    requires s[i] != NUL && s[i] != ',' && s[i] != '\n' && colN == col
    ensures ScanRows(s, i, colN, col, done).overflow == LongCell(Column(s, i, colN, col), TIMESERIES_LEN - |done|)
    ensures !ScanRows(s, i, colN, col, done).overflow ==>
      ScanRows(s, i, colN, col, done).fields == done + Take(Column(s, i, colN, col), TIMESERIES_LEN - |done|)
    decreases |s| - i, 0
  {
    var c := CellEnd(s, i);
    var cell, rest := s[i..c], Column(s, c, colN, col);
    assert Column(s, i, colN, col) == [cell] + rest;
    FieldOfCell(s, i, 0);
    if |done| == TIMESERIES_LEN {
      LongCellStep(cell, rest, 0);
    } else {
      LongCellStep(cell, rest, TIMESERIES_LEN - |done| - 1);
      if c - i < PRICE_LEN {
        RowsReadColumn(s, c, colN, col, done + [cell]);
        var n := TIMESERIES_LEN - |done|;
        if !ScanRows(s, c, colN, col, done + [cell]).overflow {
          assert Take([cell] + rest, n) == [cell] + Take(rest, n - 1);
        }
      }
    }
  }

  /**
   * What parse() reads from a payload: the first 30 cells of the price
   * column, unless one of the first 31 is too long for price_buf, and none
   * at all when no header matches "close".
   */
  lemma ReadsPriceColumn(s: seq<char>)
    requires Terminated(s)
    ensures Series(s).overflow == LongCell(Cells(s), TIMESERIES_LEN)
    ensures !Series(s).overflow ==> Series(s).fields == Take(Cells(s), TIMESERIES_LEN)
    ensures HeaderOf(s).col < 0 ==> Series(s) == Rows([], false)
  {
    RowsReadColumn(s, HeaderOf(s).end, 0, HeaderOf(s).col, []);
    if HeaderOf(s).col < 0 {
      NoColumn(s, HeaderOf(s).end, 0, HeaderOf(s).col);
    }
  }

  /** A negative price_col never equals a column number: the reference reads no cell. */
  lemma {:induction false} NoColumn(s: seq<char>, i: nat, colN: nat, col: int)
    requires Terminated(s) && i < |s| && col < 0
    ensures Column(s, i, colN, col) == []
    decreases |s| - i
  {
    if s[i] == NUL {
    } else if s[i] == ',' {
      NoColumn(s, i + 1, colN + 1, col);
    } else if s[i] == '\n' {
      NoColumn(s, i + 1, 0, col);
    } else {
      NoColumn(s, i + 1, colN, col);
    }
  }

  /** A cell of the column is not empty and holds no separator and no terminator. */
  predicate Cell(c: seq<char>) {
    |c| > 0 && forall k :: 0 <= k < |c| ==> c[k] != NUL && c[k] != ',' && c[k] != '\n'
  }

  /** Every cell the reference reads is a cell. */
  lemma {:induction false} ColumnCells(s: seq<char>, i: nat, colN: nat, col: int)
    requires Terminated(s) && i < |s|
    ensures forall r :: 0 <= r < |Column(s, i, colN, col)| ==> Cell(Column(s, i, colN, col)[r])
    decreases |s| - i
  {
    if s[i] == NUL {
    } else if s[i] == ',' {
      ColumnCells(s, i + 1, colN + 1, col);
    } else if s[i] == '\n' {
      ColumnCells(s, i + 1, 0, col);
    } else if colN == col {
      var c := CellEnd(s, i);
      CellText(s, i);
      ColumnCells(s, c, colN, col);
    } else {
      ColumnCells(s, i + 1, colN, col);
    }
  }

  /** The text from a cell's start to its end is a cell. */
  lemma {:induction false} CellText(s: seq<char>, i: nat)
    requires Terminated(s) && i < |s| && s[i] != NUL && s[i] != ',' && s[i] != '\n'
    ensures Cell(s[i..CellEnd(s, i)])
    decreases |s| - i
  {
    var c := CellEnd(s, i);
    if s[i + 1] != NUL && s[i + 1] != ',' && s[i + 1] != '\n' {
      CellText(s, i + 1);
      assert s[i..c] == [s[i]] + s[i + 1..c];
    }
  }

  /**
   * Every price text parse() converts is a whole cell of the price column,
   * between one and PRICE_LEN - 1 characters long, so that it fits
   * price_buf with its terminator.
   */
  lemma FieldsFit(s: seq<char>)
    requires Terminated(s) && !Series(s).overflow
    ensures forall r :: 0 <= r < |Series(s).fields| ==>
      Cell(Series(s).fields[r]) && |Series(s).fields[r]| < PRICE_LEN
  {
    ReadsPriceColumn(s);
    ColumnCells(s, HeaderOf(s).end, 0, HeaderOf(s).col);
    var cells := Cells(s);
    forall r | 0 <= r < |Series(s).fields|
      ensures Cell(Series(s).fields[r]) && |Series(s).fields[r]| < PRICE_LEN
    {
      assert Series(s).fields[r] == cells[r];
    }
  }

  /** The label is "<symbol>: <price text>" cut to NAME_LEN - 1 characters, the most the name buffer holds. */
  lemma LabelShape(sym: seq<char>, f: seq<char>)
    ensures Label(sym, f) <= sym + ": " + f
    ensures |Label(sym, f)| == if |sym| + 2 + |f| < NAME_LEN then |sym| + 2 + |f| else NAME_LEN - 1
  {
  }

  // ---------------------------------------------------------------------------
  // The header match

  /** The number of commas among the first k characters: the column of position k. */
  function Commas(s: seq<char>, k: nat): nat
    requires k <= |s|
  {
    if k == 0 then 0 else Commas(s, k - 1) + if s[k - 1] == ',' then 1 else 0
  }

  /** The first k characters with the commas taken out: the text the header match compares. */
  function Letters(s: seq<char>, k: nat): seq<char>
    requires k <= |s|
  {
    if k == 0 then [] else Letters(s, k - 1) + if s[k - 1] == ',' then [] else [s[k - 1]]
  }

  predicate EndsWith(t: seq<char>, w: seq<char>) {
    |w| <= |t| && t[|t| - |w|..] == w
  }

  /** A completed match of "close" ends at position p, in the column price_col names. */
  predicate MatchEndsAt(s: seq<char>, p: nat, col: int) {
    p < |s| && Commas(s, p) == col && EndsWith(Letters(s, p + 1), TAG)
  }

  /** Extending a matched prefix of the tag by its next letter. */
  lemma EndsWithNext(t: seq<char>, j: nat, c: char)
    requires j < |TAG| && EndsWith(t, TAG[..j]) && c == TAG[j]
    ensures EndsWith(t + [c], TAG[..j + 1])
  {
    assert (t + [c])[|t| + 1 - (j + 1)..] == t[|t| - j..] + [c];
  }

  /** When price_col is set, a completed match ends before position `end` in that column. */
  predicate Found(s: seq<char>, end: nat, col: int) {
    col >= 0 ==> exists p: nat :: p < end && MatchEndsAt(s, p, col)
  }

  /** A match found before `end` is found before any later position. */
  lemma FoundLater(s: seq<char>, end: nat, end': nat, col: int)
    requires Found(s, end, col) && end <= end'
    ensures Found(s, end', col)
  {
  }

  /** The step of the header loop over a letter, with the comma-free text extended by it. */
  lemma LetterStep(s: seq<char>, i: nat, j: nat, colN: nat, priceCol: int)
    requires i < |s| && j < |TAG| && s[i] == TAG[j] && s[i] != ',' && HeaderInvariant(s, i, j, colN, priceCol)
    ensures HeaderInvariant(s, i + 1, j + 1, colN, if j + 1 == |TAG| then colN else priceCol)
  {
    assert Letters(s, i + 1) == Letters(s, i) + [s[i]];
    EndsWithNext(Letters(s, i), j, s[i]);
    if j + 1 == |TAG| {
      assert MatchEndsAt(s, i, colN);
    } else {
      FoundLater(s, i, i + 1, priceCol);
    }
  }

  /** The invariant of the header loop at position i, with j letters matched, col_n commas seen and price_col so far. */
  predicate HeaderInvariant(s: seq<char>, i: nat, j: nat, colN: nat, priceCol: int)
    requires i <= |s|
  {
    j <= |TAG| && colN == Commas(s, i) && EndsWith(Letters(s, i), TAG[..j]) && Found(s, i, priceCol)
  }

  /** A comma moves to the next column and leaves the match as it is. */
  lemma CommaStep(s: seq<char>, i: nat, j: nat, colN: nat, priceCol: int)
    requires i < |s| && s[i] == ',' && HeaderInvariant(s, i, j, colN, priceCol)
    ensures HeaderInvariant(s, i + 1, j, colN + 1, priceCol)
  {
    assert Letters(s, i + 1) == Letters(s, i);
    FoundLater(s, i, i + 1, priceCol);
  }

  /** A character that does not continue the match starts it over. */
  lemma ResetStep(s: seq<char>, i: nat, j: nat, colN: nat, priceCol: int)
    requires i < |s| && s[i] != ',' && HeaderInvariant(s, i, j, colN, priceCol)
    ensures HeaderInvariant(s, i + 1, 0, colN, priceCol)
  {
    FoundLater(s, i, i + 1, priceCol);
  }

  /**
   * The header loop from position i keeps its invariant: j counts the
   * letters of "close" that end the comma-free text so far, col_n the
   * commas, and a price_col it sets is the column of a completed match.
   */
  lemma {:induction false} HeaderSoundFrom(s: seq<char>, i: nat, j: nat, colN: nat, priceCol: int)
    requires Terminated(s) && i < |s| && HeaderInvariant(s, i, j, colN, priceCol)
    ensures Found(s, ScanHeader(s, i, j, colN, priceCol).end, ScanHeader(s, i, j, colN, priceCol).col)
    decreases |s| - i, 1
  {
    if s[i] != NUL && s[i] != '\n' {
      HeaderSoundTurn(s, i, j, colN, priceCol);
    }
  }

  /** Where one turn of the header loop on a character of the header line leads. */
  lemma HeaderTurnLeads(s: seq<char>, i: nat, j: nat, colN: nat, priceCol: int, j': nat, colN': nat, priceCol': int)
    requires Terminated(s) && i < |s| && j <= |TAG| && s[i] != NUL && s[i] != '\n'
    requires s[i] == ',' ==> j' == j && colN' == colN + 1 && priceCol' == priceCol
    requires s[i] != ',' && j < |TAG| && s[i] == TAG[j] ==>
      j' == j + 1 && colN' == colN && priceCol' == if j + 1 == |TAG| then colN else priceCol
    requires s[i] != ',' && !(j < |TAG| && s[i] == TAG[j]) ==> j' == 0 && colN' == colN && priceCol' == priceCol
    ensures j' <= |TAG| && ScanHeader(s, i, j, colN, priceCol) == ScanHeader(s, i + 1, j', colN', priceCol')
  {
  }

  /** The inductive step of HeaderSoundFrom, on a character of the header line. */
  lemma {:induction false} HeaderSoundTurn(s: seq<char>, i: nat, j: nat, colN: nat, priceCol: int)
    requires Terminated(s) && i < |s| && HeaderInvariant(s, i, j, colN, priceCol) && s[i] != NUL && s[i] != '\n'
    ensures Found(s, ScanHeader(s, i, j, colN, priceCol).end, ScanHeader(s, i, j, colN, priceCol).col)
    decreases |s| - i, 0
  {
    var j', colN', priceCol' := 0, colN, priceCol;
    if s[i] == ',' {
      CommaStep(s, i, j, colN, priceCol);
      j', colN' := j, colN + 1;
    } else if j < |TAG| && s[i] == TAG[j] {
      LetterStep(s, i, j, colN, priceCol);
      j' := j + 1;
      priceCol' := if j + 1 == |TAG| then colN else priceCol;
    } else {
      ResetStep(s, i, j, colN, priceCol);
    }
    HeaderTurnLeads(s, i, j, colN, priceCol, j', colN', priceCol');
    HeaderSoundFrom(s, i + 1, j', colN', priceCol');
  }

  /**
   * A price column found in the header is sound: the header line holds the
   * letters of "close", commas between them ignored, ending in that column.
   */
  lemma HeaderSound(s: seq<char>)
    requires Terminated(s)
    ensures HeaderOf(s).col >= -1
    ensures HeaderOf(s).col >= 0 ==> exists p: nat :: p < HeaderOf(s).end && MatchEndsAt(s, p, HeaderOf(s).col)
  {
    assert HeaderInvariant(s, 0, 0, 0, -1);
    HeaderSoundFrom(s, 0, 0, 0, -1);
  }

  /** Without a 'c' the match never starts: the loop only counts commas up to position q. */
  lemma {:induction false} SkipQuiet(s: seq<char>, i: nat, q: nat, colN: nat, priceCol: int)
    requires Terminated(s) && i <= q < |s| && colN == Commas(s, i)
    requires forall k :: i <= k < q ==> s[k] != 'c' && s[k] != NUL && s[k] != '\n'
    ensures ScanHeader(s, i, 0, colN, priceCol) == ScanHeader(s, q, 0, Commas(s, q), priceCol)
    decreases q - i
  {
    if i < q {
      assert Commas(s, i + 1) == colN + if s[i] == ',' then 1 else 0;
      SkipQuiet(s, i + 1, q, Commas(s, i + 1), priceCol);
    }
  }

  /** "close" holds no separator and no terminator. */
  lemma TagLetters()
    ensures forall k :: 0 <= k < |TAG| ==> TAG[k] != ',' && TAG[k] != NUL && TAG[k] != '\n'
  {
  }

  /** The letters of "close" from its j-th on, at their positions from i = p + j: the match completes in the column of p. */
  lemma {:induction false} MatchRest(s: seq<char>, p: nat, i: nat, j: nat, e: nat, colN: nat, priceCol: int)
    requires Terminated(s) && j <= |TAG| && i == p + j && e == p + |TAG| && e < |s| && StartsWith(s, p, TAG)
    requires j == |TAG| ==> priceCol == colN
    ensures ScanHeader(s, i, j, colN, priceCol) == ScanHeader(s, e, |TAG|, colN, colN)
    decreases |TAG| - j
  {
    if j < |TAG| {
      TagLetters();
      assert s[i] == TAG[j];
      HeaderTurnLeads(s, i, j, colN, priceCol, j + 1, colN, if j + 1 == |TAG| then colN else priceCol);
      MatchRest(s, p, i + 1, j + 1, e, colN, if j + 1 == |TAG| then colN else priceCol);
    } else {
      assert i == e;
    }
  }

  /** Past a completed or abandoned match, a header without 'c' leaves price_col as it is. */
  lemma {:induction false} Settle(s: seq<char>, i: nat, j: nat, colN: nat, priceCol: int)
    requires Terminated(s) && i < |s| && (j == 0 || j == |TAG|)
    requires forall k :: i <= k < ScanHeader(s, i, j, colN, priceCol).end ==> s[k] != 'c'
    ensures ScanHeader(s, i, j, colN, priceCol).col == priceCol
    decreases |s| - i
  {
    if s[i] == NUL || s[i] == '\n' {
    } else if s[i] == ',' {
      Settle(s, i + 1, j, colN + 1, priceCol);
    } else {
      assert s[i] != TAG[0];
      Settle(s, i + 1, 0, colN, priceCol);
    }
  }

  /**
   * A header cell that reads "close" is found, in its own column, when no
   * other 'c' occurs in the header line.
   */
  lemma HeaderFindsCell(s: seq<char>, p: nat)
    requires Terminated(s) && p + |TAG| <= HeaderOf(s).end && StartsWith(s, p, TAG)
    requires forall k :: 0 <= k < HeaderOf(s).end && (k < p || p + |TAG| <= k) ==> s[k] != 'c'
    ensures HeaderOf(s).col == Commas(s, p)
  {
    SkipQuiet(s, 0, p, 0, -1);
    MatchThenSettle(s, p, Commas(s, p));
  }

  /** From the start of a "close" with no 'c' after it in the line, the loop ends with price_col at the column of the match. */
  lemma MatchThenSettle(s: seq<char>, p: nat, colN: nat)
    requires Terminated(s) && p + |TAG| < |s| && StartsWith(s, p, TAG)
    requires forall k :: p + |TAG| <= k < ScanHeader(s, p, 0, colN, -1).end ==> s[k] != 'c'
    ensures ScanHeader(s, p, 0, colN, -1).col == colN
  {
    MatchRest(s, p, p, 0, p + |TAG|, colN, -1);
    Settle(s, p + |TAG|, |TAG|, colN, colN);
  }

  // ---------------------------------------------------------------------------
  // The slot after parse()

  /**
   * What a slot holds after parse() read s: the r-th of the first 30 cells
   * of the price column, converted, at TIMESERIES_LEN - 1 - r, the slots
   * in front of them as before, bounds that hold every price of this call,
   * the reference price passed in, and a label that fits its buffer. With
   * no column matching "close" nothing but the reference and the default
   * bounds is written.
   */
  lemma ParsedSlot(it: StockItem, prev: seq<int>, prevName: seq<char>, s: seq<char>, sym: seq<char>,
                   price: int, cents: seq<char> -> int)
    requires Terminated(s) && !Series(s).overflow && |prev| == TIMESERIES_LEN
    requires Parsed(it, prev, prevName, s, sym, price, cents)
    ensures var cells := Take(Cells(s), TIMESERIES_LEN);
      && (forall r :: 0 <= r < |cells| ==> it.prices[..][TIMESERIES_LEN - 1 - r] == cents(cells[r]))
      && (forall k :: 0 <= k < TIMESERIES_LEN - |cells| ==> it.prices[..][k] == prev[k])
      && (forall r :: 0 <= r < |cells| ==> it.priceMin <= cents(cells[r]) <= it.priceMax)
    ensures it.priceRef == price
    ensures HeaderOf(s).col < 0 ==> it.prices[..] == prev && it.name == prevName && it.priceMin == INT_MAX && it.priceMax == 0
  {
    ReadsPriceColumn(s);
    var ps := Prices(cents, Series(s).fields);
    Placement(prev, ps);
    Bounds(ps);
    if HeaderOf(s).col < 0 {
      assert ps == [];
      assert it.prices[..] == prev by {
        forall k | 0 <= k < TIMESERIES_LEN
          ensures it.prices[..][k] == prev[k]
        {
          PlaceAt(prev, ps, k);
        }
      }
    }
  }

  // ---------------------------------------------------------------------------
  // Examples

  /**
   * A letter that breaks a match is not compared again: in "cclose" the
   * second 'c' resets the match instead of starting one, so no column is
   * found.
   */
  lemma NoRetestExample()
    ensures HeaderOf("cclose\n\0").col == -1
  {
    var s := "cclose\n\0";
    assert s[0] == 'c' && s[1] == 'c' && s[2] == 'l' && s[3] == 'o' && s[4] == 's' && s[5] == 'e' && s[6] == '\n';
    assert Terminated(s);
  }

  /** Commas inside the match are skipped: "clo,se" matches and names the column of its last letters. */
  lemma SplitMatchExample()
    ensures HeaderOf("clo,se\n\0").col == 1
  {
    var s := "clo,se\n\0";
    assert s[0] == 'c' && s[1] == 'l' && s[2] == 'o' && s[3] == ',' && s[4] == 's' && s[5] == 'e' && s[6] == '\n';
    assert Terminated(s);
  }

  /** Of two matches the later one wins. */
  lemma LastMatchExample()
    ensures HeaderOf("close,x,close\n\0").col == 2
  {
    var s := "close,x,close\n\0";
    assert s[0] == 'c' && s[1] == 'l' && s[2] == 'o' && s[3] == 's' && s[4] == 'e' && s[5] == ',' && s[6] == 'x';
    assert s[7] == ',' && s[8] == 'c' && s[9] == 'l' && s[10] == 'o' && s[11] == 's' && s[12] == 'e' && s[13] == '\n';
    assert Terminated(s);
    assert HeaderOf(s) == ScanHeader(s, 7, 0, 1, 0);
  }

  /**
   * After a completed match the next letter only resets it, and a comma
   * does not: a "close" cell right after another is not matched.
   */
  lemma AdjacentMatchExample()
    ensures HeaderOf("close,close\n\0").col == 0
  {
    var s := "close,close\n\0";
    assert s[0] == 'c' && s[1] == 'l' && s[2] == 'o' && s[3] == 's' && s[4] == 'e' && s[5] == ',';
    assert s[6] == 'c' && s[7] == 'l' && s[8] == 'o' && s[9] == 's' && s[10] == 'e' && s[11] == '\n';
    assert Terminated(s);
  }
}

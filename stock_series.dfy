/**
 * The close-price extractor of main/stock.c: parse() reads a CSV payload,
 * finds the column whose header matches "close", and stores the prices of
 * that column, row by row, oldest first into a 30-slot series of the
 * instrument slot the rotating static index points at; stock_get_item()
 * hands the eight slots out round-robin.
 *
 * atof(text) * 100 truncated to int is the parameter `cents`: a function
 * from the copied field text to an integer.
 */
module StockSeries {
  import opened Wrappers
  import opened CStrings
  import Cursor

  /** The size of an instrument's label buffer, its terminator included. */
  const NAME_LEN: nat := 15
  /** The size of price_buf. */
  const PRICE_LEN: nat := 10
  /** The length of every price series. */
  const TIMESERIES_LEN: nat := 30
  /** names_len: the number of configured instruments. */
  const NAMES_LEN: nat := 8
  /** INT_MAX of the target's 32-bit int, the starting price_min. */
  const INT_MAX: int := 0x7fff_ffff
  /** The header text parse() looks for. */
  const TAG: seq<char> := "close"

  // ---------------------------------------------------------------------------
  // The header row

  /** Where the header loop stops (at the first line break or the terminator) and the price_col it leaves. */
  datatype Header = Header(end: nat, col: int)

  /**
   * The header loop from position i, with j characters of "close" matched,
   * col_n commas seen and price_col so far. A comma counts a column and
   * leaves j alone; a character that continues the match advances j, and
   * completing it records the current column; any other character resets
   * j to 0 without being compared again.
   */
  function ScanHeader(s: seq<char>, i: nat, j: nat, colN: nat, priceCol: int): (h: Header)
    requires Terminated(s) && i < |s| && j <= |TAG|
    ensures i <= h.end < |s| && (s[h.end] == NUL || s[h.end] == '\n')
    ensures forall k :: i <= k < h.end ==> s[k] != NUL && s[k] != '\n'
    ensures h.col == priceCol || colN <= h.col
    decreases |s| - i
  {
    if s[i] == NUL || s[i] == '\n' then Header(i, priceCol)
    else if s[i] == ',' then ScanHeader(s, i + 1, j, colN + 1, priceCol)
    else if j < |TAG| && s[i] == TAG[j] then ScanHeader(s, i + 1, j + 1, colN, if j + 1 == |TAG| then colN else priceCol)
    else ScanHeader(s, i + 1, 0, colN, priceCol)
  }

  /** The header row of the payload, as parse() reads it from the start. */
  function HeaderOf(s: seq<char>): (h: Header)
    requires Terminated(s)
    ensures h.end < |s| && (s[h.end] == NUL || s[h.end] == '\n')
    ensures forall k :: 0 <= k < h.end ==> s[k] != NUL && s[k] != '\n'
    ensures h.col == -1 || 0 <= h.col
  {
    ScanHeader(s, 0, 0, 0, -1)
  }

  /** The header loop of parse(). */
  method HeaderLoop(s: seq<char>) returns (i: nat, priceCol: int)
    requires Terminated(s)
    ensures Header(i, priceCol) == HeaderOf(s)
  {
    var j, colN := 0, 0;
    i, priceCol := 0, -1;
    while s[i] != NUL && s[i] != '\n'
      invariant i < |s| && j <= |TAG|
      invariant ScanHeader(s, i, j, colN, priceCol) == HeaderOf(s)
      decreases |s| - i
    {
      if s[i] == ',' {
        colN := colN + 1;
        i := i + 1;
        continue;
      }
      if j < |TAG| && s[i] == TAG[j] {
        j := j + 1;
        if j == |TAG| {
          priceCol := colN;
        }
      } else {
        j := 0;
      }
      i := i + 1;
    }
  }

  // ---------------------------------------------------------------------------
  // The data rows

  /** The inner copy loop: where it stops from position i with j characters already in price_buf. */
  function FieldEnd(s: seq<char>, i: nat, j: nat): (e: nat)
    requires Terminated(s) && i < |s| && j <= PRICE_LEN
    ensures i <= e < |s| && e - i <= PRICE_LEN - j
    ensures forall k :: i <= k < e ==> s[k] != NUL && s[k] != ',' && s[k] != '\n'
    ensures e - i < PRICE_LEN - j ==> s[e] == NUL || s[e] == ',' || s[e] == '\n'
    decreases |s| - i
  {
    if s[i] == NUL || s[i] == ',' || s[i] == '\n' || j == PRICE_LEN then i else FieldEnd(s, i + 1, j + 1)
  }

  /**
   * What the row loop reads: the texts copied from the price column, in row
   * order, and whether a copy fills price_buf, so that its terminator is
   * written one past the buffer (undefined behaviour in C).
   */
  datatype Rows = Rows(fields: seq<seq<char>>, overflow: bool)

  /**
   * The row loop from position i in column col_n, with the fields of the
   * rows before it in `done`. A comma moves to the next column, a line break
   * to column 0 of the next row; in the price column the field is copied and
   * recorded, and a field met when thirty are recorded ends the loop.
   */
  function ScanRows(s: seq<char>, i: nat, colN: nat, priceCol: int, done: seq<seq<char>>): (r: Rows)
    requires Terminated(s) && i < |s| && |done| <= TIMESERIES_LEN
    ensures |done| <= |r.fields| <= TIMESERIES_LEN
    decreases |s| - i
  {
    if s[i] == NUL then Rows(done, false)
    else if s[i] == ',' then ScanRows(s, i + 1, colN + 1, priceCol, done)
    else if s[i] == '\n' then ScanRows(s, i + 1, 0, priceCol, done)
    else if colN == priceCol then
      var e := FieldEnd(s, i, 0);
      if e - i == PRICE_LEN then Rows(done, true)
      else if |done| < TIMESERIES_LEN then ScanRows(s, e, colN, priceCol, done + [s[i..e]])
      else Rows(done, false)
    else ScanRows(s, i + 1, colN, priceCol, done)
  }

  /** What parse() reads from a payload: the header, then the rows after it. */
  function Series(s: seq<char>): (r: Rows)
    requires Terminated(s)
    ensures |r.fields| <= TIMESERIES_LEN
  {
    var h := HeaderOf(s);
    ScanRows(s, h.end, 0, h.col, [])
  }

  /** The prices parse() computes from the fields, in row order. */
  function Prices(cents: seq<char> -> int, fields: seq<seq<char>>): (ps: seq<int>)
    ensures |ps| == |fields|
    ensures forall r :: 0 <= r < |fields| ==> ps[r] == cents(fields[r])
  {
    seq(|fields|, r requires 0 <= r < |fields| => cents(fields[r]))
  }

  /** The series after the prices ps of this call are stored: the r-th at index TIMESERIES_LEN - 1 - r, the rest as before. */
  function Place(prev: seq<int>, ps: seq<int>): (q: seq<int>)
    requires |prev| == TIMESERIES_LEN && |ps| <= TIMESERIES_LEN
    ensures |q| == TIMESERIES_LEN
  {
    seq(TIMESERIES_LEN, k requires 0 <= k < TIMESERIES_LEN =>
      if TIMESERIES_LEN - 1 - k < |ps| then ps[TIMESERIES_LEN - 1 - k] else prev[k])
  }

  /** price_min after the prices ps: INT_MAX lowered by every smaller price, in order. */
  function Low(ps: seq<int>): int
    decreases |ps|
  {
    if ps == [] then INT_MAX
    else
      var m := Low(ps[..|ps| - 1]);
      if ps[|ps| - 1] < m then ps[|ps| - 1] else m
  }

  /** price_max after the prices ps: 0 raised by every larger price, in order. */
  function High(ps: seq<int>): int
    decreases |ps|
  {
    if ps == [] then 0
    else
      var m := High(ps[..|ps| - 1]);
      if ps[|ps| - 1] > m then ps[|ps| - 1] else m
  }

  /** The first NAME_LEN - 1 characters of t: what snprintf() leaves in a NAME_LEN buffer before its terminator. */
  function Truncate(t: seq<char>): (r: seq<char>)
    ensures |r| <= NAME_LEN - 1 && r <= t
    ensures |t| <= NAME_LEN - 1 ==> r == t
  {
    if |t| <= NAME_LEN - 1 then t else t[..NAME_LEN - 1]
  }

  /** The label snprintf() writes for the first row: "<symbol>: <price text>", truncated. */
  function Label(sym: seq<char>, field: seq<char>): seq<char> {
    Truncate(sym + ": " + field)
  }

  /**
   * The inner copy loop of parse() and the terminator after it: copy the
   * field at i0 into price_buf. A field that fills price_buf would have its
   * terminator written past the end, so it is excluded.
   */
  method ReadField(s: seq<char>, i0: nat, buf: array<char>) returns (i: nat, j: nat)
    requires Terminated(s) && i0 < |s| && buf.Length == PRICE_LEN
    requires FieldEnd(s, i0, 0) - i0 < PRICE_LEN
    modifies buf
    ensures i == FieldEnd(s, i0, 0) && j == i - i0 < PRICE_LEN
    ensures buf[..j] == s[i0..i] && buf[j] == NUL
  {
    i, j := i0, 0;
    while s[i] != NUL && s[i] != ',' && s[i] != '\n' && j < PRICE_LEN
      invariant i0 <= i < |s| && j == i - i0 <= PRICE_LEN
      invariant FieldEnd(s, i, j) == FieldEnd(s, i0, 0)
      invariant buf[..j] == s[i0..i]
      decreases |s| - i
    {
      buf[j] := s[i];
      i, j := i + 1, j + 1;
    }
    buf[j] := NUL;
  }

  /** The row loop on a price field: it is copied and recorded when fewer than thirty are, and ends the loop otherwise. */
  lemma {:induction false} RowsField(s: seq<char>, i: nat, e: nat, colN: nat, priceCol: int, done: seq<seq<char>>, whole: Rows)
    requires Terminated(s) && i < |s| && |done| <= TIMESERIES_LEN
    requires s[i] != NUL && s[i] != ',' && s[i] != '\n' && colN == priceCol
    requires whole == ScanRows(s, i, colN, priceCol, done) && !whole.overflow && e == FieldEnd(s, i, 0)
    ensures e - i < PRICE_LEN
    ensures |done| < TIMESERIES_LEN ==> whole == ScanRows(s, e, colN, priceCol, done + [s[i..e]])
    ensures |done| == TIMESERIES_LEN ==> whole.fields == done
  {
  }

  /** Recording one more field extends the prices, the series, the minimum and the maximum by that one price. */
  lemma RecordStep(cents: seq<char> -> int, prev: seq<int>, done: seq<seq<char>>, f: seq<char>)
    requires |prev| == TIMESERIES_LEN && |done| < TIMESERIES_LEN
    ensures Prices(cents, done + [f]) == Prices(cents, done) + [cents(f)]
    ensures Place(prev, Prices(cents, done + [f])) == Place(prev, Prices(cents, done))[TIMESERIES_LEN - 1 - |done| := cents(f)]
    ensures Low(Prices(cents, done + [f])) == if cents(f) < Low(Prices(cents, done)) then cents(f) else Low(Prices(cents, done))
    ensures High(Prices(cents, done + [f])) == if cents(f) > High(Prices(cents, done)) then cents(f) else High(Prices(cents, done))
  {
    var ps := Prices(cents, done + [f]);
    assert ps[..|ps| - 1] == Prices(cents, done);
  }

  /** struct stock_item: one instrument's label, its price series and its reference, lowest and highest price. */
  class StockItem {
    var name: seq<char>
    const prices: array<int>
    /** prices_len, fixed at TIMESERIES_LEN when the slot is set up. */
    const pricesLen: nat
    var priceRef: int
    var priceMin: int
    var priceMax: int

    /** The slot shape stock_init() sets up: a TIMESERIES_LEN series and a label that fits NAME_LEN. */
    ghost predicate Valid()
      reads this
    {
      prices.Length == TIMESERIES_LEN && pricesLen == TIMESERIES_LEN && |name| <= NAME_LEN - 1
    }

    /**
     * The allocations of stock_init() for one slot. malloc() leaves the label
     * and the series undefined; they are taken here as empty and zero.
     */
    constructor()
      ensures Valid() && fresh(prices)
      ensures name == [] && prices[..] == seq(TIMESERIES_LEN, _ => 0)
    {
      name := [];
      prices := new int[TIMESERIES_LEN](_ => 0);
      pricesLen := TIMESERIES_LEN;
      priceRef, priceMin, priceMax := 0, 0, 0;
    }

    /**
     * The slot after the fields `done` of this call are recorded over a slot
     * that held the series `prev` and the label `prevName`, with min and max
     * the running price_min and price_max.
     */
    ghost predicate Recorded(prev: seq<int>, prevName: seq<char>, sym: seq<char>, cents: seq<char> -> int,
                             done: seq<seq<char>>, min: int, max: int)
      reads this, prices
      requires |prev| == TIMESERIES_LEN && |done| <= TIMESERIES_LEN
    {
      && prices[..] == Place(prev, Prices(cents, done))
      && name == (if done == [] then prevName else Label(sym, done[0]))
      && min == Low(Prices(cents, done)) && max == High(Prices(cents, done))
    }

    /**
     * The body of the row loop for the field f of row row_n < 30: label the
     * slot on the first row, fold the price into price_min and price_max and
     * store it at TIMESERIES_LEN - 1 - row_n.
     */
    method Record(f: seq<char>, rowN: nat, sym: seq<char>, cents: seq<char> -> int, min0: int, max0: int,
                  ghost prev: seq<int>, ghost prevName: seq<char>, ghost done: seq<seq<char>>)
      returns (min: int, max: int)
      requires Valid() && |prev| == TIMESERIES_LEN && |done| == rowN < TIMESERIES_LEN
      requires Recorded(prev, prevName, sym, cents, done, min0, max0)
      modifies this, prices
      ensures Valid() && priceRef == old(priceRef) && priceMin == old(priceMin) && priceMax == old(priceMax)
      ensures Recorded(prev, prevName, sym, cents, done + [f], min, max)
    {
      if rowN == 0 {
        name := Label(sym, f);
      }
      var price := cents(f);
      min, max := min0, max0;
      if price < min {
        min := price;
      }
      if price > max {
        max := price;
      }
      RecordStep(cents, prev, done, f);
      prices[TIMESERIES_LEN - 1 - rowN] := price;
    }

    /**
     * The row loop of parse() from i0, the end of the header line: read the
     * price column row by row into the series, the first row at the end of
     * the array, label the slot from the first row, and return the lowest
     * and highest price read.
     */
    method ReadRows(s: seq<char>, i0: nat, priceCol: int, sym: seq<char>, cents: seq<char> -> int)
      returns (min: int, max: int)
      requires Valid() && Terminated(s) && i0 < |s|
      requires !ScanRows(s, i0, 0, priceCol, []).overflow
      modifies this, prices
      ensures Valid() && priceRef == old(priceRef) && priceMin == old(priceMin) && priceMax == old(priceMax)
      ensures var fields := ScanRows(s, i0, 0, priceCol, []).fields;
        && prices[..] == Place(old(prices[..]), Prices(cents, fields))
        && name == (if fields == [] then old(name) else Label(sym, fields[0]))
        && min == Low(Prices(cents, fields)) && max == High(Prices(cents, fields))
    {
      ghost var whole := ScanRows(s, i0, 0, priceCol, []);
      ghost var prev, prevName := prices[..], name;
      ghost var done: seq<seq<char>> := [];
      var buf := new char[PRICE_LEN](_ => NUL);
      var i, colN, rowN: nat := i0, 0, 0;
      min, max := INT_MAX, 0;
      while s[i] != NUL
        invariant i < |s| && |done| == rowN <= TIMESERIES_LEN && Valid()
        invariant ScanRows(s, i, colN, priceCol, done) == whole
        invariant Recorded(prev, prevName, sym, cents, done, min, max)
        invariant priceRef == old(priceRef) && priceMin == old(priceMin) && priceMax == old(priceMax)
        decreases |s| - i
      {
        if s[i] == ',' {
          i, colN := i + 1, colN + 1;
          continue;
        }
        if s[i] == '\n' {
          i, colN := i + 1, 0;
          continue;
        }
        if colN == priceCol {
          RowsField(s, i, FieldEnd(s, i, 0), colN, priceCol, done, whole);
          var i1, j := ReadField(s, i, buf);
          if rowN < TIMESERIES_LEN {
            min, max := Record(buf[..j], rowN, sym, cents, min, max, prev, prevName, done);
            rowN := rowN + 1;
            done := done + [s[i..i1]];
            i := i1;
          } else {
            break;
          }
        } else {
          i := i + 1;
        }
      }
    }
  }

  /** The slot after parse() read `s`: the series, the label, the reference and the bounds it stores. */
  ghost predicate Parsed(it: StockItem, prevPrices: seq<int>, prevName: seq<char>, s: seq<char>, sym: seq<char>,
                         price: int, cents: seq<char> -> int)
    reads it, it.prices
    requires Terminated(s) && |prevPrices| == TIMESERIES_LEN
  {
    var ps := Prices(cents, Series(s).fields);
    && it.prices[..] == Place(prevPrices, ps)
    && it.name == (if Series(s).fields == [] then prevName else Label(sym, Series(s).fields[0]))
    && it.priceRef == price && it.priceMin == Low(ps) && it.priceMax == High(ps)
  }

  /** The stocks table, stocks_i and the static idx of parse(). */
  class Stocks {
    const items: array<StockItem>
    /** stocks_i: the next slot stock_get_item() hands out. */
    var cursor: nat
    /** The static idx of parse(): the slot the next parse() fills. */
    var idx: nat

    ghost predicate Valid()
      reads this, items, set k | 0 <= k < items.Length :: items[k]
    {
      && items.Length == NAMES_LEN && cursor < NAMES_LEN && idx < NAMES_LEN
      && (forall k :: 0 <= k < NAMES_LEN ==> items[k].Valid())
      && (forall a, b :: 0 <= a < b < NAMES_LEN ==> items[a] != items[b] && items[a].prices != items[b].prices)
    }

    /** stock_init(): eight slots of the shape parse() fills, and both indices at slot 0. */
    constructor()
      ensures Valid() && fresh(items) && cursor == 0 && idx == 0
      ensures forall k :: 0 <= k < NAMES_LEN ==> fresh(items[k]) && fresh(items[k].prices)
    {
      var made: seq<StockItem> := [];
      while |made| < NAMES_LEN
        invariant |made| <= NAMES_LEN
        invariant forall k :: 0 <= k < |made| ==> fresh(made[k]) && fresh(made[k].prices) && made[k].Valid()
        invariant forall a, b :: 0 <= a < b < |made| ==> made[a] != made[b] && made[a].prices != made[b].prices
      {
        var it := new StockItem();
        made := made + [it];
      }
      items := new StockItem[NAMES_LEN](k requires 0 <= k < NAMES_LEN => made[k]);
      cursor, idx := 0, 0;
    }

    /**
     * parse(s, name, price): fill slot idx from the payload s of the
     * instrument `sym`, set its reference price, and move idx to the next
     * slot. Every other slot keeps its contents.
     */
    method Parse(s: seq<char>, sym: seq<char>, price: int, cents: seq<char> -> int)
      requires Valid() && Terminated(s) && !Series(s).overflow
      modifies this, items[idx], items[idx].prices
      ensures Valid() && unchanged(items) && cursor == old(cursor)
      ensures idx == Cursor.Advance(old(idx), NAMES_LEN)
      ensures Parsed(items[old(idx)], old(items[idx].prices[..]), old(items[idx].name), s, sym, price, cents)
      ensures forall k :: 0 <= k < NAMES_LEN && k != old(idx) ==> unchanged(items[k], items[k].prices)
    {
      var i, priceCol := HeaderLoop(s);
      var it := items[idx];
      var min, max := it.ReadRows(s, i, priceCol, sym, cents);
      it.priceRef := price;
      it.priceMin := min;
      it.priceMax := max;
      idx := Cursor.Advance(idx, NAMES_LEN);
    }

    /**
     * stock_get_item(): the slot under stocks_i, then advance it. The NULL
     * result for an index past the table cannot occur, since the index
     * stays below names_len.
     */
    method GetItem() returns (item: Option<StockItem>)
      requires Valid()
      modifies this
      ensures Valid() && idx == old(idx)
      ensures item == Some(items[old(cursor)]) && cursor == Cursor.Advance(old(cursor), NAMES_LEN)
    {
      item := None;
      if cursor < NAMES_LEN {
        item := Some(items[cursor]);
        cursor := Cursor.Advance(cursor, NAMES_LEN);
      }
    }
  }
}

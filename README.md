# News and stock tickers of an e-paper display, in Dafny

This project models the two text parsers of the firmware and the small tables
they fill.

- **The RSS feed store** (`main/rss.c`) receives a NUL-terminated RSS document.
  It skips the channel's own two titles. It then reads up to twelve
  `<title>`/`<description>` pairs into the fixed table `rss_items` and counts
  the turns in `rss_len`. `rss_get_item` hands the items out round-robin
  through the cursor `rss_i`. Two helpers do the text work:
  - `search` locates the text between an opening and a closing marker;
  - `copy` copies that text and decodes six entity spellings, which stand for
    five characters.
- **The stock close-price extractor** (`main/stock.c`) receives a CSV payload
  per instrument.
  - `parse` finds the header column whose name matches `close`.
  - It reads that column from at most thirty data rows. The first row's
    price goes to the end of a 30-slot series, so the series ends up oldest
    first.
  - It labels the slot `"<symbol>: <price>"`, records the lowest and highest
    price, and stores the reference price it is given.
  - The slot is the one its `static idx` points at; `idx` then moves on.
  - `stock_get_item` hands the eight slots out round-robin through
    `stocks_i`.

The loops of `search`, `copy` and the two `parse` functions are Dafny
methods, each proved equal to a recursive function that mirrors the loop
turn by turn. What the source promises is then proved as lemmas about those
functions: first occurrences, round trips, order, completeness, bounds and
placement. The loops of `delete` and of the slot setup in `stock_init` are
methods whose ensures state the new table directly. Objects that the C code updates in
place are classes:

- the item table (`RssFeed.Feed`);
- an instrument slot (`StockSeries.StockItem`);
- the slot table with its two indices (`StockSeries.Stocks`).

C's undefined behaviour becomes a precondition, stated through the mirror
functions:

- reading past the terminator (`ParseSpec(..).overrun`);
- writing the terminator one past `price_buf` (`Series(..).overflow`);
- freeing a slot that holds nothing (ghost `live` flags).

`malloc` is an oracle: a sequence of outcomes consumed in call order. The
text-to-number conversion `(int)(atof(buf) * 100)` is the parameter `cents`.

Files:

- `wrappers.dfy`: `Option`.
- `cstrings.dfy`: terminated buffers and `strncmp`.
- `cursor.dfy`: the round-robin index.
- `tag_scanner.dfy`: `search`.
- `entity_decoder.dfy`: `copy`.
- `rss_feed.dfy`: the table, `delete`, `parse` and `rss_get_item`.
- `rss_properties.dfy`: what a parse stores.
- `rss_completeness.dfy`: what a parse of a well-formed feed stores: every item, in order.
- `stock_series.dfy`: `parse`, `stock_get_item` and the slot shape of `stock_init`.
- `stock_properties.dfy`: what a stock parse stores.

### Where the code and its description differ

The model follows the code in each case.

- `search` returns 1 when the closing marker is missing. The content then runs
  to the last character before the terminator. Its `!s[*b]` test
  (`main/rss.c:108`) can never be true; the model proves that branch
  unreachable.
- When the string ends inside a copy of the closing marker right after the
  opening one (`<title></tit`), `search` takes the element for an empty one
  and sets *b to `strlen(to)` past where the closing phase's last round
  began, beyond the terminator. Where `parse` then does `s += j + 1` (after
  a channel title or a description), s points past the document. The model
  counts that as reading past the terminator.
- `copy` drops an `&` that starts no known entity but advances its counter
  by only one. Everything after it is read one position further on.
- `rss_len` counts turns, not items. A turn whose title search fails leaves
  its slot unwritten but still counts. Once that happens every later turn
  fails the same way, so `rss_len` reaches twelve. An unwritten slot holds
  NULL until the first parse that writes it, because `rss_items` is static
  (`main/rss.c:23`). After that it keeps the pointer the previous `delete`
  freed.
- The description search of a turn starts just past the title
  (`main/rss.c:168`) and is not bounded by the next `<title>`. An item
  without a description takes the description of a later item, and the
  cursor then moves past that item's title, which is lost. A feed with the
  items (title a, no description) and (title b, description d) reads as one
  item, a with d (`RssCompleteness.DescriptionOverreach`).
- The header match in `stock.c` is looser than "the column named close":
  - commas inside the match are skipped;
  - a letter that breaks a match is not compared again, so `cclose` is not
    found;
  - a `close` cell right after a completed match is not matched;
  - otherwise the last match wins.
- `parse` in `stock.c` stops at the 31st price cell, after copying it.
- The slot `parse` fills is chosen by its own `static idx`, not by a
  parameter.

## Model

| member | source | states |
|---|---|---|
| Cursor.Advance | main/rss.c:249-251 | the next cursor stays below the table length and wraps to 0 after the last slot |
| Cursor.Visit | main/stock.c:228-231 | after any number of get_item calls the cursor stays below the table length |
| Cursor.VisitWithin | main/stock.c:228-231 | n steps from slot i (with i + n < 2·len) lead to slot i + n, less len once that passes the end |
| Cursor.Cycle | main/stock.c:224-233 | the cursor is back at its start after exactly len calls and not before, and every slot is reached within len calls |
| TagScanner.MatchLenAgrees | main/rss.c:89-92 | every character the match loop steps over equals the marker's |
| TagScanner.SkipToClear | main/rss.c:83-84 | the skip loop steps only over characters that are neither the terminator nor the one sought |
| TagScanner.SeekAgrees | main/rss.c:80-95 | every character of a phase's last round, from its candidate to where it stopped, agrees with the marker |
| TagScanner.Scan | main/rss.c:71-119 | the result code is 1 or -1; on 1, 0 < a ≤ b and both lie inside the string; on -1, either *a is untouched and *b is at the terminator, or *a follows an opening marker and *b = *a + strlen(to) |
| TagScanner.ScanOpens | main/rss.c:97-106 | the content position *a reported, for a found or an empty element, directly follows an opening marker |
| TagScanner.SkipLoop | main/rss.c:83-84 | the first loop stops at the first occurrence of the character or at the terminator |
| TagScanner.MatchLoop | main/rss.c:89-92 | the second loop stops after the longest agreement with the marker |
| TagScanner.SeekPhase | main/rss.c:80-95 | the rounds of one phase end where the reference phase says, with the start of their last round |
| TagScanner.Search | main/rss.c:71-119 | search() returns the code and positions Scan defines, including the unchanged *a when nothing opens |
| TagScanner.SkipTo | main/rss.c:83-84 | the first loop ends at or after its start, on the character sought or on the terminator |
| TagScanner.MatchLen | main/rss.c:89-92 | the second loop ends inside the string, on a full match or on the first character that disagrees |
| TagScanner.Seek | main/rss.c:80-95 | a phase's last round lies inside the string and ends on a full match or on the terminator |
| TagScanner.SearchSpec | main/rss.c:71-119 | reference definition of search() from the first occurrences: the result is 1 or -1, and on 1, strlen(from) ≤ a ≤ b |
| TagScanner.FindFrom | main/rss.c:83-95 | reference definition: the first position at or after i where the marker occurs, or none |
| TagScanner.CutOffFrom | main/rss.c:89-95 | reference definition: the first position where the string ends inside a truncated copy of the marker |
| TagScanner.NothingBetween | main/rss.c:83-95 | skipping positions with neither an occurrence nor a cut-off copy changes neither first position |
| TagScanner.SkipKeepsFirst | main/rss.c:83-84 | positions without the marker's first character hold no occurrence |
| TagScanner.PartialMatchKeepsFirst | main/rss.c:89-95 | inside a partial match of a marker whose head does not recur, no occurrence starts |
| TagScanner.CutOffEnd | main/rss.c:94-98 | a partial match that runs into the terminator is the cut-off copy, and the marker does not occur later |
| TagScanner.SeekFindsFirst | main/rss.c:80-95 | the last round of a phase starts at the first occurrence of the marker, or where it is cut off |
| TagScanner.ScanIsFirstMatch | main/rss.c:71-119 | for the feed's markers, search() reports the first opening marker and the first closing one after it |
| TagScanner.ScanIgnoresA0 | main/rss.c:97-106 | the result code and *b never depend on the incoming *a, nor does *a when the element is found |
| TagScanner.NotFoundOutcome | main/rss.c:97-101 | with no opening marker the result is -1, *b at the terminator and *a untouched |
| TagScanner.EmptyElementOutcome | main/rss.c:111-115 | an element closed right after it opens gives -1, with *b just past the closing marker |
| TagScanner.FoundOutcome | main/rss.c:103-117 | a closed, non-empty element gives 1, with [a, b] exactly the text between the markers |
| TagScanner.MissingCloseOutcome | main/rss.c:94-117 | with no closing marker after the opening one, and no cut-off copy of it at the end, the result is still 1 and the content runs to the last character before the terminator, whatever other tags follow |
| TagScanner.CutOffCloseExample | main/rss.c:111-115 | a closing marker cut off by the terminator right after `<title>` gives -1 with *b = 15, three past the terminator |
| EntityDecoder.Decode | main/rss.c:34-66 | copy() writes at most j - i + 1 characters, one per step |
| EntityDecoder.DecodeStep | main/rss.c:35-64 | one step copies a plain character, decodes a known entity and skips six, or drops an unknown '&' and copies the next character |
| EntityDecoder.Copy | main/rss.c:30-69 | the destination holds the decoded text followed by its NUL, inside the j - i + 2 characters parse() allocates |
| EntityDecoder.Code | main/rss.c:40-59 | exactly the five characters `"`, `&`, `'`, `<`, `>` have an entity, and the entity found decodes to that character |
| EntityDecoder.SpellingsDistinct | main/rss.c:40-56 | the six entity spellings are distinct and five characters long |
| EntityDecoder.LookupMeaning | main/rss.c:40-59 | the if-chain finds nothing exactly when none of the spellings is at the pointer, and otherwise the character of one that is |
| EntityDecoder.EntityMeaning | main/rss.c:40-64 | an '&' starts an entity exactly when one of the six spellings follows it, and the entity is one of the five characters |
| EntityDecoder.EscapeLength | main/rss.c:40-56 | the escaping the round trip starts from is at least as long as the text and at most six times as long |
| EntityDecoder.LookupFinds | main/rss.c:40-59 | the if-chain picks the entry whose spelling is at the source pointer |
| EntityDecoder.EscapeCharAt | main/rss.c:35-59 | where a character's escape sits, copy() reads that character back |
| EntityDecoder.DecodeEscapeChar | main/rss.c:35-59 | copying from an escape writes its character and steps over the escape |
| EntityDecoder.DecodeEscapeAt | main/rss.c:34-66 | copying the range that holds an escaped text restores the text |
| EntityDecoder.DecodeEscape | main/rss.c:30-69 | round trip: copy() of the escaped form of any text restores the text, whatever surrounds it |
| EntityDecoder.PlainCopy | main/rss.c:34-37 | text without '&' is copied character for character, i to j inclusive |
| EntityDecoder.UnknownEscapeShifts | main/rss.c:60-64 | an unknown '&' is dropped and the copy then reads one position past j |
| EntityDecoder.PlainShifted | main/rss.c:35-37 | once the pointer runs one ahead of the counter, the copy ends one character later |
| RssFeed.Run | main/rss.c:149-186 | the loop fills at most MAXLEN slots |
| RssFeed.ParseFrom | main/rss.c:133-187 | parse(), with any value in its local i before the first search, fills at most MAXLEN slots |
| RssFeed.ParseSpec | main/rss.c:133-187 | parse() fills at most MAXLEN slots |
| RssFeed.RunInBounds | main/rss.c:149-150 | while the loop goes on without reading past the end, the cursor is inside the document |
| RssFeed.RunBreak | main/rss.c:152-177 | a failed malloc ends the loop with the slots filled so far |
| RssFeed.RunStep | main/rss.c:149-185 | a turn that goes on adds its slot and moves the cursor and the allocation count |
| RssFeed.RunEnd | main/rss.c:149 | the loop ends after the twelfth turn |
| RssFeed.ReadItem | main/rss.c:150-166 | the title part of a turn (search, two mallocs, copy) computes the turn function NextStep |
| RssFeed.ReadDescription | main/rss.c:168-184 | the description part of a turn (search, an optional malloc and copy, the cursor moved past) computes DescribeStep |
| RssFeed.Table | main/rss.c:184 | written slots take their item, the others keep what they held |
| RssFeed.Lives | main/rss.c:184 | exactly the written slots become live |
| RssFeed.TableStep | main/rss.c:184 | storing the next slot changes the table and the live map at that one index |
| RssFeed.SkipMainTitles | main/rss.c:143-147 | the two leading searches leave the cursor where the loop starts |
| RssFeed.Feed.constructor | main/rss.c:21-23 | an empty table: every slot NULL, count and cursor 0 |
| RssFeed.Feed.Delete | main/rss.c:121-131 | every slot below rss_len is freed, and the count and the cursor become 0 |
| RssFeed.Feed.Parse | main/rss.c:133-187 | the table, rss_len and the live map are those ParseSpec describes, and the cursor is 0 |
| RssFeed.Feed.Fill | main/rss.c:149-186 | the loop stores each turn's item in its slot and sets rss_len to the number of turns |
| RssFeed.Feed.GetItem | main/rss.c:245-254 | below rss_len it returns the item under the cursor and advances it; otherwise NULL and nothing moves |
| RssProperties.PrefixShorter | main/rss.c:149-185 | the slots of earlier turns stay a prefix |
| RssProperties.OrderStep | main/rss.c:183 | a title stored past every earlier one and before the new cursor keeps the slots in order |
| RssProperties.OpenStep | main/rss.c:150-165 | a title that follows an opening marker keeps every stored title after one |
| RssProperties.StepForward | main/rss.c:150-183 | a turn (NextStep) never moves the cursor back; a stored title starts at or after the cursor, right after `<title>`, and the cursor ends past it |
| RssProperties.DescribeOpens | main/rss.c:166-183 | the description part (DescribeStep) stores the title found right after `<title>` and leaves the cursor past it |
| RssProperties.TitleOpensAt | main/rss.c:150-151 | a successful title search reports text right after `<title>` |
| RssProperties.DescribeForward | main/rss.c:166-183 | a description part (DescribeStep) that goes on stores a slot at the position the title search reported and leaves the cursor past the title's text |
| RssProperties.StepNeverBreaks | main/rss.c:152-177 | when every malloc succeeds a turn never breaks |
| RssProperties.StepUnderFailure | main/rss.c:152-177 | under failing mallocs a turn breaks, or does what it does when every malloc succeeds |
| RssProperties.FailedTitleAgain | main/rss.c:150-151 | a turn whose title search fails leaves the cursor in place, so the next turn fails the same way |
| RssProperties.StepIgnoresStart | main/rss.c:150-184 | a turn's slot, cursor and allocations do not depend on the i it starts with |
| RssProperties.RunIgnoresStart | main/rss.c:149-186 | the loop stores the same slots whatever i it starts with |
| RssProperties.RunExtends | main/rss.c:149-186 | the loop keeps the slots already taken, in front |
| RssProperties.RunStops | main/rss.c:152-177 | a turn that does not go on ends the loop with the slots taken so far |
| RssProperties.RunGrows | main/rss.c:149-186 | each stored slot is the one its turn produced |
| RssProperties.RunInOrder | main/rss.c:149-186 | the titles the loop stores come in document order |
| RssProperties.RunAfterOpen | main/rss.c:149-186 | every title the loop stores starts right after `<title>` |
| RssProperties.RunFills | main/rss.c:149-186 | when every malloc succeeds the loop reaches the twelfth turn or reads past the end |
| RssProperties.RunStaysUnwritten | main/rss.c:149-151 | after a failed title search every remaining turn leaves its slot unwritten, up to the twelfth |
| RssProperties.RunUnwrittenTail | main/rss.c:149-151 | an unwritten slot is followed only by unwritten slots, up to the twelfth |
| RssProperties.RunPrefix | main/rss.c:149-186 | under failing mallocs the loop takes a prefix of the turns it takes when all succeed |
| RssProperties.DocumentOrder | main/rss.c:133-187 | the stored titles are in the order of the document, and each follows an opening `<title>` |
| RssProperties.FullRun | main/rss.c:149-186 | when every malloc succeeds and nothing reads past the end, rss_len ends at 12, however few items the feed has |
| RssProperties.FailedTitleRepeats | main/rss.c:149-151 | once a title search fails, the rest of the table stays unwritten, rss_len reaches 12 and nothing reads past the end |
| RssProperties.AllocFailurePrefix | main/rss.c:152-177 | a failed malloc only cuts the table short: the turns before it store what they would if every malloc succeeded |
| RssProperties.TitleIsFirst | main/rss.c:150 | a successful title search reports the text after the first `<title>` from the cursor, up to the first `</title>` after it (or its cut-off copy, or the terminator) |
| RssProperties.StoredTitleCopied | main/rss.c:150-165 | the title a turn stores is copy() of the range its title search reported |
| RssProperties.StoredTitleIsFirst | main/rss.c:150-184 | the title a turn stores starts right after the first `<title>` from the cursor and is copy() of the text up to the first `</title>` after it |
| RssCompleteness.FirstAt | main/rss.c:83-95 | a marker that occurs at q and nowhere from i up to q is the first occurrence from i |
| RssCompleteness.ElementFound | main/rss.c:80-95 | with no opening marker between the cursor and an element, the first opening marker is the element's and the first closing marker after it is the element's own |
| RssCompleteness.ElementCopy | main/rss.c:30-69 | copy() of an element's content restores its text |
| RssCompleteness.ElementAt | main/rss.c:71-119 | a search for the next element returns 1 with its escaped text as content, copy() restores the text, and `s += j + 1` lands on the closing marker |
| RssCompleteness.AfterMarker | main/rss.c:71-119 | the same, for a search that starts on a closing marker followed by text without the opening marker |
| RssCompleteness.TitlePart | main/rss.c:150-166 | on a well-formed item the title search succeeds, copy() restores the title, and the cursor lands on `</title>` |
| RssCompleteness.DescriptionPart | main/rss.c:166-183 | from that `</title>` the description search succeeds, copy() restores the description, and the cursor lands on `</description>` |
| RssCompleteness.EntryParts | main/rss.c:150-183 | both searches of a turn over a well-formed item succeed and their copies restore its title and description |
| RssCompleteness.DescriptionStores | main/rss.c:168-184 | a description found and copied completes the stored item, with one malloc (DescribeStep) |
| RssCompleteness.TurnStores | main/rss.c:150-184 | a turn whose two searches succeed stores title and description with three mallocs (NextStep) |
| RssCompleteness.EntryTurn | main/rss.c:150-184 | a turn over a well-formed item stores its title and description and ends on its `</description>` |
| RssCompleteness.QuietTurn | main/rss.c:150-151 | with no `<title>` left, a turn (NextStep) writes nothing and moves nothing |
| RssCompleteness.LayoutTurns | main/rss.c:149-186 | from the closing marker before well-formed items, the turns store the items in order and then find no more titles |
| RssCompleteness.ReadsNoMore | main/rss.c:149-151 | once no title is left the rest of the table stays unwritten |
| RssCompleteness.RunFollowsTurns | main/rss.c:149-186 | the loop stores the items the turns store, up to the twelfth, and leaves the rest of the table unwritten |
| RssCompleteness.ItemsRead | main/rss.c:149-186 | the loop started on `</title>` before well-formed items reads them all |
| RssCompleteness.HeadingAt | main/rss.c:143-147 | a title search finds a channel title and stops the cursor on its `</title>` |
| RssCompleteness.ChannelFound | main/rss.c:143-147 | the two leading searches find the channel's own titles and leave the cursor just before the items |
| RssCompleteness.ParseStarts | main/rss.c:139-149 | once those searches succeed, parse() is the loop started past the second |
| RssCompleteness.FeedStart | main/rss.c:139-149 | a well-formed document is a C string, and the loop starts right before its items |
| RssCompleteness.LaunchReads | main/rss.c:133-187 | from there parse() reads all the items |
| RssCompleteness.ReadsEveryItem | main/rss.c:133-187 | completeness: on a feed of n items, each a non-empty title followed by a non-empty description with no `<description>` between them and no `<title>` before the title, with every malloc granted, slot k holds the k-th item's title and description for k < min(n, 12) and the later slots are unwritten; rss_len reaches 12 and nothing is read past the terminator |
| RssCompleteness.DescriptionOverreach | main/rss.c:166-183 | an item without a description followed by one with a description reads as a single item: the first title with the second description |
| RssProperties.ParseIgnoresStart | main/rss.c:133-147 | whatever the uninitialised i holds before the first search, parse() computes the same table and rss_len |
| StockSeries.ScanHeader | main/stock.c:120-131 | the header loop stops at the first line break or the terminator, and price_col is unchanged or a column reached |
| StockSeries.HeaderLoop | main/stock.c:120-132 | the header loop ends where ScanHeader says, with its price_col |
| StockSeries.FieldEnd | main/stock.c:150-151 | the copy stops at a separator or the terminator, or after filling price_buf |
| StockSeries.HeaderOf | main/stock.c:120-132 | the header is the first line: it ends on the first line break or the terminator, and price_col is -1 or a column |
| StockSeries.Series | main/stock.c:136-173 | parse() reads at most 30 prices from a payload |
| StockSeries.ScanRows | main/stock.c:136-173 | the row loop records at most TIMESERIES_LEN prices |
| StockSeries.Prices | main/stock.c:158 | the r-th price is the conversion of the r-th text read |
| StockSeries.Place | main/stock.c:165 | the series keeps its 30 slots (what each holds: StockProperties.Placement) |
| StockSeries.Truncate | main/stock.c:154-155 | snprintf keeps at most NAME_LEN - 1 characters, a prefix of the text |
| StockSeries.ReadField | main/stock.c:150-152 | price_buf holds the field's characters and then its terminator, and the cursor is at the field's end |
| StockSeries.RowsField | main/stock.c:149-169 | on a price cell the copy fits price_buf; below thirty prices the cell is recorded, and at thirty the loop ends |
| StockSeries.RecordStep | main/stock.c:157-166 | one more price extends the series at index 29 - row_n and folds into the minimum and the maximum |
| StockSeries.StockItem.constructor | main/stock.c:262-264 | a slot with a 30-price series and an empty label |
| StockSeries.StockItem.Record | main/stock.c:154-166 | one data row: label on row 0, running minimum and maximum, price stored at 29 - row_n |
| StockSeries.StockItem.ReadRows | main/stock.c:134-173 | the row loop writes the series, the label and the bounds that ScanRows defines, and leaves price_ref, price_min and price_max alone |
| StockSeries.Stocks.constructor | main/stock.c:248-265 | eight distinct slots of that shape, both indices at 0 |
| StockSeries.Stocks.Parse | main/stock.c:107-180 | the slot under idx gets the series, label, reference and bounds of the payload, idx advances modulo 8, and no other slot changes |
| StockSeries.Stocks.GetItem | main/stock.c:224-233 | returns the slot under stocks_i and advances it modulo 8 |
| StockProperties.Reverse | main/stock.c:164-165 | reference definition: the prices in reverse order |
| StockProperties.ReverseAt | main/stock.c:164-165 | Reverse puts the r-th element at index length - 1 - r |
| StockProperties.PlaceAt | main/stock.c:165 | each index of the series holds the price written there or its old value |
| StockProperties.Placement | main/stock.c:157-166 | the r-th price is at 29 - r; the series ends with the prices in reverse, oldest first; the indices in front keep the previous call's values |
| StockProperties.Bounds | main/stock.c:114-162 | price_min (Low) ≤ every price ≤ price_max (High); price_min is one of them or INT_MAX, price_max one of them or 0 |
| StockProperties.CellEnd | main/stock.c:150 | a cell ends at the next comma, line break or terminator |
| StockProperties.Take | main/stock.c:157-169 | the first n cells: at most n of them, a prefix |
| StockProperties.FieldOfCell | main/stock.c:150-151 | the bounded copy ends at the cell's end, or after PRICE_LEN characters of a longer cell |
| StockProperties.LongCellStep | main/stock.c:150-152 | a long cell among the first n + 2 is the first cell or one of the n + 1 after it |
| StockProperties.RowsReadColumn | main/stock.c:136-173 | the loop overflows price_buf exactly when one of the next 31 cells is too long; otherwise it records the first 30 cells of the column |
| StockProperties.RowTurn | main/stock.c:149-169 | the same, for a loop that starts on a cell of the price column |
| StockProperties.NoColumn | main/stock.c:110-149 | with price_col at -1 no cell is read |
| StockProperties.ReadsPriceColumn | main/stock.c:136-173 | parse() reads the first 30 cells of the price column, overflows only on a cell of ten characters or more among the first 31, and reads nothing when no header matches |
| StockProperties.ColumnCells | main/stock.c:149-151 | every cell read is non-empty and holds no separator |
| StockProperties.CellText | main/stock.c:150-151 | the text from a cell's start to its end is non-empty and has no separator |
| StockProperties.FieldsFit | main/stock.c:150-152 | every price text converted is a whole cell of 1 to 9 characters, so it fits price_buf with its terminator |
| StockProperties.LabelShape | main/stock.c:154-155 | the label (Label) is a prefix of "<symbol>: <price>" of length min(14, full length) |
| StockProperties.FoundLater | main/stock.c:120-132 | a match found before a position is found before any later one |
| StockProperties.EndsWithNext | main/stock.c:126-127 | a matched prefix of "close" grows by its next letter |
| StockProperties.LetterStep | main/stock.c:126-129 | a letter that continues the match keeps the loop invariant, and completing the match records the current column |
| StockProperties.CommaStep | main/stock.c:121-124 | a comma counts a column and keeps the match |
| StockProperties.ResetStep | main/stock.c:130-131 | any other character starts the match over |
| StockProperties.HeaderTurnLeads | main/stock.c:120-131 | one turn of the header loop leads to the next state as the loop body says |
| StockProperties.HeaderSoundFrom | main/stock.c:120-132 | the header loop keeps its invariant up to the end of the line |
| StockProperties.HeaderSoundTurn | main/stock.c:120-132 | the same, for one character of the header line |
| StockProperties.HeaderSound | main/stock.c:110-132 | price_col is -1 or the column of a completed match of the letters of "close" (commas skipped) in the header line |
| StockProperties.TagLetters | main/stock.c:117 | "close" holds no separator |
| StockProperties.SkipQuiet | main/stock.c:120-131 | without a 'c' the loop only counts columns |
| StockProperties.MatchRest | main/stock.c:126-129 | consecutive letters of "close" complete the match in the current column |
| StockProperties.Settle | main/stock.c:120-131 | after a match, a line without 'c' leaves price_col unchanged |
| StockProperties.MatchThenSettle | main/stock.c:120-132 | a "close" with no 'c' after it sets price_col to its own column |
| StockProperties.HeaderFindsCell | main/stock.c:120-132 | completeness: a header cell "close", with no other 'c' in the line, is found in its own column |
| StockProperties.ParsedSlot | main/stock.c:149-177 | after parse() the slot holds the first 30 cells of the price column, converted, at 29 - r, the older values in front, bounds around every price, the given reference; with no match only the reference and the default bounds are written |
| StockProperties.NoRetestExample | main/stock.c:126-131 | "cclose" is not matched |
| StockProperties.SplitMatchExample | main/stock.c:121-129 | "clo,se" matches, in column 1 |
| StockProperties.LastMatchExample | main/stock.c:126-129 | of two matches the later wins |
| StockProperties.AdjacentMatchExample | main/stock.c:121-131 | a "close" cell right after a completed match is not matched |

## Left out

- The HTTP event handlers (`http_evt_handler` in both files) are not modelled: they only collect response chunks.
- `rss_update`, `rss_init`, `stock_update` and the HTTP part of `stock_init` are not modelled: they cover network fetches, retry delays, URL building and TLS setup.
- `stock_update` returns early when the URL `malloc` fails. The static `idx` of `parse` then no longer matches the instrument index `i`. The model passes the symbol and reference price to `Stocks.Parse` directly and does not model this.
- `main/main.c` and `main/ntp.c` are not part of this model: they hold the display loop and time synchronisation.
- Logging (`ESP_LOGx`) is left out.
- `atof` is left out. The price text becomes an integer through the parameter `cents`. Its floating-point rounding and the range of the C `int` cast are not modelled.
- The `malloc` results in `stock_init` are not modelled: a failure there leaves later slots NULL.
- The header `stock.h` is not part of this model. The fields of `struct stock_item` are taken from their uses in `main/stock.c`.
- Memory that `malloc` leaves undefined (a slot's label and series before the first parse) starts empty and zero in `StockSeries.StockItem.constructor`.
- The first `search` in `parse` of `main/rss.c` gets an uninitialised `i`. The model passes 0; `RssProperties.ParseIgnoresStart` shows that any other value gives the same table and `rss_len`.
- Reading past the terminator and writing past `price_buf` are undefined behaviour. `RssFeed.Feed.Parse` and `StockSeries.Stocks.Parse` require that these do not happen, and the spec functions say exactly when they would.
- An unwritten slot below `rss_len` holds NULL if no parse since boot has written it, and otherwise the pointer the previous `delete` freed. `rss_get_item` hands it out: NULL is checked by the caller (`main/main.c:73`); the freed pointer is not. The next `delete` then reads through NULL at `main/rss.c:124`, or frees the stale slot a second time. The model keeps stale slots in the table, marks them not live, and makes `RssFeed.Feed.Delete` and `RssFeed.Feed.Parse` require every slot below `rss_len` to be live. A feed that leaves a slot unwritten therefore cannot be followed by another parse in the model.
- A received payload is taken to have no NUL before its terminator.
- A NULL payload is excluded by the types: the payload is a sequence.
- `StockSeries.Stocks.GetItem` cannot return NULL: `stocks_i` always stays below `names_len`. The model keeps the branch but proves the item present.

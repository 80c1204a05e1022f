/**
 * What parse() in main/rss.c reads from a feed laid out as RSS lays it out:
 * the channel's two titles, then items that each have a title and, before
 * the next <title>, a description. For such a feed the table holds the
 * first twelve items in document order, each with its title and
 * description decoded, and the slots past the last item stay unwritten.
 * The same searches give the wrong item when a description is missing.
 */
module RssCompleteness {
  import opened Wrappers
  import opened CStrings
  import opened TagScanner
  import opened EntityDecoder
  import opened RssFeed
  import opened RssProperties

  // ---------------------------------------------------------------------------
  // Documents built from their parts

  /** One item of a feed: the text before its <title>, its title, the text between the title and its <description>, and its description. */
  datatype Entry = Entry(lead: seq<char>, title: seq<char>, gap: seq<char>, description: seq<char>)

  /** One of the channel's own titles, with the text before it. */
  datatype Heading = Heading(lead: seq<char>, title: seq<char>)

  /** A text between its markers, escaped as the feed carries it. */
  function Element(open: seq<char>, text: seq<char>, close: seq<char>, named: bool): seq<char> {
    open + Escape(text, named) + close
  }

  function HeadingText(h: Heading, named: bool): seq<char> {
    h.lead + Element(TITLE_OPEN, h.title, TITLE_CLOSE, named)
  }

  function EntryText(e: Entry, named: bool): seq<char> {
    e.lead + Element(TITLE_OPEN, e.title, TITLE_CLOSE, named) + e.gap + Element(DESC_OPEN, e.description, DESC_CLOSE, named)
  }

  function Entries(es: seq<Entry>, named: bool): seq<char> {
    if es == [] then [] else EntryText(es[0], named) + Entries(es[1..], named)
  }

  /** The received document: two channel titles, the items, the text after them and the terminator. */
  function Document(h1: Heading, h2: Heading, es: seq<Entry>, tail: seq<char>, named: bool): seq<char> {
    HeadingText(h1, named) + HeadingText(h2, named) + Entries(es, named) + tail + [NUL]
  }

  /** Text with no NUL in it. */
  predicate NulFree(s: seq<char>) {
    forall k :: 0 <= k < |s| ==> s[k] != NUL
  }

  /** Text between elements: no NUL, and no occurrence of the marker m. */
  predicate Filler(f: seq<char>, m: seq<char>) {
    NulFree(f) && forall r :: 0 <= r <= |f| ==> !StartsWith(f, r, m)
  }

  /** A channel title that is not empty and holds no NUL, after text that holds no opening <title>. */
  predicate GoodHeading(h: Heading) {
    Literal(h.title) && Filler(h.lead, TITLE_OPEN)
  }

  /**
   * A well-formed item: its title and its description are not empty, no
   * opening <title> comes before its title, and no opening <description>
   * comes between its title and its description.
   */
  predicate GoodEntry(e: Entry) {
    Literal(e.title) && Literal(e.description) && Filler(e.lead, TITLE_OPEN) && Filler(e.gap, DESC_OPEN)
  }

  /** Slot k of the table holds the k-th item, title and description; past the last item it is unwritten. */
  predicate Holds(slot: Slot, es: seq<Entry>, k: nat) {
    if k < |es| then slot.Stored? && slot.item == RssItem(es[k].title, Some(es[k].description))
    else slot.Unwritten?
  }

  /** From slot n on, the table holds the items es in order, then unwritten slots. */
  predicate HoldFrom(slots: seq<Slot>, es: seq<Entry>, n: nat) {
    |slots| == MAXLEN && forall k :: n <= k < MAXLEN ==> Holds(slots[k], es, k - n)
  }

  /** The run g does not overrun, keeps the slots done and stores the items es after them. */
  predicate Reads(g: Generation, done: seq<Slot>, es: seq<Entry>) {
    !g.overrun && |g.slots| == MAXLEN && |done| <= MAXLEN && g.slots[..|done|] == done && HoldFrom(g.slots, es, |done|)
  }

  // ---------------------------------------------------------------------------
  // Where a marker cannot start

  /** No occurrence of the marker m starts at a position in [lo, hi). */
  predicate Quiet(xml: seq<char>, lo: nat, hi: nat, m: seq<char>) {
    forall r :: lo <= r < hi ==> !StartsWith(xml, r, m)
  }

  /** The first occurrence of t from i on is at q when t occurs at q and nowhere in [i, q). */
  lemma {:induction false} FirstAt(s: seq<char>, t: seq<char>, i: nat, q: nat)
    requires i <= q && StartsWith(s, q, t) && Quiet(s, i, q, t)
    ensures FindFrom(s, t, i) == Some(q)
    decreases q - i
  {
    if i < q {
      FirstAt(s, t, i + 1, q);
    }
  }

  /** Inside a marker w at g no other marker m starts that shares its '<' but not its second character. */
  lemma {:induction false} MarkerQuiet(xml: seq<char>, g: nat, w: seq<char>, m: seq<char>)
    requires StartsWith(xml, g, w) && UniqueHead(w) && 2 <= |w| && 2 <= |m| && m[0] == w[0] && m[1] != w[1]
    ensures Quiet(xml, g, g + |w|, m)
  {
    forall r | g <= r < g + |w|
      ensures !StartsWith(xml, r, m)
    {
      if r == g {
        assert xml[r + 1] == w[1];
      } else {
        assert xml[r] == w[r - g];
      }
    }
  }

  /** Text without a '<' holds no marker. */
  lemma {:induction false} TextQuiet(xml: seq<char>, g: nat, w: seq<char>, m: seq<char>)
    requires StartsWith(xml, g, w) && (forall k :: 0 <= k < |w| ==> w[k] != '<') && 0 < |m| && m[0] == '<'
    ensures Quiet(xml, g, g + |w|, m)
  {
    forall r | g <= r < g + |w|
      ensures !StartsWith(xml, r, m)
    {
      assert xml[r] == w[r - g];
    }
  }

  /** Filler without m, followed by a '<', holds no m, not even one running into what follows. */
  lemma {:induction false} FillerQuiet(xml: seq<char>, g: nat, f: seq<char>, m: seq<char>)
    requires StartsWith(xml, g, f) && g + |f| < |xml| && xml[g + |f|] == '<'
    requires Filler(f, m) && UniqueHead(m) && m[0] == '<'
    ensures Quiet(xml, g, g + |f|, m)
  {
    forall r | g <= r < g + |f|
      ensures !StartsWith(xml, r, m)
    {
      if r + |m| <= g + |f| {
        assert forall k :: 0 <= k < |m| ==> (xml[r + k] == m[k] <==> f[r - g + k] == m[k]);
        assert !StartsWith(f, r - g, m);
      } else if r + |m| <= |xml| {
        var k := g + |f| - r;
        assert xml[r + k] != m[k];
      }
    }
  }

  /** Filler without an opening <title> right before the terminator holds none. */
  lemma {:induction false} TailQuiet(xml: seq<char>, g: nat, tail: seq<char>)
    requires Terminated(xml) && StartsWith(xml, g, tail) && g + |tail| == |xml| - 1 && Filler(tail, TITLE_OPEN)
    ensures Quiet(xml, g, |xml|, TITLE_OPEN)
  {
    MarkersAreLiterals();
    forall r | g <= r < |xml|
      ensures !StartsWith(xml, r, TITLE_OPEN)
    {
      if r + |TITLE_OPEN| <= g + |tail| {
        assert forall k :: 0 <= k < |TITLE_OPEN| ==> (xml[r + k] == TITLE_OPEN[k] <==> tail[r - g + k] == TITLE_OPEN[k]);
        assert !StartsWith(tail, r - g, TITLE_OPEN);
      } else if r + |TITLE_OPEN| <= |xml| {
        assert xml[|xml| - 1] != TITLE_OPEN[|xml| - 1 - r];
      }
    }
  }

  // ---------------------------------------------------------------------------
  // One element, one item

  /** An opening marker: a literal that starts with '<' followed by anything but '/', and whose '<' does not recur. */
  predicate Opener(w: seq<char>) {
    Literal(w) && UniqueHead(w) && 2 <= |w| && w[0] == '<' && w[1] != '/'
  }

  /** A closing marker: a literal that starts with "</", and whose '<' does not recur. */
  predicate Closer(w: seq<char>) {
    Literal(w) && UniqueHead(w) && 2 <= |w| && w[0] == '<' && w[1] == '/'
  }

  lemma {:induction false} MarkerKinds()
    ensures Opener(TITLE_OPEN) && Opener(DESC_OPEN) && Closer(TITLE_CLOSE) && Closer(DESC_CLOSE)
  {
    MarkersAreLiterals();
  }

  /** An element at q: its opening marker, the escaped text right after it, and its closing marker right after that. */
  predicate ElementSits(xml: seq<char>, q: nat, open: seq<char>, text: seq<char>, close: seq<char>, named: bool) {
    StartsWith(xml, q, open) && StartsWith(xml, q + |open|, Escape(text, named)) &&
    StartsWith(xml, q + |open| + |Escape(text, named)|, close)
  }

  lemma {:induction false} ElementSplit(xml: seq<char>, q: nat, open: seq<char>, text: seq<char>, close: seq<char>, named: bool)
    requires StartsWith(xml, q, Element(open, text, close, named))
    ensures ElementSits(xml, q, open, text, close, named)
  {
    SplitSpelling(xml, q, open + Escape(text, named), close);
    SplitSpelling(xml, q, open, Escape(text, named));
  }

  /** The first opening marker from o on is the element's, and the first closing marker after it is the element's too. */
  lemma {:induction false} ElementFound(xml: seq<char>, o: nat, q: nat, open: seq<char>, text: seq<char>, close: seq<char>, named: bool)
    requires Terminated(xml) && o <= q && Quiet(xml, o, q, open)
    requires Literal(close) && 0 < |open| && close[0] == '<' && text != []
    requires ElementSits(xml, q, open, text, close, named)
    ensures var a := q + |open|;
      var c := a + |Escape(text, named)|;
      a < c && c + |close| < |xml| && FindFrom(xml, open, o) == Some(q) && FindFrom(xml, close, a) == Some(c)
  {
    var w := Escape(text, named);
    var a, c := q + |open|, q + |open| + |w|;
    FirstAt(xml, open, o, q);
    EscapeClean(text, named);
    assert Literal(w);
    TextQuiet(xml, a, w, close);
    FirstAt(xml, close, a, c);
    assert xml[c + |close| - 1] == close[|close| - 1] != NUL;
  }

  /** Copying the content of an element restores its text, wherever the counters start. */
  lemma {:induction false} ElementCopy(xml: seq<char>, o: nat, q: nat, open: seq<char>, text: seq<char>, close: seq<char>, named: bool,
                                       i: nat, j: int)
    requires o <= q && ElementSits(xml, q, open, text, close, named)
    requires i == q + |open| - o && j == q + |open| + |Escape(text, named)| - 1 - o
    ensures CopyOut(xml, o, i, j) == Some(text)
  {
    var a := q + |open|;
    DecodeEscapeAt(xml, a, text, named);
    DecodeShift(xml, a, a, a + |Escape(text, named)| - 1, -(o as int));
  }

  /**
   * A search from o for an element at q, when no opening marker starts in
   * between: search() returns 1, its content is exactly the escaped text,
   * copy() restores the text, and `s += j + 1` leaves the cursor on the
   * element's closing marker.
   */
  lemma {:induction false} ElementAt(xml: seq<char>, o: nat, q: nat, open: seq<char>, text: seq<char>, close: seq<char>, named: bool, a0: int)
      returns (r: Outcome)
    requires Terminated(xml) && o <= q && Opener(open) && Closer(close)
    requires Quiet(xml, o, q, open) && text != []
    requires ElementSits(xml, q, open, text, close, named)
    ensures Scan(xml, o, open, close, a0) == r && r.rc == 1 && 0 <= r.a <= r.b && r.a == q + |open| - o
    ensures CopyOut(xml, o, r.a, r.b) == Some(text)
    ensures Past(o, r.b) == q + |open| + |Escape(text, named)| && Past(o, r.b) + |close| < |xml| && StartsWith(xml, Past(o, r.b), close)
  {
    var a, c := q + |open|, q + |open| + |Escape(text, named)|;
    ElementFound(xml, o, q, open, text, close, named);
    FoundOutcome(xml, o, open, close, a0, q, c);
    r := Outcome(1, a - o, c - 1 - o);
    ElementCopy(xml, o, q, open, text, close, named, r.a, r.b);
    assert Past(o, r.b) == c;
    assert StartsWith(xml, c, close);
  }

  /** Where the parts of an item's text start, counted from the start of the item. */
  function TitleOffset(e: Entry): nat {
    |e.lead|
  }

  function GapOffset(e: Entry, named: bool): nat {
    |e.lead| + |TITLE_OPEN| + |Escape(e.title, named)| + |TITLE_CLOSE|
  }

  function DescOffset(e: Entry, named: bool): nat {
    GapOffset(e, named) + |e.gap|
  }

  /** The parts of an item's text, each at its offset. */
  lemma {:induction false} EntryLayout(xml: seq<char>, g: nat, e: Entry, named: bool)
    requires StartsWith(xml, g, EntryText(e, named))
    ensures StartsWith(xml, g, e.lead)
    ensures ElementSits(xml, g + TitleOffset(e), TITLE_OPEN, e.title, TITLE_CLOSE, named)
    ensures StartsWith(xml, g + GapOffset(e, named), e.gap)
    ensures ElementSits(xml, g + DescOffset(e, named), DESC_OPEN, e.description, DESC_CLOSE, named)
    ensures |EntryText(e, named)| == DescOffset(e, named) + |DESC_OPEN| + |Escape(e.description, named)| + |DESC_CLOSE|
  {
    var title := Element(TITLE_OPEN, e.title, TITLE_CLOSE, named);
    var desc := Element(DESC_OPEN, e.description, DESC_CLOSE, named);
    SplitSpelling(xml, g, e.lead + title + e.gap, desc);
    SplitSpelling(xml, g, e.lead + title, e.gap);
    SplitSpelling(xml, g, e.lead, title);
    ElementSplit(xml, g + TitleOffset(e), TITLE_OPEN, e.title, TITLE_CLOSE, named);
    ElementSplit(xml, g + DescOffset(e, named), DESC_OPEN, e.description, DESC_CLOSE, named);
  }

  /** Two stretches without the marker m make one. */
  lemma {:induction false} QuietJoin(xml: seq<char>, lo: nat, mid: nat, hi: nat, m: seq<char>)
    requires lo <= mid <= hi && Quiet(xml, lo, mid, m) && Quiet(xml, mid, hi, m)
    ensures Quiet(xml, lo, hi, m)
  {
  }

  /**
   * A search from the start o of a closing marker w for an element at q
   * that follows it after the filler lead at g, which holds no opening
   * marker of the element: search() finds the element and copy() restores
   * its text.
   */
  lemma {:induction false} AfterMarker(xml: seq<char>, o: nat, w: seq<char>, g: nat, lead: seq<char>, q: nat,
                                       open: seq<char>, text: seq<char>, close: seq<char>, named: bool, a0: int)
      returns (r: Outcome)
    requires Terminated(xml) && Closer(w) && Opener(open) && Closer(close) && Literal(text)
    requires StartsWith(xml, o, w) && g == o + |w| && StartsWith(xml, g, lead) && Filler(lead, open) && q == g + |lead|
    requires ElementSits(xml, q, open, text, close, named)
    ensures Scan(xml, o, open, close, a0) == r && r.rc == 1 && 0 <= r.a <= r.b && r.a == q + |open| - o
    ensures CopyOut(xml, o, r.a, r.b) == Some(text)
    ensures Past(o, r.b) == q + |open| + |Escape(text, named)| && Past(o, r.b) + |close| < |xml| && StartsWith(xml, Past(o, r.b), close)
  {
    MarkerQuiet(xml, o, w, open);
    assert xml[q] == open[0];
    FillerQuiet(xml, g, lead, open);
    QuietJoin(xml, o, g, q, open);
    r := ElementAt(xml, o, q, open, text, close, named, a0);
  }

  /**
   * The searches of one turn from o: the title search t succeeds and its
   * copy gives title, then the description search d from just past the
   * title succeeds and its copy gives desc.
   */
  predicate TurnReads(xml: seq<char>, o: nat, i: int, t: Outcome, d: Outcome, title: seq<char>, desc: seq<char>)
    requires Terminated(xml) && o < |xml|
  {
    MarkersAreLiterals();
    Scan(xml, o, TITLE_OPEN, TITLE_CLOSE, i) == t && t.rc == 1 && 0 <= t.a <= t.b &&
    CopyOut(xml, o, t.a, t.b) == Some(title) && Past(o, t.b) < |xml| &&
    Scan(xml, Past(o, t.b), DESC_OPEN, DESC_CLOSE, t.a) == d && d.rc == 1 && 0 <= d.a <= d.b &&
    CopyOut(xml, Past(o, t.b), d.a, d.b) == Some(desc)
  }

  /** The title search of a turn from the closing marker w at o, when a well-formed item follows it. */
  lemma {:induction false} TitlePart(xml: seq<char>, o: nat, w: seq<char>, g: nat, e: Entry, named: bool, i: int) returns (t: Outcome)
    requires Terminated(xml) && GoodEntry(e) && Closer(w) && StartsWith(xml, o, w)
    requires g == o + |w| && StartsWith(xml, g, EntryText(e, named))
    ensures Scan(xml, o, TITLE_OPEN, TITLE_CLOSE, i) == t && t.rc == 1 && 0 <= t.a <= t.b
    ensures CopyOut(xml, o, t.a, t.b) == Some(e.title)
    ensures Past(o, t.b) + |TITLE_CLOSE| == g + GapOffset(e, named) && StartsWith(xml, Past(o, t.b), TITLE_CLOSE)
  {
    MarkerKinds();
    EntryLayout(xml, g, e, named);
    t := AfterMarker(xml, o, w, g, e.lead, g + TitleOffset(e), TITLE_OPEN, e.title, TITLE_CLOSE, named, i);
  }

  /** The description search of the same turn, from the title's closing marker at p. */
  lemma {:induction false} DescriptionPart(xml: seq<char>, g: nat, e: Entry, named: bool, p: nat, a0: int)
      returns (d: Outcome)
    requires Terminated(xml) && GoodEntry(e) && StartsWith(xml, g, EntryText(e, named))
    requires StartsWith(xml, p, TITLE_CLOSE) && p + |TITLE_CLOSE| == g + GapOffset(e, named)
    ensures Scan(xml, p, DESC_OPEN, DESC_CLOSE, a0) == d && d.rc == 1 && 0 <= d.a <= d.b
    ensures d.a == |e.gap| + |DESC_OPEN| + |TITLE_CLOSE|
    ensures CopyOut(xml, p, d.a, d.b) == Some(e.description)
    ensures Past(p, d.b) + |DESC_CLOSE| == g + |EntryText(e, named)| && StartsWith(xml, Past(p, d.b), DESC_CLOSE)
  {
    MarkerKinds();
    EntryLayout(xml, g, e, named);
    d := AfterMarker(xml, p, TITLE_CLOSE, g + GapOffset(e, named), e.gap, g + DescOffset(e, named),
                     DESC_OPEN, e.description, DESC_CLOSE, named, a0);
  }

  /**
   * What the two searches of a turn report when a well-formed item follows
   * the closing marker w at o: the title search t from o and the
   * description search d from just past the title both succeed, their
   * copies restore the item's title and description, and the cursor ends
   * on the item's closing </description>.
   */
  lemma {:induction false} EntryParts(xml: seq<char>, o: nat, w: seq<char>, g: nat, e: Entry, named: bool, i: int)
      returns (t: Outcome, d: Outcome)
    requires Terminated(xml) && GoodEntry(e) && Closer(w) && StartsWith(xml, o, w)
    requires g == o + |w| && StartsWith(xml, g, EntryText(e, named))
    ensures o < |xml| && TurnReads(xml, o, i, t, d, e.title, e.description) && 0 <= t.b && 0 <= d.b
    ensures d.a == |e.gap| + |DESC_OPEN| + |TITLE_CLOSE|
    ensures Past(Past(o, t.b), d.b) + |DESC_CLOSE| == g + |EntryText(e, named)|
    ensures StartsWith(xml, Past(Past(o, t.b), d.b), DESC_CLOSE)
  {
    t := TitlePart(xml, o, w, g, e, named, i);
    d := DescriptionPart(xml, g, e, named, Past(o, t.b), t.a);
  }

  /** With the title copied, a description found, allocated and copied completes the item. */
  lemma {:induction false} DescriptionStores(xml: seq<char>, o: nat, t: Outcome, alloc: seq<bool>, m: nat, title: seq<char>,
                                             d: Outcome, desc: seq<char>)
      returns (at: nat, o': nat, i': int)
    requires Terminated(xml) && 0 <= t.a <= t.b && Past(o, t.b) < |xml| && NeverFails(alloc)
    requires Scan(xml, Past(o, t.b), DESC_OPEN, DESC_CLOSE, t.a) == d && d.rc == 1 && 0 <= d.a <= d.b
    requires CopyOut(xml, Past(o, t.b), d.a, d.b) == Some(desc)
    ensures o' == Past(Past(o, t.b), d.b) && i' == d.a
    ensures DescribeStep(xml, o, t, alloc, m, title) == Next(Stored(RssItem(title, Some(desc)), at), o', i', m + 1)
  {
    assert Granted(alloc, m);
    at, o', i' := o + t.a, Past(Past(o, t.b), d.b), d.a;
  }

  /**
   * A turn whose title search and description search both succeed and
   * whose copies stay inside the document, with every malloc granted: it
   * stores the title and the description and moves the cursor past the
   * description.
   */
  lemma {:induction false} TurnStores(xml: seq<char>, o: nat, i: int, alloc: seq<bool>, m: nat, t: Outcome, d: Outcome,
                                      title: seq<char>, desc: seq<char>)
      returns (at: nat, o': nat, i': int)
    requires Terminated(xml) && o < |xml| && NeverFails(alloc) && TurnReads(xml, o, i, t, d, title, desc)
    ensures 0 <= t.b && 0 <= d.b && o' == Past(Past(o, t.b), d.b) && i' == d.a
    ensures NextStep(xml, o, i, alloc, m) == Next(Stored(RssItem(title, Some(desc)), at), o', i', m + 3)
  {
    assert Granted(alloc, m) && Granted(alloc, m + 1);
    assert NextStep(xml, o, i, alloc, m) == DescribeStep(xml, o, t, alloc, m + 2, title);
    at, o', i' := DescriptionStores(xml, o, t, alloc, m + 2, title, d, desc);
  }

  /**
   * A turn from the start o of a closing marker w, when a well-formed item
   * follows it: the turn stores the item's title and description, makes
   * three allocations, and leaves the cursor on the item's closing
   * </description>.
   */
  lemma {:induction false} EntryTurn(xml: seq<char>, o: nat, w: seq<char>, g: nat, e: Entry, named: bool, i: int, alloc: seq<bool>, m: nat)
      returns (at: nat, o': nat, i': int)
    requires Terminated(xml) && NeverFails(alloc) && GoodEntry(e) && Closer(w) && StartsWith(xml, o, w)
    requires g == o + |w| && StartsWith(xml, g, EntryText(e, named))
    ensures o < |xml|
    ensures NextStep(xml, o, i, alloc, m) == Next(Stored(RssItem(e.title, Some(e.description)), at), o', i', m + 3)
    ensures o' + |DESC_CLOSE| == g + |EntryText(e, named)| && i' == |e.gap| + |DESC_OPEN| + |TITLE_CLOSE|
  {
    var t, d := EntryParts(xml, o, w, g, e, named, i);
    at, o', i' := TurnStores(xml, o, i, alloc, m, t, d, e.title, e.description);
  }

  // ---------------------------------------------------------------------------
  // The whole feed

  /** Items es laid out from pos on, and then no opening <title> up to the terminator. */
  predicate EntriesAt(xml: seq<char>, pos: nat, es: seq<Entry>, named: bool)
    decreases |es|
  {
    if es == [] then Quiet(xml, pos, |xml|, TITLE_OPEN)
    else
      GoodEntry(es[0]) && StartsWith(xml, pos, EntryText(es[0], named)) &&
      EntriesAt(xml, pos + |EntryText(es[0], named)|, es[1..], named)
  }

  /** The items of a document, followed by filler and the terminator, are laid out as EntriesAt says. */
  lemma {:induction false} EntriesLaidOut(xml: seq<char>, pos: nat, es: seq<Entry>, tail: seq<char>, named: bool, end: nat)
    requires Terminated(xml) && (forall k :: 0 <= k < |es| ==> GoodEntry(es[k])) && Filler(tail, TITLE_OPEN)
    requires StartsWith(xml, pos, Entries(es, named)) && end == pos + |Entries(es, named)|
    requires StartsWith(xml, end, tail) && end + |tail| == |xml| - 1
    ensures EntriesAt(xml, pos, es, named)
    decreases |es|
  {
    if es == [] {
      TailQuiet(xml, pos, tail);
    } else {
      SplitSpelling(xml, pos, EntryText(es[0], named), Entries(es[1..], named));
      EntriesLaidOut(xml, pos + |EntryText(es[0], named)|, es[1..], tail, named, end);
    }
  }

  /** No opening <title> after the closing marker w at o: the turn writes nothing and moves nothing. */
  lemma {:induction false} QuietTurn(xml: seq<char>, o: nat, w: seq<char>, i: int, alloc: seq<bool>, m: nat)
    requires Terminated(xml) && Closer(w) && StartsWith(xml, o, w)
    requires Quiet(xml, o + |w|, |xml|, TITLE_OPEN)
    ensures o < |xml| && NextStep(xml, o, i, alloc, m) == Next(Unwritten, o, i, m)
  {
    MarkersAreLiterals();
    MarkerQuiet(xml, o, w, TITLE_OPEN);
    QuietJoin(xml, o, o + |w|, |xml|, TITLE_OPEN);
    NotFoundOutcome(xml, o, TITLE_OPEN, TITLE_CLOSE, i);
  }

  /**
   * From the cursor o on, each turn stores the next of the items es, title
   * and description, with three allocations; once they are used up, a turn
   * writes nothing and leaves the cursor where it is.
   */
  predicate Turns(xml: seq<char>, o: nat, i: int, alloc: seq<bool>, m: nat, es: seq<Entry>)
    requires Terminated(xml)
    decreases |es|
  {
    o < |xml| &&
    var st := NextStep(xml, o, i, alloc, m);
    if es == [] then st == Next(Unwritten, o, i, m)
    else
      st.Next? && st.slot.Stored? && st.slot.item == RssItem(es[0].title, Some(es[0].description)) && st.m == m + 3 &&
      Turns(xml, st.o, st.i, alloc, st.m, es[1..])
  }

  /** A turn that stores the first item of es, followed by turns that store the rest, makes turns that store all of them. */
  lemma {:induction false} TurnsCons(xml: seq<char>, o: nat, i: int, alloc: seq<bool>, m: nat, es: seq<Entry>,
                                     at: nat, o': nat, i': int)
    requires Terminated(xml) && o < |xml| && es != []
    requires NextStep(xml, o, i, alloc, m) == Next(Stored(RssItem(es[0].title, Some(es[0].description)), at), o', i', m + 3)
    requires Turns(xml, o', i', alloc, m + 3, es[1..])
    ensures Turns(xml, o, i, alloc, m, es)
  {
  }

  /** Where the turn that reads the item e ends: on the closing </description>. */
  lemma {:induction false} EntryExit(xml: seq<char>, o: nat, w: seq<char>, pos: nat, es: seq<Entry>, named: bool)
      returns (o': nat, pos': nat, i': int)
    requires pos == o + |w| && es != [] && EntriesAt(xml, pos, es, named)
    ensures pos' == pos + |EntryText(es[0], named)| && pos' == o' + |DESC_CLOSE| && i' == |es[0].gap| + |DESC_OPEN| + |TITLE_CLOSE|
    ensures Closer(DESC_CLOSE) && StartsWith(xml, o', DESC_CLOSE) && EntriesAt(xml, pos', es[1..], named)
    ensures GoodEntry(es[0]) && StartsWith(xml, pos, EntryText(es[0], named))
  {
    var e := es[0];
    EntryLayout(xml, pos, e, named);
    MarkerKinds();
    o', pos', i' := pos + DescOffset(e, named) + |DESC_OPEN| + |Escape(e.description, named)|, pos + |EntryText(e, named)|,
                    |e.gap| + |DESC_OPEN| + |TITLE_CLOSE|;
  }

  /** The turn at o reads the first item of es and ends at o', and the turns from o' read the rest: the turns from o read them all. */
  lemma {:induction false} EntryCons(xml: seq<char>, o: nat, w: seq<char>, pos: nat, es: seq<Entry>, named: bool, i: int, alloc: seq<bool>, m: nat,
                                     o': nat, pos': nat, i': int)
    requires Terminated(xml) && NeverFails(alloc) && Closer(w) && StartsWith(xml, o, w)
    requires pos == o + |w| && es != [] && GoodEntry(es[0]) && StartsWith(xml, pos, EntryText(es[0], named))
    requires pos' == pos + |EntryText(es[0], named)| && pos' == o' + |DESC_CLOSE| && i' == |es[0].gap| + |DESC_OPEN| + |TITLE_CLOSE|
    requires Turns(xml, o', i', alloc, m + 3, es[1..])
    ensures Turns(xml, o, i, alloc, m, es)
  {
    var at, o2, i2 := EntryTurn(xml, o, w, pos, es[0], named, i, alloc, m);
    assert o2 == o';
    TurnsCons(xml, o, i, alloc, m, es, at, o', i');
  }

  /** From a closing marker w at o followed by the items es, the turns store every item in order, then find no more titles. */
  lemma {:induction false} LayoutTurns(xml: seq<char>, o: nat, w: seq<char>, pos: nat, i: int, alloc: seq<bool>, m: nat,
                                       es: seq<Entry>, named: bool)
    requires Terminated(xml) && NeverFails(alloc)
    requires Closer(w) && StartsWith(xml, o, w) && pos == o + |w| && EntriesAt(xml, pos, es, named)
    ensures Turns(xml, o, i, alloc, m, es)
    decreases |es|, 1
  {
    if es == [] {
      QuietTurn(xml, o, w, i, alloc, m);
    } else {
      LayoutTurnsCons(xml, o, w, pos, i, alloc, m, es, named);
    }
  }

  /** The turn from w at o stores the first item of es and ends on its closing </description>, from which the turns store the rest. */
  lemma {:induction false} LayoutTurnsCons(xml: seq<char>, o: nat, w: seq<char>, pos: nat, i: int, alloc: seq<bool>, m: nat,
                                           es: seq<Entry>, named: bool)
    requires Terminated(xml) && NeverFails(alloc) && es != []
    requires Closer(w) && StartsWith(xml, o, w) && pos == o + |w| && EntriesAt(xml, pos, es, named)
    ensures Turns(xml, o, i, alloc, m, es)
    decreases |es|, 0
  {
    var o', pos', i' := EntryExit(xml, o, w, pos, es, named);
    LayoutTurns(xml, o', DESC_CLOSE, pos', i', alloc, m + 3, es[1..], named);
    EntryCons(xml, o, w, pos, es, named, i, alloc, m, o', pos', i');
  }

  /** After the twelfth turn the table holds what the turns stored, whatever items are left. */
  lemma {:induction false} ReadsAtEnd(xml: seq<char>, o: nat, i: int, alloc: seq<bool>, m: nat, done: seq<Slot>, es: seq<Entry>, g: Generation)
    requires Terminated(xml) && |done| == MAXLEN && g == Run(xml, o, i, MAXLEN, alloc, m, done)
    ensures Reads(g, done, es)
  {
    RunEnd(xml, alloc, o, i, m, done, g);
    assert g.slots[..MAXLEN] == done;
  }

  /** When the turn at o finds no more titles, the rest of the table stays unwritten. */
  lemma {:induction false} ReadsNoMore(xml: seq<char>, o: nat, i: int, n: nat, alloc: seq<bool>, m: nat, done: seq<Slot>, g: Generation)
    requires Terminated(xml) && n < MAXLEN && |done| == n
    requires g == Run(xml, o, i, n, alloc, m, done) && Turns(xml, o, i, alloc, m, [])
    ensures Reads(g, done, [])
  {
    RunStaysUnwritten(xml, o, i, n, alloc, m, done, g);
    assert g.slots[..n] == done;
  }

  /** A turn that stores the first item of es: the loop goes on from where it leaves the cursor, with the turns that store the rest. */
  lemma {:induction false} TurnThen(xml: seq<char>, o: nat, i: int, n: nat, alloc: seq<bool>, m: nat, done: seq<Slot>, es: seq<Entry>, g: Generation)
      returns (st: Step)
    requires Terminated(xml) && n < MAXLEN && |done| == n && es != []
    requires g == Run(xml, o, i, n, alloc, m, done) && Turns(xml, o, i, alloc, m, es)
    ensures st.Next? && st.slot.Stored? && st.slot.item == RssItem(es[0].title, Some(es[0].description))
    ensures g == Run(xml, st.o, st.i, n + 1, alloc, st.m, done + [st.slot]) && Turns(xml, st.o, st.i, alloc, st.m, es[1..])
  {
    st := NextStep(xml, o, i, alloc, m);
    RunStep(xml, alloc, o, i, n, m, done, g, st, st.o, st.i, n + 1, st.m, done + [st.slot]);
  }

  /**
   * The loop from turn n on, when the turns from its cursor store the items
   * es in order: it stores them, up to the twelfth, and leaves the rest of
   * the table unwritten.
   */
  lemma {:induction false} RunFollowsTurns(xml: seq<char>, o: nat, i: int, n: nat, alloc: seq<bool>, m: nat,
                                           done: seq<Slot>, es: seq<Entry>, g: Generation)
    requires Terminated(xml) && n <= MAXLEN && |done| == n
    requires g == Run(xml, o, i, n, alloc, m, done) && Turns(xml, o, i, alloc, m, es)
    ensures Reads(g, done, es)
    decreases MAXLEN - n, 1
  {
    if n < MAXLEN && es != [] {
      ReadsFirstThenRest(xml, o, i, n, alloc, m, done, es, g);
    } else if n == MAXLEN {
      ReadsAtEnd(xml, o, i, alloc, m, done, es, g);
    } else {
      ReadsNoMore(xml, o, i, n, alloc, m, done, g);
    }
  }

  /** The turn at the cursor stores the first item of es; the loop from the next turn on stores the rest. */
  lemma {:induction false} ReadsFirstThenRest(xml: seq<char>, o: nat, i: int, n: nat, alloc: seq<bool>, m: nat,
                                              done: seq<Slot>, es: seq<Entry>, g: Generation)
    requires Terminated(xml) && n < MAXLEN && |done| == n && es != []
    requires g == Run(xml, o, i, n, alloc, m, done) && Turns(xml, o, i, alloc, m, es)
    ensures Reads(g, done, es)
    decreases MAXLEN - n, 0
  {
    var st := TurnThen(xml, o, i, n, alloc, m, done, es, g);
    RunFollowsTurns(xml, st.o, st.i, n + 1, alloc, st.m, done + [st.slot], es[1..], g);
    HoldsShift(g, done, st.slot, es);
  }

  /** A run that stores the first item in the slot after done and the others after it reads all of them. */
  lemma {:induction false} HoldsShift(g: Generation, done: seq<Slot>, slot: Slot, es: seq<Entry>)
    requires |done| < MAXLEN && es != [] && Reads(g, done + [slot], es[1..])
    requires slot.Stored? && slot.item == RssItem(es[0].title, Some(es[0].description))
    ensures Reads(g, done, es)
  {
    var n := |done|;
    PrefixShorter(g.slots, done, slot);
    forall k | n < k < MAXLEN
      ensures Holds(g.slots[k], es, k - n)
    {
      assert Holds(g.slots[k], es[1..], k - (n + 1));
    }
  }

  /** The loop started on a closing </title> that the items es follow reads them all. */
  lemma {:induction false} ItemsRead(xml: seq<char>, o: nat, pos: nat, i: int, alloc: seq<bool>, es: seq<Entry>, named: bool, g: Generation)
    requires Terminated(xml) && NeverFails(alloc)
    requires StartsWith(xml, o, TITLE_CLOSE) && pos == o + |TITLE_CLOSE| && EntriesAt(xml, pos, es, named)
    requires g == Run(xml, o, i, 0, alloc, 0, [])
    ensures Reads(g, [], es)
  {
    MarkerKinds();
    LayoutTurns(xml, o, TITLE_CLOSE, pos, i, alloc, 0, es, named);
    RunFollowsTurns(xml, o, i, 0, alloc, 0, [], es, g);
  }

  lemma {:induction false} HeadingNulFree(h: Heading, named: bool)
    requires GoodHeading(h)
    ensures NulFree(HeadingText(h, named))
  {
    MarkersAreLiterals();
    EscapeClean(h.title, named);
  }

  lemma {:induction false} EntriesNulFree(es: seq<Entry>, named: bool)
    requires forall k :: 0 <= k < |es| ==> GoodEntry(es[k])
    ensures NulFree(Entries(es, named))
    decreases |es|
  {
    if es != [] {
      MarkersAreLiterals();
      EscapeClean(es[0].title, named);
      EscapeClean(es[0].description, named);
      EntriesNulFree(es[1..], named);
    }
  }

  /** The C string u1 + u2 + us + tail and its terminator, each part at its offset. */
  predicate Shape(xml: seq<char>, u1: seq<char>, u2: seq<char>, us: seq<char>, tail: seq<char>) {
    Terminated(xml) && StartsWith(xml, 0, u1) && StartsWith(xml, |u1|, u2) && StartsWith(xml, |u1| + |u2|, us) &&
    StartsWith(xml, |u1| + |u2| + |us|, tail) && |xml| == |u1| + |u2| + |us| + |tail| + 1
  }

  /** Five texts joined, each at its offset. */
  lemma {:induction false} PartsAt(xml: seq<char>, u1: seq<char>, u2: seq<char>, us: seq<char>, tail: seq<char>)
    requires xml == u1 + u2 + us + tail + [NUL]
    ensures StartsWith(xml, 0, u1) && StartsWith(xml, |u1|, u2) && StartsWith(xml, |u1| + |u2|, us) &&
      StartsWith(xml, |u1| + |u2| + |us|, tail) && |xml| == |u1| + |u2| + |us| + |tail| + 1
  {
    assert StartsWith(xml, 0, xml);
    SplitSpelling(xml, 0, u1 + u2 + us + tail, [NUL]);
    SplitSpelling(xml, 0, u1 + u2 + us, tail);
    SplitSpelling(xml, 0, u1 + u2, us);
    SplitSpelling(xml, 0, u1, u2);
  }

  /** Texts without a NUL, joined and terminated, make a C string. */
  lemma {:induction false} PartsTerminated(xml: seq<char>, u1: seq<char>, u2: seq<char>, us: seq<char>, tail: seq<char>)
    requires xml == u1 + u2 + us + tail + [NUL]
    requires NulFree(u1) && NulFree(u2) && NulFree(us) && NulFree(tail)
    ensures Terminated(xml)
  {
  }

  /** Texts without a NUL, joined and terminated, have the shape of a document. */
  lemma {:induction false} ShapeOf(xml: seq<char>, u1: seq<char>, u2: seq<char>, us: seq<char>, tail: seq<char>)
    requires xml == u1 + u2 + us + tail + [NUL]
    requires NulFree(u1) && NulFree(u2) && NulFree(us) && NulFree(tail)
    ensures Shape(xml, u1, u2, us, tail)
  {
    PartsTerminated(xml, u1, u2, us, tail);
    PartsAt(xml, u1, u2, us, tail);
  }

  /** A document built from well-formed parts has the shape of one. */
  lemma {:induction false} DocumentShape(h1: Heading, h2: Heading, es: seq<Entry>, tail: seq<char>, named: bool)
    requires GoodHeading(h1) && GoodHeading(h2) && (forall k :: 0 <= k < |es| ==> GoodEntry(es[k])) && Filler(tail, TITLE_OPEN)
    ensures Shape(Document(h1, h2, es, tail, named), HeadingText(h1, named), HeadingText(h2, named), Entries(es, named), tail)
  {
    HeadingNulFree(h1, named);
    HeadingNulFree(h2, named);
    EntriesNulFree(es, named);
    ShapeOf(Document(h1, h2, es, tail, named), HeadingText(h1, named), HeadingText(h2, named), Entries(es, named), tail);
  }

  /** A title search from o finds a channel title laid out at g and stops the cursor on its closing marker. */
  lemma {:induction false} HeadingAt(xml: seq<char>, o: nat, g: nat, h: Heading, named: bool, a0: int) returns (t: Outcome)
    requires Terminated(xml) && o <= g && Quiet(xml, o, g, TITLE_OPEN) && GoodHeading(h)
    requires StartsWith(xml, g, HeadingText(h, named))
    ensures Scan(xml, o, TITLE_OPEN, TITLE_CLOSE, a0) == t && 0 <= t.b
    ensures Past(o, t.b) + |TITLE_CLOSE| == g + |HeadingText(h, named)| && StartsWith(xml, Past(o, t.b), TITLE_CLOSE)
  {
    MarkerKinds();
    var q := g + |h.lead|;
    SplitSpelling(xml, g, h.lead, Element(TITLE_OPEN, h.title, TITLE_CLOSE, named));
    ElementSplit(xml, q, TITLE_OPEN, h.title, TITLE_CLOSE, named);
    assert xml[q] == TITLE_OPEN[0];
    FillerQuiet(xml, g, h.lead, TITLE_OPEN);
    QuietJoin(xml, o, g, q, TITLE_OPEN);
    t := ElementAt(xml, o, q, TITLE_OPEN, h.title, TITLE_CLOSE, named, a0);
  }

  /**
   * The two title searches before the loop find the channel's own titles
   * and leave the cursor on the second one's closing marker, where the
   * items begin.
   */
  lemma {:induction false} ChannelFound(xml: seq<char>, h1: Heading, h2: Heading, es: seq<Entry>, tail: seq<char>, named: bool)
      returns (t1: Outcome, t2: Outcome)
    requires GoodHeading(h1) && GoodHeading(h2) && Shape(xml, HeadingText(h1, named), HeadingText(h2, named), Entries(es, named), tail)
    ensures Scan(xml, 0, TITLE_OPEN, TITLE_CLOSE, 0) == t1 && 0 <= t1.b && Past(0, t1.b) < |xml|
    ensures Scan(xml, Past(0, t1.b), TITLE_OPEN, TITLE_CLOSE, t1.a) == t2 && 0 <= t2.b
    ensures StartsWith(xml, Past(Past(0, t1.b), t2.b), TITLE_CLOSE)
    ensures Past(Past(0, t1.b), t2.b) + |TITLE_CLOSE| == |HeadingText(h1, named)| + |HeadingText(h2, named)|
  {
    MarkerKinds();
    t1 := HeadingAt(xml, 0, 0, h1, named, 0);
    var o1 := Past(0, t1.b);
    MarkerQuiet(xml, o1, TITLE_CLOSE, TITLE_OPEN);
    t2 := HeadingAt(xml, o1, |HeadingText(h1, named)|, h2, named, t1.a);
  }

  /** The items of a well-formed document follow its two channel titles. */
  lemma {:induction false} DocumentEntries(xml: seq<char>, pos: nat, u1: seq<char>, u2: seq<char>, es: seq<Entry>, tail: seq<char>, named: bool)
    requires (forall k :: 0 <= k < |es| ==> GoodEntry(es[k])) && Filler(tail, TITLE_OPEN)
    requires Shape(xml, u1, u2, Entries(es, named), tail) && pos == |u1| + |u2|
    ensures EntriesAt(xml, pos, es, named)
  {
    ShapeFrom(xml, u1, u2, Entries(es, named), tail, pos);
    EntriesLaidOut(xml, pos, es, tail, named, pos + |Entries(es, named)|);
  }

  /** In a document of that shape, the items us sit at pos, just past the two channel titles, and the filler after them. */
  lemma {:induction false} ShapeFrom(xml: seq<char>, u1: seq<char>, u2: seq<char>, us: seq<char>, tail: seq<char>, pos: nat)
    requires Shape(xml, u1, u2, us, tail) && pos == |u1| + |u2|
    ensures StartsWith(xml, pos, us) && StartsWith(xml, pos + |us|, tail) && pos + |us| + |tail| == |xml| - 1
  {
  }

  /** Once the two title searches before the loop have found t1 and t2, parse() is the loop from just past the second. */
  lemma {:induction false} ParseStarts(xml: seq<char>, alloc: seq<bool>, t1: Outcome, t2: Outcome)
    requires Terminated(xml)
    requires Scan(xml, 0, TITLE_OPEN, TITLE_CLOSE, 0) == t1 && 0 <= t1.b && Past(0, t1.b) < |xml|
    requires Scan(xml, Past(0, t1.b), TITLE_OPEN, TITLE_CLOSE, t1.a) == t2 && 0 <= t2.b
    ensures ParseSpec(xml, alloc) == Run(xml, Past(Past(0, t1.b), t2.b), t2.a, 0, alloc, 0, [])
  {
  }

  /**
   * Where the loop starts on a document whose items es are laid out from
   * pos on: on a closing </title> at o just before them, with parse()
   * handing it the cursor o and the content start i.
   */
  predicate Launch(xml: seq<char>, alloc: seq<bool>, o: nat, pos: nat, i: int, es: seq<Entry>, named: bool)
    requires Terminated(xml)
  {
    StartsWith(xml, o, TITLE_CLOSE) && pos == o + |TITLE_CLOSE| && EntriesAt(xml, pos, es, named) &&
    ParseSpec(xml, alloc) == Run(xml, o, i, 0, alloc, 0, [])
  }

  /** The table after parse(): no overrun, twelve slots, and slot k holds the k-th item or, past the last one, nothing. */
  predicate ReadsAll(g: Generation, es: seq<Entry>) {
    !g.overrun && |g.slots| == MAXLEN && forall k :: 0 <= k < MAXLEN ==> Holds(g.slots[k], es, k)
  }

  /** A well-formed document is a C string, and the loop starts on the second channel title's closing marker, just before the items. */
  lemma {:induction false} FeedStart(xml: seq<char>, h1: Heading, h2: Heading, es: seq<Entry>, tail: seq<char>, named: bool, alloc: seq<bool>)
      returns (o: nat, pos: nat, i: int)
    requires GoodHeading(h1) && GoodHeading(h2) && (forall k :: 0 <= k < |es| ==> GoodEntry(es[k]))
    requires Filler(tail, TITLE_OPEN) && Shape(xml, HeadingText(h1, named), HeadingText(h2, named), Entries(es, named), tail)
    ensures Launch(xml, alloc, o, pos, i, es, named)
  {
    pos := |HeadingText(h1, named)| + |HeadingText(h2, named)|;
    DocumentEntries(xml, pos, HeadingText(h1, named), HeadingText(h2, named), es, tail, named);
    var t1, t2 := ChannelFound(xml, h1, h2, es, tail, named);
    ParseStarts(xml, alloc, t1, t2);
    o, i := Past(Past(0, t1.b), t2.b), t2.a;
  }

  /** From its start, the loop reads all the items. */
  lemma {:induction false} LaunchReads(xml: seq<char>, alloc: seq<bool>, o: nat, pos: nat, i: int, es: seq<Entry>, named: bool)
    requires Terminated(xml) && NeverFails(alloc) && Launch(xml, alloc, o, pos, i, es, named)
    ensures ReadsAll(ParseSpec(xml, alloc), es)
  {
    var g := ParseSpec(xml, alloc);
    ItemsRead(xml, o, pos, i, alloc, es, named, g);
    assert forall k :: 0 <= k < MAXLEN ==> Holds(g.slots[k], es, k - 0);
  }

  /**
   * parse() on a well-formed feed: whatever the channel titles, the text
   * around the elements and the entity spelling, when every malloc succeeds
   * the table holds the first twelve items in document order with their
   * titles and descriptions restored, and the slots past the last item are
   * unwritten; rss_len reaches twelve and nothing is read past the
   * terminator.
   */
  lemma {:induction false} ReadsEveryItem(h1: Heading, h2: Heading, es: seq<Entry>, tail: seq<char>, named: bool, alloc: seq<bool>)
    requires GoodHeading(h1) && GoodHeading(h2) && (forall k :: 0 <= k < |es| ==> GoodEntry(es[k]))
    requires Filler(tail, TITLE_OPEN) && NeverFails(alloc)
    ensures Terminated(Document(h1, h2, es, tail, named))
    ensures var g := ParseSpec(Document(h1, h2, es, tail, named), alloc);
      !g.overrun && |g.slots| == MAXLEN && forall k :: 0 <= k < MAXLEN ==> Holds(g.slots[k], es, k)
  {
    var xml := Document(h1, h2, es, tail, named);
    DocumentShape(h1, h2, es, tail, named);
    var o, pos, i := FeedStart(xml, h1, h2, es, tail, named, alloc);
    LaunchReads(xml, alloc, o, pos, i, es, named);
  }

  /**
   * The description search of a turn is not bounded by the next <title>. A
   * document with two items, the first (title a) without a description and
   * the second with the title b and the description d, reads as one item:
   * the table holds a with d, and b is lost, with every later slot
   * unwritten.
   */
  lemma {:induction false} DescriptionOverreach(h1: Heading, h2: Heading, a: seq<char>, b: seq<char>, d: seq<char>,
                                                tail: seq<char>, named: bool, alloc: seq<bool>)
    requires GoodHeading(h1) && GoodHeading(h2) && Literal(a) && Literal(d)
    requires Filler(Element(TITLE_OPEN, b, TITLE_CLOSE, named), DESC_OPEN)
    requires Filler(tail, TITLE_OPEN) && NeverFails(alloc)
    ensures var xml := Document(h1, h2, [Entry([], a, Element(TITLE_OPEN, b, TITLE_CLOSE, named), d)], tail, named);
      Terminated(xml) &&
      var g := ParseSpec(xml, alloc);
      |g.slots| == MAXLEN && g.slots[0].Stored? && g.slots[0].item == RssItem(a, Some(d)) &&
      forall k :: 1 <= k < MAXLEN ==> g.slots[k] == Unwritten
  {
    var e := Entry([], a, Element(TITLE_OPEN, b, TITLE_CLOSE, named), d);
    assert GoodEntry(e);
    ReadsEveryItem(h1, h2, [e], tail, named, alloc);
    var g := ParseSpec(Document(h1, h2, [e], tail, named), alloc);
    assert Holds(g.slots[0], [e], 0);
  }
}

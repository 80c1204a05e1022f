/**
 * The news feed store of main/rss.c: a fixed table of at most twelve items
 * (rss_items), its fill count rss_len and the read cursor rss_i, refilled by
 * parse() from a received, NUL-terminated RSS document.
 *
 * Heap management is modelled by ghost state: `live[k]` says whether slot k
 * holds an item allocated by the current generation. delete() frees every
 * slot below rss_len, which is only defined when all of them are live.
 * malloc is an oracle: `alloc[m]` is the outcome of the m-th allocation of a
 * parse (entries past its end succeed).
 */
module RssFeed {
  import opened Wrappers
  import opened CStrings
  import opened TagScanner
  import opened EntityDecoder
  import Cursor

  /** MAXLEN: the capacity of rss_items. */
  const MAXLEN: nat := 12

  /** struct rss_item: a title and an optional (NULL) description, both decoded text. */
  datatype RssItem = RssItem(title: seq<char>, description: Option<seq<char>>)

  /**
   * What one turn of parse()'s loop leaves in its slot: nothing (the title
   * search failed), or an item together with the offset in the document at
   * which its title text starts.
   */
  datatype Slot = Unwritten | Stored(item: RssItem, at: nat)

  /** One turn of the loop: it fills a slot and moves the cursor, breaks on a failed malloc, or reads past the terminator. */
  datatype Step = Next(slot: Slot, o: nat, i: int, m: nat) | Break | Overrun

  /**
   * A whole run of the loop: one entry per turn counted in rss_len, and
   * whether the run reads past the terminator at some point (undefined
   * behaviour in C).
   */
  datatype Generation = Generation(slots: seq<Slot>, overrun: bool)

  /** Whether the m-th allocation succeeds. */
  predicate Granted(alloc: seq<bool>, m: nat) {
    m >= |alloc| || alloc[m]
  }

  /**
   * One turn of the loop with the cursor s at offset o of the document, i the
   * content start left by the last search and m allocations made so far.
   */
  function NextStep(xml: seq<char>, o: nat, i: int, alloc: seq<bool>, m: nat): Step
    requires Terminated(xml) && o < |xml|
  {
    MarkersAreLiterals();
    var t := Scan(xml, o, TITLE_OPEN, TITLE_CLOSE, i);
    if t.rc <= 0 then Next(Unwritten, o, t.a, m)
    else if !Granted(alloc, m) || !Granted(alloc, m + 1) then Break
    else match CopyOut(xml, o, t.a, t.b)
      case None => Overrun
      case Some(title) => DescribeStep(xml, o, t, alloc, m + 2, title)
  }

  /** Where `s += j + 1` leaves the cursor s at offset p: just past the element search() reported. */
  function Past(p: nat, j: int): (r: nat)
    requires p + j + 1 >= 0
  {
    p + j + 1
  }

  /**
   * The rest of a turn once the title that search t found from offset o is
   * copied: the description search just after the title's closing tag, its
   * allocation and its copy.
   */
  function DescribeStep(xml: seq<char>, o: nat, t: Outcome, alloc: seq<bool>, m: nat, title: seq<char>): Step
    requires Terminated(xml) && 0 <= t.a <= t.b && o + t.b + 1 < |xml|
  {
    MarkersAreLiterals();
    var p, at := Past(o, t.b), o + t.a;
    var d := Scan(xml, p, DESC_OPEN, DESC_CLOSE, t.a);
    if d.rc < 0 then Next(Stored(RssItem(title, None), at), Past(p, d.b), d.a, m)
    else if !Granted(alloc, m) then Break
    else match CopyOut(xml, p, d.a, d.b)
      case None => Overrun
      case Some(desc) => Next(Stored(RssItem(title, Some(desc)), at), Past(p, d.b), d.a, m + 1)
  }

  /**
   * The loop from turn n on, once the turns before it have filled `done`:
   * the whole run. A turn that breaks or the twelfth turn ends it.
   */
  function Run(xml: seq<char>, o: nat, i: int, n: nat, alloc: seq<bool>, m: nat, done: seq<Slot>): (g: Generation)
    requires Terminated(xml) && n <= MAXLEN && |done| == n
    ensures |g.slots| <= MAXLEN
    decreases |xml|, MAXLEN - n
  {
    if n == MAXLEN then Generation(done, false)
    else if o >= |xml| then Generation(done, true)
    else match NextStep(xml, o, i, alloc, m)
      case Break => Generation(done, false)
      case Overrun => Generation(done, true)
      case Next(slot, o', i', m') => Run(xml, o', i', n + 1, alloc, m', done + [slot])
  }

  /**
   * What parse() computes when its local i holds i0 before the first search:
   * skip the first two titles (the channel's own), then run the loop.
   */
  function ParseFrom(xml: seq<char>, alloc: seq<bool>, i0: int): (g: Generation)
    requires Terminated(xml)
    ensures |g.slots| <= MAXLEN
  {
    MarkersAreLiterals();
    var h1 := Scan(xml, 0, TITLE_OPEN, TITLE_CLOSE, i0);
    var o1 := Past(0, h1.b);
    if o1 >= |xml| then Generation([], true)
    else
      var h2 := Scan(xml, o1, TITLE_OPEN, TITLE_CLOSE, h1.a);
      Run(xml, Past(o1, h2.b), h2.a, 0, alloc, 0, [])
  }

  /**
   * What parse() computes. Its local i is uninitialised before the first
   * search; it is taken here as 0, and RssProperties.ParseIgnoresStart shows
   * that any other value gives the same generation.
   */
  function ParseSpec(xml: seq<char>, alloc: seq<bool>): (g: Generation)
    requires Terminated(xml)
    ensures |g.slots| <= MAXLEN
  {
    ParseFrom(xml, alloc, 0)
  }

  /** While the run goes on without overrun its cursor is inside the document and the next turn does not overrun. */
  lemma {:induction false} RunInBounds(xml: seq<char>, alloc: seq<bool>, o: nat, i: int, n: nat, m: nat, done: seq<Slot>, g: Generation)
    requires Terminated(xml) && n < MAXLEN && |done| == n
    requires g == Run(xml, o, i, n, alloc, m, done) && !g.overrun
    ensures o < |xml| && !NextStep(xml, o, i, alloc, m).Overrun?
  {
  }

  /** A turn that breaks ends the run with the slots filled so far. */
  lemma {:induction false} RunBreak(xml: seq<char>, alloc: seq<bool>, o: nat, i: int, n: nat, m: nat, done: seq<Slot>, g: Generation)
    requires Terminated(xml) && n < MAXLEN && |done| == n && o < |xml|
    requires g == Run(xml, o, i, n, alloc, m, done) && NextStep(xml, o, i, alloc, m).Break?
    ensures g.slots == done
  {
  }

  /** A turn that goes on adds its slot and moves the cursor, the search start and the allocation count. */
  lemma {:induction false} RunStep(xml: seq<char>, alloc: seq<bool>, o: nat, i: int, n: nat, m: nat, done: seq<Slot>, g: Generation,
                                   st: Step, o': nat, i': int, n': nat, m': nat, done': seq<Slot>)
    requires Terminated(xml) && n < MAXLEN && |done| == n && o < |xml|
    requires g == Run(xml, o, i, n, alloc, m, done)
    requires st == NextStep(xml, o, i, alloc, m) && st.Next?
    requires o' == st.o && i' == st.i && n' == n + 1 && m' == st.m && done' == done + [st.slot]
    ensures g == Run(xml, o', i', n', alloc, m', done')
  {
  }

  /** After the twelfth turn the run is over. */
  lemma {:induction false} RunEnd(xml: seq<char>, alloc: seq<bool>, o: nat, i: int, m: nat, done: seq<Slot>, g: Generation)
    requires Terminated(xml) && |done| == MAXLEN
    requires g == Run(xml, o, i, MAXLEN, alloc, m, done)
    ensures g.slots == done
  {
  }

  /** One turn of the loop body up to the description search: the title search, its allocations and its copy. */
  method ReadItem(xml: seq<char>, o: nat, i0: int, alloc: seq<bool>, m: nat) returns (st: Step)
    requires Terminated(xml) && o < |xml|
    requires !NextStep(xml, o, i0, alloc, m).Overrun?
    ensures st == NextStep(xml, o, i0, alloc, m)
  {
    MarkersAreLiterals();
    var rc, i, j := Search(xml, o, TITLE_OPEN, TITLE_CLOSE, i0);
    if rc <= 0 {
      return Next(Unwritten, o, i, m);
    }
    if !Granted(alloc, m) || !Granted(alloc, m + 1) {
      // malloc() failed for the item or its title
      return Break;
    }
    var buf := new char[j - i + 2];
    var k := Copy(xml, o, buf, i, j);
    st := ReadDescription(xml, o, Outcome(rc, i, j), alloc, m + 2, buf[..k]);
  }

  /** The rest of the loop body: the description search after the title, its allocation and its copy. */
  method ReadDescription(xml: seq<char>, o: nat, t: Outcome, alloc: seq<bool>, m: nat, title: seq<char>)
    returns (st: Step)
    requires Terminated(xml) && 0 <= t.a <= t.b && o + t.b + 1 < |xml|
    requires !DescribeStep(xml, o, t, alloc, m, title).Overrun?
    ensures st == DescribeStep(xml, o, t, alloc, m, title)
  {
    MarkersAreLiterals();
    var p, at := Past(o, t.b), o + t.a;
    var rc, i, j := Search(xml, p, DESC_OPEN, DESC_CLOSE, t.a);
    if rc < 0 {
      return Next(Stored(RssItem(title, None), at), Past(p, j), i, m);
    }
    if !Granted(alloc, m) {
      // malloc() failed for the description
      return Break;
    }
    var buf := new char[j - i + 2];
    var k := Copy(xml, p, buf, i, j);
    return Next(Stored(RssItem(title, Some(buf[..k])), at), Past(p, j), i, m + 1);
  }


  /** The table after a run that produced `done` over a table that held `prev`: written slots take their item, the others keep theirs. */
  function Table(prev: seq<Option<RssItem>>, done: seq<Slot>): (t: seq<Option<RssItem>>)
    requires |done| <= |prev|
    ensures |t| == |prev|
    ensures forall k :: 0 <= k < |prev| ==> t[k] == if k < |done| && done[k].Stored? then Some(done[k].item) else prev[k]
  {
    seq(|prev|, k requires 0 <= k < |prev| => if k < |done| && done[k].Stored? then Some(done[k].item) else prev[k])
  }

  /** Which slots a run that produced `done` leaves live. */
  function Lives(done: seq<Slot>): (l: seq<bool>)
    requires |done| <= MAXLEN
    ensures |l| == MAXLEN
    ensures forall k :: 0 <= k < MAXLEN ==> l[k] == (k < |done| && done[k].Stored?)
  {
    seq(MAXLEN, k requires 0 <= k < MAXLEN => k < |done| && done[k].Stored?)
  }

  /** Storing the next slot extends the table and the live map by one entry. */
  lemma TableStep(prev: seq<Option<RssItem>>, done: seq<Slot>, slot: Slot)
    requires |done| < |prev| && |prev| == MAXLEN
    ensures Table(prev, done + [slot]) == if slot.Stored? then Table(prev, done)[|done| := Some(slot.item)] else Table(prev, done)
    ensures Lives(done + [slot]) == if slot.Stored? then Lives(done)[|done| := true] else Lives(done)
  {
  }

  /** The two searches at the top of parse() that skip the feed's own titles; the loop starts where they leave the cursor. */
  method SkipMainTitles(xml: seq<char>, alloc: seq<bool>) returns (o: nat, i: int)
    requires Terminated(xml) && !ParseSpec(xml, alloc).overrun
    ensures Run(xml, o, i, 0, alloc, 0, []) == ParseSpec(xml, alloc)
  {
    MarkersAreLiterals();
    var rc, a, b := Search(xml, 0, TITLE_OPEN, TITLE_CLOSE, 0);
    var o1 := Past(0, b);
    rc, i, b := Search(xml, o1, TITLE_OPEN, TITLE_CLOSE, a);
    o := Past(o1, b);
  }

  /** rss_items, rss_len and rss_i. */
  class Feed {
    const items: array<Option<RssItem>>
    var len: nat
    var cursor: nat
    ghost var live: seq<bool>

    ghost predicate Valid()
      reads this, items
    {
      items.Length == MAXLEN && |live| == MAXLEN && len <= MAXLEN &&
      (cursor < len || cursor == 0) &&
      forall k :: 0 <= k < MAXLEN && live[k] ==> k < len && items[k].Some?
    }

    /** The static initial state: every slot NULL, nothing to read. */
    constructor()
      ensures Valid() && fresh(items)
      ensures len == 0 && cursor == 0
      ensures forall k :: 0 <= k < MAXLEN ==> items[k] == None && !live[k]
    {
      items := new Option<RssItem>[MAXLEN](_ => None);
      len := 0;
      cursor := 0;
      live := seq(MAXLEN, _ => false);
    }

    /**
     * delete(): free the items of every slot below rss_len and reset the
     * count and the cursor. Freeing a slot that is not live is a double
     * free or a NULL dereference, so every such slot must be live.
     */
    method Delete()
      requires Valid()
      requires forall k :: 0 <= k < len ==> live[k]
      modifies this
      ensures Valid() && len == 0 && cursor == 0
      ensures forall k :: 0 <= k < MAXLEN ==> !live[k]
      ensures unchanged(items)
    {
      var k := 0;
      while k < len
        invariant k <= len <= MAXLEN && |live| == MAXLEN
        invariant forall p :: 0 <= p < MAXLEN ==> live[p] == (k <= p < len)
      {
        live := live[k := false];
        k := k + 1;
      }
      cursor := 0;
      len := 0;
    }

    /**
     * parse(): drop the previous generation and fill the table from `xml`.
     * Slots the run stores become live; the others keep whatever they held.
     */
    method Parse(xml: seq<char>, alloc: seq<bool>)
      requires Valid() && Terminated(xml)
      requires forall k :: 0 <= k < len ==> live[k]
      requires !ParseSpec(xml, alloc).overrun
      modifies this, items
      ensures Valid() && cursor == 0
      ensures len == |ParseSpec(xml, alloc).slots|
      ensures items[..] == Table(old(items[..]), ParseSpec(xml, alloc).slots)
      ensures live == Lives(ParseSpec(xml, alloc).slots)
    {
      Delete();
      var o, i := SkipMainTitles(xml, alloc);
      Fill(xml, alloc, o, i, ParseSpec(xml, alloc));
    }

    /** The loop of parse(): up to twelve turns, each storing the item it reads in the next slot. */
    method Fill(xml: seq<char>, alloc: seq<bool>, o0: nat, i0: int, ghost whole: Generation)
      requires Valid() && Terminated(xml) && len == 0 && cursor == 0
      requires forall k :: 0 <= k < MAXLEN ==> !live[k]
      requires Run(xml, o0, i0, 0, alloc, 0, []) == whole && !whole.overrun
      modifies this, items
      ensures Valid() && cursor == 0
      ensures len == |whole.slots|
      ensures items[..] == Table(old(items[..]), whole.slots)
      ensures live == Lives(whole.slots)
    {
      var o, i, m: nat := o0, i0, 0;
      ghost var done: seq<Slot> := [];
      ghost var prev := items[..];
      // n is rss_len, the loop counter of parse(); nothing reads the table while the loop runs, so it is stored once at the end
      var n: nat := 0;
      while n < MAXLEN
        invariant |done| == n <= MAXLEN
        invariant Run(xml, o, i, n, alloc, m, done) == whole
        invariant items[..] == Table(prev, done)
        modifies items
      {
        RunInBounds(xml, alloc, o, i, n, m, done, whole);
        var st := ReadItem(xml, o, i, alloc, m);
        if st.Break? {
          RunBreak(xml, alloc, o, i, n, m, done, whole);
          break;
        }
        TableStep(prev, done, st.slot);
        if st.slot.Stored? {
          items[n] := Some(st.slot.item);
        }
        ghost var o1, i1, n1, m1, done1 := o, i, n, m, done;
        done := done + [st.slot];
        o, i, m := st.o, st.i, st.m;
        n := n + 1;
        RunStep(xml, alloc, o1, i1, n1, m1, done1, whole, st, o, i, n, m, done);
      }
      if n == MAXLEN {
        RunEnd(xml, alloc, o, i, m, done, whole);
      }
      len, live := n, Lives(done);
    }

    /** rss_get_item(): the item under the cursor, then advance it; NULL when the table is empty. */
    method GetItem() returns (item: Option<RssItem>)
      requires Valid()
      modifies this
      ensures Valid() && len == old(len) && live == old(live)
      ensures old(cursor) < len ==> item == items[old(cursor)] && cursor == Cursor.Advance(old(cursor), len)
      ensures old(cursor) >= len ==> item == None && cursor == old(cursor)
    {
      item := None;
      if cursor < len {
        item := items[cursor];
        cursor := Cursor.Advance(cursor, len);
      }
    }
  }
}

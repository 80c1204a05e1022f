/**
 * What parse() in main/rss.c guarantees about the table it fills, proved on
 * its specification RssFeed.ParseSpec: titles are stored in document order
 * right after an opening <title> marker, a failed title search ends the feed
 * (every later turn fails too and rss_len still reaches twelve), a run in
 * which every allocation succeeds fills all twelve turns, and a failed
 * allocation only cuts the table short.
 */
module RssProperties {
  import opened Wrappers
  import opened CStrings
  import opened TagScanner
  import opened EntityDecoder
  import opened RssFeed

  /** Stored items appear in the table in the order their titles appear in the document. */
  predicate InOrder(slots: seq<Slot>) {
    forall k, l :: 0 <= k < l < |slots| && slots[k].Stored? && slots[l].Stored? ==> slots[k].at < slots[l].at
  }

  /** The text at offset `at` of the document directly follows an opening <title> marker. */
  predicate OpensAt(xml: seq<char>, at: nat) {
    |TITLE_OPEN| <= at <= |xml| && xml[at - |TITLE_OPEN|..at] == TITLE_OPEN
  }

  /** A marker strncmp() finds at p is the slice of the text from p. */
  lemma MarkerSlice(s: seq<char>, p: nat, w: seq<char>)
    requires StartsWith(s, p, w)
    ensures s[p..p + |w|] == w
  {
  }

  /** Every stored title starts right after an opening <title> marker in the document. */
  predicate AfterTitleOpen(xml: seq<char>, slots: seq<Slot>) {
    forall k :: 0 <= k < |slots| && slots[k].Stored? ==>
      OpensAt(xml, slots[k].at)
  }

  /** Every title stored so far lies before the cursor o. */
  predicate Behind(slots: seq<Slot>, o: nat) {
    forall k :: 0 <= k < |slots| && slots[k].Stored? ==> slots[k].at < o
  }

  /** An allocation oracle under which every malloc succeeds. */
  predicate NeverFails(alloc: seq<bool>) {
    forall q :: 0 <= q < |alloc| ==> alloc[q]
  }

  /** The slots taken before a turn are a prefix of those taken after it. */
  lemma PrefixShorter(s: seq<Slot>, done: seq<Slot>, slot: Slot)
    requires |done| + 1 <= |s| && s[..|done| + 1] == done + [slot]
    ensures s[..|done|] == done && s[|done|] == slot
  {
    assert s[..|done|] == s[..|done| + 1][..|done|];
    assert s[|done|] == s[..|done| + 1][|done|];
  }

  /** A slot taken past every earlier title and before the new cursor keeps the slots in order. */
  lemma OrderStep(done: seq<Slot>, slot: Slot, o: nat, o': nat)
    requires InOrder(done) && Behind(done, o) && o <= o'
    requires slot.Stored? ==> o <= slot.at < o'
    ensures InOrder(done + [slot]) && Behind(done + [slot], o')
  {
    var d := done + [slot];
    assert d[|done|] == slot;
    assert forall k :: 0 <= k < |done| ==> d[k] == done[k];
  }

  /** A slot whose title follows an opening marker keeps every stored title after one. */
  lemma OpenStep(xml: seq<char>, done: seq<Slot>, slot: Slot)
    requires AfterTitleOpen(xml, done)
    requires slot.Stored? ==> OpensAt(xml, slot.at)
    ensures AfterTitleOpen(xml, done + [slot])
  {
    var d := done + [slot];
    assert d[|done|] == slot;
    assert forall k :: 0 <= k < |done| ==> d[k] == done[k];
  }

  // ---------------------------------------------------------------------------
  // One turn

  /**
   * A turn never moves the cursor back; a turn that stores an item found its
   * title at or after the cursor, right after an opening marker, and leaves
   * the cursor past it.
   */
  lemma StepForward(xml: seq<char>, o: nat, i: int, alloc: seq<bool>, m: nat)
    requires Terminated(xml) && o < |xml|
    ensures var st := NextStep(xml, o, i, alloc, m);
      st.Next? ==> o <= st.o && (st.slot.Stored? ==> o <= st.slot.at < st.o && OpensAt(xml, st.slot.at))
  {
    MarkersAreLiterals();
    var t := Scan(xml, o, TITLE_OPEN, TITLE_CLOSE, i);
    if t.rc > 0 {
      TitleOpensAt(xml, o, i);
      var title := CopyOut(xml, o, t.a, t.b);
      if Granted(alloc, m) && Granted(alloc, m + 1) && title.Some? {
        DescribeOpens(xml, o, t, alloc, m + 2, title.value);
      }
    }
  }

  /** DescribeForward, with the opening marker before the title carried to the stored slot. */
  lemma DescribeOpens(xml: seq<char>, o: nat, t: Outcome, alloc: seq<bool>, m: nat, title: seq<char>)
    requires Terminated(xml) && 0 <= t.a <= t.b && o + t.b + 1 < |xml| && OpensAt(xml, o + t.a)
    ensures var st := DescribeStep(xml, o, t, alloc, m, title);
      st.Next? ==> st.slot.Stored? && o + t.a == st.slot.at && o + t.b < st.o && OpensAt(xml, st.slot.at)
  {
    DescribeForward(xml, o, t, alloc, m, title);
  }

  /** The content of a title search that succeeds directly follows an opening <title> marker. */
  lemma TitleOpensAt(xml: seq<char>, o: nat, i: int)
    requires Terminated(xml) && o < |xml|
    ensures var t := Scan(xml, o, TITLE_OPEN, TITLE_CLOSE, i);
      t.rc > 0 ==> OpensAt(xml, o + t.a)
  {
    MarkersAreLiterals();
    ScanOpens(xml, o, TITLE_OPEN, TITLE_CLOSE, i);
    var t := Scan(xml, o, TITLE_OPEN, TITLE_CLOSE, i);
    if t.rc > 0 {
      MarkerSlice(xml, o + t.a - |TITLE_OPEN|, TITLE_OPEN);
    }
  }

  /** The description part of a turn leaves the cursor past the title's content. */
  lemma DescribeForward(xml: seq<char>, o: nat, t: Outcome, alloc: seq<bool>, m: nat, title: seq<char>)
    requires Terminated(xml) && 0 <= t.a <= t.b && o + t.b + 1 < |xml|
    ensures var st := DescribeStep(xml, o, t, alloc, m, title);
      st.Next? ==> st.slot.Stored? && st.slot.at == o + t.a && o + t.b < st.o
  {
    MarkersAreLiterals();
    var d := Scan(xml, Past(o, t.b), DESC_OPEN, DESC_CLOSE, t.a);
    assert 0 <= d.b;
  }

  /** With every allocation granted a turn never breaks. */
  lemma StepNeverBreaks(xml: seq<char>, o: nat, i: int, alloc: seq<bool>, m: nat)
    requires Terminated(xml) && o < |xml|
    requires NeverFails(alloc)
    ensures !NextStep(xml, o, i, alloc, m).Break?
  {
    MarkersAreLiterals();
    var t := Scan(xml, o, TITLE_OPEN, TITLE_CLOSE, i);
    assert Granted(alloc, m) && Granted(alloc, m + 1) && Granted(alloc, m + 2);
  }

  /** A turn under an allocation oracle breaks or takes the turn it takes when every allocation succeeds. */
  lemma StepUnderFailure(xml: seq<char>, o: nat, i: int, alloc: seq<bool>, m: nat)
    requires Terminated(xml) && o < |xml|
    ensures var st := NextStep(xml, o, i, alloc, m);
      st.Break? || st == NextStep(xml, o, i, [], m)
  {
    MarkersAreLiterals();
    var t := Scan(xml, o, TITLE_OPEN, TITLE_CLOSE, i);
    assert Granted([], m) && Granted([], m + 1) && Granted([], m + 2);
  }

  /** A turn whose title search fails leaves the cursor where it is, so the next turn's search fails the same way. */
  lemma FailedTitleAgain(xml: seq<char>, o: nat, i: int, alloc: seq<bool>, m: nat)
    requires Terminated(xml) && o < |xml|
    requires NextStep(xml, o, i, alloc, m).Next? && NextStep(xml, o, i, alloc, m).slot.Unwritten?
    ensures var st := NextStep(xml, o, i, alloc, m);
      st.o == o && st.m == m && NextStep(xml, o, st.i, alloc, m) == Next(Unwritten, o, Scan(xml, o, TITLE_OPEN, TITLE_CLOSE, st.i).a, m)
  {
    MarkersAreLiterals();
    var t := Scan(xml, o, TITLE_OPEN, TITLE_CLOSE, i);
    ScanIgnoresA0(xml, o, TITLE_OPEN, TITLE_CLOSE, i, t.a);
  }

  /** Only the content start a turn passes on depends on the i it starts with; its slot, cursor and allocations do not. */
  lemma StepIgnoresStart(xml: seq<char>, o: nat, i: int, i': int, alloc: seq<bool>, m: nat)
    requires Terminated(xml) && o < |xml|
    ensures var st, st' := NextStep(xml, o, i, alloc, m), NextStep(xml, o, i', alloc, m);
      st.Next? == st'.Next? && st.Break? == st'.Break?
    ensures var st, st' := NextStep(xml, o, i, alloc, m), NextStep(xml, o, i', alloc, m);
      st.Next? ==> st.slot == st'.slot && st.o == st'.o && st.m == st'.m
  {
    MarkersAreLiterals();
    ScanIgnoresA0(xml, o, TITLE_OPEN, TITLE_CLOSE, i, i');
  }

  // ---------------------------------------------------------------------------
  // The loop

  /** The run keeps the slots of the turns already taken, in front. */
  lemma {:induction false} RunExtends(xml: seq<char>, o: nat, i: int, n: nat, alloc: seq<bool>, m: nat, done: seq<Slot>, g: Generation)
    requires Terminated(xml) && n <= MAXLEN && |done| == n
    requires g == Run(xml, o, i, n, alloc, m, done)
    ensures n <= |g.slots| && g.slots[..n] == done
    decreases |xml|, MAXLEN - n, 1
  {
    if n < MAXLEN && o < |xml| {
      ExtendsTurn(xml, o, i, n, alloc, m, done, g);
    }
  }

  /** The inductive step of RunExtends: the turn taken at offset o, inside the document and before the twelfth. */
  lemma {:induction false} ExtendsTurn(xml: seq<char>, o: nat, i: int, n: nat, alloc: seq<bool>, m: nat, done: seq<Slot>, g: Generation)
    requires Terminated(xml) && n < MAXLEN && |done| == n && o < |xml|
    requires g == Run(xml, o, i, n, alloc, m, done)
    ensures n <= |g.slots| && g.slots[..n] == done
    decreases |xml|, MAXLEN - n, 0
  {
    var st := NextStep(xml, o, i, alloc, m);
    if st.Next? {
      RunExtends(xml, st.o, st.i, n + 1, alloc, st.m, done + [st.slot], g);
      PrefixShorter(g.slots, done, st.slot);
    } else {
      RunStops(xml, o, i, n, alloc, m, done, g);
    }
  }

  /** The run does not depend on the content start i it begins with. */
  lemma {:induction false} RunIgnoresStart(xml: seq<char>, o: nat, i: int, i': int, n: nat, alloc: seq<bool>, m: nat, done: seq<Slot>,
                                           g: Generation, g': Generation)
    requires Terminated(xml) && n <= MAXLEN && |done| == n
    requires g == Run(xml, o, i, n, alloc, m, done) && g' == Run(xml, o, i', n, alloc, m, done)
    ensures g == g'
    decreases |xml|, MAXLEN - n, 1
  {
    if n < MAXLEN && o < |xml| {
      IgnoresStartTurn(xml, o, i, i', n, alloc, m, done, g, g');
    }
  }

  /** The inductive step of RunIgnoresStart: the turn taken at offset o, inside the document and before the twelfth. */
  lemma {:induction false} IgnoresStartTurn(xml: seq<char>, o: nat, i: int, i': int, n: nat, alloc: seq<bool>, m: nat, done: seq<Slot>,
                                            g: Generation, g': Generation)
    requires Terminated(xml) && n < MAXLEN && |done| == n && o < |xml|
    requires g == Run(xml, o, i, n, alloc, m, done) && g' == Run(xml, o, i', n, alloc, m, done)
    ensures g == g'
    decreases |xml|, MAXLEN - n, 0
  {
    var st, st' := NextStep(xml, o, i, alloc, m), NextStep(xml, o, i', alloc, m);
    StepIgnoresStart(xml, o, i, i', alloc, m);
    if st.Next? {
      RunIgnoresStart(xml, st.o, st.i, st'.i, n + 1, alloc, st.m, done + [st.slot], g, g');
    }
  }

  /** A turn that does not go on ends the run with the slots taken so far. */
  lemma RunStops(xml: seq<char>, o: nat, i: int, n: nat, alloc: seq<bool>, m: nat, done: seq<Slot>, g: Generation)
    requires Terminated(xml) && n < MAXLEN && |done| == n && o < |xml|
    requires g == Run(xml, o, i, n, alloc, m, done) && !NextStep(xml, o, i, alloc, m).Next?
    ensures g.slots == done
  {
  }

  /** A run that stores a slot for turn n took that turn: it is the slot of NextStep, and the run goes on from where the turn leaves off. */
  lemma RunGrows(xml: seq<char>, o: nat, i: int, n: nat, alloc: seq<bool>, m: nat, done: seq<Slot>, g: Generation)
    requires Terminated(xml) && n <= MAXLEN && |done| == n
    requires g == Run(xml, o, i, n, alloc, m, done) && n < |g.slots|
    ensures n < MAXLEN && o < |xml| && NextStep(xml, o, i, alloc, m).Next?
    ensures var st := NextStep(xml, o, i, alloc, m);
      g.slots[n] == st.slot && g == Run(xml, st.o, st.i, n + 1, alloc, st.m, done + [st.slot])
  {
    var st := NextStep(xml, o, i, alloc, m);
    RunExtends(xml, st.o, st.i, n + 1, alloc, st.m, done + [st.slot], g);
    PrefixShorter(g.slots, done, st.slot);
  }

  /** Titles the run stores come in document order. */
  lemma {:induction false} RunInOrder(xml: seq<char>, o: nat, i: int, n: nat, alloc: seq<bool>, m: nat, done: seq<Slot>, g: Generation)
    requires Terminated(xml) && n <= MAXLEN && |done| == n
    requires g == Run(xml, o, i, n, alloc, m, done)
    requires InOrder(done) && Behind(done, o)
    ensures InOrder(g.slots)
    decreases |xml|, MAXLEN - n, 1
  {
    if n < MAXLEN && o < |xml| {
      InOrderTurn(xml, o, i, n, alloc, m, done, g);
    }
  }

  /** The inductive step of RunInOrder: the turn taken at offset o, inside the document and before the twelfth. */
  lemma {:induction false} InOrderTurn(xml: seq<char>, o: nat, i: int, n: nat, alloc: seq<bool>, m: nat, done: seq<Slot>, g: Generation)
    requires Terminated(xml) && n < MAXLEN && |done| == n && o < |xml|
    requires g == Run(xml, o, i, n, alloc, m, done)
    requires InOrder(done) && Behind(done, o)
    ensures InOrder(g.slots)
    decreases |xml|, MAXLEN - n, 0
  {
    var st := NextStep(xml, o, i, alloc, m);
    if st.Next? {
      StepForward(xml, o, i, alloc, m);
      OrderStep(done, st.slot, o, st.o);
      RunInOrder(xml, st.o, st.i, n + 1, alloc, st.m, done + [st.slot], g);
    } else {
      RunStops(xml, o, i, n, alloc, m, done, g);
    }
  }

  /** Titles the run stores start right after an opening marker. */
  lemma {:induction false} RunAfterOpen(xml: seq<char>, o: nat, i: int, n: nat, alloc: seq<bool>, m: nat, done: seq<Slot>, g: Generation)
    requires Terminated(xml) && n <= MAXLEN && |done| == n
    requires g == Run(xml, o, i, n, alloc, m, done)
    requires AfterTitleOpen(xml, done)
    ensures AfterTitleOpen(xml, g.slots)
    decreases |xml|, MAXLEN - n, 1
  {
    if n < MAXLEN && o < |xml| {
      AfterOpenTurn(xml, o, i, n, alloc, m, done, g);
    }
  }

  /** The inductive step of RunAfterOpen: the turn taken at offset o, inside the document and before the twelfth. */
  lemma {:induction false} AfterOpenTurn(xml: seq<char>, o: nat, i: int, n: nat, alloc: seq<bool>, m: nat, done: seq<Slot>, g: Generation)
    requires Terminated(xml) && n < MAXLEN && |done| == n && o < |xml|
    requires g == Run(xml, o, i, n, alloc, m, done)
    requires AfterTitleOpen(xml, done)
    ensures AfterTitleOpen(xml, g.slots)
    decreases |xml|, MAXLEN - n, 0
  {
    var st := NextStep(xml, o, i, alloc, m);
    if st.Next? {
      StepForward(xml, o, i, alloc, m);
      OpenStep(xml, done, st.slot);
      RunAfterOpen(xml, st.o, st.i, n + 1, alloc, st.m, done + [st.slot], g);
    } else {
      RunStops(xml, o, i, n, alloc, m, done, g);
    }
  }

  /** With every allocation granted the run goes on until the twelfth turn or reads past the terminator. */
  lemma {:induction false} RunFills(xml: seq<char>, o: nat, i: int, n: nat, alloc: seq<bool>, m: nat, done: seq<Slot>, g: Generation)
    requires Terminated(xml) && n <= MAXLEN && |done| == n
    requires g == Run(xml, o, i, n, alloc, m, done)
    requires NeverFails(alloc)
    ensures !g.overrun ==> |g.slots| == MAXLEN
    decreases |xml|, MAXLEN - n, 1
  {
    if n < MAXLEN && o < |xml| {
      FillsTurn(xml, o, i, n, alloc, m, done, g);
    }
  }

  /** The inductive step of RunFills: the turn taken at offset o, inside the document and before the twelfth. */
  lemma {:induction false} FillsTurn(xml: seq<char>, o: nat, i: int, n: nat, alloc: seq<bool>, m: nat, done: seq<Slot>, g: Generation)
    requires Terminated(xml) && n < MAXLEN && |done| == n && o < |xml|
    requires g == Run(xml, o, i, n, alloc, m, done)
    requires NeverFails(alloc)
    ensures !g.overrun ==> |g.slots| == MAXLEN
    decreases |xml|, MAXLEN - n, 0
  {
    StepNeverBreaks(xml, o, i, alloc, m);
    var st := NextStep(xml, o, i, alloc, m);
    if st.Next? {
      RunFills(xml, st.o, st.i, n + 1, alloc, st.m, done + [st.slot], g);
    }
  }

  /** Once a turn's title search fails, every remaining turn fails too and the run ends after the twelfth. */
  lemma {:induction false} RunStaysUnwritten(xml: seq<char>, o: nat, i: int, n: nat, alloc: seq<bool>, m: nat, done: seq<Slot>, g: Generation)
    requires Terminated(xml) && n < MAXLEN && |done| == n && o < |xml|
    requires g == Run(xml, o, i, n, alloc, m, done)
    requires NextStep(xml, o, i, alloc, m).Next? && NextStep(xml, o, i, alloc, m).slot.Unwritten?
    ensures g == Generation(done + seq(MAXLEN - n, _ => Unwritten), false)
    decreases MAXLEN - n
  {
    var st := NextStep(xml, o, i, alloc, m);
    FailedTitleAgain(xml, o, i, alloc, m);
    if n + 1 < MAXLEN {
      RunStaysUnwritten(xml, o, st.i, n + 1, alloc, m, done + [Unwritten], g);
    }
    assert done + [Unwritten] + seq(MAXLEN - (n + 1), _ => Unwritten) == done + seq(MAXLEN - n, _ => Unwritten);
  }

  /** A slot left unwritten by the run is followed only by unwritten slots, up to the twelfth. */
  lemma {:induction false} RunUnwrittenTail(xml: seq<char>, o: nat, i: int, n: nat, alloc: seq<bool>, m: nat, done: seq<Slot>, g: Generation, k: nat)
    requires Terminated(xml) && n <= MAXLEN && |done| == n
    requires g == Run(xml, o, i, n, alloc, m, done)
    requires n <= k < |g.slots| && g.slots[k].Unwritten?
    ensures |g.slots| == MAXLEN && !g.overrun && forall l :: k <= l < MAXLEN ==> g.slots[l].Unwritten?
    decreases |xml|, MAXLEN - n
  {
    RunGrows(xml, o, i, n, alloc, m, done, g);
    var st := NextStep(xml, o, i, alloc, m);
    if k == n {
      RunStaysUnwritten(xml, o, i, n, alloc, m, done, g);
    } else {
      RunUnwrittenTail(xml, st.o, st.i, n + 1, alloc, st.m, done + [st.slot], g, k);
    }
  }

  /** A run under failing allocations takes a prefix of the turns of the run in which every allocation succeeds. */
  lemma {:induction false} RunPrefix(xml: seq<char>, o: nat, i: int, n: nat, alloc: seq<bool>, m: nat, done: seq<Slot>, g: Generation, f: Generation)
    requires Terminated(xml) && n <= MAXLEN && |done| == n
    requires g == Run(xml, o, i, n, alloc, m, done) && f == Run(xml, o, i, n, [], m, done)
    ensures g.slots <= f.slots && (g.overrun ==> f.overrun)
    decreases |xml|, MAXLEN - n, 1
  {
    if n < MAXLEN && o < |xml| {
      PrefixTurn(xml, o, i, n, alloc, m, done, g, f);
    }
  }

  /** The inductive step of RunPrefix: the turn taken at offset o, inside the document and before the twelfth. */
  lemma {:induction false} PrefixTurn(xml: seq<char>, o: nat, i: int, n: nat, alloc: seq<bool>, m: nat, done: seq<Slot>, g: Generation, f: Generation)
    requires Terminated(xml) && n < MAXLEN && |done| == n && o < |xml|
    requires g == Run(xml, o, i, n, alloc, m, done) && f == Run(xml, o, i, n, [], m, done)
    ensures g.slots <= f.slots && (g.overrun ==> f.overrun)
    decreases |xml|, MAXLEN - n, 0
  {
    StepUnderFailure(xml, o, i, alloc, m);
    var st := NextStep(xml, o, i, alloc, m);
    if st.Break? {
      RunStops(xml, o, i, n, alloc, m, done, g);
      RunExtends(xml, o, i, n, [], m, done, f);
    } else if st.Next? {
      RunPrefix(xml, st.o, st.i, n + 1, alloc, st.m, done + [st.slot], g, f);
    }
  }

  // ---------------------------------------------------------------------------
  // parse() as a whole

  /**
   * The items parse() stores appear in the table in the order of their
   * titles in the document, and each title starts right after an opening
   * <title> marker.
   */
  lemma DocumentOrder(xml: seq<char>, alloc: seq<bool>)
    requires Terminated(xml)
    ensures InOrder(ParseSpec(xml, alloc).slots)
    ensures AfterTitleOpen(xml, ParseSpec(xml, alloc).slots)
  {
    MarkersAreLiterals();
    var h1 := Scan(xml, 0, TITLE_OPEN, TITLE_CLOSE, 0);
    var o1 := Past(0, h1.b);
    if o1 < |xml| {
      var h2 := Scan(xml, o1, TITLE_OPEN, TITLE_CLOSE, h1.a);
      RunInOrder(xml, Past(o1, h2.b), h2.a, 0, alloc, 0, [], ParseSpec(xml, alloc));
      RunAfterOpen(xml, Past(o1, h2.b), h2.a, 0, alloc, 0, [], ParseSpec(xml, alloc));
    }
  }

  /** When every allocation succeeds and the run stays inside the document, rss_len ends at twelve, however few items the feed has. */
  lemma FullRun(xml: seq<char>, alloc: seq<bool>)
    requires Terminated(xml) && NeverFails(alloc)
    requires !ParseSpec(xml, alloc).overrun
    ensures |ParseSpec(xml, alloc).slots| == MAXLEN
  {
    MarkersAreLiterals();
    var h1 := Scan(xml, 0, TITLE_OPEN, TITLE_CLOSE, 0);
    var o1 := Past(0, h1.b);
    var h2 := Scan(xml, o1, TITLE_OPEN, TITLE_CLOSE, h1.a);
    RunFills(xml, Past(o1, h2.b), h2.a, 0, alloc, 0, [], ParseSpec(xml, alloc));
  }

  /**
   * Once the title search of a turn fails, the search of every later turn
   * fails in the same way: the rest of the table stays unwritten, the run
   * reaches the twelfth turn and never reads past the terminator.
   */
  lemma FailedTitleRepeats(xml: seq<char>, alloc: seq<bool>, k: nat)
    requires Terminated(xml)
    requires k < |ParseSpec(xml, alloc).slots| && ParseSpec(xml, alloc).slots[k].Unwritten?
    ensures |ParseSpec(xml, alloc).slots| == MAXLEN && !ParseSpec(xml, alloc).overrun
    ensures forall l :: k <= l < MAXLEN ==> ParseSpec(xml, alloc).slots[l].Unwritten?
  {
    MarkersAreLiterals();
    var h1 := Scan(xml, 0, TITLE_OPEN, TITLE_CLOSE, 0);
    var o1 := Past(0, h1.b);
    var h2 := Scan(xml, o1, TITLE_OPEN, TITLE_CLOSE, h1.a);
    RunUnwrittenTail(xml, Past(o1, h2.b), h2.a, 0, alloc, 0, [], ParseSpec(xml, alloc), k);
  }

  /**
   * A failed malloc only cuts the table short: the turns before it store
   * what they store when every allocation succeeds, and the break itself
   * never reads past the terminator.
   */
  lemma AllocFailurePrefix(xml: seq<char>, alloc: seq<bool>)
    requires Terminated(xml)
    ensures ParseSpec(xml, alloc).slots <= ParseSpec(xml, []).slots
    ensures ParseSpec(xml, alloc).overrun ==> ParseSpec(xml, []).overrun
  {
    MarkersAreLiterals();
    var h1 := Scan(xml, 0, TITLE_OPEN, TITLE_CLOSE, 0);
    var o1 := Past(0, h1.b);
    if o1 < |xml| {
      var h2 := Scan(xml, o1, TITLE_OPEN, TITLE_CLOSE, h1.a);
      RunPrefix(xml, Past(o1, h2.b), h2.a, 0, alloc, 0, [], ParseSpec(xml, alloc), ParseSpec(xml, []));
    }
  }

  /**
   * The uninitialised i that parse() hands to its first search does not
   * matter: whatever it holds, parse() computes the same generation.
   */
  lemma ParseIgnoresStart(xml: seq<char>, alloc: seq<bool>, i0: int)
    requires Terminated(xml)
    ensures ParseFrom(xml, alloc, i0) == ParseSpec(xml, alloc)
  {
    MarkersAreLiterals();
    var h1, h1' := Scan(xml, 0, TITLE_OPEN, TITLE_CLOSE, i0), Scan(xml, 0, TITLE_OPEN, TITLE_CLOSE, 0);
    ScanIgnoresA0(xml, 0, TITLE_OPEN, TITLE_CLOSE, i0, 0);
    var o1 := Past(0, h1.b);
    if o1 < |xml| {
      var h2, h2' := Scan(xml, o1, TITLE_OPEN, TITLE_CLOSE, h1.a), Scan(xml, o1, TITLE_OPEN, TITLE_CLOSE, h1'.a);
      ScanIgnoresA0(xml, o1, TITLE_OPEN, TITLE_CLOSE, h1.a, h1'.a);
      RunIgnoresStart(xml, Past(o1, h2.b), h2.a, h2'.a, 0, alloc, 0, [], ParseFrom(xml, alloc, i0), ParseSpec(xml, alloc));
    }
  }

  /**
   * A title search t that succeeds, its content starting at offset at: it
   * reports the first opening <title> from the cursor on, and the content
   * up to the first closing marker after it (or up to a cut-off copy of it,
   * or to the last character, when there is none).
   */
  lemma TitleIsFirst(xml: seq<char>, o: nat, i: int, t: Outcome, at: nat)
    requires Terminated(xml) && o < |xml|
    requires (MarkersAreLiterals(); t == Scan(xml, o, TITLE_OPEN, TITLE_CLOSE, i) && t.rc > 0 && o + t.a == at)
    ensures FindFrom(xml, TITLE_OPEN, o).Some? && at == FindFrom(xml, TITLE_OPEN, o).value + |TITLE_OPEN|
    ensures at < LastCandidate(xml, TITLE_CLOSE, at) && t.a == at - o && t.b == LastCandidate(xml, TITLE_CLOSE, at) - 1 - o
  {
    MarkersAreLiterals();
    ScanIsFirstMatch(xml, o, TITLE_OPEN, TITLE_CLOSE, i);
  }

  /** A turn that stores an item: its title search t succeeded, and the title is the copy of t's content. */
  lemma StoredTitleCopied(xml: seq<char>, o: nat, i: int, alloc: seq<bool>, m: nat,
                          item: RssItem, at: nat, o': nat, i': int, m': nat) returns (t: Outcome)
    requires Terminated(xml) && o < |xml|
    requires NextStep(xml, o, i, alloc, m) == Next(Stored(item, at), o', i', m')
    ensures (MarkersAreLiterals(); t == Scan(xml, o, TITLE_OPEN, TITLE_CLOSE, i) && t.rc > 0 && o + t.a == at)
    ensures Decode(xml, o + t.a, t.a, t.b) == Some(item.title)
  {
    MarkersAreLiterals();
    t := Scan(xml, o, TITLE_OPEN, TITLE_CLOSE, i);
    var title := CopyOut(xml, o, t.a, t.b);
    DescribeForward(xml, o, t, alloc, m + 2, title.value);
  }

  /** The copy of a search's content [a, b] from o, once the content is known to start at at and end before the first closing marker. */
  lemma CopyToFirstClose(xml: seq<char>, o: nat, at: nat, a: int, b: int, title: seq<char>)
    requires Terminated(xml) && o + a == at && a == at - o && b == LastCandidate(xml, TITLE_CLOSE, at) - 1 - o
    requires Decode(xml, o + a, a, b) == Some(title)
    ensures Decode(xml, at, at - o, LastCandidate(xml, TITLE_CLOSE, at) - 1 - o) == Some(title)
  {
  }

  /**
   * The title a turn stores is the one at the first opening <title> from the
   * cursor on: its text starts right after that marker and is the copy of
   * everything up to the first closing marker after it (or up to a cut-off
   * copy of it, or to the last character, when there is none).
   */
  lemma StoredTitleIsFirst(xml: seq<char>, o: nat, i: int, alloc: seq<bool>, m: nat,
                           item: RssItem, at: nat, o': nat, i': int, m': nat)
    requires Terminated(xml) && o < |xml|
    requires NextStep(xml, o, i, alloc, m) == Next(Stored(item, at), o', i', m')
    ensures FindFrom(xml, TITLE_OPEN, o).Some? && at == FindFrom(xml, TITLE_OPEN, o).value + |TITLE_OPEN|
    ensures at < LastCandidate(xml, TITLE_CLOSE, at)
    ensures Decode(xml, at, at - o, LastCandidate(xml, TITLE_CLOSE, at) - 1 - o) == Some(item.title)
  {
    var t := StoredTitleCopied(xml, o, i, alloc, m, item, at, o', i', m');
    TitleIsFirst(xml, o, i, t, at);
    CopyToFirstClose(xml, o, at, t.a, t.b, item.title);
  }
}

/**
 * The tag-pair scanner of the feed parser: search() in main/rss.c.
 *
 * search(s, from, to, &a, &b) looks for the marker `from`, then for the marker
 * `to` after it, with a character scan that restarts at the mismatching
 * character (it never steps back). It returns 1 with the content bounds
 * [a, b], or -1 when the opening marker is missing or the element is empty.
 */
module TagScanner {
  import opened Wrappers
  import opened CStrings

  const TITLE_OPEN: seq<char> := "<title>"
  const TITLE_CLOSE: seq<char> := "</title>"
  const DESC_OPEN: seq<char> := "<description>"
  const DESC_CLOSE: seq<char> := "</description>"

  /** search()'s return code together with the final values of *a and *b. */
  datatype Outcome = Outcome(rc: int, a: int, b: int)

  /** One round of the scan: the candidate c where matching began and the position e where it stopped. */
  datatype Round = Round(c: nat, e: nat)

  /** No character after the first one repeats the first one (true of all four markers of the feed). */
  predicate UniqueHead(t: seq<char>) {
    |t| > 0 && forall k :: 1 <= k < |t| ==> t[k] != t[0]
  }

  lemma MarkersAreLiterals()
    ensures Literal(TITLE_OPEN) && UniqueHead(TITLE_OPEN)
    ensures Literal(TITLE_CLOSE) && UniqueHead(TITLE_CLOSE)
    ensures Literal(DESC_OPEN) && UniqueHead(DESC_OPEN)
    ensures Literal(DESC_CLOSE) && UniqueHead(DESC_CLOSE)
  {
  }

  // ---------------------------------------------------------------------------
  // The scan as the C code performs it

  /** The first loop after `start:`: the first position at or after i holding c or the terminator. */
  function SkipTo(s: seq<char>, c: char, i: nat): (k: nat)
    requires Terminated(s) && i < |s|
    ensures i <= k < |s| && (s[k] == NUL || s[k] == c)
    decreases |s| - i
  {
    if s[i] == NUL || s[i] == c then i else SkipTo(s, c, i + 1)
  }

  /** The second loop: how far s, from position c, agrees with the marker t, given that m characters already agree. */
  function MatchLen(s: seq<char>, t: seq<char>, c: nat, m: nat): (r: nat)
    requires Terminated(s) && Literal(t) && c + m < |s| && m <= |t|
    ensures m <= r <= |t| && c + r < |s|
    ensures r == |t| || s[c + r] != t[r]
    decreases |s| - (c + m)
  {
    if m < |t| && s[c + m] == t[m] then MatchLen(s, t, c, m + 1) else m
  }

  /** Every character the match loop steps over agrees with the marker. */
  lemma {:induction false} MatchLenAgrees(s: seq<char>, t: seq<char>, c: nat, m: nat)
    requires Terminated(s) && Literal(t) && c + m < |s| && m <= |t|
    ensures forall k :: m <= k < MatchLen(s, t, c, m) ==> s[c + k] == t[k]
    decreases |s| - (c + m)
  {
    if m < |t| && s[c + m] == t[m] {
      MatchLenAgrees(s, t, c, m + 1);
    }
  }

  /** The rounds of one phase, from position i: the last round, which ends on a full match or on the terminator. */
  function Seek(s: seq<char>, t: seq<char>, i: nat): (r: Round)
    requires Terminated(s) && Literal(t) && i < |s|
    ensures i <= r.c <= r.e < |s| && r.e - r.c <= |t|
    ensures r.e - r.c == |t| || s[r.e] == NUL
    decreases |s| - i
  {
    var c := SkipTo(s, t[0], i);
    var m := MatchLen(s, t, c, 0);
    if s[c + m] != NUL && m < |t| then Seek(s, t, c + m) else Round(c, c + m)
  }

  /** The skip loop stops where SkipTo says. */
  lemma {:induction false} SkipToIs(s: seq<char>, c: char, i: nat, k: nat)
    requires Terminated(s) && i <= k < |s| && (s[k] == NUL || s[k] == c)
    requires forall m :: i <= m < k ==> s[m] != NUL && s[m] != c
    ensures SkipTo(s, c, i) == k
    decreases k - i
  {
    if i < k {
      SkipToIs(s, c, i + 1, k);
    }
  }

  /** Everything SkipTo steps over is neither the terminator nor the character sought. */
  lemma {:induction false} SkipToClear(s: seq<char>, c: char, i: nat)
    requires Terminated(s) && i < |s|
    ensures forall m :: i <= m < SkipTo(s, c, i) ==> s[m] != NUL && s[m] != c
    decreases |s| - i
  {
    if s[i] != NUL && s[i] != c {
      SkipToClear(s, c, i + 1);
    }
  }

  /** The match loop stops where MatchLen says. */
  lemma {:induction false} MatchLenIs(s: seq<char>, t: seq<char>, c: nat, j: nat, m: nat)
    requires Terminated(s) && Literal(t) && j <= m && c + m < |s| && m <= |t|
    requires forall k :: j <= k < m ==> s[c + k] == t[k]
    requires m == |t| || s[c + m] != t[m]
    ensures MatchLen(s, t, c, j) == m
    decreases m - j
  {
    if j < m {
      MatchLenIs(s, t, c, j + 1, m);
    }
  }

  /** One round of Seek, for the candidate c and match length m that the two inner loops computed. */
  lemma SeekRound(s: seq<char>, t: seq<char>, i: nat, c: nat, m: nat)
    requires Terminated(s) && Literal(t) && i < |s|
    requires c == SkipTo(s, t[0], i) && m == MatchLen(s, t, c, 0)
    ensures Seek(s, t, i) == if s[c + m] != NUL && m < |t| then Seek(s, t, c + m) else Round(c, c + m)
  {
  }

  /** The last round of a phase agrees with the marker over its whole length. */
  lemma {:induction false} SeekAgrees(s: seq<char>, t: seq<char>, i: nat)
    requires Terminated(s) && Literal(t) && i < |s|
    ensures forall k :: 0 <= k < Seek(s, t, i).e - Seek(s, t, i).c ==> s[Seek(s, t, i).c + k] == t[k]
    decreases |s| - i
  {
    var c := SkipTo(s, t[0], i);
    var m := MatchLen(s, t, c, 0);
    MatchLenAgrees(s, t, c, 0);
    if s[c + m] != NUL && m < |t| {
      SeekAgrees(s, t, c + m);
    }
  }

  /**
   * What search() computes when its argument points at offset `base` of the
   * buffer s: phase one seeks `from` from base; phase two seeks `to` from the
   * end of the opening marker. The reported positions are relative to base,
   * as the C indices are relative to the pointer. *a keeps its incoming value
   * a0 when the opening marker is not found.
   */
  function Scan(s: seq<char>, base: nat, from: seq<char>, to: seq<char>, a0: int): (r: Outcome)
    requires Terminated(s) && base < |s| && Literal(from) && Literal(to)
    ensures r.rc == 1 || r.rc == -1
    ensures r.rc == 1 ==> |from| <= r.a <= r.b < |s| - 1 - base
    ensures r.rc == -1 ==> (r.a == a0 && r.b == |s| - 1 - base) || (|from| <= r.a < |s| - 1 - base && r.b == r.a + |to|)
  {
    var open := Seek(s, from, base);
    if s[open.e] == NUL then Outcome(-1, a0, open.e - base)
    else
      var close := Seek(s, to, open.e);
      if close.c - 1 < open.e then Outcome(-1, open.e - base, close.c - 1 + |to| + 1 - base)
      else Outcome(1, open.e - base, close.c - 1 - base)
  }

  /** Content that search() reports, even of an empty element, directly follows an opening marker. */
  lemma ScanOpens(s: seq<char>, base: nat, from: seq<char>, to: seq<char>, a0: int)
    requires Terminated(s) && base < |s| && Literal(from) && Literal(to)
    ensures var r := Scan(s, base, from, to, a0);
      r.rc == 1 ==> StartsWith(s, base + r.a - |from|, from)
    ensures var r := Scan(s, base, from, to, a0);
      r.rc == -1 ==> (r.a == a0 && r.b == |s| - 1 - base) || StartsWith(s, base + r.a - |from|, from)
  {
    SeekAgrees(s, from, base);
  }

  /** The skip loop of one round: advance i to the marker's first character or to the terminator. */
  method SkipLoop(s: seq<char>, ch: char, i0: nat) returns (i: nat)
    requires Terminated(s) && i0 < |s|
    ensures i == SkipTo(s, ch, i0)
  {
    i := i0;
    while s[i] != NUL && s[i] != ch
      invariant i0 <= i < |s|
      invariant forall m :: i0 <= m < i ==> s[m] != NUL && s[m] != ch
      decreases |s| - i
    {
      i := i + 1;
    }
    SkipToIs(s, ch, i0, i);
  }

  /** The match loop of one round: count how many characters from c agree with the marker. */
  method MatchLoop(s: seq<char>, t: seq<char>, c: nat) returns (j: nat)
    requires Terminated(s) && Literal(t) && c < |s|
    ensures j == MatchLen(s, t, c, 0)
  {
    j := 0;
    while s[c + j] != NUL && j < |t| && s[c + j] == t[j]
      invariant c + j < |s| && j <= |t|
      invariant forall k :: 0 <= k < j ==> s[c + k] == t[k]
      decreases |t| - j
    {
      j := j + 1;
    }
    MatchLenIs(s, t, c, 0, j);
  }

  /**
   * One phase of search(): the rounds that the `goto start` restart repeats
   * for one marker, from position i0. It yields where the last round began
   * and where it stopped.
   */
  method SeekPhase(s: seq<char>, t: seq<char>, i0: nat) returns (c: nat, e: nat)
    requires Terminated(s) && Literal(t) && i0 < |s|
    ensures Round(c, e) == Seek(s, t, i0)
  {
    var i := i0;
    while true
      invariant i < |s| && Seek(s, t, i) == Seek(s, t, i0)
      decreases |s| - i
    {
      c := SkipLoop(s, t[0], i);
      var j := MatchLoop(s, t, c);
      SeekRound(s, t, i, c, j);
      e := c + j;
      if s[e] == NUL || j >= |t| {
        return;
      }
      i := e;
    }
  }

  /**
   * search() itself, on the pointer s + base: the phase for `from`, then, if
   * the opening marker was found, the phase for `to` from its end. *b is set
   * to one before the candidate of the closing phase's last round.
   */
  method Search(s: seq<char>, base: nat, from: seq<char>, to: seq<char>, a0: int) returns (rc: int, a: int, b: int)
    requires Terminated(s) && base < |s| && Literal(from) && Literal(to)
    ensures Outcome(rc, a, b) == Scan(s, base, from, to, a0)
  {
    a, b := a0, 0;
    var c, i := SeekPhase(s, from, base);
    if s[i] == NUL {
      b := i - base;
      rc := -1;
      return;
    }
    a := i - base;
    c, i := SeekPhase(s, to, i);
    b := c - 1 - base;
    if s[base + b] == NUL {
      // The guard at main/rss.c:108 can never hold: b lies before the terminator.
      assert false;
    }
    if b < a {
      // empty element: advance past the closing marker
      b := b + |to| + 1;
      rc := -1;
      return;
    }
    rc := 1;
  }

  // ---------------------------------------------------------------------------
  // Reference definitions: the first occurrence, found by trying every position

  /** The first position at or after i where t occurs in s. */
  function FindFrom(s: seq<char>, t: seq<char>, i: nat): (r: Option<nat>)
    ensures r.Some? ==> i <= r.value && StartsWith(s, r.value, t)
    ensures r.Some? ==> forall p :: i <= p < r.value ==> !StartsWith(s, p, t)
    ensures r.None? ==> forall p :: i <= p ==> !StartsWith(s, p, t)
    decreases |s| - i
  {
    if i + |t| > |s| then None
    else if StartsWith(s, i, t) then Some(i)
    else FindFrom(s, t, i + 1)
  }

  /** A proper, non-empty prefix of t ends the string exactly at position c. */
  predicate CutOffAt(s: seq<char>, t: seq<char>, c: nat)
    requires Terminated(s)
  {
    c < |s| - 1 && |s| - 1 - c < |t| && forall k :: 0 <= k < |s| - 1 - c ==> s[c + k] == t[k]
  }

  /** The first position at or after i where the string ends inside a truncated copy of t. */
  function CutOffFrom(s: seq<char>, t: seq<char>, i: nat): (r: Option<nat>)
    requires Terminated(s)
    ensures r.Some? ==> i <= r.value && CutOffAt(s, t, r.value)
    ensures r.Some? ==> forall p :: i <= p < r.value ==> !CutOffAt(s, t, p)
    ensures r.None? ==> forall p :: i <= p ==> !CutOffAt(s, t, p)
    decreases |s| - i
  {
    if i >= |s| - 1 then None
    else if CutOffAt(s, t, i) then Some(i)
    else CutOffFrom(s, t, i + 1)
  }

  /** Where the last round of a phase seeking t from i begins, stated without the scan. */
  function LastCandidate(s: seq<char>, t: seq<char>, i: nat): nat
    requires Terminated(s)
  {
    match FindFrom(s, t, i)
    case Some(q) => q
    case None => (match CutOffFrom(s, t, i) case Some(c) => c case None => |s| - 1)
  }

  /**
   * search() stated through first occurrences: NotFound when `from` does not
   * occur ending before the terminator; otherwise the content starts after the
   * first `from`, and ends before the first later `to` (or before a cut-off
   * copy of `to` at the very end, or at the last character).
   */
  function SearchSpec(s: seq<char>, base: nat, from: seq<char>, to: seq<char>, a0: int): (r: Outcome)
    requires Terminated(s)
    ensures r.rc == 1 || r.rc == -1
    ensures r.rc == 1 ==> |from| <= r.a <= r.b
  {
    match FindFrom(s, from, base)
    case None => Outcome(-1, a0, |s| - 1 - base)
    case Some(p) =>
      var a := p + |from|;
      if a >= |s| - 1 then Outcome(-1, a0, |s| - 1 - base)
      else
        var c := LastCandidate(s, to, a);
        if c == a then Outcome(-1, a - base, a + |to| - base) else Outcome(1, a - base, c - 1 - base)
  }

  /** Stepping over positions where t neither occurs nor is cut off changes neither first position. */
  lemma {:induction false} NothingBetween(s: seq<char>, t: seq<char>, i: nat, k: nat)
    requires Terminated(s) && i <= k
    requires forall p :: i <= p < k ==> !StartsWith(s, p, t) && !CutOffAt(s, t, p)
    ensures FindFrom(s, t, i) == FindFrom(s, t, k)
    ensures CutOffFrom(s, t, i) == CutOffFrom(s, t, k)
    decreases k - i
  {
    if i < k {
      assert !StartsWith(s, i, t) && !CutOffAt(s, t, i);
      NothingBetween(s, t, i + 1, k);
    }
  }

  /** An occurrence or a cut-off copy of t at p starts with t[0]. */
  lemma HeadOf(s: seq<char>, t: seq<char>, p: nat)
    requires Terminated(s) && Literal(t)
    ensures StartsWith(s, p, t) ==> s[p] == t[0]
    ensures CutOffAt(s, t, p) ==> s[p] == t[0]
  {
  }

  /** With no t[0] and no terminator in [i, k), neither an occurrence nor a cut-off copy of t starts there. */
  lemma SkipKeepsFirst(s: seq<char>, t: seq<char>, i: nat, k: nat)
    requires Terminated(s) && Literal(t) && i <= k < |s|
    requires forall m :: i <= m < k ==> s[m] != NUL && s[m] != t[0]
    ensures FindFrom(s, t, i) == FindFrom(s, t, k)
    ensures CutOffFrom(s, t, i) == CutOffFrom(s, t, k)
  {
    forall p | i <= p < k
      ensures !StartsWith(s, p, t) && !CutOffAt(s, t, p)
    {
      HeadOf(s, t, p);
    }
    NothingBetween(s, t, i, k);
  }

  /** Inside a partial match of a marker with a unique head, no occurrence or cut-off copy starts. */
  lemma PartialMatchKeepsFirst(s: seq<char>, t: seq<char>, c: nat, m: nat)
    requires Terminated(s) && Literal(t) && UniqueHead(t)
    requires 0 < m < |t| && c + m < |s| - 1 && s[c + m] != t[m]
    requires forall k :: 0 <= k < m ==> s[c + k] == t[k]
    ensures FindFrom(s, t, c) == FindFrom(s, t, c + m)
    ensures CutOffFrom(s, t, c) == CutOffFrom(s, t, c + m)
  {
    forall p | c <= p < c + m
      ensures !StartsWith(s, p, t) && !CutOffAt(s, t, p)
    {
      if p == c {
      } else {
        assert s[p] == t[p - c];
        HeadOf(s, t, p);
      }
    }
    NothingBetween(s, t, c, c + m);
  }

  /** A partial match that runs into the terminator is the cut-off copy, and t does not occur from c on. */
  lemma CutOffEnd(s: seq<char>, t: seq<char>, c: nat, m: nat)
    requires Terminated(s) && Literal(t) && UniqueHead(t)
    requires m < |t| && c + m == |s| - 1
    requires forall k :: 0 <= k < m ==> s[c + k] == t[k]
    ensures FindFrom(s, t, c) == None
    ensures m > 0 ==> CutOffFrom(s, t, c) == Some(c)
    ensures m == 0 ==> CutOffFrom(s, t, c) == None
  {
    forall p | c <= p
      ensures !StartsWith(s, p, t)
    {
      HeadOf(s, t, p);
      if p == c {
        assert s[c + m] != t[m];
      } else if p < c + m {
        assert s[p] == t[p - c];
      } else if p < |s| {
        assert s[p] != t[0];
      }
    }
  }

  /** A round that stops on neither a full match nor the terminator has matched at least the head. */
  lemma RoundContinues(s: seq<char>, t: seq<char>, c: nat, m: nat)
    requires Terminated(s) && Literal(t) && c < |s| && (s[c] == NUL || s[c] == t[0])
    requires m == MatchLen(s, t, c, 0) && m < |t| && s[c + m] != NUL
    ensures 0 < m && c + m < |s| - 1 && s[c + m] != t[m]
  {
  }

  /** For a marker with a unique head, the last round of the scan starts at LastCandidate. */
  lemma {:induction false} SeekFindsFirst(s: seq<char>, t: seq<char>, i: nat)
    requires Terminated(s) && Literal(t) && UniqueHead(t) && i < |s|
    ensures Seek(s, t, i).c == LastCandidate(s, t, i)
    ensures FindFrom(s, t, i).Some? <==> Seek(s, t, i).e - Seek(s, t, i).c == |t|
    decreases |s| - i, 2
  {
    var c := SkipTo(s, t[0], i);
    SkipToClear(s, t[0], i);
    SkipKeepsFirst(s, t, i, c);
    SeekFromCandidate(s, t, i, c);
    RoundFindsFirst(s, t, c);
  }

  /** The skip loop's first stop is where the next round begins: seeking from i is seeking from there. */
  lemma SeekFromCandidate(s: seq<char>, t: seq<char>, i: nat, c: nat)
    requires Terminated(s) && Literal(t) && i < |s| && c == SkipTo(s, t[0], i)
    ensures Seek(s, t, i) == Seek(s, t, c)
  {
    var m := MatchLen(s, t, c, 0);
    assert SkipTo(s, t[0], c) == c;
    SeekRound(s, t, i, c, m);
    SeekRound(s, t, c, c, m);
  }

  /** The inductive step of SeekFindsFirst: the round that starts at a candidate c. */
  lemma {:induction false} RoundFindsFirst(s: seq<char>, t: seq<char>, c: nat)
    requires Terminated(s) && Literal(t) && UniqueHead(t) && c < |s| && (s[c] == NUL || s[c] == t[0])
    ensures Seek(s, t, c).c == LastCandidate(s, t, c)
    ensures FindFrom(s, t, c).Some? <==> Seek(s, t, c).e - Seek(s, t, c).c == |t|
    decreases |s| - c, 1
  {
    var m := MatchLen(s, t, c, 0);
    assert SkipTo(s, t[0], c) == c;
    SeekRound(s, t, c, c, m);
    MatchLenAgrees(s, t, c, 0);
    if m == |t| {
      assert StartsWith(s, c, t);
      assert FindFrom(s, t, c) == Some(c);
    } else if s[c + m] == NUL {
      CutOffEnd(s, t, c, m);
      assert LastCandidate(s, t, c) == c;
    } else {
      PartialRoundFindsFirst(s, t, c, m);
    }
  }

  /** A round that ends on a partial match: the search goes on from the mismatch, and so does the first occurrence. */
  lemma {:induction false} PartialRoundFindsFirst(s: seq<char>, t: seq<char>, c: nat, m: nat)
    requires Terminated(s) && Literal(t) && UniqueHead(t) && c < |s| && (s[c] == NUL || s[c] == t[0])
    requires m == MatchLen(s, t, c, 0) && m < |t| && s[c + m] != NUL
    requires Seek(s, t, c) == Seek(s, t, c + m)
    ensures Seek(s, t, c).c == LastCandidate(s, t, c)
    ensures FindFrom(s, t, c).Some? <==> Seek(s, t, c).e - Seek(s, t, c).c == |t|
    decreases |s| - c, 0
  {
    RoundContinues(s, t, c, m);
    MatchLenAgrees(s, t, c, 0);
    PartialMatchKeepsFirst(s, t, c, m);
    SeekFindsFirst(s, t, c + m);
  }

  /**
   * search() finds first occurrences: for markers whose first character does
   * not recur in them, its outcome is SearchSpec's.
   */
  lemma ScanIsFirstMatch(s: seq<char>, base: nat, from: seq<char>, to: seq<char>, a0: int)
    requires Terminated(s) && base < |s| && Literal(from) && Literal(to) && UniqueHead(from) && UniqueHead(to)
    ensures Scan(s, base, from, to, a0) == SearchSpec(s, base, from, to, a0)
  {
    SeekFindsFirst(s, from, base);
    var open := Seek(s, from, base);
    match FindFrom(s, from, base)
    case None =>
      assert s[open.e] == NUL && open.e == |s| - 1;
    case Some(p) =>
      assert open.c == p && open.e == p + |from|;
      if p + |from| < |s| - 1 {
        assert s[open.e] != NUL;
        SeekFindsFirst(s, to, open.e);
      }
  }

  /** Only *a depends on the incoming a0, and only when the opening marker is missing. */
  lemma ScanIgnoresA0(s: seq<char>, base: nat, from: seq<char>, to: seq<char>, a0: int, a1: int)
    requires Terminated(s) && base < |s| && Literal(from) && Literal(to)
    ensures Scan(s, base, from, to, a0).rc == Scan(s, base, from, to, a1).rc
    ensures Scan(s, base, from, to, a0).b == Scan(s, base, from, to, a1).b
    ensures Scan(s, base, from, to, a0).rc == 1 ==> Scan(s, base, from, to, a0).a == Scan(s, base, from, to, a1).a
  {
  }

  // ---------------------------------------------------------------------------
  // The outcomes, one by one, for markers with a unique head

  /** No opening marker: -1 with *b at the terminator, *a untouched. */
  lemma NotFoundOutcome(s: seq<char>, base: nat, from: seq<char>, to: seq<char>, a0: int)
    requires Terminated(s) && base < |s| && Literal(from) && Literal(to) && UniqueHead(from) && UniqueHead(to)
    requires forall p :: base <= p ==> !StartsWith(s, p, from)
    ensures Scan(s, base, from, to, a0) == Outcome(-1, a0, |s| - 1 - base)
  {
    ScanIsFirstMatch(s, base, from, to, a0);
  }

  /** An element closed right after it opens: -1 with *b just past the closing marker. */
  lemma EmptyElementOutcome(s: seq<char>, base: nat, from: seq<char>, to: seq<char>, a0: int, p: nat)
    requires Terminated(s) && base < |s| && Literal(from) && Literal(to) && UniqueHead(from) && UniqueHead(to)
    requires FindFrom(s, from, base) == Some(p) && StartsWith(s, p + |from|, to)
    ensures Scan(s, base, from, to, a0) == Outcome(-1, p + |from| - base, p + |from| + |to| - base)
  {
    ScanIsFirstMatch(s, base, from, to, a0);
    var a := p + |from|;
    assert s[a + |to| - 1] == to[|to| - 1];
    assert a < |s| - 1;
    assert FindFrom(s, to, a) == Some(a);
    assert LastCandidate(s, to, a) == a;
  }

  /** A closed, non-empty element: 1 with [a, b] exactly the text between the markers. */
  lemma FoundOutcome(s: seq<char>, base: nat, from: seq<char>, to: seq<char>, a0: int, p: nat, q: nat)
    requires Terminated(s) && base < |s| && Literal(from) && Literal(to) && UniqueHead(from) && UniqueHead(to)
    requires FindFrom(s, from, base) == Some(p) && FindFrom(s, to, p + |from|) == Some(q)
    requires q > p + |from|
    ensures Scan(s, base, from, to, a0) == Outcome(1, p + |from| - base, q - 1 - base)
  {
    ScanIsFirstMatch(s, base, from, to, a0);
  }

  /**
   * The closing marker is missing altogether: search() still returns 1, and
   * the content runs to the last character before the terminator.
   */
  lemma MissingCloseOutcome(s: seq<char>, base: nat, from: seq<char>, to: seq<char>, a0: int, p: nat)
    requires Terminated(s) && base < |s| && Literal(from) && Literal(to) && UniqueHead(from) && UniqueHead(to)
    requires FindFrom(s, from, base) == Some(p) && p + |from| < |s| - 1
    requires FindFrom(s, to, p + |from|) == None && CutOffFrom(s, to, p + |from|) == None
    ensures Scan(s, base, from, to, a0) == Outcome(1, p + |from| - base, |s| - 2 - base)
  {
    ScanIsFirstMatch(s, base, from, to, a0);
  }

  /**
   * A closing marker cut off by the terminator right after the opening one:
   * search() reports an empty element and puts *b strlen(to) past *a, beyond
   * the terminator.
   */
  lemma CutOffCloseExample()
    ensures Scan("<title></tit\0", 0, TITLE_OPEN, TITLE_CLOSE, 5) == Outcome(-1, 7, 15)
  {
    var s: seq<char> := "<title></tit\0";
    assert Terminated(s);
    MarkersAreLiterals();
    assert FindFrom(s, TITLE_OPEN, 0) == Some(0);
    assert FindFrom(s, TITLE_CLOSE, 7) == None;
    assert CutOffAt(s, TITLE_CLOSE, 7);
    ScanIsFirstMatch(s, 0, TITLE_OPEN, TITLE_CLOSE, 5);
  }
}

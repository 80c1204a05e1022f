/**
 * The round-robin read cursor shared by rss_get_item and stock_get_item, and
 * by the rotating slot index of the stock parser: each call moves the cursor
 * to (cursor + 1) % length.
 */
module Cursor {
  /** One step of the cursor over `len` slots. */
  function Advance(i: nat, len: nat): (r: nat)
    requires i < len
    ensures r < len
    ensures r == if i + 1 == len then 0 else i + 1
  {
    (i + 1) % len
  }

  /** Where the cursor stands after `n` steps from `i`. */
  function Visit(i: nat, len: nat, n: nat): (r: nat)
    requires i < len
    ensures r < len
    decreases n
  {
    if n == 0 then i else Visit(Advance(i, len), len, n - 1)
  }

  /** Within two rounds the cursor has moved n places, wrapping once past the end. */
  lemma {:induction false} VisitWithin(i: nat, len: nat, n: nat)
    requires i < len && i + n < 2 * len
    ensures Visit(i, len, n) == if i + n < len then i + n else i + n - len
    decreases n
  {
    if n > 0 {
      VisitWithin(Advance(i, len), len, n - 1);
    }
  }

  /** The step that reaches slot k from slot i. */
  function Distance(i: nat, k: nat, len: nat): (n: nat)
    requires i < len && k < len
    ensures n < len
  {
    if i <= k then k - i else k + len - i
  }

  /**
   * The cursor comes back to where it started after exactly `len` steps and
   * not before, and every slot k is reached within `len` steps.
   */
  lemma Cycle(i: nat, len: nat)
    requires i < len
    ensures Visit(i, len, len) == i
    ensures forall n :: 0 < n < len ==> Visit(i, len, n) != i
    ensures forall k :: 0 <= k < len ==> Visit(i, len, Distance(i, k, len)) == k
  {
    VisitWithin(i, len, len);
    forall n | 0 < n < len
      ensures Visit(i, len, n) != i
    {
      VisitWithin(i, len, n);
    }
    forall k | 0 <= k < len
      ensures Visit(i, len, Distance(i, k, len)) == k
    {
      VisitWithin(i, len, Distance(i, k, len));
    }
  }
}

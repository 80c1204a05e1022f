/**
 * The entity-decoding copy of the feed parser: copy() in main/rss.c.
 *
 * copy(src, dst, i, j) walks the source from position i while its counter i
 * stays at most j, writing one character per step into dst and closing dst
 * with a NUL. Six entity spellings after an '&', standing for five
 * characters, each become one character and advance both the source pointer
 * and the counter by six. Any other '&' is dropped: the character after it
 * is copied, the source pointer advances by two but the counter only by one,
 * so from then on the copy reads one position further than the counter says.
 */
module EntityDecoder {
  import opened Wrappers
  import opened CStrings

  /** The entity spellings copy() knows, after the '&', in the order it compares them, with the character each stands for. */
  const ENTITIES: seq<(seq<char>, char)> :=
    [("#034;", '"'), ("quot;", '"'), ("#038;", '&'), ("#039;", '\''), ("#060;", '<'), ("#062;", '>')]

  /** The first entry from n on whose spelling starts at p, as the if-chain of copy() finds it. */
  function Lookup(s: seq<char>, p: nat, n: nat): Option<char>
    decreases |s| + |ENTITIES| - n
  {
    if n >= |ENTITIES| then None
    else if StartsWith(s, p, ENTITIES[n].0) then Some(ENTITIES[n].1)
    else Lookup(s, p, n + 1)
  }

  /** The character the entity spelled at p (just after its '&') stands for, if any. */
  function Entity(s: seq<char>, p: nat): Option<char> {
    Lookup(s, p, 0)
  }

  /**
   * What copy() writes before its terminating NUL, starting with the source
   * pointer at p and the counter at i; None when it would read past the end
   * of s.
   */
  function Decode(s: seq<char>, p: nat, i: int, j: int): (r: Option<seq<char>>)
    ensures r.Some? ==> |r.value| <= if i <= j then j - i + 1 else 0
    decreases j - i
  {
    if i > j then Some([])
    else if p >= |s| then None
    else if s[p] != '&' then
      Prepend(s[p], Decode(s, p + 1, i + 1, j))
    else if p + 1 >= |s| then None
    else match Entity(s, p + 1)
      case Some(c) => Prepend(c, Decode(s, p + 6, i + 6, j))
      case None => Prepend(s[p + 1], Decode(s, p + 2, i + 1, j))
  }

  /** What copy() writes when called on the pointer s + base with counters i and j. */
  function CopyOut(s: seq<char>, base: nat, i: nat, j: int): Option<seq<char>> {
    Decode(s, base + i, i, j)
  }

  /** One written character in front of the rest of the copy. */
  function Prepend(c: char, rest: Option<seq<char>>): (r: Option<seq<char>>)
    ensures r.Some? <==> rest.Some?
    ensures r.Some? ==> r.value == [c] + rest.value
  {
    match rest
    case None => None
    case Some(t) => Some([c] + t)
  }

  /**
   * copy() itself, on the source pointer src + base. The destination holds
   * j - i0 + 2 characters, as parse() allocates; the result k is the index of
   * the terminating NUL.
   */
  method Copy(src: seq<char>, base: nat, dst: array<char>, i0: nat, j: int) returns (k: nat)
    requires CopyOut(src, base, i0, j).Some?
    requires dst.Length > 0 && dst.Length >= j - i0 + 2
    modifies dst
    ensures k < dst.Length && k <= if i0 <= j then j - i0 + 1 else 0
    ensures dst[..k] == CopyOut(src, base, i0, j).value && dst[k] == NUL
    ensures dst[k + 1..] == old(dst[k + 1..])
  {
    ghost var whole := Decode(src, base + i0, i0, j).value;
    var p: nat := base + i0;
    var i: int := i0;
    k := 0;
    while i <= j
      invariant Decode(src, p, i, j).Some?
      invariant k + |Decode(src, p, i, j).value| == |whole|
      invariant whole == dst[..k] + Decode(src, p, i, j).value
      invariant forall q :: k <= q < dst.Length ==> dst[q] == old(dst[q])
      decreases j - i
    {
      DecodeStep(src, p, i, j);
      ghost var done, rest := dst[..k], Decode(src, p, i, j).value;
      var c: char;
      if src[p] != '&' {
        c, p, i := src[p], p + 1, i + 1;
      } else {
        var e := Entity(src, p + 1);
        if e.Some? {
          c, p, i := e.value, p + 6, i + 6;
        } else {
          // unknown escape sequence: the '&' is dropped
          c, p, i := src[p + 1], p + 2, i + 1;
        }
      }
      dst[k] := c;
      assert dst[..k + 1] == done + [c];
      MoveFront(whole, done, c, Decode(src, p, i, j).value);
      k := k + 1;
    }
    dst[k] := NUL;
  }

  /** One step of the copy, as the loop body of copy() takes it. */
  lemma DecodeStep(s: seq<char>, p: nat, i: int, j: int)
    requires i <= j && Decode(s, p, i, j).Some?
    ensures p < |s|
    ensures s[p] != '&' ==>
              Decode(s, p + 1, i + 1, j).Some? &&
              Decode(s, p, i, j).value == [s[p]] + Decode(s, p + 1, i + 1, j).value
    ensures s[p] == '&' ==> p + 1 < |s|
    ensures s[p] == '&' && Entity(s, p + 1).Some? ==>
              Decode(s, p + 6, i + 6, j).Some? &&
              Decode(s, p, i, j).value == [Entity(s, p + 1).value] + Decode(s, p + 6, i + 6, j).value
    ensures s[p] == '&' && Entity(s, p + 1).None? ==>
              Decode(s, p + 2, i + 1, j).Some? &&
              Decode(s, p, i, j).value == [s[p + 1]] + Decode(s, p + 2, i + 1, j).value
  {
  }

  /** The copy step over one character, plain or escaped, written out in source positions. */
  lemma DecodeFront(s: seq<char>, p: nat, i: int, j: int, c: char, n: nat)
    requires i <= j && p < |s|
    requires (n == 1 && s[p] == c && c != '&') || (n == 6 && p + 1 < |s| && s[p] == '&' && Entity(s, p + 1) == Some(c))
    ensures Decode(s, p, i, j) == Prepend(c, Decode(s, p + n, i + n, j))
  {
  }

  /** The character just written moves from the part still to copy to the part copied. */
  lemma MoveFront(whole: seq<char>, done: seq<char>, c: char, rest: seq<char>)
    requires whole == done + ([c] + rest)
    ensures whole == (done + [c]) + rest
  {
  }

  // ---------------------------------------------------------------------------
  // The inverse: escaping text so that copy() restores it

  /** The entry copy() decodes back to c: the numeric spelling, or "quot;" for a double quote when named is set; -1 for a plain character. */
  function Code(c: char, named: bool): (k: int)
    ensures -1 <= k < |ENTITIES|
    ensures k >= 0 ==> ENTITIES[k].1 == c
    ensures k < 0 <==> c !in {'"', '&', '\'', '<', '>'}
  {
    match c
    case '"' => if named then 1 else 0
    case '&' => 2
    case '\'' => 3
    case '<' => 4
    case '>' => 5
    case _ => -1
  }

  /** Escapes one character. */
  function EscapeChar(c: char, named: bool): (r: seq<char>)
    ensures |r| == 1 || |r| == 6
  {
    var k := Code(c, named);
    if k < 0 then [c] else "&" + ENTITIES[k].0
  }

  /** Escapes a whole text, character by character. */
  function Escape(t: seq<char>, named: bool): seq<char> {
    if t == [] then [] else EscapeChar(t[0], named) + Escape(t[1..], named)
  }

  /** An escaped text is at least as long as the text and at most six times as long. */
  lemma {:induction false} EscapeLength(t: seq<char>, named: bool)
    ensures |t| <= |Escape(t, named)| <= 6 * |t|
  {
    if t != [] {
      EscapeLength(t[1..], named);
    }
  }

  /** No two entries of the table share a spelling, and every spelling has five characters. */
  lemma SpellingsDistinct()
    ensures forall k :: 0 <= k < |ENTITIES| ==> |ENTITIES[k].0| == 5
    ensures forall m, k :: 0 <= m < k < |ENTITIES| ==> ENTITIES[m].0 != ENTITIES[k].0
  {
  }

  /** Two spellings of the same length that both start at p are the same spelling. */
  lemma SameSpelling(s: seq<char>, p: nat, u: seq<char>, v: seq<char>)
    requires StartsWith(s, p, u) && StartsWith(s, p, v) && |u| == |v|
    ensures u == v
  {
    assert forall k :: 0 <= k < |u| ==> u[k] == s[p + k];
  }

  /** The lookup stops at the first entry whose spelling starts at p. */
  lemma {:induction false} LookupFinds(s: seq<char>, p: nat, n: nat, k: nat)
    requires n <= k < |ENTITIES| && StartsWith(s, p, ENTITIES[k].0)
    requires forall m :: n <= m < k ==> ENTITIES[m].0 != ENTITIES[k].0
    ensures Lookup(s, p, n) == Some(ENTITIES[k].1)
    decreases k - n
  {
    if n < k {
      SpellingsDistinct();
      if StartsWith(s, p, ENTITIES[n].0) {
        SameSpelling(s, p, ENTITIES[n].0, ENTITIES[k].0);
        assert false;
      }
      LookupFinds(s, p, n + 1, k);
    }
  }

  /**
   * The if-chain of copy() from entry n on finds nothing exactly when none of
   * those spellings starts at p; what it finds is the character of one that does.
   */
  lemma {:induction false} LookupMeaning(s: seq<char>, p: nat, n: nat)
    ensures Lookup(s, p, n).None? <==> forall k :: n <= k < |ENTITIES| ==> !StartsWith(s, p, ENTITIES[k].0)
    ensures Lookup(s, p, n).Some? ==>
      exists k :: n <= k < |ENTITIES| && StartsWith(s, p, ENTITIES[k].0) && Lookup(s, p, n).value == ENTITIES[k].1
    decreases |ENTITIES| - n
  {
    if n < |ENTITIES| && !StartsWith(s, p, ENTITIES[n].0) {
      LookupMeaning(s, p, n + 1);
    }
  }

  /**
   * An '&' followed by none of the six spellings is not an entity; one that is
   * decodes to one of the five characters escaped.
   */
  lemma EntityMeaning(s: seq<char>, p: nat)
    ensures Entity(s, p).None? <==> forall k :: 0 <= k < |ENTITIES| ==> !StartsWith(s, p, ENTITIES[k].0)
    ensures Entity(s, p).Some? ==> Entity(s, p).value in {'"', '&', '\'', '<', '>'}
  {
    LookupMeaning(s, p, 0);
  }

  /** Where a character's escape sits in the source, copy() reads that character back. */
  lemma EscapeCharAt(s: seq<char>, p: nat, c: char, named: bool)
    requires StartsWith(s, p, EscapeChar(c, named))
    ensures |EscapeChar(c, named)| == 1 ==> s[p] == c && c != '&'
    ensures |EscapeChar(c, named)| == 6 ==> p + 1 < |s| && s[p] == '&' && Entity(s, p + 1) == Some(c)
  {
    var w := EscapeChar(c, named);
    var k := Code(c, named);
    assert s[p] == w[0];
    if k >= 0 {
      var name := ENTITIES[k].0;
      SpellingsDistinct();
      SplitSpelling(s, p, "&", name);
      LookupFinds(s, p + 1, 0, k);
    }
  }

  /** Copying from where a character's escape sits writes that character and steps over the escape. */
  lemma DecodeEscapeChar(s: seq<char>, p: nat, i: int, j: int, c: char, named: bool)
    requires i <= j
    requires StartsWith(s, p, EscapeChar(c, named))
    ensures Decode(s, p, i, j) == Prepend(c, Decode(s, p + |EscapeChar(c, named)|, i + |EscapeChar(c, named)|, j))
  {
    EscapeCharAt(s, p, c, named);
    DecodeFront(s, p, i, j, c, |EscapeChar(c, named)|);
  }

  /** A slice that spells u + v spells u, then v. */
  lemma SplitSpelling(s: seq<char>, p: nat, u: seq<char>, v: seq<char>)
    requires StartsWith(s, p, u + v)
    ensures StartsWith(s, p, u) && StartsWith(s, p + |u|, v)
  {
    var uv := u + v;
    forall k | 0 <= k < |u|
      ensures s[p + k] == u[k]
    {
      assert s[p + k] == uv[k];
    }
    var q := p + |u|;
    forall k | 0 <= k < |v|
      ensures s[q + k] == v[k]
    {
      assert q + k == p + (|u| + k);
      assert s[p + (|u| + k)] == uv[|u| + k];
    }
  }

  /**
   * Where the escaped form of a text sits in the source, copying exactly
   * that range, with the counter in step with the source pointer, restores
   * the text.
   */
  lemma {:induction false} DecodeEscapeAt(s: seq<char>, p: nat, t: seq<char>, named: bool)
    requires StartsWith(s, p, Escape(t, named))
    ensures Decode(s, p, p, p + |Escape(t, named)| - 1) == Some(t)
  {
    DecodeEscapeUpTo(s, p, t, named, p + |Escape(t, named)| - 1);
  }

  /** DecodeEscapeAt with the last index j of the escaped form given. */
  lemma {:induction false} DecodeEscapeUpTo(s: seq<char>, p: nat, t: seq<char>, named: bool, j: int)
    requires StartsWith(s, p, Escape(t, named)) && j == p + |Escape(t, named)| - 1
    ensures Decode(s, p, p, j) == Some(t)
    decreases |t|
  {
    if t != [] {
      var w := EscapeChar(t[0], named);
      var tail := Escape(t[1..], named);
      SplitSpelling(s, p, w, tail);
      DecodeEscapeChar(s, p, p, j, t[0], named);
      DecodeEscapeUpTo(s, p + |w|, t[1..], named, j);
      assert [t[0]] + t[1..] == t;
    }
  }

  /** Round trip: copying the escaped form of a text restores it, whatever surrounds it. */
  lemma DecodeEscape(pre: seq<char>, t: seq<char>, named: bool, post: seq<char>)
    ensures Decode(pre + Escape(t, named) + post, |pre|, |pre|, |pre| + |Escape(t, named)| - 1) == Some(t)
  {
    var s := pre + Escape(t, named) + post;
    assert forall k :: 0 <= k < |Escape(t, named)| ==> s[|pre| + k] == Escape(t, named)[k];
    DecodeEscapeAt(s, |pre|, t, named);
  }

  /** Text without an '&' is copied character for character, [i, j] inclusive. */
  lemma {:induction false} PlainCopy(s: seq<char>, i: nat, j: int)
    requires i <= j + 1 && j < |s|
    requires forall k :: i <= k <= j ==> s[k] != '&'
    ensures Decode(s, i, i, j) == Some(s[i..j + 1])
    decreases j - i
  {
    if i <= j {
      PlainCopy(s, i + 1, j);
      assert Decode(s, i, i, j) == Prepend(s[i], Decode(s, i + 1, i + 1, j));
      assert [s[i]] + s[i + 1..j + 1] == s[i..j + 1];
      assert Decode(s, i, i, j) == Some(s[i..j + 1]);
    } else {
      assert s[i..j + 1] == [];
    }
  }

  /**
   * An unknown escape sequence is not an error: the '&' is dropped, the next
   * character is written, and the copy goes on one source position ahead of
   * its counter, so a single unknown '&' makes it read the character just
   * past position j.
   */
  lemma {:induction false} UnknownEscapeShifts(s: seq<char>, p: nat, j: int)
    requires p < j && j + 1 < |s|
    requires s[p] == '&' && Entity(s, p + 1) == None
    requires forall k :: p < k <= j + 1 ==> s[k] != '&'
    ensures Decode(s, p, p, j) == Some(s[p + 1..j + 2])
  {
    PlainShifted(s, p + 2, p + 1, j);
    assert [s[p + 1]] + s[p + 2..j + 2] == s[p + 1..j + 2];
  }

  /** Plain text with the source pointer one ahead of the counter. */
  lemma {:induction false} PlainShifted(s: seq<char>, p: nat, i: int, j: int)
    requires p == i + 1 && i <= j + 1 && j + 1 < |s|
    requires forall k :: p <= k <= j + 1 ==> s[k] != '&'
    ensures Decode(s, p, i, j) == Some(s[p..j + 2])
    decreases j - i
  {
    if i <= j {
      PlainShifted(s, p + 1, i + 1, j);
      assert [s[p]] + s[p + 1..j + 2] == s[p..j + 2];
    }
  }
  /** The copy depends on the counters only through the distance between them. */
  lemma {:induction false} DecodeShift(s: seq<char>, p: nat, i: int, j: int, d: int)
    ensures Decode(s, p, i, j) == Decode(s, p, i + d, j + d)
    decreases j - i
  {
    if i <= j && p < |s| {
      if s[p] != '&' {
        DecodeShift(s, p + 1, i + 1, j, d);
      } else if p + 1 < |s| {
        match Entity(s, p + 1)
        case Some(c) => DecodeShift(s, p + 6, i + 6, j, d);
        case None => DecodeShift(s, p + 2, i + 1, j, d);
      }
    }
  }

  /** An escaped character holds no '<', and no NUL unless it is one. */
  lemma EscapeCharClean(c: char, named: bool)
    ensures forall l :: 0 <= l < |EscapeChar(c, named)| ==> EscapeChar(c, named)[l] != '<'
    ensures c != NUL ==> forall l :: 0 <= l < |EscapeChar(c, named)| ==> EscapeChar(c, named)[l] != NUL
  {
    match c
    case '"' =>
    case '&' =>
    case '\'' =>
    case '<' =>
    case '>' =>
    case _ =>
  }

  /** Escaped text holds no '<'; escaping keeps a text non-empty and free of NUL. */
  lemma {:induction false} EscapeClean(t: seq<char>, named: bool)
    ensures forall l :: 0 <= l < |Escape(t, named)| ==> Escape(t, named)[l] != '<'
    ensures Literal(t) ==> Literal(Escape(t, named))
    decreases |t|
  {
    if t != [] {
      EscapeCharClean(t[0], named);
      EscapeClean(t[1..], named);
      var w, rest := EscapeChar(t[0], named), Escape(t[1..], named);
      assert Escape(t, named) == w + rest;
      if Literal(t) {
        assert t[0] != NUL;
        assert forall l :: 1 <= l < |t| ==> t[1..][l - 1] == t[l];
      }
    }
  }
}

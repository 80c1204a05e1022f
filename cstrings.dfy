/**
 * C strings as the two parsers see them. A received payload is a sequence of
 * characters closed by one terminating NUL; a pointer into it is an offset.
 */
module CStrings {
  const NUL: char := '\0'

  /** A NUL-terminated buffer with no NUL before its last character, so strlen(s) == |s| - 1. */
  predicate Terminated(s: seq<char>) {
    |s| > 0 && s[|s| - 1] == NUL && forall k :: 0 <= k < |s| - 1 ==> s[k] != NUL
  }

  /** A non-empty string literal such as "<title>", its own terminator left implicit. */
  predicate Literal(t: seq<char>) {
    |t| > 0 && forall k :: 0 <= k < |t| ==> t[k] != NUL
  }

  /** strncmp(s + p, w, |w|) == 0 for a literal w: on a terminated s the comparison stops at the NUL. */
  predicate StartsWith(s: seq<char>, p: nat, w: seq<char>) {
    p + |w| <= |s| && forall k :: 0 <= k < |w| ==> s[p + k] == w[k]
  }
}

/** String operations the gateway borrows from ECMAScript: line terminators
    (what `.` in a regular expression refuses), `indexOf`, `replace` with a
    string pattern, `split(',')` and `join(',')`, and upper-casing. */
module Strings {
  import opened Wrappers

  /** The four ECMAScript line terminators. */
  predicate IsLineTerminator(c: char) {
    c == '\n' || c == '\r' || c == '\U{2028}' || c == '\U{2029}'
  }

  predicate NoLineTerminator(s: string) {
    forall i :: 0 <= i < |s| ==> !IsLineTerminator(s[i])
  }

  predicate StartsWith(s: string, p: string) {
    |p| <= |s| && s[..|p|] == p
  }

  /** A prefix is matched one character at a time. */
  lemma StartsWithCons(s: string, p: string)
    requires s != [] && p != []
    ensures StartsWith(s, p) <==> s[0] == p[0] && StartsWith(s[1..], p[1..])
  {
    if |p| <= |s| {
      assert s[..|p|] == [s[0]] + s[1..][..|p| - 1];
      assert p == [p[0]] + p[1..];
    }
  }

  /** `pat` occurs in `s` starting at position `i`. */
  predicate OccursAt(s: string, pat: string, i: nat) {
    i + |pat| <= |s| && s[i..i + |pat|] == pat
  }

  /** `s.indexOf(pat, from)`: the first position at or after `from` where
      `pat` occurs, or `None` for -1. */
  function IndexOf(s: string, pat: string, from: nat): (r: Option<nat>)
    decreases |s| - from
    ensures r.Some? ==> from <= r.value && OccursAt(s, pat, r.value)
  {
    if from + |pat| > |s| then None
    else if s[from..from + |pat|] == pat then Some(from)
    else IndexOf(s, pat, from + 1)
  }

  /** The position found is the first occurrence from `from` on, and -1
      means there is none. */
  lemma {:induction false} IndexOfSpec(s: string, pat: string, from: nat)
    ensures IndexOf(s, pat, from).Some? ==> forall j: nat :: from <= j < IndexOf(s, pat, from).value ==> !OccursAt(s, pat, j)
    ensures IndexOf(s, pat, from).None? ==> forall j: nat :: from <= j ==> !OccursAt(s, pat, j)
    decreases |s| - from
  {
    if from + |pat| <= |s| && s[from..from + |pat|] != pat {
      IndexOfSpec(s, pat, from + 1);
    }
  }

  /** `indexOf` finds an occurrence exactly when it is the first one from
      `from` on. */
  lemma {:induction false} IndexOfFirst(s: string, pat: string, from: nat, i: nat)
    requires from <= i && OccursAt(s, pat, i)
    requires forall j: nat :: from <= j < i ==> !OccursAt(s, pat, j)
    ensures IndexOf(s, pat, from) == Some(i)
    decreases i - from
  {
    if from < i {
      IndexOfFirst(s, pat, from + 1, i);
    }
  }

  /** `s.replace(pat, rep)` with a string pattern: only the first (leftmost)
      occurrence is replaced, and a string without `pat` is returned as is.
      (`rep` is always a literal here, never one with `$` patterns.) */
  function ReplaceFirst(s: string, pat: string, rep: string): string {
    match IndexOf(s, pat, 0)
    case None => s
    case Some(i) => s[..i] + rep + s[i + |pat|..]
  }

  /** Without an occurrence, the string is returned unchanged. */
  lemma ReplaceFirstAbsent(s: string, pat: string, rep: string)
    requires forall j: nat :: !OccursAt(s, pat, j)
    ensures ReplaceFirst(s, pat, rep) == s
  {
  }

  /** At the leftmost occurrence `i`, `pat` is replaced by `rep` and the
      rest of the string is kept. */
  lemma ReplaceFirstAt(s: string, pat: string, rep: string, i: nat)
    requires OccursAt(s, pat, i)
    requires forall j: nat :: j < i ==> !OccursAt(s, pat, j)
    ensures ReplaceFirst(s, pat, rep) == s[..i] + rep + s[i + |pat|..]
  {
    IndexOfFirst(s, pat, 0, i);
  }

  /** `s.split(',')`: the pieces between commas, always at least one
      (`"".split(',')` is `[""]`). */
  function SplitComma(s: string): (pieces: seq<string>)
    ensures |pieces| >= 1
  {
    if s == [] then [""]
    else
      var rest := SplitComma(s[1..]);
      if s[0] == ',' then [""] + rest else [[s[0]] + rest[0]] + rest[1..]
  }

  /** `pieces.join(',')`. */
  function JoinComma(pieces: seq<string>): string {
    if pieces == [] then ""
    else if |pieces| == 1 then pieces[0]
    else pieces[0] + "," + JoinComma(pieces[1..])
  }

  function CountComma(s: string): nat {
    if s == [] then 0 else (if s[0] == ',' then 1 else 0) + CountComma(s[1..])
  }

  /** Splitting yields one piece more than there are commas. */
  lemma {:induction false} SplitCommaCount(s: string)
    ensures |SplitComma(s)| == CountComma(s) + 1
  {
    if s != [] {
      SplitCommaCount(s[1..]);
    }
  }

  /** Splitting `a + "," + b` splits both halves independently. */
  lemma {:induction false} SplitCommaAppend(a: string, b: string)
    ensures SplitComma(a + "," + b) == SplitComma(a) + SplitComma(b)
  {
    if a == [] {
      assert a + "," + b == [','] + b;
      assert ([','] + b)[1..] == b;
    } else {
      assert (a + "," + b)[1..] == a[1..] + "," + b;
      SplitCommaAppend(a[1..], b);
    }
  }

  /** A string without commas is a single piece. */
  lemma {:induction false} SplitCommaFree(s: string)
    requires ',' !in s
    ensures SplitComma(s) == [s]
  {
    if s != [] {
      assert forall c :: c in s[1..] ==> c in s;
      SplitCommaFree(s[1..]);
      assert [s[0]] + s[1..] == s;
    }
  }

  /** Joining with commas and splitting again gives back the head's own
      pieces followed by the remaining comma-free pieces unchanged. */
  lemma {:induction false} SplitJoinComma(head: string, rest: seq<string>)
    requires forall k :: 0 <= k < |rest| ==> ',' !in rest[k]
    ensures SplitComma(JoinComma([head] + rest)) == SplitComma(head) + rest
    decreases |rest|
  {
    if rest == [] {
      assert [head] + rest == [head];
    } else {
      assert ([head] + rest)[1..] == rest;
      assert rest == [rest[0]] + rest[1..];
      SplitJoinComma(rest[0], rest[1..]);
      SplitCommaFree(rest[0]);
      SplitCommaAppend(head, JoinComma(rest));
    }
  }

  /** `c.toUpperCase()` for ASCII letters. */
  function UpperChar(c: char): char {
    if 'a' <= c <= 'z' then (c as int - 'a' as int + 'A' as int) as char else c
  }

  /** `s.toUpperCase()`, character by character over ASCII letters. */
  function Upper(s: string): (r: string)
    ensures |r| == |s|
  {
    seq(|s|, i requires 0 <= i < |s| => UpperChar(s[i]))
  }
}

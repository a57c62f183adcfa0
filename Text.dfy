/**
 The string operations the history page relies on, written over `seq<char>`:
 `includes`, `split` with a fixed string separator, `slice(0, n)` and an ASCII
 lower-case fold.
 */
module Text {
  import opened Wrappers

  type String = seq<char>

  /** `needle` occurs in `s` starting at index `i`. */
  predicate OccursAt(s: String, needle: String, i: int) {
    0 <= i && i + |needle| <= |s| && s[i..i + |needle|] == needle
  }

  /** `needle` is a substring of `s`. */
  ghost predicate Contains(s: String, needle: String) {
    exists i :: OccursAt(s, needle, i)
  }

  /** Occurrences in `s[1..]` are the occurrences in `s` shifted down by one. */
  lemma OccursAtShift(s: String, needle: String)
    requires |s| > 0
    ensures forall k :: 0 <= k ==> (OccursAt(s[1..], needle, k) <==> OccursAt(s, needle, k + 1))
    ensures forall k :: 1 <= k ==> (OccursAt(s, needle, k) <==> OccursAt(s[1..], needle, k - 1))
  {
    forall k | 0 <= k
      ensures OccursAt(s[1..], needle, k) <==> OccursAt(s, needle, k + 1)
    {
      if k + |needle| <= |s| - 1 {
        assert s[1..][k..k + |needle|] == s[k + 1..k + 1 + |needle|];
      }
    }
  }

  /** The first index at which `needle` occurs in `s`, as the search behind
      `indexOf`, `includes` and `split` finds it. */
  function IndexOf(s: String, needle: String): (r: Option<nat>)
    ensures r.Some? ==> OccursAt(s, needle, r.value)
    ensures r.Some? ==> forall k :: 0 <= k < r.value ==> !OccursAt(s, needle, k)
    ensures r.None? ==> forall k :: !OccursAt(s, needle, k)
    decreases |s|
  {
    if |s| < |needle| then None
    else if s[..|needle|] == needle then Some(0)
    else
      OccursAtShift(s, needle);
      var rest := IndexOf(s[1..], needle);
      if rest.None? then None else Some(rest.value + 1)
  }

  /** `s.includes(needle)`. */
  function Includes(s: String, needle: String): (b: bool)
    ensures b <==> Contains(s, needle)
  {
    IndexOf(s, needle).Some?
  }

  /** Every string contains the empty string, so an empty search term matches. */
  lemma IncludesEmpty(s: String)
    ensures Includes(s, [])
  {
    assert OccursAt(s, [], 0);
  }

  /** The number of non-overlapping occurrences of `sep` in `s`, counted left to
      right: a match consumes its characters, a mismatch advances by one. */
  function Occurrences(s: String, sep: String): (n: nat)
    requires |sep| > 0
    ensures n * |sep| <= |s|
    decreases |s|
  {
    if |s| < |sep| then 0
    else if s[..|sep|] == sep then 1 + Occurrences(s[|sep|..], sep)
    else Occurrences(s[1..], sep)
  }

  /** `s.split(sep)` for a non-empty string separator: cut at the first
      occurrence, then continue the search after it. */
  function Split(s: String, sep: String): (parts: seq<String>)
    requires |sep| > 0
    ensures |parts| >= 1
    decreases |s|
  {
    match IndexOf(s, sep)
    case None => [s]
    case Some(j) => [s[..j]] + Split(s[j + |sep|..], sep)
  }

  /** `parts.join(sep)`, the inverse of `Split`. */
  function Join(parts: seq<String>, sep: String): String
    requires |parts| >= 1
  {
    if |parts| == 1 then parts[0] else parts[0] + sep + Join(parts[1..], sep)
  }

  /** Skipping a prefix in which `sep` never starts does not change the count. */
  lemma {:induction false} OccurrencesSkip(s: String, sep: String, j: nat)
    requires |sep| > 0 && j <= |s|
    requires forall k :: 0 <= k < j ==> !OccursAt(s, sep, k)
    ensures Occurrences(s, sep) == Occurrences(s[j..], sep)
  {
    if j == 0 {
      assert s[j..] == s;
    } else if |s| < |sep| {
      assert Occurrences(s[j..], sep) * |sep| <= |s[j..]| < |sep|;
    } else {
      assert !OccursAt(s, sep, 0);
      OccursAtShift(s, sep);
      OccurrencesSkip(s[1..], sep, j - 1);
      assert s[1..][j - 1..] == s[j..];
    }
  }

  /** `split` yields one segment more than there are separators. */
  lemma {:induction false} SplitCount(s: String, sep: String)
    requires |sep| > 0
    ensures |Split(s, sep)| == Occurrences(s, sep) + 1
    decreases |s|
  {
    match IndexOf(s, sep)
    case None =>
      OccurrencesSkip(s, sep, |s|);
      assert s[|s|..] == [];
    case Some(j) =>
      OccurrencesSkip(s, sep, j);
      var t := s[j..];
      assert t[..|sep|] == sep;
      assert t[|sep|..] == s[j + |sep|..];
      SplitCount(s[j + |sep|..], sep);
  }

  /** Joining the segments with the separator gives back the string. */
  lemma {:induction false} JoinSplit(s: String, sep: String)
    requires |sep| > 0
    ensures Join(Split(s, sep), sep) == s
    decreases |s|
  {
    match IndexOf(s, sep)
    case None =>
    case Some(j) =>
      var rest := Split(s[j + |sep|..], sep);
      var parts := [s[..j]] + rest;
      assert parts[0] == s[..j] && parts[1..] == rest;
      JoinSplit(s[j + |sep|..], sep);
      assert s[j..j + |sep|] == sep;
      assert s == s[..j] + s[j..j + |sep|] + s[j + |sep|..];
  }

  /** No segment produced by `split` contains the separator. */
  lemma {:induction false} SplitSegmentsFree(s: String, sep: String)
    requires |sep| > 0
    ensures forall i :: 0 <= i < |Split(s, sep)| ==> !Contains(Split(s, sep)[i], sep)
    decreases |s|
  {
    match IndexOf(s, sep)
    case None =>
    case Some(j) =>
      var head := s[..j];
      forall k | OccursAt(head, sep, k) ensures false {
        assert head[k..k + |sep|] == s[k..k + |sep|];
        assert OccursAt(s, sep, k);
      }
      SplitSegmentsFree(s[j + |sep|..], sep);
      var rest := Split(s[j + |sep|..], sep);
      assert Split(s, sep) == [head] + rest;
  }

  /** `split` returns the whole string as its single segment exactly when the
      separator does not occur. */
  lemma SplitSingle(s: String, sep: String)
    requires |sep| > 0
    ensures Split(s, sep) == [s] <==> !Contains(s, sep)
  {
    match IndexOf(s, sep)
    case None =>
    case Some(j) =>
      assert |Split(s, sep)| >= 2;
  }

  /** An occurrence preceded by no copy of the separator's first character is the first one. */
  lemma FirstOccurrence(s: String, sep: String, j: nat)
    requires |sep| > 0 && OccursAt(s, sep, j)
    requires forall k :: 0 <= k < j ==> s[k] != sep[0]
    ensures IndexOf(s, sep) == Some(j)
  {
    NoEarlierOccurrence(s, sep, j);
  }

  /** No occurrence can start where the separator's first character is absent. */
  lemma NoEarlierOccurrence(s: String, sep: String, j: nat)
    requires |sep| > 0 && j <= |s|
    requires forall k :: 0 <= k < j ==> s[k] != sep[0]
    ensures forall k :: 0 <= k < j ==> !OccursAt(s, sep, k)
  {
    forall k | 0 <= k < j ensures !OccursAt(s, sep, k) {
      if k + |sep| <= |s| {
        assert s[k..k + |sep|][0] == s[k];
      }
    }
  }

  /** A string without the separator's first character has no occurrence. */
  lemma NoOccurrence(s: String, sep: String)
    requires |sep| > 0
    requires forall k :: 0 <= k < |s| ==> s[k] != sep[0]
    ensures IndexOf(s, sep) == None
  {
    NoEarlierOccurrence(s, sep, |s|);
  }

  /** `s.slice(0, n)` for `n >= 0`: the prefix of length `min(n, |s|)`. */
  function Take(s: String, n: nat): (r: String)
    ensures |r| == if n < |s| then n else |s|
    ensures r <= s
  {
    if n < |s| then s[..n] else s
  }

  predicate IsAsciiUpper(c: char) {
    'A' <= c <= 'Z'
  }

  /** ASCII case fold of one character. */
  function LowerChar(c: char): (d: char)
    ensures !IsAsciiUpper(d)
    ensures !IsAsciiUpper(c) ==> d == c
    ensures IsAsciiUpper(c) ==> d as int - c as int == 'a' as int - 'A' as int
  {
    if IsAsciiUpper(c) then (c as int - 'A' as int + 'a' as int) as char else c
  }

  /** `s.toLowerCase()`, restricted to the ASCII letters. */
  function Lower(s: String): (r: String)
    ensures |r| == |s|
    ensures forall i :: 0 <= i < |s| ==> r[i] == LowerChar(s[i])
  {
    seq(|s|, i requires 0 <= i < |s| => LowerChar(s[i]))
  }

  /** Folding twice is folding once. */
  lemma LowerIdempotent(s: String)
    ensures Lower(Lower(s)) == Lower(s)
  {
  }
}

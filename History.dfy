/**
 The data shaping of the query-history page: a stored `query_history` row
 becomes a `HistoryEntry`, and the search box keeps the entries whose prompt
 contains the search text, ignoring case.
 */
module History {
  import opened Text

  /** A stored `query_history` row as the backend returns it. */
  datatype Row = Row(id: String, prompt: String, response: String, createdAt: String, userId: String)

  /** The page's view of one row (the locale-formatted `time` is not modelled). */
  datatype HistoryEntry = HistoryEntry(
    id: String,
    description: String,
    date: String,
    queryCount: nat,
    response: String)

  /** The text that separates the SQL statements of one response. */
  const Separator: String := "\n---\n"

  /** `date` is the first `DateLength` characters of `created_at`. */
  const DateLength: nat := 10

  /** What holds of every entry the page builds from a row. */
  ghost predicate WellShaped(e: HistoryEntry) {
    && e.queryCount == Occurrences(e.response, Separator) + 1
    && |e.date| <= DateLength
  }

  /** The `map` callback that turns one row into an entry. */
  function ToEntry(r: Row): (e: HistoryEntry)
    ensures e.id == r.id && e.description == r.prompt && e.response == r.response
    ensures e.date <= r.createdAt
    ensures |e.date| == if |r.createdAt| < DateLength then |r.createdAt| else DateLength
    ensures e.queryCount == Occurrences(r.response, Separator) + 1
    ensures e.queryCount >= 1 && WellShaped(e)
  {
    SplitCount(r.response, Separator);
    HistoryEntry(r.id, r.prompt, Take(r.createdAt, DateLength), |Split(r.response, Separator)|, r.response)
  }

  /** A response counts as one query exactly when it holds no separator. */
  lemma QueryCountOne(r: Row)
    ensures ToEntry(r).queryCount == 1 <==> !Contains(r.response, Separator)
  {
    SplitCount(r.response, Separator);
    SplitSingle(r.response, Separator);
  }

  /** `data.map(...)`: one entry per row, in the rows' order. */
  function ToEntries(rows: seq<Row>): (es: seq<HistoryEntry>)
    ensures |es| == |rows|
    ensures forall i :: 0 <= i < |rows| ==> es[i] == ToEntry(rows[i])
    ensures forall e :: e in es ==> WellShaped(e)
  {
    if rows == [] then [] else [ToEntry(rows[0])] + ToEntries(rows[1..])
  }

  /** The search predicate: the lower-cased prompt contains the lower-cased term. */
  predicate Matches(e: HistoryEntry, term: String) {
    Includes(Lower(e.description), Lower(term))
  }

  /** `filteredEntries`: the entries that match the search term, in order. */
  function Filter(entries: seq<HistoryEntry>, term: String): (r: seq<HistoryEntry>)
    ensures |r| <= |entries|
    ensures forall e :: e in r <==> e in entries && Matches(e, term)
  {
    if entries == [] then []
    else if Matches(entries[0], term) then [entries[0]] + Filter(entries[1..], term)
    else Filter(entries[1..], term)
  }

  /** `a` is `b` with some elements dropped and the rest kept in order. */
  ghost predicate IsSubsequence<T>(a: seq<T>, b: seq<T>)
    decreases |b|
  {
    if b == [] then a == []
    else (a != [] && a[0] == b[0] && IsSubsequence(a[1..], b[1..])) || IsSubsequence(a, b[1..])
  }

  /** Filtering keeps the original order. */
  lemma {:induction false} FilterIsSubsequence(entries: seq<HistoryEntry>, term: String)
    ensures IsSubsequence(Filter(entries, term), entries)
  {
    if entries != [] {
      FilterIsSubsequence(entries[1..], term);
      if Matches(entries[0], term) {
        var r := Filter(entries, term);
        assert r[0] == entries[0] && r[1..] == Filter(entries[1..], term);
      }
    }
  }

  /** Each matching entry keeps all its copies; a non-matching one has none. */
  lemma {:induction false} FilterMultiplicity(entries: seq<HistoryEntry>, term: String, e: HistoryEntry)
    ensures multiset(Filter(entries, term))[e] == if Matches(e, term) then multiset(entries)[e] else 0
  {
    if entries != [] {
      FilterMultiplicity(entries[1..], term, e);
      assert entries == [entries[0]] + entries[1..];
    }
  }

  /** Filtering a concatenation filters each part. */
  lemma {:induction false} FilterConcat(a: seq<HistoryEntry>, b: seq<HistoryEntry>, term: String)
    ensures Filter(a + b, term) == Filter(a, term) + Filter(b, term)
  {
    if a == [] {
      assert a + b == b;
    } else {
      assert (a + b)[0] == a[0] && (a + b)[1..] == a[1..] + b;
      FilterConcat(a[1..], b, term);
    }
  }

  /** A list whose every entry matches is left as it is. */
  lemma {:induction false} FilterAllMatch(entries: seq<HistoryEntry>, term: String)
    requires forall e :: e in entries ==> Matches(e, term)
    ensures Filter(entries, term) == entries
  {
    if entries != [] {
      FilterAllMatch(entries[1..], term);
    }
  }

  /** Applying the same search again changes nothing. */
  lemma FilterIdempotent(entries: seq<HistoryEntry>, term: String)
    ensures Filter(Filter(entries, term), term) == Filter(entries, term)
  {
    FilterAllMatch(Filter(entries, term), term);
  }

  /** An empty search term keeps every entry. */
  lemma {:induction false} FilterEmptyTerm(entries: seq<HistoryEntry>)
    ensures Filter(entries, "") == entries
  {
    if entries != [] {
      assert Lower("") == "";
      IncludesEmpty(Lower(entries[0].description));
      FilterEmptyTerm(entries[1..]);
    }
  }
}

/**
 The worked example of the history page: one stored row with two SQL
 statements, and two searches against its prompt.
 */
module Scenarios {
  import opened Text
  import opened History

  const SalesHead: String := "SELECT * FROM sales"
  const SalesTail: String := "SELECT count(*) FROM sales"

  /** The example response splits into its two statements. */
  lemma SalesSplit()
    ensures Split(SalesHead + Separator + SalesTail, Separator) == [SalesHead, SalesTail]
  {
    var resp := SalesHead + Separator + SalesTail;
    assert resp[|SalesHead|..|SalesHead| + |Separator|] == Separator;
    assert forall k :: 0 <= k < |SalesHead| ==> resp[k] == SalesHead[k];
    FirstOccurrence(resp, Separator, |SalesHead|);
    assert resp[|SalesHead| + |Separator|..] == SalesTail;
    assert resp[..|SalesHead|] == SalesHead;
    assert Separator[0] == '\n';
    NoOccurrence(SalesTail, Separator);
  }

  /** The example row becomes an entry with two queries and the date part of its timestamp. */
  lemma SalesScenario()
    ensures var e := ToEntry(Row("1", "show sales", SalesHead + Separator + SalesTail, "2024-01-02T10:30:00Z", "u"));
      e.queryCount == 2 && e.date == "2024-01-02" && e.description == "show sales"
  {
    SalesSplit();
    SplitCount(SalesHead + Separator + SalesTail, Separator);
  }

  /** "SALES" finds the example prompt regardless of case; "orders" does not. */
  lemma SearchScenario()
    ensures Matches(HistoryEntry("1", "show sales", "", 1, ""), "SALES")
    ensures !Matches(HistoryEntry("1", "show sales", "", 1, ""), "orders")
  {
    assert Lower("SALES") == "sales";
    assert Lower("show sales") == "show sales";
    assert Lower("orders") == "orders";
    assert OccursAt("show sales", "sales", 5);
    var s: String := "show sales";
    forall k ensures !OccursAt(s, "orders", k) {
      if 0 <= k && k + 6 <= |s| {
        assert s[k..k + 6][0] == s[k];
        assert s[k..k + 6][1] == s[k + 1];
      }
    }
  }
}

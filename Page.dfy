/**
 The query-history page's state: the loaded entries, the search text, the
 entry open in the detail dialog and the "copied" indicator, with the
 callbacks that overwrite them.
 */
module Page {
  import opened Wrappers
  import opened Text
  import opened History

  /** A transient notification: title, optional description, destructive styling. */
  datatype Toast = Toast(title: String, description: Option<String>, destructive: bool)

  const CopiedToast: Toast := Toast("Copied!", Some("Query copied to clipboard."), false)
  const CopyFailedToast: Toast := Toast("Failed to copy.", None, true)

  /** Delay, in milliseconds, after which a successful copy clears the indicator. */
  const CopiedResetMs: nat := 2000

  class QueryHistoryPage {
    var historyEntries: seq<HistoryEntry>
    var searchTerm: String
    var selectedEntry: Option<HistoryEntry>
    var copied: bool

    /** Every entry on the page, and the one open in the dialog, was built from a row. */
    ghost predicate Valid()
      reads this
    {
      && (forall e :: e in historyEntries ==> WellShaped(e))
      && (selectedEntry.Some? ==> WellShaped(selectedEntry.value))
    }

    /** The initial `useState` values. */
    constructor ()
      ensures Valid()
      ensures historyEntries == [] && searchTerm == "" && selectedEntry == None && !copied
    {
      historyEntries := [];
      searchTerm := "";
      selectedEntry := None;
      copied := false;
    }

    /** The entries shown for the current search text. */
    function FilteredEntries(): seq<HistoryEntry>
      reads this
    {
      Filter(historyEntries, searchTerm)
    }

    /** The dialog is open exactly while an entry is selected. */
    predicate DialogOpen()
      reads this
    {
      selectedEntry.Some?
    }

    /** The search box's `onChange`. */
    method SetSearchTerm(term: String)
      requires Valid()
      modifies this
      ensures Valid()
      ensures searchTerm == term
      ensures historyEntries == old(historyEntries) && selectedEntry == old(selectedEntry) && copied == old(copied)
    {
      searchTerm := term;
    }

    /** The effect keyed on the user, given the signed-in user and the rows the
        query returned (`None` when it returned no data). */
    method Load(user: Option<String>, data: Option<seq<Row>>)
      requires Valid()
      modifies this
      ensures Valid()
      ensures historyEntries == if user.Some? && data.Some? then ToEntries(data.value) else old(historyEntries)
      ensures searchTerm == old(searchTerm) && selectedEntry == old(selectedEntry) && copied == old(copied)
    {
      if user.None? {
        return;
      }
      if data.Some? {
        historyEntries := ToEntries(data.value);
      }
    }

    /** The "View Queries" button on the `k`-th card shown. */
    method View(k: nat)
      requires Valid()
      requires k < |FilteredEntries()|
      modifies this
      ensures Valid()
      ensures selectedEntry == Some(old(FilteredEntries())[k])
      ensures selectedEntry.value in historyEntries && Matches(selectedEntry.value, searchTerm)
      ensures historyEntries == old(historyEntries) && searchTerm == old(searchTerm) && copied == old(copied)
    {
      var shown := FilteredEntries();
      assert shown[k] in shown;
      selectedEntry := Some(shown[k]);
    }

    /** The dialog's `onOpenChange`. */
    method OnOpenChange(isOpen: bool)
      requires Valid()
      modifies this
      ensures Valid()
      ensures selectedEntry == if isOpen then old(selectedEntry) else None
      ensures historyEntries == old(historyEntries) && searchTerm == old(searchTerm) && copied == old(copied)
    {
      if !isOpen {
        selectedEntry := None;
      }
    }

    /** The dialog's "Close" button. */
    method Close()
      requires Valid()
      modifies this
      ensures Valid()
      ensures selectedEntry == None && !DialogOpen()
      ensures historyEntries == old(historyEntries) && searchTerm == old(searchTerm) && copied == old(copied)
    {
      selectedEntry := None;
    }

    /** The dialog's copy button: hands the open entry's response to the
        clipboard and, given whether the write succeeded, returns the
        notification shown and the delay of the reset timer it starts. */
    method Copy(writeSucceeded: bool) returns (text: String, toast: Toast, resetAfterMs: Option<nat>)
      requires Valid()
      requires selectedEntry.Some?
      modifies this
      ensures Valid()
      ensures text == old(selectedEntry).value.response
      ensures copied == (writeSucceeded || old(copied))
      ensures toast == if writeSucceeded then CopiedToast else CopyFailedToast
      ensures resetAfterMs == if writeSucceeded then Some(CopiedResetMs) else None
      ensures historyEntries == old(historyEntries) && searchTerm == old(searchTerm) && selectedEntry == old(selectedEntry)
    {
      text := selectedEntry.value.response;
      if writeSucceeded {
        copied := true;
        toast := CopiedToast;
        resetAfterMs := Some(CopiedResetMs);
      } else {
        toast := CopyFailedToast;
        resetAfterMs := None;
      }
    }

    /** The reset timer firing. */
    method TimerFired()
      requires Valid()
      modifies this
      ensures Valid()
      ensures !copied
      ensures historyEntries == old(historyEntries) && searchTerm == old(searchTerm) && selectedEntry == old(selectedEntry)
    {
      copied := false;
    }
  }

  /** Opening an entry, closing the dialog and opening another shows the
      second entry; a failed copy never raises the indicator; the timer
      clears it after a successful one. */
  method DialogSession(page: QueryHistoryPage, first: nat, second: nat)
    requires page.Valid() && !page.copied
    requires first < |page.FilteredEntries()| && second < |page.FilteredEntries()|
    modifies page
  {
    var shown := page.FilteredEntries();
    page.View(first);
    assert page.selectedEntry == Some(shown[first]);
    page.Close();
    assert page.selectedEntry == None;
    page.View(second);
    assert page.selectedEntry == Some(shown[second]);
    var text, toast, timer := page.Copy(false);
    assert !page.copied && toast.destructive && text == shown[second].response;
    text, toast, timer := page.Copy(true);
    assert page.copied && timer == Some(2000);
    page.TimerFired();
    assert !page.copied;
  }
}

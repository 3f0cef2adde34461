/** The popup's search: the stored bookmarks filtered by the search term,
    the "N results found" line and the visibility of the button that opens
    the selected results. */
module Popup {
  import opened Seqs
  import opened Text
  import opened Bookmarks

  /** What the popup shows: a prompt to import when nothing was ever
      stored, otherwise the matching bookmarks, the count line and whether
      the open-selected button is displayed. */
  datatype PopupView =
    | ImportPrompt
    | Results(matches: seq<Bookmark>, countText: string, openButtonShown: bool)

  /** `data.bookmarks.filter(...)`: the bookmarks matching `term`, in
      stored order, with no cap: a matching bookmark stored several times
      is listed as many times. */
  function SearchResults(bookmarks: seq<Bookmark>, term: string): (found: seq<Bookmark>)
    ensures forall i :: 0 <= i < |found| ==> found[i] in bookmarks && Matches(found[i], Lower(term))
    ensures forall i :: 0 <= i < |bookmarks| && Matches(bookmarks[i], Lower(term)) ==> bookmarks[i] in found
    ensures forall b :: Occurrences(found, b) == if Matches(b, Lower(term)) then Occurrences(bookmarks, b) else 0
  {
    FilterOccurrences(bookmarks, MatchesTerm(term));
    Filter(bookmarks, MatchesTerm(term))
  }

  /** searchBookmarks, with the storage read passed in: `None` when the
      `bookmarks` key was never set. */
  function SearchBookmarks(stored: Option<seq<Bookmark>>, term: string): (view: PopupView)
    ensures view.ImportPrompt? <==> stored.None?
  {
    match stored
    case None => ImportPrompt
    case Some(bookmarks) =>
      var found := SearchResults(bookmarks, term);
      Results(found, NatToDecimal(|found|) + " results found", |found| > 0)
  }

  /** The results keep the stored order: they are a subsequence of the
      stored bookmarks. */
  lemma SearchIsSubsequence(bookmarks: seq<Bookmark>, term: string)
    ensures Subsequence(SearchResults(bookmarks, term), bookmarks)
  {
    FilterIsSubsequence(bookmarks, MatchesTerm(term));
  }

  /** The empty term lists every stored bookmark. */
  lemma {:induction false} EmptySearchListsAll(bookmarks: seq<Bookmark>)
    ensures SearchResults(bookmarks, "") == bookmarks
  {
    if bookmarks != [] {
      assert Matches(bookmarks[0], Lower(""));
      EmptySearchListsAll(bookmarks[1..]);
      assert bookmarks == [bookmarks[0]] + bookmarks[1..];
    }
  }

  /** The count line states the number of results: its digits denote the
      number of matching bookmarks. */
  lemma CountTextIsResultCount(bookmarks: seq<Bookmark>, term: string)
    ensures var view := SearchBookmarks(Some(bookmarks), term);
            var n := |view.countText| - |" results found"|;
            n >= 1 && IsAllDigits(view.countText[..n]) && DecimalValue(view.countText[..n]) == |view.matches|
            && view.countText[n..] == " results found"
  {
    var found := SearchResults(bookmarks, term);
    var digits := NatToDecimal(|found|);
    DecimalRoundTrip(|found|);
    var text := digits + " results found";
    assert text[..|digits|] == digits;
    assert text[|digits|..] == " results found";
  }

  /** The open-selected button is shown exactly when some stored bookmark
      matches the term. */
  lemma OpenButtonShownIff(bookmarks: seq<Bookmark>, term: string)
    ensures SearchBookmarks(Some(bookmarks), term).openButtonShown
        <==> exists i :: 0 <= i < |bookmarks| && Matches(bookmarks[i], Lower(term))
  {
    var found := SearchResults(bookmarks, term);
    if found != [] {
      assert found[0] in bookmarks;
    }
  }
}

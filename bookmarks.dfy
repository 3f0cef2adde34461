/** The bookmark record kept in `chrome.storage.local` under the key
    `bookmarks`, and the search predicate shared by the omnibox and the
    popup. */
module Bookmarks {
  import opened Seqs
  import opened Text

  /** A stored bookmark. The fields the extension may leave unset (an
      imported record has no error message) are optional. */
  datatype Bookmark = Bookmark(
    title: string,
    url: string,
    status: Option<string>,
    errorMessage: Option<string>,
    keywords: Option<seq<string>>)

  const NotIndexed := "Not Indexed"
  const Indexing := "Indexing..."
  const Success := "Success"
  const Failed := "Failed"

  /** The statuses the extension writes. */
  predicate IsKnownStatus(s: string) {
    s == NotIndexed || s == Indexing || s == Success || s == Failed
  }

  /** `bookmark.keywords || []` */
  function KeywordsOrEmpty(b: Bookmark): (kws: seq<string>)
    ensures b.keywords.None? ==> kws == []
  {
    if b.keywords.Some? then b.keywords.value else []
  }

  /** `keywords.some(kw => kw.toLowerCase().includes(lowerTerm))` */
  function SomeKeywordIncludes(kws: seq<string>, lowerTerm: string): (r: bool)
    ensures r <==> exists i :: 0 <= i < |kws| && Includes(Lower(kws[i]), lowerTerm)
  {
    if kws == [] then false
    else if Includes(Lower(kws[0]), lowerTerm) then true
    else
      var r := SomeKeywordIncludes(kws[1..], lowerTerm);
      assert forall i :: 1 <= i < |kws| ==> kws[i] == kws[1..][i - 1];
      r
  }

  /** The search predicate: the lower-cased term occurs in the lower-cased
      title, URL or one of the keywords. */
  predicate Matches(b: Bookmark, lowerTerm: string): (r: bool)
    ensures lowerTerm == [] ==> r
  {
    IncludesEmpty(Lower(b.title));
    Includes(Lower(b.title), lowerTerm) || Includes(Lower(b.url), lowerTerm)
    || SomeKeywordIncludes(KeywordsOrEmpty(b), lowerTerm)
  }

  /** The predicate a search for `term` filters with. */
  function MatchesTerm(term: string): Bookmark -> bool {
    b => Matches(b, Lower(term))
  }

  /** The search ignores the case of the typed term. */
  lemma SearchIgnoresCase(term: string, b: Bookmark)
    ensures MatchesTerm(Lower(term))(b) == MatchesTerm(term)(b)
  {
    LowerIsLowerCase(term);
  }

  /** A bookmark without keywords matches only through its title or URL. */
  lemma NoKeywordsMatch(b: Bookmark, lowerTerm: string)
    requires b.keywords.None?
    ensures Matches(b, lowerTerm) <==> Includes(Lower(b.title), lowerTerm) || Includes(Lower(b.url), lowerTerm)
  {
  }

  /** `bookmarks.findIndex(b => b.url === url)`, or `None` for -1. */
  function FirstWithUrl(bookmarks: seq<Bookmark>, url: string): (r: Option<nat>)
    ensures r.Some? ==> r.value < |bookmarks| && bookmarks[r.value].url == url
    ensures forall j :: 0 <= j < |bookmarks| && (r.None? || j < r.value) ==> bookmarks[j].url != url
  {
    if bookmarks == [] then None
    else if bookmarks[0].url == url then Some(0)
    else
      match FirstWithUrl(bookmarks[1..], url)
      case None => None
      case Some(i) => Some(i + 1)
  }

  /** The URLs of the records, in order. */
  function Urls(bookmarks: seq<Bookmark>): (urls: seq<string>)
    ensures |urls| == |bookmarks|
    ensures forall i :: 0 <= i < |bookmarks| ==> urls[i] == bookmarks[i].url
  {
    Map(bookmarks, (b: Bookmark) => b.url)
  }

  /** Replacing a record by one with the same URL keeps the URLs. */
  lemma UrlsUpdate(bookmarks: seq<Bookmark>, i: nat, b: Bookmark)
    requires i < |bookmarks| && b.url == bookmarks[i].url
    ensures Urls(bookmarks[i := b]) == Urls(bookmarks)
  {
    assert forall k :: 0 <= k < |bookmarks| ==> Urls(bookmarks[i := b])[k] == Urls(bookmarks)[k];
  }
}

/** The background service worker: the in-memory copy of the stored
    bookmarks, the message handlers that index, delete and edit bookmarks,
    and the address-bar (omnibox) suggestions. */
module Background {
  import opened Seqs
  import opened Text
  import opened Escape
  import opened Keywords
  import opened Bookmarks

  // ---------------------------------------------------------------------------
  // Indexing one bookmark

  /** What fetching the page yields: a response with its status code and its
      text, or a failure (network error, timeout, unreadable body) with the
      message of the error thrown. */
  datatype FetchOutcome =
    | Response(status: nat, body: string)
    | NetworkError(message: string)

  /** `response.ok`: a status in the range 200-299. */
  predicate IsOk(outcome: FetchOutcome): (ok: bool)
    ensures ok ==> outcome.Response?
    ensures outcome.Response? ==> (ok <==> 200 <= outcome.status < 300)
  {
    outcome.Response? && 200 <= outcome.status <= 299
  }

  /** The message of the error caught when indexing fails. */
  function ErrorMessage(outcome: FetchOutcome): (message: string)
    requires !IsOk(outcome)
    ensures outcome.NetworkError? ==> message == outcome.message
    ensures outcome.Response? ==>
              |message| > 20 && message[..20] == "HTTP error! status: " && IsAllDigits(message[20..])
              && DecimalValue(message[20..]) == outcome.status
  {
    match outcome
    case Response(status, _) =>
      var m := "HTTP error! status: " + NatToDecimal(status);
      assert m[20..] == NatToDecimal(status);
      DecimalRoundTrip(status);
      m
    case NetworkError(message) => message
  }

  /** The record once indexing has finished: `Success` with the page's
      keywords and no error, or `Failed` with the error and no keywords. */
  function Indexed(b: Bookmark, outcome: FetchOutcome): (r: Bookmark)
    ensures r.title == b.title && r.url == b.url
    ensures r.status == Some(Success) || r.status == Some(Failed)
    ensures r.status == Some(Success) <==> IsOk(outcome)
    ensures IsOk(outcome) ==> r.keywords == Some(KeywordsOf(outcome.body)) && r.errorMessage == Some("")
    ensures !IsOk(outcome) ==> r.keywords == Some([]) && r.errorMessage == Some(ErrorMessage(outcome))
  {
    if IsOk(outcome) then
      b.(status := Some(Success), keywords := Some(KeywordsOf(outcome.body)), errorMessage := Some(""))
    else
      b.(status := Some(Failed), errorMessage := Some(ErrorMessage(outcome)), keywords := Some([]))
  }

  /** The store after indexing `url`: the first record with that URL is
      indexed, the others are untouched; an unknown URL changes nothing. */
  function IndexStep(stored: seq<Bookmark>, url: string, outcome: FetchOutcome): (after: seq<Bookmark>)
    ensures |after| == |stored| && Urls(after) == Urls(stored)
    ensures FirstWithUrl(stored, url).None? ==> after == stored
    ensures FirstWithUrl(stored, url).Some? ==>
              var i := FirstWithUrl(stored, url).value;
              after[i] == Indexed(stored[i], outcome)
              && forall j :: 0 <= j < |stored| && j != i ==> after[j] == stored[j]
  {
    match FirstWithUrl(stored, url)
    case None => stored
    case Some(i) =>
      UrlsUpdate(stored, i, Indexed(stored[i], outcome));
      stored[i := Indexed(stored[i], outcome)]
  }

  /** The `Indexing...` mark and its cleared error are overwritten by the
      final state: the record ends as `Indexed` says, whichever way the
      fetch went. */
  lemma MarkIsOverwritten(b: Bookmark, outcome: FetchOutcome)
    ensures var marked := b.(status := Some(Indexing), errorMessage := Some(""));
            (IsOk(outcome) ==>
               marked.(status := Some(Success), keywords := Some(KeywordsOf(outcome.body)), errorMessage := Some(""))
               == Indexed(b, outcome))
            && (!IsOk(outcome) ==>
               marked.(status := Some(Failed), errorMessage := Some(ErrorMessage(outcome)), keywords := Some([]))
               == Indexed(b, outcome))
  {
  }

  /** Indexing a stored URL replaces its first record, whatever was
      written there in between. */
  lemma IndexStepAt(stored: seq<Bookmark>, url: string, outcome: FetchOutcome, i: nat, marked: Bookmark)
    requires FirstWithUrl(stored, url) == Some(i)
    ensures IndexStep(stored, url, outcome) == stored[i := marked][i := Indexed(stored[i], outcome)]
  {
  }

  /** Indexing the listed URLs one after the other. */
  function IndexAll(stored: seq<Bookmark>, urls: seq<string>, outcomes: seq<FetchOutcome>): (after: seq<Bookmark>)
    requires |outcomes| == |urls|
    ensures |after| == |stored| && Urls(after) == Urls(stored)
  {
    if urls == [] then stored
    else
      var n := |urls| - 1;
      IndexStep(IndexAll(stored, urls[..n], outcomes[..n]), urls[n], outcomes[n])
  }

  /** The record sent to the options page after indexing `url`: the
      indexed record, or nothing when no record has the URL. */
  function Notice(stored: seq<Bookmark>, url: string, outcome: FetchOutcome): (notice: seq<Bookmark>)
    ensures |notice| <= 1
    ensures |notice| == 1 <==> FirstWithUrl(stored, url).Some?
    ensures notice != [] ==> Finished(notice[0])
  {
    match FirstWithUrl(stored, url)
    case None => []
    case Some(i) => [IndexStep(stored, url, outcome)[i]]
  }

  /** The records sent to the options page while indexing the listed URLs
      one after the other. */
  function IndexNotices(stored: seq<Bookmark>, urls: seq<string>, outcomes: seq<FetchOutcome>): (notices: seq<Bookmark>)
    requires |outcomes| == |urls|
    ensures |notices| <= |urls|
  {
    if urls == [] then []
    else
      var n := |urls| - 1;
      IndexNotices(stored, urls[..n], outcomes[..n]) + Notice(IndexAll(stored, urls[..n], outcomes[..n]), urls[n], outcomes[n])
  }

  /** Indexing one more URL: one more step, and its notice appended. */
  lemma IndexPrefix(stored: seq<Bookmark>, urls: seq<string>, outcomes: seq<FetchOutcome>, i: nat)
    requires |outcomes| == |urls| && i < |urls|
    ensures var before := IndexAll(stored, urls[..i], outcomes[..i]);
            IndexAll(stored, urls[..i + 1], outcomes[..i + 1]) == IndexStep(before, urls[i], outcomes[i])
            && IndexNotices(stored, urls[..i + 1], outcomes[..i + 1])
               == IndexNotices(stored, urls[..i], outcomes[..i]) + Notice(before, urls[i], outcomes[i])
  {
    assert urls[..i + 1][..i] == urls[..i] && outcomes[..i + 1][..i] == outcomes[..i];
  }

  /** One turn of the indexing loop: what `indexSingleBookmark` leaves and
      reports extends the store and the notices by one URL, and a record
      reported is finished. */
  lemma IndexLoopStep(stored: seq<Bookmark>, urls: seq<string>, outcomes: seq<FetchOutcome>, i: nat,
                      after: seq<Bookmark>, notice: Option<Bookmark>)
    requires |outcomes| == |urls| && i < |urls|
    requires var before := IndexAll(stored, urls[..i], outcomes[..i]);
             after == IndexStep(before, urls[i], outcomes[i])
             && (notice.None? <==> FirstWithUrl(before, urls[i]).None?)
             && (notice.Some? ==> notice.value == after[FirstWithUrl(before, urls[i]).value])
    ensures after == IndexAll(stored, urls[..i + 1], outcomes[..i + 1])
    ensures IndexNotices(stored, urls[..i], outcomes[..i]) + (if notice.Some? then [notice.value] else [])
            == IndexNotices(stored, urls[..i + 1], outcomes[..i + 1])
  {
    IndexPrefix(stored, urls, outcomes, i);
  }

  /** Every record reported while indexing has finished. */
  lemma {:induction false} IndexNoticesFinished(stored: seq<Bookmark>, urls: seq<string>, outcomes: seq<FetchOutcome>)
    requires |outcomes| == |urls|
    ensures forall k :: 0 <= k < |IndexNotices(stored, urls, outcomes)| ==> Finished(IndexNotices(stored, urls, outcomes)[k])
  {
    if urls != [] {
      var n := |urls| - 1;
      IndexNoticesFinished(stored, urls[..n], outcomes[..n]);
      AllFinishedAppend(IndexNotices(stored, urls[..n], outcomes[..n]),
                        Notice(IndexAll(stored, urls[..n], outcomes[..n]), urls[n], outcomes[n]));
    }
  }

  /** The URLs that have a record in `stored`. */
  function InStore(stored: seq<Bookmark>): string -> bool {
    (u: string) => FirstWithUrl(stored, u).Some?
  }

  /** One record is reported per listed URL that is in the store (a URL
      listed twice is reported twice). */
  lemma {:induction false} IndexNoticesCount(stored: seq<Bookmark>, urls: seq<string>, outcomes: seq<FetchOutcome>)
    requires |outcomes| == |urls|
    ensures |IndexNotices(stored, urls, outcomes)| == |Filter(urls, InStore(stored))|
  {
    if urls != [] {
      var n := |urls| - 1;
      var before := IndexAll(stored, urls[..n], outcomes[..n]);
      IndexNoticesCount(stored, urls[..n], outcomes[..n]);
      SameUrlsSameFirst(stored, before, urls[n]);
      assert |Notice(before, urls[n], outcomes[n])| == if InStore(stored)(urls[n]) then 1 else 0;
      FilterCountLast(urls, InStore(stored));
    }
  }

  lemma AllFinishedAppend(a: seq<Bookmark>, b: seq<Bookmark>)
    requires forall k :: 0 <= k < |a| ==> Finished(a[k])
    requires |b| <= 1 && (b != [] ==> Finished(b[0]))
    ensures forall k :: 0 <= k < |a + b| ==> Finished((a + b)[k])
  {
  }

  /** A record whose indexing has finished. */
  predicate Finished(b: Bookmark) {
    b.status == Some(Success) || b.status == Some(Failed)
  }

  /** The first record with URL `u` has finished indexing. */
  predicate FinishedFor(stored: seq<Bookmark>, u: string) {
    FirstWithUrl(stored, u).Some?
    && (stored[FirstWithUrl(stored, u).value].status == Some(Success)
        || stored[FirstWithUrl(stored, u).value].status == Some(Failed))
  }

  /** One indexing step finishes its own URL and leaves other finished
      URLs finished. */
  lemma IndexStepFinishes(stored: seq<Bookmark>, url: string, outcome: FetchOutcome, u: string)
    requires FinishedFor(stored, u) || (u == url && FirstWithUrl(stored, url).Some?)
    ensures FinishedFor(IndexStep(stored, url, outcome), u)
  {
    var after := IndexStep(stored, url, outcome);
    SameUrlsSameFirst(stored, after, u);
    if u != url && FirstWithUrl(stored, url).Some? {
      assert stored[FirstWithUrl(stored, url).value].url == url;
    }
  }

  /** Indexing is never left half done: the record of every listed URL that
      is in the store ends `Success` or `Failed`. */
  lemma {:induction false} IndexAllFinishes(stored: seq<Bookmark>, urls: seq<string>, outcomes: seq<FetchOutcome>)
    requires |outcomes| == |urls|
    ensures forall k :: 0 <= k < |urls| && FirstWithUrl(stored, urls[k]).Some? ==>
              FinishedFor(IndexAll(stored, urls, outcomes), urls[k])
  {
    if urls != [] {
      var n := |urls| - 1;
      IndexAllFinishes(stored, urls[..n], outcomes[..n]);
      FinishesAfterStep(stored, urls, urls[..n], IndexAll(stored, urls[..n], outcomes[..n]), outcomes[n]);
    }
  }

  /** The step for the last URL keeps the earlier URLs finished and
      finishes its own URL when it is stored. */
  lemma FinishesAfterStep(stored: seq<Bookmark>, urls: seq<string>, prefix: seq<string>, before: seq<Bookmark>,
                          outcome: FetchOutcome)
    requires urls != [] && |prefix| == |urls| - 1 && prefix == urls[..|urls| - 1] && Urls(before) == Urls(stored)
    requires forall k :: 0 <= k < |prefix| && FirstWithUrl(stored, prefix[k]).Some? ==> FinishedFor(before, prefix[k])
    ensures forall k :: 0 <= k < |urls| && FirstWithUrl(stored, urls[k]).Some? ==>
              FinishedFor(IndexStep(before, urls[|urls| - 1], outcome), urls[k])
  {
    forall k | 0 <= k < |urls| && FirstWithUrl(stored, urls[k]).Some?
      ensures FinishedFor(IndexStep(before, urls[|urls| - 1], outcome), urls[k])
    {
      if k < |prefix| {
        assert prefix[k] == urls[k];
        assert FinishedFor(before, urls[k]);
      } else {
        assert k == |urls| - 1;
        SameUrlsSameFirst(stored, before, urls[k]);
      }
      IndexStepFinishes(before, urls[|urls| - 1], outcome, urls[k]);
    }
  }

  /** Records with the same URLs in the same order have the same first
      record for every URL. */
  lemma {:induction false} SameUrlsSameFirst(a: seq<Bookmark>, b: seq<Bookmark>, url: string)
    requires Urls(a) == Urls(b)
    ensures FirstWithUrl(a, url) == FirstWithUrl(b, url)
  {
    if a != [] {
      assert a[0].url == Urls(a)[0] == Urls(b)[0] == b[0].url;
      assert Urls(a[1..]) == Urls(a)[1..] && Urls(b[1..]) == Urls(b)[1..];
      SameUrlsSameFirst(a[1..], b[1..], url);
    }
  }

  // ---------------------------------------------------------------------------
  // Deleting and editing

  /** The records whose URL is not among `urls`. */
  function NotListed(urls: seq<string>): Bookmark -> bool {
    (b: Bookmark) => b.url !in urls
  }

  /** The records whose URL is among `urls`. */
  function Listed(urls: seq<string>): Bookmark -> bool {
    (b: Bookmark) => b.url in urls
  }

  /** Deletion keeps the records whose URL is not listed, in their order,
      and reports as deleted the number of records whose URL is listed. */
  lemma DeletionSpec(stored: seq<Bookmark>, urls: seq<string>)
    ensures Subsequence(Filter(stored, NotListed(urls)), stored)
    ensures |stored| - |Filter(stored, NotListed(urls))| == |Filter(stored, Listed(urls))|
    ensures multiset(Filter(stored, NotListed(urls))) + multiset(Filter(stored, Listed(urls))) == multiset(stored)
  {
    FilterIsSubsequence(stored, NotListed(urls));
    FilterPartition(stored, Listed(urls), NotListed(urls));
  }

  /** The store after `updateKeywords`: the first record with the URL gets
      the new keywords, or `None` when no record has the URL. */
  function SetKeywords(stored: seq<Bookmark>, url: string, keywords: seq<string>): (after: Option<seq<Bookmark>>)
    ensures after.None? <==> forall j :: 0 <= j < |stored| ==> stored[j].url != url
    ensures after.Some? ==>
              var i := FirstWithUrl(stored, url).value;
              |after.value| == |stored| && after.value[i] == stored[i].(keywords := Some(keywords))
              && forall j :: 0 <= j < |stored| && j != i ==> after.value[j] == stored[j]
  {
    match FirstWithUrl(stored, url)
    case None => None
    case Some(i) => Some(stored[i := stored[i].(keywords := Some(keywords))])
  }

  /** The reply to `updateKeywords`. */
  datatype UpdateReply = Updated | NotFound(error: string)

  // ---------------------------------------------------------------------------
  // Omnibox suggestions

  /** A suggestion: what is put in the address bar, and the description
      shown, in the omnibox's XML markup. */
  datatype Suggestion = Suggestion(content: string, description: string)

  /** ` (Keywords: k1, k2)` when the bookmark has keywords, otherwise empty. */
  function KeywordsText(b: Bookmark): (text: string)
    ensures text == [] <==> b.keywords.None? || b.keywords.value == []
    ensures text != [] ==> |text| >= 13 && text[..12] == " (Keywords: " && text[|text| - 1] == ')'
  {
    if b.keywords.Some? && |b.keywords.value| > 0 then " (Keywords: " + EscapeHtml(Join(b.keywords.value, ", ")) + ")"
    else ""
  }

  /** The description: the escaped title as the `<url>` element, then the
      escaped URL and the keywords text. */
  function Describe(b: Bookmark): (d: string)
    ensures |d| >= 11 + |KeywordsText(b)| && d[..5] == "<url>"
    ensures d[|d| - |KeywordsText(b)|..] == KeywordsText(b)
  {
    "<url>" + EscapeHtml(b.title) + "</url> - " + EscapeHtml(b.url) + KeywordsText(b)
  }

  /** The suggestion for a bookmark: choosing it puts the bookmark's URL in
      the address bar. */
  function ToSuggestion(b: Bookmark): (r: Suggestion)
    ensures r.content == b.url
  {
    Suggestion(b.url, Describe(b))
  }

  /** The suggestions for the typed text: the first ten matching bookmarks,
      in stored order. */
  function Suggestions(bookmarks: seq<Bookmark>, text: string): (r: seq<Suggestion>)
    ensures |r| <= 10
    ensures |r| == if |Filter(bookmarks, MatchesTerm(text))| < 10 then |Filter(bookmarks, MatchesTerm(text))| else 10
    ensures forall k :: 0 <= k < |r| ==> exists i :: 0 <= i < |bookmarks| && MatchesTerm(text)(bookmarks[i])
                                                     && r[k] == ToSuggestion(bookmarks[i])
  {
    MapTakeFilter(bookmarks, MatchesTerm(text), 10, ToSuggestion);
    Map(Take(Filter(bookmarks, MatchesTerm(text)), 10), ToSuggestion)
  }

  /** Every matching bookmark gets a suggestion unless ten matching bookmarks
      come before it; its suggestion's position is the number of matching
      bookmarks before it, and its content is its URL. */
  lemma SuggestionForBookmark(bookmarks: seq<Bookmark>, text: string, i: nat)
    requires i < |bookmarks|
    ensures var before := |Filter(bookmarks[..i], MatchesTerm(text))|;
            Matches(bookmarks[i], Lower(text)) && before < 10 ==>
              before < |Suggestions(bookmarks, text)|
              && Suggestions(bookmarks, text)[before] == ToSuggestion(bookmarks[i])
              && Suggestions(bookmarks, text)[before].content == bookmarks[i].url
  {
    if MatchesTerm(text)(bookmarks[i]) {
      FilterPosition(bookmarks, MatchesTerm(text), i);
    }
  }

  /** The keywords text with nothing escaped. */
  function PlainKeywordsText(b: Bookmark): string {
    if b.keywords.Some? && |b.keywords.value| > 0 then " (Keywords: " + Join(b.keywords.value, ", ") + ")"
    else ""
  }

  lemma KeywordsTextIsEscaped(b: Bookmark)
    ensures IsEscaped(KeywordsText(b))
    ensures Unescape(KeywordsText(b)) == PlainKeywordsText(b)
  {
    if b.keywords.Some? && |b.keywords.value| > 0 {
      EscapedBetween(" (Keywords: ", Join(b.keywords.value, ", "), ")");
    }
  }

  /** The description is well-formed markup: the title is the only text in
      the `<url>` element and every field is escaped, so the title reads
      back unchanged. */
  lemma DescriptionIsEscaped(b: Bookmark)
    ensures exists t, rest :: Describe(b) == "<url>" + t + "</url> - " + rest && IsEscaped(t) && IsEscaped(rest)
                               && Unescape(t) == b.title
  {
    var t := EscapeHtml(b.title);
    var rest := EscapeHtml(b.url) + KeywordsText(b);
    assert IsEscaped(t) && Unescape(t) == b.title by {
      EscapeHtmlIsEscaped(b.title);
      EscapeRoundTrip(b.title);
    }
    assert IsEscaped(rest) by {
      EscapeHtmlIsEscaped(b.url);
      KeywordsTextIsEscaped(b);
      EscapedAppend(EscapeHtml(b.url), KeywordsText(b));
    }
    assert Describe(b) == "<url>" + t + "</url> - " + rest;
  }

  lemma Associate(a: string, b: string, c: string, d: string, e: string)
    ensures a + b + c + d + e == a + (b + (c + (d + e)))
  {
  }

  /** Unescaping text made of plain pieces and escaped fields recovers
      the fields. */
  lemma UnescapeFields(open: string, title: string, close: string, url: string, kt: string, plain: string)
    requires '&' !in open && '&' !in close
    requires Unescape(kt) == plain
    ensures Unescape(open + (EscapeHtml(title) + (close + (EscapeHtml(url) + kt))))
         == open + (title + (close + (url + plain)))
  {
    var x3 := EscapeHtml(url) + kt;
    var x2 := close + x3;
    var x1 := EscapeHtml(title) + x2;
    UnescapeEscaped(url, kt);
    UnescapePlain(close, x3);
    UnescapeEscaped(title, x2);
    UnescapePlain(open, x1);
  }

  /** Unescaping the description gives the title, the URL and the keywords
      joined with ", " exactly as stored. */
  lemma DescriptionUnescapes(b: Bookmark)
    ensures Unescape(Describe(b)) == "<url>" + b.title + "</url> - " + b.url + PlainKeywordsText(b)
  {
    KeywordsTextIsEscaped(b);
    UnescapeFields("<url>", b.title, "</url> - ", b.url, KeywordsText(b), PlainKeywordsText(b));
    Associate("<url>", EscapeHtml(b.title), "</url> - ", EscapeHtml(b.url), KeywordsText(b));
    Associate("<url>", b.title, "</url> - ", b.url, PlainKeywordsText(b));
  }

  // ---------------------------------------------------------------------------
  // The worker's state

  /** `chrome.storage.local`, reduced to its `bookmarks` entry (`None` while
      the key has never been set). */
  class Storage {
    var bookmarks: Option<seq<Bookmark>>

    constructor(initial: Option<seq<Bookmark>>)
      ensures bookmarks == initial
    {
      bookmarks := initial;
    }
  }

  /** `data.bookmarks || []` */
  function StoredOrEmpty(stored: Option<seq<Bookmark>>): (bookmarks: seq<Bookmark>)
    ensures stored.None? ==> bookmarks == []
    ensures stored.Some? ==> bookmarks == stored.value
  {
    if stored.Some? then stored.value else []
  }

  /** The service worker: its `storedBookmarks` array and the storage it
      loads from and saves to. */
  class Worker {
    var storedBookmarks: seq<Bookmark>
    const storage: Storage

    constructor(storage: Storage)
      ensures this.storage == storage && storedBookmarks == []
    {
      this.storage := storage;
      storedBookmarks := [];
    }

    /** loadBookmarksFromStorage */
    method LoadBookmarksFromStorage()
      modifies this
      ensures storedBookmarks == StoredOrEmpty(storage.bookmarks)
    {
      storedBookmarks := StoredOrEmpty(storage.bookmarks);
    }

    /** saveBookmarksToStorage */
    method SaveBookmarksToStorage()
      modifies storage
      ensures storage.bookmarks == Some(storedBookmarks)
    {
      storage.bookmarks := Some(storedBookmarks);
    }

    /** indexSingleBookmark, with the result of the fetch passed in. The
        record is first marked `Indexing...` and saved, then given its final
        state and saved again. Returns the record sent to the options page,
        or `None` when no stored record has the URL. */
    method IndexSingleBookmark(url: string, outcome: FetchOutcome) returns (notice: Option<Bookmark>)
      modifies this, storage
      ensures storedBookmarks == IndexStep(old(storedBookmarks), url, outcome)
      ensures notice.None? <==> FirstWithUrl(old(storedBookmarks), url).None?
      ensures notice.None? ==> storage.bookmarks == old(storage.bookmarks)
      ensures notice.Some? ==> storage.bookmarks == Some(storedBookmarks)
                               && notice.value == storedBookmarks[FirstWithUrl(old(storedBookmarks), url).value]
    {
      ghost var initial := storedBookmarks;
      var found := FirstWithUrl(storedBookmarks, url);
      if found.None? {
        return None;
      }
      var i := found.value;
      storedBookmarks := storedBookmarks[i := storedBookmarks[i].(status := Some(Indexing), errorMessage := Some(""))];
      SaveBookmarksToStorage();
      var b := storedBookmarks[i];
      if IsOk(outcome) {
        var keywords := ExtractKeywords(outcome.body);
        b := b.(status := Some(Success), keywords := Some(keywords), errorMessage := Some(""));
      } else {
        b := b.(status := Some(Failed), errorMessage := Some(ErrorMessage(outcome)), keywords := Some([]));
      }
      MarkIsOverwritten(initial[i], outcome);
      IndexStepAt(initial, url, outcome, i, storedBookmarks[i]);
      storedBookmarks := storedBookmarks[i := b];
      SaveBookmarksToStorage();
      notice := Some(b);
    }

    /** The `indexBookmarks` handler: reload, then index the requested
        bookmarks one at a time. Returns the records sent to the options
        page, in order. */
    method IndexBookmarks(urls: seq<string>, outcomes: seq<FetchOutcome>) returns (notices: seq<Bookmark>)
      requires |outcomes| == |urls|
      modifies this, storage
      ensures storedBookmarks == IndexAll(StoredOrEmpty(old(storage.bookmarks)), urls, outcomes)
      ensures StoredOrEmpty(storage.bookmarks) == storedBookmarks
      ensures notices == IndexNotices(StoredOrEmpty(old(storage.bookmarks)), urls, outcomes)
      ensures forall k :: 0 <= k < |notices| ==> Finished(notices[k])
    {
      LoadBookmarksFromStorage();
      ghost var loaded := storedBookmarks;
      notices := [];
      for i := 0 to |urls|
        invariant storedBookmarks == IndexAll(loaded, urls[..i], outcomes[..i])
        invariant StoredOrEmpty(storage.bookmarks) == storedBookmarks
        invariant notices == IndexNotices(loaded, urls[..i], outcomes[..i])
      {
        var notice := IndexSingleBookmark(urls[i], outcomes[i]);
        IndexLoopStep(loaded, urls, outcomes, i, storedBookmarks, notice);
        notices := notices + if notice.Some? then [notice.value] else [];
      }
      assert urls[..|urls|] == urls && outcomes[..|urls|] == outcomes;
      IndexNoticesFinished(loaded, urls, outcomes);
    }

    /** The `deleteBookmarks` handler: reload, drop the records whose URL is
        listed, save, and reply with the number dropped. */
    method DeleteBookmarks(urls: seq<string>) returns (success: bool, deletedCount: int)
      modifies this, storage
      ensures storedBookmarks == Filter(StoredOrEmpty(old(storage.bookmarks)), NotListed(urls))
      ensures storage.bookmarks == Some(storedBookmarks)
      ensures success && deletedCount == |StoredOrEmpty(old(storage.bookmarks))| - |storedBookmarks|
    {
      LoadBookmarksFromStorage();
      var initialCount := |storedBookmarks|;
      storedBookmarks := Filter(storedBookmarks, NotListed(urls));
      deletedCount := initialCount - |storedBookmarks|;
      SaveBookmarksToStorage();
      success := true;
    }

    /** The `updateKeywords` handler: reload, then give the first record with
        the URL the new keywords and save, or reply that there is none. */
    method UpdateKeywords(url: string, keywords: seq<string>) returns (reply: UpdateReply)
      modifies this, storage
      ensures var after := SetKeywords(StoredOrEmpty(old(storage.bookmarks)), url, keywords);
              (after.Some? ==> reply == Updated && storedBookmarks == after.value && storage.bookmarks == Some(storedBookmarks))
              && (after.None? ==> reply == NotFound("Bookmark not found") && storedBookmarks == StoredOrEmpty(old(storage.bookmarks))
                                  && storage.bookmarks == old(storage.bookmarks))
    {
      LoadBookmarksFromStorage();
      var found := FirstWithUrl(storedBookmarks, url);
      if found.Some? {
        var i := found.value;
        storedBookmarks := storedBookmarks[i := storedBookmarks[i].(keywords := Some(keywords))];
        SaveBookmarksToStorage();
        reply := Updated;
      } else {
        reply := NotFound("Bookmark not found");
      }
    }

    /** The omnibox `onInputChanged` listener: reload, then suggest. */
    method OnInputChanged(text: string) returns (suggestions: seq<Suggestion>)
      modifies this
      ensures storedBookmarks == StoredOrEmpty(storage.bookmarks)
      ensures suggestions == Suggestions(storedBookmarks, text)
    {
      LoadBookmarksFromStorage();
      suggestions := Suggestions(storedBookmarks, text);
    }
  }
}

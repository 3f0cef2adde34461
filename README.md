# Bookmark keyword search, modelled in Dafny

This is a model of the core of a browser extension that imports the
browser's bookmarks, fetches each bookmarked page, and picks the page's ten
most frequent keywords. It then searches the bookmarks by title, URL and
keyword, both from the address bar (the omnibox) and from the popup.

The model covers:

- **Keyword extraction** (`Keywords`). The HTML goes through these steps:
  - the `<body>` capture;
  - tag stripping and lower-casing;
  - the `\b\w{3,}\b` word pattern;
  - the stop-word filter;
  - the counting loop over a plain object;
  - the order of `Object.keys`, where array-index keys come first;
  - the stable sort by count;
  - the cut to ten.
- **Markup escaping** (`Escape`). It models the five chained `replace` calls, and an unescaper that serves as the escaper's inverse.
- **The bookmark record and the search predicate** (`Bookmarks`). The omnibox and the popup share them.
- **The background worker** (`Background`). It is a class holding `storedBookmarks` and the storage. Its methods are:
  - load and save;
  - the `indexBookmarks` handler, with each fetch's outcome passed in as a parameter;
  - the `deleteBookmarks` and `updateKeywords` handlers;
  - the omnibox suggestions.
- **The options page** (`Options`). It models the recursive import `traverse`, the status text, the parsing of the keywords cell, and the status update of the displayed list.
- **The popup's search** (`Popup`). It models the filter, the "N results found" line and the visibility of the open-selected button.

`Seqs`, `Text` and `Sorting` hold the JavaScript built-ins that the core
uses, each stated once:
- `filter`, `map`, `slice`, `join`, `split` and `trim`;
- `includes` and `startsWith`;
- ASCII `toLowerCase`;
- the decimal form of a number;
- a stable sort.

`findIndex` and `find` by URL are `Bookmarks.FirstWithUrl`.

Some behaviours of the code that a reader might not expect, all modelled as
the code has them:
- Import keeps duplicate URLs: a page bookmarked twice is imported twice.
- The popup's results are not capped, unlike the omnibox's ten suggestions.
- A failed fetch marks the record `Failed`, stores the error message and clears its keywords.
- Ties in keyword frequency follow the `Object.keys` order, not plain first appearance.

## Model

| member | source | states |
|---|---|---|
| Keywords.BodyContent | background.js:105-106 | the text read is either the whole page, or the capture between the first `<body`'s first `>` and the last `</body>` (case-insensitive, greedy) |
| Keywords.BodyBounds | background.js:105-106 | the bounds found are those of the first `<body`, its first `>` after it, and the last `</body>` after that |
| Keywords.BodyContentMatches | background.js:105-106 | the whole page is used exactly when the body pattern matches nowhere |
| Keywords.StripTags | background.js:109 | stripping `<[^>]+>` only removes characters: the result is a subsequence of the input |
| Keywords.StripTagsIsTagFree | background.js:109 | no match of `<[^>]+>` is left after stripping |
| Keywords.StripTagsOfTagFree | background.js:109 | text without tags passes through unchanged |
| Keywords.StripTagsIdempotent | background.js:109 | stripping twice is stripping once |
| Keywords.StripTagsKeepsText | background.js:109 | text before a tag is kept as it is, and the whole tag `<x>` is removed |
| Keywords.StrayOpenKept | background.js:109 | a `<` that opens no tag (followed by `>` at once, by nothing, or by no `>` at all) is kept |
| Keywords.PlainText | background.js:109 | the stripped body text is lower-case |
| Keywords.MatchWords | background.js:125 | every word found has three or more word characters |
| Keywords.MatchWordsExact | background.js:125 | the words found are exactly the matches of `\b\w{3,}\b`: the `k`-th word is the match at the `k`-th start, the starts increase, and every match's start is listed, so order and repetitions are kept |
| Keywords.MatchStarts | background.js:125 | the match starts lie in the text and strictly increase |
| Keywords.MatchWordsAt | background.js:125 | each word found is the text of the match at its start |
| Keywords.MatchStartsComplete | background.js:125 | every position where a match begins is a listed start |
| Keywords.CandidateWords | background.js:125-126 | the candidates are the words found minus the stop-words, in text order: none is a stop-word, and each word that is not a stop-word occurs among them exactly as often as it was found |
| Keywords.CandidatesAreKeywords | background.js:109-126 | every candidate word is lower-case, has three or more word characters and is not a stop-word |
| Keywords.TallyAppend | background.js:127-130 | one more word appends a new key with count one, or increments a seen word's count |
| Keywords.CountWords | background.js:127-130 | the counting loop yields every distinct word in first-appearance order, each with its number of occurrences |
| Seqs.DistinctOrder | background.js:127-130 | the counted keys keep first-appearance order: a key listed before another occurs in the words before the other's first occurrence |
| Keywords.AddWord | background.js:129 | a new word is appended to the keys with count one, a seen word's count goes up by one and the keys stay |
| Keywords.Tally | background.js:127-130 | the counted keys have no duplicates, and a word has a count exactly when it is a key |
| Keywords.CountOfTally | background.js:127-131 | the count the comparator reads for a word is its number of occurrences (zero when absent) |
| Keywords.ObjectKeyOrder | background.js:131 | `Object.keys` lists the same keys, reordered |
| Keywords.ObjectKeyOrderIndicesFirst | background.js:131 | keys that are array indices come first, in ascending numeric order |
| Keywords.ObjectKeyOrderNamed | background.js:131 | the other keys keep their insertion order |
| Keywords.Rank | background.js:131 | the sorted keys are a permutation of the keys, in non-increasing count |
| Keywords.RankTies | background.js:131 | words with equal counts keep their `Object.keys` order, because the sort is stable |
| Keywords.RankOfTally | background.js:127-131 | each counted word is ranked exactly once, and the ranked words are exactly the input words |
| Keywords.RankByOccurrences | background.js:127-131 | ranked words come in non-increasing number of occurrences |
| Keywords.TopTen | background.js:132 | at most ten words are kept |
| Keywords.TopTenFromWords | background.js:127-132 | every kept word is an input word |
| Keywords.TopTenDistinct | background.js:127-132 | no word is kept twice |
| Keywords.TopTenOrdered | background.js:127-132 | kept words come most frequent first |
| Keywords.TopTenIsMostFrequent | background.js:127-132 | a word is left out only when ten words are kept, each at least as frequent as it |
| Keywords.KeywordsOf | background.js:103-133 | a page yields at most ten keywords |
| Keywords.ExtractKeywords | background.js:103-133 | extractKeywords returns the ten most frequent candidate words of the page, in ranked order |
| Keywords.KeywordsAreKeywords | background.js:103-133 | every keyword is a lower-case word of three or more word characters, is not a stop-word, and occurs in the page's text |
| Keywords.AddWordAsWritten | background.js:129 | as written, assigning the word `__proto__` leaves the counts unchanged, and any other word is counted |
| Keywords.TallyAsWritten | background.js:127-130 | as written, `__proto__` is never a key |
| Keywords.TallyAsWrittenAgrees | background.js:127-130 | without `__proto__`, the loop as written counts exactly |
| Keywords.ProtoWordIsLost | background.js:127-130 | two occurrences of `__proto__` give one key in the intended tally and none as written |
| Sorting.SortByKeyDesc | background.js:131 | the sort by descending count yields a sorted permutation |
| Sorting.SortIsStable | background.js:131 | the sort keeps the input order among equal counts |
| Escape.EscapeHtml | background.js:136-143 | the escaped text holds no `<`, `>`, `"` or `'` |
| Escape.ReplaceAllOmits | background.js:137-142 | after a global replace of a character by text that lacks it, the character no longer occurs, and a character absent from both the input and the replacement stays absent |
| Escape.EscapeHtmlAppend | background.js:136-143 | escaping distributes over concatenation |
| Escape.EscapeHtmlChar | background.js:136-143 | each of `& < > " '` becomes `&amp; &lt; &gt; &quot; &#039;`, and every other character is kept |
| Escape.EscapeHtmlIsPerChar | background.js:136-143 | the five chained replaces, ampersand first, escape each character once |
| Escape.EscapeAmp | background.js:138 | `&` becomes `&amp;` |
| Escape.EscapeLt | background.js:139 | `<` becomes `&lt;` |
| Escape.EscapeGt | background.js:140 | `>` becomes `&gt;` |
| Escape.EscapeQuot | background.js:141 | `"` becomes `&quot;` |
| Escape.EscapeApos | background.js:142 | `'` becomes `&#039;` |
| Escape.EscapeRoundTrip | background.js:136-143 | unescaping the escaped text gives the original back |
| Escape.UnescapeEscaped | background.js:136-143 | unescaping reads back an escaped field and continues after it |
| Escape.EscapeInjective | background.js:136-143 | distinct strings escape to distinct strings |
| Escape.EscapeHtmlIsEscaped | background.js:136-143 | the output has no `<`, `>`, `"` or `'`, and every `&` starts one of the five entities |
| Bookmarks.KeywordsOrEmpty | background.js:155 | a record without keywords is searched with no keywords |
| Bookmarks.SomeKeywordIncludes | background.js:155-161 | true exactly when some keyword, lower-cased, contains the lower-cased term |
| Bookmarks.Matches | background.js:152-163 | the search predicate: the empty term matches every record |
| Bookmarks.MatchesTerm | popup.js:18-22 | the filter used by both searches is the search predicate on the lower-cased term |
| Bookmarks.SearchIgnoresCase | popup.js:17-22 | searching for the lower-cased term gives the same answer as the term as typed |
| Bookmarks.NoKeywordsMatch | popup.js:19-22 | a record without keywords matches only through its title or URL |
| Bookmarks.FirstWithUrl | background.js:42 | the index of the first record with the URL, or none when no record has it |
| Background.IsOk | background.js:74-75 | `response.ok` holds only for a response, exactly when its status is 200-299 |
| Background.ErrorMessage | background.js:75-87 | the error stored is a network error's own message, or `HTTP error! status: ` followed by the decimal status |
| Background.Indexed | background.js:74-88 | a finished record is `Success` (exactly when the status is 200-299) with the page's keywords and an empty error, or `Failed` with the error message and no keywords |
| Background.IndexStep | background.js:56-94 | only the first record with the URL is indexed, and an unknown URL changes nothing |
| Background.IndexAll | background.js:20-27 | indexing keeps the records' number and URLs |
| Background.IndexNotices | background.js:56-94 | at most one record is sent on per listed URL |
| Background.IndexNoticesFinished | background.js:56-94 | every record sent on is `Success` or `Failed` |
| Background.IndexNoticesCount | background.js:56-94 | one record is sent on per listed URL that is stored, and none for an unknown URL |
| Background.IndexStepFinishes | background.js:56-94 | indexing finishes its own URL and keeps other finished URLs finished |
| Background.IndexAllFinishes | background.js:20-27 | every listed URL that is stored ends `Success` or `Failed`, never `Indexing...` |
| Background.SameUrlsSameFirst | background.js:58 | the first record for a URL depends only on the URLs in order |
| Background.DeletionSpec | background.js:32-34 | deletion keeps the unlisted records in order, and the deleted count is the number of listed records |
| Background.SetKeywords | background.js:42-49 | only the first record with the URL gets the new keywords, or not found when no record has it |
| Background.KeywordsText | background.js:167 | the keywords text is empty exactly when the bookmark has no keywords, and otherwise is ` (Keywords: …)` |
| Background.Describe | background.js:170 | the description starts with `<url>` and ends with the keywords text |
| Background.ToSuggestion | background.js:166-171 | choosing a suggestion puts the bookmark's URL in the address bar |
| Background.Suggestions | background.js:151-172 | exactly the smaller of ten and the number of matching bookmarks, each made from a matching bookmark |
| Background.SuggestionForBookmark | background.js:151-172 | a matching bookmark with fewer than ten matches before it gets the suggestion at that position, with its URL as content |
| Background.KeywordsTextIsEscaped | background.js:167 | the keywords text is escaped, and reads back as the keywords joined with ", " |
| Background.DescriptionIsEscaped | background.js:170 | the description is `<url>`, the escaped title, `</url> - ` and escaped text, with the title reading back unchanged |
| Background.DescriptionUnescapes | background.js:167-170 | unescaping the description gives the title, the URL and the joined keywords as stored |
| Background.StoredOrEmpty | background.js:8 | the stored array, or empty when the key was never set |
| Background.Worker.constructor | background.js:2 | the worker starts with no stored bookmarks |
| Background.Worker.LoadBookmarksFromStorage | background.js:5-13 | the stored array becomes the storage entry, or empty when there is none |
| Background.Worker.SaveBookmarksToStorage | background.js:96-100 | storage receives the stored array |
| Background.Worker.IndexSingleBookmark | background.js:56-94 | the store becomes the single indexing step, storage is saved, and the finished record is returned; an unknown URL changes nothing |
| Background.Worker.IndexBookmarks | background.js:20-27 | after a reload the listed URLs are indexed in order, storage holds the final store, the records sent on are the indexing notices, and each is `Success` or `Failed` |
| Background.Worker.DeleteBookmarks | background.js:29-38 | the unlisted records are kept and saved, and the reply is success with the number removed |
| Background.Worker.UpdateKeywords | background.js:39-51 | the first record with the URL gets the keywords and is saved; otherwise "Bookmark not found" and nothing is saved |
| Background.Worker.OnInputChanged | background.js:146-180 | after a reload, the suggestions for the typed text |
| Options.Qualifies | options.js:54 | a node is imported only with a URL starting `http`; every `http:` URL qualifies, with or without slashes, while an `https:` URL qualifies exactly when it starts `https://` |
| Options.ImportRecord | options.js:55 | a qualifying node becomes a `Not Indexed` record with its title and URL and empty keywords |
| Options.ImportedAppend | options.js:52-61 | traversing two lists of nodes is traversing one, then the other |
| Options.ImportedIsPreorderFilter | options.js:52-61 | the import is the qualifying nodes of the pre-order walk, each made a record, and duplicates are kept |
| Options.ImportedAreFresh | options.js:54-55 | every imported record has a URL starting with `http:` or `https://`, is `Not Indexed`, and has empty keywords |
| Options.ImportedNode | options.js:53-59 | a node's own record comes before its descendants' |
| Options.ImportCount | options.js:52-65 | the number imported is the number of qualifying nodes in the tree |
| Options.Importer.constructor | options.js:51 | the import starts with an empty array |
| Options.Importer.Traverse | options.js:52-61 | traverse appends the records for the nodes to the array |
| Options.ImportTree | options.js:49-62 | the import button yields the records for the whole tree |
| Options.StatusText | options.js:18-20 | the status shown is never empty |
| Options.StatusTextCases | options.js:18-20 | the error is shown exactly for `Failed` with a message; otherwise the status, or `Not Indexed` |
| Options.StatusTextAfterIndexing | options.js:18-20 | after indexing, the column reads `Success`, `Failed: <error>`, or `Failed` when there is no message |
| Options.ParseKeywords | options.js:37 | parsed keywords are non-empty, hold no comma, and have no whitespace at either end |
| Options.ParseJoinedKeywords | options.js:28-37 | parsing a cell that holds such keywords joined with ", " gives them back in order |
| Options.ExtractedKeywordsSurviveEditing | options.js:28-37 | extracted keywords survive a visit to the keywords cell unchanged |
| Options.ReplaceFirstByUrl | options.js:136-138 | only the first displayed entry with the URL is replaced, and no match means no change |
| Options.ReplaceFirstByUrlIdempotent | options.js:136-138 | applying the same update twice is applying it once |
| Options.OptionsPage.constructor | options.js:10 | nothing is displayed at first |
| Options.OptionsPage.DisplayBookmarks | options.js:12-15 | the displayed list becomes the given records |
| Options.OptionsPage.UpdateBookmarkStatus | options.js:134-138 | the displayed list gets the record at its first entry with the URL |
| Popup.SearchResults | popup.js:17-23 | a stored bookmark is a result exactly when it matches the lower-cased term, and each matching bookmark appears as often as it is stored, so nothing is capped or merged |
| Popup.SearchBookmarks | popup.js:8-15 | the import prompt is shown exactly when nothing was ever stored |
| Popup.SearchIsSubsequence | popup.js:18-23 | the results keep the stored order: they are a subsequence of the stored list |
| Popup.EmptySearchListsAll | popup.js:17-23 | the empty term lists every stored bookmark |
| Popup.CountTextIsResultCount | popup.js:26 | the count line is the decimal number of results followed by " results found" |
| Popup.OpenButtonShownIff | popup.js:28-29 | the open-selected button is shown exactly when some stored bookmark matches |

## Left out

- The chrome APIs are left out: storage, messaging, omnibox, tabs and the bookmark tree. Storage is a class with one field. Messages become method results. The tree is an input value.
- `fetch` and its ten-second timeout are not modelled. Each fetch's outcome is a parameter: a status and a body, or a failure with its message. The browser's own error texts are parameters too.
- The async handlers and their interleaving are not modelled. Each handler is one atomic step, so races between overlapping handlers are not captured.
- DOM rendering and UI handlers are left out. This covers:
  - table rows, checkboxes, select-all and alerts;
  - the export download;
  - the index and delete buttons' selection of rows;
  - the `indexingComplete` button reset;
  - opening tabs from the popup and from `onInputEntered` (background.js:182-185).
- Console logging is left out.
- Lower-casing and the regular expressions' `\w`, `\b` and `/i` are ASCII only. Unicode case mapping is not modelled.
- Keywords.AddWordAsWritten: the word `constructor` is counted as 1 on its first occurrence. As written, `wordCounts['constructor']` first reads the inherited `Object` function, so the value stored is the string `"function Object() { [native code] }1"`, not a number.
- Keywords.TallyAsWrittenAgrees: its agreement with the intended tally counts `constructor` as AddWordAsWritten does, so it does not capture the string count described above.
- Keywords.CountWords: the word `constructor` is counted like any other word. As written, the first occurrence finds the inherited `Object` function, so the count becomes a string and the comparator yields `NaN`. The resulting sort order is implementation-defined, so it is not modelled. Apart from `__proto__` (see Findings), no other inherited property name is all lower-case.
- Background.Worker.IndexSingleBookmark: the intermediate save of `Indexing...` with an empty error happens in the method. However, its `ensures` states only the final store and storage.
- Options.OptionsPage.UpdateBookmarkStatus: only the displayed list is modelled. The status cell's text (options.js:142-144) and the keywords cell's text (options.js:145) are DOM output.
- Options.BookmarkNode: a node without `children` and a node with no children are the same value. `traverse` visits neither.
- Values of the wrong type are not modelled, such as a missing title or a non-string keyword. Those would make the JavaScript throw.

## Findings

| source | as written | input that shows it | evidently intended | confidence | as-written member | corrected member |
|---|---|---|---|---|---|---|
| background.js:127-130 | `wordCounts` is a plain object literal. Reading `wordCounts['__proto__']` gives `Object.prototype`, so the value assigned is the string `"[object Object]1"`. The assignment goes through the inherited `__proto__` setter, which ignores a value that is neither an object nor null, so the word is never stored as a key. | the candidate words `__proto__`, `__proto__`, as in a page whose text is `__proto__ __proto__` | `__proto__` is counted like any other word, for example with an object without a prototype or a `Map`, and the keywords are `["__proto__"]` rather than `[]` | not executed | Keywords.ProtoWordIsLost | Keywords.CountWords |

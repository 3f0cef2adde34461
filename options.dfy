/** The options page: importing the browser's bookmark tree, the status
    column, the editable keywords cell and the status updates sent by the
    background worker. */
module Options {
  import opened Seqs
  import opened Text
  import opened Keywords
  import opened Bookmarks
  import opened Background

  // ---------------------------------------------------------------------------
  // Import

  /** A node of the browser's bookmark tree: a bookmark has a URL, a folder
      has children. A node without `children` is traversed like one with
      none, so both are the empty sequence here. */
  datatype BookmarkNode = BookmarkNode(title: string, url: Option<string>, children: seq<BookmarkNode>)

  /** Imported nodes: a URL starting with `http:` (no slashes needed) or with
      `https://`. */
  predicate Qualifies(n: BookmarkNode): (q: bool)
    ensures q ==> n.url.Some? && |n.url.value| >= 5 && n.url.value[..4] == "http"
    ensures n.url.Some? && StartsWith(n.url.value, "https:") ==> (q <==> StartsWith(n.url.value, "https://"))
    ensures n.url.Some? && StartsWith(n.url.value, "http:") ==> q
  {
    if n.url.None? then false
    else
      var u := n.url.value;
      assert StartsWith(u, "https:") ==> u[4] == u[..6][4] == 's';
      StartsWith(u, "http:") || StartsWith(u, "https://")
  }

  /** The record an imported node becomes. */
  function ImportRecord(n: BookmarkNode): (b: Bookmark)
    ensures b.title == n.title
    ensures Qualifies(n) ==> b.url == n.url.value && IsFreshImport(b)
  {
    Bookmark(n.title, if n.url.Some? then n.url.value else "", Some(NotIndexed), None, Some([]))
  }

  /** What a fresh import holds: every record is a new, unindexed one for a
      web address. */
  predicate IsFreshImport(b: Bookmark) {
    (StartsWith(b.url, "http:") || StartsWith(b.url, "https://"))
    && b.status == Some(NotIndexed) && b.keywords == Some([]) && b.errorMessage.None?
  }

  /** The records `traverse` pushes for `nodes`: each node's own record
      before those of its descendants, siblings in order. */
  function Imported(nodes: seq<BookmarkNode>): seq<Bookmark>
    decreases nodes
  {
    if nodes == [] then []
    else
      var n := nodes[0];
      (if Qualifies(n) then [ImportRecord(n)] else []) + Imported(n.children) + Imported(nodes[1..])
  }

  /** All the nodes of the forest, in pre-order. */
  function Preorder(nodes: seq<BookmarkNode>): seq<BookmarkNode>
    decreases nodes
  {
    if nodes == [] then [] else [nodes[0]] + Preorder(nodes[0].children) + Preorder(nodes[1..])
  }

  lemma {:induction false} ImportedAppend(a: seq<BookmarkNode>, b: seq<BookmarkNode>)
    ensures Imported(a + b) == Imported(a) + Imported(b)
    decreases a
  {
    if a == [] {
      assert a + b == b;
    } else {
      var n := a[0];
      var head := (if Qualifies(n) then [ImportRecord(n)] else []) + Imported(n.children);
      assert (a + b)[0] == n && (a + b)[1..] == a[1..] + b;
      assert Imported(a + b) == head + Imported(a[1..] + b);
      assert Imported(a) == head + Imported(a[1..]);
      ImportedAppend(a[1..], b);
      assert head + (Imported(a[1..]) + Imported(b)) == (head + Imported(a[1..])) + Imported(b);
    }
  }

  /** The import is the qualifying nodes of the pre-order walk, each turned
      into a record: nodes without a URL still have their children visited,
      and duplicate URLs are all kept. */
  lemma {:induction false} ImportedIsPreorderFilter(nodes: seq<BookmarkNode>)
    ensures Imported(nodes) == Map(Filter(Preorder(nodes), Qualifies), ImportRecord)
    decreases nodes
  {
    if nodes != [] {
      var n := nodes[0];
      var own := [n];
      var below := Preorder(n.children);
      var rest := Preorder(nodes[1..]);
      ImportedIsPreorderFilter(n.children);
      ImportedIsPreorderFilter(nodes[1..]);
      FilterAppend(own + below, rest, Qualifies);
      FilterAppend(own, below, Qualifies);
      var f1, f2, f3 := Filter(own, Qualifies), Filter(below, Qualifies), Filter(rest, Qualifies);
      MapAppend(f1 + f2, f3, ImportRecord);
      MapAppend(f1, f2, ImportRecord);
      assert Map(f1, ImportRecord) == if Qualifies(n) then [ImportRecord(n)] else [];
    }
  }

  /** Every imported record is a new, unindexed record for a web address. */
  lemma {:induction false} ImportedAreFresh(nodes: seq<BookmarkNode>)
    ensures forall i :: 0 <= i < |Imported(nodes)| ==> IsFreshImport(Imported(nodes)[i])
    decreases nodes
  {
    if nodes != [] {
      var n := nodes[0];
      ImportedAreFresh(n.children);
      ImportedAreFresh(nodes[1..]);
      var own := if Qualifies(n) then [ImportRecord(n)] else [];
      assert forall i :: 0 <= i < |own| ==> IsFreshImport(own[i]);
      var r := Imported(nodes);
      assert r == own + Imported(n.children) + Imported(nodes[1..]);
    }
  }

  /** The records for one node: its own, then its descendants'. */
  lemma ImportedNode(node: BookmarkNode)
    ensures Imported([node]) == (if Qualifies(node) then [ImportRecord(node)] else []) + Imported(node.children)
  {
    assert [node][1..] == [];
  }

  /** The records for the first `i + 1` nodes: those for the first `i`,
      then the `i`-th node's own, then its descendants'. */
  lemma ImportedPrefix(nodes: seq<BookmarkNode>, i: nat)
    requires i < |nodes|
    ensures Imported(nodes[..i + 1])
         == Imported(nodes[..i]) + ((if Qualifies(nodes[i]) then [ImportRecord(nodes[i])] else []) + Imported(nodes[i].children))
  {
    ImportedNode(nodes[i]);
    ImportedAppend(nodes[..i], [nodes[i]]);
    assert nodes[..i + 1] == nodes[..i] + [nodes[i]];
  }

  /** The number of records imported is the number of qualifying nodes in
      the tree. */
  lemma ImportCount(nodes: seq<BookmarkNode>)
    ensures |Imported(nodes)| == |Filter(Preorder(nodes), Qualifies)|
  {
    ImportedIsPreorderFilter(nodes);
  }

  /** The `bookmarks` array that `traverse` pushes into. */
  class Importer {
    var bookmarks: seq<Bookmark>

    constructor()
      ensures bookmarks == []
    {
      bookmarks := [];
    }

    /** traverse: for each node, push its record if it qualifies, then
        traverse its children. */
    method Traverse(nodes: seq<BookmarkNode>)
      modifies this
      ensures bookmarks == old(bookmarks) + Imported(nodes)
      decreases nodes
    {
      ghost var start := bookmarks;
      for i := 0 to |nodes|
        invariant bookmarks == start + Imported(nodes[..i])
      {
        var node := nodes[i];
        if Qualifies(node) {
          bookmarks := bookmarks + [ImportRecord(node)];
        }
        ghost var pushed := bookmarks;
        // An empty `children` array is traversed too, and pushes nothing.
        Traverse(node.children);
        assert bookmarks == pushed + Imported(node.children);
        TraverseStep(start, nodes, i, pushed);
      }
      assert nodes[..|nodes|] == nodes;
    }
  }

  /** One turn of the loop in `traverse`: the node's own record, then its
      descendants', extend the records of the nodes before it. */
  lemma TraverseStep(start: seq<Bookmark>, nodes: seq<BookmarkNode>, i: nat, pushed: seq<Bookmark>)
    requires i < |nodes|
    requires pushed == start + Imported(nodes[..i]) + (if Qualifies(nodes[i]) then [ImportRecord(nodes[i])] else [])
    ensures pushed + Imported(nodes[i].children) == start + Imported(nodes[..i + 1])
  {
    ImportedPrefix(nodes, i);
  }

  /** The import button: traverse the whole tree into a new array. */
  method ImportTree(tree: seq<BookmarkNode>) returns (bookmarks: seq<Bookmark>)
    ensures bookmarks == Imported(tree)
  {
    var importer := new Importer();
    importer.Traverse(tree);
    bookmarks := importer.bookmarks;
  }

  // ---------------------------------------------------------------------------
  // The status column

  /** The status shown for a record: `Failed: <message>` for a failure with a
      message, otherwise the status, or `Not Indexed` when there is none. */
  function StatusText(b: Bookmark): (text: string)
    ensures text != []
  {
    if b.status == Some(Failed) && b.errorMessage.Some? && b.errorMessage.value != [] then
      "Failed: " + b.errorMessage.value
    else if b.status.Some? && b.status.value != [] then b.status.value
    else NotIndexed
  }

  /** For the statuses the extension writes, the error is shown exactly when
      the status is `Failed` with a message; otherwise the status itself, or
      `Not Indexed`, is shown. */
  lemma StatusTextCases(b: Bookmark)
    requires b.status.None? || IsKnownStatus(b.status.value)
    ensures StartsWith(StatusText(b), "Failed: ")
        <==> b.status == Some(Failed) && b.errorMessage.Some? && b.errorMessage.value != []
    ensures !StartsWith(StatusText(b), "Failed: ") ==>
              StatusText(b) == if b.status.Some? then b.status.value else NotIndexed
  {
    if b.status == Some(Failed) && b.errorMessage.Some? && b.errorMessage.value != [] {
      assert StatusText(b)[..8] == "Failed: ";
    } else {
      assert !StartsWith(NotIndexed, "Failed: ") by { assert NotIndexed[0] == 'N'; }
      assert !StartsWith(Indexing, "Failed: ") by { assert Indexing[0] == 'I'; }
      assert !StartsWith(Success, "Failed: ") && !StartsWith(Failed, "Failed: ");
    }
  }

  /** After indexing, the status column reads `Success`, `Failed: <error>`,
      or `Failed` when the error has no message. */
  lemma StatusTextAfterIndexing(b: Bookmark, outcome: FetchOutcome)
    ensures StatusText(Indexed(b, outcome))
         == if IsOk(outcome) then Success
            else if ErrorMessage(outcome) != [] then "Failed: " + ErrorMessage(outcome)
            else Failed
  {
  }

  // ---------------------------------------------------------------------------
  // The keywords cell

  /** The edited cell's text split at commas, each piece trimmed, empty
      pieces dropped. */
  function ParseKeywords(text: string): (keywords: seq<string>)
    ensures forall i :: 0 <= i < |keywords| ==>
              keywords[i] != [] && ',' !in keywords[i]
              && !IsJsWhitespace(keywords[i][0]) && !IsJsWhitespace(keywords[i][|keywords[i]| - 1])
  {
    KeptPiecesAreCellKeywords(text);
    Filter(Map(Split(text, ','), Trim), IsNonEmpty)
  }

  /** The pieces kept are keywords the cell can carry. */
  lemma KeptPiecesAreCellKeywords(text: string)
    ensures forall i :: 0 <= i < |Filter(Map(Split(text, ','), Trim), IsNonEmpty)| ==>
              IsCellKeyword(Filter(Map(Split(text, ','), Trim), IsNonEmpty)[i])
  {
    var pieces := Split(text, ',');
    var trimmed := Map(pieces, Trim);
    var keywords := Filter(trimmed, IsNonEmpty);
    TrimmedPieces(text);
    forall i | 0 <= i < |keywords|
      ensures IsCellKeyword(keywords[i])
    {
      var j :| 0 <= j < |trimmed| && trimmed[j] == keywords[i];
      assert trimmed[j] == Trim(pieces[j]) && keywords[i] != [];
    }
  }

  /** Each piece of the split cell, once trimmed, is empty or a keyword the
      cell can carry. */
  lemma TrimmedPieces(text: string)
    ensures forall k :: 0 <= k < |Split(text, ',')| ==>
              Trim(Split(text, ',')[k]) == [] || IsCellKeyword(Trim(Split(text, ',')[k]))
  {
    SplitJoin(text, ',');
    forall k | 0 <= k < |Split(text, ',')|
      ensures Trim(Split(text, ',')[k]) == [] || IsCellKeyword(Trim(Split(text, ',')[k]))
    {
      var piece := Split(text, ',')[k];
      var a, b :| 0 <= a <= b <= |piece| && Trim(piece) == piece[a..b];
      assert ',' !in piece;
    }
  }

  predicate IsNonEmpty(s: string) { s != [] }

  /** A keyword the cell can carry through an edit unchanged. */
  predicate IsCellKeyword(k: string) {
    k != [] && ',' !in k && !IsJsWhitespace(k[0]) && !IsJsWhitespace(k[|k| - 1])
  }

  lemma {:induction false} TrimmedPiecesOfJoin(ks: seq<string>)
    requires |ks| >= 1
    requires forall i :: 0 <= i < |ks| ==> IsCellKeyword(ks[i])
    ensures Map(Split(Join(ks, ", "), ','), Trim) == ks
  {
    if |ks| == 1 {
      assert Join(ks, ", ") == ks[0];
      SinglePiece(ks[0]);
    } else {
      var tail := Join(ks[1..], ", ");
      TrimmedPiecesOfJoin(ks[1..]);
      JoinCommaSpace(ks);
      SplitTrimStep(ks[0], tail);
      assert ks == [ks[0]] + ks[1..];
    }
  }

  lemma SinglePiece(k: string)
    requires IsCellKeyword(k)
    ensures Map(Split(k, ','), Trim) == [k]
  {
    SplitWithoutSeparator(k, ',');
    TrimUntrimmed(k);
    MapCons(k, [], Trim);
  }

  lemma JoinCommaSpace(ks: seq<string>)
    requires |ks| >= 2
    ensures Join(ks, ", ") == ks[0] + [','] + (" " + Join(ks[1..], ", "))
  {
  }

  /** One step of the round trip: the piece before the first ',' trims to
      itself and the space after ',' is trimmed off the next piece. */
  lemma SplitTrimStep(a: string, tail: string)
    requires IsCellKeyword(a)
    ensures Map(Split(a + [','] + (" " + tail), ','), Trim) == [a] + Map(Split(tail, ','), Trim)
  {
    SplitAtComma(a, tail);
    TrimUntrimmed(a);
    TrimPieces(a, Split(tail, ','));
  }

  lemma SplitAtComma(a: string, tail: string)
    requires ',' !in a
    ensures Split(a + [','] + (" " + tail), ',') == [a] + ([" " + Split(tail, ',')[0]] + Split(tail, ',')[1..])
  {
    SplitAfterPiece(a, ',', " " + tail);
    SplitCons(' ', tail, ',');
  }

  lemma TrimPieces(a: string, pieces: seq<string>)
    requires Trim(a) == a && |pieces| >= 1
    ensures Map([a] + ([" " + pieces[0]] + pieces[1..]), Trim) == [a] + Map(pieces, Trim)
  {
    TrimLeadingSpace(pieces[0]);
    MapFixedHead(a, " " + pieces[0], pieces, Trim);
  }

  /** Mapping a fixed point of `f` followed by `x` and the rest of `ys`,
      when `f(x) == f(ys[0])`. */
  lemma MapFixedHead<T>(a: T, x: T, ys: seq<T>, f: T -> T)
    requires f(a) == a && |ys| >= 1 && f(x) == f(ys[0])
    ensures Map([a] + ([x] + ys[1..]), f) == [a] + Map(ys, f)
  {
    MapCons(a, [x] + ys[1..], f);
    MapCons(x, ys[1..], f);
    MapCons(ys[0], ys[1..], f);
    assert ys == [ys[0]] + ys[1..];
  }

  /** Editing is lossless for cell keywords: parsing the cell's text, the
      keywords joined with ", ", gives the keywords back. */
  lemma ParseJoinedKeywords(ks: seq<string>)
    requires forall i :: 0 <= i < |ks| ==> IsCellKeyword(ks[i])
    ensures ParseKeywords(Join(ks, ", ")) == ks
  {
    if ks == [] {
      assert Split("", ',') == [""];
      assert Map([""], Trim) == [""];
    } else {
      TrimmedPiecesOfJoin(ks);
      FilterKeepsAll(ks, IsNonEmpty);
    }
  }

  lemma {:induction false} FilterKeepsAll(s: seq<string>, p: string -> bool)
    requires forall i :: 0 <= i < |s| ==> p(s[i])
    ensures Filter(s, p) == s
  {
    if s != [] {
      FilterKeepsAll(s[1..], p);
      assert s == [s[0]] + s[1..];
    }
  }

  /** Words of word characters can be carried by the cell. */
  lemma WordsAreCellKeywords(ks: seq<string>)
    requires forall i :: 0 <= i < |ks| ==> IsWord(ks[i])
    ensures forall i :: 0 <= i < |ks| ==> IsCellKeyword(ks[i])
  {
    forall i | 0 <= i < |ks|
      ensures IsCellKeyword(ks[i])
    {
      var k := ks[i];
      assert IsWordChar(k[0]) && IsWordChar(k[|k| - 1]);
      assert forall m :: 0 <= m < |k| ==> k[m] != ',';
    }
  }

  /** Extracted keywords survive a visit to the keywords cell. */
  lemma ExtractedKeywordsSurviveEditing(html: string)
    ensures ParseKeywords(Join(KeywordsOf(html), ", ")) == KeywordsOf(html)
  {
    KeywordsAreKeywords(html);
    WordsAreCellKeywords(KeywordsOf(html));
    ParseJoinedKeywords(KeywordsOf(html));
  }

  // ---------------------------------------------------------------------------
  // Status updates

  /** The displayed list after a status update: the first entry with the
      record's URL is replaced by it; no entry with the URL, no change. */
  function ReplaceFirstByUrl(displayed: seq<Bookmark>, b: Bookmark): (after: seq<Bookmark>)
    ensures |after| == |displayed|
    ensures FirstWithUrl(displayed, b.url).None? ==> after == displayed
    ensures FirstWithUrl(displayed, b.url).Some? ==>
              var i := FirstWithUrl(displayed, b.url).value;
              after[i] == b && forall j :: 0 <= j < |displayed| && j != i ==> after[j] == displayed[j]
  {
    match FirstWithUrl(displayed, b.url)
    case None => displayed
    case Some(i) => displayed[i := b]
  }

  /** Delivering the same update twice is the same as delivering it once. */
  lemma ReplaceFirstByUrlIdempotent(displayed: seq<Bookmark>, b: Bookmark)
    ensures ReplaceFirstByUrl(ReplaceFirstByUrl(displayed, b), b) == ReplaceFirstByUrl(displayed, b)
  {
    var once := ReplaceFirstByUrl(displayed, b);
    assert Urls(once) == Urls(displayed);
    SameUrlsSameFirst(displayed, once, b.url);
  }

  /** The options page's `displayedBookmarks`. */
  class OptionsPage {
    var displayed: seq<Bookmark>

    constructor()
      ensures displayed == []
    {
      displayed := [];
    }

    /** displayBookmarks, without the rendering. */
    method DisplayBookmarks(bookmarks: seq<Bookmark>)
      modifies this
      ensures displayed == bookmarks
    {
      displayed := bookmarks;
    }

    /** The `updateBookmarkStatus` message. */
    method UpdateBookmarkStatus(b: Bookmark)
      modifies this
      ensures displayed == ReplaceFirstByUrl(old(displayed), b)
    {
      var found := FirstWithUrl(displayed, b.url);
      if found.Some? {
        displayed := displayed[found.value := b];
      }
    }
  }
}

/** The keyword extractor of the background service worker: the page's body
    text, stripped of tags and lower-cased, is cut into words of three or more
    word characters; stop-words are dropped; the remaining words are counted
    and the ten most frequent are kept, most frequent first. */
module Keywords {
  import opened Seqs
  import opened Text
  import opened Sorting

  // ---------------------------------------------------------------------------
  // The body: /<body[^>]*>([\s\S]*)<\/body>/i

  /** `pat`, which is in lower case, occurs at index `i` of `s` when ASCII case
      is ignored, as the regular expression's `i` flag matches it. */
  predicate OccursIgnoringCase(s: string, pat: string, i: int) {
    0 <= i <= |s| - |pat| && Lower(s[i..i + |pat|]) == pat
  }

  /** The first index at or after `from` where `pat` occurs ignoring case. */
  function FindFirst(s: string, pat: string, from: nat): (r: Option<nat>)
    ensures r.Some? ==> from <= r.value && OccursIgnoringCase(s, pat, r.value)
    ensures forall j :: from <= j && (r.None? || j < r.value) ==> !OccursIgnoringCase(s, pat, j)
    decreases |s| - from
  {
    if from + |pat| > |s| then None
    else if OccursIgnoringCase(s, pat, from) then Some(from)
    else FindFirst(s, pat, from + 1)
  }

  /** The last index in `from..hi` where `pat` occurs ignoring case. */
  function FindLast(s: string, pat: string, from: nat, hi: int): (r: Option<nat>)
    ensures r.Some? ==> from <= r.value <= hi && OccursIgnoringCase(s, pat, r.value)
    ensures forall j :: from <= j <= hi && (r.None? || j > r.value) ==> !OccursIgnoringCase(s, pat, j)
    decreases hi - from
  {
    if hi < from then None
    else if OccursIgnoringCase(s, pat, hi) then Some(hi)
    else FindLast(s, pat, from, hi - 1)
  }

  /** The first index at or after `from` holding `c`. */
  function FindChar(s: string, c: char, from: nat): (r: Option<nat>)
    ensures r.Some? ==> from <= r.value < |s| && s[r.value] == c
    ensures forall j :: from <= j < |s| && (r.None? || j < r.value) ==> s[j] != c
    decreases |s| - from
  {
    if from >= |s| then None
    else if s[from] == c then Some(from)
    else FindChar(s, c, from + 1)
  }

  /** The regular expression matches with `<body` at `i`, the tag's closing
      `>` at `j` and `</body>` at `k`. */
  predicate BodyMatch(html: string, i: int, j: int, k: int) {
    OccursIgnoringCase(html, "<body", i) && OccursIgnoringCase(html, "</body>", k)
    && i + 5 <= j < k && html[j] == '>' && '>' !in html[i + 5..j]
  }

  /** The match the regular expression reports: no match starts before
      `i`, the tag's `>` is the only one a match starting at `i` can use, and
      no match starting at `i` ends after `k` (the capture is greedy). */
  ghost predicate FirstLongestMatch(html: string, i: int, j: int, k: int) {
    BodyMatch(html, i, j, k)
    && forall i', j', k' :: BodyMatch(html, i', j', k') ==> i <= i' && (i' == i ==> j' == j && k' <= k)
  }

  /** What the extractor reads: the text captured by the body pattern, or the
      whole document when the pattern does not match. The match starts at
      the first `<body` (a later start cannot succeed where the first one
      failed), `[^>]*>` ends at the first `>` after it, and the greedy
      `[\s\S]*` reaches the last `</body>`. */
  function BodyContent(html: string): (body: string)
    ensures body == html || exists i, j, k :: FirstLongestMatch(html, i, j, k) && body == html[j + 1..k]
  {
    match BodyBounds(html)
    case None => html
    case Some((i, j, k)) => html[j + 1..k]
  }

  /** Where `<body`, its `>` and `</body>` are found, if all three are. */
  function BodyBounds(html: string): (m: Option<(nat, nat, nat)>)
    ensures m.Some? ==> FirstLongestMatch(html, m.value.0, m.value.1, m.value.2)
  {
    match FindFirst(html, "<body", 0)
    case None => None
    case Some(i) =>
      match FindChar(html, '>', i + 5)
      case None => None
      case Some(j) =>
        match FindLast(html, "</body>", j + 1, |html| - 7)
        case None => None
        case Some(k) =>
          BodyBoundsAreFirstLongest(html, i, j, k);
          Some((i, j, k))
  }

  /** The bounds the extractor finds are those of the reported match. */
  lemma BodyBoundsAreFirstLongest(html: string, i: nat, j: nat, k: nat)
    requires FindFirst(html, "<body", 0) == Some(i)
    requires FindChar(html, '>', i + 5) == Some(j)
    requires FindLast(html, "</body>", j + 1, |html| - 7) == Some(k)
    ensures FirstLongestMatch(html, i, j, k)
  {
    assert BodyMatch(html, i, j, k);
    forall i', j', k' | BodyMatch(html, i', j', k')
      ensures i <= i' && (i' == i ==> j' == j && k' <= k)
    {
      FirstStartBefore(html, i');
      if i' == i {
        TagCloseIsFirst(html, i, j, j');
        LastEndAfter(html, j + 1, k');
      }
    }
  }

  /** Any start of the pattern is at or after the first `<body`. */
  lemma FirstStartBefore(html: string, i': int)
    requires OccursIgnoringCase(html, "<body", i')
    ensures FindFirst(html, "<body", 0).Some? && FindFirst(html, "<body", 0).value <= i'
  {
  }

  /** Two `>` with no `>` between `i + 5` and either are the same one. */
  lemma TagCloseIsFirst(html: string, i: nat, j: nat, j': int)
    requires FindChar(html, '>', i + 5) == Some(j)
    requires i + 5 <= j' < |html| && html[j'] == '>' && '>' !in html[i + 5..j']
    ensures j' == j
  {
  }

  /** Any end of the pattern after `from` is at or before the last `</body>`. */
  lemma LastEndAfter(html: string, from: nat, k': int)
    requires from <= k' && OccursIgnoringCase(html, "</body>", k')
    ensures FindLast(html, "</body>", from, |html| - 7).Some? && k' <= FindLast(html, "</body>", from, |html| - 7).value
  {
  }

  /** The body pattern matches somewhere exactly when the extractor reads a
      captured body rather than the whole document. */
  lemma BodyContentMatches(html: string)
    ensures (exists i, j, k :: BodyMatch(html, i, j, k)) <==> BodyContent(html) != html
  {
    if exists i, j, k :: BodyMatch(html, i, j, k) {
      var i, j, k :| BodyMatch(html, i, j, k);
      MatchIsCaptured(html, i, j, k);
    } else if BodyContent(html) != html {
      CaptureIsMatch(html);
    }
  }

  /** A match of the body pattern means a captured body is read. */
  lemma MatchIsCaptured(html: string, i: int, j: int, k: int)
    requires BodyMatch(html, i, j, k)
    ensures BodyContent(html) != html
  {
    FirstStartBefore(html, i);
    var first := FindFirst(html, "<body", 0).value;
    FirstCloseBefore(html, first + 5, j);
    var close := FindChar(html, '>', first + 5).value;
    LastEndAfter(html, close + 1, k);
    assert BodyBounds(html).Some?;
  }

  /** A captured body means the body pattern matches. */
  lemma CaptureIsMatch(html: string)
    requires BodyContent(html) != html
    ensures exists i, j, k :: BodyMatch(html, i, j, k)
  {
    var i, j, k :| FirstLongestMatch(html, i, j, k) && BodyContent(html) == html[j + 1..k];
  }

  /** Any `>` at or after `from` is at or after the first one. */
  lemma FirstCloseBefore(html: string, from: nat, j: int)
    requires from <= j < |html| && html[j] == '>'
    ensures FindChar(html, '>', from).Some? && FindChar(html, '>', from).value <= j
  {
  }

  // ---------------------------------------------------------------------------
  // Tag stripping: replace(/<[^>]+>/g, '')

  /** Removes every match of `<[^>]+>`, scanning left to right: a `<` opens a
      tag when the first `>` after it is not the very next character. */
  function StripTags(s: string): (r: string)
    ensures |r| <= |s|
    ensures Subsequence(r, s)
    decreases |s|
  {
    if s == [] then []
    else if s[0] == '<' && FindChar(s, '>', 1).Some? && FindChar(s, '>', 1).value >= 2 then
      var n := FindChar(s, '>', 1).value + 1;
      var r := StripTags(s[n..]);
      SubsequenceOfSuffix(r, s, n);
      r
    else
      var r := StripTags(s[1..]);
      SubsequenceCons(s[0], r, s);
      [s[0]] + r
  }

  /** No match of `<[^>]+>` is left in `s`: after any `<`, a `>` that is not
      the very next character comes after an earlier `>`. */
  predicate TagFree(s: string) {
    forall i, j :: 0 <= i && i + 2 <= j < |s| && s[i] == '<' && s[j] == '>' ==> '>' in s[i + 1..j]
  }

  lemma TagFreeSuffix(s: string, n: nat)
    requires TagFree(s) && n <= |s|
    ensures TagFree(s[n..])
  {
    var t := s[n..];
    forall i, j | 0 <= i && i + 2 <= j < |t| && t[i] == '<' && t[j] == '>'
      ensures '>' in t[i + 1..j]
    {
      assert s[n + i] == '<' && s[n + j] == '>';
      assert t[i + 1..j] == s[n + i + 1..n + j];
    }
  }

  lemma TagFreeCons(c: char, t: string)
    requires TagFree(t)
    requires c == '<' ==> '>' !in t || t[0] == '>'
    ensures TagFree([c] + t)
  {
    var s := [c] + t;
    forall i, j | 0 <= i && i + 2 <= j < |s| && s[i] == '<' && s[j] == '>'
      ensures '>' in s[i + 1..j]
    {
      assert s[j] == t[j - 1];
      if i == 0 {
        assert '>' in t;
        assert s[1] == t[0] == '>';
        assert s[1..j][0] == s[1];
      } else {
        assert t[i - 1] == '<';
        assert '>' in t[i..j - 1];
        assert s[i + 1..j] == t[i..j - 1];
      }
    }
  }

  /** Stripping leaves no tag behind. */
  lemma {:induction false} StripTagsIsTagFree(s: string)
    ensures TagFree(StripTags(s))
    decreases |s|
  {
    if s != [] {
      var f := FindChar(s, '>', 1);
      if s[0] == '<' && f.Some? && f.value >= 2 {
        StripTagsIsTagFree(s[f.value + 1..]);
      } else {
        var t := StripTags(s[1..]);
        StripTagsIsTagFree(s[1..]);
        if s[0] == '<' {
          if f.None? {
            assert '>' !in s[1..];
            SubsequenceElements(t, s[1..]);
            assert '>' !in t;
          } else {
            assert s[1] == '>';
            assert s[1..][0] == '>' && s[1..][0] != '<';
            assert t == [s[1]] + StripTags(s[2..]) by { assert s[1..][1..] == s[2..]; }
          }
        }
        TagFreeCons(s[0], t);
      }
    }
  }

  /** Text without tags passes through unchanged. */
  lemma {:induction false} StripTagsOfTagFree(s: string)
    requires TagFree(s)
    ensures StripTags(s) == s
    decreases |s|
  {
    if s != [] {
      TagFreeSuffix(s, 1);
      StripTagsOfTagFree(s[1..]);
    }
  }

  /** Stripping tags is idempotent. */
  lemma StripTagsIdempotent(s: string)
    ensures StripTags(StripTags(s)) == StripTags(s)
  {
    StripTagsIsTagFree(s);
    StripTagsOfTagFree(StripTags(s));
  }

  /** The first `>` of a tag `<x>` is its own closing one. */
  lemma FindTagClose(x: string, b: string)
    requires '>' !in x
    ensures FindChar("<" + x + ">" + b, '>', 1) == Some(|x| + 1)
  {
    var s := "<" + x + ">" + b;
    assert s[|x| + 1] == '>';
    forall j | 1 <= j <= |x|
      ensures s[j] != '>'
    {
      assert s[j] == x[j - 1];
    }
  }

  /** A tag at the front is dropped whole. */
  lemma TagDropped(x: string, b: string)
    requires x != [] && '>' !in x
    ensures StripTags("<" + x + ">" + b) == StripTags(b)
  {
    var s := "<" + x + ">" + b;
    FindTagClose(x, b);
    assert s[|x| + 2..] == b;
  }

  /** Text without `<` in front of the rest is kept as it is. */
  lemma {:induction false} PlainKept(a: string, t: string)
    requires '<' !in a
    ensures StripTags(a + t) == a + StripTags(t)
  {
    if a == [] {
      assert a + t == t;
    } else {
      var rest, u := a[1..], a[1..] + t;
      assert a + t == [a[0]] + u;
      KeptChar(a[0], u);
      PlainKept(rest, t);
      assert a == [a[0]] + rest;
      ConsAppend(a[0], rest, StripTags(t));
    }
  }

  /** A character other than `<` is kept in front of the rest. */
  lemma KeptChar(c: char, t: string)
    requires c != '<'
    ensures StripTags([c] + t) == [c] + StripTags(t)
  {
    assert ([c] + t)[1..] == t;
  }

  /** A `<` that opens no tag, because nothing or `>` follows it at once or
      no `>` follows it at all, is kept. */
  lemma StrayOpenKept(t: string)
    requires t == [] || t[0] == '>' || '>' !in t
    ensures StripTags("<" + t) == "<" + StripTags(t)
  {
    var s := "<" + t;
    assert s[1..] == t;
    if t != [] && t[0] != '>' {
      forall j | 1 <= j < |s|
        ensures s[j] != '>'
      {
        assert s[j] == t[j - 1];
      }
    }
  }

  /** Text before a tag survives stripping and the tag goes. */
  lemma StripTagsKeepsText(a: string, x: string, b: string)
    requires '<' !in a && x != [] && '>' !in x
    ensures StripTags(a + ("<" + x + ">" + b)) == a + StripTags(b)
  {
    PlainKept(a, "<" + x + ">" + b);
    TagDropped(x, b);
  }

  // ---------------------------------------------------------------------------
  // Words: match(/\b\w{3,}\b/g)

  /** Three or more word characters. */
  predicate IsWord(t: string) {
    |t| >= 3 && forall m :: 0 <= m < |t| ==> IsWordChar(t[m])
  }

  /** The end of the run of word characters that starts at `i`. */
  function RunEnd(s: string, i: nat): (j: nat)
    requires i <= |s|
    ensures i <= j <= |s|
    ensures forall m :: i <= m < j ==> IsWordChar(s[m])
    ensures j == |s| || !IsWordChar(s[j])
    decreases |s| - i
  {
    if i < |s| && IsWordChar(s[i]) then RunEnd(s, i + 1) else i
  }

  /** `\b\w{3,}\b` matches `s[p..q]`: three or more word characters with a
      word boundary on each side. */
  predicate WordMatch(s: string, p: int, q: int) {
    0 <= p && p + 3 <= q <= |s|
    && (forall m :: p <= m < q ==> IsWordChar(s[m]))
    && (p == 0 || !IsWordChar(s[p - 1]))
    && (q == |s| || !IsWordChar(s[q]))
  }

  /** The matches of the global word pattern from index `i` on, left to right:
      every maximal run of word characters that is at least three long. */
  function MatchWords(s: string, i: nat): (r: seq<string>)
    requires i <= |s|
    ensures forall k :: 0 <= k < |r| ==> IsWord(r[k])
    decreases |s| - i
  {
    if i == |s| then []
    else if !IsWordChar(s[i]) then MatchWords(s, i + 1)
    else
      var j := RunEnd(s, i);
      (if j - i >= 3 then [s[i..j]] else []) + MatchWords(s, j)
  }

  /** `t` is a match of the word pattern that starts at or after `from`. */
  ghost predicate MatchedFrom(s: string, t: string, from: int) {
    exists p, q :: from <= p && WordMatch(s, p, q) && t == s[p..q]
  }

  /** Every word of `r` is a match of the word pattern at or after `from`. */
  ghost predicate AllMatchedFrom(s: string, r: seq<string>, from: int) {
    forall k :: 0 <= k < |r| ==> MatchedFrom(s, r[k], from)
  }

  /** Every match of the word pattern at or after `from` is a word of `r`. */
  ghost predicate AllFoundFrom(s: string, r: seq<string>, from: int) {
    forall p, q :: from <= p && WordMatch(s, p, q) ==> s[p..q] in r
  }

  lemma AllMatchedAppend(s: string, a: seq<string>, b: seq<string>, from: int, later: int)
    requires from <= later
    requires AllMatchedFrom(s, a, from) && AllMatchedFrom(s, b, later)
    ensures AllMatchedFrom(s, a + b, from)
  {
    forall k | 0 <= k < |a + b|
      ensures MatchedFrom(s, (a + b)[k], from)
    {
      if k < |a| {
        assert (a + b)[k] == a[k];
      } else {
        assert (a + b)[k] == b[k - |a|];
        assert MatchedFrom(s, b[k - |a|], later);
      }
    }
  }

  /** The words found are matches of the pattern. */
  lemma {:induction false} MatchWordsSound(s: string, i: nat)
    requires i <= |s|
    requires i == 0 || i == |s| || !IsWordChar(s[i - 1]) || !IsWordChar(s[i])
    ensures AllMatchedFrom(s, MatchWords(s, i), i)
    decreases |s| - i
  {
    if i == |s| {
    } else if !IsWordChar(s[i]) {
      MatchWordsSound(s, i + 1);
      AllMatchedAppend(s, [], MatchWords(s, i + 1), i, i + 1);
      assert [] + MatchWords(s, i + 1) == MatchWords(s, i);
    } else {
      var j := RunEnd(s, i);
      var head := if j - i >= 3 then [s[i..j]] else [];
      MatchWordsSound(s, j);
      if j - i >= 3 {
        assert WordMatch(s, i, j);
        assert MatchedFrom(s, head[0], i);
      }
      AllMatchedAppend(s, head, MatchWords(s, j), i, j);
    }
  }

  /** Every match of the pattern is found. */
  lemma {:induction false} MatchWordsComplete(s: string, i: nat)
    requires i <= |s|
    ensures AllFoundFrom(s, MatchWords(s, i), i)
    decreases |s| - i
  {
    var r := MatchWords(s, i);
    if i == |s| {
    } else if !IsWordChar(s[i]) {
      MatchWordsComplete(s, i + 1);
      forall p, q | i <= p && WordMatch(s, p, q)
        ensures s[p..q] in r
      {
        assert IsWordChar(s[p]);
      }
    } else {
      var j := RunEnd(s, i);
      var head := if j - i >= 3 then [s[i..j]] else [];
      var rest := MatchWords(s, j);
      assert r == head + rest;
      MatchWordsComplete(s, j);
      forall p, q | i <= p && WordMatch(s, p, q)
        ensures s[p..q] in r
      {
        if p == i {
          assert q == j;
          assert s[p..q] in head;
        } else {
          assert j <= p - 1;
          assert s[p..q] in rest;
        }
      }
    }
  }

  /** Where the matches of the global word pattern from index `i` on
      start, left to right. */
  function MatchStarts(s: string, i: nat): (ps: seq<nat>)
    requires i <= |s|
    ensures forall k :: 0 <= k < |ps| ==> i <= ps[k] < |s|
    ensures forall k, l :: 0 <= k < l < |ps| ==> ps[k] < ps[l]
    decreases |s| - i
  {
    if i == |s| then []
    else if !IsWordChar(s[i]) then MatchStarts(s, i + 1)
    else
      var j := RunEnd(s, i);
      (if j - i >= 3 then [i] else []) + MatchStarts(s, j)
  }

  /** The `k`-th word of `r` is the match of the pattern at `ps[k]`. */
  ghost predicate MatchedAt(s: string, r: seq<string>, ps: seq<nat>) {
    |ps| == |r| && forall k :: 0 <= k < |r| ==> MatchedWord(s, r[k], ps[k])
  }

  /** `w` is the match of the pattern starting at `p`. */
  ghost predicate MatchedWord(s: string, w: string, p: nat) {
    p + |w| <= |s| && WordMatch(s, p, p + |w|) && w == s[p..p + |w|]
  }

  lemma MatchedAtAppend(s: string, r1: seq<string>, p1: seq<nat>, r2: seq<string>, p2: seq<nat>)
    requires MatchedAt(s, r1, p1) && MatchedAt(s, r2, p2)
    ensures MatchedAt(s, r1 + r2, p1 + p2)
  {
    var r, ps := r1 + r2, p1 + p2;
    forall k | 0 <= k < |r|
      ensures MatchedWord(s, r[k], ps[k])
    {
      if k < |r1| {
        assert r[k] == r1[k] && ps[k] == p1[k];
        assert MatchedWord(s, r1[k], p1[k]);
      } else {
        var m := k - |r1|;
        assert r[k] == r2[m] && ps[k] == p2[m];
        assert MatchedWord(s, r2[m], p2[m]);
      }
    }
  }

  /** Each word found is the match at the matching start. */
  lemma {:induction false} MatchWordsAt(s: string, i: nat)
    requires i <= |s|
    requires i == 0 || i == |s| || !IsWordChar(s[i - 1]) || !IsWordChar(s[i])
    ensures MatchedAt(s, MatchWords(s, i), MatchStarts(s, i))
    decreases |s| - i
  {
    if i == |s| {
    } else if !IsWordChar(s[i]) {
      MatchWordsAt(s, i + 1);
    } else {
      var j := RunEnd(s, i);
      var head := if j - i >= 3 then [s[i..j]] else [];
      var starts := if j - i >= 3 then [i] else [];
      MatchWordsAt(s, j);
      if j - i >= 3 {
        assert WordMatch(s, i, j);
      }
      assert MatchedAt(s, head, starts);
      MatchedAtAppend(s, head, starts, MatchWords(s, j), MatchStarts(s, j));
    }
  }

  /** Every start of a match of the pattern is listed. */
  lemma {:induction false} MatchStartsComplete(s: string, i: nat)
    requires i <= |s|
    ensures forall p, q :: i <= p && WordMatch(s, p, q) ==> p in MatchStarts(s, i)
    decreases |s| - i
  {
    var ps := MatchStarts(s, i);
    if i == |s| {
    } else if !IsWordChar(s[i]) {
      MatchStartsComplete(s, i + 1);
      forall p, q | i <= p && WordMatch(s, p, q)
        ensures p in ps
      {
        assert IsWordChar(s[p]);
      }
    } else {
      var j := RunEnd(s, i);
      var head := if j - i >= 3 then [i] else [];
      var rest := MatchStarts(s, j);
      assert ps == head + rest;
      MatchStartsComplete(s, j);
      forall p, q | i <= p && WordMatch(s, p, q)
        ensures p in ps
      {
        if p == i {
          assert q == j;
          assert p in head;
        } else {
          assert j <= p - 1;
          assert p in rest;
        }
      }
    }
  }

  /** The words found are exactly the matches of `\b\w{3,}\b`, each
      occurrence once, in text order: the `k`-th word is the match starting
      at the `k`-th start, the starts increase, and every match's start is
      listed. */
  lemma MatchWordsExact(s: string)
    ensures forall k :: 0 <= k < |MatchWords(s, 0)| ==> MatchedFrom(s, MatchWords(s, 0)[k], 0)
    ensures forall p, q :: WordMatch(s, p, q) ==> s[p..q] in MatchWords(s, 0)
    ensures MatchedAt(s, MatchWords(s, 0), MatchStarts(s, 0))
    ensures forall k, l :: 0 <= k < l < |MatchStarts(s, 0)| ==> MatchStarts(s, 0)[k] < MatchStarts(s, 0)[l]
    ensures forall p, q :: WordMatch(s, p, q) ==> p in MatchStarts(s, 0)
  {
    MatchWordsSound(s, 0);
    MatchWordsComplete(s, 0);
    MatchWordsAt(s, 0);
    MatchStartsComplete(s, 0);
  }

  // ---------------------------------------------------------------------------
  // The words kept

  /** The stop-words dropped from the candidates. */
  const StopWords: set<string> := {
    "a", "about", "above", "after", "again", "against", "all", "am", "an", "and", "any", "are",
    "as", "at", "be", "because", "been", "before", "being", "below", "between", "both", "but",
    "by", "can", "did", "do", "does", "doing", "down", "during", "each", "few", "for", "from",
    "further", "had", "has", "have", "having", "he", "her", "here", "hers", "herself", "him",
    "himself", "his", "how", "i", "if", "in", "into", "is", "it", "its", "itself", "just",
    "me", "more", "most", "my", "myself", "no", "nor", "not", "now", "of", "off", "on", "once",
    "only", "or", "other", "our", "ours", "ourselves", "out", "over", "own", "s", "same",
    "she", "should", "so", "some", "such", "t", "than", "that", "the", "their", "theirs",
    "them", "themselves", "then", "there", "these", "they", "this", "those", "through", "to",
    "too", "under", "until", "up", "very", "was", "we", "were", "what", "when", "where",
    "which", "while", "who", "whom", "why", "will", "with", "you", "your", "yours", "yourself",
    "yourselves"
  }

  predicate IsNotStopWord(w: string) { w !in StopWords }

  /** The body text with its tags stripped, lower-cased. */
  function PlainText(html: string): (text: string)
    ensures IsLowerCase(text)
  {
    LowerIsLowerCase(StripTags(BodyContent(html)));
    Lower(StripTags(BodyContent(html)))
  }

  /** The words of the plain text that are not stop-words, in text order. */
  function CandidateWords(html: string): (words: seq<string>)
    ensures Subsequence(words, MatchWords(PlainText(html), 0))
    ensures forall k :: 0 <= k < |words| ==> IsNotStopWord(words[k])
    ensures forall k :: 0 <= k < |MatchWords(PlainText(html), 0)| && IsNotStopWord(MatchWords(PlainText(html), 0)[k]) ==>
              MatchWords(PlainText(html), 0)[k] in words
    ensures forall w :: Occurrences(words, w) == if IsNotStopWord(w) then Occurrences(MatchWords(PlainText(html), 0), w) else 0
  {
    FilterIsSubsequence(MatchWords(PlainText(html), 0), IsNotStopWord);
    FilterOccurrences(MatchWords(PlainText(html), 0), IsNotStopWord);
    Filter(MatchWords(PlainText(html), 0), IsNotStopWord)
  }

  /** What a keyword is: a lower-case word of three or more word characters
      that is not a stop-word. */
  predicate IsKeyword(w: string) {
    IsWord(w) && IsLowerCase(w) && IsNotStopWord(w)
  }

  /** The words found in lower-case text are lower-case. */
  lemma MatchWordsLowerCase(text: string)
    requires IsLowerCase(text)
    ensures forall k :: 0 <= k < |MatchWords(text, 0)| ==> IsLowerCase(MatchWords(text, 0)[k])
  {
    MatchWordsSound(text, 0);
    forall k | 0 <= k < |MatchWords(text, 0)|
      ensures IsLowerCase(MatchWords(text, 0)[k])
    {
      assert MatchedFrom(text, MatchWords(text, 0)[k], 0);
      var p, q :| 0 <= p && WordMatch(text, p, q) && MatchWords(text, 0)[k] == text[p..q];
    }
  }

  lemma CandidatesAreKeywords(html: string)
    ensures forall k :: 0 <= k < |CandidateWords(html)| ==> IsKeyword(CandidateWords(html)[k])
  {
    var words := MatchWords(PlainText(html), 0);
    MatchWordsLowerCase(PlainText(html));
    forall k | 0 <= k < |CandidateWords(html)|
      ensures IsKeyword(CandidateWords(html)[k])
    {
      var w := CandidateWords(html)[k];
      assert w in words && IsNotStopWord(w);
    }
  }

  // ---------------------------------------------------------------------------
  // Counting: the `wordCounts` object

  /** The `wordCounts` object: its own keys in insertion order and the count
      stored under each. */
  datatype WordCounts = WordCounts(keys: seq<string>, count: map<string, nat>)

  /** What counting `words` yields: every distinct word in order of first
      appearance, with its number of occurrences. */
  function Tally(words: seq<string>): (t: WordCounts)
    ensures NoDuplicates(t.keys)
    ensures forall w :: w in t.count <==> w in t.keys
  {
    OccurrenceCountsAre(words);
    WordCounts(Distinct(words), OccurrenceCounts(words))
  }

  /** The counting loop's assignment: a new word is appended to the keys
      with count one, a word already seen has its count incremented. */
  function AddWord(counts: WordCounts, word: string): (r: WordCounts)
    ensures r.count == Increment(counts.count, word)
    ensures r.keys == if word in counts.count then counts.keys else counts.keys + [word]
  {
    if word in counts.count then counts.(count := counts.count[word := counts.count[word] + 1])
    else WordCounts(counts.keys + [word], counts.count[word := 1])
  }

  /** Counting one more word is one more assignment of the loop. */
  lemma TallyAppend(before: seq<string>, word: string)
    ensures Tally(before + [word]) == AddWord(Tally(before), word)
  {
    TallyKeysAppend(before, word);
    TallyCountAppend(before, word);
  }

  lemma TallyKeysAppend(before: seq<string>, word: string)
    ensures Tally(before + [word]).keys == AddWord(Tally(before), word).keys
  {
    DistinctSnoc(before, word);
    assert word in Tally(before).count <==> word in Tally(before).keys;
  }

  lemma TallyCountAppend(before: seq<string>, word: string)
    ensures Tally(before + [word]).count == AddWord(Tally(before), word).count
  {
    OccurrenceCountsSnoc(before, word);
  }

  lemma TallyPrefix(words: seq<string>, i: nat)
    requires i < |words|
    ensures Tally(words[..i + 1]) == AddWord(Tally(words[..i]), words[i])
  {
    assert words[..i + 1] == words[..i] + [words[i]];
    TallyAppend(words[..i], words[i]);
  }

  /** The counting loop, one assignment per candidate word. */
  method CountWords(words: seq<string>) returns (counts: WordCounts)
    ensures counts == Tally(words)
  {
    counts := WordCounts([], map[]);
    for i := 0 to |words|
      invariant counts == Tally(words[..i])
    {
      counts := AddWord(counts, words[i]);
      TallyPrefix(words, i);
    }
    assert words[..|words|] == words;
  }

  /** The one lower-case word that a plain object literal does not store.
      Reading `__proto__` gives `Object.prototype`, so the value assigned is
      the string "[object Object]1"; the inherited `__proto__` setter ignores
      a value that is neither an object nor null, so no key is created. */
  const ProtoKey := "__proto__"

  /** The loop body as written: like AddWord, except that "__proto__" leaves
      the object unchanged. The word "constructor" is counted here like any
      other word; as written its first count is a string (see README). */
  function AddWordAsWritten(counts: WordCounts, word: string): (r: WordCounts)
    ensures word == ProtoKey ==> r == counts
    ensures word != ProtoKey ==> r == AddWord(counts, word)
  {
    if word == ProtoKey then counts else AddWord(counts, word)
  }

  /** Counting as written, folded over the words in order. */
  function TallyAsWritten(words: seq<string>): (t: WordCounts)
    ensures ProtoKey !in t.keys
  {
    if words == [] then WordCounts([], map[])
    else AddWordAsWritten(TallyAsWritten(words[..|words| - 1]), words[|words| - 1])
  }

  /** Where "__proto__" does not occur, the loop as written counts exactly
      (with "constructor" counted as AddWordAsWritten counts it). */
  lemma {:induction false} TallyAsWrittenAgrees(words: seq<string>)
    requires ProtoKey !in words
    ensures TallyAsWritten(words) == Tally(words)
  {
    if words != [] {
      var before := words[..|words| - 1];
      assert words == before + [words[|words| - 1]];
      TallyAsWrittenAgrees(before);
      TallyAppend(before, words[|words| - 1]);
    }
  }

  /** A page whose only candidate word is "__proto__", twice: the intended
      tally has it as its one key, the loop as written has no key at all. */
  lemma ProtoWordIsLost()
    ensures Tally([ProtoKey, ProtoKey]).keys == [ProtoKey]
    ensures TallyAsWritten([ProtoKey, ProtoKey]).keys == []
  {
    var one, two := [ProtoKey], [ProtoKey, ProtoKey];
    assert two[..|two| - 1] == one && two[|two| - 1] == ProtoKey;
    assert one[..|one| - 1] == [] && one[|one| - 1] == ProtoKey;
    assert Distinct(one) == one;
    assert Distinct(two) == one;
    assert TallyAsWritten(one) == WordCounts([], map[]);
  }

  /** The count stored for a word, zero for a word that is not a key. */
  function CountOf(counts: WordCounts): string -> int {
    w => if w in counts.count then counts.count[w] else 0
  }

  lemma CountOfTally(words: seq<string>, w: string)
    ensures CountOf(Tally(words))(w) == Occurrences(words, w)
  {
    OccurrenceCountsAre(words);
  }

  // ---------------------------------------------------------------------------
  // Ordering: Object.keys(wordCounts).sort((a, b) => wordCounts[b] - wordCounts[a])

  /** An array index: the canonical decimal form of an integer below
      2^32 - 1. Such keys are listed by Object.keys before all others. */
  predicate IsArrayIndex(k: string) {
    |k| >= 1 && IsAllDigits(k) && NatToDecimal(DecimalValue(k)) == k && DecimalValue(k) < 0xFFFF_FFFF
  }

  predicate IsNamedKey(k: string) { !IsArrayIndex(k) }

  /** Sorting by this rank, largest first, puts array indices in ascending
      numeric order. */
  function IndexRank(k: string): int {
    if IsArrayIndex(k) then 0 - DecimalValue(k) as int else 0
  }

  /** Object.keys on an ordinary object: the array-index keys in ascending
      numeric order, then the other keys in insertion order. */
  function ObjectKeyOrder(keys: seq<string>): (r: seq<string>)
    ensures multiset(r) == multiset(keys)
  {
    var indices := Filter(keys, IsArrayIndex);
    FilterPartition(keys, IsArrayIndex, IsNamedKey);
    SortByKeyDesc(indices, IndexRank) + Filter(keys, IsNamedKey)
  }

  /** Array indices come first, in ascending numeric order. */
  lemma ObjectKeyOrderIndicesFirst(keys: seq<string>)
    ensures forall i, j :: 0 <= i < j < |ObjectKeyOrder(keys)| && IsArrayIndex(ObjectKeyOrder(keys)[j]) ==>
              IsArrayIndex(ObjectKeyOrder(keys)[i]) && IndexRank(ObjectKeyOrder(keys)[i]) >= IndexRank(ObjectKeyOrder(keys)[j])
  {
    var indices := SortByKeyDesc(Filter(keys, IsArrayIndex), IndexRank);
    var named := Filter(keys, IsNamedKey);
    var r := ObjectKeyOrder(keys);
    assert r == indices + named;
    forall i, j | 0 <= i < j < |r| && IsArrayIndex(r[j])
      ensures IsArrayIndex(r[i]) && IndexRank(r[i]) >= IndexRank(r[j])
    {
      assert r[i] == indices[i] && r[j] == indices[j];
      assert r[i] in multiset(Filter(keys, IsArrayIndex));
    }
  }

  /** The keys that are not array indices keep their insertion order. */
  lemma ObjectKeyOrderNamed(keys: seq<string>)
    ensures Filter(ObjectKeyOrder(keys), IsNamedKey) == Filter(keys, IsNamedKey)
  {
    var indices := SortByKeyDesc(Filter(keys, IsArrayIndex), IndexRank);
    var named := Filter(keys, IsNamedKey);
    assert ObjectKeyOrder(keys) == indices + named;
    FilterAppend(indices, named, IsNamedKey);
    forall i | 0 <= i < |indices|
      ensures IsArrayIndex(indices[i])
    {
      assert indices[i] in multiset(Filter(keys, IsArrayIndex));
    }
    var none := Filter(indices, IsNamedKey);
    assert |none| == 0 || (none[0] in indices && IsNamedKey(none[0]));
    FilterIdempotent(keys, IsNamedKey);
  }

  /** The keys ranked by count, most frequent first; the sort is stable, so
      ties keep the Object.keys order. */
  function Rank(counts: WordCounts): (ranked: seq<string>)
    ensures multiset(ranked) == multiset(counts.keys)
    ensures SortedDesc(ranked, CountOf(counts))
  {
    SortByKeyDesc(ObjectKeyOrder(counts.keys), CountOf(counts))
  }

  /** Words with equal counts are ranked in the order Object.keys lists them. */
  lemma RankTies(counts: WordCounts, n: int)
    ensures Filter(Rank(counts), HasKey(CountOf(counts), n))
         == Filter(ObjectKeyOrder(counts.keys), HasKey(CountOf(counts), n))
  {
    SortIsStable(ObjectKeyOrder(counts.keys), CountOf(counts), n);
  }

  /** The ranking of a tally lists every counted word exactly once. */
  lemma RankOfTally(words: seq<string>)
    ensures NoDuplicates(Rank(Tally(words)))
    ensures forall w :: w in Rank(Tally(words)) <==> w in words
  {
    var t := Tally(words);
    var r := Rank(t);
    NoDuplicatesPermutation(t.keys, r);
    forall w ensures w in r <==> w in words {
      assert w in r <==> w in multiset(t.keys);
      if w in words {
        var i :| 0 <= i < |words| && words[i] == w;
      }
    }
  }

  // ---------------------------------------------------------------------------
  // extractKeywords

  /** The ten most frequent of `words`, most frequent first. */
  function TopTen(words: seq<string>): (top: seq<string>)
    ensures |top| <= 10
  {
    Take(Rank(Tally(words)), 10)
  }

  /** `r` lists words most frequent first. */
  predicate OrderedByOccurrences(words: seq<string>, r: seq<string>) {
    forall i, j :: 0 <= i < j < |r| ==> Occurrences(words, r[i]) >= Occurrences(words, r[j])
  }

  /** Ranking a tally orders the words by their number of occurrences. */
  lemma RankByOccurrences(words: seq<string>)
    ensures OrderedByOccurrences(words, Rank(Tally(words)))
  {
    var t := Tally(words);
    var r := Rank(t);
    forall k | 0 <= k < |r|
      ensures CountOf(t)(r[k]) == Occurrences(words, r[k])
    {
      CountOfTally(words, r[k]);
    }
    SortedByOccurrences(r, CountOf(t), words);
  }

  /** A sequence sorted by a key that agrees with the number of occurrences
      is sorted by the number of occurrences. */
  lemma SortedByOccurrences(r: seq<string>, key: string -> int, words: seq<string>)
    requires SortedDesc(r, key)
    requires forall k :: 0 <= k < |r| ==> key(r[k]) == Occurrences(words, r[k])
    ensures OrderedByOccurrences(words, r)
  {
    forall i, j | 0 <= i < j < |r|
      ensures Occurrences(words, r[i]) >= Occurrences(words, r[j])
    {
      assert key(r[i]) >= key(r[j]);
    }
  }

  /** The words kept are words of the input. */
  lemma TopTenFromWords(words: seq<string>)
    ensures forall i :: 0 <= i < |TopTen(words)| ==> TopTen(words)[i] in words
  {
    RankOfTally(words);
    assert TopTen(words) == Rank(Tally(words))[..|TopTen(words)|];
  }

  /** No word is kept twice. */
  lemma TopTenDistinct(words: seq<string>)
    ensures NoDuplicates(TopTen(words))
  {
    RankOfTally(words);
    assert TopTen(words) == Rank(Tally(words))[..|TopTen(words)|];
  }

  /** The words kept come most frequent first. */
  lemma TopTenOrdered(words: seq<string>)
    ensures forall i, j :: 0 <= i < j < |TopTen(words)| ==>
              Occurrences(words, TopTen(words)[i]) >= Occurrences(words, TopTen(words)[j])
  {
    var r := Rank(Tally(words));
    assert OrderedByOccurrences(words, r) by { RankByOccurrences(words); }
    PrefixOrdered(words, r, 10);
  }

  /** A prefix of a sequence ordered by occurrences is ordered too. */
  lemma PrefixOrdered(words: seq<string>, r: seq<string>, n: nat)
    requires OrderedByOccurrences(words, r)
    ensures OrderedByOccurrences(words, Take(r, n))
  {
  }

  /** In a ranking, a word after the first `n` is no more frequent than
      any of them. */
  lemma LeftOutIsLessFrequent(words: seq<string>, r: seq<string>, n: nat, w: string)
    requires OrderedByOccurrences(words, r)
    requires w in r && w !in Take(r, n)
    ensures |Take(r, n)| == n
    ensures forall i :: 0 <= i < n ==> Occurrences(words, Take(r, n)[i]) >= Occurrences(words, w)
  {
    var j :| 0 <= j < |r| && r[j] == w;
    assert j >= |Take(r, n)|;
  }

  /** A word left out means ten words were kept, each at least as frequent
      as the word left out. */
  lemma TopTenIsMostFrequent(words: seq<string>, w: string)
    requires w in words && w !in TopTen(words)
    ensures |TopTen(words)| == 10
    ensures forall i :: 0 <= i < |TopTen(words)| ==> Occurrences(words, TopTen(words)[i]) >= Occurrences(words, w)
  {
    var r := Rank(Tally(words));
    assert w in r by { RankOfTally(words); }
    assert OrderedByOccurrences(words, r) by { RankByOccurrences(words); }
    LeftOutIsLessFrequent(words, r, 10, w);
  }

  /** The keywords extracted from a page. */
  function KeywordsOf(html: string): (keywords: seq<string>)
    ensures |keywords| <= 10
  {
    TopTen(CandidateWords(html))
  }

  /** extractKeywords: count the candidate words in one pass, rank them and
      keep the first ten. */
  method ExtractKeywords(html: string) returns (keywords: seq<string>)
    ensures keywords == KeywordsOf(html)
  {
    var words := CandidateWords(html);
    var counts := CountWords(words);
    keywords := Take(Rank(counts), 10);
  }

  /** Every keyword is a lower-case word of three or more word characters,
      not a stop-word, and found in the page's text. */
  lemma KeywordsAreKeywords(html: string)
    ensures forall i :: 0 <= i < |KeywordsOf(html)| ==>
              IsKeyword(KeywordsOf(html)[i]) && KeywordsOf(html)[i] in CandidateWords(html)
  {
    var cands := CandidateWords(html);
    TopTenFromWords(cands);
    CandidatesAreKeywords(html);
    DrawnFrom(KeywordsOf(html), cands, IsKeyword);
  }

  /** Words drawn from a list whose every word has a property have it too. */
  lemma DrawnFrom(ks: seq<string>, cands: seq<string>, p: string -> bool)
    requires forall i :: 0 <= i < |ks| ==> ks[i] in cands
    requires forall k :: 0 <= k < |cands| ==> p(cands[k])
    ensures forall i :: 0 <= i < |ks| ==> p(ks[i])
  {
    forall i | 0 <= i < |ks|
      ensures p(ks[i])
    {
      var k :| 0 <= k < |cands| && cands[k] == ks[i];
    }
  }
}

/** The markup escaper used before bookmark text is embedded in an
    address-bar suggestion: the five characters `& < > " '` become the XML
    predefined entities `&amp; &lt; &gt; &quot;` and the numeric character
    reference `&#039;`. */
module Escape {
  import opened Text

  /** String.prototype.replace with a global one-character pattern: every `c`
      in `s` is replaced by `rep`. */
  function ReplaceAll(s: string, c: char, rep: string): string {
    if s == [] then [] else (if s[0] == c then rep else [s[0]]) + ReplaceAll(s[1..], c, rep)
  }

  lemma {:induction false} ReplaceAllAppend(a: string, b: string, c: char, rep: string)
    ensures ReplaceAll(a + b, c, rep) == ReplaceAll(a, c, rep) + ReplaceAll(b, c, rep)
  {
    if a == [] {
      assert a + b == b;
    } else {
      assert (a + b)[1..] == a[1..] + b;
      ReplaceAllAppend(a[1..], b, c, rep);
    }
  }

  /** The escaper as the source writes it: five global replacements, the
      ampersand first so that the entities it introduces are not escaped again. */
  function EscapeHtml(unsafe: string): (r: string)
    ensures '<' !in r && '>' !in r && '"' !in r && '\'' !in r
  {
    var s1 := ReplaceAll(unsafe, '&', "&amp;");
    var s2 := ReplaceAll(s1, '<', "&lt;");
    assert '<' !in s2 by {
      ReplaceAllOmits(s1, '<', "&lt;", '<');
    }
    var s3 := ReplaceAll(s2, '>', "&gt;");
    assert '<' !in s3 && '>' !in s3 by {
      ReplaceAllOmits(s2, '>', "&gt;", '<');
      ReplaceAllOmits(s2, '>', "&gt;", '>');
    }
    var s4 := ReplaceAll(s3, '"', "&quot;");
    assert '<' !in s4 && '>' !in s4 && '"' !in s4 by {
      ReplaceAllOmits(s3, '"', "&quot;", '<');
      ReplaceAllOmits(s3, '"', "&quot;", '>');
      ReplaceAllOmits(s3, '"', "&quot;", '"');
    }
    var s5 := ReplaceAll(s4, '\'', "&#039;");
    assert '<' !in s5 && '>' !in s5 && '"' !in s5 && '\'' !in s5 by {
      ReplaceAllOmits(s4, '\'', "&#039;", '<');
      ReplaceAllOmits(s4, '\'', "&#039;", '>');
      ReplaceAllOmits(s4, '\'', "&#039;", '"');
      ReplaceAllOmits(s4, '\'', "&#039;", '\'');
    }
    s5
  }

  /** After replacing every `c`, a character `d` absent from the replacement
      is absent from the result when it is `c` itself or was absent before. */
  lemma {:induction false} ReplaceAllOmits(s: string, c: char, rep: string, d: char)
    requires d !in rep && (d == c || d !in s)
    ensures d !in ReplaceAll(s, c, rep)
  {
    if s != [] {
      ReplaceAllOmits(s[1..], c, rep, d);
      assert d !in (if s[0] == c then rep else [s[0]]);
    }
  }

  /** The replacement for one character. */
  function EscapeChar(c: char): string {
    match c
    case '&' => "&amp;"
    case '<' => "&lt;"
    case '>' => "&gt;"
    case '"' => "&quot;"
    case '\'' => "&#039;"
    case _ => [c]
  }

  /** Escaping character by character, the reference the chain is compared with. */
  function EscapeEach(s: string): string {
    if s == [] then [] else EscapeChar(s[0]) + EscapeEach(s[1..])
  }

  lemma EscapeHtmlAppend(a: string, b: string)
    ensures EscapeHtml(a + b) == EscapeHtml(a) + EscapeHtml(b)
  {
    var a1, b1 := ReplaceAll(a, '&', "&amp;"), ReplaceAll(b, '&', "&amp;");
    ReplaceAllAppend(a, b, '&', "&amp;");
    var a2, b2 := ReplaceAll(a1, '<', "&lt;"), ReplaceAll(b1, '<', "&lt;");
    ReplaceAllAppend(a1, b1, '<', "&lt;");
    var a3, b3 := ReplaceAll(a2, '>', "&gt;"), ReplaceAll(b2, '>', "&gt;");
    ReplaceAllAppend(a2, b2, '>', "&gt;");
    var a4, b4 := ReplaceAll(a3, '"', "&quot;"), ReplaceAll(b3, '"', "&quot;");
    ReplaceAllAppend(a3, b3, '"', "&quot;");
    ReplaceAllAppend(a4, b4, '\'', "&#039;");
  }

  lemma ReplaceAllSingle(c: char, d: char, rep: string)
    ensures ReplaceAll([c], d, rep) == if c == d then rep else [c]
  {
    assert [c][1..] == [];
  }

  lemma {:induction false} ReplaceAllAbsent(s: string, d: char, rep: string)
    requires d !in s
    ensures ReplaceAll(s, d, rep) == s
  {
    if s != [] {
      ReplaceAllAbsent(s[1..], d, rep);
    }
  }

  /** The later replacements leave an entity `e` alone when none of their
      characters occurs in it. */
  lemma ChainFrom(e: string, k: nat)
    requires k <= 4
    requires k == 0 ==> '&' !in e
    requires k <= 1 ==> '<' !in e
    requires k <= 2 ==> '>' !in e
    requires k <= 3 ==> '"' !in e
    requires '\'' !in e
    ensures Tail(e, k) == e
    decreases 4 - k
  {
    if k < 4 {
      ChainFrom(e, k + 1);
    }
    ReplaceAllAbsent(e, Pattern(k), Replacement(k));
  }

  /** The replaced characters and their replacements, in the order the
      source applies them. */
  function Pattern(k: nat): char
    requires k <= 4
  {
    ['&', '<', '>', '"', '\''][k]
  }

  function Replacement(k: nat): string
    requires k <= 4
  {
    ["&amp;", "&lt;", "&gt;", "&quot;", "&#039;"][k]
  }

  /** Replacements `k` to 4 of the chain applied to `s`. */
  function Tail(s: string, k: nat): string
    requires k <= 4
    decreases 4 - k
  {
    var t := ReplaceAll(s, Pattern(k), Replacement(k));
    if k == 4 then t else Tail(t, k + 1)
  }

  // Each of the five characters becomes its entity: the replacements before
  // its own leave it alone and those after it leave the entity alone.

  lemma EscapeAmp()
    ensures EscapeHtml("&") == "&amp;"
  {
    ReplaceAllSingle('&', '&', "&amp;");
    ChainFrom("&amp;", 1);
    assert EscapeHtml("&") == Tail("&", 0);
  }

  lemma EscapeLt()
    ensures EscapeHtml("<") == "&lt;"
  {
    ReplaceAllSingle('<', '&', "&amp;");
    ReplaceAllSingle('<', '<', "&lt;");
    ChainFrom("&lt;", 2);
    assert EscapeHtml("<") == Tail("<", 0);
  }

  lemma EscapeGt()
    ensures EscapeHtml(">") == "&gt;"
  {
    ReplaceAllSingle('>', '&', "&amp;");
    ReplaceAllSingle('>', '<', "&lt;");
    ReplaceAllSingle('>', '>', "&gt;");
    ChainFrom("&gt;", 3);
    assert EscapeHtml(">") == Tail(">", 0);
  }

  lemma EscapeQuot()
    ensures EscapeHtml("\"") == "&quot;"
  {
    ReplaceAllSingle('"', '&', "&amp;");
    ReplaceAllSingle('"', '<', "&lt;");
    ReplaceAllSingle('"', '>', "&gt;");
    ReplaceAllSingle('"', '"', "&quot;");
    ChainFrom("&quot;", 4);
    assert EscapeHtml("\"") == Tail("\"", 0);
  }

  lemma EscapeApos()
    ensures EscapeHtml("'") == "&#039;"
  {
    ReplaceAllSingle('\'', '&', "&amp;");
    ReplaceAllSingle('\'', '<', "&lt;");
    ReplaceAllSingle('\'', '>', "&gt;");
    ReplaceAllSingle('\'', '"', "&quot;");
    ReplaceAllSingle('\'', '\'', "&#039;");
  }

  /** The chain applied to a string of one character. */
  lemma EscapeHtmlChar(c: char)
    ensures EscapeHtml([c]) == EscapeChar(c)
  {
    if c == '&' {
      EscapeAmp();
    } else if c == '<' {
      EscapeLt();
    } else if c == '>' {
      EscapeGt();
    } else if c == '"' {
      EscapeQuot();
    } else if c == '\'' {
      EscapeApos();
    } else {
      ChainFrom([c], 0);
      assert EscapeHtml([c]) == Tail([c], 0);
    }
  }

  /** The five chained replacements escape each character independently: no
      replacement rewrites text that an earlier one introduced. */
  lemma {:induction false} EscapeHtmlIsPerChar(s: string)
    ensures EscapeHtml(s) == EscapeEach(s)
  {
    if s != [] {
      assert s == [s[0]] + s[1..];
      EscapeHtmlAppend([s[0]], s[1..]);
      EscapeHtmlChar(s[0]);
      EscapeHtmlIsPerChar(s[1..]);
    }
  }

  /** The character that `s` starts with once the five entities are decoded,
      and how many characters it takes up. */
  function DecodeFirst(s: string): (d: (char, nat))
    requires s != []
    ensures 1 <= d.1 <= |s|
  {
    if s[0] != '&' then (s[0], 1)
    else if StartsWith(s, "&amp;") then ('&', 5)
    else if StartsWith(s, "&lt;") then ('<', 4)
    else if StartsWith(s, "&gt;") then ('>', 4)
    else if StartsWith(s, "&quot;") then ('"', 6)
    else if StartsWith(s, "&#039;") then ('\'', 6)
    else ('&', 1)
  }

  /** Decoding of the five entities the escaper produces; any other text is
      kept as it is. */
  function Unescape(s: string): string
    decreases |s|
  {
    if s == [] then []
    else
      var d := DecodeFirst(s);
      [d.0] + Unescape(s[d.1..])
  }

  lemma UnescapeChar(c: char, rest: string)
    ensures Unescape(EscapeChar(c) + rest) == [c] + Unescape(rest)
  {
    var e := EscapeChar(c) + rest;
    assert e[|EscapeChar(c)|..] == rest;
    if c == '&' {
      assert e[..5] == "&amp;";
    } else if c == '<' {
      assert e[..4] == "&lt;";
      assert !StartsWith(e, "&amp;") by { assert e[1] == 'l'; }
    } else if c == '>' {
      assert e[..4] == "&gt;";
      assert !StartsWith(e, "&amp;") && !StartsWith(e, "&lt;") by { assert e[1] == 'g'; }
    } else if c == '"' {
      assert e[..6] == "&quot;";
      assert !StartsWith(e, "&amp;") && !StartsWith(e, "&lt;") && !StartsWith(e, "&gt;") by {
        assert e[1] == 'q';
      }
    } else if c == '\'' {
      assert e[..6] == "&#039;";
      assert !StartsWith(e, "&amp;") && !StartsWith(e, "&lt;") && !StartsWith(e, "&gt;")
          && !StartsWith(e, "&quot;") by {
        assert e[1] == '#';
      }
    } else {
      assert e[0] == c && e[1..] == rest;
    }
  }

  lemma {:induction false} UnescapeEscapeEach(s: string, rest: string)
    ensures Unescape(EscapeEach(s) + rest) == s + Unescape(rest)
  {
    if s != [] {
      assert EscapeEach(s) + rest == EscapeChar(s[0]) + (EscapeEach(s[1..]) + rest);
      UnescapeChar(s[0], EscapeEach(s[1..]) + rest);
      UnescapeEscapeEach(s[1..], rest);
      assert s == [s[0]] + s[1..];
    } else {
      assert EscapeEach(s) + rest == rest;
    }
  }

  /** Unescaping recovers the original text, also when more text follows. */
  lemma UnescapeEscaped(s: string, rest: string)
    ensures Unescape(EscapeHtml(s) + rest) == s + Unescape(rest)
  {
    EscapeHtmlIsPerChar(s);
    UnescapeEscapeEach(s, rest);
  }

  /** Escaped text between two pieces of plain markup-free text keeps the
      whole escaped, and unescaping it recovers the text in place. */
  lemma EscapedBetween(pre: string, s: string, post: string)
    requires IsEscaped(pre) && IsEscaped(post) && '&' !in pre && '&' !in post
    ensures IsEscaped(pre + EscapeHtml(s) + post)
    ensures Unescape(pre + EscapeHtml(s) + post) == pre + s + post
  {
    var e := EscapeHtml(s);
    EscapeHtmlIsEscaped(s);
    EscapedAppend(pre, e);
    EscapedAppend(pre + e, post);
    assert pre + e + post == pre + (e + post);
    UnescapePlain(pre, e + post);
    UnescapeEscaped(s, post);
    UnescapePlain(post, []);
    assert post + [] == post;
  }

  /** Unescaping recovers the original text. */
  lemma EscapeRoundTrip(s: string)
    ensures Unescape(EscapeHtml(s)) == s
  {
    UnescapeEscaped(s, []);
    assert EscapeHtml(s) + [] == EscapeHtml(s);
  }

  /** Text without ampersands is kept by unescaping. */
  lemma {:induction false} UnescapePlain(s: string, rest: string)
    requires '&' !in s
    ensures Unescape(s + rest) == s + Unescape(rest)
  {
    if s != [] {
      assert (s + rest)[1..] == s[1..] + rest;
      UnescapePlain(s[1..], rest);
      assert s == [s[0]] + s[1..];
    } else {
      assert s + rest == rest;
    }
  }

  /** Hence the escaper is injective: distinct texts give distinct markup. */
  lemma EscapeInjective(a: string, b: string)
    requires EscapeHtml(a) == EscapeHtml(b)
    ensures a == b
  {
    EscapeRoundTrip(a);
    EscapeRoundTrip(b);
  }

  predicate IsMarkupChar(c: char) {
    c == '<' || c == '>' || c == '"' || c == '\''
  }

  /** One of the five entities starts at index `i` of `s`. */
  predicate EntityAt(s: string, i: nat)
    requires i <= |s|
  {
    var t := s[i..];
    StartsWith(t, "&amp;") || StartsWith(t, "&lt;") || StartsWith(t, "&gt;")
    || StartsWith(t, "&quot;") || StartsWith(t, "&#039;")
  }

  /** Text that is safe to embed in markup: no markup metacharacter, and every
      ampersand starts an entity. */
  predicate IsEscaped(s: string) {
    forall i :: 0 <= i < |s| ==> !IsMarkupChar(s[i]) && (s[i] == '&' ==> EntityAt(s, i))
  }

  lemma EscapedAppend(a: string, b: string)
    requires IsEscaped(a) && IsEscaped(b)
    ensures IsEscaped(a + b)
  {
    var s := a + b;
    forall i | 0 <= i < |s| && s[i] == '&'
      ensures EntityAt(s, i)
    {
      if i < |a| {
        assert a[i] == '&';
        EntityAtAppend(a, b, i);
      } else {
        assert s[i..] == b[i - |a|..];
        assert b[i - |a|] == '&';
      }
    }
  }

  /** An entity in `a` is still one once text follows. */
  lemma EntityAtAppend(a: string, b: string, i: nat)
    requires i < |a| && EntityAt(a, i)
    ensures EntityAt(a + b, i)
  {
    var t := a[i..];
    assert (a + b)[i..] == t + b;
    if StartsWith(t, "&amp;") {
      StartsWithAppend(t, b, "&amp;");
    } else if StartsWith(t, "&lt;") {
      StartsWithAppend(t, b, "&lt;");
    } else if StartsWith(t, "&gt;") {
      StartsWithAppend(t, b, "&gt;");
    } else if StartsWith(t, "&quot;") {
      StartsWithAppend(t, b, "&quot;");
    } else {
      StartsWithAppend(t, b, "&#039;");
    }
  }

  lemma StartsWithAppend(t: string, u: string, prefix: string)
    requires StartsWith(t, prefix)
    ensures StartsWith(t + u, prefix)
  {
    assert (t + u)[..|prefix|] == t[..|prefix|];
  }

  lemma EscapeCharIsEscaped(c: char)
    ensures IsEscaped(EscapeChar(c))
  {
    var e := EscapeChar(c);
    if c == '&' {
      assert e[0..] == "&amp;";
    } else if c == '<' {
      assert e[0..] == "&lt;";
    } else if c == '>' {
      assert e[0..] == "&gt;";
    } else if c == '"' {
      assert e[0..] == "&quot;";
    } else if c == '\'' {
      assert e[0..] == "&#039;";
    }
  }

  lemma {:induction false} EscapeEachIsEscaped(s: string)
    ensures IsEscaped(EscapeEach(s))
  {
    if s != [] {
      EscapeCharIsEscaped(s[0]);
      EscapeEachIsEscaped(s[1..]);
      EscapedAppend(EscapeChar(s[0]), EscapeEach(s[1..]));
    }
  }

  /** The escaper's output contains none of `< > " '`, and each of its
      ampersands begins one of the five entities. */
  lemma EscapeHtmlIsEscaped(s: string)
    ensures IsEscaped(EscapeHtml(s))
  {
    EscapeHtmlIsPerChar(s);
    EscapeEachIsEscaped(s);
  }
}

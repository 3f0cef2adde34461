/** Character classes and string operations of JavaScript that the extension
    relies on, restricted to what the model needs. Case mapping and the
    regular-expression classes `\w` and `\b` are the ASCII ones. */
module Text {

  predicate IsAsciiUpper(c: char) { 'A' <= c <= 'Z' }

  predicate IsAsciiLower(c: char) { 'a' <= c <= 'z' }

  predicate IsDigit(c: char) { '0' <= c <= '9' }

  /** The regular-expression class `\w`: `[A-Za-z0-9_]`. */
  predicate IsWordChar(c: char) { IsAsciiUpper(c) || IsAsciiLower(c) || IsDigit(c) || c == '_' }

  function LowerChar(c: char): (d: char)
    ensures !IsAsciiUpper(d)
    ensures IsWordChar(d) == IsWordChar(c)
    ensures !IsAsciiUpper(c) ==> d == c
  {
    if IsAsciiUpper(c) then (c as int + 32) as char else c
  }

  /** String.prototype.toLowerCase on ASCII letters. */
  function Lower(s: string): (r: string)
    ensures |r| == |s|
    ensures forall i :: 0 <= i < |s| ==> r[i] == LowerChar(s[i])
  {
    if s == [] then [] else [LowerChar(s[0])] + Lower(s[1..])
  }

  predicate IsLowerCase(s: string) {
    forall i :: 0 <= i < |s| ==> !IsAsciiUpper(s[i])
  }

  lemma LowerIsLowerCase(s: string)
    ensures IsLowerCase(Lower(s))
    ensures Lower(Lower(s)) == Lower(s)
  {
  }

  predicate StartsWith(s: string, prefix: string) {
    |prefix| <= |s| && s[..|prefix|] == prefix
  }

  /** String.prototype.includes: `sub` occurs in `s` at some position. */
  function Includes(s: string, sub: string): bool
    decreases |s|
  {
    StartsWith(s, sub) || (|s| > |sub| && Includes(s[1..], sub))
  }

  /** `sub` occurs in `s` starting at index `i`. */
  predicate OccursAt(s: string, sub: string, i: int) {
    0 <= i <= |s| - |sub| && s[i..i + |sub|] == sub
  }

  /** `Includes` agrees with "there is a position where `sub` starts". */
  lemma {:induction false} IncludesIff(s: string, sub: string)
    ensures Includes(s, sub) <==> exists i :: OccursAt(s, sub, i)
    decreases |s|
  {
    if StartsWith(s, sub) {
      assert OccursAt(s, sub, 0);
    } else if |s| > |sub| {
      IncludesIff(s[1..], sub);
      assert !OccursAt(s, sub, 0);
      forall i | 0 < i
        ensures OccursAt(s, sub, i) <==> OccursAt(s[1..], sub, i - 1)
      {
        OccursShift(s, sub, i);
      }
      if Includes(s[1..], sub) {
        var i :| OccursAt(s[1..], sub, i);
        assert OccursAt(s, sub, i + 1);
      }
    } else {
      forall i | OccursAt(s, sub, i)
        ensures false
      {
      }
    }
  }

  /** An occurrence after the first character is an occurrence in the rest. */
  lemma OccursShift(s: string, sub: string, i: int)
    requires 0 < i && s != []
    ensures OccursAt(s, sub, i) <==> OccursAt(s[1..], sub, i - 1)
  {
    if 0 <= i - 1 <= |s| - 1 - |sub| {
      var a, b := s[i..i + |sub|], s[1..][i - 1..i - 1 + |sub|];
      forall m | 0 <= m < |sub|
        ensures a[m] == b[m]
      {
      }
      assert a == b;
    }
  }

  /** Every string includes the empty string. */
  lemma IncludesEmpty(s: string)
    ensures Includes(s, "")
  {
  }

  /** The whitespace removed by String.prototype.trim: the WhiteSpace code
      points (TAB, VT, FF, ZWNBSP and the Space_Separator category) and the
      LineTerminator code points of the ECMAScript grammar. */
  predicate IsJsWhitespace(c: char) {
    var n := c as int;
    n == 0x09 || n == 0x0A || n == 0x0B || n == 0x0C || n == 0x0D || n == 0x20 || n == 0xA0
    || n == 0x1680 || (0x2000 <= n <= 0x200A) || n == 0x2028 || n == 0x2029 || n == 0x202F
    || n == 0x205F || n == 0x3000 || n == 0xFEFF
  }

  /** Every character of `s` satisfies `p`. */
  predicate All(s: string, p: char -> bool) {
    forall i :: 0 <= i < |s| ==> p(s[i])
  }

  /** The first index at or after `i` whose character does not satisfy `p`,
      or the length of `s`. */
  function SkipForward(s: string, p: char -> bool, i: nat): (j: nat)
    requires i <= |s|
    ensures i <= j <= |s|
    ensures forall m :: i <= m < j ==> p(s[m])
    ensures j == |s| || !p(s[j])
    decreases |s| - i
  {
    if i < |s| && p(s[i]) then SkipForward(s, p, i + 1) else i
  }

  /** The last index, down from `j` to no lower than `lo`, whose preceding
      character does not satisfy `p`, or `lo`. */
  function SkipBackward(s: string, p: char -> bool, lo: nat, j: nat): (e: nat)
    requires lo <= j <= |s|
    ensures lo <= e <= j
    ensures forall m :: e <= m < j ==> p(s[m])
    ensures e == lo || !p(s[e - 1])
    decreases j
  {
    if lo < j && p(s[j - 1]) then SkipBackward(s, p, lo, j - 1) else j
  }

  /** String.prototype.trim: `s` with its leading and trailing whitespace removed. */
  function Trim(s: string): (r: string)
    ensures r == [] || (!IsJsWhitespace(r[0]) && !IsJsWhitespace(r[|r| - 1]))
    ensures exists i, j :: 0 <= i <= j <= |s| && r == s[i..j] && All(s[..i], IsJsWhitespace) && All(s[j..], IsJsWhitespace)
  {
    var a := SkipForward(s, IsJsWhitespace, 0);
    var b := SkipBackward(s, IsJsWhitespace, a, |s|);
    assert All(s[..a], IsJsWhitespace);
    assert All(s[b..], IsJsWhitespace) by {
      forall m | 0 <= m < |s| - b
        ensures IsJsWhitespace(s[b..][m])
      {
        assert s[b..][m] == s[b + m];
      }
    }
    assert TrimBy(s, IsJsWhitespace) == s[a..b];
    TrimBy(s, IsJsWhitespace)
  }

  /** `s` without its leading and trailing characters satisfying `p`. */
  function TrimBy(s: string, p: char -> bool): string {
    var a := SkipForward(s, p, 0);
    s[a..SkipBackward(s, p, a, |s|)]
  }

  /** String.prototype.split with a one-character separator. */
  function Split(s: string, sep: char): (pieces: seq<string>)
    ensures |pieces| >= 1
  {
    if s == [] then [[]]
    else
      var rest := Split(s[1..], sep);
      if s[0] == sep then [[]] + rest else [[s[0]] + rest[0]] + rest[1..]
  }

  /** Array.prototype.join. */
  function Join(pieces: seq<string>, sep: string): string {
    if pieces == [] then []
    else if |pieces| == 1 then pieces[0]
    else pieces[0] + sep + Join(pieces[1..], sep)
  }

  /** Splitting cuts exactly at the separators: no piece holds one, and
      joining the pieces back restores the string. */
  lemma {:induction false} SplitJoin(s: string, sep: char)
    ensures Join(Split(s, sep), [sep]) == s
    ensures forall k :: 0 <= k < |Split(s, sep)| ==> sep !in Split(s, sep)[k]
  {
    if s != [] {
      var rest := Split(s[1..], sep);
      SplitJoin(s[1..], sep);
      if s[0] == sep {
        assert Split(s, sep)[1..] == rest;
        assert s == [sep] + s[1..];
      } else {
        var pieces := Split(s, sep);
        assert pieces[0] == [s[0]] + rest[0];
        assert pieces[1..] == rest[1..];
        assert forall k :: 1 <= k < |pieces| ==> pieces[k] == rest[k];
        if |rest| == 1 {
          assert s == [s[0]] + rest[0];
        } else {
          assert Join(rest, [sep]) == rest[0] + [sep] + Join(rest[1..], [sep]);
          assert s == [s[0]] + s[1..];
        }
      }
    }
  }

  function DigitChar(d: nat): (c: char)
    requires d < 10
    ensures IsDigit(c)
  {
    ('0' as int + d) as char
  }

  predicate IsAllDigits(s: string) {
    forall i :: 0 <= i < |s| ==> IsDigit(s[i])
  }

  /** Number.prototype.toString for a non-negative integer: its decimal digits,
      with no leading zero. */
  function NatToDecimal(n: nat): (r: string)
    ensures |r| >= 1 && IsAllDigits(r)
    ensures r[0] == '0' ==> n == 0
  {
    if n < 10 then [DigitChar(n)] else NatToDecimal(n / 10) + [DigitChar(n % 10)]
  }

  /** The number a string of decimal digits denotes. */
  function DecimalValue(s: string): nat
    requires IsAllDigits(s)
  {
    if s == [] then 0 else 10 * DecimalValue(s[..|s| - 1]) + (s[|s| - 1] as int - '0' as int)
  }

  lemma {:induction false} DecimalRoundTrip(n: nat)
    ensures DecimalValue(NatToDecimal(n)) == n
  {
    if n >= 10 {
      DecimalRoundTrip(n / 10);
      var r := NatToDecimal(n);
      assert r[..|r| - 1] == NatToDecimal(n / 10);
    }
  }

  /** Text without a separator is one piece. */
  lemma {:induction false} SplitWithoutSeparator(s: string, sep: char)
    requires sep !in s
    ensures Split(s, sep) == [s]
  {
    if s != [] {
      SplitWithoutSeparator(s[1..], sep);
      assert s == [s[0]] + s[1..];
    }
  }

  /** Splitting at a separator that follows a piece without separators. */
  lemma {:induction false} SplitAfterPiece(a: string, sep: char, b: string)
    requires sep !in a
    ensures Split(a + [sep] + b, sep) == [a] + Split(b, sep)
  {
    if a == [] {
      assert a + [sep] + b == [sep] + b;
      assert ([sep] + b)[1..] == b;
    } else {
      var s := a + [sep] + b;
      assert s[1..] == a[1..] + [sep] + b;
      SplitAfterPiece(a[1..], sep, b);
      assert a == [a[0]] + a[1..];
    }
  }

  /** A non-separator character joins the first piece. */
  lemma SplitCons(c: char, s: string, sep: char)
    requires c != sep
    ensures Split([c] + s, sep) == [[c] + Split(s, sep)[0]] + Split(s, sep)[1..]
  {
    assert ([c] + s)[1..] == s;
  }

  /** Trimming ignores a leading space. */
  lemma TrimLeadingSpace(s: string)
    ensures Trim(" " + s) == Trim(s)
  {
    TrimByCons(' ', s, IsJsWhitespace);
  }

  /** A leading character satisfying `p` is trimmed away. */
  lemma TrimByCons(c: char, s: string, p: char -> bool)
    requires p(c)
    ensures TrimBy([c] + s, p) == TrimBy(s, p)
  {
    var t, a := [c] + s, SkipForward(s, p, 0);
    var b := SkipBackward(s, p, a, |s|);
    assert SkipForward(t, p, 0) == a + 1 by {
      SkipForwardShift(c, s, p, 0);
      SkipForwardPast(c, s, p);
    }
    assert SkipBackward(t, p, a + 1, |t|) == b + 1 by {
      SkipBackwardShift(c, s, p, a, |s|);
    }
    SliceOfCons(c, s, a, b);
  }

  lemma SkipForwardPast(c: char, s: string, p: char -> bool)
    requires p(c)
    ensures SkipForward([c] + s, p, 0) == SkipForward([c] + s, p, 1)
  {
    assert ([c] + s)[0] == c;
  }

  lemma SliceOfCons(c: char, s: string, a: nat, b: nat)
    requires a <= b <= |s|
    ensures ([c] + s)[a + 1..b + 1] == s[a..b]
  {
    assert ([c] + s)[1..] == s;
  }

  /** Skipping forward in `[c] + s` is skipping forward in `s`, one place on. */
  lemma {:induction false} SkipForwardShift(c: char, s: string, p: char -> bool, i: nat)
    requires i <= |s|
    ensures SkipForward([c] + s, p, i + 1) == SkipForward(s, p, i) + 1
    decreases |s| - i
  {
    if i < |s| {
      assert ([c] + s)[i + 1] == s[i];
      if p(s[i]) {
        SkipForwardShift(c, s, p, i + 1);
      }
    }
  }

  /** Skipping backward in `[c] + s` is skipping backward in `s`, one place on. */
  lemma {:induction false} SkipBackwardShift(c: char, s: string, p: char -> bool, lo: nat, j: nat)
    requires lo <= j <= |s|
    ensures SkipBackward([c] + s, p, lo + 1, j + 1) == SkipBackward(s, p, lo, j) + 1
    decreases j
  {
    if lo < j {
      assert ([c] + s)[j] == s[j - 1];
      if p(s[j - 1]) {
        SkipBackwardShift(c, s, p, lo, j - 1);
      }
    }
  }

  /** A string that does not start or end with whitespace is its own trim. */
  lemma TrimUntrimmed(s: string)
    requires s != [] && !IsJsWhitespace(s[0]) && !IsJsWhitespace(s[|s| - 1])
    ensures Trim(s) == s
  {
  }
}

/**
 * The string operations the game borrows from Swift and Foundation:
 * `lowercased()`, `trimmingCharacters(in: .whitespacesAndNewlines)`,
 * `String.contains(_:)` on a substring and `components(separatedBy: .newlines)`.
 * Characters are Unicode scalar values.
 */
module Text {

  /** Foundation's `whitespacesAndNewlines`: the space separators (category Zs),
      U+2028, U+2029, and the controls U+0009 to U+000D and U+0085. */
  predicate IsWhitespace(c: char) {
    c == ' ' || '\t' <= c <= '\r' || c == '\U{85}' || c == '\U{A0}' || c == '\U{1680}'
    || '\U{2000}' <= c <= '\U{200A}' || c == '\U{2028}' || c == '\U{2029}'
    || c == '\U{202F}' || c == '\U{205F}' || c == '\U{3000}'
  }

  /** Foundation's `newlines`: U+000A to U+000D, U+0085, U+2028 and U+2029. */
  predicate IsNewline(c: char) {
    '\n' <= c <= '\r' || c == '\U{85}' || c == '\U{2028}' || c == '\U{2029}'
  }

  predicate AllWhitespace(s: string) {
    forall k | 0 <= k < |s| :: IsWhitespace(s[k])
  }

  /** The capitals this model lower-cases: Latin A-Z and basic Cyrillic А-Я, Ё. */
  predicate IsCapital(c: char) {
    'A' <= c <= 'Z' || 'А' <= c <= 'Я' || c == 'Ё'
  }

  predicate IsLowered(s: string) {
    forall k | 0 <= k < |s| :: !IsCapital(s[k])
  }

  /** Lower-case mapping of one character; every non-capital maps to itself. */
  function ToLower(c: char): (d: char)
    ensures !IsCapital(d)
    ensures IsWhitespace(d) <==> IsWhitespace(c)
    ensures !IsCapital(c) ==> d == c
    ensures IsCapital(c) && c != 'Ё' ==> d as int == c as int + 32
    ensures c == 'Ё' ==> d == 'ё'
  {
    if 'A' <= c <= 'Z' || 'А' <= c <= 'Я' then (c as int + 32) as char
    else if c == 'Ё' then 'ё'
    else c
  }

  /** `lowercased()`, character by character: no capital is left, everything
      that was not a capital stays where it was, and whitespace stays whitespace. */
  function Lower(s: string): (r: string)
    ensures |r| == |s| && IsLowered(r)
    ensures forall k | 0 <= k < |s| :: !IsCapital(s[k]) ==> r[k] == s[k]
    ensures forall k | 0 <= k < |s| :: IsWhitespace(r[k]) <==> IsWhitespace(s[k])
    ensures forall k | 0 <= k < |s| :: IsCapital(s[k]) && s[k] != 'Ё' ==> r[k] as int == s[k] as int + 32
    ensures forall k | 0 <= k < |s| :: s[k] == 'Ё' ==> r[k] == 'ё'
  {
    seq(|s|, k requires 0 <= k < |s| => ToLower(s[k]))
  }

  /** Number of whitespace characters at the front of `s`. */
  function LeadingSpaces(s: string): (n: nat)
    ensures n <= |s|
    ensures forall k | 0 <= k < n :: IsWhitespace(s[k])
    ensures n < |s| ==> !IsWhitespace(s[n])
  {
    if s != [] && IsWhitespace(s[0]) then 1 + LeadingSpaces(s[1..]) else 0
  }

  /** Number of whitespace characters at the back of `s`. */
  function TrailingSpaces(s: string): (n: nat)
    ensures n <= |s|
    ensures forall k | |s| - n <= k < |s| :: IsWhitespace(s[k])
    ensures n < |s| ==> !IsWhitespace(s[|s| - n - 1])
  {
    if s != [] && IsWhitespace(s[|s| - 1]) then 1 + TrailingSpaces(s[..|s| - 1]) else 0
  }

  /** `trimmingCharacters(in: .whitespacesAndNewlines)`: `s` with its leading
      and trailing whitespace removed, and nothing else changed. */
  function Trim(s: string): (r: string)
    ensures r == [] || (!IsWhitespace(r[0]) && !IsWhitespace(r[|r| - 1]))
    ensures exists i, j :: 0 <= i <= j <= |s| && r == s[i..j]
                           && AllWhitespace(s[..i]) && AllWhitespace(s[j..])
  {
    var i := LeadingSpaces(s);
    var t := s[i..];
    var n := TrailingSpaces(t);
    var j := |s| - n;
    assert AllWhitespace(s[j..]) by {
      forall k | 0 <= k < n ensures IsWhitespace(s[j..][k]) {
        assert s[j..][k] == t[|t| - n + k];
      }
    }
    assert i < j ==> !IsWhitespace(s[j - 1]) by {
      if i < j {
        assert s[j - 1] == t[|t| - n - 1];
      }
    }
    s[i..j]
  }

  /** The normalisation applied to a submitted answer: lower-case, then trim. */
  function Normalize(s: string): (r: string)
    ensures IsLowered(r)
    ensures r == [] || (!IsWhitespace(r[0]) && !IsWhitespace(r[|r| - 1]))
  {
    Trim(Lower(s))
  }

  /** A lower-cased string without surrounding whitespace is left alone by `Normalize`. */
  lemma NormalizeFixes(s: string)
    requires IsLowered(s)
    requires s == [] || (!IsWhitespace(s[0]) && !IsWhitespace(s[|s| - 1]))
    ensures Normalize(s) == s
  {
    assert Lower(s) == s;
    assert LeadingSpaces(s) == 0;
    assert TrailingSpaces(s) == 0;
  }

  /** Normalising twice is normalising once. */
  lemma NormalizeIdempotent(s: string)
    ensures Normalize(Normalize(s)) == Normalize(s)
  {
    NormalizeFixes(Normalize(s));
  }

  /** Leading whitespace of `pre + rest` is exactly `pre` when `rest` starts with a non-space. */
  lemma LeadingSpacesOf(pre: string, rest: string)
    requires AllWhitespace(pre)
    requires rest != [] && !IsWhitespace(rest[0])
    ensures LeadingSpaces(pre + rest) == |pre|
  {
    var s := pre + rest;
    assert s[|pre|] == rest[0];
    assert forall k | 0 <= k < |pre| :: s[k] == pre[k];
  }

  /** Trailing whitespace of `rest + post` is exactly `post` when `rest` ends with a non-space. */
  lemma TrailingSpacesOf(rest: string, post: string)
    requires AllWhitespace(post)
    requires rest != [] && !IsWhitespace(rest[|rest| - 1])
    ensures TrailingSpaces(rest + post) == |post|
  {
    var s := rest + post;
    assert s[|rest| - 1] == rest[|rest| - 1];
    assert forall k | |rest| <= k < |s| :: s[k] == post[k - |rest|];
  }

  lemma LowerAppend(a: string, b: string)
    ensures Lower(a + b) == Lower(a) + Lower(b)
  {
  }

  /** Trimming strips exactly the whitespace padding around a word with non-space ends. */
  lemma TrimPadded(pre: string, w: string, post: string)
    requires AllWhitespace(pre) && AllWhitespace(post)
    requires w == [] || (!IsWhitespace(w[0]) && !IsWhitespace(w[|w| - 1]))
    ensures Trim(pre + w + post) == w
  {
    var l := pre + (w + post);
    assert pre + w + post == l;
    var i := LeadingSpaces(l);
    var t := l[i..];
    if w == [] {
      assert AllWhitespace(l) by {
        assert forall k | 0 <= k < |l| :: l[k] == if k < |pre| then pre[k] else post[k - |pre|];
      }
      assert i == |l|;
    } else {
      assert (w + post)[0] == w[0];
      LeadingSpacesOf(pre, w + post);
      assert t == w + post;
      TrailingSpacesOf(w, post);
      assert t[..|t| - |post|] == w;
    }
  }

  /** `s` with whitespace only around `w`: `Normalize` keeps exactly `w`, lower-cased. */
  lemma NormalizeKeepsInterior(pre: string, w: string, post: string)
    requires AllWhitespace(pre) && AllWhitespace(post)
    requires w == [] || (!IsWhitespace(w[0]) && !IsWhitespace(w[|w| - 1]))
    ensures Normalize(pre + w + post) == Lower(w)
  {
    LowerAppend(pre + w, post);
    LowerAppend(pre, w);
    var lw := Lower(w);
    assert lw == [] || (lw[0] == ToLower(w[0]) && lw[|lw| - 1] == ToLower(w[|w| - 1]));
    TrimPadded(Lower(pre), lw, Lower(post));
  }

  /** `needle` sits in `haystack` starting at position `i`. */
  predicate OccursAt(needle: string, haystack: string, i: nat) {
    i + |needle| <= |haystack| && haystack[i..i + |needle|] == needle
  }

  /** An occurrence after the first position is an occurrence in the tail. */
  lemma OccursInTail(needle: string, haystack: string, i: nat)
    requires 1 <= i && haystack != []
    ensures OccursAt(needle, haystack, i) <==> OccursAt(needle, haystack[1..], i - 1)
  {
    if i + |needle| <= |haystack| {
      assert haystack[i..i + |needle|] == haystack[1..][i - 1..i - 1 + |needle|];
    }
  }

  /** Swift's `haystack.contains(needle)`: `needle` occurs in `haystack` as a
      contiguous run of characters. The empty needle occurs everywhere. */
  predicate IsSubstring(needle: string, haystack: string): (b: bool)
    ensures b <==> exists i: nat :: OccursAt(needle, haystack, i)
    decreases |haystack|
  {
    assert OccursAt(needle, haystack, 0) <==> |needle| <= |haystack| && needle == haystack[..|needle|];
    assert haystack != [] ==> forall j: nat :: OccursAt(needle, haystack[1..], j) ==> OccursAt(needle, haystack, j + 1) by {
      if haystack != [] {
        forall j: nat ensures OccursAt(needle, haystack[1..], j) ==> OccursAt(needle, haystack, j + 1) {
          OccursInTail(needle, haystack, j + 1);
        }
      }
    }
    assert haystack != [] ==> forall i: nat | 1 <= i :: OccursAt(needle, haystack, i) ==> OccursAt(needle, haystack[1..], i - 1) by {
      if haystack != [] {
        forall i: nat | 1 <= i ensures OccursAt(needle, haystack, i) ==> OccursAt(needle, haystack[1..], i - 1) {
          OccursInTail(needle, haystack, i);
        }
      }
    }
    |needle| <= |haystack|
    && (needle == haystack[..|needle|] || IsSubstring(needle, haystack[1..]))
  }

  /** Every slice of a string is a substring of it. */
  lemma {:induction false} SliceIsSubstring(s: string, i: nat, j: nat)
    requires i <= j <= |s|
    ensures IsSubstring(s[i..j], s)
    decreases i
  {
    if i > 0 {
      var t := s[1..];
      assert forall k | 0 <= k < j - i :: t[i - 1..j - 1][k] == s[i..j][k];
      assert s[i..j] == t[i - 1..j - 1];
      SliceIsSubstring(t, i - 1, j - 1);
    }
  }

  /** A substring occurs at some position: `IsSubstring` finds exactly the slices. */
  lemma {:induction false} SubstringIsSlice(needle: string, haystack: string) returns (i: nat)
    requires IsSubstring(needle, haystack)
    ensures i + |needle| <= |haystack| && haystack[i..i + |needle|] == needle
    decreases |haystack|
  {
    if needle == haystack[..|needle|] {
      i := 0;
    } else {
      var k := SubstringIsSlice(needle, haystack[1..]);
      i := k + 1;
      assert haystack[i..i + |needle|] == haystack[1..][k..k + |needle|];
    }
  }

  /** Letters taken from a contiguous run of `haystack` are available in it. */
  lemma {:induction false} SubstringLettersAvailable(needle: string, haystack: string)
    requires IsSubstring(needle, haystack)
    ensures multiset(needle) <= multiset(haystack)
    decreases |haystack|
  {
    if needle == haystack[..|needle|] {
      assert haystack == haystack[..|needle|] + haystack[|needle|..];
    } else {
      SubstringLettersAvailable(needle, haystack[1..]);
      assert haystack == [haystack[0]] + haystack[1..];
    }
  }

  function NewlineCount(s: string): (n: nat)
    ensures n <= |s|
    ensures n == 0 <==> forall k | 0 <= k < |s| :: !IsNewline(s[k])
  {
    if s == [] then 0
    else
      assert forall k | 1 <= k < |s| :: s[k] == s[1..][k - 1];
      (if IsNewline(s[0]) then 1 else 0) + NewlineCount(s[1..])
  }

  /** `components(separatedBy: .newlines)`: the pieces of `s` between newline
      characters. Every newline character separates, so "\r\n" yields an empty
      piece, and a trailing newline an empty last piece. */
  function SplitLines(s: string): (lines: seq<string>)
    ensures |lines| == NewlineCount(s) + 1
    ensures forall k | 0 <= k < |lines| :: NewlineCount(lines[k]) == 0
  {
    if s == [] then [""]
    else
      var rest := SplitLines(s[1..]);
      if IsNewline(s[0]) then [""] + rest
      else
        assert NewlineCount([s[0]] + rest[0]) == 0 by {
          assert ([s[0]] + rest[0])[1..] == rest[0];
        }
        [[s[0]] + rest[0]] + rest[1..]
  }

  /** Joining the pieces with the newline characters they were cut at gives `s` back. */
  function Interleave(lines: seq<string>, seps: string): (s: string)
    requires |lines| == |seps| + 1
  {
    if seps == [] then lines[0]
    else lines[0] + [seps[0]] + Interleave(lines[1..], seps[1..])
  }

  function Newlines(s: string): (seps: string)
    ensures |seps| == NewlineCount(s)
    ensures forall k | 0 <= k < |seps| :: IsNewline(seps[k])
  {
    if s == [] then []
    else if IsNewline(s[0]) then [s[0]] + Newlines(s[1..])
    else Newlines(s[1..])
  }

  /** Prepending a character to the first piece prepends it to the joined text. */
  lemma InterleavePrepend(c: char, lines: seq<string>, seps: string)
    requires |lines| == |seps| + 1
    ensures Interleave([[c] + lines[0]] + lines[1..], seps) == [c] + Interleave(lines, seps)
  {
    var lines' := [[c] + lines[0]] + lines[1..];
    if seps != [] {
      assert lines'[1..] == lines[1..];
      var rest := Interleave(lines[1..], seps[1..]);
      assert ([c] + lines[0]) + [seps[0]] + rest == [c] + (lines[0] + [seps[0]] + rest);
    }
  }

  /** The split loses nothing: the pieces and the separators rebuild the text. */
  lemma {:induction false} SplitLinesRoundTrip(s: string)
    ensures Interleave(SplitLines(s), Newlines(s)) == s
  {
    if s != [] {
      SplitLinesRoundTrip(s[1..]);
      var rest := SplitLines(s[1..]);
      if IsNewline(s[0]) {
        assert ([""] + rest)[1..] == rest;
      } else {
        InterleavePrepend(s[0], rest, Newlines(s[1..]));
      }
      assert s == [s[0]] + s[1..];
    }
  }

  /** A word list that ends with a newline has an empty last line, which
      a random pick can make the root word. */
  lemma {:induction false} LastPieceEmpty(text: string)
    requires text != [] && IsNewline(text[|text| - 1])
    ensures SplitLines(text)[|SplitLines(text)| - 1] == ""
  {
    if |text| > 1 {
      assert text[1..][|text[1..]| - 1] == text[|text| - 1];
      LastPieceEmpty(text[1..]);
      if !IsNewline(text[0]) {
        assert NewlineCount(text[1..]) > 0 by {
          assert IsNewline(text[1..][|text[1..]| - 1]);
        }
      }
    }
  }
}

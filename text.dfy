/** The Python string built-ins the scraper relies on, with Python's semantics:
    `str.strip()`, `str.find`, `str.split(sep)`, `sep.join`, slicing `s[i:j]`
    with negative and out-of-range indices, and `str.splitlines()`. */
module Text {

  /** Python's `str.isspace` for one character: the characters `str.strip()`
      with no argument removes. */
  predicate IsSpace(c: char) {
    || c == ' '
    || ('\t' <= c <= '\r')                 // \t \n \v \f \r
    || ('\U{1C}' <= c <= '\U{1F}')         // file, group, record and unit separators
    || c == '\U{85}' || c == '\U{A0}' || c == '\U{1680}'
    || ('\U{2000}' <= c <= '\U{200A}')
    || c == '\U{2028}' || c == '\U{2029}' || c == '\U{202F}' || c == '\U{205F}' || c == '\U{3000}'
  }

  /** Python's line boundaries for `str.splitlines()` (`\r\n` counts as one). */
  predicate IsLineBreak(c: char) {
    || c == '\n' || c == '\r' || c == '\U{B}' || c == '\U{C}'
    || ('\U{1C}' <= c <= '\U{1E}')
    || c == '\U{85}' || c == '\U{2028}' || c == '\U{2029}'
  }

  /** A string with no whitespace at either end: what `strip()` returns. */
  predicate Stripped(s: string) {
    s == [] || (!IsSpace(s[0]) && !IsSpace(s[|s| - 1]))
  }

  function LeadingSpaces(s: string): (n: nat)
    ensures n <= |s|
    ensures forall i :: 0 <= i < n ==> IsSpace(s[i])
    ensures n < |s| ==> !IsSpace(s[n])
  {
    if s != [] && IsSpace(s[0]) then 1 + LeadingSpaces(s[1..]) else 0
  }

  function TrailingSpaces(s: string): (n: nat)
    ensures n <= |s|
    ensures forall i :: |s| - n <= i < |s| ==> IsSpace(s[i])
    ensures n < |s| ==> !IsSpace(s[|s| - 1 - n])
  {
    if s != [] && IsSpace(s[|s| - 1]) then 1 + TrailingSpaces(s[..|s| - 1]) else 0
  }

  /** Python's `s.strip()`: the longest slice of `s` that neither starts nor
      ends with whitespace, everything cut off being whitespace. */
  function Strip(s: string): (r: string)
    ensures Stripped(r)
    ensures LeadingSpaces(s) + |r| <= |s|
    ensures r == s[LeadingSpaces(s)..LeadingSpaces(s) + |r|]
    ensures forall i :: 0 <= i < LeadingSpaces(s) ==> IsSpace(s[i])
    ensures forall i :: LeadingSpaces(s) + |r| <= i < |s| ==> IsSpace(s[i])
    ensures (forall i :: 0 <= i < |s| ==> IsSpace(s[i])) <==> r == []
  {
    var t := s[LeadingSpaces(s)..];
    t[..|t| - TrailingSpaces(t)]
  }

  /** Stripping a stripped string changes nothing, so `strip()` is idempotent. */
  lemma StripStripped(s: string)
    requires Stripped(s)
    ensures Strip(s) == s
  {
    assert LeadingSpaces(s) == 0;
    assert TrailingSpaces(s) == 0;
  }

  lemma StripIdempotent(s: string)
    ensures Strip(Strip(s)) == Strip(s)
  {
    StripStripped(Strip(s));
  }

  /** Leading whitespace in front of a stripped word is removed by `strip()`. */
  lemma StripSpaceThenWord(w: string)
    requires w != [] && Stripped(w)
    ensures Strip(" " + w) == w
  {
    var s := " " + w;
    assert LeadingSpaces(s) == 1 + LeadingSpaces(w) by { assert s[1..] == w; }
    assert LeadingSpaces(w) == 0;
    assert TrailingSpaces(s[1..]) == 0 by { assert s[1..] == w; }
    assert s[1..][..|s[1..]|] == w;
  }

  /** `pat` occurs in `s` starting at index `i`. */
  predicate OccursAt(s: string, pat: string, i: nat) {
    i + |pat| <= |s| && s[i..i + |pat|] == pat
  }

  /** Python's `s.find(pat)`: the lowest index at which `pat` occurs, or -1. */
  function Find(s: string, pat: string): (r: int)
    ensures -1 <= r <= |s|
    ensures r >= 0 ==> OccursAt(s, pat, r)
    ensures r >= 0 ==> forall j :: 0 <= j < r ==> !OccursAt(s, pat, j)
    ensures r < 0 <==> forall j :: 0 <= j <= |s| ==> !OccursAt(s, pat, j)
    decreases |s|
  {
    if OccursAt(s, pat, 0) then 0
    else if s == [] then -1
    else
      var r := Find(s[1..], pat);
      assert forall j :: 1 <= j <= |s| ==> (OccursAt(s, pat, j) <==> OccursAt(s[1..], pat, j - 1)) by {
        forall j | 1 <= j <= |s| ensures OccursAt(s, pat, j) <==> OccursAt(s[1..], pat, j - 1) {
          if j + |pat| <= |s| { assert s[1..][j - 1..j - 1 + |pat|] == s[j..j + |pat|]; }
        }
      }
      if r < 0 then -1 else r + 1
  }

  /** Python's `pat in s` for strings. */
  predicate Contains(s: string, pat: string) {
    Find(s, pat) >= 0
  }

  /** A single character is contained exactly when it occurs at some index. */
  lemma ContainsChar(s: string, c: char)
    ensures Contains(s, [c]) <==> c in s
  {
    if c in s {
      var j :| 0 <= j < |s| && s[j] == c;
      assert OccursAt(s, [c], j);
    }
    forall j | 0 <= j < |s| && OccursAt(s, [c], j) ensures s[j] == c {
      assert s[j..j + 1][0] == s[j];
    }
  }

  /** A pattern with a character that the string lacks does not occur in it. */
  lemma MissingCharNotContained(s: string, pat: string, c: char)
    requires c in pat && c !in s
    ensures !Contains(s, pat)
  {
  }

  /** A character that is not whitespace survives `strip()`. */
  lemma StripKeepsNonSpace(s: string, c: char)
    requires c in s && !IsSpace(c)
    ensures c in Strip(s)
  {
    var j :| 0 <= j < |s| && s[j] == c;
    var r, a := Strip(s), LeadingSpaces(s);
    assert a <= j < a + |r|;
    assert s[a..a + |r|][j - a] == s[j];
  }

  /** Python's `sep.join(parts)`. */
  function Join(parts: seq<string>, sep: string): string {
    if parts == [] then ""
    else if |parts| == 1 then parts[0]
    else parts[0] + sep + Join(parts[1..], sep)
  }

  /** Python's `s.split(sep)` for a non-empty separator: the pieces between
      non-overlapping occurrences of `sep`, scanning left to right. There is
      always at least one piece, none contains `sep`, and joining the pieces
      with `sep` gives `s` back. */
  function Split(s: string, sep: string): (r: seq<string>)
    requires sep != []
    ensures r != []
    ensures Join(r, sep) == s
    ensures forall k :: 0 <= k < |r| ==> !Contains(r[k], sep)
    decreases |s|
  {
    var i := Find(s, sep);
    if i < 0 then [s]
    else
      var head, rest := s[..i], s[i + |sep|..];
      assert s == head + sep + rest;
      assert !Contains(head, sep) by {
        forall j | 0 <= j <= |head| ensures !OccursAt(head, sep, j) {
          if OccursAt(head, sep, j) {
            assert head[j..j + |sep|] == s[j..j + |sep|];
            assert OccursAt(s, sep, j);
          }
        }
      }
      var tail := Split(rest, sep);
      assert [head] + tail != [];
      assert ([head] + tail)[1..] == tail;
      [head] + tail
  }

  /** Where the separator is first found at `i`, the first piece ends there and the rest is split after it. */
  lemma SplitAt(s: string, sep: string, i: nat)
    requires sep != [] && Find(s, sep) == i
    ensures Split(s, sep) == [s[..i]] + Split(s[i + |sep|..], sep)
  {
  }

  /** Where a character not in `a` is looked for in `a + [c] + b`, it is found at `|a|`. */
  lemma FindCharAfter(a: string, c: char, b: string)
    requires c !in a
    ensures Find(a + [c] + b, [c]) == |a|
  {
    var s := a + [c] + b;
    assert OccursAt(s, [c], |a|) by { assert s[|a|..|a| + 1] == [c]; }
    forall j | 0 <= j < |a| ensures !OccursAt(s, [c], j) {
      assert s[j] == a[j];
    }
  }

  /** Concatenation regrouped: a prefix, a word and the separators around a joined rest. */
  lemma RegroupJoin(p: string, a: string, sep: string, c: string, rest: string)
    ensures p + (a + sep + (c + sep + rest)) == (p + a) + sep + c + sep + rest
  {
  }

  /** A string without the character is one piece. */
  lemma SplitNoChar(a: string, c: char)
    requires c !in a
    ensures Split(a, [c]) == [a]
  {
    ContainsChar(a, c);
  }

  /** The first occurrence of a character ends the first piece. */
  lemma SplitAfterChar(a: string, c: char, t: string)
    requires c !in a
    ensures Split(a + [c] + t, [c]) == [a] + Split(t, [c])
  {
    var s := a + [c] + t;
    FindCharAfter(a, c, t);
    SplitAt(s, [c], |a|);
    assert s[..|a|] == a;
    assert s[|a| + 1..] == t;
  }

  /** Splitting on one character undoes joining with it, when no part contains it. */
  lemma {:induction false} SplitJoinChar(parts: seq<string>, c: char)
    requires parts != []
    requires forall k :: 0 <= k < |parts| ==> c !in parts[k]
    ensures Split(Join(parts, [c]), [c]) == parts
  {
    var s := Join(parts, [c]);
    if |parts| == 1 {
      assert s == parts[0];
      if Find(s, [c]) >= 0 {
        ContainsChar(s, c);
      }
    } else {
      var rest := Join(parts[1..], [c]);
      assert s == parts[0] + [c] + rest;
      FindCharAfter(parts[0], c, rest);
      SplitAt(s, [c], |parts[0]|);
      assert s[..|parts[0]|] == parts[0];
      assert s[|parts[0]| + 1..] == rest;
      SplitJoinChar(parts[1..], c);
      assert parts == [parts[0]] + parts[1..];
    }
  }

  /** A character that is in no part and not in the separator is not in the join. */
  lemma {:induction false} JoinKeepsOut(parts: seq<string>, sep: string, c: char)
    requires c !in sep
    requires forall k :: 0 <= k < |parts| ==> c !in parts[k]
    ensures c !in Join(parts, sep)
    decreases |parts|
  {
    if |parts| > 1 {
      JoinKeepsOut(parts[1..], sep, c);
    }
  }

  /** Where `a` holds no ", ", the first ", " in `a + ", " + t` is the one
      right after `a`: one starting at `a`'s last character would need a space
      where the comma stands. */
  lemma FindCommaSpaceAfter(a: string, t: string)
    requires !Contains(a, ", ")
    ensures Find(a + ", " + t, ", ") == |a|
  {
    var s := a + ", " + t;
    assert OccursAt(s, ", ", |a|) by { assert s[|a|..|a| + 2] == ", "; }
    forall j | 0 <= j < |a| ensures !OccursAt(s, ", ", j) {
      if j + 2 <= |a| {
        assert s[j..j + 2] == a[j..j + 2];
        assert !OccursAt(a, ", ", j);
      } else {
        assert s[j + 1] == ',';
      }
    }
  }

  /** Splitting at ", " undoes joining with it, when no part contains ", ". */
  lemma {:induction false} SplitJoinCommaSpace(parts: seq<string>)
    requires parts != []
    requires forall k :: 0 <= k < |parts| ==> !Contains(parts[k], ", ")
    ensures Split(Join(parts, ", "), ", ") == parts
    decreases |parts|
  {
    var s := Join(parts, ", ");
    if |parts| == 1 {
      assert s == parts[0];
    } else {
      var rest := Join(parts[1..], ", ");
      assert s == parts[0] + ", " + rest;
      FindCommaSpaceAfter(parts[0], rest);
      SplitAt(s, ", ", |parts[0]|);
      assert s[..|parts[0]|] == parts[0];
      assert s[|parts[0]| + 2..] == rest;
      SplitJoinCommaSpace(parts[1..]);
      assert parts == [parts[0]] + parts[1..];
    }
  }

  /** Python's normalisation of a slice bound: a negative index counts from
      the end, and the result is clamped to `0..n`. */
  function SliceIndex(i: int, n: nat): (k: nat)
    ensures k <= n
    ensures 0 <= i <= n ==> k == i
    ensures -(n as int) <= i < 0 ==> k == n + i
    ensures i > n ==> k == n
    ensures i < -(n as int) ==> k == 0
  {
    if i < 0 then (if n + i < 0 then 0 else n + i)
    else if i > n then n
    else i
  }

  /** Python's `s[start:end]`: empty when the normalised start is not before the normalised end. */
  function Slice(s: string, start: int, end: int): (r: string)
    ensures |r| <= |s|
    ensures SliceIndex(start, |s|) < SliceIndex(end, |s|) ==> r == s[SliceIndex(start, |s|)..SliceIndex(end, |s|)]
    ensures SliceIndex(end, |s|) <= SliceIndex(start, |s|) ==> r == []
  {
    var a, b := SliceIndex(start, |s|), SliceIndex(end, |s|);
    if a < b then s[a..b] else []
  }

  /** Index of the first line boundary in `s`, or `|s|` when there is none. */
  function LineEnd(s: string): (i: nat)
    ensures i <= |s|
    ensures forall j :: 0 <= j < i ==> !IsLineBreak(s[j])
    ensures i < |s| ==> IsLineBreak(s[i])
  {
    if s == [] || IsLineBreak(s[0]) then 0 else 1 + LineEnd(s[1..])
  }

  /** Python's `s.splitlines()`: the lines between boundaries, with no trailing
      empty line and `\r\n` taken as one boundary. */
  function SplitLines(s: string): (r: seq<string>)
    ensures s == [] <==> r == []
    ensures r != [] ==> r[0] == s[..LineEnd(s)]
    ensures forall k :: 0 <= k < |r| ==> forall j :: 0 <= j < |r[k]| ==> !IsLineBreak(r[k][j])
    decreases |s|
  {
    if s == [] then []
    else
      var i := LineEnd(s);
      if i == |s| then [s]
      else
        var width := if s[i] == '\r' && i + 1 < |s| && s[i + 1] == '\n' then 2 else 1;
        [s[..i]] + SplitLines(s[i + width..])
  }

  /** A string without line boundaries. */
  predicate NoLineBreak(a: string) {
    forall j :: 0 <= j < |a| ==> !IsLineBreak(a[j])
  }

  /** In front of a boundary, the first boundary is where the break-free prefix ends. */
  lemma LineEndAfter(a: string, rest: string)
    requires NoLineBreak(a) && rest != [] && IsLineBreak(rest[0])
    ensures LineEnd(a + rest) == |a|
  {
    var s := a + rest;
    var i := LineEnd(s);
    assert s[|a|] == rest[0];
    assert forall j :: 0 <= j < |a| ==> s[j] == a[j];
  }

  /** A non-empty string without boundaries is one line. */
  lemma SplitLinesOneLine(a: string)
    requires a != [] && NoLineBreak(a)
    ensures SplitLines(a) == [a]
  {
  }

  /** A single-character boundary ends the line in front of it; a `\r`
      counts alone when no `\n` follows it. */
  lemma SplitLinesAtBreak(a: string, c: char, t: string)
    requires NoLineBreak(a) && IsLineBreak(c)
    requires c == '\r' ==> t == [] || t[0] != '\n'
    ensures SplitLines(a + [c] + t) == [a] + SplitLines(t)
  {
    var s := a + ([c] + t);
    assert a + [c] + t == s;
    LineEndAfter(a, [c] + t);
    assert s[|a|] == c;
    assert |a| + 1 < |s| ==> s[|a| + 1] == t[0];
    assert s[..|a|] == a;
    assert s[|a| + 1..] == t;
    assert SplitLines(s) == [s[..|a|]] + SplitLines(s[|a| + 1..]);
  }

  /** `\r\n` is one boundary: the line in front of it ends there. */
  lemma SplitLinesAtCrLf(a: string, t: string)
    requires NoLineBreak(a)
    ensures SplitLines(a + "\r\n" + t) == [a] + SplitLines(t)
  {
    var rest := ['\r', '\n'] + t;
    var s := a + rest;
    assert a + "\r\n" + t == s;
    LineEndAfter(a, rest);
    assert s[|a|] == '\r' && s[|a| + 1] == '\n';
    assert s[..|a|] == a;
    assert s[|a| + 2..] == t;
    assert SplitLines(s) == [s[..|a|]] + SplitLines(s[|a| + 2..]);
  }
}

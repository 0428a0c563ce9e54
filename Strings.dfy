/** The JavaScript string primitives the page script relies on:
    `toLowerCase` (restricted to ASCII), `trim`, `includes`, `replace`
    with a string pattern, and the case-insensitive literal match that a
    `gi` regular expression performs on a pattern without metacharacters.
    `IndexOf`, the leftmost-occurrence search, is what `includes` and
    `replace` are stated with. */
module Strings {
  import opened Wrappers

  // ---------------------------------------------------------------- case

  predicate IsUpper(c: char) { 'A' <= c <= 'Z' }

  /** ASCII case folding of one character. */
  function LowerChar(c: char): (d: char)
    ensures IsUpper(c) ==> d as int == c as int + 32
    ensures !IsUpper(c) ==> d == c
    ensures !IsUpper(d)
  {
    if IsUpper(c) then (c as int + 32) as char else c
  }

  /** `s.toLowerCase()`, with ASCII case folding only. */
  function ToLower(s: string): (r: string)
    ensures |r| == |s|
    ensures forall i :: 0 <= i < |s| ==> r[i] == LowerChar(s[i])
  {
    if s == [] then [] else [LowerChar(s[0])] + ToLower(s[1..])
  }

  /** Lowering commutes with taking a slice. */
  lemma ToLowerSlice(s: string, i: nat, j: nat)
    requires i <= j <= |s|
    ensures ToLower(s)[i..j] == ToLower(s[i..j])
  {
    var a, b := ToLower(s)[i..j], ToLower(s[i..j]);
    forall k | 0 <= k < |a| ensures a[k] == b[k] {
      assert a[k] == ToLower(s)[i + k];
      assert s[i..j][k] == s[i + k];
    }
  }

  /** Lowering twice is lowering once. */
  lemma ToLowerIdempotent(s: string)
    ensures ToLower(ToLower(s)) == ToLower(s)
  {
    assert forall i :: 0 <= i < |s| ==> ToLower(ToLower(s))[i] == ToLower(s)[i];
  }

  // ---------------------------------------------------------------- trim

  /** The characters `String.prototype.trim` strips: ECMAScript WhiteSpace
      (tab, vertical tab, form feed, space, no-break space, zero-width
      no-break space and the Unicode space separators) and LineTerminator
      (line feed, carriage return, line and paragraph separators). */
  predicate IsSpace(c: char)
  {
    c == '\t' || c == '\U{000B}' || c == '\U{000C}' || c == ' ' ||
    c == '\U{00A0}' || c == '\U{FEFF}' || c == '\n' || c == '\r' ||
    c == '\U{2028}' || c == '\U{2029}' || c == '\U{1680}' ||
    ('\U{2000}' <= c <= '\U{200A}') || c == '\U{202F}' || c == '\U{205F}' ||
    c == '\U{3000}'
  }

  predicate AllSpace(s: string)
  {
    forall i :: 0 <= i < |s| ==> IsSpace(s[i])
  }

  /** Strips leading white space; `TrimStartSuffix` states what it
      keeps. */
  function TrimStart(s: string): (r: string)
    ensures |r| <= |s|
  {
    if s != [] && IsSpace(s[0]) then TrimStart(s[1..]) else s
  }

  /** The result of `TrimStart` is a suffix of `s`, what was dropped is all
      white space, and the result does not start with any. */
  lemma {:induction false} TrimStartSuffix(s: string)
    ensures TrimStart(s) == s[|s| - |TrimStart(s)|..]
    ensures AllSpace(s[..|s| - |TrimStart(s)|])
    ensures TrimStart(s) == [] || !IsSpace(TrimStart(s)[0])
    decreases |s|
  {
    if s != [] && IsSpace(s[0]) {
      var t := s[1..];
      var r := TrimStart(t);
      TrimStartSuffix(t);
      assert r == t[|t| - |r|..] && AllSpace(t[..|t| - |r|]);
      assert s[|s| - |r|..] == t[|t| - |r|..];
      var dropped := s[..|s| - |r|];
      assert dropped == [s[0]] + t[..|t| - |r|];
      forall i | 0 <= i < |dropped| ensures IsSpace(dropped[i]) {
        if i > 0 { assert dropped[i] == t[..|t| - |r|][i - 1]; }
      }
    }
  }

  /** Strips trailing white space: the result is a prefix of `s`, what was
      dropped is all white space, and the result does not end with any. */
  function TrimEnd(s: string): (r: string)
    ensures |r| <= |s| && r == s[..|r|]
    ensures AllSpace(s[|r|..])
    ensures r == [] || !IsSpace(r[|r| - 1])
  {
    if s != [] && IsSpace(s[|s| - 1]) then
      var r := TrimEnd(s[..|s| - 1]);
      assert s[|r|..] == s[..|s| - 1][|r|..] + [s[|s| - 1]];
      r
    else s
  }

  /** How many white-space characters `trim` drops at the start. */
  function TrimOffset(s: string): (lo: nat)
    ensures lo <= |s| && AllSpace(s[..lo])
    ensures lo < |s| ==> !IsSpace(s[lo])
  {
    TrimStartSuffix(s);
    |s| - |TrimStart(s)|
  }

  /** `s.trim()`: the result is the slice of `s` that starts after the
      leading white space, with only white space after it, and it neither
      starts nor ends with white space. */
  function Trim(s: string): (r: string)
    ensures TrimOffset(s) + |r| <= |s|
    ensures r == s[TrimOffset(s)..TrimOffset(s) + |r|]
    ensures AllSpace(s[TrimOffset(s) + |r|..])
    ensures r == [] || (!IsSpace(r[0]) && !IsSpace(r[|r| - 1]))
  {
    var t := TrimStart(s);
    var r := TrimEnd(t);
    var lo := |s| - |t|;
    TrimStartSuffix(s);
    assert t == s[lo..];
    SliceOfSuffix(s, lo, |r|);
    r
  }

  lemma SliceOfSuffix(s: string, lo: nat, k: nat)
    requires lo + k <= |s|
    ensures s[lo..][..k] == s[lo..lo + k]
    ensures s[lo..][k..] == s[lo + k..]
  {
  }

  /** A string trims to nothing exactly when it is all white space. */
  lemma TrimEmptyIffAllSpace(s: string)
    ensures Trim(s) == [] <==> AllSpace(s)
  {
    var r := Trim(s);
    var lo := TrimOffset(s);
    if r == [] {
      assert lo == |s|;
      assert s == s[..lo];
    } else {
      assert s[lo] == r[0];
    }
  }

  // ---------------------------------------------------------------- search

  /** `pat` occurs in `s` starting at index `i`. */
  predicate OccursAt(s: string, pat: string, i: int)
  {
    0 <= i && i + |pat| <= |s| && s[i..i + |pat|] == pat
  }

  /** `i` is the leftmost occurrence of `pat` in `s`. */
  predicate FirstOccurrence(s: string, pat: string, i: int)
  {
    OccursAt(s, pat, i) && forall j :: 0 <= j < i ==> !OccursAt(s, pat, j)
  }

  /** The leftmost occurrence of `pat` in `s` at or after `from`. */
  function IndexFrom(s: string, pat: string, from: nat): (r: Option<nat>)
    decreases |s| - from
    ensures r.Some? ==> from <= r.value && OccursAt(s, pat, r.value) &&
                        forall j :: from <= j < r.value ==> !OccursAt(s, pat, j)
    ensures r.None? ==> forall j :: from <= j ==> !OccursAt(s, pat, j)
  {
    if from + |pat| > |s| then None
    else if s[from..from + |pat|] == pat then Some(from)
    else IndexFrom(s, pat, from + 1)
  }

  /** `s.indexOf(pat)`, with "not found" as `None`. */
  function IndexOf(s: string, pat: string): (r: Option<nat>)
    ensures r.Some? <==> exists i :: OccursAt(s, pat, i)
    ensures r.Some? ==> FirstOccurrence(s, pat, r.value)
  {
    IndexFrom(s, pat, 0)
  }

  /** `s.includes(pat)`. */
  function Contains(s: string, pat: string): (b: bool)
    ensures b <==> exists i :: OccursAt(s, pat, i)
  {
    IndexOf(s, pat).Some?
  }

  /** `s.replace(pat, rep)` with a string pattern and a replacement without
      `$` patterns: only the leftmost occurrence is replaced, and a string
      without an occurrence is returned unchanged. */
  function ReplaceFirst(s: string, pat: string, rep: string): (r: string)
    ensures (forall i :: !OccursAt(s, pat, i)) ==> r == s
    ensures forall i :: FirstOccurrence(s, pat, i) ==>
              r == s[..i] + rep + s[i + |pat|..]
  {
    match IndexOf(s, pat)
    case None => s
    case Some(i) => s[..i] + rep + s[i + |pat|..]
  }

  // ------------------------------------------------- case-insensitive match

  /** `q` matches `t` at index `i` ignoring case. */
  predicate MatchAt(t: string, i: int, q: string)
  {
    0 <= i && i + |q| <= |t| && ToLower(t[i..i + |q|]) == ToLower(q)
  }

  ghost predicate ContainsIgnoringCase(t: string, q: string)
  {
    exists i :: MatchAt(t, i, q)
  }

  /** A case-insensitive match is an occurrence in the lowered strings. */
  lemma MatchAtIffOccursLowered(t: string, q: string, i: int)
    ensures MatchAt(t, i, q) <==> OccursAt(ToLower(t), ToLower(q), i)
  {
    if 0 <= i && i + |q| <= |t| {
      ToLowerSlice(t, i, i + |q|);
    }
  }

  /** `t.toLowerCase().includes(q.toLowerCase())` is the case-insensitive
      containment test. */
  lemma ContainsLoweredIff(t: string, q: string)
    ensures Contains(ToLower(t), ToLower(q)) <==> ContainsIgnoringCase(t, q)
  {
    if Contains(ToLower(t), ToLower(q)) {
      var i :| OccursAt(ToLower(t), ToLower(q), i);
      MatchAtIffOccursLowered(t, q, i);
    }
    if ContainsIgnoringCase(t, q) {
      var i :| MatchAt(t, i, q);
      MatchAtIffOccursLowered(t, q, i);
    }
  }
}

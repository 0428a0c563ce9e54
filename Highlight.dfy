/** Highlighting the search term inside one text node. The page builds a
    global, case-insensitive regular expression from the term and wraps
    every match in a highlight span, keeping the matched characters as
    they were written. For a term without regular-expression
    metacharacters that is a literal, case-insensitive, left-to-right,
    non-overlapping search; the model splits the node's text into plain
    and highlighted segments and renders them as the nodes that replace
    the text node. */
module Highlight {
  import opened Strings
  import opened Dom

  datatype Segment = Plain(text: string) | Hit(text: string)

  /** Characters with a special meaning in a JavaScript regular
      expression. */
  predicate IsRegexMeta(c: char)
  {
    c == '\\' || c == '^' || c == '$' || c == '.' || c == '|' || c == '?' ||
    c == '*' || c == '+' || c == '(' || c == ')' || c == '[' || c == ']' ||
    c == '{' || c == '}'
  }

  predicate NoRegexMeta(q: string)
  {
    forall i :: 0 <= i < |q| ==> !IsRegexMeta(q[i])
  }

  /** Adds one character in front of a segment list, as plain text. */
  function PrependChar(c: char, segs: seq<Segment>): (r: seq<Segment>)
  {
    if segs != [] && segs[0].Plain? then [Plain([c] + segs[0].text)] + segs[1..]
    else [Plain([c])] + segs
  }

  /** The segments of `t` for the term `q`: scanning left to right, a
      match of `q` (ignoring case) at the current position becomes a
      highlighted segment and the scan resumes after it; any other
      character joins the current plain segment. */
  function Segments(t: string, q: string): (segs: seq<Segment>)
    requires q != []
    decreases |t|
  {
    if t == [] then []
    else if MatchAt(t, 0, q) then [Hit(t[..|q|])] + Segments(t[|q|..], q)
    else PrependChar(t[0], Segments(t[1..], q))
  }

  function Concat(segs: seq<Segment>): string
  {
    if segs == [] then [] else segs[0].text + Concat(segs[1..])
  }

  predicate HasHit(segs: seq<Segment>)
  {
    exists j :: 0 <= j < |segs| && segs[j].Hit?
  }

  // ------------------------------------------ what a segmentation must be

  /** No match of `q` starts at any index in `lo..hi`. */
  ghost predicate NoMatchIn(t: string, q: string, lo: int, hi: int)
  {
    forall i :: lo <= i < hi ==> !MatchAt(t, i, q)
  }

  /** Segment `s` begins the text `t`: it is the text's own first
      characters; a highlighted one is a match of `q` there, and no match of
      `q` starts inside a plain one. */
  ghost predicate SegmentOk(t: string, q: string, s: Segment)
  {
    |s.text| <= |t| && t[..|s.text|] == s.text &&
    (s.Hit? ==> |s.text| == |q| && MatchAt(t, 0, q)) &&
    (s.Plain? ==> NoMatchIn(t, q, 0, |s.text|))
  }

  /** `segs` spells out `t` segment by segment, each one correct where it
      sits. */
  ghost predicate Describes(t: string, q: string, segs: seq<Segment>)
    decreases |segs|
  {
    if segs == [] then t == []
    else SegmentOk(t, q, segs[0]) && Describes(t[|segs[0].text|..], q, segs[1..])
  }

  /** No empty plain segment and no two plain segments in a row. */
  predicate Tidy(segs: seq<Segment>)
  {
    (forall j :: 0 <= j < |segs| && segs[j].Plain? ==> segs[j].text != []) &&
    (forall j :: 0 < j < |segs| ==> !(segs[j - 1].Plain? && segs[j].Plain?))
  }

  // ------------------------------------------------------------- helpers

  lemma {:induction false} MatchAtShift(t: string, q: string, d: nat, i: int)
    requires d <= |t| && 0 <= i
    ensures MatchAt(t[d..], i, q) <==> MatchAt(t, d + i, q)
  {
    if 0 <= i && i + |q| <= |t| - d {
      assert t[d..][i..i + |q|] == t[d + i..d + i + |q|];
    }
  }

  /** A correct segmentation spells out the text. */
  lemma {:induction false} DescribesConcat(t: string, q: string, segs: seq<Segment>)
    requires Describes(t, q, segs)
    ensures Concat(segs) == t
    decreases |segs|
  {
    if segs != [] {
      var d := |segs[0].text|;
      DescribesConcat(t[d..], q, segs[1..]);
      assert t == t[..d] + t[d..];
    }
  }

  lemma {:induction false} DescribesCons(t: string, q: string, s: Segment, r: seq<Segment>)
    requires SegmentOk(t, q, s) && Describes(t[|s.text|..], q, r)
    ensures Describes(t, q, [s] + r)
  {
    assert ([s] + r)[0] == s && ([s] + r)[1..] == r;
  }

  lemma {:induction false} DescribesTail(t: string, q: string, s: Segment, r: seq<Segment>)
    requires Describes(t, q, [s] + r)
    ensures SegmentOk(t, q, s) && Describes(t[|s.text|..], q, r)
  {
    assert ([s] + r)[0] == s && ([s] + r)[1..] == r;
  }

  /** A plain segment can take one more non-matching character in
      front. */
  lemma {:induction false} DescribesGrowPlain(t: string, q: string, p: string, r: seq<Segment>)
    requires t != [] && !MatchAt(t, 0, q)
    requires Describes(t[1..], q, [Plain(p)] + r)
    ensures Describes(t, q, [Plain([t[0]] + p)] + r)
  {
    var t' := t[1..];
    DescribesTail(t', q, Plain(p), r);
    var s := Plain([t[0]] + p);
    assert t[..|s.text|] == s.text by {
      assert t[..|s.text|] == [t[0]] + t'[..|p|];
    }
    assert t[|s.text|..] == t'[|p|..];
    assert NoMatchIn(t, q, 0, |s.text|) by {
      forall i | 0 <= i < |s.text| ensures !MatchAt(t, i, q) {
        if i > 0 {
          MatchAtShift(t, q, 1, i - 1);
        }
      }
    }
    DescribesCons(t, q, s, r);
  }

  /** The converse: a plain segment of two or more characters gives up its
      first one. */
  lemma {:induction false} DescribesShrinkPlain(t: string, q: string, p: string, r: seq<Segment>)
    requires |p| >= 2
    requires Describes(t, q, [Plain(p)] + r)
    ensures Describes(t[1..], q, [Plain(p[1..])] + r)
  {
    DescribesTail(t, q, Plain(p), r);
    var t' := t[1..];
    var s := Plain(p[1..]);
    assert t'[..|s.text|] == s.text;
    assert t'[|s.text|..] == t[|p|..];
    assert NoMatchIn(t', q, 0, |s.text|) by {
      forall i | 0 <= i < |s.text| ensures !MatchAt(t', i, q) {
        MatchAtShift(t, q, 1, i);
      }
    }
    DescribesCons(t', q, s, r);
  }

  /** A correct segmentation with a highlighted segment has a match in the
      text. */
  lemma {:induction false} HitGivesMatch(t: string, q: string, segs: seq<Segment>)
    requires Describes(t, q, segs) && HasHit(segs)
    ensures ContainsIgnoringCase(t, q)
    decreases |segs|
  {
    var s, r := segs[0], segs[1..];
    assert segs == [s] + r;
    DescribesTail(t, q, s, r);
    if !s.Hit? {
      var j :| 0 <= j < |segs| && segs[j].Hit?;
      assert r[j - 1] == segs[j];
      var d := |s.text|;
      HitGivesMatch(t[d..], q, r);
      var i :| MatchAt(t[d..], i, q);
      MatchAtShift(t, q, d, i);
    }
  }

  // -------------------------------------------------------- the properties

  /** The segments spell out the node's text; each highlighted segment is
      the text's own characters at a match of the term ignoring case, and
      no match starts inside a plain segment: matches are taken left to
      right, without overlap, and none is skipped. The segmentation has no
      empty plain segment and no two plain segments in a row. */
  lemma {:induction false} SegmentsCorrect(t: string, q: string)
    requires q != []
    ensures Describes(t, q, Segments(t, q))
    ensures Concat(Segments(t, q)) == t
    ensures Tidy(Segments(t, q))
    decreases |t|, 1
  {
    if t == [] {
    } else if MatchAt(t, 0, q) {
      CorrectAfterHit(t, q);
    } else {
      CorrectAfterPlain(t, q);
    }
    DescribesConcat(t, q, Segments(t, q));
  }

  lemma {:induction false} CorrectAfterHit(t: string, q: string)
    requires q != [] && MatchAt(t, 0, q)
    ensures Describes(t, q, Segments(t, q))
    ensures Tidy(Segments(t, q))
    decreases |t|, 0
  {
    var r := Segments(t[|q|..], q);
    SegmentsCorrect(t[|q|..], q);
    DescribesCons(t, q, Hit(t[..|q|]), r);
    TidyCons(Hit(t[..|q|]), r);
  }

  lemma {:induction false} CorrectAfterPlain(t: string, q: string)
    requires q != [] && t != [] && !MatchAt(t, 0, q)
    ensures Describes(t, q, Segments(t, q))
    ensures Tidy(Segments(t, q))
    decreases |t|, 0
  {
    var r := Segments(t[1..], q);
    SegmentsCorrect(t[1..], q);
    if r != [] && r[0].Plain? {
      assert r == [Plain(r[0].text)] + r[1..];
      DescribesGrowPlain(t, q, r[0].text, r[1..]);
      TidyGrow(t[0], r[0].text, r[1..]);
      PrependOntoPlain(t[0], r[0].text, r[1..]);
    } else {
      assert t[..1] == [t[0]] && t[1..] == t[|[t[0]]|..];
      DescribesCons(t, q, Plain([t[0]]), r);
      TidyCons(Plain([t[0]]), r);
      PrependBeforeHit(t[0], r);
    }
  }

  /** A hit, or a non-empty plain segment before a hit, may go in front of
      a tidy list. */
  lemma {:induction false} TidyCons(s: Segment, r: seq<Segment>)
    requires Tidy(r)
    requires s.Plain? ==> s.text != [] && (r == [] || r[0].Hit?)
    ensures Tidy([s] + r)
  {
    var segs := [s] + r;
    forall j | 0 < j < |segs| ensures !(segs[j - 1].Plain? && segs[j].Plain?) {
      assert segs[j] == r[j - 1];
      if j > 1 { assert segs[j - 1] == r[j - 2]; }
    }
    forall j | 0 <= j < |segs| && segs[j].Plain? ensures segs[j].text != [] {
      if j > 0 { assert segs[j] == r[j - 1]; }
    }
  }

  /** A plain first segment can take one more character in front. */
  lemma {:induction false} TidyGrow(c: char, p: string, r: seq<Segment>)
    requires Tidy([Plain(p)] + r)
    ensures Tidy([Plain([c] + p)] + r)
  {
    var segs, segs' := [Plain(p)] + r, [Plain([c] + p)] + r;
    forall j | 0 < j < |segs'| ensures !(segs'[j - 1].Plain? && segs'[j].Plain?) {
      assert segs'[j] == segs[j];
      if j > 1 { assert segs'[j - 1] == segs[j - 1]; }
      else { assert segs[0].Plain? && !(segs[0].Plain? && segs[1].Plain?); }
    }
    forall j | 0 <= j < |segs'| && segs'[j].Plain? ensures segs'[j].text != [] {
      if j > 0 { assert segs'[j] == segs[j]; }
    }
  }


  lemma {:induction false} TidyTail(s: Segment, r: seq<Segment>)
    requires Tidy([s] + r)
    ensures Tidy(r)
    ensures s.Plain? ==> s.text != []
    ensures s.Plain? && r != [] ==> r[0].Hit?
  {
    var segs := [s] + r;
    assert segs[0] == s;
    forall j | 0 < j < |r| ensures !(r[j - 1].Plain? && r[j].Plain?) {
      assert r[j - 1] == segs[j] && r[j] == segs[j + 1];
    }
    forall j | 0 <= j < |r| && r[j].Plain? ensures r[j].text != [] {
      assert r[j] == segs[j + 1];
    }
    if r != [] {
      assert segs[1] == r[0];
    }
  }

  lemma {:induction false} TidyShrink(p: string, r: seq<Segment>)
    requires |p| >= 2 && Tidy([Plain(p)] + r)
    ensures Tidy([Plain(p[1..])] + r)
  {
    var segs, segs' := [Plain(p)] + r, [Plain(p[1..])] + r;
    forall j | 0 < j < |segs'| ensures !(segs'[j - 1].Plain? && segs'[j].Plain?) {
      assert segs'[j] == segs[j];
      if j > 1 { assert segs'[j - 1] == segs[j - 1]; }
      else { assert segs[0].Plain? && !(segs[0].Plain? && segs[1].Plain?); }
    }
    forall j | 0 <= j < |segs'| && segs'[j].Plain? ensures segs'[j].text != [] {
      if j > 0 { assert segs'[j] == segs[j]; }
    }
  }

  lemma PrependBeforeHit(c: char, r: seq<Segment>)
    requires r == [] || r[0].Hit?
    ensures PrependChar(c, r) == [Plain([c])] + r
  {
  }

  lemma PrependOntoPlain(c: char, p: string, r: seq<Segment>)
    ensures PrependChar(c, [Plain(p)] + r) == [Plain([c] + p)] + r
  {
    assert ([Plain(p)] + r)[1..] == r;
  }

  /** The segmentation is the only tidy one with those properties: it is
      fixed by the text and the term alone. */
  lemma {:induction false} SegmentsUnique(t: string, q: string, segs: seq<Segment>)
    requires q != []
    requires Describes(t, q, segs) && Tidy(segs)
    ensures segs == Segments(t, q)
    decreases |t|, 1
  {
    if segs == [] {
      assert t == [];
    } else {
      var s, r := segs[0], segs[1..];
      assert segs == [s] + r;
      TidyTail(s, r);
      DescribesTail(t, q, s, r);
      if s.Hit? {
        assert |s.text| == |q| && MatchAt(t, 0, q);
        SegmentsUnique(t[|q|..], q, r);
      } else {
        assert !MatchAt(t, 0, q) && t != [];
        if |s.text| == 1 {
          assert s.text == [s.text[0]];
          UniqueAfterSingle(t, q, s.text[0], r);
        } else {
          UniqueAfterLonger(t, q, s.text, r);
        }
      }
    }
  }

  /** A one-character plain segment is followed by a hit or by nothing. */
  lemma {:induction false} UniqueAfterSingle(t: string, q: string, c: char, r: seq<Segment>)
    requires q != [] && t != [] && !MatchAt(t, 0, q)
    requires Describes(t, q, [Plain([c])] + r) && Tidy([Plain([c])] + r)
    ensures [Plain([c])] + r == Segments(t, q)
    decreases |t|, 0
  {
    DescribesTail(t, q, Plain([c]), r);
    TidyTail(Plain([c]), r);
    SegmentsUnique(t[1..], q, r);
    PrependBeforeHit(t[0], r);
  }

  /** A longer plain segment is its first character put in front of the
      rest of it. */
  lemma {:induction false} UniqueAfterLonger(t: string, q: string, p: string, r: seq<Segment>)
    requires q != [] && |p| >= 2 && t != [] && !MatchAt(t, 0, q)
    requires Describes(t, q, [Plain(p)] + r) && Tidy([Plain(p)] + r)
    ensures [Plain(p)] + r == Segments(t, q)
    decreases |t|, 0
  {
    DescribesFirstChar(t, q, p, r);
    DescribesShrinkPlain(t, q, p, r);
    TidyShrink(p, r);
    SegmentsUnique(t[1..], q, [Plain(p[1..])] + r);
    PrependOntoPlain(t[0], p[1..], r);
    assert [t[0]] + p[1..] == p;
  }

  /** A text described by a list starting with a plain segment starts
      with that segment's first character. */
  lemma {:induction false} DescribesFirstChar(t: string, q: string, p: string, r: seq<Segment>)
    requires p != [] && Describes(t, q, [Plain(p)] + r)
    ensures t != [] && t[0] == p[0]
  {
    DescribesTail(t, q, Plain(p), r);
    assert t[..|p|][0] == p[0];
  }


  /** A text node has a highlighted segment exactly when the term occurs
      in it ignoring case. */
  lemma {:induction false} HitIffMatch(t: string, q: string)
    requires q != []
    ensures HasHit(Segments(t, q)) <==> ContainsIgnoringCase(t, q)
  {
    var segs := Segments(t, q);
    if HasHit(segs) {
      SegmentsCorrect(t, q);
      HitGivesMatch(t, q, segs);
    }
    if ContainsIgnoringCase(t, q) {
      var i :| MatchAt(t, i, q);
      MatchGivesHit(t, q, i);
    }
  }

  lemma {:induction false} MatchGivesHit(t: string, q: string, i: int)
    requires q != [] && MatchAt(t, i, q)
    ensures HasHit(Segments(t, q))
    decreases |t|
  {
    var segs := Segments(t, q);
    if MatchAt(t, 0, q) {
      assert segs[0].Hit?;
    } else {
      assert i >= 1;
      MatchAtShift(t, q, 1, i - 1);
      var r := Segments(t[1..], q);
      MatchGivesHit(t[1..], q, i - 1);
      assert segs == PrependChar(t[0], r);
      PrependKeepsHit(t[0], r);
    }
  }

  /** A plain character in front keeps every highlighted segment. */
  lemma {:induction false} PrependKeepsHit(c: char, r: seq<Segment>)
    requires HasHit(r)
    ensures HasHit(PrependChar(c, r))
  {
    var segs := PrependChar(c, r);
    var j :| 0 <= j < |r| && r[j].Hit?;
    if r[0].Plain? {
      assert segs[j] == r[j];
    } else {
      assert segs[j + 1] == r[j];
    }
  }

  // ------------------------------------------------------------ rendering

  /** The nodes `innerHTML` creates for the highlighted text: a text node
      per plain segment and a highlight span around each match. */
  function Render(segs: seq<Segment>): (ns: seq<Node>)
    ensures |ns| == |segs|
    ensures ContentOf(ns) == Concat(segs)
    ensures forall j :: 0 <= j < |segs| ==>
              ns[j] == (if segs[j].Hit? then Element(true, [Text(segs[j].text)]) else Text(segs[j].text))
  {
    if segs == [] then []
    else
      var first := match segs[0]
        case Plain(p) => Text(p)
        case Hit(h) => Element(true, [Text(h)]);
      ContentOfCons(first, Render(segs[1..]));
      assert ContentOf([Text(segs[0].text)]) == segs[0].text by {
        assert [Text(segs[0].text)][..0] == [];
      }
      [first] + Render(segs[1..])
  }

  /** One text node of a matching card: when the term occurs in it, it is
      replaced by a wrapper span holding the rendered segments; otherwise
      it is left as it is. Either way its text content is unchanged. */
  function HighlightNode(s: string, q: string): (n: Node)
    requires q != [] && NoRegexMeta(q)
    ensures TextContent(n) == s
    ensures n.Text? <==> !ContainsIgnoringCase(s, q)
    ensures n.Text? ==> n == Text(s)
    ensures !n.Text? ==> n == Element(false, Render(Segments(s, q)))
  {
    var segs := Segments(s, q);
    HitIffMatch(s, q);
    if HasHit(segs) then
      SegmentsCorrect(s, q);
      Element(false, Render(segs))
    else Text(s)
  }

  /** `highlightText`: every text node under the card goes through
      `HighlightNode`; the card's text content is unchanged. */
  function HighlightTree(n: Node, q: string): (r: Node)
    requires q != [] && NoRegexMeta(q)
    ensures TextContent(r) == TextContent(n)
    ensures IsHighlight(r) == IsHighlight(n)
    decreases n
  {
    match n
    case Text(s) => HighlightNode(s, q)
    case Element(h, cs) => Element(h, HighlightAll(cs, q))
  }

  function HighlightAll(cs: seq<Node>, q: string): (r: seq<Node>)
    requires q != [] && NoRegexMeta(q)
    ensures |r| == |cs|
    ensures ContentOf(r) == ContentOf(cs)
    ensures forall i :: 0 <= i < |cs| ==> r[i] == HighlightTree(cs[i], q)
    decreases cs
  {
    if cs == [] then []
    else
      var init := HighlightAll(cs[..|cs| - 1], q);
      var last := HighlightTree(cs[|cs| - 1], q);
      ContentOfSnoc(init, last);
      init + [last]
  }

  // ------------------------------------------------- reset after highlight

  /** What a reset leaves of a highlighted subtree that had no highlight
      span before: every text node that held the term is still inside the
      wrapper span made for it, which now holds that text node alone;
      everything else is as it was. */
  ghost function Wrapped(n: Node, q: string): Node
    decreases n
  {
    match n
    case Text(s) => if ContainsIgnoringCase(s, q) then Element(false, [n]) else n
    case Element(h, cs) => Element(h, WrappedAll(cs, q))
  }

  ghost function WrappedAll(cs: seq<Node>, q: string): (r: seq<Node>)
    decreases cs
    ensures |r| == |cs|
    ensures forall i :: 0 <= i < |cs| ==> r[i] == Wrapped(cs[i], q)
  {
    if cs == [] then [] else WrappedAll(cs[..|cs| - 1], q) + [Wrapped(cs[|cs| - 1], q)]
  }

  /** Highlighting and then resetting a subtree without highlight spans
      gives back its structure and text nodes, each text node that held
      the term wrapped in one plain element. */
  lemma {:induction false} UnhighlightAfterHighlight(n: Node, q: string)
    requires q != [] && NoRegexMeta(q) && HighlightFree(n)
    ensures Unhighlight(HighlightTree(n, q)) == Wrapped(n, q)
    decreases n
  {
    match n
    case Text(s) =>
      if ContainsIgnoringCase(s, q) {
        UnhighlightWrapper(s, q);
      }
    case Element(h, cs) =>
      var hs := HighlightAll(cs, q);
      var us := UnhighlightAll(hs);
      forall i | 0 <= i < |cs| ensures us[i] == Wrapped(cs[i], q) {
        UnhighlightAfterHighlight(cs[i], q);
      }
      assert us == WrappedAll(cs, q);
      assert !exists i :: 0 <= i < |hs| && IsHighlight(hs[i]);
  }

  /** The wrapper made for a text node holding the term: resetting it
      turns every span back into text and merges the pieces into one text
      node with the original text. */
  lemma {:induction false} UnhighlightWrapper(s: string, q: string)
    requires q != [] && NoRegexMeta(q) && ContainsIgnoringCase(s, q)
    ensures Unhighlight(HighlightNode(s, q)) == Element(false, [Text(s)])
  {
    var segs := Segments(s, q);
    HitIffMatch(s, q);
    SegmentsSpellText(s, q);
    var ns := Render(segs);
    assert HighlightNode(s, q) == Element(false, ns);
    var j :| 0 <= j < |segs| && segs[j].Hit?;
    assert IsHighlight(ns[j]);
    var us := UnhighlightAll(ns);
    assert Unhighlight(Element(false, ns)) == Normalize(Element(false, us));
    UnhighlightRendered(segs);
    UnhighlightAllKeepsContent(ns);
    var i :| MatchAt(s, i, q);
    assert ContentOf(us) == s != [];
    MergeTextChildren(us);
  }

  /** The segments spell the text (the part of `SegmentsCorrect` the
      reset needs). */
  lemma SegmentsSpellText(t: string, q: string)
    requires q != []
    ensures Concat(Segments(t, q)) == t
  {
    SegmentsCorrect(t, q);
  }

  /** Resetting rendered segments gives one text node per segment, and
      normalizing leaves those as they are. */
  lemma {:induction false} UnhighlightRendered(segs: seq<Segment>)
    ensures forall i :: 0 <= i < |segs| ==> UnhighlightAll(Render(segs))[i].Text?
    ensures NormalizeAll(UnhighlightAll(Render(segs))) == UnhighlightAll(Render(segs))
  {
    var ns := Render(segs);
    var us := UnhighlightAll(ns);
    forall i | 0 <= i < |us| ensures us[i] == Text(segs[i].text) {
      var t := segs[i].text;
      assert us[i] == UnhighlightChild(ns[i]);
      if segs[i].Hit? {
        assert ns[i] == Element(true, [Text(t)]);
        assert ContentOf([Text(t)]) == t by {
          assert [Text(t)][..0] == [];
        }
        assert TextContent(ns[i]) == t;
        assert UnhighlightChild(ns[i]) == Text(t);
      } else {
        assert ns[i] == Text(t);
        assert Unhighlight(Text(t)) == Text(t);
        assert UnhighlightChild(ns[i]) == Text(t);
      }
    }
  }

  /** A subtree none of whose text nodes holds the term is left as it
      is. */
  lemma {:induction false} UntouchedWithoutMatch(n: Node, q: string)
    requires q != [] && NoRegexMeta(q)
    requires forall s :: s in TextLeaves(n) ==> !ContainsIgnoringCase(s, q)
    ensures HighlightTree(n, q) == n
    decreases n
  {
    match n
    case Text(s) =>
      assert s in TextLeaves(n);
    case Element(_, cs) =>
      UntouchedAllWithoutMatch(cs, q);
  }

  lemma {:induction false} UntouchedAllWithoutMatch(cs: seq<Node>, q: string)
    requires q != [] && NoRegexMeta(q)
    requires forall s :: s in LeavesOf(cs) ==> !ContainsIgnoringCase(s, q)
    ensures HighlightAll(cs, q) == cs
    decreases cs
  {
    if cs != [] {
      var init, last := cs[..|cs| - 1], cs[|cs| - 1];
      assert LeavesOf(cs) == LeavesOf(init) + TextLeaves(last);
      UntouchedAllWithoutMatch(init, q);
      UntouchedWithoutMatch(last, q);
      assert init + [last] == cs;
    }
  }

  /** Only single text nodes are searched: a card whose two text nodes hold no
      match each is left as it is, even when the term spans the two, and
      the card matches through its text content. */
  lemma {:induction false} SplitMatchNotHighlighted(x: string, y: string, q: string)
    requires q != [] && NoRegexMeta(q)
    requires !ContainsIgnoringCase(x, q) && !ContainsIgnoringCase(y, q)
    ensures TextContent(Element(false, [Text(x), Text(y)])) == x + y
    ensures HighlightTree(Element(false, [Text(x), Text(y)]), q) == Element(false, [Text(x), Text(y)])
  {
    var cs := [Text(x), Text(y)];
    assert cs[..1][..0] == [] && cs[..2][..1] == cs[..1];
    assert ContentOf(cs[..1]) == x;
    assert LeavesOf(cs[..1]) == [x] by {
      assert LeavesOf(cs[..1]) == LeavesOf([]) + TextLeaves(Text(x));
    }
    assert LeavesOf(cs) == LeavesOf(cs[..1]) + TextLeaves(Text(y));
    assert TextLeaves(Element(false, cs)) == [x, y];
    UntouchedWithoutMatch(Element(false, cs), q);
  }

  /** An instance: "fo" and "o" with the term "foo". */
  lemma SplitMatchExample()
    ensures ContainsIgnoringCase("fo" + "o", "foo")
    ensures HighlightTree(Element(false, [Text("fo"), Text("o")]), "foo") ==
            Element(false, [Text("fo"), Text("o")])
  {
    assert MatchAt("fo" + "o", 0, "foo");
    assert NoRegexMeta("foo");
    SplitMatchNotHighlighted("fo", "o", "foo");
  }
}

/** The part of the document tree the search touches: text nodes and
    elements, where an element may be a highlight span (class
    `search-highlight`). `textContent`, the pre-order collection of text
    nodes, `normalize` and the removal of highlight spans are modelled on
    this tree as values. */
module Dom {

  datatype Node =
    | Text(data: string)
    | Element(highlight: bool, children: seq<Node>)

  /** `node.textContent`: the text of every descendant text node, in
      document order. */
  function TextContent(n: Node): string
    decreases n
  {
    match n
    case Text(s) => s
    case Element(_, cs) => ContentOf(cs)
  }

  function ContentOf(cs: seq<Node>): string
    decreases cs
  {
    if cs == [] then [] else ContentOf(cs[..|cs| - 1]) + TextContent(cs[|cs| - 1])
  }

  /** The text nodes under `n` in pre-order (their data). */
  function TextLeaves(n: Node): seq<string>
    decreases n
  {
    match n
    case Text(s) => [s]
    case Element(_, cs) => LeavesOf(cs)
  }

  function LeavesOf(cs: seq<Node>): seq<string>
    decreases cs
  {
    if cs == [] then [] else LeavesOf(cs[..|cs| - 1]) + TextLeaves(cs[|cs| - 1])
  }

  function Join(ss: seq<string>): string
  {
    if ss == [] then [] else Join(ss[..|ss| - 1]) + ss[|ss| - 1]
  }

  lemma {:induction false} ContentOfSnoc(cs: seq<Node>, c: Node)
    ensures ContentOf(cs + [c]) == ContentOf(cs) + TextContent(c)
  {
    assert (cs + [c])[..|cs|] == cs;
  }

  lemma {:induction false} ContentOfCons(c: Node, cs: seq<Node>)
    ensures ContentOf([c] + cs) == TextContent(c) + ContentOf(cs)
    decreases |cs|
  {
    if cs == [] {
      assert ([c] + cs)[..0] == [];
    } else {
      var init, last := cs[..|cs| - 1], cs[|cs| - 1];
      var all := [c] + cs;
      assert all[..|all| - 1] == [c] + init && all[|all| - 1] == last;
      assert ContentOf(all) == ContentOf([c] + init) + TextContent(last);
      ContentOfCons(c, init);
      assert ContentOf(cs) == ContentOf(init) + TextContent(last);
    }
  }

  lemma {:induction false} JoinAppend(a: seq<string>, b: seq<string>)
    ensures Join(a + b) == Join(a) + Join(b)
    decreases |b|
  {
    if b == [] {
      assert a + b == a;
    } else {
      var init, last := b[..|b| - 1], b[|b| - 1];
      assert (a + b)[..|a + b| - 1] == a + init && (a + b)[|a + b| - 1] == last;
      assert Join(a + b) == Join(a + init) + last;
      JoinAppend(a, init);
      assert Join(b) == Join(init) + last;
    }
  }

  /** The collected text nodes, concatenated, are the element's text
      content. */
  lemma {:induction false} JoinTextLeaves(n: Node)
    ensures Join(TextLeaves(n)) == TextContent(n)
    decreases n
  {
    match n
    case Text(s) =>
      assert Join([s]) == Join([]) + s;
    case Element(_, cs) =>
      JoinLeavesOf(cs);
  }

  lemma {:induction false} JoinLeavesOf(cs: seq<Node>)
    ensures Join(LeavesOf(cs)) == ContentOf(cs)
    decreases cs
  {
    if cs != [] {
      var last := cs[|cs| - 1];
      JoinLeavesOf(cs[..|cs| - 1]);
      JoinTextLeaves(last);
      JoinAppend(LeavesOf(cs[..|cs| - 1]), TextLeaves(last));
    }
  }

  /** `getTextNodes`: a recursive walk that pushes every text node it
      meets onto one shared list, visiting children left to right. The
      result is the pre-order list of text nodes, and joining them gives
      the element's text content. */
  method GetTextNodes(element: Node) returns (textNodes: seq<string>)
    ensures textNodes == TextLeaves(element)
    ensures Join(textNodes) == TextContent(element)
  {
    textNodes := FindTextNodes(element, []);
    JoinTextLeaves(element);
  }

  method FindTextNodes(node: Node, pushed: seq<string>) returns (textNodes: seq<string>)
    ensures textNodes == pushed + TextLeaves(node)
    decreases node
  {
    match node
    case Text(s) =>
      textNodes := pushed + [s];
    case Element(_, cs) =>
      textNodes := pushed;
      for i := 0 to |cs|
        invariant textNodes == pushed + LeavesOf(cs[..i])
      {
        assert cs[..i + 1][..i] == cs[..i];
        textNodes := FindTextNodes(cs[i], textNodes);
      }
      assert cs[..|cs|] == cs;
  }

  // ------------------------------------------------------------ normalize

  /** No empty text node and no two adjacent text nodes among `cs`. */
  predicate MergedTexts(cs: seq<Node>)
  {
    (forall i :: 0 <= i < |cs| ==> cs[i] != Text("")) &&
    (forall i :: 0 < i < |cs| ==> !(cs[i - 1].Text? && cs[i].Text?))
  }

  /** The element children among `cs`, in order: what `normalize` leaves
      in place. */
  function Elements(cs: seq<Node>): seq<Node>
  {
    if cs == [] then []
    else Elements(cs[..|cs| - 1]) + (if cs[|cs| - 1].Text? then [] else [cs[|cs| - 1]])
  }

  lemma {:induction false} ElementsSnoc(cs: seq<Node>, c: Node)
    ensures Elements(cs + [c]) == Elements(cs) + (if c.Text? then [] else [c])
  {
    assert (cs + [c])[..|cs|] == cs;
  }

  /** The text between consecutive element children of `cs`: the first
      entry is the text before the first element, the last the text after
      the last one. `normalize` keeps every such run of text in place. */
  function Gaps(cs: seq<Node>): (g: seq<string>)
    ensures |g| == |Elements(cs)| + 1
  {
    if cs == [] then [""] else AddToGaps(Gaps(cs[..|cs| - 1]), cs[|cs| - 1])
  }

  /** One more child: a text node extends the last run of text, an
      element starts a new, empty one. */
  function AddToGaps(g: seq<string>, c: Node): (g': seq<string>)
    requires g != []
  {
    if c.Text? then g[..|g| - 1] + [g[|g| - 1] + c.data] else g + [""]
  }

  lemma {:induction false} GapsSnoc(cs: seq<Node>, c: Node)
    ensures Gaps(cs + [c]) == AddToGaps(Gaps(cs), c)
  {
    assert (cs + [c])[..|cs|] == cs;
  }

  /** Appending a text node to a list that ends in one, or merging the two
      into one node, gives the same runs of text. */
  lemma {:induction false} GapsMergeLast(p: seq<Node>, last: string, d: string)
    ensures Gaps(p + [Text(last + d)]) == Gaps(p + [Text(last)] + [Text(d)])
  {
    var g := Gaps(p);
    GapsSnoc(p, Text(last + d));
    GapsSnoc(p, Text(last));
    GapsSnoc(p + [Text(last)], Text(d));
    var h := AddToGaps(g, Text(last));
    assert h[..|h| - 1] == g[..|g| - 1] && h[|h| - 1] == g[|g| - 1] + last;
    assert g[|g| - 1] + last + d == g[|g| - 1] + (last + d);
  }

  /** Appends one child to an already merged child list the way
      `normalize` treats it: an empty text node is dropped, and a text
      node that follows a text node is merged into it. */
  function PushChild(acc: seq<Node>, c: Node): (r: seq<Node>)
    requires MergedTexts(acc)
    ensures MergedTexts(r)
    ensures ContentOf(r) == ContentOf(acc) + TextContent(c)
    ensures forall x :: x in r ==> x.Text? || x in acc || x == c
  {
    if c == Text("") then acc
    else if c.Text? && acc != [] && acc[|acc| - 1].Text? then
      var p, last := acc[..|acc| - 1], acc[|acc| - 1];
      var joined := Text(last.data + c.data);
      assert acc == p + [last];
      ContentOfSnoc(p, last);
      ContentOfSnoc(p, joined);
      MergedReplaceLast(acc, joined);
      p + [joined]
    else
      ContentOfSnoc(acc, c);
      MergedSnoc(acc, c);
      acc + [c]
  }

  /** `PushChild` keeps the element children and the runs of text between
      them: an empty text node adds no text, and a merged text node adds
      its text to the run it ends. */
  lemma {:induction false} PushChildKeepsLayout(acc: seq<Node>, c: Node)
    requires MergedTexts(acc)
    ensures Elements(PushChild(acc, c)) == Elements(acc) + (if c.Text? then [] else [c])
    ensures Gaps(PushChild(acc, c)) == Gaps(acc + [c])
  {
    GapsSnoc(acc, c);
    if c == Text("") {
      var g := Gaps(acc);
      assert g[|g| - 1] + c.data == g[|g| - 1];
    } else if c.Text? && acc != [] && acc[|acc| - 1].Text? {
      var p, last := acc[..|acc| - 1], acc[|acc| - 1];
      assert acc == p + [last];
      ElementsSnoc(p, last);
      ElementsSnoc(p, Text(last.data + c.data));
      GapsMergeLast(p, last.data, c.data);
    } else {
      ElementsSnoc(acc, c);
    }
  }

  lemma {:induction false} MergedSnoc(acc: seq<Node>, c: Node)
    requires MergedTexts(acc) && c != Text("")
    requires !(c.Text? && acc != [] && acc[|acc| - 1].Text?)
    ensures MergedTexts(acc + [c])
  {
    var r := acc + [c];
    forall i | 0 <= i < |r| ensures r[i] != Text("") {
      if i < |acc| { assert r[i] == acc[i]; }
    }
    forall i | 0 < i < |r| ensures !(r[i - 1].Text? && r[i].Text?) {
      assert r[i - 1] == acc[i - 1];
      if i < |acc| { assert r[i] == acc[i]; }
    }
  }

  lemma {:induction false} MergedReplaceLast(acc: seq<Node>, x: Node)
    requires MergedTexts(acc) && acc != [] && acc[|acc| - 1].Text?
    requires x.Text? && x != Text("")
    ensures MergedTexts(acc[..|acc| - 1] + [x])
  {
    var r := acc[..|acc| - 1] + [x];
    forall i | 0 <= i < |r| ensures r[i] != Text("") {
      if i < |acc| - 1 { assert r[i] == acc[i]; }
    }
    forall i | 0 < i < |r| ensures !(r[i - 1].Text? && r[i].Text?) {
      assert r[i - 1] == acc[i - 1];
      if i < |acc| - 1 { assert r[i] == acc[i]; }
    }
  }

  /** A merged child list ending in a text node: its prefix is merged and
      ends in no text node, and that text is the last run of text. */
  lemma {:induction false} MergedEndsInText(cs: seq<Node>)
    requires MergedTexts(cs) && cs != [] && cs[|cs| - 1].Text?
    ensures MergedTexts(cs[..|cs| - 1])
    ensures Elements(cs[..|cs| - 1]) == Elements(cs)
    ensures Gaps(cs)[|Gaps(cs)| - 1] == cs[|cs| - 1].data != []
    ensures Gaps(cs[..|cs| - 1]) == Gaps(cs)[..|Gaps(cs)| - 1] + [""]
  {
    var p := cs[..|cs| - 1];
    assert cs[|cs| - 1] != Text("");
    assert MergedTexts(p) by {
      forall i | 0 < i < |p| ensures !(p[i - 1].Text? && p[i].Text?) {
        assert p[i - 1] == cs[i - 1] && p[i] == cs[i];
      }
    }
    if p != [] {
      assert !p[|p| - 1].Text? by {
        assert p[|p| - 1] == cs[|cs| - 2];
      }
      assert Gaps(p) == Gaps(p[..|p| - 1]) + [""];
    }
  }

  /** A merged child list ending in an element: its prefix is merged, and
      the last run of text is empty. */
  lemma {:induction false} MergedEndsInElement(cs: seq<Node>)
    requires MergedTexts(cs) && cs != [] && !cs[|cs| - 1].Text?
    ensures MergedTexts(cs[..|cs| - 1])
    ensures Elements(cs) == Elements(cs[..|cs| - 1]) + [cs[|cs| - 1]]
    ensures Gaps(cs)[|Gaps(cs)| - 1] == []
    ensures Gaps(cs[..|cs| - 1]) == Gaps(cs)[..|Gaps(cs)| - 1]
  {
    var p := cs[..|cs| - 1];
    assert MergedTexts(p) by {
      forall i | 0 < i < |p| ensures !(p[i - 1].Text? && p[i].Text?) {
        assert p[i - 1] == cs[i - 1] && p[i] == cs[i];
      }
    }
  }

  /** The only merged child list with no element and no text is the empty
      one. */
  lemma {:induction false} MergedWithoutGaps(cs: seq<Node>)
    requires MergedTexts(cs) && Gaps(cs) == [[]]
    ensures cs == []
  {
    if cs != [] {
      if cs[|cs| - 1].Text? {
        MergedEndsInText(cs);
      } else {
        MergedEndsInElement(cs);
      }
    }
  }

  /** A merged child list is determined by its element children and the
      runs of text between them, so `MergeChildren`'s contract fixes its
      result. */
  lemma {:induction false} MergedDeterminedByGaps(a: seq<Node>, b: seq<Node>)
    requires MergedTexts(a) && MergedTexts(b)
    requires Elements(a) == Elements(b) && Gaps(a) == Gaps(b)
    ensures a == b
    decreases |a| + |b|
  {
    if a == [] || b == [] {
      MergedWithoutGaps(a);
      MergedWithoutGaps(b);
      return;
    }
    var pa, pb := a[..|a| - 1], b[..|b| - 1];
    if a[|a| - 1].Text? {
      MergedEndsInText(a);
      if !b[|b| - 1].Text? {
        MergedEndsInElement(b);
        assert false;
      }
      MergedEndsInText(b);
      MergedDeterminedByGaps(pa, pb);
      assert a[|a| - 1] == b[|b| - 1];
    } else {
      MergedEndsInElement(a);
      if b[|b| - 1].Text? {
        MergedEndsInText(b);
        assert false;
      }
      MergedEndsInElement(b);
      var ea, eb := Elements(pa), Elements(pb);
      assert ea == Elements(a)[..|ea|] && eb == Elements(b)[..|eb|];
      MergedDeterminedByGaps(pa, pb);
    }
    assert a == pa + [a[|a| - 1]] && b == pb + [b[|b| - 1]];
  }

  /** The child list of an element after `normalize`, its children
      already normalized: merged, with the same text content, and with
      exactly the element children it had, in the same order. */
  function MergeChildren(cs: seq<Node>): (r: seq<Node>)
    ensures MergedTexts(r)
    ensures ContentOf(r) == ContentOf(cs)
    ensures forall x :: x in r ==> x.Text? || x in cs
    ensures Elements(r) == Elements(cs)
    ensures Gaps(r) == Gaps(cs)
  {
    if cs == [] then []
    else
      var init, last := cs[..|cs| - 1], cs[|cs| - 1];
      var merged := MergeChildren(init);
      GapsSnoc(merged, last);
      PushChildKeepsLayout(merged, last);
      PushChild(merged, last)
  }

  /** Any merged child list with the same element children and the same
      runs of text between them is `MergeChildren`'s result. */
  lemma MergeChildrenUnique(cs: seq<Node>, r: seq<Node>)
    requires MergedTexts(r) && Elements(r) == Elements(cs) && Gaps(r) == Gaps(cs)
    ensures r == MergeChildren(cs)
  {
    MergedDeterminedByGaps(r, MergeChildren(cs));
  }

  /** `node.normalize()`: every element of the subtree gets merged
      children. */
  function Normalize(n: Node): (r: Node)
    decreases n
  {
    match n
    case Text(s) => n
    case Element(h, cs) => Element(h, MergeChildren(NormalizeAll(cs)))
  }

  function NormalizeAll(cs: seq<Node>): (r: seq<Node>)
    decreases cs
    ensures |r| == |cs|
    ensures forall i :: 0 <= i < |cs| ==> r[i] == Normalize(cs[i])
  {
    if cs == [] then [] else NormalizeAll(cs[..|cs| - 1]) + [Normalize(cs[|cs| - 1])]
  }

  /** Children that are all text nodes merge into one text node holding
      their text, or into nothing when that text is empty. */
  lemma {:induction false} MergeTextChildren(cs: seq<Node>)
    requires forall i :: 0 <= i < |cs| ==> cs[i].Text?
    ensures MergeChildren(cs) == if ContentOf(cs) == [] then [] else [Text(ContentOf(cs))]
    decreases |cs|
  {
    if cs != [] {
      var init, last := cs[..|cs| - 1], cs[|cs| - 1];
      MergeTextChildren(init);
      assert ContentOf(cs) == ContentOf(init) + last.data;
      var acc := MergeChildren(init);
      assert MergeChildren(cs) == PushChild(acc, last);
      assert last == Text(last.data);
      if last == Text("") {
        assert ContentOf(cs) == ContentOf(init);
      } else if acc != [] {
        assert acc[..|acc| - 1] == [];
        assert PushChild(acc, last) == [Text(ContentOf(init) + last.data)];
      } else {
        assert ContentOf(init) == [];
        assert ContentOf(cs) == last.data != [];
        assert PushChild(acc, last) == [last];
      }
    }
  }

  /** Normalizing keeps the text content. */
  lemma {:induction false} NormalizeKeepsContent(n: Node)
    ensures TextContent(Normalize(n)) == TextContent(n)
    decreases n
  {
    match n
    case Text(_) =>
    case Element(h, cs) =>
      NormalizeAllKeepsContent(cs);
  }

  lemma {:induction false} NormalizeAllKeepsContent(cs: seq<Node>)
    ensures ContentOf(NormalizeAll(cs)) == ContentOf(cs)
    decreases cs
  {
    if cs != [] {
      var init, last := cs[..|cs| - 1], cs[|cs| - 1];
      NormalizeAllKeepsContent(init);
      NormalizeKeepsContent(last);
      ContentOfSnoc(NormalizeAll(init), Normalize(last));
    }
  }

  /** Every element of a normalized subtree has merged children. */
  predicate Normalized(n: Node)
    decreases n
  {
    match n
    case Text(_) => true
    case Element(_, cs) => MergedTexts(cs) && forall i :: 0 <= i < |cs| ==> Normalized(cs[i])
  }

  // ------------------------------------------------------- remove highlights

  predicate IsHighlight(n: Node)
  {
    n.Element? && n.highlight
  }

  /** No highlight span anywhere in the subtree. */
  predicate HighlightFree(n: Node)
    decreases n
  {
    match n
    case Text(_) => true
    case Element(h, cs) => !h && forall i :: 0 <= i < |cs| ==> HighlightFree(cs[i])
  }

  /** The reset of a subtree: every highlight span is replaced by one text
      node holding its text content, and each element that had such a span
      as a child is then normalized. */
  function Unhighlight(n: Node): (r: Node)
    decreases n, 0
  {
    match n
    case Text(_) => n
    case Element(h, cs) =>
      var cs' := UnhighlightAll(cs);
      if exists i :: 0 <= i < |cs| && IsHighlight(cs[i]) then Normalize(Element(h, cs'))
      else Element(h, cs')
  }

  /** One child: a span becomes a text node, anything else is reset in
      turn. Spans inside a span are not visited: the script replaces the
      outer span first, in document order, and the inner ones are then
      detached, so replacing them no longer changes the card. */
  function UnhighlightChild(c: Node): (r: Node)
    decreases c, 1
  {
    if IsHighlight(c) then Text(TextContent(c)) else Unhighlight(c)
  }

  function UnhighlightAll(cs: seq<Node>): (r: seq<Node>)
    decreases cs
    ensures |r| == |cs|
    ensures forall i :: 0 <= i < |cs| ==> r[i] == UnhighlightChild(cs[i])
  {
    if cs == [] then [] else UnhighlightAll(cs[..|cs| - 1]) + [UnhighlightChild(cs[|cs| - 1])]
  }

  /** Normalizing yields a normalized subtree. */
  lemma {:induction false} NormalizeIsNormalized(n: Node)
    ensures Normalized(Normalize(n))
    decreases n
  {
    match n
    case Text(_) =>
    case Element(h, cs) =>
      var ns := NormalizeAll(cs);
      forall i | 0 <= i < |cs| ensures Normalized(ns[i]) {
        NormalizeIsNormalized(cs[i]);
      }
      var ms := MergeChildren(ns);
      forall i | 0 <= i < |ms| ensures Normalized(ms[i]) {
        assert ms[i] in ms;
      }
  }

  /** Normalizing adds no highlight span. */
  lemma {:induction false} NormalizeKeepsHighlightFree(n: Node)
    requires HighlightFree(n)
    ensures HighlightFree(Normalize(n))
    decreases n
  {
    match n
    case Text(_) =>
    case Element(h, cs) =>
      var ns := NormalizeAll(cs);
      forall i | 0 <= i < |cs| ensures HighlightFree(ns[i]) {
        NormalizeKeepsHighlightFree(cs[i]);
      }
      var ms := MergeChildren(ns);
      forall i | 0 <= i < |ms| ensures HighlightFree(ms[i]) {
        assert ms[i] in ms;
      }
  }

  /** Removing the highlight spans keeps the text content. */
  lemma {:induction false} UnhighlightKeepsContent(n: Node)
    ensures TextContent(Unhighlight(n)) == TextContent(n)
    decreases n, 0
  {
    match n
    case Text(_) =>
    case Element(h, cs) =>
      UnhighlightAllKeepsContent(cs);
      NormalizeKeepsContent(Element(h, UnhighlightAll(cs)));
  }

  lemma {:induction false} UnhighlightChildKeepsContent(c: Node)
    ensures TextContent(UnhighlightChild(c)) == TextContent(c)
    decreases c, 1
  {
    if !IsHighlight(c) {
      UnhighlightKeepsContent(c);
    }
  }

  lemma {:induction false} UnhighlightAllKeepsContent(cs: seq<Node>)
    ensures ContentOf(UnhighlightAll(cs)) == ContentOf(cs)
    decreases cs
  {
    if cs != [] {
      var init, last := cs[..|cs| - 1], cs[|cs| - 1];
      UnhighlightAllKeepsContent(init);
      UnhighlightChildKeepsContent(last);
      ContentOfSnoc(UnhighlightAll(init), UnhighlightChild(last));
    }
  }

  /** After the reset no highlight span is left below an element that is
      not itself one. */
  lemma {:induction false} UnhighlightRemovesSpans(n: Node)
    requires !IsHighlight(n)
    ensures HighlightFree(Unhighlight(n))
    decreases n
  {
    match n
    case Text(_) =>
    case Element(h, cs) =>
      var us := UnhighlightAll(cs);
      forall i | 0 <= i < |cs| ensures HighlightFree(us[i]) {
        if !IsHighlight(cs[i]) {
          UnhighlightRemovesSpans(cs[i]);
        }
      }
      assert HighlightFree(Element(h, us));
      if exists i :: 0 <= i < |cs| && IsHighlight(cs[i]) {
        NormalizeKeepsHighlightFree(Element(h, us));
      }
  }

  /** A subtree without highlight spans is left exactly as it is by the
      reset. */
  lemma {:induction false} UnhighlightFreeUnchanged(n: Node)
    requires HighlightFree(n)
    ensures Unhighlight(n) == n
    decreases n
  {
    match n
    case Text(_) =>
    case Element(h, cs) =>
      var us := UnhighlightAll(cs);
      forall i | 0 <= i < |cs| ensures us[i] == cs[i] {
        UnhighlightFreeUnchanged(cs[i]);
      }
      assert us == cs;
  }
}

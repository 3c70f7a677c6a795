/** The find-on-page search (`performSearch` and `removeHighlights` in script.js): trim
    the query, remove the previous highlights, walk the text nodes of the body in
    document order, and replace a text node that holds a match by the fragment the
    highlighter builds for it. */
module Search {
  import opened Strings
  import opened Dom
  import opened Highlight

  /** What the search reports: the "enter a search term" notice, the "no occurrences"
      notice, or "Found N occurrences". */
  datatype Outcome = EmptyQuery | NoMatches | Found(count: nat)

  /** A child position in walk order: the run, then the child within the run. */
  datatype Pos = Pos(run: nat, child: nat)

  /** The walker skips text whose parent is a `SCRIPT` or `STYLE` element or carries the
      `highlight` class (script.js:110-112). */
  predicate Skipped(e: Element) {
    e.nodeName == "SCRIPT" || e.nodeName == "STYLE" || "highlight" in e.classes
  }

  /** The text node inside a mark has the mark as its parent, so the walker skips it. */
  lemma MarkTextSkipped()
    ensures Skipped(MarkElement)
  {
  }

  /** The child at `(r, k)` is a text node the search scans: a text node whose parent is
      not skipped. (The text node of a mark has the mark as its parent.) */
  predicate Eligible(d: Document, r: nat, k: nat) {
    r < |d| && k < |d[r].children| && d[r].children[k].Text? && !Skipped(d[r].parent)
  }

  /** The search rewrites the child at `(r, k)`: it is scanned and holds a match. */
  predicate HitAt(d: Document, q: string, r: nat, k: nat) {
    Eligible(d, r, k) && NextMatch(d[r].children[k].s, q, 0).Some?
  }

  /** `(r, k)` comes before `(r', k')` in walk order. */
  predicate Before(r: nat, k: nat, r': nat, k': nat) {
    r < r' || (r == r' && k < k')
  }

  /** Every hit at or after `(r0, k0)` is at or after `(r1, k1)`. */
  ghost predicate NoHitBetween(d: Document, q: string, r0: nat, k0: nat, r1: nat, k1: nat) {
    forall r, k :: HitAt(d, q, r, k) && !Before(r, k, r0, k0) ==> !Before(r, k, r1, k1)
  }

  /** The first hit of the walk from `(r, k)` on, if any. */
  function FirstHitFrom(d: Document, q: string, r: nat, k: nat): (p: Option<Pos>)
    requires r < |d| ==> k <= |d[r].children|
    ensures p.Some? ==> HitAt(d, q, p.value.run, p.value.child)
                        && !Before(p.value.run, p.value.child, r, k)
                        && NoHitBetween(d, q, r, k, p.value.run, p.value.child)
    ensures p.None? ==> NoHitBetween(d, q, r, k, |d|, 0)
    decreases |d| - r, if r < |d| then |d[r].children| - k else 0
  {
    if r >= |d| then None
    else if k == |d[r].children| then FirstHitFrom(d, q, r + 1, 0)
    else if HitAt(d, q, r, k) then Some(Pos(r, k))
    else FirstHitFrom(d, q, r, k + 1)
  }

  /** The first text node of the document that the walk rewrites. */
  function FirstHit(d: Document, q: string): Option<Pos> {
    FirstHitFrom(d, q, 0, 0)
  }

  /** The first hit is a hit, every earlier position is not, and there is no hit at all
      when there is no first hit. */
  lemma FirstHitSpec(d: Document, q: string)
    ensures FirstHit(d, q).Some? ==>
              var p := FirstHit(d, q).value;
              && HitAt(d, q, p.run, p.child)
              && forall r, k :: HitAt(d, q, r, k) ==> !Before(r, k, p.run, p.child)
    ensures FirstHit(d, q).None? <==> forall r, k :: !HitAt(d, q, r, k)
  {
  }

  /** `replaceChild(fragment, node)` (script.js:139): the children of the fragment take the
      place of the child at `p`. Its properties are FlattenSplice, MarkCountSplice and
      SearchHitSpec. */
  function ReplaceChild(d: Document, p: Pos, f: seq<Segment>): (r: Document)
    requires p.run < |d| && p.child < |d[p.run].children|
    ensures |r| == |d|
    ensures forall i :: 0 <= i < |d| && i != p.run ==> r[i] == d[i]
    ensures r[p.run].parent == d[p.run].parent
    ensures var c := d[p.run].children;
      r[p.run].children == c[..p.child] + f + c[p.child + 1..]
  {
    var c := d[p.run].children;
    d[p.run := Run(d[p.run].parent, c[..p.child] + f + c[p.child + 1..])]
  }

  /** What the search does to the document after the highlights are removed, for a
      non-empty query `q`: the walk stops at the first text node it rewrites, so only that
      node is highlighted and the count is the number of its matches (script.js:103-147).
      Its properties are SearchAsWrittenSpec and WalkStopsAfterFirstRewrite. */
  function SearchAsWritten(d: Document, q: string): (Document, Outcome)
    requires |q| > 0
  {
    match FirstHit(d, q)
    case None => (d, NoMatches)
    case Some(p) =>
      assert HitAt(d, q, p.run, p.child) by { FirstHitSpec(d, q); }
      var f := Fragment(d[p.run].children[p.child].s, q, 0);
      (ReplaceChild(d, p, f), Found(MarkCount(f)))
  }

  /** `performSearch` (script.js:96-159) on the document `doc` with the raw input `raw`:
      the new document and the outcome it reports. Its properties are FindEmptyQuery,
      FindNoMatches, FindCount, FindPreservesText and FindLeavesSkippedRuns. */
  function Find(doc: Document, raw: string): (Document, Outcome) {
    var q := Trim(raw);
    var d := Unhighlight(doc);
    if q == [] then (d, EmptyQuery) else SearchAsWritten(d, q)
  }

  /** Every mark in the document holds the query, up to ASCII case. */
  predicate MarksMatch(d: Document, q: string) {
    forall r :: 0 <= r < |d| ==> MarksHold(d[r].children, q)
  }

  /** No run of the document holds a mark. */
  predicate Unmarked(d: Document) {
    forall i :: 0 <= i < |d| ==> NoMarks(d[i].children)
  }

  /** The marks of a spliced child list are those of the old list and those of `f`. */
  lemma SpliceMarks(c: seq<Segment>, k: nat, f: seq<Segment>, q: string)
    requires k < |c| && NoMarks(c)
    requires MarksHold(f, q)
    ensures MarksHold(c[..k] + f + c[k + 1..], q)
  {
    var c' := c[..k] + f + c[k + 1..];
    forall j | 0 <= j < |c'| && c'[j].Mark? ensures EqualsIgnoreCase(c'[j].s, q) {
      // Outside the fragment the children are the old, unmarked ones.
      if k <= j < k + |f| {
        assert c'[j] == f[j - k];
      }
    }
  }

  /** What rewriting the first hit does: the run of the hit gets the hit's fragment in
      place of the hit, which keeps the run's text and adds the fragment's marks. */
  lemma SearchHitSpec(d: Document, q: string, p: Pos)
    requires |q| > 0 && Unmarked(d) && HitAt(d, q, p.run, p.child)
    ensures var f := Fragment(d[p.run].children[p.child].s, q, 0);
      && TextContent(ReplaceChild(d, p, f)) == TextContent(d)
      && DocMarkCount(ReplaceChild(d, p, f)) == MarkCount(f) > 0
      && MarksMatch(ReplaceChild(d, p, f), q)
  {
    var c := d[p.run].children;
    var k := p.child;
    var t := c[k].s;
    var f := Fragment(t, q, 0);
    var run' := Run(d[p.run].parent, c[..k] + f + c[k + 1..]);
    assert ReplaceChild(d, p, f) == d[p.run := run'];
    FragmentText(t, q);
    FlattenSplice(c, k, f);
    TextContentUpdate(d, p.run, run');
    MarkCountZero(c);
    MarkCountSplice(c, k, f);
    DocMarkCountZero(d);
    forall i | 0 <= i < |d| ensures MarkCount(d[i].children) == 0 {
      MarkCountZero(d[i].children);
    }
    DocMarkCountUpdate(d, p.run, run');
    FragmentHasMark(t, q);
    FragmentMarksMatch(t, q);
    SpliceMarks(c, k, f, q);
  }

  /** The search after the highlights are removed: it reports no matches exactly when no
      scanned text node holds a match, and then changes nothing; otherwise the count is
      positive and is the number of marks in the new document. The text stays the same,
      every mark holds the query, and runs under a skipped parent are left as they are. */
  lemma SearchAsWrittenSpec(d: Document, q: string)
    requires |q| > 0 && Unmarked(d)
    ensures |SearchAsWritten(d, q).0| == |d|
    ensures TextContent(SearchAsWritten(d, q).0) == TextContent(d)
    ensures !SearchAsWritten(d, q).1.EmptyQuery?
    ensures SearchAsWritten(d, q).1 == NoMatches <==> forall r, k :: !HitAt(d, q, r, k)
    ensures SearchAsWritten(d, q).1 == NoMatches ==> SearchAsWritten(d, q).0 == d
    ensures SearchAsWritten(d, q).1.Found? ==>
              SearchAsWritten(d, q).1.count == DocMarkCount(SearchAsWritten(d, q).0) > 0
    ensures MarksMatch(SearchAsWritten(d, q).0, q)
    ensures forall i :: 0 <= i < |d| && Skipped(d[i].parent) ==> SearchAsWritten(d, q).0[i] == d[i]
  {
    FirstHitSpec(d, q);
    match FirstHit(d, q)
    case None =>
    case Some(p) =>
      SearchHitSpec(d, q, p);
  }

  /** After the highlights are removed no run holds a mark. */
  lemma UnhighlightUnmarked(doc: Document)
    ensures Unmarked(Unhighlight(doc))
  {
    UnhighlightSpec(doc);
  }

  /** The search reports the empty-query notice exactly when the input is empty or white
      space only; the previous highlights are removed all the same and no mark is made. */
  lemma FindEmptyQuery(doc: Document, raw: string)
    ensures Find(doc, raw).1 == EmptyQuery <==> AllSpace(raw)
    ensures AllSpace(raw) ==> Find(doc, raw).0 == Unhighlight(doc) && DocMarkCount(Find(doc, raw).0) == 0
  {
    TrimEmptyIff(raw);
    UnhighlightSpec(doc);
    if !AllSpace(raw) {
      UnhighlightUnmarked(doc);
      SearchAsWrittenSpec(Unhighlight(doc), Trim(raw));
    }
  }

  /** For a query that is not blank, the search reports no occurrences exactly when no
      text node it scans holds a match, and then the document is only unhighlighted. */
  lemma FindNoMatches(doc: Document, raw: string)
    ensures Find(doc, raw).1 == NoMatches <==>
              !AllSpace(raw) && forall r, k :: !HitAt(Unhighlight(doc), Trim(raw), r, k)
    ensures Find(doc, raw).1 == NoMatches ==> Find(doc, raw).0 == Unhighlight(doc)
  {
    TrimEmptyIff(raw);
    if !AllSpace(raw) {
      UnhighlightUnmarked(doc);
      SearchAsWrittenSpec(Unhighlight(doc), Trim(raw));
    }
  }

  /** A reported count is positive and is the number of marks on the page afterwards. */
  lemma FindCount(doc: Document, raw: string)
    ensures Find(doc, raw).1.Found? ==> Find(doc, raw).1.count == DocMarkCount(Find(doc, raw).0) > 0
  {
    if Trim(raw) != [] {
      UnhighlightUnmarked(doc);
      SearchAsWrittenSpec(Unhighlight(doc), Trim(raw));
    }
  }

  /** The search never changes the text of the page, and every mark it leaves holds the
      trimmed query up to ASCII case. */
  lemma FindPreservesText(doc: Document, raw: string)
    ensures |Find(doc, raw).0| == |doc|
    ensures TextContent(Find(doc, raw).0) == TextContent(doc)
    ensures MarksMatch(Find(doc, raw).0, Trim(raw))
  {
    UnhighlightSpec(doc);
    var d := Unhighlight(doc);
    if Trim(raw) != [] {
      UnhighlightUnmarked(doc);
      SearchAsWrittenSpec(d, Trim(raw));
    } else {
      DocMarkCountZero(d);
      forall i | 0 <= i < |d| ensures NoMarks(d[i].children) {
        MarkCountZero(d[i].children);
      }
    }
  }

  /** Text under a `SCRIPT`, `STYLE` or `.highlight` parent is never highlighted: such a
      run comes out of the search as removing the highlights left it. */
  lemma FindLeavesSkippedRuns(doc: Document, raw: string)
    ensures forall i :: 0 <= i < |doc| && Skipped(doc[i].parent) ==>
              Find(doc, raw).0[i] == Unhighlight(doc)[i]
  {
    UnhighlightSpec(doc);
    if Trim(raw) != [] {
      UnhighlightUnmarked(doc);
      SearchAsWrittenSpec(Unhighlight(doc), Trim(raw));
    }
  }

  // The walk as its authors evidently meant it: every scanned text node is rewritten.

  /** Every text node of a child list replaced by the fragment built for it. */
  function HighlightChildren(c: seq<Segment>, q: string): seq<Segment>
    requires |q| > 0
  {
    if c == [] then []
    else (if c[0].Text? then Fragment(c[0].s, q, 0) else [c[0]]) + HighlightChildren(c[1..], q)
  }

  /** Rewriting the text nodes of a list keeps its text. */
  lemma {:induction false} HighlightChildrenText(c: seq<Segment>, q: string)
    requires |q| > 0
    ensures Flatten(HighlightChildren(c, q)) == Flatten(c)
  {
    if c != [] {
      var head := if c[0].Text? then Fragment(c[0].s, q, 0) else [c[0]];
      HighlightChildrenText(c[1..], q);
      FlattenAppend(head, HighlightChildren(c[1..], q));
      if c[0].Text? {
        FragmentText(c[0].s, q);
      } else {
        assert Flatten([c[0]]) == c[0].s + Flatten([c[0]][1..]) && [c[0]][1..] == [];
      }
    }
  }

  /** Rewriting a list of text nodes only makes marks that hold the query. */
  lemma {:induction false} HighlightChildrenMarks(c: seq<Segment>, q: string)
    requires |q| > 0 && NoMarks(c)
    ensures MarksHold(HighlightChildren(c, q), q)
  {
    if c != [] {
      var f := Fragment(c[0].s, q, 0);
      var rest := HighlightChildren(c[1..], q);
      assert NoMarks(c[1..]) by {
        assert forall k :: 0 <= k < |c| - 1 ==> c[1..][k] == c[k + 1];
      }
      HighlightChildrenMarks(c[1..], q);
      FragmentMarksMatch(c[0].s, q);
      assert c[0].Text?;
      var h := f + rest;
      assert HighlightChildren(c, q) == h;
      forall j | 0 <= j < |h| && h[j].Mark? ensures EqualsIgnoreCase(h[j].s, q) {
        if j < |f| {
          assert h[j] == f[j];
        } else {
          assert h[j] == rest[j - |f|];
        }
      }
    }
  }

  /** Rewriting a list of text nodes makes a mark exactly when one of them holds a match. */
  lemma {:induction false} HighlightChildrenCount(c: seq<Segment>, q: string)
    requires |q| > 0 && NoMarks(c)
    ensures MarkCount(HighlightChildren(c, q)) > 0 <==>
              exists k :: 0 <= k < |c| && NextMatch(c[k].s, q, 0).Some?
  {
    if c != [] {
      var f := Fragment(c[0].s, q, 0);
      assert NoMarks(c[1..]) by {
        assert forall k :: 0 <= k < |c| - 1 ==> c[1..][k] == c[k + 1];
      }
      HighlightChildrenCount(c[1..], q);
      MarkCountAppend(f, HighlightChildren(c[1..], q));
      FragmentHasMark(c[0].s, q);
      if exists k :: 0 <= k < |c| && NextMatch(c[k].s, q, 0).Some? {
        var k :| 0 <= k < |c| && NextMatch(c[k].s, q, 0).Some?;
        if k > 0 {
          assert c[1..][k - 1] == c[k];
        }
      } else {
        assert NextMatch(c[0].s, q, 0).None?;
        forall k | 0 <= k < |c| - 1 ensures NextMatch(c[1..][k].s, q, 0).None? {
          assert c[1..][k] == c[k + 1];
        }
      }
    }
  }

  /** A run with its text nodes rewritten, unless its parent is skipped. */
  function HighlightRun(run: Run, q: string): Run
    requires |q| > 0
  {
    if Skipped(run.parent) then run else Run(run.parent, HighlightChildren(run.children, q))
  }

  /** The intended walk (script.js:107-141 with every text node visited): each run on its
      own. Its properties are HighlightAllText and HighlightRunSpec. */
  function HighlightAll(d: Document, q: string): (r: Document)
    requires |q| > 0
    ensures |r| == |d| && forall i :: 0 <= i < |d| ==> r[i] == HighlightRun(d[i], q)
  {
    seq(|d|, i requires 0 <= i < |d| => HighlightRun(d[i], q))
  }

  /** The search as evidently intended (script.js:96-147): every scanned text node is
      rewritten and every match counted. Its properties are FindAllSpec. */
  function FindAll(doc: Document, raw: string): (Document, Outcome) {
    var q := Trim(raw);
    var d := Unhighlight(doc);
    if q == [] then (d, EmptyQuery)
    else
      var h := HighlightAll(d, q);
      var n := DocMarkCount(h);
      (h, if n == 0 then NoMatches else Found(n))
  }

  /** Rewriting every run keeps the document's text. */
  lemma {:induction false} HighlightAllText(d: Document, q: string)
    requires |q| > 0
    ensures TextContent(HighlightAll(d, q)) == TextContent(d)
  {
    if d != [] {
      assert HighlightAll(d, q)[1..] == HighlightAll(d[1..], q);
      HighlightChildrenText(d[0].children, q);
      HighlightAllText(d[1..], q);
    }
  }

  /** In an unmarked document, a run gets a mark from the rewrite exactly when it holds a
      hit, and every mark it gets holds the query. */
  lemma HighlightRunSpec(d: Document, q: string, r: nat)
    requires |q| > 0 && Unmarked(d) && r < |d|
    ensures MarksHold(HighlightRun(d[r], q).children, q)
    ensures MarkCount(HighlightRun(d[r], q).children) > 0 <==> exists k :: HitAt(d, q, r, k)
  {
    var c := d[r].children;
    MarkCountZero(c);
    if !Skipped(d[r].parent) {
      HighlightChildrenMarks(c, q);
      HighlightChildrenCount(c, q);
      if exists k :: 0 <= k < |c| && NextMatch(c[k].s, q, 0).Some? {
        var k :| 0 <= k < |c| && NextMatch(c[k].s, q, 0).Some?;
        assert HitAt(d, q, r, k);
      }
    }
  }

  /** The corrected search: for a query that is not blank, every text node it scans that
      holds a match gets marks, only those do, every mark holds the query, the text is
      kept, and the count is the number of marks on the page, positive unless it reports
      no occurrences. */
  lemma FindAllSpec(doc: Document, raw: string)
    requires !AllSpace(raw)
    ensures |FindAll(doc, raw).0| == |doc|
    ensures TextContent(FindAll(doc, raw).0) == TextContent(doc)
    ensures MarksMatch(FindAll(doc, raw).0, Trim(raw))
    ensures forall r :: 0 <= r < |doc| ==>
              (MarkCount(FindAll(doc, raw).0[r].children) > 0 <==> exists k :: HitAt(Unhighlight(doc), Trim(raw), r, k))
    ensures FindAll(doc, raw).1 == NoMatches <==> forall r, k :: !HitAt(Unhighlight(doc), Trim(raw), r, k)
    ensures FindAll(doc, raw).1.Found? ==> FindAll(doc, raw).1.count == DocMarkCount(FindAll(doc, raw).0) > 0
  {
    TrimEmptyIff(raw);
    var q := Trim(raw);
    var d := Unhighlight(doc);
    UnhighlightSpec(doc);
    UnhighlightUnmarked(doc);
    var h := HighlightAll(d, q);
    HighlightAllText(d, q);
    forall r | 0 <= r < |d|
      ensures MarksHold(h[r].children, q)
      ensures MarkCount(h[r].children) > 0 <==> exists k :: HitAt(d, q, r, k)
    {
      HighlightRunSpec(d, q, r);
    }
    DocMarkCountZero(h);
  }

  const Paragraph := Element("P", {})

  /** Two paragraphs that each read "a". */
  const TwoParagraphs: Document := [Run(Paragraph, [Text("a")]), Run(Paragraph, [Text("a")])]

  /** The fragment built for the text "a" when searching for "a". */
  const MarkedA: seq<Segment> := [Text(""), Mark("a"), Text("")]

  /** The query "a" trims to itself, and its one text node is rebuilt with one mark. */
  lemma QueryA()
    ensures Trim("a") == "a" && Fragment("a", "a", 0) == MarkedA && MarkCount(MarkedA) == 1
  {
    var q := "a";
    assert !IsSpace('a') && TrimBegin(q) == 0 && TrimStop(q) == 1;
    assert Trim(q) == q[0..1] == q;
    assert MatchesAt(q, 0, q);
    assert NextMatch(q, q, 0) == Some(0) && NextMatch(q, q, 1).None?;
    FragmentStep(q, q, 0, 0);
    FragmentEnd(q, q, 1);
    assert q[0..0] == "" && q[1..] == "";
    AlternatingMarkCount(MarkedA);
  }

  lemma TwoParagraphsUnmarked()
    ensures Unhighlight(TwoParagraphs) == TwoParagraphs
  {
    UnhighlightSpec(TwoParagraphs);
    assert MarkCount(TwoParagraphs[0].children) == 0 && MarkCount(TwoParagraphs[1].children) == 0;
  }

  /** The search as written marks the first paragraph only and reports one occurrence,
      although the second paragraph is a hit too. */
  lemma TwoParagraphsAsWritten()
    ensures HitAt(TwoParagraphs, "a", 1, 0)
    ensures Find(TwoParagraphs, "a") == ([Run(Paragraph, MarkedA), TwoParagraphs[1]], Found(1))
  {
    var doc, q := TwoParagraphs, "a";
    QueryA();
    TwoParagraphsUnmarked();
    assert HitAt(doc, q, 0, 0) && HitAt(doc, q, 1, 0);
    assert FirstHit(doc, q) == Some(Pos(0, 0));
    var c := doc[0].children;
    assert c[..0] + MarkedA + c[1..] == MarkedA;
    assert ReplaceChild(doc, Pos(0, 0), MarkedA) == [Run(Paragraph, MarkedA), doc[1]];
  }

  /** The corrected search marks both paragraphs and reports two occurrences. */
  lemma TwoParagraphsIntended()
    ensures FindAll(TwoParagraphs, "a").1 == Found(2)
  {
    var doc, q := TwoParagraphs, "a";
    QueryA();
    TwoParagraphsUnmarked();
    var c := doc[0].children;
    assert c[1..] == [];
    assert HighlightChildren(c, q) == MarkedA + HighlightChildren([], q) == MarkedA;
    var h := HighlightAll(doc, q);
    assert h == [Run(Paragraph, MarkedA), Run(Paragraph, MarkedA)];
    assert h[1..][1..] == [];
    assert DocMarkCount(h) == 1 + DocMarkCount(h[1..]) == 1 + 1 + DocMarkCount([]);
  }

  /** The walk stops after the first rewrite: of two paragraphs that each read "a", the
      search for "a" marks the first, leaves the match in the second unmarked and reports
      one occurrence, where the corrected search marks both and reports two. */
  lemma WalkStopsAfterFirstRewrite()
    ensures HitAt(Unhighlight(TwoParagraphs), "a", 1, 0)
    ensures Find(TwoParagraphs, "a") == ([Run(Paragraph, MarkedA), Run(Paragraph, [Text("a")])], Found(1))
    ensures FindAll(TwoParagraphs, "a").1 == Found(2)
  {
    TwoParagraphsUnmarked();
    TwoParagraphsAsWritten();
    TwoParagraphsIntended();
  }

  /** The position of the first mark of a sibling list: the next element of the static
      list `querySelectorAll('mark.highlight')` in this parent. */
  method FirstMark(c: seq<Segment>) returns (k: nat)
    requires MarkCount(c) > 0
    ensures k < |c| && c[k].Mark? && forall j :: 0 <= j < k ==> c[j].Text?
  {
    k := 0;
    assert c[0..] == c;
    while !c[k].Mark?
      invariant k <= |c| && MarkCount(c[k..]) > 0
      invariant forall j :: 0 <= j < k ==> c[j].Text?
      decreases |c| - k
    {
      assert c[k..][1..] == c[k + 1..];
      k := k + 1;
    }
  }

  /** Turning the mark at `k` back into a text node and normalizing the parent keeps the
      text, normalizes the list and removes exactly one mark. */
  lemma UnmarkOneSpec(c: seq<Segment>, k: nat)
    requires k < |c| && c[k].Mark?
    ensures var g := Normalize(c[..k] + [Text(c[k].s)] + c[k + 1..]);
      && Flatten(g) == Flatten(c) && Normalized(g) && MarkCount(g) == MarkCount(c) - 1
  {
    var t := Text(c[k].s);
    var g := c[..k] + [t] + c[k + 1..];
    FlattenSplice(c, k, [t]);
    MarkCountSplice(c, k, [t]);
    Single(t);
    Single(c[k]);
    NormalizeSpec(g);
  }

  /** A normalized list with no mark is the single text node `normalize()` leaves. */
  lemma NormalizedTextIsCanon(c: seq<Segment>)
    requires Normalized(c) && NoMarks(c)
    ensures c == Canon(Flatten(c))
  {
    NormalizeFixed(c);
    NormalizeTextOnly(c);
  }

  /** `removeHighlights` on the children of one parent: each mark, in document order, is
      replaced by a text node with its text and the parent is normalized. */
  method RemoveMarks(c: seq<Segment>) returns (res: seq<Segment>)
    ensures MarkCount(c) > 0 ==> res == Normalize(Unmark(c))
    ensures MarkCount(c) == 0 ==> res == c
  {
    res := c;
    while MarkCount(res) > 0
      invariant Flatten(res) == Flatten(c)
      invariant res == c || (Normalized(res) && MarkCount(c) > 0)
      decreases MarkCount(res)
    {
      var k := FirstMark(res);
      UnmarkOneSpec(res, k);
      res := Normalize(res[..k] + [Text(res[k].s)] + res[k + 1..]);
    }
    if MarkCount(c) > 0 {
      MarkCountZero(res);
      NormalizedTextIsCanon(res);
      UnhighlightRunSpec(Run(MarkElement, c));
    }
  }

  /** A position that is no hit does not change where the walk's first hit is. */
  lemma WalkPast(d: Document, q: string, r: nat, k: nat)
    requires r < |d| && k < |d[r].children| && !HitAt(d, q, r, k)
    ensures FirstHitFrom(d, q, r, k) == FirstHitFrom(d, q, r, k + 1)
  {
  }

  /** At the end of a run the walk goes on with the first child of the next run. */
  lemma WalkNextRun(d: Document, q: string, r: nat)
    requires r < |d|
    ensures FirstHitFrom(d, q, r, |d[r].children|) == FirstHitFrom(d, q, r + 1, 0)
  {
  }

  /** The walk that reaches a hit first rewrites that hit, and only it. */
  lemma WalkHit(d: Document, q: string, r: nat, k: nat, f: seq<Segment>)
    requires |q| > 0 && HitAt(d, q, r, k) && FirstHit(d, q) == FirstHitFrom(d, q, r, k)
    requires f == Fragment(d[r].children[k].s, q, 0)
    ensures SearchAsWritten(d, q).0 == ReplaceChild(d, Pos(r, k), f)
    ensures SearchAsWritten(d, q).1 == Found(MarkCount(f))
  {
  }

  /** The walk that reaches the end finds nothing. */
  lemma WalkEnd(d: Document, q: string)
    requires |q| > 0 && FirstHit(d, q) == FirstHitFrom(d, q, |d|, 0)
    ensures SearchAsWritten(d, q) == (d, NoMatches)
  {
  }

  /** The page: its runs of text-bearing children in document order. */
  class Page {
    var runs: Document

    constructor(doc: Document)
      ensures runs == doc
    {
      runs := doc;
    }

    /** `removeHighlights`: every `mark.highlight` is replaced by its text and its parent
        normalized. */
    method RemoveHighlights()
      modifies this
      ensures runs == Unhighlight(old(runs))
    {
      var r := 0;
      while r < |runs|
        invariant r <= |runs| == |old(runs)|
        invariant forall i :: 0 <= i < r ==> runs[i] == UnhighlightRun(old(runs)[i])
        invariant forall i :: r <= i < |runs| ==> runs[i] == old(runs)[i]
      {
        var children := RemoveMarks(runs[r].children);
        runs := runs[r := Run(runs[r].parent, children)];
        r := r + 1;
      }
    }

    /** `performSearch` with the search box holding `raw`: trim the query, remove the
        previous highlights, and walk the page unless the query is blank. */
    method PerformSearch(raw: string) returns (outcome: Outcome)
      modifies this
      ensures (runs, outcome) == Find(old(runs), raw)
    {
      var query := Trim(raw);
      RemoveHighlights();
      if query == [] {
        return EmptyQuery;
      }
      outcome := Walk(query);
    }

    /** The tree walk of `performSearch` over the text nodes of the page, ending as soon as
        a text node has been replaced: the replaced node is the walker's current node and,
        now detached, has neither a next sibling nor a parent, so `nextNode()` returns
        null (section 6.2 of the DOM Standard). */
    method Walk(query: string) returns (outcome: Outcome)
      requires |query| > 0
      modifies this
      ensures (runs, outcome) == SearchAsWritten(old(runs), query)
    {
      ghost var d := runs;
      var foundCount := 0;
      var walkEnded := false;
      var r := 0;
      while r < |runs| && !walkEnded
        invariant r <= |d|
        invariant !walkEnded ==> runs == d && foundCount == 0 && FirstHit(d, query) == FirstHitFrom(d, query, r, 0)
        invariant walkEnded ==> runs == SearchAsWritten(d, query).0 && Found(foundCount) == SearchAsWritten(d, query).1
        invariant walkEnded ==> foundCount > 0
        decreases |d| - r, if walkEnded then 0 else 1
      {
        foundCount, walkEnded := WalkRun(d, query, r, foundCount);
        if !walkEnded {
          r := r + 1;
        }
      }
      if !walkEnded {
        WalkEnd(d, query);
      }
      if foundCount == 0 {
        outcome := NoMatches;
      } else {
        outcome := Found(foundCount);
      }
    }

    /** The walk over the children of run `r`, with the running count `found`: each text
        node the walker does not skip is scanned, and replaced by its fragment once the
        running count is positive, which ends the walk. */
    method WalkRun(ghost d: Document, query: string, r: nat, found: nat) returns (foundCount: nat, walkEnded: bool)
      requires |query| > 0 && runs == d && r < |d| && found == 0
      requires FirstHit(d, query) == FirstHitFrom(d, query, r, 0)
      modifies this
      ensures !walkEnded ==> runs == d && foundCount == 0 && FirstHit(d, query) == FirstHitFrom(d, query, r + 1, 0)
      ensures walkEnded ==> runs == SearchAsWritten(d, query).0 && Found(foundCount) == SearchAsWritten(d, query).1
      ensures walkEnded ==> foundCount > 0
    {
      foundCount := found;
      walkEnded := false;
      var k := 0;
      while k < |runs[r].children| && !walkEnded
        invariant !walkEnded ==> runs == d && foundCount == 0 && k <= |d[r].children|
        invariant !walkEnded ==> FirstHit(d, query) == FirstHitFrom(d, query, r, k)
        invariant walkEnded ==> runs == SearchAsWritten(d, query).0 && Found(foundCount) == SearchAsWritten(d, query).1
        invariant walkEnded ==> foundCount > 0
        decreases |d[r].children| - k, if walkEnded then 0 else 1
      {
        var node := runs[r].children[k];
        var parent := if node.Mark? then MarkElement else runs[r].parent;
        if Skipped(parent) {
          WalkPast(d, query, r, k);
          k := k + 1;
        } else {
          var fragment, total := HighlightNode(node.s, query, foundCount);
          FragmentHasMark(node.s, query);
          foundCount := total;
          if foundCount > 0 {
            WalkHit(d, query, r, k, fragment);
            runs := ReplaceChild(runs, Pos(r, k), fragment);
            walkEnded := true;
          } else {
            WalkPast(d, query, r, k);
            k := k + 1;
          }
        }
      }
      if !walkEnded {
        WalkNextRun(d, query, r);
      }
    }
  }
}

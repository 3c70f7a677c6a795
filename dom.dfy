/** The part of the document tree the search touches. A text node's parent is an
    `Element`; the children the search reads and rewrites are text nodes and
    `<mark class="highlight">` elements, each of which wraps one text node.
    `Node.normalize()` is given here as the DOM Standard (section 4.4) defines it. */
module Dom {
  import opened Strings

  /** One child node: a text node, or a `mark.highlight` element around the text `s`. */
  datatype Segment = Text(s: string) | Mark(s: string)

  /** An element as the skip rule sees it: its `nodeName` and its class list. */
  datatype Element = Element(nodeName: string, classes: set<string>)

  /** The parent of the text node inside a mark the search creates. */
  const MarkElement := Element("MARK", {"highlight"})

  /** Consecutive children of one parent element with no other element between them. */
  datatype Run = Run(parent: Element, children: seq<Segment>)

  /** The document in document order, as the runs of text-bearing children it is made of. */
  type Document = seq<Run>

  /** The text a sibling list shows: its segments' characters, joined in order. */
  function Flatten(f: seq<Segment>): string {
    if f == [] then [] else f[0].s + Flatten(f[1..])
  }

  lemma {:induction false} FlattenAppend(a: seq<Segment>, b: seq<Segment>)
    ensures Flatten(a + b) == Flatten(a) + Flatten(b)
  {
    if a == [] {
      assert a + b == b;
    } else {
      assert (a + b)[1..] == a[1..] + b;
      FlattenAppend(a[1..], b);
    }
  }

  function MarkCount(f: seq<Segment>): nat {
    if f == [] then 0 else (if f[0].Mark? then 1 else 0) + MarkCount(f[1..])
  }

  lemma {:induction false} MarkCountAppend(a: seq<Segment>, b: seq<Segment>)
    ensures MarkCount(a + b) == MarkCount(a) + MarkCount(b)
  {
    if a == [] {
      assert a + b == b;
    } else {
      assert (a + b)[1..] == a[1..] + b;
      MarkCountAppend(a[1..], b);
    }
  }

  /** A single child shows its own characters and holds a mark exactly when it is one. */
  lemma Single(x: Segment)
    ensures Flatten([x]) == x.s
    ensures MarkCount([x]) == if x.Mark? then 1 else 0
  {
    assert [x][1..] == [];
  }

  predicate NoMarks(f: seq<Segment>) {
    forall k :: 0 <= k < |f| ==> f[k].Text?
  }

  /** A sibling list holds no mark exactly when its mark count is zero. */
  lemma {:induction false} MarkCountZero(f: seq<Segment>)
    ensures MarkCount(f) == 0 <==> NoMarks(f)
  {
    if f != [] {
      MarkCountZero(f[1..]);
      assert forall k :: 1 <= k < |f| ==> f[k] == f[1..][k - 1];
    }
  }

  /** Every mark of a sibling list holds `q`, up to ASCII case. */
  predicate MarksHold(f: seq<Segment>, q: string) {
    forall j :: 0 <= j < |f| && f[j].Mark? ==> EqualsIgnoreCase(f[j].s, q)
  }

  /** The contents of the marks of a sibling list, in order. */
  function Marks(f: seq<Segment>): seq<string> {
    if f == [] then [] else (if f[0].Mark? then [f[0].s] else []) + Marks(f[1..])
  }

  /** No two text nodes are adjacent and no text node is empty. */
  predicate Normalized(f: seq<Segment>) {
    && (forall k :: 0 <= k < |f| && f[k].Text? ==> f[k].s != [])
    && (forall k :: 0 <= k < |f| - 1 && f[k].Text? ==> f[k + 1].Mark?)
  }

  /** `normalize()` on one element's children (script.js:92): every maximal run of adjacent
      text nodes becomes a single text node holding their joined data, and empty text nodes
      go. Its properties are NormalizeSpec, NormalizeAroundMark, NormalizeTextOnly and
      NormalizeFixed. */
  function Normalize(f: seq<Segment>): seq<Segment> {
    if f == [] then []
    else
      var rest := Normalize(f[1..]);
      match f[0]
      case Mark(_) => [f[0]] + rest
      case Text(s) =>
        if rest != [] && rest[0].Text? then [Text(s + rest[0].s)] + rest[1..]
        else if s == [] then rest
        else [Text(s)] + rest
  }

  /** `normalize()` leaves a normalized list with the same text and the same marks. */
  lemma NormalizeSpec(f: seq<Segment>)
    ensures Normalized(Normalize(f))
    ensures Flatten(Normalize(f)) == Flatten(f)
    ensures Marks(Normalize(f)) == Marks(f)
    ensures MarkCount(Normalize(f)) == MarkCount(f)
  {
    NormalizeNormalized(f);
    NormalizeText(f);
    NormalizeMarks(f);
  }

  lemma {:induction false} NormalizeNormalized(f: seq<Segment>)
    ensures Normalized(Normalize(f))
  {
    if f != [] {
      var rest := Normalize(f[1..]);
      NormalizeNormalized(f[1..]);
      var r := Normalize(f);
      match f[0]
      case Mark(m) =>
        assert forall k :: 1 <= k < |r| ==> r[k] == rest[k - 1];
      case Text(s) =>
        if rest != [] && rest[0].Text? {
          assert forall k :: 1 <= k < |r| ==> r[k] == rest[k];
        } else if s == [] {
        } else {
          assert forall k :: 1 <= k < |r| ==> r[k] == rest[k - 1];
        }
    }
  }

  lemma {:induction false} NormalizeText(f: seq<Segment>)
    ensures Flatten(Normalize(f)) == Flatten(f)
  {
    if f != [] {
      var rest := Normalize(f[1..]);
      NormalizeText(f[1..]);
      match f[0]
      case Mark(m) =>
        FlattenCons(f[0], rest);
      case Text(s) =>
        if rest != [] && rest[0].Text? {
          FlattenMerge(s, rest);
        } else if s == [] {
          assert Flatten(f) == [] + Flatten(f[1..]);
        } else {
          FlattenCons(Text(s), rest);
        }
    }
  }

  lemma FlattenCons(x: Segment, rest: seq<Segment>)
    ensures Flatten([x] + rest) == x.s + Flatten(rest)
  {
    assert ([x] + rest)[1..] == rest;
  }

  /** Joining a text node into the text node after it leaves the text as it was. */
  lemma FlattenMerge(s: string, rest: seq<Segment>)
    requires rest != [] && rest[0].Text?
    ensures Flatten([Text(s + rest[0].s)] + rest[1..]) == s + Flatten(rest)
  {
    var t, tail := rest[0].s, Flatten(rest[1..]);
    FlattenCons(Text(s + t), rest[1..]);
    assert Flatten(rest) == t + tail;
    ConcatAssoc(s, t, tail);
  }

  lemma {:induction false} NormalizeMarks(f: seq<Segment>)
    ensures Marks(Normalize(f)) == Marks(f)
    ensures MarkCount(Normalize(f)) == MarkCount(f)
  {
    if f != [] {
      var rest := Normalize(f[1..]);
      NormalizeMarks(f[1..]);
      var r := Normalize(f);
      match f[0]
      case Mark(m) =>
        assert r[1..] == rest;
      case Text(s) =>
        if rest != [] && rest[0].Text? {
          assert r[1..] == rest[1..];
          assert Marks(rest) == Marks(rest[1..]) && MarkCount(rest) == MarkCount(rest[1..]);
        } else if s == [] {
          assert Marks(f) == [] + Marks(f[1..]);
        } else {
          assert r[1..] == rest;
        }
    }
  }

  /** A list that is already normalized is left as it is, so `normalize()` is idempotent. */
  lemma {:induction false} NormalizeFixed(f: seq<Segment>)
    requires Normalized(f)
    ensures Normalize(f) == f
  {
    if f != [] {
      assert Normalized(f[1..]) by {
        assert forall k :: 0 <= k < |f| - 1 ==> f[1..][k] == f[k + 1];
      }
      NormalizeFixed(f[1..]);
    }
  }

  /** One step of `normalize()`: the child `x` put in front of the already normalized
      list `rest`. */
  function Absorb(x: Segment, rest: seq<Segment>): seq<Segment> {
    match x
    case Mark(_) => [x] + rest
    case Text(s) =>
      if rest != [] && rest[0].Text? then [Text(s + rest[0].s)] + rest[1..]
      else if s == [] then rest
      else [Text(s)] + rest
  }

  lemma NormalizeCons(x: Segment, w: seq<Segment>)
    ensures Normalize([x] + w) == Absorb(x, Normalize(w))
  {
    assert ([x] + w)[0] == x && ([x] + w)[1..] == w;
  }

  /** Segments after a mark are left alone by the step in front of them. */
  lemma AbsorbBeforeMark(x: Segment, rest: seq<Segment>, tail: seq<Segment>)
    requires tail != [] && tail[0].Mark?
    ensures Absorb(x, rest + tail) == Absorb(x, rest) + tail
  {
    var r := rest + tail;
    assert r[0] == if rest == [] then tail[0] else rest[0];
    match x
    case Mark(_) =>
      assert [x] + r == ([x] + rest) + tail;
    case Text(t) =>
      if rest != [] && rest[0].Text? {
        assert r[1..] == rest[1..] + tail;
        assert [Text(t + rest[0].s)] + r[1..] == ([Text(t + rest[0].s)] + rest[1..]) + tail;
      } else if t == [] {
      } else {
        assert [Text(t)] + r == ([Text(t)] + rest) + tail;
      }
  }

  /** A mark is never merged with anything, so `normalize()` works on the text on each side
      of a mark on its own: the mark stays where it is, with the same text around it. */
  lemma {:induction false} NormalizeAroundMark(a: seq<Segment>, m: string, b: seq<Segment>)
    ensures Normalize(a + [Mark(m)] + b) == Normalize(a) + [Mark(m)] + Normalize(b)
  {
    var tail := [Mark(m)] + Normalize(b);
    if a == [] {
      assert a + [Mark(m)] + b == [Mark(m)] + b;
      NormalizeCons(Mark(m), b);
    } else {
      var w := a[1..] + [Mark(m)] + b;
      assert a + [Mark(m)] + b == [a[0]] + w;
      assert a == [a[0]] + a[1..];
      NormalizeAroundMark(a[1..], m, b);
      NormalizeCons(a[0], w);
      NormalizeCons(a[0], a[1..]);
      assert Normalize(w) == Normalize(a[1..]) + tail;
      AbsorbBeforeMark(a[0], Normalize(a[1..]), tail);
    }
    assert Normalize(a) + [Mark(m)] + Normalize(b) == Normalize(a) + tail;
  }

  /** The single text node (or nothing) that a mark-free list of text normalizes to. */
  function Canon(s: string): seq<Segment> {
    if s == [] then [] else [Text(s)]
  }

  /** On a list of text nodes only, `normalize()` joins everything into one text node,
      or leaves nothing when all of them are empty. */
  lemma {:induction false} NormalizeTextOnly(f: seq<Segment>)
    requires NoMarks(f)
    ensures Normalize(f) == Canon(Flatten(f))
  {
    if f != [] {
      assert NoMarks(f[1..]) by {
        assert forall k :: 0 <= k < |f| - 1 ==> f[1..][k] == f[k + 1];
      }
      NormalizeTextOnly(f[1..]);
      var t := Flatten(f[1..]);
      assert f[0].Text? && Flatten(f) == f[0].s + t;
      if t == [] {
        assert Flatten(f) == f[0].s;
      }
    }
  }

  /** Each mark replaced by a text node carrying the same characters, as
      `replaceChild(document.createTextNode(el.textContent), el)` does (script.js:91). */
  function Unmark(f: seq<Segment>): (r: seq<Segment>)
    ensures |r| == |f| && forall k :: 0 <= k < |f| ==> r[k] == Text(f[k].s)
  {
    seq(|f|, k requires 0 <= k < |f| => Text(f[k].s))
  }

  lemma {:induction false} FlattenUnmark(f: seq<Segment>)
    ensures Flatten(Unmark(f)) == Flatten(f)
  {
    if f != [] {
      assert Unmark(f)[1..] == Unmark(f[1..]);
      FlattenUnmark(f[1..]);
    }
  }

  /** What removing the highlights does to one run (script.js:89-93): if it holds a
      `mark.highlight`, each mark is replaced by its text and the parent is normalized;
      otherwise nothing happens. Its properties are UnhighlightRunSpec and UnhighlightSpec. */
  function UnhighlightRun(run: Run): Run {
    if MarkCount(run.children) > 0 then Run(run.parent, Normalize(Unmark(run.children))) else run
  }

  /** `removeHighlights` (script.js:87-94) on the whole page: every run on its own. */
  function Unhighlight(doc: Document): (r: Document)
    ensures |r| == |doc| && forall i :: 0 <= i < |doc| ==> r[i] == UnhighlightRun(doc[i])
  {
    seq(|doc|, i requires 0 <= i < |doc| => UnhighlightRun(doc[i]))
  }

  /** The document's text: every run's text, joined in document order. */
  function TextContent(doc: Document): string {
    if doc == [] then [] else Flatten(doc[0].children) + TextContent(doc[1..])
  }

  function DocMarkCount(doc: Document): nat {
    if doc == [] then 0 else MarkCount(doc[0].children) + DocMarkCount(doc[1..])
  }

  /** Removing the highlights of one run leaves its parent and its text, leaves no mark, and
      leaves the children normalized wherever there was a mark to remove. */
  lemma UnhighlightRunSpec(run: Run)
    ensures UnhighlightRun(run).parent == run.parent
    ensures Flatten(UnhighlightRun(run).children) == Flatten(run.children)
    ensures NoMarks(UnhighlightRun(run).children)
    ensures MarkCount(run.children) > 0 ==>
              Normalized(UnhighlightRun(run).children)
              && UnhighlightRun(run).children == Canon(Flatten(run.children))
    ensures MarkCount(run.children) == 0 ==> UnhighlightRun(run) == run
  {
    MarkCountZero(run.children);
    if MarkCount(run.children) > 0 {
      var u := Unmark(run.children);
      FlattenUnmark(run.children);
      NormalizeTextOnly(u);
      NormalizeSpec(u);
    }
  }

  lemma {:induction false} TextContentUnhighlight(doc: Document)
    ensures TextContent(Unhighlight(doc)) == TextContent(doc)
    ensures DocMarkCount(Unhighlight(doc)) == 0
  {
    if doc != [] {
      UnhighlightRunSpec(doc[0]);
      MarkCountZero(UnhighlightRun(doc[0]).children);
      assert Unhighlight(doc)[1..] == Unhighlight(doc[1..]);
      TextContentUnhighlight(doc[1..]);
    }
  }

  /** After the highlights are removed no mark is left anywhere, every run's text is the
      same as before, and every run that held a mark is normalized. */
  lemma UnhighlightSpec(doc: Document)
    ensures TextContent(Unhighlight(doc)) == TextContent(doc)
    ensures DocMarkCount(Unhighlight(doc)) == 0
    ensures forall i :: 0 <= i < |doc| ==>
              && Unhighlight(doc)[i].parent == doc[i].parent
              && Flatten(Unhighlight(doc)[i].children) == Flatten(doc[i].children)
              && NoMarks(Unhighlight(doc)[i].children)
              && (MarkCount(doc[i].children) > 0 ==> Normalized(Unhighlight(doc)[i].children))
              && (MarkCount(doc[i].children) == 0 ==> Unhighlight(doc)[i] == doc[i])
  {
    TextContentUnhighlight(doc);
    forall i | 0 <= i < |doc| ensures MarkCount(doc[i].children) > 0 ==> Normalized(Unhighlight(doc)[i].children) {
      UnhighlightRunSpec(doc[i]);
    }
    forall i | 0 <= i < |doc| ensures NoMarks(Unhighlight(doc)[i].children) {
      UnhighlightRunSpec(doc[i]);
    }
    forall i | 0 <= i < |doc| ensures Flatten(Unhighlight(doc)[i].children) == Flatten(doc[i].children) {
      UnhighlightRunSpec(doc[i]);
    }
  }

  /** Removing the highlights a second time changes nothing. */
  lemma UnhighlightIdempotent(doc: Document)
    ensures Unhighlight(Unhighlight(doc)) == Unhighlight(doc)
  {
    var u := Unhighlight(doc);
    forall i | 0 <= i < |u| ensures UnhighlightRun(u[i]) == u[i] {
      UnhighlightRunSpec(doc[i]);
      MarkCountZero(u[i].children);
    }
  }

  /** Replacing the child at `k` by the list `f` puts `f`'s text where that child's was. */
  lemma FlattenSplice(c: seq<Segment>, k: nat, f: seq<Segment>)
    requires k < |c|
    ensures Flatten(c[..k] + f + c[k + 1..]) == Flatten(c[..k]) + Flatten(f) + Flatten(c[k + 1..])
    ensures Flatten(c) == Flatten(c[..k]) + c[k].s + Flatten(c[k + 1..])
  {
    FlattenThree(c[..k], f, c[k + 1..]);
    FlattenThree(c[..k], [c[k]], c[k + 1..]);
    assert c == c[..k] + [c[k]] + c[k + 1..];
    Single(c[k]);
  }

  lemma FlattenThree(a: seq<Segment>, b: seq<Segment>, c: seq<Segment>)
    ensures Flatten(a + b + c) == Flatten(a) + Flatten(b) + Flatten(c)
  {
    FlattenAppend(a + b, c);
    FlattenAppend(a, b);
  }

  /** Replacing the child at `k` by the list `f` trades that child's marks for `f`'s. */
  lemma MarkCountSplice(c: seq<Segment>, k: nat, f: seq<Segment>)
    requires k < |c|
    ensures MarkCount(c[..k] + f + c[k + 1..]) == MarkCount(c[..k]) + MarkCount(f) + MarkCount(c[k + 1..])
    ensures MarkCount(c) == MarkCount(c[..k]) + MarkCount([c[k]]) + MarkCount(c[k + 1..])
  {
    MarkCountThree(c[..k], f, c[k + 1..]);
    MarkCountThree(c[..k], [c[k]], c[k + 1..]);
    assert c == c[..k] + [c[k]] + c[k + 1..];
  }

  lemma MarkCountThree(a: seq<Segment>, b: seq<Segment>, c: seq<Segment>)
    ensures MarkCount(a + b + c) == MarkCount(a) + MarkCount(b) + MarkCount(c)
  {
    MarkCountAppend(a + b, c);
    MarkCountAppend(a, b);
  }

  /** A run whose text stays the same leaves the document's text the same. */
  lemma {:induction false} TextContentUpdate(d: Document, i: nat, run: Run)
    requires i < |d| && Flatten(run.children) == Flatten(d[i].children)
    ensures TextContent(d[i := run]) == TextContent(d)
  {
    if i > 0 {
      assert d[i := run][1..] == d[1..][i - 1 := run];
      TextContentUpdate(d[1..], i - 1, run);
    }
  }

  /** Replacing a run trades its marks for those of the new run. */
  lemma {:induction false} DocMarkCountUpdate(d: Document, i: nat, run: Run)
    requires i < |d|
    ensures DocMarkCount(d[i := run]) + MarkCount(d[i].children) == DocMarkCount(d) + MarkCount(run.children)
  {
    if i > 0 {
      assert d[i := run][1..] == d[1..][i - 1 := run];
      DocMarkCountUpdate(d[1..], i - 1, run);
    }
  }

  /** A document with no mark has no mark in any run. */
  lemma {:induction false} DocMarkCountZero(d: Document)
    ensures DocMarkCount(d) == 0 <==> forall i :: 0 <= i < |d| ==> MarkCount(d[i].children) == 0
  {
    if d != [] {
      DocMarkCountZero(d[1..]);
      assert forall i :: 1 <= i < |d| ==> d[i] == d[1..][i - 1];
    }
  }
}

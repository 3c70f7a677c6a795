/** The highlighter the search runs on one text node: it scans the node's text for the
    query, leftmost match first, and builds the fragment of text nodes and marks that
    replaces the node. */
module Highlight {
  import opened Strings
  import opened Dom

  /** The fragment built for `text` from offset `from` on: the text before the next
      match, a mark holding the match as it is written in `text`, then the fragment for
      the rest; once no match is left, one text node with the remaining text, which may
      be empty (script.js:116-136). Its properties are FragmentObeysScanRules,
      ScanRulesDetermineFragment, FragmentText, FragmentMarksMatch and FragmentMarkCount. */
  function Fragment(text: string, q: string, from: nat): seq<Segment>
    requires |q| > 0 && from <= |text|
    decreases |text| - from
  {
    match NextMatch(text, q, from)
    case None => [Text(text[from..])]
    case Some(i) => [Text(text[from..i]), Mark(text[i..i + |q|])] + Fragment(text, q, i + |q|)
  }

  /** The fragment the scan builds from offset `from`. Lemmas that hand this value on to
      the next lemma name it through this non-recursive function, so the solver does not
      have to unfold the recursion again to see that the values agree. */
  function FragmentFrom(text: string, q: string, from: nat): seq<Segment>
    requires |q| > 0 && from <= |text|
  {
    Fragment(text, q, from)
  }

  /** One step of the scan: a match at `i` contributes the text before it and its mark. */
  lemma FragmentStep(text: string, q: string, from: nat, i: nat)
    requires |q| > 0 && from <= |text|
    requires NextMatch(text, q, from) == Some(i)
    ensures i + |q| <= |text|
    ensures Fragment(text, q, from) == [Text(text[from..i]), Mark(text[i..i + |q|])] + Fragment(text, q, i + |q|)
  {
  }

  /** One step of the scan, with the gap, the mark and the rest of the fragment given. */
  lemma StepWith(text: string, q: string, from: nat, i: nat, gap: string, m: string, rest: seq<Segment>, f: seq<Segment>)
    requires |q| > 0 && from <= |text|
    requires NextMatch(text, q, from) == Some(i)
    requires gap == text[from..i] && m == text[i..i + |q|] && FragmentFrom(text, q, i + |q|) == rest
    requires f == [Text(gap), Mark(m)] + rest
    ensures FragmentFrom(text, q, from) == f
  {
  }

  /** The end of the scan: with no match left, the rest of the text is one text node. */
  lemma FragmentEnd(text: string, q: string, from: nat)
    requires |q| > 0 && from <= |text|
    requires NextMatch(text, q, from).None?
    ensures Fragment(text, q, from) == [Text(text[from..])]
  {
  }

  /** The number of characters before segment `k`. */
  function Offset(f: seq<Segment>, k: nat): nat
    requires k <= |f|
  {
    if k == 0 then 0 else |f[0].s| + Offset(f[1..], k - 1)
  }

  /** Text nodes and marks alternate, starting and ending with a text node. */
  predicate Alternates(f: seq<Segment>) {
    |f| % 2 == 1 && forall k :: 0 <= k < |f| ==> (TextAt(f, k) <==> k % 2 == 0)
  }

  /** Segment `k` of `f` is a text node. */
  predicate TextAt(f: seq<Segment>, k: nat)
    requires k < |f|
  {
    f[k].Text?
  }

  /** `s` is a match of the query, copied from `text` at offset `o`. */
  predicate MarkAt(text: string, q: string, o: nat, s: string) {
    MatchesAt(text, o, q) && s == text[o..o + |q|]
  }

  /** Every mark is the query up to case, copied from `text` where the mark stands
      (the segments of `f` start at offset `base` of `text`). */
  predicate MarksAreMatches(text: string, q: string, base: nat, f: seq<Segment>) {
    forall k {:trigger Offset(f, k)} :: 0 <= k < |f| && f[k].Mark? ==> MarkAt(text, q, base + Offset(f, k), f[k].s)
  }

  /** No match of the query starts inside a text node, so each mark is the leftmost
      match after the one before it. */
  predicate GapsHaveNoMatch(text: string, q: string, base: nat, f: seq<Segment>) {
    forall k {:trigger Offset(f, k)} :: 0 <= k < |f| && f[k].Text? ==>
      NoMatchIn(text, q, base + Offset(f, k), base + Offset(f, k) + |f[k].s|)
  }

  /** The rules the scan of one text node promises of the fragment `f` it builds from
      offset `base` of `text`: the fragment shows exactly the text from `base` on, and
      its text nodes, marks and matches are laid out as the three predicates above say. */
  predicate ScanRules(text: string, q: string, base: nat, f: seq<Segment>)
    requires base <= |text|
  {
    && Flatten(f) == text[base..]
    && Alternates(f)
    && MarksAreMatches(text, q, base, f)
    && GapsHaveNoMatch(text, q, base, f)
  }

  lemma OffsetFirst(f: seq<Segment>)
    requires |f| >= 1
    ensures Offset(f, 0) == 0 && Offset(f, 1) == |f[0].s|
  {
  }

  /** Offsets in `f` past its first two segments are offsets in `f[2..]` shifted by the
      length of those two. */
  lemma OffsetShift(f: seq<Segment>, k: nat)
    requires 2 <= k <= |f|
    ensures Offset(f, k) == |f[0].s| + |f[1].s| + Offset(f[2..], k - 2)
  {
    assert f[1..][1..] == f[2..];
  }

  /** The text of a list with two segments in front is their text, then the rest's. */
  lemma FlattenTwo(f: seq<Segment>)
    requires |f| >= 2
    ensures Flatten(f) == f[0].s + f[1].s + Flatten(f[2..])
  {
    assert f[1..][1..] == f[2..];
  }

  /** Splitting the text that a fragment shows at the end of its first two segments. */
  lemma FlattenTail(text: string, base: nat, f: seq<Segment>, j: nat)
    requires |f| >= 2 && base <= |text| && Flatten(f) == text[base..]
    requires j == base + |f[0].s| + |f[1].s|
    ensures j <= |text|
    ensures f[0].s == text[base..base + |f[0].s|] && f[1].s == text[base + |f[0].s|..j]
    ensures Flatten(f[2..]) == text[j..]
  {
    FlattenTwo(f);
    var i := base + |f[0].s|;
    assert text[base..] == f[0].s + f[1].s + Flatten(f[2..]);
    assert text[base..][..|f[0].s|] == f[0].s;
    assert text[base..][|f[0].s|..j - base] == f[1].s;
    assert text[base..][j - base..] == Flatten(f[2..]);
  }

  lemma SplitTwo(f: seq<Segment>, a: Segment, b: Segment, g: seq<Segment>)
    requires |f| >= 2 && f[0] == a && f[1] == b && f[2..] == g
    ensures f == [a, b] + g
  {
  }

  lemma AlternatesCons(f: seq<Segment>)
    requires |f| >= 2 && f[0].Text? && f[1].Mark? && Alternates(f[2..])
    ensures Alternates(f)
  {
    forall k | 2 <= k < |f| ensures (TextAt(f, k) <==> k % 2 == 0) {
      assert (TextAt(f[2..], k - 2) <==> (k - 2) % 2 == 0) && f[k] == f[2..][k - 2];
    }
  }

  lemma AlternatesTail(f: seq<Segment>)
    requires |f| >= 2 && Alternates(f)
    ensures f[0].Text? && f[1].Mark? && Alternates(f[2..])
  {
    assert TextAt(f, 0) && !TextAt(f, 1);
    forall k | 0 <= k < |f| - 2 ensures (TextAt(f[2..], k) <==> k % 2 == 0) {
      assert TextAt(f, k + 2) <==> (k + 2) % 2 == 0;
      assert f[2..][k] == f[k + 2];
    }
  }

  lemma MarksCons(text: string, q: string, base: nat, f: seq<Segment>, j: nat)
    requires |f| >= 2 && f[0].Text? && MarkAt(text, q, base + |f[0].s|, f[1].s)
    requires j == base + |f[0].s| + |f[1].s|
    requires MarksAreMatches(text, q, j, f[2..])
    ensures MarksAreMatches(text, q, base, f)
  {
    OffsetFirst(f);
    forall k | 2 <= k < |f| && f[k].Mark? ensures MarkAt(text, q, base + Offset(f, k), f[k].s) {
      OffsetShift(f, k);
      assert f[k] == f[2..][k - 2];
    }
  }

  lemma MarksTail(text: string, q: string, base: nat, f: seq<Segment>, j: nat)
    requires |f| >= 2 && f[1].Mark? && MarksAreMatches(text, q, base, f)
    requires j == base + |f[0].s| + |f[1].s|
    ensures MarkAt(text, q, base + |f[0].s|, f[1].s)
    ensures MarksAreMatches(text, q, j, f[2..])
  {
    OffsetFirst(f);
    var g := f[2..];
    forall k | 0 <= k < |g| && g[k].Mark? ensures MarkAt(text, q, j + Offset(g, k), g[k].s) {
      OffsetShift(f, k + 2);
      assert g[k] == f[k + 2];
    }
  }

  lemma GapsCons(text: string, q: string, base: nat, f: seq<Segment>, j: nat)
    requires |f| >= 2 && f[1].Mark?
    requires NoMatchIn(text, q, base, base + |f[0].s|)
    requires j == base + |f[0].s| + |f[1].s|
    requires GapsHaveNoMatch(text, q, j, f[2..])
    ensures GapsHaveNoMatch(text, q, base, f)
  {
    OffsetFirst(f);
    forall k | 2 <= k < |f| && f[k].Text?
      ensures NoMatchIn(text, q, base + Offset(f, k), base + Offset(f, k) + |f[k].s|)
    {
      OffsetShift(f, k);
      assert f[k] == f[2..][k - 2];
    }
  }

  lemma GapsTail(text: string, q: string, base: nat, f: seq<Segment>, j: nat)
    requires |f| >= 1 && f[0].Text? && GapsHaveNoMatch(text, q, base, f)
    requires |f| >= 2 ==> j == base + |f[0].s| + |f[1].s|
    ensures NoMatchIn(text, q, base, base + |f[0].s|)
    ensures |f| >= 2 ==> GapsHaveNoMatch(text, q, j, f[2..])
  {
    OffsetFirst(f);
    if |f| >= 2 {
      var g := f[2..];
      forall k | 0 <= k < |g| && g[k].Text?
        ensures NoMatchIn(text, q, j + Offset(g, k), j + Offset(g, k) + |g[k].s|)
      {
        OffsetShift(f, k + 2);
        assert g[k] == f[k + 2];
      }
    }
  }

  /** The one text node left when no match is found obeys the scan rules. */
  lemma ScanRulesEnd(text: string, q: string, base: nat)
    requires |q| > 0 && base <= |text| && NextMatch(text, q, base).None?
    ensures ScanRules(text, q, base, Fragment(text, q, base))
  {
    FragmentEnd(text, q, base);
    var f := Fragment(text, q, base);
    OffsetFirst(f);
    assert Flatten(f) == f[0].s + Flatten(f[1..]);
    assert f[1..] == [];
  }

  /** A match's text node and mark in front of a fragment that obeys the scan rules from
      just after the match give a fragment that obeys them from `base`. */
  lemma ScanRulesStep(text: string, q: string, base: nat, i: nat)
    requires |q| > 0 && base <= |text| && NextMatch(text, q, base) == Some(i)
    requires ScanRules(text, q, i + |q|, Fragment(text, q, i + |q|))
    ensures ScanRules(text, q, base, Fragment(text, q, base))
  {
    var j := i + |q|;
    FragmentStep(text, q, base, i);
    var f := Fragment(text, q, base);
    var g := Fragment(text, q, j);
    assert f[2..] == g;
    FlattenTwo(f);
    assert text[base..] == text[base..i] + text[i..j] + text[j..];
    AlternatesCons(f);
    MarksCons(text, q, base, f, j);
    GapsCons(text, q, base, f, j);
  }

  /** The fragment the scan builds obeys the scan rules. */
  lemma {:induction false} FragmentObeysScanRules(text: string, q: string, base: nat)
    requires |q| > 0 && base <= |text|
    ensures ScanRules(text, q, base, Fragment(text, q, base))
    decreases |text| - base
  {
    match NextMatch(text, q, base)
    case None =>
      ScanRulesEnd(text, q, base);
    case Some(i) =>
      FragmentObeysScanRules(text, q, i + |q|);
      ScanRulesStep(text, q, base, i);
  }

  /** A one-segment fragment that obeys the scan rules is the rest of the text, with no
      match in it. */
  lemma ScanRulesSingle(text: string, q: string, base: nat, f: seq<Segment>)
    requires base <= |text|
    requires ScanRules(text, q, base, f) && |f| == 1
    ensures f == [Text(text[base..])] && NoMatchIn(text, q, base, |text|)
  {
    OffsetFirst(f);
    assert TextAt(f, 0);
    GapsTail(text, q, base, f, 0);
    assert f[0].Text? && f == [f[0]];
    assert f[1..] == [] && Flatten(f[1..]) == [];
    assert f[0].s == text[base..];
  }

  /** The second segment of a fragment whose marks are matches is a match at the end of
      the first, so it is as long as the query. */
  lemma HeadMark(text: string, q: string, base: nat, f: seq<Segment>)
    requires |f| >= 2 && f[1].Mark? && MarksAreMatches(text, q, base, f)
    ensures MarkAt(text, q, base + |f[0].s|, f[1].s) && |f[1].s| == |q|
  {
    OffsetFirst(f);
  }

  /** A longer fragment that obeys the scan rules starts with the gap before a match at `i`
      and that match, and the rest obeys the scan rules after it. */
  lemma ScanRulesHead(text: string, q: string, base: nat, f: seq<Segment>, i: nat)
    requires base <= |text|
    requires ScanRules(text, q, base, f) && |f| >= 2 && i == base + |f[0].s|
    ensures MatchesAt(text, i, q) && NoMatchIn(text, q, base, i)
    ensures f[0] == Text(text[base..i]) && f[1] == Mark(text[i..i + |q|])
    ensures ScanRules(text, q, i + |q|, f[2..])
  {
    AlternatesTail(f);
    HeadMark(text, q, base, f);
    var j := i + |q|;
    MarksTail(text, q, base, f, j);
    GapsTail(text, q, base, f, j);
    FlattenTail(text, base, f, j);
  }

  /** The scan rules admit exactly one fragment, which is the one the scan builds. */
  lemma {:induction false} ScanRulesDetermineFragment(text: string, q: string, base: nat, f: seq<Segment>)
    requires |q| > 0 && base <= |text|
    requires ScanRules(text, q, base, f)
    ensures f == FragmentFrom(text, q, base)
    decreases |text| - base, 1
  {
    if |f| == 1 {
      ScanRulesSingle(text, q, base, f);
      FragmentEnd(text, q, base);
    } else {
      var i := base + |f[0].s|;
      ScanRulesHead(text, q, base, f, i);
      ScanRulesDetermineTail(text, q, base, i, f[2..]);
      LeftmostStep(text, q, base, i, f[2..]);
      SplitTwo(f, Text(text[base..i]), Mark(text[i..i + |q|]), f[2..]);
    }
  }

  /** Segments that obey the scan rules after a match at `i` are the fragment the scan
      builds after that match. */
  lemma {:induction false} ScanRulesDetermineTail(text: string, q: string, base: nat, i: nat, rest: seq<Segment>)
    requires |q| > 0 && base <= i && MatchesAt(text, i, q)
    requires ScanRules(text, q, i + |q|, rest)
    ensures rest == FragmentFrom(text, q, i + |q|)
    decreases |text| - base, 0
  {
    ScanRulesDetermineFragment(text, q, i + |q|, rest);
  }

  /** The gap before the leftmost match at `i` and that match, followed by the fragment
      after the match, make up the fragment from `base`. */
  lemma LeftmostStep(text: string, q: string, base: nat, i: nat, rest: seq<Segment>)
    requires |q| > 0 && base <= i && MatchesAt(text, i, q) && NoMatchIn(text, q, base, i)
    requires rest == FragmentFrom(text, q, i + |q|)
    ensures [Text(text[base..i]), Mark(text[i..i + |q|])] + rest == FragmentFrom(text, q, base)
  {
    NextMatchIs(text, q, base, i);
    var gap, m := text[base..i], text[i..i + |q|];
    StepWith(text, q, base, i, gap, m, rest, [Text(gap), Mark(m)] + rest);
  }

  /** The scan rules admit at most one fragment of the text from `base`. */
  lemma ScanRulesUnique(text: string, q: string, base: nat, f: seq<Segment>, g: seq<Segment>)
    requires |q| > 0 && base <= |text|
    requires ScanRules(text, q, base, f) && ScanRules(text, q, base, g)
    ensures f == g
  {
    ScanRulesDetermineFragment(text, q, base, f);
    ScanRulesDetermineFragment(text, q, base, g);
  }

  /** A fragment that alternates text and marks, starting and ending with text, holds one
      mark fewer than it holds text nodes. */
  lemma {:induction false} AlternatingMarkCount(f: seq<Segment>)
    requires |f| % 2 == 1
    requires forall k :: 0 <= k < |f| ==> (f[k].Text? <==> k % 2 == 0)
    ensures MarkCount(f) == |f| / 2
  {
    if |f| > 1 {
      var g := f[2..];
      assert f == [f[0], f[1]] + g;
      assert forall k :: 0 <= k < |g| ==> g[k] == f[k + 2];
      AlternatingMarkCount(g);
      MarkCountAppend([f[0], f[1]], g);
      assert [f[0], f[1]][1..] == [f[1]];
      assert [f[1]][1..] == [];
    } else {
      assert f[1..] == [];
    }
  }

  /** The fragment built for a text node alternates text nodes and marks, starting and
      ending with text, so of its 2n+1 segments exactly n are marks. */
  lemma FragmentMarkCount(text: string, q: string, base: nat)
    requires |q| > 0 && base <= |text|
    ensures |Fragment(text, q, base)| % 2 == 1
    ensures MarkCount(Fragment(text, q, base)) == |Fragment(text, q, base)| / 2
  {
    FragmentObeysScanRules(text, q, base);
    var f := Fragment(text, q, base);
    forall k | 0 <= k < |f| ensures (f[k].Text? <==> k % 2 == 0) {
      assert TextAt(f, k) <==> k % 2 == 0;
    }
    AlternatingMarkCount(f);
  }

  /** A text node with no match is rebuilt as one text node holding its whole text. */
  lemma NoMatchFragment(text: string, q: string)
    requires |q| > 0
    requires NextMatch(text, q, 0).None?
    ensures Fragment(text, q, 0) == [Text(text)]
  {
    assert text[0..] == text;
  }

  /** A fragment holds a mark exactly when the text contains a match. */
  lemma FragmentHasMark(text: string, q: string)
    requires |q| > 0
    ensures MarkCount(Fragment(text, q, 0)) > 0 <==> NextMatch(text, q, 0).Some?
  {
    var f := Fragment(text, q, 0);
    if NextMatch(text, q, 0).Some? {
      var i := NextMatch(text, q, 0).value;
      MarkCountAppend([f[0], f[1]], f[2..]);
      assert f == [f[0], f[1]] + f[2..];
      assert [f[0], f[1]][1..] == [f[1]];
      assert [f[1]][1..] == [];
    } else {
      assert f[1..] == [];
    }
  }

  /** The fragment built for a text node shows exactly that node's text. */
  lemma FragmentText(text: string, q: string)
    requires |q| > 0
    ensures Flatten(Fragment(text, q, 0)) == text
  {
    FragmentObeysScanRules(text, q, 0);
    assert text[0..] == text;
  }

  /** Every mark of the fragment built for a text node is the query, up to ASCII case. */
  lemma FragmentMarksMatch(text: string, q: string)
    requires |q| > 0
    ensures MarksHold(Fragment(text, q, 0), q)
  {
    var f := Fragment(text, q, 0);
    FragmentObeysScanRules(text, q, 0);
    forall k | 0 <= k < |f| && f[k].Mark? ensures EqualsIgnoreCase(f[k].s, q) {
      assert MarkAt(text, q, 0 + Offset(f, k), f[k].s);
    }
  }

  /** Matches do not overlap: the scan resumes after a match, so in "aaa" the query "aa"
      is marked once and the last "a" stays plain text. */
  lemma AaaHasOneMark()
    ensures Fragment("aaa", "aa", 0) == [Text(""), Mark("aa"), Text("a")]
  {
    var t, q := "aaa", "aa";
    assert t[0..2] == q;
    assert MatchesAt(t, 0, q);
    assert NextMatch(t, q, 0) == Some(0);
    assert NextMatch(t, q, 2).None?;
    FragmentStep(t, q, 0, 0);
    FragmentEnd(t, q, 2);
    assert t[0..0] == "" && t[2..] == "a";
  }

  /** Where the scan of "ababab" for "ab" stops: at 0, 2 and 4, and nowhere after 6. */
  lemma AbababMatches()
    ensures NextMatch("ababab", "ab", 0) == Some(0) && NextMatch("ababab", "ab", 2) == Some(2)
    ensures NextMatch("ababab", "ab", 4) == Some(4) && NextMatch("ababab", "ab", 6).None?
  {
    var t, q := "ababab", "ab";
    assert Folded("b") == "b" && Folded(q) == "ab";
    assert t[0..2] == q && t[2..4] == q && t[4..6] == q;
    assert MatchesAt(t, 0, q) && MatchesAt(t, 2, q) && MatchesAt(t, 4, q);
  }

  /** Matches are taken left to right, one after another: in "ababab" the query "ab" is
      marked three times. */
  lemma AbababHasThreeMarks()
    ensures Fragment("ababab", "ab", 0) ==
      [Text(""), Mark("ab"), Text(""), Mark("ab"), Text(""), Mark("ab"), Text("")]
    ensures MarkCount(Fragment("ababab", "ab", 0)) == 3
  {
    var t, q := "ababab", "ab";
    AbababMatches();
    FragmentEnd(t, q, 6);
    assert t[6..] == "";
    var f4 := [Text(""), Mark("ab"), Text("")];
    StepWith(t, q, 4, 4, "", "ab", [Text("")], f4);
    var f2 := [Text(""), Mark("ab"), Text(""), Mark("ab"), Text("")];
    StepWith(t, q, 2, 2, "", "ab", f4, f2);
    StepWith(t, q, 0, 0, "", "ab", f2, [Text(""), Mark("ab"), Text(""), Mark("ab"), Text(""), Mark("ab"), Text("")]);
    ThreeMarks("ab");
  }

  /** Three rounds of the scan and the closing text node hold three marks. */
  lemma ThreeMarks(m: string)
    ensures MarkCount([Text(""), Mark(m), Text(""), Mark(m), Text(""), Mark(m), Text("")]) == 3
  {
    var round := [Text(""), Mark(m)];
    MarkCountRound([], "", m);
    MarkCountRound(round, "", m);
    MarkCountRound(round + round, "", m);
    var last := [Text("")];
    MarkCountAppend(round + round + round, last);
    assert last[1..] == [];
    assert round + round + round + last == [Text(""), Mark(m), Text(""), Mark(m), Text(""), Mark(m), Text("")];
  }

  /** Matching ignores case and each mark keeps the casing of the text: in "Aa" the
      query "a" is marked twice, once as "A" and once as "a". */
  lemma MarksKeepTheirCasing()
    ensures Fragment("Aa", "a", 0) == [Text(""), Mark("A"), Text(""), Mark("a"), Text("")]
  {
    var t, q := "Aa", "a";
    CasingMatches();
    FragmentStep(t, q, 0, 0);
    FragmentStep(t, q, 1, 1);
    FragmentEnd(t, q, 2);
    assert t[0..0] == "" && t[1..1] == "" && t[2..] == "";
    assert t[0..1] == "A" && t[1..2] == "a";
  }

  /** Where the scan of "Aa" for "a" stops: at 0 and 1, and nowhere after 2. */
  lemma CasingMatches()
    ensures NextMatch("Aa", "a", 0) == Some(0) && NextMatch("Aa", "a", 1) == Some(1)
    ensures NextMatch("Aa", "a", 2).None?
  {
    var t, q := "Aa", "a";
    assert "A"[1..] == [] && "a"[1..] == [];
    assert Folded("A") == "a" && Folded(q) == "a";
    assert t[0..1] == "A" && t[1..2] == "a";
    assert MatchesAt(t, 0, q) && MatchesAt(t, 1, q);
  }

  /** What one round of the scan loop adds keeps the loop's account: the fragment so far
      followed by the fragment still to come is the whole fragment, and the round adds
      exactly one mark. */
  lemma ScanRound(text: string, q: string, fragment: seq<Segment>, lastIndex: nat, i: nat, next: seq<Segment>,
                  whole: seq<Segment>)
    requires |q| > 0 && lastIndex <= |text|
    requires NextMatch(text, q, lastIndex) == Some(i)
    requires fragment + Fragment(text, q, lastIndex) == whole
    requires next == fragment + [Text(text[lastIndex..i]), Mark(text[i..i + |q|])]
    ensures next + Fragment(text, q, i + |q|) == whole
    ensures MarkCount(next) == MarkCount(fragment) + 1
  {
    var round := [Text(text[lastIndex..i]), Mark(text[i..i + |q|])];
    FragmentStep(text, q, lastIndex, i);
    Regroup(fragment, round, Fragment(text, q, i + |q|));
    MarkCountRound(fragment, text[lastIndex..i], text[i..i + |q|]);
  }

  lemma Regroup(a: seq<Segment>, b: seq<Segment>, c: seq<Segment>)
    ensures (a + b) + c == a + (b + c)
  {
  }

  /** The end of the scan loop: the remaining text closes the fragment and adds no mark. */
  lemma ScanEnd(text: string, q: string, fragment: seq<Segment>, lastIndex: nat, whole: seq<Segment>)
    requires |q| > 0 && lastIndex <= |text|
    requires NextMatch(text, q, lastIndex).None?
    requires fragment + Fragment(text, q, lastIndex) == whole
    ensures fragment + [Text(text[lastIndex..])] == whole
    ensures MarkCount(fragment + [Text(text[lastIndex..])]) == MarkCount(fragment)
  {
    FragmentEnd(text, q, lastIndex);
    var tail := [Text(text[lastIndex..])];
    MarkCountAppend(fragment, tail);
    assert tail[1..] == [];
  }

  /** A text node followed by a mark adds one mark to the count. */
  lemma MarkCountRound(fragment: seq<Segment>, t: string, m: string)
    ensures MarkCount(fragment + [Text(t), Mark(m)]) == MarkCount(fragment) + 1
  {
    var added := [Text(t), Mark(m)];
    MarkCountAppend(fragment, added);
    assert added[1..] == [Mark(m)] && [Mark(m)][1..] == [];
    assert MarkCount([Mark(m)]) == 1;
    assert MarkCount(added) == MarkCount(added[1..]);
  }

  /** The body of the scan loop (script.js:124-130): the text from `lastIndex` to the match
      at `i` and a mark with the match are appended to the fragment built so far; ScanRound
      is the lemma that shows this keeps the loop's account. */
  method AppendMatch(text: string, q: string, fragment: seq<Segment>, lastIndex: nat, i: nat, ghost whole: seq<Segment>)
    returns (next: seq<Segment>)
    requires |q| > 0 && lastIndex <= |text|
    requires NextMatch(text, q, lastIndex) == Some(i)
    requires fragment + Fragment(text, q, lastIndex) == whole
    ensures i + |q| <= |text|
    ensures next + Fragment(text, q, i + |q|) == whole
    ensures MarkCount(next) == MarkCount(fragment) + 1
  {
    next := fragment + [Text(text[lastIndex..i]), Mark(text[i..i + |q|])];
    ScanRound(text, q, fragment, lastIndex, i, next, whole);
  }

  /** The scan of one text node (the inner loop over `regex.exec`): it adds the text
      before each match and a mark for the match, resumes just after the match, and
      finally adds the remaining text. `found` is the running count it is handed. */
  method HighlightNode(text: string, q: string, found: nat) returns (fragment: seq<Segment>, total: nat)
    requires |q| > 0
    ensures fragment == Fragment(text, q, 0)
    ensures total == found + MarkCount(fragment)
  {
    fragment := [];
    total := found;
    var lastIndex := 0;
    var m := NextMatch(text, q, lastIndex);
    ghost var whole := Fragment(text, q, 0);
    while m.Some?
      invariant lastIndex <= |text|
      invariant m == NextMatch(text, q, lastIndex)
      invariant fragment + Fragment(text, q, lastIndex) == whole
      invariant total == found + MarkCount(fragment)
      decreases |text| - lastIndex
    {
      var i := m.value;
      total := total + 1;
      fragment := AppendMatch(text, q, fragment, lastIndex, i, whole);
      lastIndex := i + |q|;
      m := NextMatch(text, q, lastIndex);
    }
    ScanEnd(text, q, fragment, lastIndex, whole);
    fragment := fragment + [Text(text[lastIndex..])];
  }
}

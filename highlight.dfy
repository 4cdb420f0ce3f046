/**
 * The two highlight passes of the grammar result and the list shown under
 * "Detailed Analysis": which edits count, in which order their snippets are
 * tried, and which parts of the text end up underlined.
 */
module Highlight {
  import opened JsText
  import opened Analysis
  import opened SpanMatcher

  /** The first pass looks for each edit's `original` in the original text, the second for its `correction` in the corrected text. */
  datatype Side = OriginalSide | CorrectionSide

  function NeedleOf(e: Edit, side: Side): string {
    match side
    case OriginalSide => e.original
    case CorrectionSide => e.correction
  }

  // ---------------------------------------------------------------------------
  // Which edits count.

  /** Both sides of the edit are the same text once lower-cased. */
  predicate IsNoOp(e: Edit) {
    EqualsIgnoreCase(e.original, e.correction)
  }

  /** The filter both highlight passes apply (no trimming). */
  function RealEdits(ms: seq<Edit>): (r: seq<Edit>)
    ensures |r| <= |ms|
  {
    if ms == [] then []
    else (if IsNoOp(ms[0]) then [] else [ms[0]]) + RealEdits(ms[1..])
  }

  /** The counted edits are exactly the input's edits whose sides differ beyond letter case. */
  lemma {:induction false} RealEditsMembers(ms: seq<Edit>)
    ensures forall e :: e in RealEdits(ms) <==> e in ms && !IsNoOp(e)
    ensures RealEdits(ms) == [] <==> forall e :: e in ms ==> IsNoOp(e)
    decreases |ms|
  {
    if ms != [] {
      RealEditsMembers(ms[1..]);
      assert ms == [ms[0]] + ms[1..];
    }
  }

  /** Both sides are the same text once lower-cased and trimmed. */
  predicate IsTrimmedNoOp(e: Edit) {
    Trim(LowerStr(e.original)) == Trim(LowerStr(e.correction))
  }

  /** The filter of the "Detailed Analysis" list, which also trims. */
  function AnalysisEdits(ms: seq<Edit>): (r: seq<Edit>)
    ensures |r| <= |ms|
  {
    if ms == [] then []
    else (if IsTrimmedNoOp(ms[0]) then [] else [ms[0]]) + AnalysisEdits(ms[1..])
  }

  /** The listed edits are exactly the input's edits whose trimmed sides differ beyond letter case. */
  lemma {:induction false} AnalysisEditsMembers(ms: seq<Edit>)
    ensures forall e :: e in AnalysisEdits(ms) <==> e in ms && !IsTrimmedNoOp(e)
    decreases |ms|
  {
    if ms != [] {
      AnalysisEditsMembers(ms[1..]);
      assert ms == [ms[0]] + ms[1..];
    }
  }

  /** `ms.filter(m => !drop(m))`, for any predicate `drop`. */
  function DropWhere(ms: seq<Edit>, drop: Edit -> bool): (r: seq<Edit>)
    ensures |r| <= |ms|
  {
    if ms == [] then []
    else (if drop(ms[0]) then [] else [ms[0]]) + DropWhere(ms[1..], drop)
  }

  lemma {:induction false} DropWhereAppend(a: seq<Edit>, b: seq<Edit>, drop: Edit -> bool)
    ensures DropWhere(a + b, drop) == DropWhere(a, drop) + DropWhere(b, drop)
    decreases |a|
  {
    if a == [] {
      assert a + b == b;
    } else {
      DropWhereAppend(a[1..], b, drop);
      assert (a + b)[0] == a[0] && (a + b)[1..] == a[1..] + b;
    }
  }

  /** The analysis filter is `DropWhere` with the trimmed no-op test. */
  lemma {:induction false} AnalysisEditsDropTrimmedNoOps(ms: seq<Edit>)
    ensures AnalysisEdits(ms) == DropWhere(ms, IsTrimmedNoOp)
    decreases |ms|
  {
    if ms != [] {
      AnalysisEditsDropTrimmedNoOps(ms[1..]);
    }
  }

  /**
   * The analysis list is rendered in input order, one item per listed edit:
   * the filter distributes over concatenation.
   */
  lemma AnalysisEditsAppend(a: seq<Edit>, b: seq<Edit>)
    ensures AnalysisEdits(a + b) == AnalysisEdits(a) + AnalysisEdits(b)
  {
    AnalysisEditsDropTrimmedNoOps(a + b);
    AnalysisEditsDropTrimmedNoOps(a);
    AnalysisEditsDropTrimmedNoOps(b);
    DropWhereAppend(a, b, IsTrimmedNoOp);
  }

  /** Filtering twice is filtering once. */
  lemma {:induction false} RealEditsIdempotent(ms: seq<Edit>)
    ensures RealEdits(RealEdits(ms)) == RealEdits(ms)
    decreases |ms|
  {
    if ms != [] {
      RealEditsIdempotent(ms[1..]);
      var tail := RealEdits(ms[1..]);
      if IsNoOp(ms[0]) {
        assert RealEdits(ms) == tail;
      } else {
        var r := [ms[0]] + tail;
        assert RealEdits(ms) == r;
        assert r[0] == ms[0] && r[1..] == tail;
        assert RealEdits(r) == [ms[0]] + RealEdits(tail);
      }
    }
  }

  /**
   * The analysis list is the highlight list filtered once more: every edit
   * listed under "Detailed Analysis" is also highlighted, in the same order.
   */
  lemma {:induction false} AnalysisRefinesReal(ms: seq<Edit>)
    ensures AnalysisEdits(ms) == AnalysisEdits(RealEdits(ms))
    decreases |ms|
  {
    if ms != [] {
      AnalysisRefinesReal(ms[1..]);
      var tail := RealEdits(ms[1..]);
      if IsNoOp(ms[0]) {
        assert IsTrimmedNoOp(ms[0]);
        assert AnalysisEdits(ms) == AnalysisEdits(ms[1..]);
        assert RealEdits(ms) == tail;
      } else {
        var r := [ms[0]] + tail;
        assert RealEdits(ms) == r;
        assert r[0] == ms[0] && r[1..] == tail;
      }
    }
  }

  /**
   * The two filters differ: an edit that only adds a trailing space to a
   * word is highlighted but not listed.
   */
  lemma FiltersDiffer(w: string, why: string)
    requires w != [] && !IsSpace(w[0]) && !IsSpace(w[|w| - 1])
    ensures var e := Edit(w + " ", w, why);
      RealEdits([e]) == [e] && AnalysisEdits([e]) == []
  {
    var e := Edit(w + " ", w, why);
    assert !IsNoOp(e) by {
      assert |LowerStr(e.original)| != |LowerStr(e.correction)|;
    }
    assert IsTrimmedNoOp(e) by {
      var x := LowerStr(w);
      assert LowerStr(w + " ") == x + " ";
      assert !IsSpace(x[0]) && !IsSpace(x[|x| - 1]);
      assert TrimStart(x + " ") == x + " ";
      assert (x + " ")[..|x|] == x;
      assert TrimEnd(x + " ") == TrimEnd(x);
      TrimKeepsTrimmed(x);
    }
    assert [e][1..] == [];
  }

  // ---------------------------------------------------------------------------
  // Longest first: `realMistakes.sort((a, b) => b.len - a.len)`, a stable sort.

  function Key(e: Edit, side: Side): nat {
    |NeedleOf(e, side)|
  }

  predicate SortedByLength(es: seq<Edit>, side: Side) {
    forall i, j :: 0 <= i < j < |es| ==> Key(es[j], side) <= Key(es[i], side)
  }

  /** Insert `e` before the first element that is not longer than it. */
  function InsertByLength(e: Edit, es: seq<Edit>, side: Side): (r: seq<Edit>)
    ensures multiset(r) == multiset(es) + multiset{e}
    decreases |es|
  {
    if es == [] || Key(es[0], side) <= Key(e, side) then [e] + es
    else
      assert es == [es[0]] + es[1..];
      [es[0]] + InsertByLength(e, es[1..], side)
  }

  /** Insertion sort, longest needle first; equally long needles keep their order. */
  function SortByLength(es: seq<Edit>, side: Side): (r: seq<Edit>)
    ensures multiset(r) == multiset(es)
    decreases |es|
  {
    if es == [] then []
    else
      assert es == [es[0]] + es[1..];
      InsertByLength(es[0], SortByLength(es[1..], side), side)
  }

  /** The edits whose needle has length `k`, in order. */
  function WithLength(es: seq<Edit>, side: Side, k: nat): seq<Edit> {
    if es == [] then []
    else (if Key(es[0], side) == k then [es[0]] else []) + WithLength(es[1..], side, k)
  }

  /** Putting an edit no shorter than the head in front of a sorted list keeps it sorted. */
  lemma ConsSorted(x: Edit, t: seq<Edit>, side: Side)
    requires SortedByLength(t, side) && (t == [] || Key(t[0], side) <= Key(x, side))
    ensures SortedByLength([x] + t, side)
  {
    var r := [x] + t;
    forall i, j | 0 <= i < j < |r|
      ensures Key(r[j], side) <= Key(r[i], side)
    {
      assert r[j] == t[j - 1];
      if i > 0 {
        assert r[i] == t[i - 1];
      } else if j > 1 {
        assert Key(t[j - 1], side) <= Key(t[0], side);
      }
    }
  }

  lemma {:induction false} InsertKeepsSorted(e: Edit, es: seq<Edit>, side: Side)
    requires SortedByLength(es, side)
    ensures SortedByLength(InsertByLength(e, es, side), side)
    ensures InsertByLength(e, es, side)[0] == e || (es != [] && InsertByLength(e, es, side)[0] == es[0])
    decreases |es|
  {
    if es == [] || Key(es[0], side) <= Key(e, side) {
      ConsSorted(e, es, side);
    } else {
      var rest := es[1..];
      assert SortedByLength(rest, side) by {
        forall i, j | 0 <= i < j < |rest|
          ensures Key(rest[j], side) <= Key(rest[i], side)
        {
          assert rest[j] == es[j + 1] && rest[i] == es[i + 1];
        }
      }
      InsertKeepsSorted(e, rest, side);
      var t := InsertByLength(e, rest, side);
      assert t[0] == e || t[0] == es[1];
      ConsSorted(es[0], t, side);
    }
  }

  /** The result is ordered longest first. */
  lemma {:induction false} SortIsSorted(es: seq<Edit>, side: Side)
    ensures SortedByLength(SortByLength(es, side), side)
    decreases |es|
  {
    if es != [] {
      SortIsSorted(es[1..], side);
      InsertKeepsSorted(es[0], SortByLength(es[1..], side), side);
    }
  }

  lemma WithLengthCons(x: Edit, xs: seq<Edit>, side: Side, k: nat)
    ensures WithLength([x] + xs, side, k) == (if Key(x, side) == k then [x] else []) + WithLength(xs, side, k)
  {
    assert ([x] + xs)[1..] == xs;
  }

  /** Inserting passes over only longer edits, so among the edits of one length `e` lands first. */
  lemma {:induction false} InsertWithLength(e: Edit, es: seq<Edit>, side: Side, k: nat)
    ensures WithLength(InsertByLength(e, es, side), side, k)
         == (if Key(e, side) == k then [e] else []) + WithLength(es, side, k)
    decreases |es|
  {
    var mine := if Key(e, side) == k then [e] else [];
    if es == [] || Key(es[0], side) <= Key(e, side) {
      WithLengthCons(e, es, side, k);
    } else {
      var rest := InsertByLength(e, es[1..], side);
      var head := if Key(es[0], side) == k then [es[0]] else [];
      calc {
        WithLength(InsertByLength(e, es, side), side, k);
        { assert InsertByLength(e, es, side) == [es[0]] + rest; }
        WithLength([es[0]] + rest, side, k);
        { WithLengthCons(es[0], rest, side, k); }
        head + WithLength(rest, side, k);
        { InsertWithLength(e, es[1..], side, k); }
        head + (mine + WithLength(es[1..], side, k));
        { assert head == [] || mine == []; }
        mine + (head + WithLength(es[1..], side, k));
        { assert es == [es[0]] + es[1..]; WithLengthCons(es[0], es[1..], side, k); }
        mine + WithLength(es, side, k);
      }
    }
  }

  /**
   * Stability: for every length, the edits of that length appear in the
   * sorted list exactly as, and in the order, they appear in the input.
   */
  lemma {:induction false} SortIsStable(es: seq<Edit>, side: Side, k: nat)
    ensures WithLength(SortByLength(es, side), side, k) == WithLength(es, side, k)
    decreases |es|
  {
    if es != [] {
      SortIsStable(es[1..], side, k);
      InsertWithLength(es[0], SortByLength(es[1..], side), side, k);
    }
  }

  /** The needles, in the order of the edits. */
  function Needles(es: seq<Edit>, side: Side): (ns: seq<string>)
    ensures |ns| == |es|
    ensures forall i :: 0 <= i < |es| ==> ns[i] == NeedleOf(es[i], side)
  {
    seq(|es|, i requires 0 <= i < |es| => NeedleOf(es[i], side))
  }

  // ---------------------------------------------------------------------------
  // The pass.

  /** A piece of the rendered text, underlined or plain. */
  datatype Run = Run(text: string, highlighted: bool)

  /** `realMistakes.find(...)` / `realMistakes.some(...)`: some edit's needle equals the part, ignoring case. */
  predicate Mentions(es: seq<Edit>, side: Side, part: string) {
    exists e :: e in es && EqualsIgnoreCase(NeedleOf(e, side), part)
  }

  /** The pass applies when every counted edit has a non-empty snippet on its side. */
  predicate HasNeedles(mistakes: seq<Edit>, side: Side) {
    forall e :: e in RealEdits(mistakes) ==> |NeedleOf(e, side)| > 0
  }

  /** The needles of the counted edits, longest first: the alternatives of the pattern. */
  function PassNeedles(mistakes: seq<Edit>, side: Side): (ns: seq<string>)
    requires HasNeedles(mistakes, side)
    ensures NonEmptyNeedles(ns)
  {
    var sorted := SortByLength(RealEdits(mistakes), side);
    assert forall i :: 0 <= i < |sorted| ==> sorted[i] in multiset(sorted);
    Needles(sorted, side)
  }

  /**
   * One highlight pass over `text`: with no counted edit the text is returned
   * as it is; otherwise it is split on the alternation of the needles and each
   * part is underlined when it equals, ignoring case, some counted edit's
   * needle.
   */
  function HighlightPass(text: string, mistakes: seq<Edit>, side: Side): (runs: seq<Run>)
    requires HasNeedles(mistakes, side)
    ensures |runs| % 2 == 1
  {
    var counted := RealEdits(mistakes);
    if counted == [] then [Run(text, false)]
    else
      var sorted := SortByLength(counted, side);
      var parts := Split(text, PassNeedles(mistakes, side));
      seq(|parts|, i requires 0 <= i < |parts| => Run(parts[i], Mentions(sorted, side, parts[i])))
  }

  function Texts(runs: seq<Run>): (ts: seq<string>)
    ensures |ts| == |runs|
    ensures forall i :: 0 <= i < |runs| ==> ts[i] == runs[i].text
  {
    seq(|runs|, i requires 0 <= i < |runs| => runs[i].text)
  }

  /** The runs join back to exactly the text: nothing dropped, reordered or re-cased. */
  lemma HighlightLossless(text: string, mistakes: seq<Edit>, side: Side)
    requires HasNeedles(mistakes, side)
    ensures Concat(Texts(HighlightPass(text, mistakes, side))) == text
  {
    var runs := HighlightPass(text, mistakes, side);
    if RealEdits(mistakes) == [] {
      assert Texts(runs) == [text];
      assert Concat([text]) == text + Concat([]);
    } else {
      var ns := PassNeedles(mistakes, side);
      assert Texts(runs) == Split(text, ns);
      SplitLossless(text, ns);
    }
  }

  /** A run is underlined exactly when some counted edit's needle equals it, ignoring case. */
  lemma HighlightTags(text: string, mistakes: seq<Edit>, side: Side, i: nat)
    requires HasNeedles(mistakes, side) && i < |HighlightPass(text, mistakes, side)|
    ensures var r := HighlightPass(text, mistakes, side)[i];
      r.highlighted <==> exists e :: e in RealEdits(mistakes) && EqualsIgnoreCase(NeedleOf(e, side), r.text)
  {
    var counted := RealEdits(mistakes);
    if counted != [] {
      var sorted := SortByLength(counted, side);
      SortSameMembers(counted, side);
      var r := HighlightPass(text, mistakes, side)[i];
      assert r.highlighted == Mentions(sorted, side, r.text);
    }
  }

  /** Sorting neither adds nor loses an edit. */
  lemma SortSameMembers(es: seq<Edit>, side: Side)
    ensures forall e :: e in SortByLength(es, side) <==> e in es
  {
    var sorted := SortByLength(es, side);
    assert forall e :: e in sorted <==> e in multiset(sorted);
    assert forall e :: e in es <==> e in multiset(es);
  }

  /** With no counted edit the pass gives back the whole text, not underlined. */
  lemma NoRealEditsPlain(text: string, mistakes: seq<Edit>, side: Side)
    requires forall e :: e in mistakes ==> IsNoOp(e)
    ensures HasNeedles(mistakes, side)
    ensures HighlightPass(text, mistakes, side) == [Run(text, false)]
  {
    RealEditsMembers(mistakes);
  }

  /** Edits whose sides differ only in case play no part: the pass only sees the counted edits. */
  lemma NoOpEditsIgnored(text: string, mistakes: seq<Edit>, side: Side)
    requires HasNeedles(mistakes, side)
    ensures HasNeedles(RealEdits(mistakes), side)
    ensures HighlightPass(text, mistakes, side) == HighlightPass(text, RealEdits(mistakes), side)
  {
    RealEditsIdempotent(mistakes);
  }

  /** Each match of the pattern (an odd-numbered run) is underlined and is bracketed by word boundaries. */
  lemma MatchesAreHighlighted(text: string, mistakes: seq<Edit>, side: Side, k: nat)
    requires HasNeedles(mistakes, side) && RealEdits(mistakes) != []
    requires 2 * k + 1 < |HighlightPass(text, mistakes, side)|
    ensures var h := Scan(text, PassNeedles(mistakes, side), 0)[k];
      && h.start <= h.end <= |text|
      && HighlightPass(text, mistakes, side)[2 * k + 1] == Run(text[h.start..h.end], true)
      && AtBoundary(text, h.start) && AtBoundary(text, h.end)
  {
    var ns := PassNeedles(mistakes, side);
    var sorted := SortByLength(RealEdits(mistakes), side);
    var parts := Split(text, ns);
    var run := HighlightPass(text, mistakes, side)[2 * k + 1];
    assert 2 * k + 1 < |parts| && run == Run(parts[2 * k + 1], Mentions(sorted, side, parts[2 * k + 1]));
    SplitMatch(text, ns, k);
    assert Mentions(sorted, side, parts[2 * k + 1]) by {
      var j :| 0 <= j < |ns| && EqualsIgnoreCase(parts[2 * k + 1], ns[j]);
      assert sorted[j] in sorted && NeedleOf(sorted[j], side) == ns[j];
    }
  }

  /** The runs of a pass with counted edits are the parts of the split, in order. */
  lemma PassRuns(text: string, mistakes: seq<Edit>, side: Side)
    requires HasNeedles(mistakes, side) && RealEdits(mistakes) != []
    ensures var runs := HighlightPass(text, mistakes, side);
      var parts := Split(text, PassNeedles(mistakes, side));
      |runs| == |parts| && forall i :: 0 <= i < |runs| ==> runs[i].text == parts[i]
  {
  }

  /** The alternatives of the pattern are tried longest first. */
  lemma PassNeedlesLongestFirst(mistakes: seq<Edit>, side: Side)
    requires HasNeedles(mistakes, side)
    ensures LongestFirst(PassNeedles(mistakes, side))
  {
    SortIsSorted(RealEdits(mistakes), side);
  }

  /** Every counted edit's needle is one of the alternatives of the pattern. */
  lemma NeedleIsAlternative(mistakes: seq<Edit>, side: Side, e: Edit) returns (j: nat)
    requires HasNeedles(mistakes, side) && e in RealEdits(mistakes)
    ensures j < |PassNeedles(mistakes, side)| && PassNeedles(mistakes, side)[j] == NeedleOf(e, side)
  {
    var sorted := SortByLength(RealEdits(mistakes), side);
    assert e in multiset(sorted);
    j :| 0 <= j < |sorted| && sorted[j] == e;
  }

  /**
   * Longest first: at the start of each match, every counted edit whose needle
   * also matches there is no longer than the text that was matched.
   */
  lemma LongestNeedleWins(text: string, mistakes: seq<Edit>, side: Side, k: nat, e: Edit)
    requires HasNeedles(mistakes, side) && RealEdits(mistakes) != []
    requires 2 * k + 1 < |HighlightPass(text, mistakes, side)|
    requires e in RealEdits(mistakes)
    requires MatchesAt(text, Scan(text, PassNeedles(mistakes, side), 0)[k].start, NeedleOf(e, side))
    ensures |NeedleOf(e, side)| <= |HighlightPass(text, mistakes, side)[2 * k + 1].text|
  {
    var ns := PassNeedles(mistakes, side);
    assert 2 * k + 1 < |Split(text, ns)| &&
      HighlightPass(text, mistakes, side)[2 * k + 1].text == Split(text, ns)[2 * k + 1] by {
      PassRuns(text, mistakes, side);
    }
    var j := NeedleIsAlternative(mistakes, side, e);
    PassNeedlesLongestFirst(mistakes, side);
    SplitLongestWins(text, ns, k, j);
  }

  /** The needle occurs in the text, ignoring case. */
  ghost predicate OccursIgnoringCase(n: string, text: string) {
    exists a: nat, b: nat :: a <= b <= |text| && EqualsIgnoreCase(text[a..b], n)
  }

  /**
   * A snippet the model claimed but that is absent from the text underlines
   * nothing: no run equals it, so no run is underlined on its account.
   */
  lemma AbsentSnippetHighlightsNothing(text: string, mistakes: seq<Edit>, side: Side, e: Edit, i: nat)
    requires HasNeedles(mistakes, side) && i < |HighlightPass(text, mistakes, side)|
    requires !OccursIgnoringCase(NeedleOf(e, side), text)
    ensures !EqualsIgnoreCase(NeedleOf(e, side), HighlightPass(text, mistakes, side)[i].text)
  {
    var runs := HighlightPass(text, mistakes, side);
    if RealEdits(mistakes) == [] {
      assert text[0..|text|] == runs[i].text;
    } else {
      var ns := PassNeedles(mistakes, side);
      SplitSlices(text, ns, i);
      var a: nat, b: nat :| a <= b <= |text| && text[a..b] == Split(text, ns)[i];
      assert text[a..b] == runs[i].text;
    }
  }

  /** When no counted edit's snippet occurs in the text, nothing is underlined. */
  lemma NothingOccursNothingHighlighted(text: string, mistakes: seq<Edit>, side: Side, i: nat)
    requires HasNeedles(mistakes, side) && i < |HighlightPass(text, mistakes, side)|
    requires forall e :: e in RealEdits(mistakes) ==> !OccursIgnoringCase(NeedleOf(e, side), text)
    ensures !HighlightPass(text, mistakes, side)[i].highlighted
  {
    HighlightTags(text, mistakes, side, i);
    forall e | e in RealEdits(mistakes)
      ensures !EqualsIgnoreCase(NeedleOf(e, side), HighlightPass(text, mistakes, side)[i].text)
    {
      AbsentSnippetHighlightsNothing(text, mistakes, side, e, i);
    }
  }

  // ---------------------------------------------------------------------------
  // A worked example of the longest-first order: with edits for "pay" and
  // "pay out", the text "we pay out" is underlined as one "pay out", not as
  // "pay" followed by a plain " out".

  const PayText := "we pay out"
  const PayEdits := [Edit("pay", "paid", "tense"), Edit("pay out", "paid out", "tense")]

  lemma PayOutCounted()
    ensures RealEdits(PayEdits) == PayEdits
  {
    var a := Edit("pay", "paid", "tense");
    var b := Edit("pay out", "paid out", "tense");
    assert !IsNoOp(a) by { assert LowerStr("pay")[2] != LowerStr("paid")[2]; }
    assert !IsNoOp(b) by { assert LowerStr("pay out")[2] != LowerStr("paid out")[2]; }
    assert PayEdits[1..] == [b];
    assert [b][1..] == [];
  }

  lemma PayOutSorted()
    ensures SortByLength(PayEdits, OriginalSide) == [PayEdits[1], PayEdits[0]]
  {
    var a := Edit("pay", "paid", "tense");
    var b := Edit("pay out", "paid out", "tense");
    assert PayEdits[1..] == [b];
    assert SortByLength([b], OriginalSide) == [b] by {
      assert [b][1..] == [];
    }
    assert InsertByLength(a, [b], OriginalSide) == [b, a] by {
      assert [b][1..] == [];
    }
  }

  lemma PayOutNeedles()
    ensures RealEdits(PayEdits) == PayEdits
    ensures HasNeedles(PayEdits, OriginalSide)
    ensures PassNeedles(PayEdits, OriginalSide) == ["pay out", "pay"]
  {
    PayOutCounted();
    PayOutSorted();
  }

  /** No needle starting with `p` matches where the text has another letter. */
  lemma PayOutNoMatch(s: string, q: nat, n: string)
    requires q < |s| && |n| > 0 && n[0] == 'p' && Lower(s[q]) != 'p'
    ensures !MatchesAt(s, q, n)
  {
    if q + |n| <= |s| {
      assert LowerStr(s[q..q + |n|])[0] != LowerStr(n)[0];
    }
  }

  lemma PayOutScan()
    ensures Scan(PayText, ["pay out", "pay"], 0) == [Hit(3, 10)]
  {
    var s := PayText;
    var ns := ["pay out", "pay"];
    forall q | q in {0, 1, 2} ensures FirstMatch(s, q, ns).None? {
      PayOutNoMatch(s, q, ns[0]);
      PayOutNoMatch(s, q, ns[1]);
    }
    assert MatchesAt(s, 3, ns[0]) by {
      assert s[3..10] == "pay out";
    }
    assert Scan(s, ns, 3) == [Hit(3, 10)] + Scan(s, ns, 10);
  }

  lemma PayOutCut()
    ensures Cut(PayText, [Hit(3, 10)], 0) == ["we ", "pay out", ""]
  {
    var s := PayText;
    assert [Hit(3, 10)][1..] == [];
    assert Cut(s, [], 10) == [""];
    assert s[0..3] == "we " && s[3..10] == "pay out";
  }

  lemma PayOutMentions()
    ensures var sorted := SortByLength(RealEdits(PayEdits), OriginalSide);
      Mentions(sorted, OriginalSide, "pay out") && !Mentions(sorted, OriginalSide, "we ") &&
      !Mentions(sorted, OriginalSide, "")
  {
    PayOutCounted();
    PayOutSorted();
    var sorted := SortByLength(RealEdits(PayEdits), OriginalSide);
    assert sorted[0] in sorted && NeedleOf(sorted[0], OriginalSide) == "pay out";
    forall e | e in sorted ensures !EqualsIgnoreCase(NeedleOf(e, OriginalSide), "we ") {
      assert LowerStr(NeedleOf(e, OriginalSide))[0] == 'p';
    }
    forall e | e in sorted ensures !EqualsIgnoreCase(NeedleOf(e, OriginalSide), "") {
      assert |LowerStr(NeedleOf(e, OriginalSide))| > 0;
    }
  }

  /** A pass whose split yields three parts tags each part by whether an edit mentions it. */
  lemma PassOfThree(text: string, mistakes: seq<Edit>, side: Side, p0: string, p1: string, p2: string)
    requires HasNeedles(mistakes, side) && RealEdits(mistakes) != []
    requires Split(text, PassNeedles(mistakes, side)) == [p0, p1, p2]
    ensures var sorted := SortByLength(RealEdits(mistakes), side);
      HighlightPass(text, mistakes, side) ==
        [Run(p0, Mentions(sorted, side, p0)), Run(p1, Mentions(sorted, side, p1)), Run(p2, Mentions(sorted, side, p2))]
  {
  }

  /** The longer snippet wins although the edit for "pay" comes first. */
  lemma PayOutFirst()
    ensures HasNeedles(PayEdits, OriginalSide)
    ensures HighlightPass(PayText, PayEdits, OriginalSide) ==
      [Run("we ", false), Run("pay out", true), Run("", false)]
  {
    PayOutNeedles();
    assert Split(PayText, ["pay out", "pay"]) == ["we ", "pay out", ""] by {
      PayOutScan();
      PayOutCut();
    }
    PayOutMentions();
    PassOfThree(PayText, PayEdits, OriginalSide, "we ", "pay out", "");
  }
}

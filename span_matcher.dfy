/**
 * The search behind `text.split(new RegExp(`\\b(n0|n1|...)\\b`, 'gi'))`:
 * a case-insensitive alternation of needles, bracketed by word boundaries,
 * scanned left to right; `split` with one capturing group then returns the
 * text between matches interleaved with the matched text.
 *
 * Needles are matched as LITERAL text. The source escapes each needle with
 * `/[.*+?^${}()|[\\]\\]/g`, whose character class closes at the first `]`,
 * so a lone `.` or `(` is left unescaped and would act as a regular
 * expression operator; literal matching is what the escaping is meant to
 * achieve, and is what this module models.
 */
module SpanMatcher {
  import opened JsText

  /** `\w`: the characters `\b` treats as word characters. */
  predicate IsWordChar(c: char) {
    'a' <= c <= 'z' || 'A' <= c <= 'Z' || '0' <= c <= '9' || c == '_'
  }

  /**
   * `\b` at position `q`: exactly one of the characters on either side of
   * `q` is a word character, where a position outside `s` counts as a
   * non-word character.
   */
  predicate AtBoundary(s: string, q: nat)
    requires q <= |s|
  {
    (q > 0 && IsWordChar(s[q - 1])) != (q < |s| && IsWordChar(s[q]))
  }

  /** The alternative `n`, bracketed by `\b`, matches `s` at `q` (flag `i`: ignoring case). */
  predicate MatchesAt(s: string, q: nat, n: string) {
    q + |n| <= |s| && AtBoundary(s, q) && EqualsIgnoreCase(s[q..q + |n|], n) && AtBoundary(s, q + |n|)
  }

  predicate NonEmptyNeedles(ns: seq<string>) {
    forall i :: 0 <= i < |ns| ==> |ns[i]| > 0
  }

  /** Needles ordered by non-increasing length. */
  predicate LongestFirst(ns: seq<string>) {
    forall i, j :: 0 <= i < j < |ns| ==> |ns[j]| <= |ns[i]|
  }

  function FirstMatchFrom(s: string, q: nat, ns: seq<string>, k: nat): (r: Option<nat>)
    requires k <= |ns|
    ensures r.Some? ==> k <= r.value < |ns| && MatchesAt(s, q, ns[r.value])
    ensures r.Some? ==> forall j :: k <= j < r.value ==> !MatchesAt(s, q, ns[j])
    ensures r.None? ==> forall j :: k <= j < |ns| ==> !MatchesAt(s, q, ns[j])
    decreases |ns| - k
  {
    if k == |ns| then None
    else if MatchesAt(s, q, ns[k]) then Some(k)
    else FirstMatchFrom(s, q, ns, k + 1)
  }

  /**
   * The alternative the regular expression engine settles on at `q`: it tries
   * the alternatives in order and backtracks into the next one whenever the
   * closing `\b` fails, so the result is the first needle that matches there.
   */
  function FirstMatch(s: string, q: nat, ns: seq<string>): (r: Option<nat>)
    ensures r.Some? ==> r.value < |ns| && MatchesAt(s, q, ns[r.value])
    ensures r.Some? ==> forall j :: 0 <= j < r.value ==> !MatchesAt(s, q, ns[j])
    ensures r.None? ==> forall j :: 0 <= j < |ns| ==> !MatchesAt(s, q, ns[j])
  {
    FirstMatchFrom(s, q, ns, 0)
  }

  /** With the needles longest first, no needle that matches at `q` is longer than the one chosen. */
  lemma LongestWins(s: string, q: nat, ns: seq<string>, j: nat)
    requires LongestFirst(ns) && j < |ns| && MatchesAt(s, q, ns[j])
    ensures FirstMatch(s, q, ns).Some?
    ensures |ns[j]| <= |ns[FirstMatch(s, q, ns).value]|
  {
  }

  /** A matched region `s[start..end]`. */
  datatype Hit = Hit(start: nat, end: nat)

  /** The hits lie, in order and without overlapping, between `p` and `n`. */
  predicate Chain(hits: seq<Hit>, p: nat, n: nat)
    decreases |hits|
  {
    hits == [] || (p <= hits[0].start <= hits[0].end <= n && Chain(hits[1..], hits[0].end, n))
  }

  /** `h` is exactly what the pattern matches when tried at `h.start`. */
  predicate IsHit(s: string, ns: seq<string>, h: Hit) {
    var m := FirstMatch(s, h.start, ns);
    m.Some? && h.end == h.start + |ns[m.value]|
  }

  /** Position `p` lies inside one of the hits. */
  predicate Covered(hits: seq<Hit>, p: nat) {
    exists h :: h in hits && h.start <= p < h.end
  }

  /**
   * The global search from `q`: try the pattern at each position; after a
   * match resume at its end, otherwise at the next position.
   */
  function Scan(s: string, ns: seq<string>, q: nat): (hits: seq<Hit>)
    requires NonEmptyNeedles(ns)
    ensures Chain(hits, q, |s|)
    decreases |s| - q
  {
    if q >= |s| then []
    else match FirstMatch(s, q, ns)
      case None => Scan(s, ns, q + 1)
      case Some(i) => [Hit(q, q + |ns[i]|)] + Scan(s, ns, q + |ns[i]|)
  }

  /** Every region the search reports is a non-empty hit. */
  lemma {:induction false} ScanHits(s: string, ns: seq<string>, q: nat, k: nat)
    requires NonEmptyNeedles(ns) && k < |Scan(s, ns, q)|
    ensures var h := Scan(s, ns, q)[k]; h.start < h.end && IsHit(s, ns, h)
    decreases |s| - q
  {
    var hits := Scan(s, ns, q);
    match FirstMatch(s, q, ns)
    case None =>
      ScanHits(s, ns, q + 1, k);
    case Some(i) =>
      var e := q + |ns[i]|;
      if k > 0 {
        ScanHits(s, ns, e, k - 1);
        assert hits[k] == Scan(s, ns, e)[k - 1];
      }
  }

  /** Every position the search stepped over without a match really has none. */
  lemma {:induction false} ScanMissesNothing(s: string, ns: seq<string>, q: nat, p: nat)
    requires NonEmptyNeedles(ns)
    requires q <= p < |s| && !Covered(Scan(s, ns, q), p)
    ensures FirstMatch(s, p, ns).None?
    decreases |s| - q
  {
    var hits := Scan(s, ns, q);
    match FirstMatch(s, q, ns)
    case None =>
      if p > q {
        ScanMissesNothing(s, ns, q + 1, p);
      }
    case Some(i) =>
      var e := q + |ns[i]|;
      assert hits == [Hit(q, e)] + Scan(s, ns, e);
      assert hits[0] in hits;
      assert p >= e;
      ScanMissesNothing(s, ns, e, p);
  }

  /** The specification of the search: ordered, made of true hits, and missing no match. */
  ghost predicate ScanSpec(s: string, ns: seq<string>, q: nat, hits: seq<Hit>) {
    && Chain(hits, q, |s|)
    && (forall h :: h in hits ==> IsHit(s, ns, h))
    && (forall p: nat :: q <= p < |s| && !Covered(hits, p) ==> FirstMatch(s, p, ns).None?)
  }

  /** Every hit of a chain starts at or after the chain's start, and before the end of the later ones. */
  lemma {:induction false} ChainStarts(hits: seq<Hit>, p: nat, n: nat)
    requires Chain(hits, p, n)
    ensures forall k :: 0 <= k < |hits| ==> p <= hits[k].start <= hits[k].end <= n
    ensures forall k :: 0 <= k < |hits| ==> hits[0].end <= hits[k].end
    ensures forall k :: 1 <= k < |hits| ==> hits[0].end <= hits[k].start
    decreases |hits|
  {
    if hits != [] {
      ChainStarts(hits[1..], hits[0].end, n);
      forall k | 1 <= k < |hits|
        ensures hits[0].end <= hits[k].start
      {
        assert hits[k] == hits[1..][k - 1];
      }
    }
  }

  /** The search meets its specification. */
  lemma ScanMeetsSpec(s: string, ns: seq<string>, q: nat)
    requires NonEmptyNeedles(ns)
    ensures ScanSpec(s, ns, q, Scan(s, ns, q))
  {
    var hits := Scan(s, ns, q);
    forall h | h in hits
      ensures IsHit(s, ns, h)
    {
      var k :| 0 <= k < |hits| && hits[k] == h;
      ScanHits(s, ns, q, k);
    }
    forall p: nat | q <= p < |s| && !Covered(Scan(s, ns, q), p)
      ensures FirstMatch(s, p, ns).None?
    {
      ScanMissesNothing(s, ns, q, p);
    }
  }

  /** A true hit is non-empty and lies inside the text. */
  lemma HitInside(s: string, ns: seq<string>, h: Hit)
    requires NonEmptyNeedles(ns) && IsHit(s, ns, h)
    ensures h.start < h.end <= |s|
  {
    var i := FirstMatch(s, h.start, ns).value;
    assert |ns[i]| > 0;
  }

  /** Where the specification holds and no match exists at `q`, it also holds from `q + 1`. */
  lemma SpecSkip(s: string, ns: seq<string>, q: nat, hits: seq<Hit>)
    requires NonEmptyNeedles(ns) && ScanSpec(s, ns, q, hits)
    requires q < |s| && FirstMatch(s, q, ns).None?
    ensures ScanSpec(s, ns, q + 1, hits)
  {
    if hits != [] {
      assert hits[0] in hits;
      assert hits[0].start != q;
    }
  }

  /** Where the specification holds and a match exists at `q`, the first hit is that match. */
  lemma SpecFirstHit(s: string, ns: seq<string>, q: nat, hits: seq<Hit>)
    requires NonEmptyNeedles(ns) && ScanSpec(s, ns, q, hits)
    requires q < |s| && FirstMatch(s, q, ns).Some?
    ensures hits != [] && hits[0] == Hit(q, q + |ns[FirstMatch(s, q, ns).value]|)
  {
    ChainStarts(hits, q, |s|);
    var h :| h in hits && h.start <= q < h.end;
    var k :| 0 <= k < |hits| && hits[k] == h;
    assert hits[0] in hits;
    HitInside(s, ns, hits[0]);
    assert hits[0].start == q;
  }

  /** After the first hit, the rest of the hits meet the specification from that hit's end. */
  lemma SpecTail(s: string, ns: seq<string>, q: nat, hits: seq<Hit>)
    requires NonEmptyNeedles(ns) && ScanSpec(s, ns, q, hits) && hits != [] && hits[0].start == q
    ensures ScanSpec(s, ns, hits[0].end, hits[1..])
  {
    var e := hits[0].end;
    var rest := hits[1..];
    assert hits == [hits[0]] + rest;
    forall g | g in rest
      ensures IsHit(s, ns, g)
    {
      assert g in hits;
    }
  }

  /** With no match at `q`, the search from `q` is the search from `q + 1`. */
  lemma ScanSkips(s: string, ns: seq<string>, q: nat)
    requires NonEmptyNeedles(ns) && q < |s| && FirstMatch(s, q, ns).None?
    ensures Scan(s, ns, q) == Scan(s, ns, q + 1)
  {
  }

  /** With a match at `q`, the search from `q` reports it and resumes at its end. */
  lemma ScanTakes(s: string, ns: seq<string>, q: nat)
    requires NonEmptyNeedles(ns) && q < |s| && FirstMatch(s, q, ns).Some?
    ensures var e := q + |ns[FirstMatch(s, q, ns).value]|;
      Scan(s, ns, q) == [Hit(q, e)] + Scan(s, ns, e)
  {
  }

  /** The specification determines the search: no other sequence of hits meets it. */
  lemma {:induction false} ScanSpecUnique(s: string, ns: seq<string>, q: nat, hits: seq<Hit>)
    requires NonEmptyNeedles(ns) && ScanSpec(s, ns, q, hits)
    ensures hits == Scan(s, ns, q)
    decreases |s| - q, 1
  {
    if q >= |s| {
      if hits != [] {
        assert hits[0] in hits;
        HitInside(s, ns, hits[0]);
      }
    } else if FirstMatch(s, q, ns).None? {
      UniqueWhereNoMatch(s, ns, q, hits);
    } else {
      UniqueWhereMatch(s, ns, q, hits);
    }
  }

  lemma {:induction false} UniqueWhereNoMatch(s: string, ns: seq<string>, q: nat, hits: seq<Hit>)
    requires NonEmptyNeedles(ns) && ScanSpec(s, ns, q, hits)
    requires q < |s| && FirstMatch(s, q, ns).None?
    ensures hits == Scan(s, ns, q)
    decreases |s| - q, 0
  {
    SpecSkip(s, ns, q, hits);
    ScanSpecUnique(s, ns, q + 1, hits);
    ScanSkips(s, ns, q);
  }

  lemma {:induction false} UniqueWhereMatch(s: string, ns: seq<string>, q: nat, hits: seq<Hit>)
    requires NonEmptyNeedles(ns) && ScanSpec(s, ns, q, hits)
    requires q < |s| && FirstMatch(s, q, ns).Some?
    ensures hits == Scan(s, ns, q)
    decreases |s| - q, 0
  {
    var e := q + |ns[FirstMatch(s, q, ns).value]|;
    SpecFirstHit(s, ns, q, hits);
    SpecTail(s, ns, q, hits);
    ScanSpecUnique(s, ns, e, hits[1..]);
    ScanTakes(s, ns, q);
    assert hits == [hits[0]] + hits[1..];
  }

  // ---------------------------------------------------------------------------
  // `split` with one capturing group.

  /**
   * Cut `s[p..]` at the hits: the text before each hit, then the hit itself
   * (the captured group), and finally the text after the last hit.
   */
  function Cut(s: string, hits: seq<Hit>, p: nat): (parts: seq<string>)
    requires p <= |s| && Chain(hits, p, |s|)
    ensures |parts| == 2 * |hits| + 1
    decreases |hits|
  {
    if hits == [] then [s[p..]]
    else [s[p..hits[0].start], s[hits[0].start..hits[0].end]] + Cut(s, hits[1..], hits[0].end)
  }

  /** `s.split(regex)` for the alternation of the non-empty needles `ns`. */
  function Split(s: string, ns: seq<string>): (parts: seq<string>)
    requires NonEmptyNeedles(ns)
  {
    Cut(s, Scan(s, ns, 0), 0)
  }

  /** `parts.join('')`. */
  function Concat(parts: seq<string>): string {
    if parts == [] then "" else parts[0] + Concat(parts[1..])
  }

  lemma {:induction false} ConcatAppend(a: seq<string>, b: seq<string>)
    ensures Concat(a + b) == Concat(a) + Concat(b)
    decreases |a|
  {
    if a == [] {
      assert a + b == b;
    } else {
      assert (a + b)[0] == a[0];
      assert (a + b)[1..] == a[1..] + b;
      ConcatAppend(a[1..], b);
      calc {
        Concat(a + b);
        a[0] + Concat(a[1..] + b);
        a[0] + (Concat(a[1..]) + Concat(b));
        (a[0] + Concat(a[1..])) + Concat(b);
      }
    }
  }

  /** Cutting loses nothing: the parts join back to the text. */
  lemma {:induction false} CutLossless(s: string, hits: seq<Hit>, p: nat)
    requires p <= |s| && Chain(hits, p, |s|)
    ensures Concat(Cut(s, hits, p)) == s[p..]
    decreases |hits|
  {
    if hits != [] {
      var h := hits[0];
      var parts := Cut(s, hits, p);
      CutLossless(s, hits[1..], h.end);
      ConcatAppend([s[p..h.start], s[h.start..h.end]], Cut(s, hits[1..], h.end));
      assert Concat([s[p..h.start], s[h.start..h.end]]) == s[p..h.start] + s[h.start..h.end];
      assert s[p..] == s[p..h.start] + s[h.start..h.end] + s[h.end..];
    }
  }

  /** The odd-numbered parts are exactly the hits, in order. */
  lemma {:induction false} CutHits(s: string, hits: seq<Hit>, p: nat, k: nat)
    requires p <= |s| && Chain(hits, p, |s|) && k < |hits|
    ensures hits[k].start <= hits[k].end <= |s|
    ensures Cut(s, hits, p)[2 * k + 1] == s[hits[k].start..hits[k].end]
    decreases |hits|
  {
    ChainStarts(hits, p, |s|);
    if k > 0 {
      CutHits(s, hits[1..], hits[0].end, k - 1);
      assert Cut(s, hits, p)[2 * k + 1] == Cut(s, hits[1..], hits[0].end)[2 * (k - 1) + 1];
    }
  }

  /** `t` is a contiguous piece of `s`. */
  ghost predicate IsSliceOf(t: string, s: string) {
    exists a: nat, b: nat :: a <= b <= |s| && s[a..b] == t
  }

  /** Every part is a contiguous piece of the text. */
  lemma {:induction false} CutSlices(s: string, hits: seq<Hit>, p: nat, i: nat)
    requires p <= |s| && Chain(hits, p, |s|) && i < 2 * |hits| + 1
    ensures IsSliceOf(Cut(s, hits, p)[i], s)
    decreases |hits|
  {
    var parts := Cut(s, hits, p);
    if hits == [] {
      assert s[p..|s|] == parts[i];
    } else if i == 0 {
      assert s[p..hits[0].start] == parts[i];
    } else if i == 1 {
      assert s[hits[0].start..hits[0].end] == parts[i];
    } else {
      CutSlices(s, hits[1..], hits[0].end, i - 2);
      assert parts[i] == Cut(s, hits[1..], hits[0].end)[i - 2];
    }
  }

  // ---------------------------------------------------------------------------
  // What `split` promises, stated on `Split`.

  /** The parts join back to exactly the source text. */
  lemma SplitLossless(s: string, ns: seq<string>)
    requires NonEmptyNeedles(ns)
    ensures Concat(Split(s, ns)) == s
  {
    CutLossless(s, Scan(s, ns, 0), 0);
  }

  /**
   * Each odd-numbered part is a match: it starts and ends on a word boundary
   * and equals, ignoring case, the first needle that matches at its position.
   */
  lemma SplitMatch(s: string, ns: seq<string>, k: nat)
    requires NonEmptyNeedles(ns) && 2 * k + 1 < |Split(s, ns)|
    ensures exists j :: 0 <= j < |ns| && EqualsIgnoreCase(Split(s, ns)[2 * k + 1], ns[j])
    ensures var h := Scan(s, ns, 0)[k];
      && h.start <= h.end <= |s|
      && Split(s, ns)[2 * k + 1] == s[h.start..h.end]
      && FirstMatch(s, h.start, ns).Some?
      && MatchesAt(s, h.start, ns[FirstMatch(s, h.start, ns).value])
      && h.end == h.start + |ns[FirstMatch(s, h.start, ns).value]|
  {
    var hits := Scan(s, ns, 0);
    CutHits(s, hits, 0, k);
    ScanHits(s, ns, 0, k);
  }

  /** With the needles longest first, no needle that matches where a captured part starts is longer than that part. */
  lemma SplitLongestWins(s: string, ns: seq<string>, k: nat, j: nat)
    requires NonEmptyNeedles(ns) && LongestFirst(ns) && 2 * k + 1 < |Split(s, ns)|
    requires j < |ns| && MatchesAt(s, Scan(s, ns, 0)[k].start, ns[j])
    ensures |ns[j]| <= |Split(s, ns)[2 * k + 1]|
  {
    SplitMatch(s, ns, k);
    LongestWins(s, Scan(s, ns, 0)[k].start, ns, j);
  }

  /** Each part, matched or not, is a contiguous piece of the source text. */
  lemma SplitSlices(s: string, ns: seq<string>, i: nat)
    requires NonEmptyNeedles(ns) && i < |Split(s, ns)|
    ensures IsSliceOf(Split(s, ns)[i], s)
  {
    CutSlices(s, Scan(s, ns, 0), 0, i);
  }

  /** With no needle matching anywhere, the text comes back whole. */
  lemma SplitWithoutMatches(s: string, ns: seq<string>)
    requires NonEmptyNeedles(ns)
    requires forall p: nat :: p < |s| ==> FirstMatch(s, p, ns).None?
    ensures Split(s, ns) == [s]
  {
    if |Scan(s, ns, 0)| > 0 {
      ScanHits(s, ns, 0, 0);
    }
  }
}

/**
 * What the marker extractors promise: when the result is empty, what each
 * element looks like, where the elements come from in the text, and how many
 * there are.
 */
module MarkerLemmas {
  import opened JsString
  import opened MarkerRegex

  /** A proper prefix of the marker, of length L, that is also a suffix of it: two occurrences could overlap by L. */
  predicate IsBorder(marker: string, L: nat) {
    0 < L < |marker| && marker[..L] == marker[|marker| - L..]
  }

  /** No two occurrences of the marker can overlap. */
  predicate Unbordered(marker: string) {
    forall L: nat :: L < |marker| ==> !IsBorder(marker, L)
  }

  /**
   * The properties of "Risk:" and "Recommendation:" the shape lemmas rely on:
   * non-empty, no line terminator, no trimmable character at either end, and
   * no self-overlap.
   */
  predicate WellFormedMarker(marker: string) {
    && |marker| > 0
    && NoLineTerminator(marker)
    && !IsTrimmable(marker[0])
    && !IsTrimmable(marker[|marker| - 1])
    && Unbordered(marker)
  }

  predicate StartsWith(s: string, prefix: string) {
    |prefix| <= |s| && s[..|prefix|] == prefix
  }

  /**
   * The shape of every extracted element: it starts with the marker, does not
   * end in white space, holds no line terminator and contains the marker only
   * as its prefix.
   */
  predicate WellFormedElement(e: string, marker: string) {
    && |e| > 0
    && StartsWith(e, marker)
    && !IsTrimmable(e[|e| - 1])
    && NoLineTerminator(e)
    && forall q: nat :: 0 < q < |e| ==> !OccursAt(e, marker, q)
  }

  /**
   * Element e comes from match span sp: it is well formed and is the prefix
   * of the span's text that starts at the span's occurrence of the marker.
   */
  predicate ElementOfSpan(text: string, marker: string, e: string, sp: Span) {
    && WellFormedElement(e, marker)
    && OccursAt(text, marker, sp.start)
    && sp.start + |e| <= sp.end <= |text|
    && e == text[sp.start..sp.start + |e|]
  }

  /** A marker whose last character occurs nowhere else in it has no border. */
  lemma LastCharUniqueUnbordered(marker: string)
    requires |marker| > 0
    requires marker[|marker| - 1] !in marker[..|marker| - 1]
    ensures Unbordered(marker)
  {
    forall L: nat | L < |marker| ensures !IsBorder(marker, L) {
      if 0 < L < |marker| {
        assert marker[..L][L - 1] == marker[L - 1];
        assert marker[|marker| - L..][L - 1] == marker[|marker| - 1];
        assert marker[L - 1] in marker[..|marker| - 1];
      }
    }
  }

  /** Both markers of the service are well formed. */
  lemma ServiceMarkersWellFormed()
    ensures WellFormedMarker(RiskMarker)
    ensures WellFormedMarker(RecommendationMarker)
  {
    LastCharUniqueUnbordered(RiskMarker);
    LastCharUniqueUnbordered(RecommendationMarker);
    forall k | 0 <= k < |RiskMarker| ensures !IsLineTerminator(RiskMarker[k]) {
      assert RiskMarker[k] in RiskMarker;
    }
    forall k | 0 <= k < |RecommendationMarker| ensures !IsLineTerminator(RecommendationMarker[k]) {
      assert RecommendationMarker[k] in RecommendationMarker;
    }
  }

  /** Every extracted element is the trimmed text of one match span. */
  lemma ExtractBySpans(text: string, marker: string)
    requires |marker| > 0
    ensures var sps := SpansFrom(text, marker, 0);
      && |Extract(text, marker)| == |sps|
      && forall i :: 0 <= i < |sps| ==> Extract(text, marker)[i] == Trim(text[sps[i].start..sps[i].end])
  {
  }

  /** A scan that finds exactly the spans sps yields their texts. */
  lemma GlobalMatchOfSpans(text: string, marker: string, sps: seq<Span>)
    requires |marker| > 0
    requires SpansFrom(text, marker, 0) == sps != []
    ensures forall i :: 0 <= i < |sps| ==> sps[i].start <= sps[i].end <= |text|
    ensures GlobalMatch(text, marker) == Some(Pieces(text, sps))
  {
  }

  /** A scan that finds exactly one span yields the trimmed text of that span. */
  lemma ExtractOneSpan(text: string, marker: string, a: Span, x: string)
    requires |marker| > 0
    requires a.start <= a.end <= |text|
    requires SpansFrom(text, marker, 0) == [a]
    requires Trim(text[a.start..a.end]) == x
    ensures Extract(text, marker) == [x]
  {
    GlobalMatchOfSpans(text, marker, [a]);
    PiecesOne(text, a);
    TrimEachOne(text[a.start..a.end]);
  }

  /** A scan that finds exactly two spans yields their trimmed texts, in text order. */
  lemma ExtractTwoSpans(text: string, marker: string, a: Span, b: Span, x: string, y: string)
    requires |marker| > 0
    requires a.start <= a.end <= |text| && b.start <= b.end <= |text|
    requires SpansFrom(text, marker, 0) == [a, b]
    requires Trim(text[a.start..a.end]) == x && Trim(text[b.start..b.end]) == y
    ensures Extract(text, marker) == [x, y]
  {
    GlobalMatchOfSpans(text, marker, [a, b]);
    PiecesPair(text, a, b);
    TrimEachPair(text[a.start..a.end], text[b.start..b.end]);
  }

  lemma PiecesOne(text: string, a: Span)
    requires a.start <= a.end <= |text|
    ensures Pieces(text, [a]) == [text[a.start..a.end]]
  {
  }

  lemma PiecesPair(text: string, a: Span, b: Span)
    requires a.start <= a.end <= |text| && b.start <= b.end <= |text|
    ensures Pieces(text, [a, b]) == [text[a.start..a.end], text[b.start..b.end]]
  {
  }

  lemma TrimEachOne(p: string)
    ensures TrimEach([p]) == [Trim(p)]
  {
  }

  lemma TrimEachPair(p: string, q: string)
    ensures TrimEach([p, q]) == [Trim(p), Trim(q)]
  {
  }

  /** With no occurrence of the marker there is no match: `match` gives null and the extractor gives []. */
  lemma NoMarkerGivesEmpty(text: string, marker: string)
    requires |marker| > 0
    requires forall q: nat :: !OccursAt(text, marker, q)
    ensures GlobalMatch(text, marker) == None
    ensures Extract(text, marker) == []
  {
    assert FirstMatchFrom(text, marker, 0) == None by {
      FirstMatchSkip(text, marker, 0, |text|);
    }
  }

  /** Failed attempts can be skipped: the first match from a is the first from b. */
  lemma {:induction false} FirstMatchSkip(text: string, marker: string, a: nat, b: nat)
    requires |marker| > 0 && a <= b <= |text|
    requires forall q :: a <= q < b ==> MatchEndAt(text, marker, q).None?
    ensures FirstMatchFrom(text, marker, a) == FirstMatchFrom(text, marker, b)
    decreases b - a
  {
    if a < b {
      FirstMatchSkip(text, marker, a + 1, b);
    }
  }

  /** An occurrence of the marker inside a slice of the text is an occurrence in the text. */
  lemma OccurrenceInSlice(text: string, marker: string, s: nat, e: string, q: nat)
    requires s + |e| <= |text| && e == text[s..s + |e|]
    ensures OccursAt(e, marker, q) ==> OccursAt(text, marker, s + q)
  {
    if OccursAt(e, marker, q) {
      var inText, inSlice := text[s + q..s + q + |marker|], e[q..q + |marker|];
      forall k | 0 <= k < |marker| ensures inText[k] == inSlice[k] {
        assert inSlice[k] == e[q + k];
      }
      assert inText == inSlice;
    }
  }

  /** Two occurrences at s and p with s < p < s + |marker| would make a border. */
  lemma OverlapIsBorder(text: string, marker: string, s: nat, p: nat)
    requires OccursAt(text, marker, s) && s < p < s + |marker|
    ensures OccursAt(text, marker, p) ==> IsBorder(marker, s + |marker| - p)
  {
    if OccursAt(text, marker, p) {
      var L := s + |marker| - p;
      assert marker[..L] == marker[|marker| - L..] by {
        forall k | 0 <= k < L ensures marker[..L][k] == marker[|marker| - L..][k] {
          assert marker[..L][k] == text[p + k];
          assert marker[|marker| - L..][k] == text[p + k];
        }
      }
    }
  }

  /** An unbordered marker never occurs again strictly inside one of its occurrences. */
  lemma NoOverlap(text: string, marker: string, s: nat, p: nat)
    requires Unbordered(marker)
    requires OccursAt(text, marker, s) && s < p < s + |marker|
    ensures !OccursAt(text, marker, p)
  {
    OverlapIsBorder(text, marker, s, p);
    assert !IsBorder(marker, s + |marker| - p);
  }

  /** Trimming a string that starts with a well-formed marker only cuts its end, and never into the marker. */
  lemma TrimKeepsMarkerPrefix(piece: string, marker: string)
    requires WellFormedMarker(marker) && StartsWith(piece, marker)
    ensures |marker| <= |Trim(piece)| <= |piece| && Trim(piece) == piece[..|Trim(piece)|]
    ensures !IsTrimmable(Trim(piece)[|Trim(piece)| - 1])
  {
    TrimShape(piece);
    var m := |marker|;
    var e := Trim(piece);
    var a := |piece| - |TrimStart(piece)|;
    assert piece[0] == marker[0];
    TrimmableHead(piece, a);
    assert a == 0;
    assert piece[m - 1] == marker[m - 1];
    TrimmableTail(piece, |e|, m - 1);
  }

  lemma TrimmableHead(s: string, a: nat)
    requires a <= |s| && AllTrimmable(s[..a])
    ensures a > 0 ==> IsTrimmable(s[0])
  {
    if a > 0 {
      assert s[..a][0] == s[0];
    }
  }

  lemma TrimmableTail(s: string, b: nat, i: nat)
    requires b <= |s| && AllTrimmable(s[b..])
    ensures b <= i < |s| ==> IsTrimmable(s[i])
  {
    if b <= i < |s| {
      assert s[b..][i - b] == s[i];
    }
  }

  /**
   * The text of one match: no line terminator, and no occurrence of the
   * marker strictly after its start (the lazy loop stops at the first one).
   */
  lemma MatchTextShape(text: string, marker: string, s: nat, end: nat)
    requires WellFormedMarker(marker)
    requires MatchEndAt(text, marker, s) == Some(end)
    ensures NoLineTerminator(text[s..end])
    ensures forall q: nat :: s < q < end ==> !OccursAt(text, marker, q)
  {
    var m := |marker|;
    assert OccursAt(text, marker, s);
    assert LazyEnd(text, marker, s + m) == Some(end);
    forall k | 0 <= k < end - s ensures !IsLineTerminator(text[s..end][k]) {
      if k < m {
        assert text[s..end][k] == marker[k];
      }
    }
    forall q: nat | s < q < end ensures !OccursAt(text, marker, q) {
      if q < s + m {
        NoOverlap(text, marker, s, q);
      } else {
        assert !LookaheadAt(text, marker, q);
      }
    }
  }

  /**
   * A prefix of a match's text that covers the marker and ends in a
   * non-trimmable character is an element of that match's span.
   */
  lemma MatchPrefixShape(text: string, marker: string, sp: Span, n: nat)
    requires WellFormedMarker(marker)
    requires MatchEndAt(text, marker, sp.start) == Some(sp.end)
    requires |marker| <= n <= sp.end - sp.start
    requires !IsTrimmable(text[sp.start + n - 1])
    ensures ElementOfSpan(text, marker, text[sp.start..sp.start + n], sp)
  {
    var s, end := sp.start, sp.end;
    var e := text[s..s + n];
    assert OccursAt(text, marker, s);
    SliceStartsWithMarker(text, marker, s, s + n);
    MatchTextShape(text, marker, s, end);
    PrefixNoLineTerminator(text, s, end, n);
    forall q: nat | 0 < q < n ensures !OccursAt(e, marker, q) {
      OccurrenceInSlice(text, marker, s, e, q);
    }
  }

  /** A slice of the text that begins at an occurrence of the marker and covers it starts with the marker. */
  lemma SliceStartsWithMarker(text: string, marker: string, s: nat, end: nat)
    requires OccursAt(text, marker, s) && s + |marker| <= end <= |text|
    ensures StartsWith(text[s..end], marker)
  {
    assert text[s..end][..|marker|] == text[s..s + |marker|];
  }

  lemma PrefixNoLineTerminator(text: string, s: nat, end: nat, n: nat)
    requires s + n <= end <= |text| && NoLineTerminator(text[s..end])
    ensures NoLineTerminator(text[s..s + n])
  {
    var prefix, whole := text[s..s + n], text[s..end];
    forall k | 0 <= k < n ensures !IsLineTerminator(prefix[k]) {
      assert prefix[k] == whole[k];
    }
  }

  lemma SliceOfSlice(text: string, s: nat, end: nat, n: nat)
    requires s + n <= end <= |text|
    ensures text[s..end][..n] == text[s..s + n]
    ensures n > 0 ==> text[s..end][..n][n - 1] == text[s + n - 1]
  {
  }

  /** A prefix e of a match's text that covers the marker and does not end in white space is an element of the match's span. */
  lemma PrefixElement(text: string, marker: string, sp: Span, e: string)
    requires WellFormedMarker(marker)
    requires MatchEndAt(text, marker, sp.start) == Some(sp.end)
    requires |marker| <= |e| <= sp.end - sp.start
    requires e == text[sp.start..sp.end][..|e|]
    requires !IsTrimmable(e[|e| - 1])
    ensures ElementOfSpan(text, marker, e, sp)
  {
    SliceOfSlice(text, sp.start, sp.end, |e|);
    MatchPrefixShape(text, marker, sp, |e|);
  }

  /**
   * The trimmed text of one match is a well-formed element and a prefix of the
   * match: trimming only strips trailing white space.
   */
  lemma TrimmedMatchShape(text: string, marker: string, sp: Span)
    requires WellFormedMarker(marker)
    requires MatchEndAt(text, marker, sp.start) == Some(sp.end)
    ensures ElementOfSpan(text, marker, Trim(text[sp.start..sp.end]), sp)
  {
    var piece := text[sp.start..sp.end];
    assert OccursAt(text, marker, sp.start);
    SliceStartsWithMarker(text, marker, sp.start, sp.end);
    TrimKeepsMarkerPrefix(piece, marker);
    PrefixElement(text, marker, sp, Trim(piece));
  }

  /**
   * Layout of the result: one element per match span, each a prefix of its
   * span starting at an occurrence of the marker and well formed; spans are
   * disjoint and in increasing text order, and equal elements are all kept.
   */
  lemma ExtractLayout(text: string, marker: string)
    requires WellFormedMarker(marker)
    ensures var r := Extract(text, marker);
      var sps := SpansFrom(text, marker, 0);
      && |r| == |sps|
      && (forall i :: 0 <= i < |r| ==> ElementOfSpan(text, marker, r[i], sps[i]))
      && (forall i, j :: 0 <= i < j < |r| ==> sps[i].end <= sps[j].start)
  {
    var r := Extract(text, marker);
    var sps := SpansFrom(text, marker, 0);
    ExtractBySpans(text, marker);
    forall i | 0 <= i < |r| ensures ElementOfSpan(text, marker, r[i], sps[i]) {
      TrimmedMatchShape(text, marker, sps[i]);
    }
  }

  /** The number of occurrences of the marker at or after position k. */
  function Occurrences(text: string, marker: string, k: nat): nat
    decreases |text| - k
  {
    if k >= |text| then 0
    else (if OccursAt(text, marker, k) then 1 else 0) + Occurrences(text, marker, k + 1)
  }

  lemma {:induction false} OccurrencesMonotone(text: string, marker: string, a: nat, b: nat)
    requires a <= b
    ensures Occurrences(text, marker, b) <= Occurrences(text, marker, a)
    decreases b - a
  {
    if a < b {
      OccurrencesMonotone(text, marker, a + 1, b);
    }
  }

  lemma {:induction false} OccurrencesSkip(text: string, marker: string, a: nat, b: nat)
    requires a <= b
    requires forall q :: a <= q < b ==> !OccursAt(text, marker, q)
    ensures Occurrences(text, marker, a) == Occurrences(text, marker, b)
    decreases b - a
  {
    if a < b {
      OccurrencesSkip(text, marker, a + 1, b);
    }
  }

  lemma {:induction false} SpansAtMostOccurrences(text: string, marker: string, k: nat)
    requires |marker| > 0
    ensures |SpansFrom(text, marker, k)| <= Occurrences(text, marker, k)
    decreases |text| + 1 - k
  {
    match FirstMatchFrom(text, marker, k)
    case None =>
    case Some(sp) =>
      assert SpansFrom(text, marker, k) == [sp] + SpansFrom(text, marker, sp.end);
      assert OccursAt(text, marker, sp.start);
      assert Occurrences(text, marker, sp.start) == 1 + Occurrences(text, marker, sp.start + 1);
      SpansAtMostOccurrences(text, marker, sp.end);
      OccurrencesMonotone(text, marker, k, sp.start);
      OccurrencesMonotone(text, marker, sp.start + 1, sp.end);
  }

  /** An occurrence whose segment reaches a line terminator first yields nothing, so never more elements than occurrences. */
  lemma AtMostOneElementPerOccurrence(text: string, marker: string)
    requires |marker| > 0
    ensures |Extract(text, marker)| <= Occurrences(text, marker, 0)
  {
    ExtractBySpans(text, marker);
    SpansAtMostOccurrences(text, marker, 0);
  }

  /** Without line terminators the lazy loop always reaches the lookahead. */
  lemma {:induction false} LazyEndTotal(text: string, marker: string, j: nat)
    requires j <= |text| && NoLineTerminator(text)
    ensures LazyEnd(text, marker, j).Some?
    decreases |text| - j
  {
    if !LookaheadAt(text, marker, j) {
      LazyEndTotal(text, marker, j + 1);
    }
  }

  /** Without line terminators every occurrence of the marker starts a match. */
  lemma MatchesEveryOccurrence(text: string, marker: string, q: nat)
    requires NoLineTerminator(text)
    ensures OccursAt(text, marker, q) ==> MatchEndAt(text, marker, q).Some?
  {
    if OccursAt(text, marker, q) {
      LazyEndTotal(text, marker, q + |marker|);
    }
  }

  /**
   * Without line terminators, the occurrences from k are the one at the first
   * match's start plus those from that match's end on.
   */
  lemma OccurrencesOfFirstMatch(text: string, marker: string, k: nat, sp: Span)
    requires WellFormedMarker(marker) && NoLineTerminator(text)
    requires FirstMatchFrom(text, marker, k) == Some(sp)
    ensures Occurrences(text, marker, k) == 1 + Occurrences(text, marker, sp.end)
  {
    forall q | k <= q < sp.start ensures !OccursAt(text, marker, q) {
      MatchesEveryOccurrence(text, marker, q);
    }
    OccurrencesSkip(text, marker, k, sp.start);
    assert OccursAt(text, marker, sp.start);
    assert Occurrences(text, marker, sp.start) == 1 + Occurrences(text, marker, sp.start + 1);
    MatchTextShape(text, marker, sp.start, sp.end);
    OccurrencesSkip(text, marker, sp.start + 1, sp.end);
  }

  /** Without line terminators, no occurrence is left after the scan finds no further match. */
  lemma NoOccurrenceAfterLastMatch(text: string, marker: string, k: nat)
    requires |marker| > 0 && NoLineTerminator(text)
    requires FirstMatchFrom(text, marker, k) == None
    ensures Occurrences(text, marker, k) == 0
  {
    if k < |text| {
      forall q | k <= q < |text| ensures !OccursAt(text, marker, q) {
        MatchesEveryOccurrence(text, marker, q);
      }
      OccurrencesSkip(text, marker, k, |text|);
    }
  }

  lemma {:induction false} SpansMatchOccurrences(text: string, marker: string, k: nat)
    requires WellFormedMarker(marker) && NoLineTerminator(text)
    ensures |SpansFrom(text, marker, k)| == Occurrences(text, marker, k)
    decreases |text| + 1 - k
  {
    match FirstMatchFrom(text, marker, k)
    case None =>
      NoOccurrenceAfterLastMatch(text, marker, k);
    case Some(sp) =>
      assert SpansFrom(text, marker, k) == [sp] + SpansFrom(text, marker, sp.end);
      OccurrencesOfFirstMatch(text, marker, k, sp);
      SpansMatchOccurrences(text, marker, sp.end);
  }

  /** On text without line terminators there is exactly one element per occurrence of the marker. */
  lemma OneElementPerOccurrence(text: string, marker: string)
    requires WellFormedMarker(marker) && NoLineTerminator(text)
    ensures |Extract(text, marker)| == Occurrences(text, marker, 0)
  {
    ExtractBySpans(text, marker);
    SpansMatchOccurrences(text, marker, 0);
  }

  /** Position q is where one of the spans starts. */
  predicate StartsSpan(sps: seq<Span>, q: nat) {
    exists i :: 0 <= i < |sps| && sps[i].start == q
  }

  /**
   * The occurrences the scan keeps, on any text: an occurrence of the marker
   * starts a match exactly when the match attempt there succeeds, that is,
   * when its segment reaches the next occurrence or the end of the text
   * before any line terminator.
   */
  lemma OccurrenceYieldsElementIff(text: string, marker: string, q: nat)
    requires WellFormedMarker(marker)
    ensures StartsSpan(SpansFrom(text, marker, 0), q) <==> MatchEndAt(text, marker, q).Some?
  {
    if MatchEndAt(text, marker, q).Some? {
      SuccessfulAttemptFound(text, marker, 0, q);
    }
  }

  /**
   * A successful attempt at q is found by a scan that starts at or before q:
   * a match starting earlier ends at or before q, because the lazy loop stops
   * at the first following occurrence of the marker.
   */
  lemma {:induction false} SuccessfulAttemptFound(text: string, marker: string, k: nat, q: nat)
    requires WellFormedMarker(marker) && k <= q
    requires MatchEndAt(text, marker, q).Some?
    ensures StartsSpan(SpansFrom(text, marker, k), q)
    decreases |text| + 1 - k
  {
    assert q <= |text|;
    var first := FirstMatchFrom(text, marker, k);
    assert first.Some?;
    var sp := first.value;
    var rest := SpansFrom(text, marker, sp.end);
    assert SpansFrom(text, marker, k) == [sp] + rest;
    if sp.start == q {
      assert ([sp] + rest)[0].start == q;
    } else {
      assert sp.start < q;
      MatchTextShape(text, marker, sp.start, sp.end);
      assert OccursAt(text, marker, q);
      assert sp.end <= q;
      SuccessfulAttemptFound(text, marker, sp.end, q);
      var i :| 0 <= i < |rest| && rest[i].start == q;
      assert ([sp] + rest)[i + 1].start == q;
    }
  }

  /** A failed lazy loop met a line terminator before any position where the lookahead holds. */
  lemma {:induction false} LazyEndFailure(text: string, marker: string, j: nat)
    requires j <= |text|
    ensures LazyEnd(text, marker, j).None? ==>
      exists q :: j <= q < |text| && IsLineTerminator(text[q]) &&
        forall p :: j <= p <= q ==> !LookaheadAt(text, marker, p)
    decreases |text| - j
  {
    if !LookaheadAt(text, marker, j) && !IsLineTerminator(text[j]) {
      LazyEndFailure(text, marker, j + 1);
      if LazyEnd(text, marker, j).None? {
        var q :| j + 1 <= q < |text| && IsLineTerminator(text[q]) &&
          forall p :: j + 1 <= p <= q ==> !LookaheadAt(text, marker, p);
        assert forall p :: j <= p <= q ==> !LookaheadAt(text, marker, p);
      }
    }
  }

  /** The concatenation of a list of strings. */
  function Concat(ss: seq<string>): string {
    if ss == [] then "" else ss[0] + Concat(ss[1..])
  }

  lemma PiecesCons(text: string, sp: Span, rest: seq<Span>)
    requires sp.start <= sp.end <= |text|
    requires forall i :: 0 <= i < |rest| ==> rest[i].start <= rest[i].end <= |text|
    ensures Pieces(text, [sp] + rest) == [text[sp.start..sp.end]] + Pieces(text, rest)
  {
  }

  lemma ConcatCons(s: string, ss: seq<string>)
    ensures Concat([s] + ss) == s + Concat(ss)
  {
    assert ([s] + ss)[1..] == ss;
  }

  /** No match attempt starts at the end of the text: the scan from there finds nothing. */
  lemma NoSpansAtEnd(text: string, marker: string)
    requires |marker| > 0
    ensures SpansFrom(text, marker, |text|) == []
  {
    assert !OccursAt(text, marker, |text|);
    assert FirstMatchFrom(text, marker, |text|) == None;
  }

  /** On text without line terminators, an occurrence at i starts the first match from i, which ends at the lookahead. */
  lemma FirstSpanAt(text: string, marker: string, i: nat)
    requires |marker| > 0 && NoLineTerminator(text) && OccursAt(text, marker, i)
    ensures FirstMatchFrom(text, marker, i).Some?
    ensures FirstMatchFrom(text, marker, i).value.start == i
    ensures LookaheadAt(text, marker, FirstMatchFrom(text, marker, i).value.end)
  {
    MatchesEveryOccurrence(text, marker, i);
    var e := MatchEndAt(text, marker, i).value;
    assert LazyEnd(text, marker, i + |marker|) == Some(e);
  }

  lemma SliceSplit(text: string, i: nat, e: nat)
    requires i <= e <= |text|
    ensures text[i..e] + text[e..] == text[i..]
  {
  }

  lemma {:induction false} MatchesCoverFrom(text: string, marker: string, i: nat)
    requires |marker| > 0 && NoLineTerminator(text) && OccursAt(text, marker, i)
    ensures Concat(Pieces(text, SpansFrom(text, marker, i))) == text[i..]
    decreases |text| - i
  {
    FirstSpanAt(text, marker, i);
    var sp := FirstMatchFrom(text, marker, i).value;
    var rest := SpansFrom(text, marker, sp.end);
    assert SpansFrom(text, marker, i) == [sp] + rest;
    PiecesCons(text, sp, rest);
    ConcatCons(text[i..sp.end], Pieces(text, rest));
    if sp.end == |text| {
      NoSpansAtEnd(text, marker);
    } else {
      MatchesCoverFrom(text, marker, sp.end);
      SliceSplit(text, i, sp.end);
    }
  }

  /**
   * On text without line terminators the untrimmed matches, concatenated,
   * give back the text from the first occurrence of the marker onwards.
   */
  lemma MatchesCoverText(text: string, marker: string, i: nat)
    requires |marker| > 0 && NoLineTerminator(text)
    requires OccursAt(text, marker, i)
    requires forall q: nat :: q < i ==> !OccursAt(text, marker, q)
    ensures GlobalMatch(text, marker).Some?
    ensures Concat(GlobalMatch(text, marker).value) == text[i..]
  {
    FirstMatchSkip(text, marker, 0, i);
    assert SpansFrom(text, marker, 0) == SpansFrom(text, marker, i);
    MatchesEveryOccurrence(text, marker, i);
    assert FirstMatchFrom(text, marker, i).Some?;
    MatchesCoverFrom(text, marker, i);
  }
}

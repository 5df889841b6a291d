/**
 * The service's two extractors, `extractRisks` and `extractRecommendations`:
 * `analysis.match(/M(.*?)(?=M|$)/g)?.map(s => s.trim()) || []` with the
 * marker M = "Risk:" and M = "Recommendation:" respectively.
 */
module Extraction {
  import opened JsString
  import opened MarkerRegex
  import opened MarkerLemmas

  /**
   * The shared body of both extractors: run the global match, trim every
   * match, and turn a null result into the empty list.
   */
  method ExtractMarked(analysis: string, marker: string) returns (found: seq<string>)
    requires |marker| > 0
    ensures found == Extract(analysis, marker)
  {
    var matched := MatchAll(analysis, marker);
    match matched
    case None =>
      found := [];
    case Some(ms) =>
      found := TrimEach(ms);
  }

  /**
   * `extractRisks`: no "Risk:" in the text gives [], not an error; every
   * element is well formed; there are never more elements than occurrences
   * of the marker, and exactly as many when the text has no line terminator.
   */
  method ExtractRisks(analysis: string) returns (risks: seq<string>)
    ensures risks == Extract(analysis, RiskMarker)
    ensures (forall q: nat :: !OccursAt(analysis, RiskMarker, q)) ==> risks == []
    ensures forall i :: 0 <= i < |risks| ==> WellFormedElement(risks[i], RiskMarker)
    ensures |risks| <= Occurrences(analysis, RiskMarker, 0)
    ensures NoLineTerminator(analysis) ==> |risks| == Occurrences(analysis, RiskMarker, 0)
  {
    ServiceMarkersWellFormed();
    risks := ExtractMarked(analysis, RiskMarker);
    ExtractionGuarantees(analysis, RiskMarker);
  }

  /** `extractRecommendations`: the same guarantees for the marker "Recommendation:". */
  method ExtractRecommendations(analysis: string) returns (recommendations: seq<string>)
    ensures recommendations == Extract(analysis, RecommendationMarker)
    ensures (forall q: nat :: !OccursAt(analysis, RecommendationMarker, q)) ==> recommendations == []
    ensures forall i :: 0 <= i < |recommendations| ==> WellFormedElement(recommendations[i], RecommendationMarker)
    ensures |recommendations| <= Occurrences(analysis, RecommendationMarker, 0)
    ensures NoLineTerminator(analysis) ==> |recommendations| == Occurrences(analysis, RecommendationMarker, 0)
  {
    ServiceMarkersWellFormed();
    recommendations := ExtractMarked(analysis, RecommendationMarker);
    ExtractionGuarantees(analysis, RecommendationMarker);
  }

  /** The guarantees both extractors give, for any well-formed marker. */
  lemma ExtractionGuarantees(text: string, marker: string)
    requires WellFormedMarker(marker)
    ensures (forall q: nat :: !OccursAt(text, marker, q)) ==> Extract(text, marker) == []
    ensures forall i :: 0 <= i < |Extract(text, marker)| ==> WellFormedElement(Extract(text, marker)[i], marker)
    ensures |Extract(text, marker)| <= Occurrences(text, marker, 0)
    ensures NoLineTerminator(text) ==> |Extract(text, marker)| == Occurrences(text, marker, 0)
  {
    if forall q: nat :: !OccursAt(text, marker, q) {
      NoMarkerGivesEmpty(text, marker);
    }
    ExtractLayout(text, marker);
    AtMostOneElementPerOccurrence(text, marker);
    if NoLineTerminator(text) {
      OneElementPerOccurrence(text, marker);
    }
  }

  /** "Risk:" occurs nowhere in [lo, hi) of a text whose characters there are not 'R'. */
  lemma NoOccurrenceBetween(t: string, lo: nat, hi: nat)
    requires lo <= hi <= |t|
    requires forall q :: lo <= q < hi ==> t[q] != 'R'
    ensures forall q :: lo <= q < hi ==> !OccursAt(t, RiskMarker, q)
  {
    forall q | lo <= q < hi ensures !OccursAt(t, RiskMarker, q) {
      OccurrenceStartsWithMarkerHead(t, RiskMarker, q);
    }
  }

  lemma OccurrenceStartsWithMarkerHead(text: string, marker: string, q: nat)
    requires |marker| > 0
    ensures OccursAt(text, marker, q) ==> text[q] == marker[0]
  {
    if OccursAt(text, marker, q) {
      assert text[q..q + |marker|][0] == text[q];
    }
  }

  /** The analysis text of the two-marker example. */
  const TwoRisks := "Risk: ARisk: B"

  lemma TwoRisksFirstMatch()
    ensures FirstMatchFrom(TwoRisks, RiskMarker, 0) == Some(Span(0, 7))
  {
    var t := TwoRisks;
    assert OccursAt(t, RiskMarker, 0);
    NoOccurrenceBetween(t, 1, 7);
    assert OccursAt(t, RiskMarker, 7);
    assert LazyEnd(t, RiskMarker, 5) == Some(7);
  }

  lemma TwoRisksSecondMatch()
    ensures FirstMatchFrom(TwoRisks, RiskMarker, 7) == Some(Span(7, 14))
    ensures FirstMatchFrom(TwoRisks, RiskMarker, 14) == None
  {
    var t := TwoRisks;
    assert OccursAt(t, RiskMarker, 7);
    NoOccurrenceBetween(t, 8, 14);
    assert LazyEnd(t, RiskMarker, 12) == Some(14);
    assert !OccursAt(t, RiskMarker, 14);
  }

  lemma TwoRisksSpans()
    ensures SpansFrom(TwoRisks, RiskMarker, 0) == [Span(0, 7), Span(7, 14)]
  {
    TwoRisksFirstMatch();
    TwoRisksSecondMatch();
    assert SpansFrom(TwoRisks, RiskMarker, 14) == [];
    assert SpansFrom(TwoRisks, RiskMarker, 7) == [Span(7, 14)];
  }

  lemma TwoRisksPieces()
    ensures Trim(TwoRisks[0..7]) == "Risk: A" && Trim(TwoRisks[7..14]) == "Risk: B"
  {
    assert TwoRisks[0..7] == "Risk: A";
    TrimUntouched("Risk: A");
    assert TwoRisks[7..14] == "Risk: B";
    TrimUntouched("Risk: B");
  }

  /** Two markers with nothing else between them give two elements, in text order. */
  lemma TwoRisksInOrder()
    ensures Extract(TwoRisks, RiskMarker) == ["Risk: A", "Risk: B"]
  {
    TwoRisksSpans();
    TwoRisksPieces();
    ExtractTwoSpans(TwoRisks, RiskMarker, Span(0, 7), Span(7, 14), "Risk: A", "Risk: B");
  }

  /** The analysis text of the line-terminator example: the first risk runs into a line break. */
  const BrokenRisk := "Risk: a\nRisk: b"

  lemma BrokenRiskFirstAttemptFails()
    ensures forall q :: 0 <= q < 8 ==> MatchEndAt(BrokenRisk, RiskMarker, q) == None
  {
    var t := BrokenRisk;
    NoOccurrenceBetween(t, 1, 8);
    assert t[5] == ' ' && t[6] == 'a' && t[7] == '\n';
    assert LazyEnd(t, RiskMarker, 5) == None;
  }

  lemma BrokenRiskSecondMatch()
    ensures FirstMatchFrom(BrokenRisk, RiskMarker, 8) == Some(Span(8, 15))
    ensures FirstMatchFrom(BrokenRisk, RiskMarker, 15) == None
  {
    var t := BrokenRisk;
    assert OccursAt(t, RiskMarker, 8);
    NoOccurrenceBetween(t, 9, 15);
    assert LazyEnd(t, RiskMarker, 13) == Some(15);
  }

  lemma BrokenRiskSpans()
    ensures SpansFrom(BrokenRisk, RiskMarker, 0) == [Span(8, 15)]
  {
    BrokenRiskFirstAttemptFails();
    BrokenRiskSecondMatch();
    FirstMatchSkip(BrokenRisk, RiskMarker, 0, 8);
    assert SpansFrom(BrokenRisk, RiskMarker, 15) == [];
  }

  lemma BrokenRiskPiece()
    ensures Trim(BrokenRisk[8..15]) == "Risk: b"
  {
    assert BrokenRisk[8..15] == "Risk: b";
    TrimUntouched("Risk: b");
  }

  /**
   * An occurrence whose segment meets a line terminator before the next
   * marker yields no element: only the second risk is extracted.
   */
  lemma LineBreakDropsRisk()
    ensures Extract(BrokenRisk, RiskMarker) == ["Risk: b"]
    ensures Occurrences(BrokenRisk, RiskMarker, 0) == 2
  {
    BrokenRiskSpans();
    BrokenRiskPiece();
    ExtractOneSpan(BrokenRisk, RiskMarker, Span(8, 15), "Risk: b");
    BrokenRiskOccurrences();
  }

  lemma BrokenRiskOccurrences()
    ensures Occurrences(BrokenRisk, RiskMarker, 0) == 2
  {
    var t := BrokenRisk;
    assert OccursAt(t, RiskMarker, 0) && OccursAt(t, RiskMarker, 8);
    NoOccurrenceBetween(t, 1, 8);
    NoOccurrenceBetween(t, 9, 15);
    OccurrencesSkip(t, RiskMarker, 1, 8);
    OccurrencesSkip(t, RiskMarker, 9, 15);
  }

  /** The analysis text of the duplicates example: the same risk twice. */
  const RepeatedRisk := "Risk: A Risk: A"

  lemma RepeatedRiskFirstMatch()
    ensures FirstMatchFrom(RepeatedRisk, RiskMarker, 0) == Some(Span(0, 8))
  {
    var t := RepeatedRisk;
    assert OccursAt(t, RiskMarker, 0) && OccursAt(t, RiskMarker, 8);
    NoOccurrenceBetween(t, 1, 8);
    assert LazyEnd(t, RiskMarker, 5) == Some(8);
  }

  lemma RepeatedRiskSecondMatch()
    ensures FirstMatchFrom(RepeatedRisk, RiskMarker, 8) == Some(Span(8, 15))
    ensures FirstMatchFrom(RepeatedRisk, RiskMarker, 15) == None
  {
    var t := RepeatedRisk;
    assert OccursAt(t, RiskMarker, 8);
    NoOccurrenceBetween(t, 9, 15);
    assert LazyEnd(t, RiskMarker, 13) == Some(15);
    assert !OccursAt(t, RiskMarker, 15);
  }

  lemma RepeatedRiskSpans()
    ensures SpansFrom(RepeatedRisk, RiskMarker, 0) == [Span(0, 8), Span(8, 15)]
  {
    RepeatedRiskFirstMatch();
    RepeatedRiskSecondMatch();
    assert SpansFrom(RepeatedRisk, RiskMarker, 15) == [];
    assert SpansFrom(RepeatedRisk, RiskMarker, 8) == [Span(8, 15)];
  }

  lemma RepeatedRiskPieces()
    ensures Trim(RepeatedRisk[0..8]) == "Risk: A" && Trim(RepeatedRisk[8..15]) == "Risk: A"
  {
    assert RepeatedRisk[0..8] == "Risk: A" + [' '];
    assert RepeatedRisk[8..15] == "Risk: A";
    TrimDropsTrailing("Risk: A", ' ');
    TrimUntouched("Risk: A");
  }

  lemma DuplicateRisksKept()
    ensures Extract(RepeatedRisk, RiskMarker) == ["Risk: A", "Risk: A"]
  {
    RepeatedRiskSpans();
    RepeatedRiskPieces();
    ExtractTwoSpans(RepeatedRisk, RiskMarker, Span(0, 8), Span(8, 15), "Risk: A", "Risk: A");
  }
}

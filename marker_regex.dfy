/**
 * ECMAScript semantics of the global pattern `/M(.*?)(?=M|$)/g` for a literal
 * marker `M`, as used by `String.prototype.match`.
 *
 * A match attempt at position i needs the marker at i; the lazy `.*?` then
 * grows one character at a time from i + |M| until the lookahead `(?=M|$)`
 * holds (the marker starts there, or the input ends: without the `m` flag `$`
 * is the end of input only). `.` refuses line terminators, so an attempt that
 * meets one first fails. The global scan retries a failed attempt one position
 * further on and resumes a successful one at its end.
 *
 * The functions below state these semantics; the methods are the scanning
 * engine, each proved to compute its function.
 */
module MarkerRegex {
  import opened JsString

  datatype Option<+T> = None | Some(value: T)

  /** The half-open range [start, end) of the input that one match covers. */
  datatype Span = Span(start: nat, end: nat)

  const RiskMarker := "Risk:"
  const RecommendationMarker := "Recommendation:"

  /** The marker occurs in `text` starting at position i. */
  predicate OccursAt(text: string, marker: string, i: nat) {
    i + |marker| <= |text| && text[i..i + |marker|] == marker
  }

  /** The lookahead `(?=M|$)` holds at position j. */
  predicate LookaheadAt(text: string, marker: string, j: nat) {
    OccursAt(text, marker, j) || j == |text|
  }

  /**
   * `(.*?)(?=M|$)` tried from position j: the end of the shortest extension
   * after which the lookahead holds, or None when a line terminator comes first.
   */
  function LazyEnd(text: string, marker: string, j: nat): (r: Option<nat>)
    requires j <= |text|
    ensures r.Some? ==> j <= r.value <= |text| && LookaheadAt(text, marker, r.value)
    ensures r.Some? ==> forall q :: j <= q < r.value ==> !LookaheadAt(text, marker, q) && !IsLineTerminator(text[q])
    decreases |text| - j
  {
    if LookaheadAt(text, marker, j) then Some(j)
    else if !IsLineTerminator(text[j]) then LazyEnd(text, marker, j + 1)
    else None
  }

  /** One match attempt anchored at position i: the end of the match, if any. */
  function MatchEndAt(text: string, marker: string, i: nat): (r: Option<nat>)
    ensures r.Some? ==> OccursAt(text, marker, i) && i + |marker| <= r.value <= |text|
  {
    if OccursAt(text, marker, i) then LazyEnd(text, marker, i + |marker|) else None
  }

  /**
   * `RegExpBuiltinExec` with the global flag from lastIndex k: the first
   * position at or after k where an attempt succeeds, or None once k has
   * passed the end of the input.
   */
  function FirstMatchFrom(text: string, marker: string, k: nat): (r: Option<Span>)
    requires |marker| > 0
    ensures r.Some? ==> k <= r.value.start && MatchEndAt(text, marker, r.value.start) == Some(r.value.end)
    ensures r.Some? ==> forall q :: k <= q < r.value.start ==> MatchEndAt(text, marker, q).None?
    ensures r.None? ==> forall q :: k <= q <= |text| ==> MatchEndAt(text, marker, q).None?
    decreases |text| + 1 - k
  {
    if k > |text| then None
    else match MatchEndAt(text, marker, k)
      case Some(e) => Some(Span(k, e))
      case None => FirstMatchFrom(text, marker, k + 1)
  }

  /**
   * The spans of all matches the global scan finds from lastIndex k: each
   * starts at a successful attempt, and they are disjoint and in text order.
   */
  function SpansFrom(text: string, marker: string, k: nat): (sps: seq<Span>)
    requires |marker| > 0
    ensures forall i :: 0 <= i < |sps| ==>
      && k <= sps[i].start
      && sps[i].start + |marker| <= sps[i].end <= |text|
      && MatchEndAt(text, marker, sps[i].start) == Some(sps[i].end)
    ensures forall i, j :: 0 <= i < j < |sps| ==> sps[i].end <= sps[j].start
    decreases |text| + 1 - k
  {
    match FirstMatchFrom(text, marker, k)
    case None => []
    case Some(sp) => [sp] + SpansFrom(text, marker, sp.end)
  }

  /** The matched substrings of a list of spans that lie inside `text`. */
  function Pieces(text: string, sps: seq<Span>): seq<string>
    requires forall i :: 0 <= i < |sps| ==> sps[i].start <= sps[i].end <= |text|
  {
    seq(|sps|, i requires 0 <= i < |sps| => text[sps[i].start..sps[i].end])
  }

  lemma PiecesAppend(text: string, sps: seq<Span>, sp: Span)
    requires forall i :: 0 <= i < |sps| ==> sps[i].start <= sps[i].end <= |text|
    requires sp.start <= sp.end <= |text|
    ensures Pieces(text, sps + [sp]) == Pieces(text, sps) + [text[sp.start..sp.end]]
  {
  }

  /** `text.match(/M(.*?)(?=M|$)/g)`: the array of matched substrings, or null (None) when there is none. */
  function GlobalMatch(text: string, marker: string): (r: Option<seq<string>>)
    requires |marker| > 0
    ensures r.None? <==> FirstMatchFrom(text, marker, 0).None?
    ensures r.Some? ==> 0 < |r.value| == |SpansFrom(text, marker, 0)|
  {
    var sps := SpansFrom(text, marker, 0);
    if sps == [] then None else Some(Pieces(text, sps))
  }

  /** `ms.map(s => s.trim())`. */
  function TrimEach(ms: seq<string>): seq<string> {
    seq(|ms|, i requires 0 <= i < |ms| => Trim(ms[i]))
  }

  /** `text.match(...)?.map(s => s.trim()) || []`. */
  function Extract(text: string, marker: string): seq<string>
    requires |marker| > 0
  {
    match GlobalMatch(text, marker)
    case None => []
    case Some(ms) => TrimEach(ms)
  }

  /** The pattern's matcher run at position i: the marker, then the lazy loop of `.*?` against the lookahead. */
  method MatchAt(text: string, marker: string, i: nat) returns (r: Option<nat>)
    ensures r == MatchEndAt(text, marker, i)
  {
    if !OccursAt(text, marker, i) {
      return None;
    }
    var j := i + |marker|;
    while true
      invariant i + |marker| <= j <= |text|
      invariant LazyEnd(text, marker, j) == LazyEnd(text, marker, i + |marker|)
      decreases |text| - j
    {
      if LookaheadAt(text, marker, j) {
        return Some(j);
      }
      if IsLineTerminator(text[j]) {
        return None;
      }
      j := j + 1;
    }
  }

  /** One global `exec` from lastIndex: retry one position further on after every failed attempt. */
  method Exec(text: string, marker: string, lastIndex: nat) returns (r: Option<Span>)
    requires |marker| > 0
    ensures r == FirstMatchFrom(text, marker, lastIndex)
  {
    var i := lastIndex;
    while i <= |text|
      invariant lastIndex <= i
      invariant FirstMatchFrom(text, marker, i) == FirstMatchFrom(text, marker, lastIndex)
      decreases |text| + 1 - i
    {
      var e := MatchAt(text, marker, i);
      if e.Some? {
        return Some(Span(i, e.value));
      }
      i := i + 1;
    }
    return None;
  }

  /** `String.prototype.match` with a global pattern: collect every match, resuming at each match's end. */
  method MatchAll(text: string, marker: string) returns (r: Option<seq<string>>)
    requires |marker| > 0
    ensures r == GlobalMatch(text, marker)
  {
    var lastIndex := 0;
    var matches: seq<string> := [];
    ghost var spans: seq<Span> := [];
    while true
      invariant lastIndex <= |text| + 1
      invariant spans + SpansFrom(text, marker, lastIndex) == SpansFrom(text, marker, 0)
      invariant forall i :: 0 <= i < |spans| ==> spans[i].start <= spans[i].end <= |text|
      invariant matches == Pieces(text, spans)
      decreases |text| + 1 - lastIndex
    {
      var m := Exec(text, marker, lastIndex);
      if m.None? {
        break;
      }
      var sp := m.value;
      ghost var rest := SpansFrom(text, marker, sp.end);
      assert SpansFrom(text, marker, lastIndex) == [sp] + rest;
      assert spans + ([sp] + rest) == (spans + [sp]) + rest;
      PiecesAppend(text, spans, sp);
      matches := matches + [text[sp.start..sp.end]];
      spans := spans + [sp];
      lastIndex := sp.end;
    }
    assert SpansFrom(text, marker, lastIndex) == [];
    assert spans == SpansFrom(text, marker, 0);
    r := if |matches| == 0 then None else Some(matches);
  }
}

# Unruggable meme service: safety score and analysis extractors

This project models the deterministic core of `UnruggableMemeService`, the
service behind the meme-token analysis page. There are three private
helpers:

- **`calculateSafetyScore`** starts from 100 and applies three guarded
  deductions taken from a `TokenMetrics` record:
  - 30 points when the owner holds more than 50 %;
  - 20 points when `liquidityLocked` is falsy;
  - 10 points when there are fewer than 100 holders.

  It then clamps the result into [0, 100]. The free-text `analysis`
  argument is never read.
- **`extractRisks`** and **`extractRecommendations`** run the global
  regular expression `/M(.*?)(?=M|$)/g` over the analysis text, with
  M = `Risk:` or `Recommendation:`. They trim every match and turn a null
  result into the empty list.

The modules follow that split:

- `Metrics` (`token_metrics.dfy`): the `TokenMetrics` record shape, with
  JavaScript string truthiness.
- `Scoring` (`scoring.dfy`):
  - the scorer as an imperative method, proved equal to the specification
    function `SafetyScore`;
  - lemmas about that function.
- `JsString` (`js_string.dfy`): the ECMAScript line terminators, the
  white space that `trim` strips, and `trim` itself.
- `MarkerRegex` (`marker_regex.dfy`):
  - the ECMAScript semantics of the pattern for a literal marker, as
    specification functions:
    - one match attempt at a position;
    - the global `exec` retry loop;
    - the list of all matches;
  - the scanning engine as methods, each proved to compute its function.
- `MarkerLemmas` (`marker_lemmas.dfy`): what the extractors promise:
  - emptiness;
  - the shape and placement of each element;
  - how the elements relate to the occurrences of the marker;
  - how they cover the text.
- `Extraction` (`extraction.dfy`):
  - the two extractors as methods, with the guarantees above in their
    contracts;
  - three worked examples.

The model follows the code, including where it departs from what the field
name `liquidityLocked` and the comment at the deductions suggest:

- **The liquidity deduction.** It fires only when `liquidityLocked` is the
  empty string. That is JavaScript truthiness of a `string`. The metrics
  collector always fills in `"0"`, which is truthy, so a record with
  ownership 60, flag `"0"` and 50 holders scores 60, not 40
  (`PlaceholderRecordScoresSixty`).
- **What an element holds.** Each element includes its marker, for example
  `"Risk: A"` rather than `"A"`, because `match` with a global pattern
  returns whole matches, not capture groups.
- **Line terminators.** An occurrence whose text runs into a line terminator
  before the next marker or the end of the text produces no element at all,
  because `.` does not match line terminators and `$` is the end of input
  only. Every other occurrence is found (`OccurrenceYieldsElementIff`,
  `LazyEndFailure`).

## Model

| member | source | states |
|---|---|---|
| Scoring.SafetyScore | packages/nextjs/services/UnruggableMemeService.ts:170-178 | the score is a multiple of ten between 40 and 100, so the clamp never changes it |
| Scoring.CalculateSafetyScore | packages/nextjs/services/UnruggableMemeService.ts:169-179 | the step-by-step scorer returns a value in [0, 100] equal to `SafetyScore` of the metrics alone, so the analysis text has no influence |
| Scoring.ConcentratedOwnershipCapsScore | packages/nextjs/services/UnruggableMemeService.ts:173 | an owner share above 50 caps the score at 70 |
| Scoring.LiquidityDeductionIffEmpty | packages/nextjs/services/UnruggableMemeService.ts:174 | the liquidity deduction applies if and only if `liquidityLocked` is the empty string; any other flag scores 20 more |
| Scoring.PlaceholderFlagNotPenalised | packages/nextjs/services/UnruggableMemeService.ts:158-174 | the placeholder flag `"0"` is truthy: no liquidity deduction, score at least 60 |
| Scoring.ThresholdsAreStrict | packages/nextjs/services/UnruggableMemeService.ts:173-175 | ownership of exactly 50 and exactly 100 holders cost nothing |
| Scoring.ScoreMonotone | packages/nextjs/services/UnruggableMemeService.ts:173-175 | more holders or a smaller owner share, with the same flag, never lower the score |
| Scoring.AllDeductionsStack | packages/nextjs/services/UnruggableMemeService.ts:170-178 | all three conditions together give 40 |
| Scoring.PlaceholderRecordScoresSixty | packages/nextjs/services/UnruggableMemeService.ts:172-178 | ownership 60, flag `"0"` and 50 holders score 60 |
| Metrics.WithLiquidityLocked | packages/nextjs/services/UnruggableMemeService.ts:174 | helper of `LiquidityDeductionIffEmpty`: the record with `liquidityLocked` replaced keeps every other field (supplies, holder count, total liquidity, lock period, ownership metrics) |
| JsString.TrimStartShape | packages/nextjs/services/UnruggableMemeService.ts:183 | stripping the start gives the longest suffix that does not begin with white space or a line terminator |
| JsString.TrimEndShape | packages/nextjs/services/UnruggableMemeService.ts:183 | stripping the end gives the longest prefix that does not end with white space or a line terminator |
| JsString.TrimShape | packages/nextjs/services/UnruggableMemeService.ts:183 | `trim` returns the middle slice of its input; only trimmable characters are cut on either side, and the result neither starts nor ends with one |
| JsString.TrimUntouched | packages/nextjs/services/UnruggableMemeService.ts:183 | a string with no trimmable character at either end is unchanged by `trim` |
| JsString.TrimDropsTrailing | packages/nextjs/services/UnruggableMemeService.ts:183 | one trailing trimmable character is removed from an otherwise trimmed string |
| MarkerRegex.LazyEnd | packages/nextjs/services/UnruggableMemeService.ts:183 | the lazy `.*?` stops at the first position where the lookahead holds (marker or end of input), crossing no line terminator on the way |
| MarkerRegex.MatchEndAt | packages/nextjs/services/UnruggableMemeService.ts:183 | a match attempt succeeds only where the marker occurs, and its end lies after the marker and inside the text |
| MarkerRegex.FirstMatchFrom | packages/nextjs/services/UnruggableMemeService.ts:183 | a global `exec` from lastIndex returns the first successful attempt at or after it, and every earlier attempt fails; None means no attempt up to the end of the text succeeds |
| MarkerRegex.SpansFrom | packages/nextjs/services/UnruggableMemeService.ts:183 | all matches of the global scan start at successful attempts, are disjoint and come in increasing text order |
| MarkerRegex.GlobalMatch | packages/nextjs/services/UnruggableMemeService.ts:183 | `match` returns null exactly when no attempt succeeds, and otherwise a non-empty array with one entry per match |
| MarkerRegex.MatchAt | packages/nextjs/services/UnruggableMemeService.ts:183 | the matcher loop at one position computes `MatchEndAt` |
| MarkerRegex.Exec | packages/nextjs/services/UnruggableMemeService.ts:183 | the retry loop computes `FirstMatchFrom` |
| MarkerRegex.MatchAll | packages/nextjs/services/UnruggableMemeService.ts:183 | the collecting loop of `String.prototype.match` computes `GlobalMatch` |
| MarkerLemmas.ServiceMarkersWellFormed | packages/nextjs/services/UnruggableMemeService.ts:183-188 | `Risk:` and `Recommendation:` are non-empty, contain no line terminator, have no trimmable character at either end and cannot overlap themselves |
| MarkerLemmas.NoMarkerGivesEmpty | packages/nextjs/services/UnruggableMemeService.ts:183 | with no occurrence of the marker, `match` gives null and the extractor gives [] |
| MarkerLemmas.FirstMatchSkip | packages/nextjs/services/UnruggableMemeService.ts:183 | failed attempts are skipped one position at a time without changing the next match |
| MarkerLemmas.ExtractBySpans | packages/nextjs/services/UnruggableMemeService.ts:183 | element i of the result is the trimmed text of match i |
| MarkerLemmas.TrimmedMatchShape | packages/nextjs/services/UnruggableMemeService.ts:183 | trimming a match only strips its end; the result is a well-formed element that starts at the match's occurrence of the marker |
| MarkerLemmas.ExtractLayout | packages/nextjs/services/UnruggableMemeService.ts:183 | one element per match, each well formed and a prefix of its match; the matches are disjoint and in text order, and equal elements are all kept |
| MarkerLemmas.OccurrenceYieldsElementIff | packages/nextjs/services/UnruggableMemeService.ts:183 | on any text, an occurrence of the marker starts one of the matches if and only if the match attempt there succeeds |
| MarkerLemmas.SuccessfulAttemptFound | packages/nextjs/services/UnruggableMemeService.ts:183 | a scan that starts at or before a successful attempt finds a match starting there: earlier matches end at or before it |
| MarkerLemmas.LazyEndFailure | packages/nextjs/services/UnruggableMemeService.ts:183 | a failed attempt met a line terminator before any position where the marker occurs or the text ends |
| MarkerLemmas.AtMostOneElementPerOccurrence | packages/nextjs/services/UnruggableMemeService.ts:183 | the result never has more elements than the text has occurrences of the marker |
| MarkerLemmas.OneElementPerOccurrence | packages/nextjs/services/UnruggableMemeService.ts:183 | on text without line terminators, the result has exactly one element per occurrence |
| MarkerLemmas.MatchesCoverText | packages/nextjs/services/UnruggableMemeService.ts:183 | on text without line terminators, the untrimmed matches concatenate to the text from the first occurrence of the marker onwards |
| MarkerLemmas.ExtractTwoSpans | packages/nextjs/services/UnruggableMemeService.ts:183 | a scan that finds exactly two matches yields their trimmed texts in text order |
| Extraction.ExtractMarked | packages/nextjs/services/UnruggableMemeService.ts:183 | the shared body (`match`, then `map(trim)`, then the empty-list default) computes `Extract` |
| Extraction.ExtractRisks | packages/nextjs/services/UnruggableMemeService.ts:181-184 | `extractRisks` gives [] when `Risk:` does not occur; every element is well formed; at most one element per occurrence, and exactly one on text without line terminators |
| Extraction.ExtractRecommendations | packages/nextjs/services/UnruggableMemeService.ts:186-189 | the same guarantees for `extractRecommendations` and `Recommendation:` |
| Extraction.ExtractionGuarantees | packages/nextjs/services/UnruggableMemeService.ts:181-189 | the guarantees of both extractors, for any well-formed marker |
| Extraction.TwoRisksInOrder | packages/nextjs/services/UnruggableMemeService.ts:183 | `"Risk: ARisk: B"` gives `["Risk: A", "Risk: B"]`: the lazy loop stops at the next marker |
| Extraction.LineBreakDropsRisk | packages/nextjs/services/UnruggableMemeService.ts:183 | `"Risk: a\nRisk: b"` has two occurrences but gives only `["Risk: b"]` |
| Extraction.DuplicateRisksKept | packages/nextjs/services/UnruggableMemeService.ts:183 | `"Risk: A Risk: A"` gives `["Risk: A", "Risk: A"]`: duplicates are kept and the trailing space is trimmed |

## Left out

- `initializeBrianAgent`: builds an external LangChain/OpenAI agent from environment keys. It is a foreign call.
- `analyzeMemeToken`: asynchronous orchestration of an LLM call and Starknet contract reads. It is network plumbing whose results arrive as the `analysis` and `metrics` parameters of the modelled helpers.
- `getTokenMetrics`: on-chain reads plus hard-coded placeholders. Its placeholder `liquidityLocked = "0"` is stated as a requirement of `PlaceholderFlagNotPenalised` and `PlaceholderRecordScoresSixty`.
- The constructor, `createMemecoin` and `launchOnEkubo`: thin wrappers over the Starknet provider and `unruggable-sdk`. That SDK is not part of this model.
- `useUnruggableMeme.ts`, `TokenAnalysis.tsx` and `page.tsx`: React state, rendering and form handling.
- JavaScript numbers: `holdersCount`, `ownershipPercentage` and `lockPeriod` are reals. The first two are only compared, and `lockPeriod` is only carried in the record, so floating point plays no part. NaN and the infinities are not modelled. With NaN both comparisons are false and no deduction applies.
- `liquidityLocked` is a `string`. Other runtime values the untyped JavaScript could hand over (undefined, null, numbers) are not modelled.
- Strings are sequences of Unicode scalar values, whereas JavaScript strings are UTF-16 code units. Every character the pattern and `trim` look at is in the Basic Multilingual Plane, so the matches agree. Positions in text with astral characters would be counted differently.
- `JsString.IsWhiteSpace`: the space separators (category Zs) are the fixed list of current Unicode versions, not computed from the Unicode database.
- `MarkerRegex.FirstMatchFrom`, `SpansFrom`, `GlobalMatch` and `Extract` require a non-empty marker. An empty marker would allow empty matches, whose lastIndex handling is not modelled. Both service markers are non-empty.
- The shape and count lemmas in `MarkerLemmas` require a well-formed marker. `ServiceMarkersWellFormed` shows that both service markers are.

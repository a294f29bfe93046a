/**
 * Rules for a target column checked against a reference column
 * (`derive_rules_from_reference`), and the regex suggested from a sample
 * of values (`_suggest_regex_from_sample`).
 */
module ReferenceRules {
  import opened Wrappers
  import opened Seqs
  import opened Text
  import opened Patterns
  import opened PblGenerator
  import opened Ratios

  /** The default `enum_threshold` of `derive_rules_from_reference`. */
  const DefaultEnumThreshold: real := 0.95

  /** How many leading values the regex heuristic looks at. */
  const RegexSampleLimit: nat := 100
  /** How many sorted distinct reference values are kept, listed, and shown. */
  const ReferenceListLimit: nat := 200
  const EnumerationLimit: nat := 50
  const AllowedSampleLimit: nat := 20

  // ---------------------------------------------------------------------
  // Regex suggestion
  // ---------------------------------------------------------------------

  datatype Regex = DigitsRegex | EmailRegex | DateRegex | LengthRegex(min: nat, max: nat)

  function RegexText(p: Regex): string {
    match p
    case DigitsRegex => "^\\d+$"
    case EmailRegex => "^[\\w\\.-]+@[\\w\\.-]+\\.\\w{2,}$"
    case DateRegex => "^\\d{2,4}[-/]\\d{1,2}[-/]\\d{1,2}$"
    case LengthRegex(lo, hi) => "^.{" + NatToString(lo) + "," + NatToString(hi) + "}$"
  }

  predicate AllAllDigits(sample: seq<string>) {
    forall v :: v in sample ==> AllDigits(v)
  }

  /** The email and date tests skip empty strings. */
  predicate AllNonEmptyHaveAt(sample: seq<string>) {
    forall v :: v in sample && v != [] ==> HasAt(v)
  }

  predicate AllNonEmptyHaveDate(sample: seq<string>) {
    forall v :: v in sample && v != [] ==> HasDate(v)
  }

  /**
   * `_suggest_regex_from_sample`: digits, else email, else date, else a
   * length range, over the first 100 values; None when there are none.
   * The values are strings already, so none of them is dropped as missing.
   */
  function SuggestRegexFromSample(values: seq<string>): (p: Option<Regex>)
    ensures p.None? <==> values == []
  {
    var sample := Take(values, RegexSampleLimit);
    if sample == [] then None
    else if AllAllDigits(sample) then Some(DigitsRegex)
    else if AllNonEmptyHaveAt(sample) then Some(EmailRegex)
    else if AllNonEmptyHaveDate(sample) then Some(DateRegex)
    else
      var lens := Lengths(sample);
      Some(LengthRegex(MinOf(lens), MaxOf(lens)))
  }

  /** Only the first 100 values matter. */
  lemma SuggestRegexFirstHundred(values: seq<string>)
    ensures SuggestRegexFromSample(values) == SuggestRegexFromSample(Take(values, RegexSampleLimit))
  {
    var sample := Take(values, RegexSampleLimit);
    assert Take(sample, RegexSampleLimit) == sample;
  }

  /** Only the first 100 values matter: appending after them changes nothing. */
  lemma SuggestRegexIgnoresTail(values: seq<string>, more: seq<string>)
    requires |values| >= RegexSampleLimit
    ensures SuggestRegexFromSample(values + more) == SuggestRegexFromSample(values)
  {
    assert Take(values + more, RegexSampleLimit) == Take(values, RegexSampleLimit);
  }

  /**
   * Precedence: digits win over email, email over date, and the length
   * range is the last resort, bounding every inspected value.
   */
  lemma SuggestRegexPrecedence(values: seq<string>)
    requires values != []
    ensures var sample := Take(values, RegexSampleLimit);
      var p := SuggestRegexFromSample(values).value;
      (p == DigitsRegex <==> AllAllDigits(sample)) &&
      (p == EmailRegex <==> !AllAllDigits(sample) && AllNonEmptyHaveAt(sample)) &&
      (p == DateRegex <==> !AllAllDigits(sample) && !AllNonEmptyHaveAt(sample) && AllNonEmptyHaveDate(sample)) &&
      (p.LengthRegex? <==> !AllAllDigits(sample) && !AllNonEmptyHaveAt(sample) && !AllNonEmptyHaveDate(sample))
  {
  }

  /** The length-range fallback spans exactly the shortest and the longest inspected value. */
  lemma SuggestRegexLengthBounds(values: seq<string>)
    requires SuggestRegexFromSample(values).Some? && SuggestRegexFromSample(values).value.LengthRegex?
    ensures var sample := Take(values, RegexSampleLimit);
      var p := SuggestRegexFromSample(values).value;
      p.min <= p.max &&
      (forall v :: v in sample ==> p.min <= |v| <= p.max) &&
      (exists v :: v in sample && |v| == p.min) &&
      (exists v :: v in sample && |v| == p.max)
  {
    var sample := Take(values, RegexSampleLimit);
    var lens := Lengths(sample);
    var p := SuggestRegexFromSample(values).value;
    assert p.min in lens && p.max in lens;
    forall v | v in sample ensures p.min <= |v| <= p.max {
      var k :| 0 <= k < |sample| && sample[k] == v;
      assert lens[k] in lens;
    }
    var i :| 0 <= i < |lens| && lens[i] == p.min;
    assert sample[i] in sample;
    var j :| 0 <= j < |lens| && lens[j] == p.max;
    assert sample[j] in sample;
  }

  /** A sample made only of empty strings passes the email test vacuously. */
  lemma SuggestRegexEmptyStrings(values: seq<string>)
    requires values != [] && forall i :: 0 <= i < |values| ==> values[i] == ""
    ensures SuggestRegexFromSample(values) == Some(EmailRegex)
  {
    var sample := Take(values, RegexSampleLimit);
    assert sample[0] == "" && !AllDigits(sample[0]);
  }

  // ---------------------------------------------------------------------
  // Overlap and the sorted reference values
  // ---------------------------------------------------------------------

  /** Facts about `m / n` for `0 <= m <= n`, `n > 0`. */
  lemma FractionFacts(m: nat, n: nat)
    requires 0 < n && m <= n
    ensures 0.0 <= (m as real) / (n as real) <= 1.0
    ensures (m as real) / (n as real) == 1.0 <==> m == n
    ensures (m as real) / (n as real) == 0.0 <==> m == 0
  {
    var q := (m as real) / (n as real);
    assert q * (n as real) == m as real;
    ScaleBySign(q, n as real);
    ScaleBySign(-q, n as real);
    ScaleBySign(1.0 - q, n as real);
    ScaleBySign(q - 1.0, n as real);
  }

  /**
   * The fraction of the target's distinct values that occur among the
   * reference values (the source divides by `max(1, |distinct target|)`).
   */
  function OverlapFraction(t: seq<string>, r: seq<string>): (f: real)
    ensures 0.0 <= f <= 1.0
    ensures t != [] ==> (f == 1.0 <==> forall v :: v in t ==> v in r)
    ensures f == 0.0 <==> forall v :: v in t ==> v !in r
  {
    var tVals := Unique(t);
    if |tVals| == 0 then 0.0
    else
      var matches := CountIf(tVals, v => v in r);
      FractionFacts(matches, Max1(|tVals|));
      (matches as real) / (Max1(|tVals|) as real)
  }

  /**
   * `sorted(list(set(r.unique())))[:200]`: the distinct reference values
   * in code-point order, at most 200 of them.
   */
  function DistinctReference(r: seq<string>): (d: seq<string>)
    ensures |d| == if Distinct(r) <= ReferenceListLimit then Distinct(r) else ReferenceListLimit
    ensures SortedBy(d, LexLe) && NoDup(d)
    ensures forall v :: v in d ==> v in r
    ensures Distinct(r) <= ReferenceListLimit ==> forall v :: v in r ==> v in d
  {
    LexLeIsOrder();
    var u := Unique(r);
    var sorted := Sort(u, LexLe);
    assert |sorted| == |u| by { assert |multiset(sorted)| == |multiset(u)|; }
    NoDupPermutation(u, sorted);
    forall v ensures v in sorted <==> v in u {
      assert v in sorted <==> v in multiset(sorted);
      assert v in u <==> v in multiset(u);
    }
    var d := Take(sorted, ReferenceListLimit);
    assert forall i :: 0 <= i < |d| ==> d[i] == sorted[i];
    d
  }

  /**
   * Python sorts a set, whose iteration order is arbitrary: every sorted
   * arrangement of the distinct values gives the same list.
   */
  lemma DistinctReferenceAnyOrder(r: seq<string>, vals: seq<string>)
    requires multiset(vals) == multiset(Unique(r)) && SortedBy(vals, LexLe)
    ensures Take(vals, ReferenceListLimit) == DistinctReference(r)
  {
    LexLeIsOrder();
    var u := Unique(r);
    SortedUnique(vals, Sort(u, LexLe), LexLe);
  }

  // ---------------------------------------------------------------------
  // The rules
  // ---------------------------------------------------------------------

  datatype ReferenceRule =
    | NullsNotAllowedByReference
    | ReferenceKey
    | Enumeration(count: nat)
    | AllowedSample(values: seq<string>)
    | LookupList(count: nat)
    | FractionPresent(fraction: real)
    | PartialOverlap(fraction: real)
    | NoOverlap
    | SuggestedPattern(pattern: Regex)
    | ReferenceDistinct(count: nat)
    | TargetDistinct(count: nat)
    | TargetKey
    | TargetLowCardinality

  /** The position of each message: nullability, key, overlap, pattern, counts, target cardinality. */
  function ReferenceRuleRank(x: ReferenceRule): nat {
    match x
    case NullsNotAllowedByReference => 0
    case ReferenceKey => 1
    case Enumeration(_) => 2
    case LookupList(_) => 2
    case AllowedSample(_) => 3
    case FractionPresent(_) => 4
    case PartialOverlap(_) => 4
    case NoOverlap => 4
    case SuggestedPattern(_) => 5
    case ReferenceDistinct(_) => 6
    case TargetDistinct(_) => 7
    case TargetKey => 8
    case TargetLowCardinality => 8
  }

  /** The advisory message of each rule; `fmt` renders the fraction as `.2f` does. */
  function ReferenceRuleText(x: ReferenceRule, fmt: real -> string): string {
    match x
    case NullsNotAllowedByReference => "Nulls are NOT allowed (reference has no nulls)."
    case ReferenceKey => "Reference values are unique \U{2014} consider as reference key."
    case Enumeration(n) => "Allowed values derived from reference (enumeration of " + NatToString(n) + " values)."
    case AllowedSample(vals) => "Allowed values (sample): " + Join(vals, ", ")
    case LookupList(n) => "Reference provides a large allowed list (" + NatToString(n) + " values). Use lookup mapping."
    case FractionPresent(f) => "Fraction of target values present in reference: " + fmt(f)
    case PartialOverlap(f) => fmt(f) + " fraction of target values match reference values (partial overlap)."
    case NoOverlap => "No meaningful overlap with reference values; reference may be different domain or mismatch."
    case SuggestedPattern(p) => "Suggested pattern (regex): `" + RegexText(p) + "`"
    case ReferenceDistinct(n) => "Reference distinct count: " + NatToString(n)
    case TargetDistinct(n) => "Target distinct count: " + NatToString(n)
    case TargetKey => "Values in this dataset are unique \U{2014} candidate key."
    case TargetLowCardinality => "Low cardinality in target \U{2014} likely categorical."
  }

  predicate StrictlyRanked(rules: seq<ReferenceRule>) {
    forall i, j :: 0 <= i < j < |rules| ==> ReferenceRuleRank(rules[i]) < ReferenceRuleRank(rules[j])
  }

  predicate Ranked(rules: seq<ReferenceRule>, lo: nat, hi: nat) {
    forall x :: x in rules ==> lo <= ReferenceRuleRank(x) <= hi
  }

  /** The sample the regex is drawn from: the reference's, unless it is empty (`ref_sample or tgt_sample`). */
  function ChosenSample(refSample: seq<string>, tgtSample: seq<string>): seq<string> {
    if refSample != [] then refSample else tgtSample
  }

  /** What the comparison decides before it emits rules. */
  datatype ReferenceFacts = ReferenceFacts(
    refKey: bool, compared: bool, fraction: real, threshold: real, distinctRef: seq<string>,
    pattern: Option<Regex>, refCount: Option<nat>, tgtCount: Option<nat>, tgtKey: bool, tgtLow: bool)

  function CountIfPresent(s: seq<string>): Option<nat> {
    if s == [] then None else Some(Distinct(s))
  }

  function ReferenceFactsOf(target: Column, reference: Column, threshold: real,
                            refSample: seq<string>, tgtSample: seq<string>): ReferenceFacts {
    var t := NonNull(target);
    var r := NonNull(reference);
    ReferenceFacts(
      Distinct(r) == |r|, |r| > 0 && |t| > 0, OverlapFraction(t, r), threshold, DistinctReference(r),
      SuggestRegexFromSample(ChosenSample(refSample, tgtSample)),
      CountIfPresent(r), CountIfPresent(t), Distinct(t) == |t|, IsLowCardinality(Distinct(t), |t|))
  }

  /** Enumeration with a sample of at most 20 values, or a lookup list. */
  function AddAllowedValues(rules: seq<ReferenceRule>, d: seq<string>): seq<ReferenceRule> {
    if |d| <= EnumerationLimit then rules + [Enumeration(|d|)] + [AllowedSample(Take(d, AllowedSampleLimit))]
    else rules + [LookupList(|d|)]
  }

  /** The overlap verdict, once both sides are known to be non-empty. */
  function OverlapBlock(rules: seq<ReferenceRule>, fraction: real, threshold: real, d: seq<string>): seq<ReferenceRule> {
    if fraction >= threshold then AddAllowedValues(rules, d) + [FractionPresent(fraction)]
    else if fraction > 0.0 then rules + [PartialOverlap(fraction)]
    else rules + [NoOverlap]
  }

  function AddOverlap(rules: seq<ReferenceRule>, f: ReferenceFacts): seq<ReferenceRule> {
    if f.compared then OverlapBlock(rules, f.fraction, f.threshold, f.distinctRef) else rules
  }

  function AddPattern(rules: seq<ReferenceRule>, pattern: Option<Regex>): seq<ReferenceRule> {
    if pattern.Some? then rules + [SuggestedPattern(pattern.value)] else rules
  }

  function AddCounts(rules: seq<ReferenceRule>, refCount: Option<nat>, tgtCount: Option<nat>): seq<ReferenceRule> {
    var r1 := if refCount.Some? then rules + [ReferenceDistinct(refCount.value)] else rules;
    if tgtCount.Some? then r1 + [TargetDistinct(tgtCount.value)] else r1
  }

  function AddTargetCardinality(rules: seq<ReferenceRule>, key: bool, low: bool): seq<ReferenceRule> {
    if key then rules + [TargetKey] else AppendIf(rules, low, TargetLowCardinality)
  }

  /** Everything after the overlap block: pattern, distinct counts, target cardinality. */
  function AddSummary(rules: seq<ReferenceRule>, f: ReferenceFacts): seq<ReferenceRule> {
    AddTargetCardinality(AddCounts(AddPattern(rules, f.pattern), f.refCount, f.tgtCount), f.tgtKey, f.tgtLow)
  }

  function ReferenceRulesFor(f: ReferenceFacts): seq<ReferenceRule> {
    AddSummary(AddOverlap(Header(f), f), f)
  }

  /** The list for a pair of columns, block by block as the source appends it. */
  function ReferenceRulesOf(target: Column, reference: Column, threshold: real,
                            refSample: seq<string>, tgtSample: seq<string>): seq<ReferenceRule> {
    var t := NonNull(target);
    var r := NonNull(reference);
    var header := AppendIf([NullsNotAllowedByReference], Distinct(r) == |r|, ReferenceKey);
    var overlap := if |r| > 0 && |t| > 0 then OverlapBlock(header, OverlapFraction(t, r), threshold, DistinctReference(r)) else header;
    AddTargetCardinality(
      AddCounts(AddPattern(overlap, SuggestRegexFromSample(ChosenSample(refSample, tgtSample))), CountIfPresent(r), CountIfPresent(t)),
      Distinct(t) == |t|, IsLowCardinality(Distinct(t), |t|))
  }

  /**
   * `derive_rules_from_reference`. The samples are the two random draws of
   * `min(len, sampleSize)` values, supplied by the caller.
   */
  method DeriveRulesFromReference(target: Column, reference: Column, enumThreshold: real, sampleSize: nat,
                                  refSample: seq<string>, tgtSample: seq<string>)
      returns (rules: seq<ReferenceRule>)
    requires IsSampleOf(refSample, NonNull(reference), sampleSize)
    requires IsSampleOf(tgtSample, NonNull(target), sampleSize)
    ensures rules == ReferenceRulesOf(target, reference, enumThreshold, refSample, tgtSample)
  {
    var t := NonNull(target);
    var r := NonNull(reference);
    rules := [];

    // Both series were null-dropped above, so the reference has no nulls
    // and neither does the target: only the first null message is reachable.
    rules := rules + [NullsNotAllowedByReference];

    if Distinct(r) == |r| {
      rules := rules + [ReferenceKey];
    }
    ghost var header := rules;
    assert header == AppendIf([NullsNotAllowedByReference], Distinct(r) == |r|, ReferenceKey);

    if |r| > 0 && |t| > 0 {
      rules := AppendOverlapRules(rules, t, r, enumThreshold);
    }
    ghost var overlap := rules;

    // The numeric-range block tests the dtype of the stringified series,
    // which is never numeric, so it emits nothing.

    rules := AppendSummaryRules(rules, t, r, if refSample != [] then refSample else tgtSample);
  }

  /** The pattern suggestion, the distinct counts and the target's uniqueness, in that order. */
  method AppendSummaryRules(rules0: seq<ReferenceRule>, t: seq<string>, r: seq<string>, sample: seq<string>)
      returns (rules: seq<ReferenceRule>)
    ensures rules == AddTargetCardinality(
      AddCounts(AddPattern(rules0, SuggestRegexFromSample(sample)), CountIfPresent(r), CountIfPresent(t)),
      Distinct(t) == |t|, IsLowCardinality(Distinct(t), |t|))
  {
    rules := rules0;
    var pattern := SuggestRegexFromSample(sample);
    if pattern.Some? {
      rules := rules + [SuggestedPattern(pattern.value)];
    }

    if |r| > 0 {
      rules := rules + [ReferenceDistinct(Distinct(r))];
    }
    if |t| > 0 {
      rules := rules + [TargetDistinct(Distinct(t))];
    }

    if Distinct(t) == |t| {
      rules := rules + [TargetKey];
    } else {
      if IsLowCardinality(Distinct(t), |t|) {
        rules := rules + [TargetLowCardinality];
      }
    }
  }

  /** The overlap block of `derive_rules_from_reference`, entered when both sides have values. */
  method AppendOverlapRules(rules0: seq<ReferenceRule>, t: seq<string>, r: seq<string>, enumThreshold: real)
      returns (rules: seq<ReferenceRule>)
    ensures rules == OverlapBlock(rules0, OverlapFraction(t, r), enumThreshold, DistinctReference(r))
  {
    rules := rules0;
    var overlap := OverlapFraction(t, r);
    if overlap >= enumThreshold {
      var distinctRef := DistinctReference(r);
      if |distinctRef| <= EnumerationLimit {
        rules := rules + [Enumeration(|distinctRef|)];
        rules := rules + [AllowedSample(Take(distinctRef, AllowedSampleLimit))];
      } else {
        rules := rules + [LookupList(|distinctRef|)];
      }
      rules := rules + [FractionPresent(overlap)];
    } else {
      if overlap > 0.0 {
        rules := rules + [PartialOverlap(overlap)];
      } else {
        rules := rules + [NoOverlap];
      }
    }
  }

  // ---------------------------------------------------------------------
  // The list in three parts: header, overlap verdict, summary
  // ---------------------------------------------------------------------

  /** The nullability rule, then "reference key" when the reference values are distinct. */
  function Header(f: ReferenceFacts): seq<ReferenceRule> {
    AppendIf([NullsNotAllowedByReference], f.refKey, ReferenceKey)
  }

  /** What the overlap block contributes, written out case by case. */
  function OverlapTail(f: ReferenceFacts): seq<ReferenceRule> {
    var d := f.distinctRef;
    if !f.compared then []
    else if f.fraction >= f.threshold then
      (if |d| <= EnumerationLimit then [Enumeration(|d|), AllowedSample(Take(d, AllowedSampleLimit))]
       else [LookupList(|d|)]) + [FractionPresent(f.fraction)]
    else if f.fraction > 0.0 then [PartialOverlap(f.fraction)]
    else [NoOverlap]
  }

  function PatternPart(f: ReferenceFacts): seq<ReferenceRule> {
    if f.pattern.Some? then [SuggestedPattern(f.pattern.value)] else []
  }

  function CountsPart(f: ReferenceFacts): seq<ReferenceRule> {
    (if f.refCount.Some? then [ReferenceDistinct(f.refCount.value)] else []) +
    (if f.tgtCount.Some? then [TargetDistinct(f.tgtCount.value)] else [])
  }

  function CardinalityPart(f: ReferenceFacts): seq<ReferenceRule> {
    if f.tgtKey then [TargetKey] else if f.tgtLow then [TargetLowCardinality] else []
  }

  /** What the blocks after the overlap contribute. */
  function SummaryTail(f: ReferenceFacts): seq<ReferenceRule> {
    PatternPart(f) + CountsPart(f) + CardinalityPart(f)
  }

  lemma OverlapSplit(rules: seq<ReferenceRule>, f: ReferenceFacts)
    ensures AddOverlap(rules, f) == rules + OverlapTail(f)
  {
    var d := f.distinctRef;
    if f.compared && f.fraction >= f.threshold {
      if |d| <= EnumerationLimit {
        assert rules + [Enumeration(|d|)] + [AllowedSample(Take(d, AllowedSampleLimit))] + [FractionPresent(f.fraction)]
          == rules + ([Enumeration(|d|), AllowedSample(Take(d, AllowedSampleLimit))] + [FractionPresent(f.fraction)]);
      } else {
        assert rules + [LookupList(|d|)] + [FractionPresent(f.fraction)] == rules + ([LookupList(|d|)] + [FractionPresent(f.fraction)]);
      }
    }
  }

  lemma SummarySplit(rules: seq<ReferenceRule>, f: ReferenceFacts)
    ensures AddSummary(rules, f) == rules + SummaryTail(f)
  {
    var r1 := AddPattern(rules, f.pattern);
    assert r1 == rules + PatternPart(f);
    var r2 := if f.refCount.Some? then r1 + [ReferenceDistinct(f.refCount.value)] else r1;
    var c1 := if f.refCount.Some? then [ReferenceDistinct(f.refCount.value)] else [];
    var c2 := if f.tgtCount.Some? then [TargetDistinct(f.tgtCount.value)] else [];
    assert r2 == r1 + c1;
    var r3 := AddCounts(r1, f.refCount, f.tgtCount);
    assert r3 == r2 + c2;
    assert r3 == rules + (PatternPart(f) + CountsPart(f));
    assert AddSummary(rules, f) == r3 + CardinalityPart(f);
  }

  /** The source-shaped pipeline is the three parts, concatenated. */
  lemma RulesForSplit(f: ReferenceFacts)
    ensures ReferenceRulesFor(f) == Header(f) + OverlapTail(f) + SummaryTail(f)
  {
    OverlapSplit(Header(f), f);
    SummarySplit(AddOverlap(Header(f), f), f);
  }

  lemma RankedConcat(a: seq<ReferenceRule>, b: seq<ReferenceRule>, lo: nat, k: nat, m: nat)
    requires StrictlyRanked(a) && StrictlyRanked(b) && Ranked(a, lo, k) && Ranked(b, k + 1, m) && lo <= k < m
    ensures StrictlyRanked(a + b) && Ranked(a + b, lo, m)
  {
    assert forall y :: y in a + b <==> y in a || y in b;
    forall i, j | 0 <= i < j < |a + b|
      ensures ReferenceRuleRank((a + b)[i]) < ReferenceRuleRank((a + b)[j])
    {
      if j < |a| {
        assert (a + b)[i] == a[i] && (a + b)[j] == a[j];
      } else if i >= |a| {
        assert (a + b)[i] == b[i - |a|] && (a + b)[j] == b[j - |a|];
      } else {
        assert (a + b)[i] == a[i] && a[i] in a;
        assert (a + b)[j] == b[j - |a|] && b[j - |a|] in b;
      }
    }
  }

  /** Each part is ordered, and its ranks lie in its own band. */
  lemma HeaderRanked(f: ReferenceFacts)
    ensures StrictlyRanked(Header(f)) && Ranked(Header(f), 0, 1)
  {
    if f.refKey {
      assert Header(f) == [NullsNotAllowedByReference, ReferenceKey];
    }
  }

  lemma OverlapTailRanked(f: ReferenceFacts)
    ensures StrictlyRanked(OverlapTail(f)) && Ranked(OverlapTail(f), 2, 4)
  {
    var d := f.distinctRef;
    if f.compared && f.fraction >= f.threshold {
      if |d| <= EnumerationLimit {
        assert OverlapTail(f) == [Enumeration(|d|), AllowedSample(Take(d, AllowedSampleLimit)), FractionPresent(f.fraction)];
      } else {
        assert OverlapTail(f) == [LookupList(|d|), FractionPresent(f.fraction)];
      }
    }
  }

  lemma CountsPartRanked(f: ReferenceFacts)
    ensures StrictlyRanked(CountsPart(f)) && Ranked(CountsPart(f), 6, 7)
  {
    var c1 := if f.refCount.Some? then [ReferenceDistinct(f.refCount.value)] else [];
    var c2 := if f.tgtCount.Some? then [TargetDistinct(f.tgtCount.value)] else [];
    assert Ranked(c1, 6, 6) && Ranked(c2, 7, 7);
    RankedConcat(c1, c2, 6, 6, 7);
  }

  lemma PatternCountsRanked(f: ReferenceFacts)
    ensures StrictlyRanked(PatternPart(f) + CountsPart(f)) && Ranked(PatternPart(f) + CountsPart(f), 5, 7)
  {
    CountsPartRanked(f);
    assert StrictlyRanked(PatternPart(f)) && Ranked(PatternPart(f), 5, 5);
    RankedConcat(PatternPart(f), CountsPart(f), 5, 5, 7);
  }

  lemma SummaryTailRanked(f: ReferenceFacts)
    ensures StrictlyRanked(SummaryTail(f)) && Ranked(SummaryTail(f), 5, 8)
  {
    PatternCountsRanked(f);
    assert StrictlyRanked(CardinalityPart(f)) && Ranked(CardinalityPart(f), 8, 8);
    RankedConcat(PatternPart(f) + CountsPart(f), CardinalityPart(f), 5, 7, 8);
  }

  lemma PartsRanked(f: ReferenceFacts)
    ensures StrictlyRanked(Header(f)) && Ranked(Header(f), 0, 1)
    ensures StrictlyRanked(OverlapTail(f)) && Ranked(OverlapTail(f), 2, 4)
    ensures StrictlyRanked(SummaryTail(f)) && Ranked(SummaryTail(f), 5, 8)
  {
    HeaderRanked(f);
    OverlapTailRanked(f);
    SummaryTailRanked(f);
  }

  lemma RulesForRanked(f: ReferenceFacts)
    ensures StrictlyRanked(ReferenceRulesFor(f)) && Ranked(ReferenceRulesFor(f), 0, 8)
  {
    RulesForSplit(f);
    PartsRanked(f);
    RankedConcat(Header(f), OverlapTail(f), 0, 1, 4);
    RankedConcat(Header(f) + OverlapTail(f), SummaryTail(f), 0, 4, 8);
  }

  /** A rule of a given rank is in the list exactly when it is in the part of that rank. */
  lemma MembersByRank(f: ReferenceFacts)
    ensures forall x :: ReferenceRuleRank(x) <= 1 ==> (x in ReferenceRulesFor(f) <==> x in Header(f))
    ensures forall x :: 2 <= ReferenceRuleRank(x) <= 4 ==> (x in ReferenceRulesFor(f) <==> x in OverlapTail(f))
    ensures forall x :: 5 <= ReferenceRuleRank(x) ==> (x in ReferenceRulesFor(f) <==> x in SummaryTail(f))
  {
    RulesForSplit(f);
    PartsRanked(f);
    assert forall x :: x in ReferenceRulesFor(f) <==> x in Header(f) || x in OverlapTail(f) || x in SummaryTail(f);
  }

  lemma RulesForHeader(f: ReferenceFacts)
    ensures var rules := ReferenceRulesFor(f);
      rules != [] && rules[0] == NullsNotAllowedByReference &&
      (ReferenceKey in rules <==> f.refKey) &&
      forall i :: 1 <= i < |rules| ==> ReferenceRuleRank(rules[i]) > 0
  {
    RulesForSplit(f);
    RulesForRanked(f);
    MembersByRank(f);
    var rules := ReferenceRulesFor(f);
    assert rules[0] == Header(f)[0];
  }

  /** The overlap-band members of any list whose overlap band is the overlap block's. */
  lemma OverlapBandMembers(rules: seq<ReferenceRule>, f: ReferenceFacts)
    requires forall x :: 2 <= ReferenceRuleRank(x) <= 4 ==> (x in rules <==> x in OverlapTail(f))
    ensures var d := f.distinctRef;
      var enumerate := f.compared && f.fraction >= f.threshold;
      (FractionPresent(f.fraction) in rules <==> enumerate) &&
      (Enumeration(|d|) in rules <==> enumerate && |d| <= EnumerationLimit) &&
      (AllowedSample(Take(d, AllowedSampleLimit)) in rules <==> enumerate && |d| <= EnumerationLimit) &&
      (LookupList(|d|) in rules <==> enumerate && |d| > EnumerationLimit) &&
      (PartialOverlap(f.fraction) in rules <==> f.compared && f.fraction < f.threshold && f.fraction > 0.0) &&
      (NoOverlap in rules <==> f.compared && f.fraction < f.threshold && !(f.fraction > 0.0))
  {
  }

  lemma OverlapBandOnly(rules: seq<ReferenceRule>, f: ReferenceFacts)
    requires forall x :: 2 <= ReferenceRuleRank(x) <= 4 ==> (x in rules <==> x in OverlapTail(f))
    ensures var d := f.distinctRef;
      forall x :: x in rules && 2 <= ReferenceRuleRank(x) <= 4 ==>
        f.compared &&
        x in [Enumeration(|d|), AllowedSample(Take(d, AllowedSampleLimit)), LookupList(|d|),
              FractionPresent(f.fraction), PartialOverlap(f.fraction), NoOverlap]
    ensures forall x :: x in rules && x.AllowedSample? ==> x.values == Take(f.distinctRef, AllowedSampleLimit)
    ensures forall x :: x in rules && (x.Enumeration? || x.LookupList?) ==>
      x.count == |f.distinctRef| && (x.Enumeration? <==> x.count <= EnumerationLimit)
  {
  }

  /**
   * At or above the threshold: an enumeration with a sample, or a lookup
   * list, then the fraction. Below it: a partial overlap when some value
   * matches, else "no overlap". Nothing when a side is empty.
   */
  lemma RulesForOverlapMembers(f: ReferenceFacts)
    ensures var rules := ReferenceRulesFor(f); var d := f.distinctRef;
      var enumerate := f.compared && f.fraction >= f.threshold;
      (FractionPresent(f.fraction) in rules <==> enumerate) &&
      (Enumeration(|d|) in rules <==> enumerate && |d| <= EnumerationLimit) &&
      (AllowedSample(Take(d, AllowedSampleLimit)) in rules <==> enumerate && |d| <= EnumerationLimit) &&
      (LookupList(|d|) in rules <==> enumerate && |d| > EnumerationLimit) &&
      (PartialOverlap(f.fraction) in rules <==> f.compared && f.fraction < f.threshold && f.fraction > 0.0) &&
      (NoOverlap in rules <==> f.compared && f.fraction < f.threshold && !(f.fraction > 0.0))
  {
    MembersByRank(f);
    OverlapBandMembers(ReferenceRulesFor(f), f);
  }

  /** Nothing else of the overlap ranks appears, and only when both sides were compared. */
  lemma RulesForOverlapOnly(f: ReferenceFacts)
    ensures var rules := ReferenceRulesFor(f); var d := f.distinctRef;
      forall x :: x in rules && 2 <= ReferenceRuleRank(x) <= 4 ==>
        f.compared &&
        x in [Enumeration(|d|), AllowedSample(Take(d, AllowedSampleLimit)), LookupList(|d|),
              FractionPresent(f.fraction), PartialOverlap(f.fraction), NoOverlap]
  {
    MembersByRank(f);
    OverlapBandOnly(ReferenceRulesFor(f), f);
  }

  /** Any listed sample is the first 20 of the sorted distinct values; any count is that list's length. */
  lemma RulesForAllowedValues(f: ReferenceFacts)
    ensures forall x :: x in ReferenceRulesFor(f) && x.AllowedSample? ==> x.values == Take(f.distinctRef, AllowedSampleLimit)
    ensures forall x :: x in ReferenceRulesFor(f) && (x.Enumeration? || x.LookupList?) ==>
      x.count == |f.distinctRef| && (x.Enumeration? <==> x.count <= EnumerationLimit)
  {
    MembersByRank(f);
    OverlapBandOnly(ReferenceRulesFor(f), f);
  }

  /** The summary-band members of any list whose summary band is the summary blocks'. */
  lemma SummaryBandCounts(rules: seq<ReferenceRule>, f: ReferenceFacts)
    requires forall x :: 5 <= ReferenceRuleRank(x) ==> (x in rules <==> x in SummaryTail(f))
    ensures (forall p :: SuggestedPattern(p) in rules <==> f.pattern == Some(p)) &&
      (forall n: nat :: ReferenceDistinct(n) in rules <==> f.refCount == Some(n)) &&
      (forall n: nat :: TargetDistinct(n) in rules <==> f.tgtCount == Some(n))
  {
    var c1 := if f.refCount.Some? then [ReferenceDistinct(f.refCount.value)] else [];
    var c2 := if f.tgtCount.Some? then [TargetDistinct(f.tgtCount.value)] else [];
    assert forall x :: x in SummaryTail(f) <==> x in PatternPart(f) || x in c1 || x in c2 || x in CardinalityPart(f);
  }

  lemma SummaryBandCardinality(rules: seq<ReferenceRule>, f: ReferenceFacts)
    requires forall x :: 5 <= ReferenceRuleRank(x) ==> (x in rules <==> x in SummaryTail(f))
    ensures TargetKey in rules <==> f.tgtKey
    ensures TargetLowCardinality in rules <==> !f.tgtKey && f.tgtLow
  {
    var c1 := if f.refCount.Some? then [ReferenceDistinct(f.refCount.value)] else [];
    var c2 := if f.tgtCount.Some? then [TargetDistinct(f.tgtCount.value)] else [];
    assert forall x :: x in SummaryTail(f) <==> x in PatternPart(f) || x in c1 || x in c2 || x in CardinalityPart(f);
  }

  lemma RulesForSummaryMembers(f: ReferenceFacts)
    ensures var rules := ReferenceRulesFor(f);
      (forall p :: SuggestedPattern(p) in rules <==> f.pattern == Some(p)) &&
      (forall n: nat :: ReferenceDistinct(n) in rules <==> f.refCount == Some(n)) &&
      (forall n: nat :: TargetDistinct(n) in rules <==> f.tgtCount == Some(n)) &&
      (TargetKey in rules <==> f.tgtKey) &&
      (TargetLowCardinality in rules <==> !f.tgtKey && f.tgtLow)
  {
    MembersByRank(f);
    SummaryBandCounts(ReferenceRulesFor(f), f);
    SummaryBandCardinality(ReferenceRulesFor(f), f);
  }

  lemma LastOfConcat(a: seq<ReferenceRule>, b: seq<ReferenceRule>)
    requires a != []
    ensures (a + b)[|a + b| - 1] == if b != [] then b[|b| - 1] else a[|a| - 1]
  {
  }

  /** The summary ends with a cardinality rule exactly when one is due; otherwise its ranks stop at 7. */
  lemma SummaryTailLast(f: ReferenceFacts)
    ensures var s := SummaryTail(f);
      (f.tgtKey || f.tgtLow ==> s != [] && ReferenceRuleRank(s[|s| - 1]) == 8) &&
      (!(f.tgtKey || f.tgtLow) ==> Ranked(s, 5, 7))
  {
    PatternCountsRanked(f);
    if f.tgtKey || f.tgtLow {
      assert SummaryTail(f)[|SummaryTail(f)| - 1] == CardinalityPart(f)[0];
    } else {
      assert SummaryTail(f) == PatternPart(f) + CountsPart(f);
    }
  }

  /** The list closes with a target-cardinality rule exactly when one is due. */
  lemma RulesForLast(f: ReferenceFacts)
    ensures var rules := ReferenceRulesFor(f);
      rules != [] && (ReferenceRuleRank(rules[|rules| - 1]) == 8 <==> f.tgtKey || f.tgtLow)
  {
    RulesForSplit(f);
    HeaderRanked(f);
    OverlapTailRanked(f);
    RankedConcat(Header(f), OverlapTail(f), 0, 1, 4);
    var h := Header(f) + OverlapTail(f);
    var s := SummaryTail(f);
    assert h[0] == NullsNotAllowedByReference;
    LastOfConcat(h, s);
    SummaryTailLast(f);
    assert h[|h| - 1] in h;
    if s != [] {
      assert s[|s| - 1] in s;
    }
  }

  /** The block-by-block list is the list the facts determine. */
  lemma RulesOfFacts(target: Column, reference: Column, threshold: real, refSample: seq<string>, tgtSample: seq<string>)
    ensures ReferenceRulesOf(target, reference, threshold, refSample, tgtSample) ==
      ReferenceRulesFor(ReferenceFactsOf(target, reference, threshold, refSample, tgtSample))
  {
    var f := ReferenceFactsOf(target, reference, threshold, refSample, tgtSample);
    var r := NonNull(reference);
    assert Header(f) == AppendIf([NullsNotAllowedByReference], Distinct(r) == |r|, ReferenceKey);
  }

  // ---------------------------------------------------------------------
  // Properties of the derived list, for every pair of columns
  // ---------------------------------------------------------------------

  /** Each kind of rule appears at most once, and the kinds come in the source's order. */
  lemma DeriveOrdered(target: Column, reference: Column, threshold: real, refSample: seq<string>, tgtSample: seq<string>)
    ensures StrictlyRanked(ReferenceRulesOf(target, reference, threshold, refSample, tgtSample))
  {
    RulesOfFacts(target, reference, threshold, refSample, tgtSample);
    RulesForRanked(ReferenceFactsOf(target, reference, threshold, refSample, tgtSample));
  }

  /**
   * Both columns are null-dropped before the null check, so the first rule
   * is always "Nulls are NOT allowed (reference has no nulls)", and no
   * other nullability rule follows; "reference key" follows exactly when
   * the present reference values are all distinct (so also for an empty
   * reference).
   */
  lemma DeriveHeader(target: Column, reference: Column, threshold: real, refSample: seq<string>, tgtSample: seq<string>)
    ensures var rules := ReferenceRulesOf(target, reference, threshold, refSample, tgtSample);
      rules != [] && rules[0] == NullsNotAllowedByReference &&
      (ReferenceKey in rules <==> Distinct(NonNull(reference)) == |NonNull(reference)|) &&
      forall i :: 1 <= i < |rules| ==> ReferenceRuleRank(rules[i]) > 0
  {
    RulesOfFacts(target, reference, threshold, refSample, tgtSample);
    RulesForHeader(ReferenceFactsOf(target, reference, threshold, refSample, tgtSample));
  }

  /**
   * The overlap verdict appears only when both sides have values. At or
   * above the threshold it is an enumeration (with a sample of at most 20
   * sorted values) or a lookup list, then the fraction; below it, a
   * partial overlap when some value matches, else "no overlap".
   */
  lemma DeriveOverlap(target: Column, reference: Column, threshold: real, refSample: seq<string>, tgtSample: seq<string>)
    ensures var t := NonNull(target); var r := NonNull(reference);
      var rules := ReferenceRulesOf(target, reference, threshold, refSample, tgtSample);
      var frac := OverlapFraction(t, r); var d := DistinctReference(r);
      var both := |t| > 0 && |r| > 0;
      (FractionPresent(frac) in rules <==> both && frac >= threshold) &&
      (Enumeration(|d|) in rules <==> both && frac >= threshold && |d| <= EnumerationLimit) &&
      (AllowedSample(Take(d, AllowedSampleLimit)) in rules <==> both && frac >= threshold && |d| <= EnumerationLimit) &&
      (LookupList(|d|) in rules <==> both && frac >= threshold && |d| > EnumerationLimit) &&
      (PartialOverlap(frac) in rules <==> both && 0.0 < frac < threshold) &&
      (NoOverlap in rules <==> both && frac == 0.0 && frac < threshold)
  {
    RulesOfFacts(target, reference, threshold, refSample, tgtSample);
    RulesForOverlapMembers(ReferenceFactsOf(target, reference, threshold, refSample, tgtSample));
  }

  /**
   * Under the default threshold, a target whose every value occurs in the
   * reference gets the allowed-values rules, with the fraction 1.
   */
  lemma DefaultThresholdFullOverlap(target: Column, reference: Column, refSample: seq<string>, tgtSample: seq<string>)
    requires NonNull(target) != [] && NonNull(reference) != []
    requires forall v :: v in NonNull(target) ==> v in NonNull(reference)
    ensures FractionPresent(1.0) in ReferenceRulesOf(target, reference, DefaultEnumThreshold, refSample, tgtSample)
    ensures NoOverlap !in ReferenceRulesOf(target, reference, DefaultEnumThreshold, refSample, tgtSample)
  {
    DeriveOverlap(target, reference, DefaultEnumThreshold, refSample, tgtSample);
  }

  /** No other overlap message appears, and none when either side is empty. */
  lemma DeriveOverlapOnly(target: Column, reference: Column, threshold: real, refSample: seq<string>, tgtSample: seq<string>)
    ensures var t := NonNull(target); var r := NonNull(reference);
      var rules := ReferenceRulesOf(target, reference, threshold, refSample, tgtSample);
      var frac := OverlapFraction(t, r); var d := DistinctReference(r);
      forall x :: x in rules && 2 <= ReferenceRuleRank(x) <= 4 ==>
        |t| > 0 && |r| > 0 &&
        x in [Enumeration(|d|), AllowedSample(Take(d, AllowedSampleLimit)), LookupList(|d|),
              FractionPresent(frac), PartialOverlap(frac), NoOverlap]
  {
    RulesOfFacts(target, reference, threshold, refSample, tgtSample);
    RulesForOverlapOnly(ReferenceFactsOf(target, reference, threshold, refSample, tgtSample));
  }

  /** The first 20 sorted distinct reference values: sorted, distinct, drawn from the reference. */
  lemma AllowedSampleValues(r: seq<string>)
    ensures var e := Take(DistinctReference(r), AllowedSampleLimit);
      |e| <= AllowedSampleLimit && SortedBy(e, LexLe) && NoDup(e) && forall v :: v in e ==> v in r
  {
    var d := DistinctReference(r);
    var e := Take(d, AllowedSampleLimit);
    assert forall i :: 0 <= i < |e| ==> e[i] == d[i];
  }

  /** The listed values are sorted, distinct reference values, at most 20 of them. */
  lemma DeriveAllowedSample(target: Column, reference: Column, threshold: real, refSample: seq<string>, tgtSample: seq<string>)
    ensures forall x :: x in ReferenceRulesOf(target, reference, threshold, refSample, tgtSample) && x.AllowedSample? ==>
      |x.values| <= AllowedSampleLimit && SortedBy(x.values, LexLe) && NoDup(x.values) &&
      forall v :: v in x.values ==> v in NonNull(reference)
  {
    RulesOfFacts(target, reference, threshold, refSample, tgtSample);
    RulesForAllowedValues(ReferenceFactsOf(target, reference, threshold, refSample, tgtSample));
    AllowedSampleValues(NonNull(reference));
  }

  /** Enumeration and lookup counts are the length of the capped sorted list; enumeration means at most 50. */
  lemma DeriveAllowedCounts(target: Column, reference: Column, threshold: real, refSample: seq<string>, tgtSample: seq<string>)
    ensures forall x :: x in ReferenceRulesOf(target, reference, threshold, refSample, tgtSample) && (x.Enumeration? || x.LookupList?) ==>
      x.count == |DistinctReference(NonNull(reference))| && (x.Enumeration? <==> x.count <= EnumerationLimit)
  {
    RulesOfFacts(target, reference, threshold, refSample, tgtSample);
    RulesForAllowedValues(ReferenceFactsOf(target, reference, threshold, refSample, tgtSample));
  }

  /** The regex comes from the chosen sample, and there is a pattern rule exactly when it yields one. */
  lemma DerivePattern(target: Column, reference: Column, threshold: real, refSample: seq<string>, tgtSample: seq<string>)
    ensures forall p :: SuggestedPattern(p) in ReferenceRulesOf(target, reference, threshold, refSample, tgtSample) <==>
      SuggestRegexFromSample(ChosenSample(refSample, tgtSample)) == Some(p)
  {
    RulesOfFacts(target, reference, threshold, refSample, tgtSample);
    RulesForSummaryMembers(ReferenceFactsOf(target, reference, threshold, refSample, tgtSample));
  }

  /**
   * With real samples, the regex is induced from the reference whenever it
   * has values (and the sample size is positive), else from the target; it
   * is absent only when there is nothing to sample.
   */
  lemma ChosenSampleSource(target: Column, reference: Column, sampleSize: nat, refSample: seq<string>, tgtSample: seq<string>)
    requires IsSampleOf(refSample, NonNull(reference), sampleSize)
    requires IsSampleOf(tgtSample, NonNull(target), sampleSize)
    ensures NonNull(reference) != [] && sampleSize > 0 ==> ChosenSample(refSample, tgtSample) == refSample
    ensures NonNull(reference) == [] ==> ChosenSample(refSample, tgtSample) == tgtSample
    ensures ChosenSample(refSample, tgtSample) == [] <==> sampleSize == 0 || (NonNull(reference) == [] && NonNull(target) == [])
    ensures forall v :: v in ChosenSample(refSample, tgtSample) ==> v in NonNull(reference) || v in NonNull(target)
  {
    SampleNonEmpty(refSample, NonNull(reference), sampleSize);
    SampleNonEmpty(tgtSample, NonNull(target), sampleSize);
  }

  /** A distinct-count rule for each side that has values, carrying its distinct count. */
  lemma DeriveDistinctCounts(target: Column, reference: Column, threshold: real, refSample: seq<string>, tgtSample: seq<string>)
    ensures forall n: nat :: ReferenceDistinct(n) in ReferenceRulesOf(target, reference, threshold, refSample, tgtSample) <==>
      NonNull(reference) != [] && n == Distinct(NonNull(reference))
    ensures forall n: nat :: TargetDistinct(n) in ReferenceRulesOf(target, reference, threshold, refSample, tgtSample) <==>
      NonNull(target) != [] && n == Distinct(NonNull(target))
  {
    RulesOfFacts(target, reference, threshold, refSample, tgtSample);
    RulesForSummaryMembers(ReferenceFactsOf(target, reference, threshold, refSample, tgtSample));
  }

  /**
   * The list closes with "candidate key" when the target's present values
   * are distinct, else with "low cardinality" when under 2% are distinct,
   * else with neither.
   */
  lemma DeriveTargetCardinality(target: Column, reference: Column, threshold: real, refSample: seq<string>, tgtSample: seq<string>)
    ensures var t := NonNull(target);
      var rules := ReferenceRulesOf(target, reference, threshold, refSample, tgtSample);
      (TargetKey in rules <==> Distinct(t) == |t|) &&
      (TargetLowCardinality in rules <==> Distinct(t) != |t| && IsLowCardinality(Distinct(t), |t|)) &&
      rules != [] &&
      (ReferenceRuleRank(rules[|rules| - 1]) == 8 <==> Distinct(t) == |t| || IsLowCardinality(Distinct(t), |t|))
  {
    var f := ReferenceFactsOf(target, reference, threshold, refSample, tgtSample);
    RulesOfFacts(target, reference, threshold, refSample, tgtSample);
    RulesForSummaryMembers(f);
    RulesForLast(f);
  }
}

/**
 * Profile-based validation rules ("PBL") for one column, and for a target
 * column compared with a reference column. A rule is advisory text; here
 * each message is a constructor, so the order and the parameters of the
 * emitted rules can be stated exactly, and `Text` gives the message.
 */
module PblGenerator {
  import opened Wrappers
  import opened Seqs
  import opened Text
  import opened Patterns
  import opened Ratios

  /** A column as the generator sees it: each cell's `str()` form, or None when missing. */
  type Column = seq<Option<string>>

  // ---------------------------------------------------------------------
  // Length statistics
  // ---------------------------------------------------------------------

  datatype LengthStats = LengthStats(min: nat, max: nat, typical: nat)

  function Lengths(s: seq<string>): (r: seq<nat>)
    ensures |r| == |s|
    ensures forall i :: 0 <= i < |s| ==> r[i] == |s[i]|
  {
    if s == [] then [] else [|s[0]|] + Lengths(s[1..])
  }

  function MinOf(xs: seq<nat>): (m: nat)
    requires xs != []
    ensures m in xs && forall x :: x in xs ==> m <= x
  {
    if |xs| == 1 then xs[0]
    else
      var m := MinOf(xs[1..]);
      assert forall x :: x in xs ==> x == xs[0] || x in xs[1..];
      if xs[0] <= m then xs[0] else m
  }

  function MaxOf(xs: seq<nat>): (m: nat)
    requires xs != []
    ensures m in xs && forall x :: x in xs ==> x <= m
  {
    if |xs| == 1 then xs[0]
    else
      var m := MaxOf(xs[1..]);
      assert forall x :: x in xs ==> x == xs[0] || x in xs[1..];
      if xs[0] >= m then xs[0] else m
  }

  /**
   * `m` is what pandas `mode().iloc[0]` returns: a value of `xs` that occurs
   * most often, and the smallest such value, because `mode()` is sorted.
   */
  predicate IsFirstMode(xs: seq<nat>, m: nat) {
    m in xs &&
    (forall y :: y in xs ==> multiset(xs)[y] <= multiset(xs)[m]) &&
    (forall y :: y in xs && multiset(xs)[y] == multiset(xs)[m] ==> m <= y)
  }

  /** The best of `cands` by (higher multiplicity in `xs`, then smaller value). */
  function PickMode(xs: seq<nat>, cands: seq<nat>): (m: nat)
    requires cands != []
    ensures m in cands
    ensures forall y :: y in cands ==> multiset(xs)[y] <= multiset(xs)[m]
    ensures forall y :: y in cands && multiset(xs)[y] == multiset(xs)[m] ==> m <= y
  {
    if |cands| == 1 then cands[0]
    else
      var b := PickMode(xs, cands[1..]);
      assert forall y :: y in cands ==> y == cands[0] || y in cands[1..];
      var c := cands[0];
      if multiset(xs)[c] > multiset(xs)[b] || (multiset(xs)[c] == multiset(xs)[b] && c < b) then c else b
  }

  function Mode(xs: seq<nat>): (m: nat)
    requires xs != []
    ensures IsFirstMode(xs, m)
  {
    PickMode(xs, xs)
  }

  /** `infer_length_rules`: min, max and modal length of the present values. */
  function InferLengthRules(col: Column): (r: Option<LengthStats>)
    ensures r.None? <==> NonNull(col) == []
    ensures r.Some? ==> r.value.min <= r.value.typical <= r.value.max
  {
    var s := NonNull(col);
    if s == [] then None
    else
      var lens := Lengths(s);
      Some(LengthStats(MinOf(lens), MaxOf(lens), Mode(lens)))
  }

  /**
   * The bounds are the shortest and the longest present value, and the
   * typical length is the smallest of the most frequent lengths.
   */
  lemma InferLengthRulesMeaning(col: Column)
    requires NonNull(col) != []
    ensures
      var r := InferLengthRules(col).value;
      var lens := Lengths(NonNull(col));
      r.min in lens && r.max in lens &&
      (forall x :: x in lens ==> r.min <= x <= r.max) &&
      IsFirstMode(lens, r.typical)
  {
  }

  // ---------------------------------------------------------------------
  // Character classes and cardinality
  // ---------------------------------------------------------------------

  /** `is_numeric_only`: at least 98% of the present values are all digits. */
  predicate IsNumericOnly(col: Column) {
    var s := NonNull(col);
    s != [] && 100 * CountIf(s, AllDigits) >= 98 * |s|
  }

  /** `is_alpha_only`: at least 98% of the present values are letters and spaces. */
  predicate IsAlphaOnly(col: Column) {
    var s := NonNull(col);
    s != [] && 100 * CountIf(s, AlphaOrSpace) >= 98 * |s|
  }

  lemma RatioAtLeast98(m: nat, n: nat)
    requires n > 0
    ensures (m as real) / (n as real) >= 0.98 <==> 100 * m >= 98 * n
  {
    RatioCompare(m as real, n as real, 0.98);
  }

  /** The integer test is the source's `mean(matches) >= 0.98`. */
  lemma NumericOnlyIsMeanTest(col: Column)
    ensures IsNumericOnly(col) <==>
      var s := NonNull(col);
      s != [] && (CountIf(s, AllDigits) as real) / (|s| as real) >= 0.98
  {
    var s := NonNull(col);
    if s != [] { RatioAtLeast98(CountIf(s, AllDigits), |s|); }
  }

  lemma AlphaOnlyIsMeanTest(col: Column)
    ensures IsAlphaOnly(col) <==>
      var s := NonNull(col);
      s != [] && (CountIf(s, AlphaOrSpace) as real) / (|s| as real) >= 0.98
  {
    var s := NonNull(col);
    if s != [] { RatioAtLeast98(CountIf(s, AlphaOrSpace), |s|); }
  }

  /** Every present value distinct: `nunique(dropna=True) == len(dropna())`. */
  predicate IsCandidateKey(col: Column) {
    Distinct(NonNull(col)) == |NonNull(col)|
  }

  lemma CandidateKeyIffNoDuplicates(col: Column)
    ensures IsCandidateKey(col) <==> NoDup(NonNull(col))
  {
    UniqueAll(NonNull(col));
  }

  // ---------------------------------------------------------------------
  // Rules for one column (`generate_pbl_for_column`)
  // ---------------------------------------------------------------------

  datatype ColumnRule =
    | NullsNotAllowed
    | NullsAllowed
    | OnlyNumeric
    | CharacterLength(lo: nat, hi: nat)
    | NoSpecialOrAlphabets
    | AlphabeticOnly
    | EmailExpected
    | PhoneLikeDetected
    | RecommendedLength(lo: nat, hi: nat)
    | AvoidSpecial
    | CandidateKey
    | LowCardinality

  /** The position of each message in the output: nullability, class, length, caution, cardinality. */
  function ColumnRuleRank(r: ColumnRule): nat {
    match r
    case NullsNotAllowed => 0
    case NullsAllowed => 0
    case OnlyNumeric => 1
    case CharacterLength(_, _) => 2
    case NoSpecialOrAlphabets => 3
    case AlphabeticOnly => 4
    case EmailExpected => 5
    case PhoneLikeDetected => 6
    case RecommendedLength(_, _) => 7
    case AvoidSpecial => 8
    case CandidateKey => 9
    case LowCardinality => 10
  }

  /** The advisory message of each rule, with the length bounds in decimal. */
  function ColumnRuleText(r: ColumnRule): string {
    match r
    case NullsNotAllowed => "Nulls are NOT allowed."
    case NullsAllowed => "Nulls are allowed."
    case OnlyNumeric => "Only numeric characters allowed."
    case CharacterLength(lo, hi) =>
      "Character length between " + NatToString(lo) + " and " + NatToString(hi) + "."
    case NoSpecialOrAlphabets => "No special characters or alphabets allowed."
    case AlphabeticOnly => "Alphabetic characters allowed only."
    case EmailExpected => "Email format expected (contains '@')."
    case PhoneLikeDetected => "Phone number like pattern detected."
    case RecommendedLength(lo, hi) =>
      "Recommended character length between " + NatToString(lo) + " and " + NatToString(hi) + "."
    case AvoidSpecial => "Avoid special characters unless required (/, -, : etc)."
    case CandidateKey => "Values are unique \U{2014} consider as candidate key."
    case LowCardinality => "Low cardinality \U{2014} likely categorical; map to lookup table or enumerations."
  }

  /** Ranks strictly increase along the list: each kind at most once, in the source's order. */
  predicate StrictlyRanked(rules: seq<ColumnRule>) {
    forall i, j :: 0 <= i < j < |rules| ==> ColumnRuleRank(rules[i]) < ColumnRuleRank(rules[j])
  }

  /** Every rule of `rules` has a rank in `lo..hi`. */
  predicate Ranked(rules: seq<ColumnRule>, lo: nat, hi: nat) {
    forall r :: r in rules ==> lo <= ColumnRuleRank(r) <= hi
  }

  /** The branch taken when neither the numeric nor the alphabetic test fires. */
  predicate InFallback(col: Column) {
    !IsNumericOnly(col) && !IsAlphaOnly(col)
  }

  /** The values the fallback branch inspects for `@` and the phone shape (`head(50)`). */
  function FallbackSample(col: Column): (s: seq<string>)
    ensures |s| <= 50
  {
    Take(NonNull(col), 50)
  }

  predicate AnyHasAt(sample: seq<string>) {
    exists v :: v in sample && HasAt(v)
  }

  predicate AnyPhoneLike(sample: seq<string>) {
    exists v :: v in sample && PhoneLike(v)
  }

  /** The length rule's bounds are the shortest and the longest present value. */
  predicate LengthBounds(col: Column, lo: nat, hi: nat) {
    var l := InferLengthRules(col);
    l.Some? && l.value.min == lo && l.value.max == hi && lo <= hi
  }

  // The list `generate_pbl_for_column` returns, built the way the source
  // builds it: one `append` after another onto the rules so far.

  /** What the generator decides about a column before it emits rules. */
  datatype ColumnFacts = ColumnFacts(
    hasNulls: bool, numeric: bool, alpha: bool, email: bool, phone: bool,
    lengths: Option<LengthStats>, key: bool, low: bool)

  function FactsOf(col: Column): ColumnFacts {
    ColumnFacts(NullCount(col) > 0, IsNumericOnly(col), IsAlphaOnly(col),
      AnyHasAt(FallbackSample(col)), AnyPhoneLike(FallbackSample(col)),
      InferLengthRules(col), IsCandidateKey(col), IsLowCardinality(Distinct(NonNull(col)), |col|))
  }

  function NullRule(f: ColumnFacts): ColumnRule {
    if f.hasNulls then NullsAllowed else NullsNotAllowed
  }

  /** The length rule, when there are lengths: exact bounds for numbers, a recommendation otherwise. */
  function AddLength(rules: seq<ColumnRule>, l: Option<LengthStats>, numeric: bool): seq<ColumnRule> {
    if l.None? then rules
    else if numeric then rules + [CharacterLength(l.value.min, l.value.max)]
    else rules + [RecommendedLength(l.value.min, l.value.max)]
  }

  /** The character-class block: numeric, else alphabetic, else the fallback checks. */
  function AddClass(rules: seq<ColumnRule>, f: ColumnFacts): seq<ColumnRule> {
    if f.numeric then AddLength(rules + [OnlyNumeric], f.lengths, true) + [NoSpecialOrAlphabets]
    else if f.alpha then rules + [AlphabeticOnly]
    else AddLength(AppendIf(AppendIf(rules, f.email, EmailExpected), f.phone, PhoneLikeDetected), f.lengths, false) + [AvoidSpecial]
  }

  /** The cardinality block: "candidate key", else possibly "low cardinality". */
  function AddCardinality(rules: seq<ColumnRule>, f: ColumnFacts): seq<ColumnRule> {
    if f.key then rules + [CandidateKey] else AppendIf(rules, f.low, LowCardinality)
  }

  function RulesFor(f: ColumnFacts): seq<ColumnRule> {
    AddCardinality(AddClass([NullRule(f)], f), f)
  }

  function PblRules(col: Column): seq<ColumnRule> {
    RulesFor(FactsOf(col))
  }

  /** `generate_pbl_for_column` */
  method GeneratePblForColumn(col: Column) returns (rules: seq<ColumnRule>)
    ensures rules == PblRules(col)
  {
    rules := [];
    var nullAllowed := NullCount(col) > 0;
    if !nullAllowed {
      rules := rules + [NullsNotAllowed];
    } else {
      rules := rules + [NullsAllowed];
    }
    assert rules == [NullRule(FactsOf(col))];

    rules := AppendClassRules(rules, col);
    rules := AppendCardinalityRules(rules, col);
  }

  /** The cardinality block: "candidate key" when the present values are distinct, else maybe "low cardinality". */
  method AppendCardinalityRules(rules0: seq<ColumnRule>, col: Column) returns (rules: seq<ColumnRule>)
    ensures rules == AddCardinality(rules0, FactsOf(col))
  {
    ghost var f := FactsOf(col);
    rules := rules0;
    var present := NonNull(col);
    var distinct := Distinct(present);
    assert f.key == (distinct == |present|) && f.low == IsLowCardinality(distinct, |col|);
    if distinct == |present| {
      rules := rules + [CandidateKey];
    } else {
      if IsLowCardinality(distinct, |col|) {
        rules := rules + [LowCardinality];
      }
    }
  }

  /** The character-class block: numeric, else alphabetic, else the fallback checks on a sample. */
  method AppendClassRules(rules0: seq<ColumnRule>, col: Column) returns (rules: seq<ColumnRule>)
    ensures rules == AddClass(rules0, FactsOf(col))
  {
    ghost var f := FactsOf(col);
    rules := rules0;
    var lengths := InferLengthRules(col);
    assert lengths == f.lengths;
    if IsNumericOnly(col) {
      rules := rules + [OnlyNumeric];
      if lengths.Some? {
        rules := rules + [CharacterLength(lengths.value.min, lengths.value.max)];
      }
      rules := rules + [NoSpecialOrAlphabets];
    } else if IsAlphaOnly(col) {
      rules := rules + [AlphabeticOnly];
    } else {
      var sample := FallbackSample(col);
      if exists v :: v in sample && HasAt(v) {
        rules := rules + [EmailExpected];
      }
      if exists v :: v in sample && PhoneLike(v) {
        rules := rules + [PhoneLikeDetected];
      }
      if lengths.Some? {
        rules := rules + [RecommendedLength(lengths.value.min, lengths.value.max)];
      }
      rules := rules + [AvoidSpecial];
    }
  }

  // The blocks, one at a time: each extends the list, and keeps it ranked.

  lemma AppendRanked(rules: seq<ColumnRule>, r: ColumnRule, k: nat)
    requires StrictlyRanked(rules) && Ranked(rules, 0, k) && k < ColumnRuleRank(r)
    ensures StrictlyRanked(rules + [r]) && Ranked(rules + [r], 0, ColumnRuleRank(r))
  {
    assert forall y :: y in rules + [r] <==> y in rules || y == r;
  }

  lemma AppendIfRanked(rules: seq<ColumnRule>, b: bool, r: ColumnRule, k: nat)
    requires StrictlyRanked(rules) && Ranked(rules, 0, k) && k < ColumnRuleRank(r)
    ensures StrictlyRanked(AppendIf(rules, b, r)) && Ranked(AppendIf(rules, b, r), 0, ColumnRuleRank(r))
  {
    if b { AppendRanked(rules, r, k); }
  }

  lemma AddLengthRanked(rules: seq<ColumnRule>, l: Option<LengthStats>, numeric: bool, k: nat)
    requires StrictlyRanked(rules) && Ranked(rules, 0, k)
    requires k < if numeric then 2 else 7
    ensures var rank := if numeric then 2 else 7;
      StrictlyRanked(AddLength(rules, l, numeric)) && Ranked(AddLength(rules, l, numeric), 0, rank)
  {
    if l.Some? {
      if numeric {
        AppendRanked(rules, CharacterLength(l.value.min, l.value.max), k);
      } else {
        AppendRanked(rules, RecommendedLength(l.value.min, l.value.max), k);
      }
    }
  }

  lemma AddClassRanked(rules: seq<ColumnRule>, f: ColumnFacts)
    requires StrictlyRanked(rules) && Ranked(rules, 0, 0)
    ensures StrictlyRanked(AddClass(rules, f)) && Ranked(AddClass(rules, f), 0, 8)
  {
    if f.numeric {
      AppendRanked(rules, OnlyNumeric, 0);
      var r1 := AddLength(rules + [OnlyNumeric], f.lengths, true);
      AddLengthRanked(rules + [OnlyNumeric], f.lengths, true, 1);
      AppendRanked(r1, NoSpecialOrAlphabets, 2);
    } else if f.alpha {
      AppendRanked(rules, AlphabeticOnly, 0);
    } else {
      var r1 := AppendIf(rules, f.email, EmailExpected);
      AppendIfRanked(rules, f.email, EmailExpected, 0);
      var r2 := AppendIf(r1, f.phone, PhoneLikeDetected);
      AppendIfRanked(r1, f.phone, PhoneLikeDetected, 5);
      var r3 := AddLength(r2, f.lengths, false);
      AddLengthRanked(r2, f.lengths, false, 6);
      AppendRanked(r3, AvoidSpecial, 7);
    }
  }

  lemma AddCardinalityRanked(rules: seq<ColumnRule>, f: ColumnFacts)
    requires StrictlyRanked(rules) && Ranked(rules, 0, 8)
    ensures StrictlyRanked(AddCardinality(rules, f)) && Ranked(AddCardinality(rules, f), 0, 10)
  {
    if f.key {
      AppendRanked(rules, CandidateKey, 8);
    } else {
      AppendIfRanked(rules, f.low, LowCardinality, 8);
    }
  }

  /** Each block only appends: what was there before is kept, in place. */
  lemma BlocksExtend(rules: seq<ColumnRule>, f: ColumnFacts)
    ensures |AddClass(rules, f)| > |rules| && AddClass(rules, f)[..|rules|] == rules
    ensures var c := AddCardinality(rules, f);
      |c| >= |rules| && c[..|rules|] == rules &&
      (|c| > |rules| <==> f.key || f.low) &&
      (|c| > |rules| ==> c == rules + [c[|rules|]] && ColumnRuleRank(c[|rules|]) >= 9)
  {
  }

  lemma AddClassMembers(rules: seq<ColumnRule>, f: ColumnFacts)
    requires Ranked(rules, 0, 0)
    ensures OnlyNumeric in AddClass(rules, f) <==> f.numeric
    ensures NoSpecialOrAlphabets in AddClass(rules, f) <==> f.numeric
    ensures AlphabeticOnly in AddClass(rules, f) <==> !f.numeric && f.alpha
    ensures EmailExpected in AddClass(rules, f) <==> !f.numeric && !f.alpha && f.email
    ensures PhoneLikeDetected in AddClass(rules, f) <==> !f.numeric && !f.alpha && f.phone
    ensures AvoidSpecial in AddClass(rules, f) <==> !f.numeric && !f.alpha
  {
    if f.numeric {
      var r1 := AddLength(rules + [OnlyNumeric], f.lengths, true);
      assert forall y :: y in r1 ==> y in rules || y == OnlyNumeric || y.CharacterLength?;
    } else if !f.alpha {
      var r1 := AppendIf(rules, f.email, EmailExpected);
      var r2 := AppendIf(r1, f.phone, PhoneLikeDetected);
      var r3 := AddLength(r2, f.lengths, false);
      assert forall y :: y in r1 <==> y in rules || (f.email && y == EmailExpected);
      assert forall y :: y in r2 <==> y in r1 || (f.phone && y == PhoneLikeDetected);
      assert forall y :: y in r3 ==> y in r2 || y.RecommendedLength?;
    }
  }

  lemma AddCardinalityMembers(rules: seq<ColumnRule>, f: ColumnFacts)
    requires Ranked(rules, 0, 8)
    ensures CandidateKey in AddCardinality(rules, f) <==> f.key
    ensures LowCardinality in AddCardinality(rules, f) <==> !f.key && f.low
    ensures forall y :: ColumnRuleRank(y) <= 8 ==> (y in AddCardinality(rules, f) <==> y in rules)
  {
  }

  lemma AddClassLengths(rules: seq<ColumnRule>, f: ColumnFacts)
    requires Ranked(rules, 0, 0)
    ensures forall y :: y in AddClass(rules, f) && y.CharacterLength? ==>
      f.numeric && f.lengths.Some? && y == CharacterLength(f.lengths.value.min, f.lengths.value.max)
    ensures forall y :: y in AddClass(rules, f) && y.RecommendedLength? ==>
      !f.numeric && !f.alpha && f.lengths.Some? && y == RecommendedLength(f.lengths.value.min, f.lengths.value.max)
    ensures !f.numeric && !f.alpha && f.lengths.Some? ==>
      RecommendedLength(f.lengths.value.min, f.lengths.value.max) in AddClass(rules, f)
  {
    if f.numeric {
      var r1 := AddLength(rules + [OnlyNumeric], f.lengths, true);
      assert forall y :: y in r1 ==>
        y in rules || y == OnlyNumeric || (f.lengths.Some? && y == CharacterLength(f.lengths.value.min, f.lengths.value.max));
    } else if !f.alpha {
      var r1 := AppendIf(rules, f.email, EmailExpected);
      var r2 := AppendIf(r1, f.phone, PhoneLikeDetected);
      var r3 := AddLength(r2, f.lengths, false);
      assert forall y :: y in r2 ==> y in rules || y == EmailExpected || y == PhoneLikeDetected;
      assert forall y :: y in r3 ==>
        y in r2 || (f.lengths.Some? && y == RecommendedLength(f.lengths.value.min, f.lengths.value.max));
    }
  }

  // Properties of the generated list, for every column.

  lemma RulesForRanked(f: ColumnFacts)
    ensures StrictlyRanked(AddClass([NullRule(f)], f)) && Ranked(AddClass([NullRule(f)], f), 0, 8)
    ensures StrictlyRanked(RulesFor(f)) && Ranked(RulesFor(f), 0, 10)
  {
    AddClassRanked([NullRule(f)], f);
    AddCardinalityRanked(AddClass([NullRule(f)], f), f);
  }

  lemma PblRanked(col: Column)
    ensures var f := FactsOf(col);
      StrictlyRanked(AddClass([NullRule(f)], f)) && Ranked(AddClass([NullRule(f)], f), 0, 8) &&
      StrictlyRanked(PblRules(col)) && Ranked(PblRules(col), 0, 10)
  {
    RulesForRanked(FactsOf(col));
  }

  /** Each kind of rule appears at most once, and the kinds come in the source's order. */
  lemma PblOrdered(col: Column)
    ensures StrictlyRanked(PblRules(col))
  {
    PblRanked(col);
  }

  lemma RulesForNullability(f: ColumnFacts)
    ensures |RulesFor(f)| >= 2 && RulesFor(f)[0] == NullRule(f)
    ensures forall i :: 1 <= i < |RulesFor(f)| ==> ColumnRuleRank(RulesFor(f)[i]) > 0
  {
    RulesForRanked(f);
    BlocksExtend([NullRule(f)], f);
    var c := AddClass([NullRule(f)], f);
    BlocksExtend(c, f);
    assert RulesFor(f)[0] == c[0] == NullRule(f);
  }

  /** The first rule is the only nullability rule, and it says whether the column has nulls. */
  lemma PblNullabilityFirst(col: Column)
    ensures |PblRules(col)| >= 2
    ensures PblRules(col)[0] == NullsNotAllowed <==> NullCount(col) == 0
    ensures PblRules(col)[0] == NullsAllowed <==> NullCount(col) > 0
    ensures forall i :: 1 <= i < |PblRules(col)| ==> ColumnRuleRank(PblRules(col)[i]) > 0
  {
    RulesForNullability(FactsOf(col));
  }

  lemma RulesForClass(f: ColumnFacts)
    ensures OnlyNumeric in RulesFor(f) <==> f.numeric
    ensures NoSpecialOrAlphabets in RulesFor(f) <==> f.numeric
    ensures AlphabeticOnly in RulesFor(f) <==> !f.numeric && f.alpha
    ensures EmailExpected in RulesFor(f) <==> !f.numeric && !f.alpha && f.email
    ensures PhoneLikeDetected in RulesFor(f) <==> !f.numeric && !f.alpha && f.phone
    ensures AvoidSpecial in RulesFor(f) <==> !f.numeric && !f.alpha
  {
    RulesForRanked(f);
    AddClassMembers([NullRule(f)], f);
    AddCardinalityMembers(AddClass([NullRule(f)], f), f);
  }

  /** The character-class branches are exclusive and tried in order: numeric, alphabetic, fallback. */
  lemma PblCharacterClass(col: Column)
    ensures OnlyNumeric in PblRules(col) <==> IsNumericOnly(col)
    ensures NoSpecialOrAlphabets in PblRules(col) <==> IsNumericOnly(col)
    ensures AlphabeticOnly in PblRules(col) <==> !IsNumericOnly(col) && IsAlphaOnly(col)
    ensures EmailExpected in PblRules(col) <==> InFallback(col) && AnyHasAt(FallbackSample(col))
    ensures PhoneLikeDetected in PblRules(col) <==> InFallback(col) && AnyPhoneLike(FallbackSample(col))
    ensures AvoidSpecial in PblRules(col) <==> InFallback(col)
  {
    RulesForClass(FactsOf(col));
  }

  lemma NumericBlock(f: ColumnFacts)
    requires f.numeric && f.lengths.Some?
    ensures RulesFor(f)[1..4] == [OnlyNumeric, CharacterLength(f.lengths.value.min, f.lengths.value.max), NoSpecialOrAlphabets]
  {
    var c := AddClass([NullRule(f)], f);
    assert c == [NullRule(f), OnlyNumeric, CharacterLength(f.lengths.value.min, f.lengths.value.max), NoSpecialOrAlphabets];
    BlocksExtend(c, f);
    assert RulesFor(f)[1..4] == c[1..4];
  }

  /** A numeric column gets "only numeric", then its length bounds, then "no special characters". */
  lemma PblNumericBranch(col: Column)
    requires IsNumericOnly(col)
    ensures
      var l := InferLengthRules(col).value;
      l.min <= l.max &&
      PblRules(col)[1..4] == [OnlyNumeric, CharacterLength(l.min, l.max), NoSpecialOrAlphabets]
  {
    NumericBlock(FactsOf(col));
  }

  lemma RulesForLengths(f: ColumnFacts)
    ensures forall r :: r in RulesFor(f) && r.CharacterLength? ==>
      f.numeric && f.lengths.Some? && f.lengths.value.min == r.lo && f.lengths.value.max == r.hi
    ensures forall r :: r in RulesFor(f) && r.RecommendedLength? ==>
      !f.numeric && !f.alpha && f.lengths.Some? && f.lengths.value.min == r.lo && f.lengths.value.max == r.hi
    ensures !f.numeric && !f.alpha && f.lengths.Some? ==>
      RecommendedLength(f.lengths.value.min, f.lengths.value.max) in RulesFor(f)
  {
    RulesForRanked(f);
    AddClassLengths([NullRule(f)], f);
    AddCardinalityMembers(AddClass([NullRule(f)], f), f);
  }

  /** A length rule carries the shortest and longest present length, and only its own branch emits it. */
  lemma PblLengthRule(col: Column)
    ensures forall r :: r in PblRules(col) && r.CharacterLength? ==> IsNumericOnly(col) && LengthBounds(col, r.lo, r.hi)
    ensures forall r :: r in PblRules(col) && r.RecommendedLength? ==> InFallback(col) && LengthBounds(col, r.lo, r.hi)
    ensures InFallback(col) && NonNull(col) != [] ==> exists r :: r in PblRules(col) && r.RecommendedLength?
  {
    var f := FactsOf(col);
    RulesForLengths(f);
    if InFallback(col) && NonNull(col) != [] {
      assert RecommendedLength(f.lengths.value.min, f.lengths.value.max) in PblRules(col);
    }
  }

  /** At most one cardinality rule closes the list: "candidate key" or else "low cardinality". */
  lemma RulesForCardinality(f: ColumnFacts)
    ensures CandidateKey in RulesFor(f) <==> f.key
    ensures LowCardinality in RulesFor(f) <==> !f.key && f.low
    ensures var rules := RulesFor(f);
      rules != [] && (ColumnRuleRank(rules[|rules| - 1]) >= 9 <==> f.key || f.low)
  {
    RulesForRanked(f);
    var c := AddClass([NullRule(f)], f);
    AddCardinalityMembers(c, f);
    BlocksExtend([NullRule(f)], f);
    BlocksExtend(c, f);
    var rules := RulesFor(f);
    if |rules| == |c| {
      assert rules[|rules| - 1] == c[|c| - 1] && c[|c| - 1] in c;
    }
  }

  /** At most one cardinality rule closes the list: "candidate key" or else "low cardinality". */
  lemma PblCardinality(col: Column)
    ensures CandidateKey in PblRules(col) <==> IsCandidateKey(col)
    ensures LowCardinality in PblRules(col) <==> !IsCandidateKey(col) && IsLowCardinality(Distinct(NonNull(col)), |col|)
    ensures var rules := PblRules(col);
      rules != [] &&
      (ColumnRuleRank(rules[|rules| - 1]) >= 9 <==> IsCandidateKey(col) || IsLowCardinality(Distinct(NonNull(col)), |col|))
  {
    RulesForCardinality(FactsOf(col));
  }

  /** An all-null column has no present values, so it comes out as a "candidate key". */
  lemma PblAllNullColumnIsKey(col: Column)
    requires forall i :: 0 <= i < |col| ==> col[i].None?
    ensures CandidateKey in PblRules(col)
  {
    PblCardinality(col);
  }
}

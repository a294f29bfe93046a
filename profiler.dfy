/**
 * The column profiler: the pattern label of a column, IQR outlier bounds,
 * and the per-column overview and insight list of a whole frame.
 */
module Profiler {
  import opened Wrappers
  import opened Seqs
  import opened Text
  import opened Patterns
  import opened Ratios
  import opened Frame

  // ---------------------------------------------------------------------
  // Pattern label
  // ---------------------------------------------------------------------

  /** The default `sample_n` of the pattern detector. */
  const SampleSize: nat := 500

  datatype Category = Alpha | DateLike | EmailLike | Numeric

  function CategoryName(c: Category): string {
    match c
    case Alpha => "alpha"
    case DateLike => "date-like"
    case EmailLike => "email-like"
    case Numeric => "numeric"
  }

  /** The categories one sampled value adds; a value can add several. */
  function ValueCategories(v: string): (ps: set<Category>)
    ensures Numeric in ps <==> AllDigits(v)
    ensures Alpha in ps <==> AlphaOrSpace(v)
    ensures EmailLike in ps <==> HasAt(v)
    ensures DateLike in ps <==> HasDate(v)
  {
    (if AllDigits(v) then {Numeric} else {}) +
    (if AlphaOrSpace(v) then {Alpha} else {}) +
    (if HasAt(v) then {EmailLike} else {}) +
    (if HasDate(v) then {DateLike} else {})
  }

  /** The category set after scanning `sample` from the left. */
  function Categories(sample: seq<string>): set<Category> {
    if sample == [] then {}
    else Categories(sample[..|sample| - 1]) + ValueCategories(sample[|sample| - 1])
  }

  /** Every category name, in Python's string order. */
  const AllNames: seq<string> := ["alpha", "date-like", "email-like", "numeric"]

  function NameSet(ps: set<Category>): set<string> {
    set c | c in ps :: CategoryName(c)
  }

  /** Python's `sorted` on a list of strings. */
  function SortStrings(names: seq<string>): (r: seq<string>)
    ensures SortedBy(r, LexLe) && multiset(r) == multiset(names)
  {
    LexLeIsOrder();
    Sort(names, LexLe)
  }

  /** The names of `ps`, in the order `sorted` puts them. */
  function SortedNames(ps: set<Category>): seq<string> {
    Filter(AllNames, n => n in NameSet(ps))
  }

  /** `", ".join(sorted(patterns)) if patterns else "mixed"`. */
  function Label(ps: set<Category>): string {
    if ps == {} then "mixed" else Join(SortedNames(ps), ", ")
  }

  /** The detector's answer for a series and the sample drawn from its present values. */
  function PatternLabel(series: seq<Option<Cell>>, sample: seq<string>): string {
    if NonNull(series) == [] then "empty" else Label(Categories(sample))
  }

  /**
   * `detect_pattern`: drop missing cells, give "empty" if nothing is left,
   * otherwise grow the category set over the sample and label it. The
   * random draw of `min(len(s), sample_n)` values is the `sample` argument.
   */
  method DetectPattern(series: seq<Option<Cell>>, sample: seq<string>) returns (pattern: string)
    requires IsSampleOf(sample, PresentTexts(series), SampleSize)
    ensures pattern == PatternLabel(series, sample)
  {
    var s := PresentTexts(series);
    if s == [] {
      return "empty";
    }
    var patterns: set<Category> := {};
    var i := 0;
    while i < |sample|
      invariant 0 <= i <= |sample|
      invariant patterns == Categories(sample[..i])
    {
      var v := sample[i];
      assert sample[..i + 1][..i] == sample[..i];
      if AllDigits(v) {
        patterns := patterns + {Numeric};
      }
      if AlphaOrSpace(v) {
        patterns := patterns + {Alpha};
      }
      if HasAt(v) {
        patterns := patterns + {EmailLike};
      }
      if HasDate(v) {
        patterns := patterns + {DateLike};
      }
      i := i + 1;
    }
    assert sample[..i] == sample;
    pattern := Label(patterns);
  }

  /** A category is in the set exactly when some sampled value shows it. */
  lemma {:induction false} CategoriesMembers(sample: seq<string>, c: Category)
    ensures c in Categories(sample) <==> exists i :: 0 <= i < |sample| && c in ValueCategories(sample[i])
  {
    if sample != [] {
      var init := sample[..|sample| - 1];
      CategoriesMembers(init, c);
      if c in Categories(init) {
        var i :| 0 <= i < |init| && c in ValueCategories(init[i]);
        assert sample[i] == init[i];
      }
      if exists i :: 0 <= i < |sample| && c in ValueCategories(sample[i]) {
        var i :| 0 <= i < |sample| && c in ValueCategories(sample[i]);
        if i < |init| {
          assert sample[i] == init[i];
        }
      }
    }
  }

  /** Categories only accumulate while the sample is scanned. */
  lemma {:induction false} CategoriesGrow(sample: seq<string>, i: nat, j: nat)
    requires i <= j <= |sample|
    ensures Categories(sample[..i]) <= Categories(sample[..j])
  {
    forall c | c in Categories(sample[..i]) ensures c in Categories(sample[..j]) {
      CategoriesMembers(sample[..i], c);
      var k :| 0 <= k < i && c in ValueCategories(sample[..i][k]);
      assert sample[..j][k] == sample[..i][k];
      CategoriesMembers(sample[..j], c);
    }
  }

  /** The category set depends on which values were sampled, not on their order or multiplicity. */
  lemma {:induction false} CategoriesOfValueSet(a: seq<string>, b: seq<string>)
    requires forall v :: v in a <==> v in b
    ensures Categories(a) == Categories(b)
  {
    forall c ensures c in Categories(a) <==> c in Categories(b) {
      CategoriesMembers(a, c);
      CategoriesMembers(b, c);
      if exists i :: 0 <= i < |a| && c in ValueCategories(a[i]) {
        var i :| 0 <= i < |a| && c in ValueCategories(a[i]);
        assert a[i] in b;
        var k :| 0 <= k < |b| && b[k] == a[i];
      }
      if exists i :: 0 <= i < |b| && c in ValueCategories(b[i]) {
        var i :| 0 <= i < |b| && c in ValueCategories(b[i]);
        assert b[i] in a;
        var k :| 0 <= k < |a| && a[k] == b[i];
      }
    }
  }

  lemma AllNamesOrdered()
    ensures SortedBy(AllNames, LexLe) && NoDup(AllNames)
    ensures forall c :: CategoryName(c) in AllNames
  {
    var a := AllNames;
    assert a[0][0] == 'a' && a[1][0] == 'd' && a[2][0] == 'e' && a[3][0] == 'n';
    forall i, j | 0 <= i < j < |a| ensures LexLe(a[i], a[j]) && a[i] != a[j] {
      assert a[i] != [] && a[j] != [] && a[i][0] < a[j][0];
    }
  }

  /** Only "alpha" among the names is as short as "empty" or "mixed". */
  lemma ShortName(name: string)
    requires name in AllNames
    ensures |name| > 5 || name == "alpha"
  {
  }

  /**
   * The label joins the category names in sorted order: for any listing of
   * the names without repeats, it is the join of that listing sorted.
   */
  lemma {:induction false} LabelIsSortedJoin(ps: set<Category>, names: seq<string>)
    requires NoDup(names) && forall n :: n in names <==> n in NameSet(ps)
    ensures Label(ps) == if ps == {} then "mixed" else Join(SortStrings(names), ", ")
  {
    LexLeIsOrder();
    AllNamesOrdered();
    var p := n => n in NameSet(ps);
    var fixed := Filter(AllNames, p);
    FilterSorted(AllNames, p, LexLe);
    FilterNoDup(AllNames, p);
    assert forall n :: n in fixed <==> n in names;
    NoDupSameElements(fixed, names);
    SortedUnique(fixed, SortStrings(names), LexLe);
  }

  /** A non-empty label never reads "empty" or "mixed". */
  lemma {:induction false} LabelWords(ps: set<Category>)
    ensures Label(ps) != "empty"
    ensures Label(ps) == "mixed" <==> ps == {}
  {
    if ps != {} {
      var c :| c in ps;
      AllNamesOrdered();
      var names := SortedNames(ps);
      assert CategoryName(c) in names;
      var first := names[0];
      JoinStartsWithFirst(names, ", ");
      ShortName(first);
      var l := Label(ps);
      if |l| == 5 {
        assert first == "alpha" && l == l[..5] == first;
      }
    }
  }

  /**
   * "empty" exactly when the series has no present value; otherwise "mixed"
   * exactly when no sampled value falls in a category, and else the
   * comma-joined sorted category names.
   */
  lemma {:induction false} PatternLabelCases(series: seq<Option<Cell>>, sample: seq<string>, names: seq<string>)
    requires NoDup(names) && forall n :: n in names <==> n in NameSet(Categories(sample))
    ensures PatternLabel(series, sample) == "empty" <==> NonNull(series) == []
    ensures NonNull(series) != [] ==>
      PatternLabel(series, sample) ==
        if Categories(sample) == {} then "mixed" else Join(SortStrings(names), ", ")
  {
    LabelWords(Categories(sample));
    LabelIsSortedJoin(Categories(sample), names);
  }

  /**
   * With at most `SampleSize` present values the sample is all of them, so
   * two series with the same set of present values get the same label,
   * whatever was drawn.
   */
  lemma {:induction false} PatternFromValueSet(s1: seq<Option<Cell>>, x1: seq<string>, s2: seq<Option<Cell>>, x2: seq<string>)
    requires IsSampleOf(x1, PresentTexts(s1), SampleSize) && |PresentTexts(s1)| <= SampleSize
    requires IsSampleOf(x2, PresentTexts(s2), SampleSize) && |PresentTexts(s2)| <= SampleSize
    requires forall v :: v in PresentTexts(s1) <==> v in PresentTexts(s2)
    ensures PatternLabel(s1, x1) == PatternLabel(s2, x2)
  {
    FullSample(x1, PresentTexts(s1), SampleSize);
    FullSample(x2, PresentTexts(s2), SampleSize);
    CategoriesOfValueSet(x1, x2);
    if NonNull(s1) != [] {
      assert PresentTexts(s1)[0] in PresentTexts(s2);
    }
    if NonNull(s2) != [] {
      assert PresentTexts(s2)[0] in PresentTexts(s1);
    }
  }

  // ---------------------------------------------------------------------
  // Quartiles and IQR outliers
  // ---------------------------------------------------------------------

  function RealLe(a: real, b: real): bool { a <= b }

  lemma RealLeIsOrder()
    ensures TotalPreorder(RealLe) && Antisymmetric(RealLe)
  {
  }

  /** The values in ascending order. */
  function Ascending(xs: seq<real>): (s: seq<real>)
    ensures SortedBy(s, RealLe) && multiset(s) == multiset(xs) && |s| == |xs|
  {
    RealLeIsOrder();
    var s := Sort(xs, RealLe);
    assert |s| == |multiset(s)| == |multiset(xs)| == |xs|;
    s
  }

  /** `k * (n - 1)`, the interpolation position of quartile `k` times four, case by case. */
  function QuarterPosition(k: nat, n: nat): (h: nat)
    requires k <= 4 && n >= 1
    ensures h <= 4 * (n - 1)
  {
    if k == 0 then 0
    else if k == 1 then n - 1
    else if k == 2 then 2 * (n - 1)
    else if k == 3 then 3 * (n - 1)
    else 4 * (n - 1)
  }

  lemma QuarterPositionIsProduct(k: nat, n: nat)
    requires k <= 4 && n >= 1
    ensures QuarterPosition(k, n) == k * (n - 1)
  {
  }

  /** The floor of the interpolation position of quartile `k` among `n` values. */
  function QuantileIndex(k: nat, n: nat): (lo: nat)
    requires k <= 4 && n >= 1
    ensures lo < n
  {
    QuarterPosition(k, n) / 4
  }

  /** `a + (b - a) * r / 4`: linear interpolation a quarter step `r` of the way from `a` to `b`. */
  function Interpolate(a: real, b: real, r: nat): real
    requires r < 4
  {
    if r == 0 then a
    else if r == 1 then (3.0 * a + b) / 4.0
    else if r == 2 then (a + b) / 2.0
    else (a + 3.0 * b) / 4.0
  }

  lemma InterpolateOrdered(a: real, b: real, r: nat, t: nat)
    requires a <= b && r <= t < 4
    ensures a <= Interpolate(a, b, r) <= Interpolate(a, b, t) <= b
  {
  }

  /**
   * `Series.quantile(k / 4)` on ascending values, with pandas' default
   * linear interpolation: position `k * (n - 1) / 4`, between its floor and
   * the next index.
   */
  function Quantile(s: seq<real>, k: nat): real
    requires s != [] && k <= 4
  {
    var h := QuarterPosition(k, |s|);
    var lo := h / 4;
    if lo + 1 < |s| then Interpolate(s[lo], s[lo + 1], h % 4) else s[lo]
  }

  /** An interpolated quantile lies between the two values it interpolates. */
  lemma {:induction false} QuantileBetween(s: seq<real>, k: nat)
    requires s != [] && k <= 4 && SortedBy(s, RealLe)
    ensures var lo := QuantileIndex(k, |s|);
      s[lo] <= Quantile(s, k) <= s[if lo + 1 < |s| then lo + 1 else lo]
  {
    var h := QuarterPosition(k, |s|);
    var lo := h / 4;
    if lo + 1 < |s| {
      assert RealLe(s[lo], s[lo + 1]);
      InterpolateOrdered(s[lo], s[lo + 1], h % 4, h % 4);
    }
  }

  lemma {:induction false} QuantileMonotone(s: seq<real>, j: nat, k: nat)
    requires s != [] && j <= k <= 4 && SortedBy(s, RealLe)
    ensures Quantile(s, j) <= Quantile(s, k)
  {
    var n := |s|;
    var hj, hk := QuarterPosition(j, n), QuarterPosition(k, n);
    assert hj <= hk;
    var lj, lk := hj / 4, hk / 4;
    QuantileBetween(s, j);
    QuantileBetween(s, k);
    if lj < lk {
      assert lj + 1 == lk || RealLe(s[lj + 1], s[lk]);
    } else if lj + 1 < n {
      assert RealLe(s[lj], s[lj + 1]);
      InterpolateOrdered(s[lj], s[lj + 1], hj % 4, hk % 4);
    }
  }

  function LowerQuartile(xs: seq<real>): real
    requires xs != []
  {
    Quantile(Ascending(xs), 1)
  }

  function UpperQuartile(xs: seq<real>): real
    requires xs != []
  {
    Quantile(Ascending(xs), 3)
  }

  /** The result of `compute_outliers`. */
  datatype Outliers = NoneMethod | Iqr(count: nat, lower: real, upper: real)

  /** The `count` entry, which `NoneMethod` fixes at 0. */
  function OutlierCount(o: Outliers): nat {
    match o
    case NoneMethod => 0
    case Iqr(count, _, _) => count
  }

  /** Strictly below `lower` or strictly above `upper`. */
  function Outside(lower: real, upper: real): real -> bool {
    v => v < lower || v > upper
  }

  /**
   * `compute_outliers` on the coerced, NaN-free values `xs`: Tukey fences
   * 1.5 IQR beyond the quartiles and the number of values past them.
   */
  function ComputeOutliers(xs: seq<real>): (o: Outliers)
    ensures o.NoneMethod? <==> xs == []
    ensures o.Iqr? ==> o.lower <= LowerQuartile(xs) <= UpperQuartile(xs) <= o.upper
    ensures o.Iqr? ==>
      LowerQuartile(xs) - o.lower == 1.5 * (UpperQuartile(xs) - LowerQuartile(xs)) == o.upper - UpperQuartile(xs)
    ensures o.Iqr? ==> o.count == CountIf(xs, Outside(o.lower, o.upper))
    ensures OutlierCount(o) <= |xs|
  {
    if xs == [] then NoneMethod
    else
      var s := Ascending(xs);
      var q1 := Quantile(s, 1);
      var q3 := Quantile(s, 3);
      QuantileMonotone(s, 1, 3);
      var iqr := q3 - q1;
      var lower := q1 - 1.5 * iqr;
      var upper := q3 + 1.5 * iqr;
      Iqr(CountIf(xs, Outside(lower, upper)), lower, upper)
  }

  lemma {:induction false} AscendingOrderFree(a: seq<real>, b: seq<real>)
    requires multiset(a) == multiset(b)
    ensures Ascending(a) == Ascending(b)
  {
    RealLeIsOrder();
    SortPermutationInvariant(a, b, RealLe);
  }

  /** The result depends only on the multiset of values, not on row order. */
  lemma {:induction false} OutliersOrderFree(a: seq<real>, b: seq<real>)
    requires multiset(a) == multiset(b)
    ensures ComputeOutliers(a) == ComputeOutliers(b)
  {
    assert |a| == |multiset(a)| == |multiset(b)| == |b|;
    if a != [] {
      AscendingOrderFree(a, b);
      var oa, ob := ComputeOutliers(a), ComputeOutliers(b);
      assert oa.lower == ob.lower && oa.upper == ob.upper;
      CountIfMultiset(a, b, Outside(oa.lower, oa.upper));
    }
  }

  /** The smallest value (`Series.min()`). */
  function MinReal(xs: seq<real>): (m: real)
    requires xs != []
    ensures m in xs && forall i :: 0 <= i < |xs| ==> m <= xs[i]
  {
    if |xs| == 1 then xs[0]
    else
      var r := MinReal(xs[1..]);
      assert forall i :: 1 <= i < |xs| ==> xs[i] == xs[1..][i - 1];
      if xs[0] <= r then xs[0] else r
  }

  /** The largest value (`Series.max()`). */
  function MaxReal(xs: seq<real>): (m: real)
    requires xs != []
    ensures m in xs && forall i :: 0 <= i < |xs| ==> xs[i] <= m
  {
    if |xs| == 1 then xs[0]
    else
      var r := MaxReal(xs[1..]);
      assert forall i :: 1 <= i < |xs| ==> xs[i] == xs[1..][i - 1];
      if xs[0] >= r then xs[0] else r
  }

  /** Some value is an outlier exactly when the minimum or the maximum lies past a fence. */
  lemma {:induction false} OutliersAtExtremes(xs: seq<real>)
    requires xs != []
    ensures var o := ComputeOutliers(xs);
      OutlierCount(o) > 0 <==> MinReal(xs) < o.lower || MaxReal(xs) > o.upper
  {
    var o := ComputeOutliers(xs);
    var lo, hi := MinReal(xs), MaxReal(xs);
    var i :| 0 <= i < |xs| && xs[i] == lo;
    var j :| 0 <= j < |xs| && xs[j] == hi;
    assert Outside(o.lower, o.upper)(xs[i]) <==> lo < o.lower || lo > o.upper;
    assert Outside(o.lower, o.upper)(xs[j]) <==> hi < o.lower || hi > o.upper;
  }

  /** The middle value of `s`, or the mean of its two middle values. */
  function Middle(s: seq<real>): real
    requires s != []
  {
    var n := |s|;
    if n % 2 == 1 then s[n / 2] else (s[n / 2 - 1] + s[n / 2]) / 2.0
  }

  /** `Series.median()`. */
  function Median(xs: seq<real>): real
    requires xs != []
  {
    Middle(Ascending(xs))
  }

  lemma {:induction false} MiddleIsSecondQuartile(s: seq<real>)
    requires s != []
    ensures Middle(s) == Quantile(s, 2)
  {
    var n := |s|;
    var m, h := n / 2, QuarterPosition(2, n);
    if n % 2 == 1 {
      assert h == 4 * m && h / 4 == m && h % 4 == 0;
    } else {
      assert h == 4 * (m - 1) + 2 && h / 4 == m - 1 && h % 4 == 2;
    }
  }

  /** The median is the second quartile under linear interpolation. */
  lemma {:induction false} MedianIsSecondQuartile(xs: seq<real>)
    requires xs != []
    ensures Median(xs) == Quantile(Ascending(xs), 2)
  {
    MiddleIsSecondQuartile(Ascending(xs));
  }

  lemma {:induction false} QuantileEnds(s: seq<real>)
    requires s != []
    ensures Quantile(s, 0) == s[0] && Quantile(s, 4) == s[|s| - 1]
  {
    assert 4 * (|s| - 1) / 4 == |s| - 1;
  }

  /** The minimum and the maximum are the ends of the ascending order. */
  lemma {:induction false} ExtremesOfAscending(xs: seq<real>)
    requires xs != []
    ensures var s := Ascending(xs); MinReal(xs) <= s[0] && s[|s| - 1] <= MaxReal(xs)
  {
    var s := Ascending(xs);
    assert s[0] in multiset(xs) && s[|s| - 1] in multiset(xs);
    var i :| 0 <= i < |xs| && xs[i] == s[0];
    var j :| 0 <= j < |xs| && xs[j] == s[|s| - 1];
  }

  lemma {:induction false} QuartilesAscend(s: seq<real>)
    requires s != [] && SortedBy(s, RealLe)
    ensures s[0] <= Quantile(s, 1) <= Quantile(s, 2) <= Quantile(s, 3) <= s[|s| - 1]
  {
    QuantileMonotone(s, 0, 1);
    QuantileMonotone(s, 1, 2);
    QuantileMonotone(s, 2, 3);
    QuantileMonotone(s, 3, 4);
    QuantileEnds(s);
  }

  /** Quartiles and median are ordered, and all lie between the minimum and the maximum. */
  lemma {:induction false} SummaryOrdered(xs: seq<real>)
    requires xs != []
    ensures MinReal(xs) <= LowerQuartile(xs) <= Median(xs) <= UpperQuartile(xs) <= MaxReal(xs)
  {
    QuartilesAscend(Ascending(xs));
    MedianIsSecondQuartile(xs);
    ExtremesOfAscending(xs);
  }

  /** A column of one repeated value has no outliers. */
  lemma {:induction false} ConstantHasNoOutliers(xs: seq<real>, v: real)
    requires xs != [] && forall i :: 0 <= i < |xs| ==> xs[i] == v
    ensures OutlierCount(ComputeOutliers(xs)) == 0
  {
    var s := Ascending(xs);
    forall i | 0 <= i < |s| ensures s[i] == v {
      assert s[i] in multiset(xs);
    }
    QuantileBetween(s, 1);
    QuantileBetween(s, 3);
  }

  // ---------------------------------------------------------------------
  // Column overview and insights
  // ---------------------------------------------------------------------

  /** How many present values the overview shows (`head(5)`). */
  const SampleValuesLimit: nat := 5

  /** The entries a numeric column adds to its overview (mean and std are not modelled). */
  datatype NumericSummary = NumericSummary(min: Option<real>, max: Option<real>, median: Option<real>, outliers: Outliers)

  function Summarize(cells: seq<Option<Cell>>): (n: NumericSummary)
    ensures n.min.None? <==> Numbers(cells) == []
    ensures n.max.None? <==> Numbers(cells) == []
    ensures n.median.None? <==> Numbers(cells) == []
    ensures n.min.Some? ==> n.min.value in Numbers(cells) && n.max.value in Numbers(cells)
    ensures n.min.Some? ==> forall i :: 0 <= i < |Numbers(cells)| ==> n.min.value <= Numbers(cells)[i] <= n.max.value
    ensures n.min.Some? ==> n.min.value <= n.median.value <= n.max.value
    ensures n.outliers == ComputeOutliers(Numbers(cells))
  {
    var xs := Numbers(cells);
    if xs == [] then NumericSummary(None, None, None, ComputeOutliers(xs))
    else
      SummaryOrdered(xs);
      NumericSummary(Some(MinReal(xs)), Some(MaxReal(xs)), Some(Median(xs)), ComputeOutliers(xs))
  }

  /** One entry of `columns_overview` (the dtype string is not modelled). */
  datatype ColumnProfile = ColumnProfile(
    name: string, count: nat, nulls: nat, distinct: nat,
    sampleValues: seq<string>, pattern: string, numeric: Option<NumericSummary>)

  /** The overview entry of column `c`, given the sample its pattern detector drew. */
  function ProfileOf(c: Column, sample: seq<string>): (p: ColumnProfile)
    ensures p.name == c.name && p.count == |c.cells|
    ensures p.nulls <= p.count && p.distinct <= p.count - p.nulls
    ensures p.nulls == 0 <==> forall i :: 0 <= i < |c.cells| ==> c.cells[i].Some?
    ensures |PresentTexts(c.cells)| == p.count - p.nulls
    ensures |p.sampleValues| == if p.count - p.nulls <= SampleValuesLimit then p.count - p.nulls else SampleValuesLimit
    ensures p.sampleValues == PresentTexts(c.cells)[..|p.sampleValues|]
    ensures p.pattern == PatternLabel(c.cells, sample)
    ensures p.numeric.Some? <==> c.kind == NumericKind
  {
    var present := NonNull(c.cells);
    ColumnProfile(
      c.name, |c.cells|, NullCount(c.cells), Distinct(present),
      Take(Texts(present), SampleValuesLimit), PatternLabel(c.cells, sample),
      if c.kind == NumericKind then Some(Summarize(c.cells)) else None)
  }

  /**
   * In a numeric column whose present cells are all numbers, min, max and
   * median are missing exactly when every cell is missing.
   */
  lemma {:induction false} NumericStatsPresence(c: Column, sample: seq<string>)
    requires WellKinded(c) && c.kind == NumericKind
    ensures var n := ProfileOf(c, sample).numeric.value;
      (n.min.None? <==> NullCount(c.cells) == |c.cells|) &&
      (n.max.None? <==> NullCount(c.cells) == |c.cells|) &&
      (n.median.None? <==> NullCount(c.cells) == |c.cells|)
  {
    NumbersOfNumeric(c.cells);
  }

  /** The overview entry of one column, built as the source builds its stats dict. */
  method ProfileColumn(c: Column, sample: seq<string>) returns (p: ColumnProfile)
    requires IsSampleOf(sample, PresentTexts(c.cells), SampleSize)
    ensures p == ProfileOf(c, sample)
  {
    var present := NonNull(c.cells);
    var pattern := DetectPattern(c.cells, sample);
    p := ColumnProfile(
      c.name, |c.cells|, NullCount(c.cells), Distinct(present),
      Take(Texts(present), SampleValuesLimit), pattern, None);
    if c.kind == NumericKind {
      p := p.(numeric := Some(Summarize(c.cells)));
    }
  }

  /** One entry of `top_insights`. */
  datatype Insight =
    | OutlierInsight(column: string, count: nat)
    | NullInsight(column: string, nulls: nat)
    | LowCardinalityInsight(column: string, distinct: nat)

  function InsightText(i: Insight): string {
    match i
    case OutlierInsight(col, n) =>
      "Column '" + col + "' has " + NatToString(n) + " potential outliers (IQR)."
    case NullInsight(col, n) =>
      "Column '" + col + "' has " + NatToString(n) + " nulls."
    case LowCardinalityInsight(col, d) =>
      "Column '" + col + "' appears low-cardinality (" + NatToString(d) + " unique). may be categorical."
  }

  /** The insights one column contributes, in the order the source appends them. */
  function ColumnInsights(p: ColumnProfile): seq<Insight> {
    if p.numeric.Some? then
      var n := OutlierCount(p.numeric.value.outliers);
      AppendIf([], n > 0, OutlierInsight(p.name, n))
    else
      AppendIf(
        AppendIf([], p.nulls > 0, NullInsight(p.name, p.nulls)),
        IsLowCardinality(p.distinct, p.count), LowCardinalityInsight(p.name, p.distinct))
  }

  /** The insight list after the columns `ps`, in column order. */
  function InsightsOf(ps: seq<ColumnProfile>): seq<Insight> {
    FlatMap(ps, ColumnInsights)
  }

  /**
   * A numeric column adds one outlier insight exactly when its outlier count
   * is positive; any other column adds a null insight exactly when it has
   * nulls and then a low-cardinality insight exactly when
   * `distinct / max(1, count) < 0.02`.
   */
  lemma {:induction false} ColumnInsightsCases(p: ColumnProfile)
    ensures p.numeric.Some? ==>
      var n := OutlierCount(p.numeric.value.outliers);
      ColumnInsights(p) == if n > 0 then [OutlierInsight(p.name, n)] else []
    ensures p.numeric.None? ==>
      (NullInsight(p.name, p.nulls) in ColumnInsights(p) <==> p.nulls > 0) &&
      (LowCardinalityInsight(p.name, p.distinct) in ColumnInsights(p) <==>
        (p.distinct as real) / (Max1(p.count) as real) < 0.02) &&
      (|ColumnInsights(p)| == 2 ==> ColumnInsights(p)[0].NullInsight?) &&
      forall x :: x in ColumnInsights(p) ==> !x.OutlierInsight?
  {
    LowCardinalityIsRatioTest(p.distinct, p.count);
  }

  /**
   * Insights follow column order: the list is the insights of the columns
   * before `k`, then those of column `k`, then those of the columns after.
   */
  lemma {:induction false} InsightsInColumnOrder(ps: seq<ColumnProfile>, k: nat)
    requires k < |ps|
    ensures InsightsOf(ps) == InsightsOf(ps[..k]) + ColumnInsights(ps[k]) + InsightsOf(ps[k + 1..])
  {
    FlatMapAt(ps, ColumnInsights, k);
  }

  /** Every insight comes from one of the columns. */
  lemma {:induction false} InsightsFromColumns(ps: seq<ColumnProfile>, x: Insight)
    requires x in InsightsOf(ps)
    ensures exists k :: 0 <= k < |ps| && x in ColumnInsights(ps[k])
  {
    FlatMapMember(ps, ColumnInsights, x);
  }

  /** The appends of one loop iteration of `profile_dataframe`. */
  method AppendInsights(insights: seq<Insight>, c: Column, p: ColumnProfile) returns (r: seq<Insight>)
    requires p.name == c.name && (p.numeric.Some? <==> c.kind == NumericKind)
    ensures r == insights + ColumnInsights(p)
  {
    r := insights;
    if c.kind == NumericKind {
      var n := OutlierCount(p.numeric.value.outliers);
      if n > 0 {
        r := r + [OutlierInsight(c.name, n)];
      }
    } else {
      if p.nulls > 0 {
        r := r + [NullInsight(c.name, p.nulls)];
      }
      if IsLowCardinality(p.distinct, p.count) {
        r := r + [LowCardinalityInsight(c.name, p.distinct)];
      }
    }
  }

  /** The result of `profile_dataframe`: correlation values and anomaly scores are not modelled. */
  datatype Profile = Profile(overview: seq<ColumnProfile>, hasCorrelations: bool, insights: seq<Insight>)

  predicate IsNumericColumn(c: Column) { c.kind == NumericKind }

  /**
   * `profile_dataframe`: one overview entry per column in column order,
   * insights appended as each column is profiled, and correlations only
   * when at least two columns are numeric. `samples[i]` is the draw the
   * pattern detector makes for column `i`.
   */
  method ProfileDataframe(df: seq<Column>, samples: seq<seq<string>>) returns (profile: Profile)
    requires DistinctNames(df) && |samples| == |df|
    requires forall i :: 0 <= i < |df| ==> IsSampleOf(samples[i], PresentTexts(df[i].cells), SampleSize)
    ensures |profile.overview| == |df|
    ensures forall i :: 0 <= i < |df| ==> profile.overview[i] == ProfileOf(df[i], samples[i])
    ensures profile.insights == InsightsOf(profile.overview)
    ensures profile.hasCorrelations <==> TwoSatisfy(df, IsNumericColumn)
  {
    var overview: seq<ColumnProfile> := [];
    var insights: seq<Insight> := [];
    var i := 0;
    while i < |df|
      invariant 0 <= i <= |df| && |overview| == i
      invariant forall k :: 0 <= k < i ==> overview[k] == ProfileOf(df[k], samples[k])
      invariant insights == InsightsOf(overview)
    {
      var c := df[i];
      var p := ProfileColumn(c, samples[i]);
      insights := AppendInsights(insights, c, p);
      assert (overview + [p])[..i] == overview;
      overview := overview + [p];
      i := i + 1;
    }
    CountIfTwo(df, IsNumericColumn);
    profile := Profile(overview, CountIf(df, IsNumericColumn) > 1, insights);
  }
}

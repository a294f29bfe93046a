/**
 * A data frame as the profiler and the chat helpers see it: named columns
 * of optional cells. A cell keeps its `str()` form and the number that
 * `pd.to_numeric(..., errors='coerce')` makes of it (`None` when coercion
 * gives NaN).
 */
module Frame {
  import opened Wrappers
  import opened Seqs

  datatype Cell = Cell(text: string, num: Option<real>)

  /** Whether `pd.api.types.is_numeric_dtype` holds for a column. */
  datatype Kind = NumericKind | OtherKind

  datatype Column = Column(name: string, kind: Kind, cells: seq<Option<Cell>>)

  /** `.astype(str)` of a run of cells. */
  function Texts(cs: seq<Cell>): (r: seq<string>)
    ensures |r| == |cs|
    ensures forall i :: 0 <= i < |cs| ==> r[i] == cs[i].text
  {
    if cs == [] then [] else [cs[0].text] + Texts(cs[1..])
  }

  /** `series.dropna().astype(str)`. */
  function PresentTexts(cells: seq<Option<Cell>>): seq<string> {
    Texts(NonNull(cells))
  }

  /** `pd.to_numeric(series, errors='coerce').dropna()`, in column order. */
  function Numbers(cells: seq<Option<Cell>>): (xs: seq<real>)
    ensures |xs| <= |cells| - NullCount(cells)
    ensures forall x :: x in xs ==> exists c :: Some(c) in cells && c.num == Some(x)
  {
    if cells == [] then []
    else
      var rest := Numbers(cells[1..]);
      assert forall c :: Some(c) in cells[1..] ==> Some(c) in cells;
      match cells[0]
      case Some(Cell(_, Some(x))) => [x] + rest
      case _ => rest
  }

  /** A missing or non-numeric cell gives no number, and a numeric cell gives its number. */
  lemma NumbersCell(c: Option<Cell>)
    ensures Numbers([c]) == if c.Some? && c.value.num.Some? then [c.value.num.value] else []
  {
    assert [c][1..] == [];
  }

  /**
   * Coercion and `dropna()` distribute over `+`; with `NumbersCell` this
   * keeps each present number once per occurrence, in column order.
   */
  lemma {:induction false} NumbersConcat(a: seq<Option<Cell>>, b: seq<Option<Cell>>)
    ensures Numbers(a + b) == Numbers(a) + Numbers(b)
  {
    if a == [] {
      assert a + b == b;
    } else {
      assert (a + b)[0] == a[0] && (a + b)[1..] == a[1..] + b;
      NumbersConcat(a[1..], b);
    }
  }

  /** Every present cell of a numeric column holds a number, as a numeric dtype guarantees. */
  ghost predicate WellKinded(c: Column) {
    c.kind == NumericKind ==> forall i :: 0 <= i < |c.cells| && c.cells[i].Some? ==> c.cells[i].value.num.Some?
  }

  lemma {:induction false} NumbersCount(cells: seq<Option<Cell>>)
    requires forall i :: 0 <= i < |cells| && cells[i].Some? ==> cells[i].value.num.Some?
    ensures |Numbers(cells)| == |cells| - NullCount(cells)
  {
    if cells != [] {
      NumbersCount(cells[1..]);
      assert forall i :: 1 <= i < |cells| ==> cells[i] == cells[1..][i - 1];
    }
  }

  /** Each present cell's number, pairwise, after one more cell in front. */
  lemma ConsNumbers(xs: seq<real>, x: real, ys: seq<Cell>, y: Cell)
    requires |xs| == |ys| && forall i :: 0 <= i < |xs| ==> ys[i].num == Some(xs[i])
    requires y.num == Some(x)
    ensures |[x] + xs| == |[y] + ys|
    ensures forall i :: 0 <= i < |[x] + xs| ==> ([y] + ys)[i].num == Some(([x] + xs)[i])
  {
  }

  /**
   * In a column whose present cells are all numbers, coercion drops exactly
   * the missing cells: the numbers are those of the present cells, in order.
   */
  lemma {:induction false} NumbersOfNumeric(cells: seq<Option<Cell>>)
    requires forall i :: 0 <= i < |cells| && cells[i].Some? ==> cells[i].value.num.Some?
    ensures |Numbers(cells)| == |cells| - NullCount(cells)
    ensures |Numbers(cells)| == |NonNull(cells)|
    ensures forall i :: 0 <= i < |Numbers(cells)| ==> NonNull(cells)[i].num == Some(Numbers(cells)[i])
  {
    NumbersCount(cells);
    if cells != [] {
      var rest := cells[1..];
      assert forall i :: 1 <= i < |cells| ==> cells[i] == rest[i - 1];
      NumbersOfNumeric(rest);
      if cells[0].Some? {
        var c := cells[0].value;
        assert NonNull(cells) == [c] + NonNull(rest);
        assert Numbers(cells) == [c.num.value] + Numbers(rest);
        ConsNumbers(Numbers(rest), c.num.value, NonNull(rest), c);
      }
    }
  }

  /** No two columns share a name (`df[col]` is then a single column). */
  predicate DistinctNames(df: seq<Column>) {
    forall i, j :: 0 <= i < j < |df| ==> df[i].name != df[j].name
  }
}

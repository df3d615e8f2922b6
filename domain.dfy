/**
 * The option lists and the year slider the dashboard builds once from the
 * normalised frame: the sorted genre and type choices, the range of known
 * release years, and the slider's tick marks.
 */
module Domain {
  import opened Text
  import opened Table
  import Seqs

  function GenresOf(r: Record): seq<string> {
    r.genres
  }

  /** Every genre tag of every row, with repetitions. */
  function AllGenres(df: seq<Record>): seq<string> {
    Seqs.Flatten(Seqs.Map(df, GenresOf))
  }

  /** The genre dropdown's options: each tag some row carries, once and sorted. */
  function GenreOptions(df: seq<Record>): (r: seq<string>)
    ensures StrictlySorted(r)
    ensures forall g :: g in r <==> exists i :: 0 <= i < |df| && g in df[i].genres
  {
    var r := SortedSet(AllGenres(df));
    forall g ensures g in r <==> exists i :: 0 <= i < |df| && g in df[i].genres {
      Seqs.FlattenMembers(Seqs.Map(df, GenresOf), g);
    }
    r
  }

  /** `fillna("Unknown")` on a type cell. */
  function TypeLabel(c: Cell): string {
    match c
    case Null => "Unknown"
    case Str(s) => s
  }

  function TypeLabelOf(r: Record): string {
    TypeLabel(r.kind)
  }

  /** The type dropdown's options: each type label once, sorted. */
  function TypeOptions(df: seq<Record>): (r: seq<string>)
    ensures StrictlySorted(r)
    ensures forall t :: t in r <==> exists i :: 0 <= i < |df| && TypeLabel(df[i].kind) == t
  {
    var labels := Seqs.Map(df, TypeLabelOf);
    var r := SortedSet(labels);
    assert forall t :: t in labels <==> exists i :: 0 <= i < |df| && labels[i] == t;
    r
  }

  function YearOf(r: Record): int {
    r.year
  }

  predicate Known(y: int) {
    y >= 0
  }

  /** The rows' years other than the unknown-year sentinel, in row order. */
  function ValidYears(df: seq<Record>): (r: seq<int>)
    ensures |r| <= |df|
    ensures forall y :: y in r ==> Known(y)
  {
    Seqs.Where(Seqs.Map(df, YearOf), Known)
  }

  /** A valid year is exactly the non-negative year of some row. */
  lemma ValidYearsMembers(df: seq<Record>, y: int)
    ensures y in ValidYears(df) <==> y >= 0 && exists i :: 0 <= i < |df| && df[i].year == y
  {
    var ys := Seqs.Map(df, YearOf);
    Seqs.WhereMembers(ys, Known, y);
    assert y in ys <==> exists i :: 0 <= i < |df| && ys[i] == y;
  }

  function Min(s: seq<int>): (m: int)
    requires s != []
    ensures m in s && forall x :: x in s ==> m <= x
  {
    if |s| == 1 then s[0]
    else
      var m := Min(s[1..]);
      assert s == [s[0]] + s[1..];
      if s[0] <= m then s[0] else m
  }

  function Max(s: seq<int>): (m: int)
    requires s != []
    ensures m in s && forall x :: x in s ==> x <= m
  {
    if |s| == 1 then s[0]
    else
      var m := Max(s[1..]);
      assert s == [s[0]] + s[1..];
      if s[0] >= m then s[0] else m
  }

  /**
   * The slider's bounds: the smallest and largest valid year, or 1900 and
   * 2025 when no row has a valid year.
   */
  function YearBounds(df: seq<Record>): (b: (int, int))
    ensures b.0 <= b.1
    ensures ValidYears(df) == [] ==> b == (1900, 2025)
    ensures ValidYears(df) != [] ==>
              && b.0 in ValidYears(df) && b.1 in ValidYears(df)
              && forall y :: y in ValidYears(df) ==> b.0 <= y <= b.1
  {
    var v := ValidYears(df);
    if v == [] then (1900, 2025) else (Min(v), Max(v))
  }

  /** Ticks every 5 years on a range wider than 20 years, every year otherwise. */
  function MarkStep(lo: int, hi: int): (s: int)
    ensures s == 1 || s == 5
    ensures s == 5 <==> hi - lo > 20
  {
    if hi - lo > 20 then 5 else 1
  }

  /** Python's `range(a, b, step)` for a positive step. */
  function Range(a: int, b: int, step: int): (r: seq<int>)
    requires step > 0
    ensures forall y :: y in r ==> a <= y < b
    decreases b - a
  {
    if a >= b then [] else [a] + Range(a + step, b, step)
  }

  /**
   * `range(a, b, step)` starts at `a`, climbs by `step`, stays below `b`,
   * and stops only once one more step would reach `b`.
   */
  lemma {:induction false} RangeShape(a: int, b: int, step: int)
    requires step > 0
    ensures a >= b <==> Range(a, b, step) == []
    ensures a < b ==> Range(a, b, step)[0] == a && b <= Range(a, b, step)[|Range(a, b, step)| - 1] + step
    ensures forall i :: 0 <= i < |Range(a, b, step)| ==> a <= Range(a, b, step)[i] < b
    ensures forall i :: 0 <= i < |Range(a, b, step)| - 1 ==> Range(a, b, step)[i + 1] == Range(a, b, step)[i] + step
    decreases b - a
  {
    if a < b {
      var r := Range(a, b, step);
      var t := Range(a + step, b, step);
      RangeShape(a + step, b, step);
      assert r == [a] + t;
      assert forall i :: 0 < i < |r| ==> r[i] == t[i - 1];
    }
  }

  /** The `i`-th year of `range(a, b, step)` is `a + i * step`. */
  lemma {:induction false} RangeGrid(a: int, b: int, step: int, i: nat)
    requires step > 0 && i < |Range(a, b, step)|
    ensures Range(a, b, step)[i] == a + i * step
  {
    RangeShape(a, b, step);
    if i > 0 {
      RangeGrid(a, b, step, i - 1);
      assert (i - 1) * step + step == i * step;
    }
  }

  /** When `start <= end`, every year of the tick schedule lies in `[start, end]`. */
  lemma MarksWithin(start: int, end: int, step: int, y: int)
    requires step > 0 && start <= end
    requires y in Range(start, end + 1, step) || y == start || y == end
    ensures start <= y <= end
  {
    RangeShape(start, end + 1, step);
  }

  /**
   * `make_marks`: a label `str(y)` for every year of
   * `range(start, end + 1, step)`, and for `start` and `end` themselves.
   */
  method MakeMarks(start: int, end: int, step: int) returns (marks: map<int, string>)
    requires step > 0
    ensures forall y :: y in marks <==> y in Range(start, end + 1, step) || y == start || y == end
    ensures forall y :: y in marks ==> marks[y] == Decimal(y)
  {
    marks := RangeMarks(start, end + 1, step);
    marks := marks[start := Decimal(start)];
    marks := marks[end := Decimal(end)];
  }

  /** The labels of the years of `range(a, b, step)`, added one by one. */
  method RangeMarks(a: int, b: int, step: int) returns (marks: map<int, string>)
    requires step > 0
    ensures forall y :: y in marks <==> y in Range(a, b, step)
    ensures forall y :: y in marks ==> marks[y] == Decimal(y)
  {
    marks := map[];
    var y := a;
    ghost var done: seq<int> := [];
    while y < b
      invariant done + Range(y, b, step) == Range(a, b, step)
      invariant forall x :: x in marks <==> x in done
      invariant forall x :: x in marks ==> marks[x] == Decimal(x)
      decreases b - y
    {
      assert Range(y, b, step) == [y] + Range(y + step, b, step);
      assert done + Range(y, b, step) == (done + [y]) + Range(y + step, b, step);
      marks := marks[y := Decimal(y)];
      done := done + [y];
      y := y + step;
    }
    assert Range(y, b, step) == [];
    assert done == Range(a, b, step);
  }

  /**
   * The year slider: its bounds, and the tick labels every 5 or every
   * year between them.
   */
  method YearSlider(df: seq<Record>) returns (lo: int, hi: int, marks: map<int, string>)
    ensures (lo, hi) == YearBounds(df)
    ensures forall y :: y in marks <==> y in Range(lo, hi + 1, MarkStep(lo, hi)) || y == lo || y == hi
    ensures forall y :: y in marks ==> lo <= y <= hi && marks[y] == Decimal(y)
  {
    var bounds := YearBounds(df);
    lo, hi := bounds.0, bounds.1;
    var step := MarkStep(lo, hi);
    marks := MakeMarks(lo, hi, step);
    forall y | y in marks ensures lo <= y <= hi {
      MarksWithin(lo, hi, step, y);
    }
  }
}

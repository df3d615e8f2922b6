/**
 * `filter_data`: the rows every callback works on, selected by the genre
 * dropdown, the type dropdown and the year slider, each applied only when
 * it holds a value.
 */
module Filter {
  import opened Wrappers
  import opened Table
  import Seqs

  /** A dropdown value Python treats as true: present and not the empty string. */
  predicate Truthy(v: Option<string>) {
    v.Some? && v.value != ""
  }

  /** The slider's value is used when it is a non-empty list of exactly two years. */
  predicate RangeGiven(yr: Option<seq<int>>) {
    yr.Some? && |yr.value| == 2
  }

  predicate GenreOk(g: Option<string>, r: Record) {
    Truthy(g) ==> g.value in r.genres
  }

  /** `type == selected`: a missing type never equals a selection. */
  predicate TypeOk(k: Option<string>, r: Record) {
    Truthy(k) ==> r.kind == Str(k.value)
  }

  /** Both ends of the slider are inclusive. */
  predicate YearOk(yr: Option<seq<int>>, r: Record) {
    RangeGiven(yr) ==> yr.value[0] <= r.year <= yr.value[1]
  }

  /** A row survives the three filters. */
  predicate Keeps(g: Option<string>, k: Option<string>, yr: Option<seq<int>>, r: Record) {
    GenreOk(g, r) && TypeOk(k, r) && YearOk(yr, r)
  }

  /** The genre mask: the selected genre is in the row's list (every row passes without a selection). */
  function GenreMask(g: Option<string>): Record -> bool {
    r => GenreOk(g, r)
  }

  /** The type mask: the row's type equals the selection (every row passes without a selection). */
  function TypeMask(k: Option<string>): Record -> bool {
    r => TypeOk(k, r)
  }

  /** The year mask: the year lies in the slider's range (every row passes without a usable range). */
  function YearMask(yr: Option<seq<int>>): Record -> bool {
    r => YearOk(yr, r)
  }

  /** The three masks together. */
  function KeepMask(g: Option<string>, k: Option<string>, yr: Option<seq<int>>): Record -> bool {
    r => Keeps(g, k, yr, r)
  }

  /** The filtered frame: the rows that survive, in their original order. */
  function Filtered(df: seq<Record>, g: Option<string>, k: Option<string>, yr: Option<seq<int>>): (r: seq<Record>)
    ensures |r| <= |df|
    ensures forall x :: x in r ==> x in df && Keeps(g, k, yr, x)
  {
    Seqs.Where(df, KeepMask(g, k, yr))
  }

  /**
   * `filter_data`: start from the whole frame and narrow it by each filter
   * that holds a value, genre first, then type, then year.
   */
  method FilterData(df: seq<Record>, g: Option<string>, k: Option<string>, yr: Option<seq<int>>)
      returns (filtered: seq<Record>)
    ensures filtered == Filtered(df, g, k, yr)
  {
    filtered := df;
    if Truthy(g) {
      filtered := Seqs.Where(filtered, GenreMask(g));
    } else {
      Seqs.WhereTrue(df, GenreMask(g));
    }
    ghost var afterGenre := filtered;
    if Truthy(k) {
      filtered := Seqs.Where(filtered, TypeMask(k));
    } else {
      Seqs.WhereTrue(afterGenre, TypeMask(k));
    }
    ghost var GenreType := (r: Record) => GenreOk(g, r) && TypeOk(k, r);
    Seqs.WhereWhere(df, GenreMask(g), TypeMask(k), GenreType);
    ghost var afterType := filtered;
    if RangeGiven(yr) {
      filtered := Seqs.Where(filtered, YearMask(yr));
    } else {
      Seqs.WhereTrue(afterType, YearMask(yr));
    }
    Seqs.WhereWhere(df, GenreType, YearMask(yr), KeepMask(g, k, yr));
  }

  /** A row is kept exactly when it is in the frame and passes every filter. */
  lemma FilteredMembers(df: seq<Record>, g: Option<string>, k: Option<string>, yr: Option<seq<int>>, r: Record)
    ensures r in Filtered(df, g, k, yr) <==> r in df && Keeps(g, k, yr, r)
  {
    Seqs.WhereMembers(df, KeepMask(g, k, yr), r);
  }

  /**
   * Filtering only deletes rows: the result keeps the frame's order, and a
   * kept row appears as often as in the frame.
   */
  lemma FilteredSubsequence(df: seq<Record>, g: Option<string>, k: Option<string>, yr: Option<seq<int>>)
    ensures Seqs.IsSubsequence(Filtered(df, g, k, yr), df)
    ensures forall r :: Keeps(g, k, yr, r) ==> multiset(Filtered(df, g, k, yr))[r] == multiset(df)[r]
  {
    Seqs.WhereIsSubsequence(df, KeepMask(g, k, yr));
    forall r | Keeps(g, k, yr, r) ensures multiset(Filtered(df, g, k, yr))[r] == multiset(df)[r] {
      Seqs.WhereMultiplicity(df, KeepMask(g, k, yr), r);
    }
  }

  /** Filtering an already filtered frame with the same values changes nothing. */
  lemma FilteredIdempotent(df: seq<Record>, g: Option<string>, k: Option<string>, yr: Option<seq<int>>)
    ensures Filtered(Filtered(df, g, k, yr), g, k, yr) == Filtered(df, g, k, yr)
  {
    var f := Filtered(df, g, k, yr);
    forall r | r in f ensures KeepMask(g, k, yr)(r) {
      FilteredMembers(df, g, k, yr, r);
    }
    Seqs.WhereTrue(f, KeepMask(g, k, yr));
  }

  /** With no genre, no type and no usable range, the whole frame is returned. */
  lemma FilteredNoSelection(df: seq<Record>, g: Option<string>, k: Option<string>, yr: Option<seq<int>>)
    requires !Truthy(g) && !Truthy(k) && !RangeGiven(yr)
    ensures Filtered(df, g, k, yr) == df
  {
    Seqs.WhereTrue(df, KeepMask(g, k, yr));
  }

  /** A slider range that starts at a known year never keeps an unknown-year row. */
  lemma FilteredDropsUnknownYear(df: seq<Record>, g: Option<string>, k: Option<string>, yr: Option<seq<int>>)
    requires RangeGiven(yr) && yr.value[0] >= 0
    ensures forall r :: r in Filtered(df, g, k, yr) ==> r.year >= 0
  {
    forall r | r in Filtered(df, g, k, yr) ensures r.year >= 0 {
      FilteredMembers(df, g, k, yr, r);
    }
  }

  /** An inverted slider range keeps nothing. */
  lemma FilteredInvertedRange(df: seq<Record>, g: Option<string>, k: Option<string>, yr: Option<seq<int>>)
    requires RangeGiven(yr) && yr.value[0] > yr.value[1]
    ensures Filtered(df, g, k, yr) == []
  {
    var f := Filtered(df, g, k, yr);
    if f != [] {
      FilteredMembers(df, g, k, yr, f[0]);
      assert false;
    }
  }
}

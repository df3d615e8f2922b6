/**
 * The dashboard's state and callbacks. Loading the module normalises the
 * frame once and derives the dropdown options and the year slider; every
 * callback then filters that frame by the three controls and aggregates
 * the result. Layout and figures are not modelled.
 */
module Dashboard {
  import opened Wrappers
  import opened Table
  import Text
  import Normalise
  import Domain
  import Filter
  import Aggregate
  import Seqs

  class Dashboard {
    /** The normalised frame. */
    const df: seq<Record>
    /** The genre and type dropdown options. */
    const genres: seq<string>
    const types: seq<string>
    /** The year slider's bounds and tick labels. */
    const yearMin: int
    const yearMax: int
    const yearMarks: map<int, string>

    /** Module load: normalise the frame, then index it. */
    constructor (t: RawTable)
      ensures |df| == |t.rows|
      ensures forall i :: 0 <= i < |df| ==> df[i] == Normalise.CanonicalRow(t.columns, t.rows[i])
      ensures genres == Domain.GenreOptions(df) && types == Domain.TypeOptions(df)
      ensures (yearMin, yearMax) == Domain.YearBounds(df)
      ensures forall y :: y in yearMarks <==>
                y in Domain.Range(yearMin, yearMax + 1, Domain.MarkStep(yearMin, yearMax)) || y == yearMin || y == yearMax
      ensures forall y :: y in yearMarks ==> yearMin <= y <= yearMax && yearMarks[y] == Text.Decimal(y)
    {
      var frame := Normalise.Normalise(t);
      var lo, hi, marks := Domain.YearSlider(frame);
      df := frame;
      genres := Domain.GenreOptions(frame);
      types := Domain.TypeOptions(frame);
      yearMin, yearMax := lo, hi;
      yearMarks := marks;
    }

    /** `update_kpis`. */
    method UpdateKpis(g: Option<string>, k: Option<string>, yr: Option<seq<int>>) returns (kpis: Aggregate.Kpis)
      ensures kpis == Aggregate.KpiCounts(Filter.Filtered(df, g, k, yr))
    {
      var f := Filter.FilterData(df, g, k, yr);
      kpis := Aggregate.KpiCounts(f);
    }

    /** `update_graph_year`. */
    method UpdateGraphYear(g: Option<string>, k: Option<string>, yr: Option<seq<int>>)
        returns (chart: Aggregate.YearHistogram)
      ensures chart == Aggregate.YearChart(Filter.Filtered(df, g, k, yr))
    {
      var f := Filter.FilterData(df, g, k, yr);
      chart := Aggregate.YearChart(f);
    }

    /** `update_genre_distribution`. */
    method UpdateGenreDistribution(g: Option<string>, k: Option<string>, yr: Option<seq<int>>)
        returns (chart: Aggregate.GenreBars)
      ensures chart == Aggregate.GenreChart(Filter.Filtered(df, g, k, yr))
    {
      var f := Filter.FilterData(df, g, k, yr);
      chart := Aggregate.GenreChart(f);
    }

    /** `update_pie`. */
    method UpdatePie(g: Option<string>, k: Option<string>, yr: Option<seq<int>>) returns (chart: Aggregate.TypePie)
      ensures chart == Aggregate.TypeChart(Filter.Filtered(df, g, k, yr))
    {
      var f := Filter.FilterData(df, g, k, yr);
      chart := Aggregate.TypeChart(f);
    }

    /** `update_insights`. */
    method UpdateInsights(g: Option<string>, k: Option<string>, yr: Option<seq<int>>) returns (box: Aggregate.Insights)
      ensures box == Aggregate.InsightsOf(Filter.Filtered(df, g, k, yr))
    {
      var f := Filter.FilterData(df, g, k, yr);
      box := Aggregate.InsightsOf(f);
    }
  }

  /**
   * With a genre selected and some title left, the selected genre has a
   * bar, and that bar counts at least one occurrence per filtered title.
   */
  lemma SelectedGenreBar(df: seq<Record>, g: Option<string>, k: Option<string>, yr: Option<seq<int>>)
    requires Filter.Truthy(g)
    requires Filter.Filtered(df, g, k, yr) != []
    ensures var c := Aggregate.GenreChart(Filter.Filtered(df, g, k, yr));
            c.GenreCounts? && g.value in c.counts && c.counts[g.value] >= |Filter.Filtered(df, g, k, yr)|
  {
    var f := Filter.Filtered(df, g, k, yr);
    forall r | r in f ensures g.value in r.genres {
      Filter.FilteredMembers(df, g, k, yr, r);
    }
    assert g.value in f[0].genres;
    OccurrencesAtLeast(Seqs.Map(f, Domain.GenresOf), g.value);
  }

  /** A value that is in every list occurs at least once per list. */
  lemma {:induction false} OccurrencesAtLeast(ls: seq<seq<string>>, x: string)
    requires forall i :: 0 <= i < |ls| ==> x in ls[i]
    ensures Seqs.Occurrences(ls, x) >= |ls|
  {
    if ls != [] {
      assert forall i :: 0 <= i < |ls[1..]| ==> ls[1..][i] == ls[i + 1];
      OccurrencesAtLeast(ls[1..], x);
      assert x in multiset(ls[0]);
    }
  }

  /**
   * With a type selected, the KPI card of that type counts every filtered
   * row and the card of the other type counts none.
   */
  lemma SelectedTypeKpis(df: seq<Record>, g: Option<string>, k: Option<string>, yr: Option<seq<int>>)
    requires Filter.Truthy(k)
    ensures var n := Aggregate.KpiCounts(Filter.Filtered(df, g, k, yr));
            && n.movies == (if k.value == "Movie" then n.total else 0)
            && n.tvshows == (if k.value == "TV Show" then n.total else 0)
  {
    var f := Filter.Filtered(df, g, k, yr);
    forall r | r in f ensures r.kind == Str(k.value) {
      Filter.FilteredMembers(df, g, k, yr, r);
    }
    OnlyKind(f, k.value, "Movie");
    OnlyKind(f, k.value, "TV Show");
  }

  /** Rows that all have type `t` hold `|f|` rows of type `t` and none of any other. */
  lemma OnlyKind(f: seq<Record>, t: string, u: string)
    requires forall r :: r in f ==> r.kind == Str(t)
    ensures |Seqs.Where(f, Aggregate.KindIs(u))| == if u == t then |f| else 0
  {
    if u == t {
      Seqs.WhereTrue(f, Aggregate.KindIs(u));
    } else {
      var w := Seqs.Where(f, Aggregate.KindIs(u));
      if w != [] {
        Seqs.WhereMembers(f, Aggregate.KindIs(u), w[0]);
        assert false;
      }
    }
  }
}

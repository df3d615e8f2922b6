/**
 * What each dashboard callback computes from the filtered rows: the three
 * KPI counts, the years fed to the histogram, the genre and type counts
 * behind the bar and pie charts, and the insights (most frequent country
 * and year).
 */
module Aggregate {
  import opened Wrappers
  import opened Text
  import opened Table
  import Seqs
  import Domain

  function KindOf(r: Record): Cell {
    r.kind
  }

  function CountryOf(r: Record): Cell {
    r.country
  }

  /** The type column of the rows, in order. */
  function Kinds(f: seq<Record>): seq<Cell> {
    Seqs.Map(f, KindOf)
  }

  /** `f["type"] == t` as a row mask. */
  function KindIs(t: string): Record -> bool {
    (r: Record) => r.kind == Str(t)
  }

  /** The number of rows selected by a type mask is the number of rows of that type. */
  lemma {:induction false} WhereKindCount(f: seq<Record>, t: string)
    ensures |Seqs.Where(f, KindIs(t))| == multiset(Kinds(f))[Str(t)]
  {
    if f != [] {
      WhereKindCount(f[1..], t);
      assert Kinds(f) == [f[0].kind] + Kinds(f[1..]);
    }
  }

  // ---------------------------------------------------------------------
  // update_kpis
  // ---------------------------------------------------------------------

  datatype Kpis = Kpis(total: nat, movies: nat, tvshows: nat)

  /**
   * The KPI cards: every row, the rows of type "Movie" and the rows of
   * type "TV Show"; the latter two never add up to more than the first.
   */
  function KpiCounts(f: seq<Record>): (k: Kpis)
    ensures k.total == |f|
    ensures k.movies == multiset(Kinds(f))[Str("Movie")]
    ensures k.tvshows == multiset(Kinds(f))[Str("TV Show")]
    ensures k.movies + k.tvshows <= k.total
  {
    WhereKindCount(f, "Movie");
    WhereKindCount(f, "TV Show");
    Seqs.WhereDisjoint(f, KindIs("Movie"), KindIs("TV Show"));
    Kpis(|f|, |Seqs.Where(f, KindIs("Movie"))|, |Seqs.Where(f, KindIs("TV Show"))|)
  }

  // ---------------------------------------------------------------------
  // update_graph_year
  // ---------------------------------------------------------------------

  /** The titles-per-year figure: one of two placeholders, or the years to bin. */
  datatype YearHistogram = NoData | NoValidData | Histogram(years: seq<int>)

  /**
   * An empty selection gives the "no data" placeholder; a selection whose
   * years are all unknown gives the "no valid data" one; otherwise the
   * histogram receives exactly the known years, each as often as it occurs.
   */
  function YearChart(f: seq<Record>): (c: YearHistogram)
    ensures c.NoData? <==> f == []
    ensures c.NoValidData? <==> f != [] && forall i :: 0 <= i < |f| ==> f[i].year < 0
    ensures c.Histogram? ==> c.years != [] && forall y :: y in c.years ==> y >= 0
    ensures c.Histogram? ==> forall y :: y >= 0 ==> multiset(c.years)[y] == multiset(Seqs.Map(f, Domain.YearOf))[y]
  {
    var valid := Domain.ValidYears(f);
    NoValidYears(f);
    forall y | y >= 0 ensures multiset(valid)[y] == multiset(Seqs.Map(f, Domain.YearOf))[y] {
      Seqs.WhereMultiplicity(Seqs.Map(f, Domain.YearOf), Domain.Known, y);
    }
    if f == [] then NoData
    else if valid == [] then NoValidData
    else Histogram(valid)
  }

  /** No known year is left exactly when every row's year is the sentinel or below. */
  lemma NoValidYears(f: seq<Record>)
    ensures Domain.ValidYears(f) == [] <==> forall i :: 0 <= i < |f| ==> f[i].year < 0
  {
    var valid := Domain.ValidYears(f);
    if valid != [] {
      Domain.ValidYearsMembers(f, valid[0]);
    }
    if exists i :: 0 <= i < |f| && f[i].year >= 0 {
      var i :| 0 <= i < |f| && f[i].year >= 0;
      Domain.ValidYearsMembers(f, f[i].year);
    }
  }

  // ---------------------------------------------------------------------
  // update_genre_distribution
  // ---------------------------------------------------------------------

  /** The genre bar chart: one of two placeholders, or a count per genre. */
  datatype GenreBars = NoGenreData | NoGenres | GenreCounts(counts: map<string, nat>)

  /**
   * After `explode`, `value_counts` (which skips the missing value an empty
   * list explodes to) counts each genre once per occurrence in a row's list.
   */
  function GenreChart(f: seq<Record>): (c: GenreBars)
    ensures c.NoGenreData? <==> f == []
    ensures c.NoGenres? <==> f != [] && forall i :: 0 <= i < |f| ==> f[i].genres == []
    ensures c.GenreCounts? ==> forall g :: g in c.counts <==> exists i :: 0 <= i < |f| && g in f[i].genres
    ensures c.GenreCounts? ==> forall g :: g in c.counts ==>
              c.counts[g] == Seqs.Occurrences(Seqs.Map(f, Domain.GenresOf), g)
  {
    var counts := Seqs.Tally(Domain.AllGenres(f));
    GenreTally(f, Seqs.Map(f, Domain.GenresOf), Domain.AllGenres(f), counts);
    if f == [] then NoGenreData
    else if counts == map[] then NoGenres
    else GenreCounts(counts)
  }

  /** The tally of the exploded genres, related to the rows' lists. */
  lemma GenreTally(f: seq<Record>, lists: seq<seq<string>>, exploded: seq<string>, counts: map<string, nat>)
    requires lists == Seqs.Map(f, Domain.GenresOf) && exploded == Domain.AllGenres(f)
    requires counts == Seqs.Tally(exploded)
    ensures forall g :: g in counts <==> exists i :: 0 <= i < |f| && g in f[i].genres
    ensures forall g :: g in counts ==> counts[g] == Seqs.Occurrences(lists, g)
    ensures counts == map[] <==> forall i :: 0 <= i < |f| ==> f[i].genres == []
  {
    ExplodedMembers(f, lists, exploded);
    ExplodedOccurrences(lists, exploded);
    NoGenresFound(f);
    if exploded != [] {
      assert exploded[0] in counts;
    }
  }

  lemma ExplodedMembers(f: seq<Record>, lists: seq<seq<string>>, exploded: seq<string>)
    requires lists == Seqs.Map(f, Domain.GenresOf) && exploded == Seqs.Flatten(lists)
    ensures forall g :: g in exploded <==> exists i :: 0 <= i < |f| && g in f[i].genres
  {
    forall g ensures g in exploded <==> exists i :: 0 <= i < |f| && g in f[i].genres {
      Seqs.FlattenMembers(lists, g);
    }
  }

  lemma ExplodedOccurrences(lists: seq<seq<string>>, exploded: seq<string>)
    requires exploded == Seqs.Flatten(lists)
    ensures forall g :: multiset(exploded)[g] == Seqs.Occurrences(lists, g)
  {
    forall g ensures multiset(exploded)[g] == Seqs.Occurrences(lists, g) {
      Seqs.FlattenOccurrences(lists, g);
    }
  }

  /** Exploding yields no genre exactly when every row's list is empty. */
  lemma NoGenresFound(f: seq<Record>)
    ensures Domain.AllGenres(f) == [] <==> forall i :: 0 <= i < |f| ==> f[i].genres == []
  {
    var lists := Seqs.Map(f, Domain.GenresOf);
    var exploded := Domain.AllGenres(f);
    if exploded != [] {
      Seqs.FlattenMembers(lists, exploded[0]);
    }
    if exists i :: 0 <= i < |f| && f[i].genres != [] {
      var i :| 0 <= i < |f| && f[i].genres != [];
      Seqs.FlattenMembers(lists, f[i].genres[0]);
    }
  }

  // ---------------------------------------------------------------------
  // update_pie
  // ---------------------------------------------------------------------

  /** The values of the non-missing cells, in order (`dropna`). */
  function StrTexts(cs: seq<Cell>): (r: seq<string>)
    ensures |r| <= |cs|
  {
    if cs == [] then []
    else (if cs[0].Str? then [cs[0].s] else []) + StrTexts(cs[1..])
  }

  /** Dropping missing cells keeps every occurrence of every string. */
  lemma {:induction false} StrTextsCount(cs: seq<Cell>, t: string)
    ensures multiset(StrTexts(cs))[t] == multiset(cs)[Str(t)]
  {
    if cs != [] {
      StrTextsCount(cs[1..], t);
      StrTextsStep(cs, cs[0], cs[1..], t);
    }
  }

  lemma StrTextsStep(cs: seq<Cell>, c: Cell, rest: seq<Cell>, t: string)
    requires cs != [] && c == cs[0] && rest == cs[1..]
    requires multiset(StrTexts(rest))[t] == multiset(rest)[Str(t)]
    ensures multiset(StrTexts(cs))[t] == multiset(cs)[Str(t)]
  {
    assert cs == [c] + rest;
    assert multiset(cs) == multiset{c} + multiset(rest);
    if c.Str? {
      assert StrTexts(cs) == [c.s] + StrTexts(rest);
      assert multiset(StrTexts(cs)) == multiset{c.s} + multiset(StrTexts(rest));
      assert (c == Str(t)) == (c.s == t);
    } else {
      assert StrTexts(cs) == StrTexts(rest);
      assert c != Str(t);
    }
  }

  /** The type pie chart: one of two placeholders, or a count per type. */
  datatype TypePie = NoPieData | NoTypes | TypeCounts(counts: map<string, nat>)

  /**
   * `value_counts` of the type column: a slice per type that some row has,
   * sized by its number of rows; rows with a missing type are not counted.
   */
  function TypeChart(f: seq<Record>): (c: TypePie)
    ensures c.NoPieData? <==> f == []
    ensures c.NoTypes? <==> f != [] && forall i :: 0 <= i < |f| ==> f[i].kind == Null
    ensures c.TypeCounts? ==> forall t :: t in c.counts <==> Str(t) in Kinds(f)
    ensures c.TypeCounts? ==> forall t :: t in c.counts ==> c.counts[t] == multiset(Kinds(f))[Str(t)]
  {
    var counts := Seqs.Tally(StrTexts(Kinds(f)));
    TypeTally(f, Kinds(f), StrTexts(Kinds(f)), counts);
    if f == [] then NoPieData
    else if counts == map[] then NoTypes
    else TypeCounts(counts)
  }

  /** The tally of the present types, related to the type column. */
  lemma TypeTally(f: seq<Record>, kinds: seq<Cell>, labels: seq<string>, counts: map<string, nat>)
    requires kinds == Kinds(f) && labels == StrTexts(kinds) && counts == Seqs.Tally(labels)
    ensures forall t :: t in counts <==> Str(t) in kinds
    ensures forall t :: t in counts ==> counts[t] == multiset(kinds)[Str(t)]
    ensures counts == map[] <==> forall i :: 0 <= i < |f| ==> f[i].kind == Null
  {
    forall t ensures multiset(labels)[t] == multiset(kinds)[Str(t)] {
      StrTextsCount(kinds, t);
    }
    NoTypesFound(f);
    if labels != [] {
      assert labels[0] in counts;
    }
  }

  /** Dropping missing types leaves nothing exactly when every type is missing. */
  lemma NoTypesFound(f: seq<Record>)
    ensures StrTexts(Kinds(f)) == [] <==> forall i :: 0 <= i < |f| ==> f[i].kind == Null
  {
    var labels := StrTexts(Kinds(f));
    if labels != [] {
      StrTextsCount(Kinds(f), labels[0]);
      assert Str(labels[0]) in multiset(Kinds(f));
      var i :| 0 <= i < |f| && Kinds(f)[i] == Str(labels[0]);
    }
    if exists i :: 0 <= i < |f| && f[i].kind != Null {
      var i :| 0 <= i < |f| && f[i].kind != Null;
      assert Kinds(f)[i] in Kinds(f);
      StrTextsCount(Kinds(f), f[i].kind.s);
    }
  }

  /** The KPI cards and the pie chart agree on the number of movies and shows. */
  lemma KpisMatchPie(f: seq<Record>, t: string)
    requires TypeChart(f).TypeCounts?
    requires t == "Movie" || t == "TV Show"
    ensures var n := if t in TypeChart(f).counts then TypeChart(f).counts[t] else 0;
            n == if t == "Movie" then KpiCounts(f).movies else KpiCounts(f).tvshows
  {
    var c := TypeChart(f);
    if t !in c.counts {
      assert Str(t) !in Kinds(f);
    }
  }

  // ---------------------------------------------------------------------
  // update_insights
  // ---------------------------------------------------------------------

  /** The insights box: a placeholder, or the summary of the selection. */
  datatype Insights = NoTitles | Summary(topCountry: Option<string>, topYear: Option<int>, total: nat)

  /** The number of rows whose country is `c`. */
  function CountryCount(f: seq<Record>, c: string): nat {
    multiset(Seqs.Map(f, CountryOf))[Str(c)]
  }

  /** The number of rows whose year is `y`. */
  function YearCount(f: seq<Record>, y: int): nat {
    multiset(Seqs.Map(f, Domain.YearOf))[y]
  }

  function IntLess(a: int, b: int): bool {
    a < b
  }

  lemma StrLessStrictTotal(xs: seq<string>)
    ensures Seqs.StrictTotalOn(xs, StrLess)
  {
    forall a | a in xs ensures !StrLess(a, a) {
      StrLessIrreflexive(a);
    }
    forall a, b | a in xs && b in xs && a != b ensures StrLess(a, b) || StrLess(b, a) {
      StrLessTotal(a, b);
    }
    forall a, b, c | a in xs && b in xs && c in xs && StrLess(a, b) && StrLess(b, c) ensures StrLess(a, c) {
      StrLessTransitive(a, b, c);
    }
  }

  /** The most frequent country: the least of the tied ones, and none when every country is missing. */
  function TopCountry(f: seq<Record>): (top: Option<string>)
    ensures top.None? <==> forall i :: 0 <= i < |f| ==> f[i].country == Null
    ensures top.Some? ==>
              && CountryCount(f, top.value) > 0
              && (forall d :: CountryCount(f, d) <= CountryCount(f, top.value))
              && (forall d :: d != top.value && CountryCount(f, d) == CountryCount(f, top.value) ==> StrLess(top.value, d))
  {
    var names := StrTexts(Seqs.Map(f, CountryOf));
    CountryNames(f, Seqs.Map(f, CountryOf), names);
    StrLessStrictTotal(names);
    Seqs.Mode(names, StrLess)
  }

  /** The present countries, each as often as rows name it. */
  lemma CountryNames(f: seq<Record>, cells: seq<Cell>, names: seq<string>)
    requires cells == Seqs.Map(f, CountryOf) && names == StrTexts(cells)
    ensures forall d :: multiset(names)[d] == CountryCount(f, d)
    ensures names == [] <==> forall i :: 0 <= i < |f| ==> f[i].country == Null
  {
    forall d ensures multiset(names)[d] == CountryCount(f, d) {
      StrTextsCount(cells, d);
    }
    NoCountries(f);
  }

  lemma NoCountries(f: seq<Record>)
    ensures StrTexts(Seqs.Map(f, CountryOf)) == [] <==> forall i :: 0 <= i < |f| ==> f[i].country == Null
  {
    var cells := Seqs.Map(f, CountryOf);
    var names := StrTexts(cells);
    if names != [] {
      StrTextsCount(cells, names[0]);
      assert Str(names[0]) in multiset(cells);
      var i :| 0 <= i < |f| && cells[i] == Str(names[0]);
    }
    if exists i :: 0 <= i < |f| && f[i].country != Null {
      var i :| 0 <= i < |f| && f[i].country != Null;
      assert cells[i] in cells;
      StrTextsCount(cells, f[i].country.s);
    }
  }

  /** The most frequent known year: the earliest of the tied ones, and none when no year is known. */
  function TopYear(f: seq<Record>): (top: Option<int>)
    ensures top.None? <==> forall i :: 0 <= i < |f| ==> f[i].year < 0
    ensures top.Some? ==>
              && top.value >= 0 && YearCount(f, top.value) > 0
              && (forall z :: z >= 0 ==> YearCount(f, z) <= YearCount(f, top.value))
              && (forall z :: z >= 0 && z != top.value && YearCount(f, z) == YearCount(f, top.value) ==> top.value < z)
  {
    var years := Domain.ValidYears(f);
    assert Seqs.StrictTotalOn(years, IntLess);
    forall z | z >= 0 ensures multiset(years)[z] == YearCount(f, z) {
      Seqs.WhereMultiplicity(Seqs.Map(f, Domain.YearOf), Domain.Known, z);
    }
    NoValidYears(f);
    Seqs.Mode(years, IntLess)
  }

  /**
   * The insights box: a placeholder for an empty selection; otherwise the
   * most frequent country and year (shown as "N/A" when there is none) and
   * the number of titles.
   */
  function InsightsOf(f: seq<Record>): (s: Insights)
    ensures s.NoTitles? <==> f == []
    ensures s.Summary? ==> s.total == |f| && s.topCountry == TopCountry(f) && s.topYear == TopYear(f)
  {
    if |f| == 0 then NoTitles else Summary(TopCountry(f), TopYear(f), |f|)
  }
}

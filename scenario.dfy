/**
 * A worked frame of three titles: a 2020 drama film, a 2020 comedy-drama
 * series, and a film whose year did not parse (so it holds -1) and whose
 * genre list arrived as an empty list (which is kept as it is).
 */
module Scenario {
  import opened Wrappers
  import opened Table
  import Text
  import Literal
  import Seqs
  import Normalise
  import Domain
  import Filter
  import Aggregate

  predicate ThreeTitles(a: Record, b: Record, c: Record) {
    && a == Record(Str("A"), Str("Movie"), Str("Unknown"), 2020, ["Drama"])
    && b == Record(Str("B"), Str("TV Show"), Str("Unknown"), 2020, ["Comedy", "Drama"])
    && c == Record(Str("C"), Str("Movie"), Str("Unknown"), -1, [])
  }

  /**
   * The third title as loaded: its year cell holds text that is no number
   * and its genre cell an empty list. Normalised, the year is the sentinel
   * and the genre list stays empty rather than becoming `["Unknown"]`.
   */
  lemma ThirdTitleNormalised(columns: set<Column>, year: string, r: RawRow)
    requires ReleaseYear in columns && ListedIn in columns
    requires |year| > 0 && year[0] == 'b'
    requires r == RawRow(Str("C"), Str("Movie"), Str("Unknown"), YearText(year), GenreList([]), [])
    ensures Normalise.CanonicalRow(columns, r).year == -1
    ensures Normalise.CanonicalRow(columns, r).genres == []
  {
    Normalise.CoerceYearRejects(year, 0);
  }

  /**
   * A year written with a leading no-break space is no number to the
   * numeric parser, so it becomes the sentinel; with a leading ASCII space
   * it is read as the year.
   */
  lemma WideSpaceYear(wide: string, ascii: string)
    requires wide == "\U{A0}2020" && ascii == " 2020"
    ensures Normalise.CoerceYear(YearText(wide)) == -1
    ensures Normalise.CoerceYear(YearText(ascii)) == 2020
  {
    Normalise.CoerceYearRejects(wide, 0);
    AsciiSpaceYear(ascii);
  }

  lemma AsciiSpaceYear(t: string)
    requires t == " 2020"
    ensures Text.ParseInt(t) == Some(2020) && !Text.HasWideSpace(t)
  {
    var d := t[1..];
    assert d == "2020";
    assert Text.Lead(d) == 0 && Text.Lead(t) == 1 && Text.Trail(t) == 0;
    assert Text.Strip(t) == d;
    YearDigits(d);
    forall k | 0 <= k < |t| ensures !Text.IsWideSpace(t[k]) {
    }
  }

  lemma YearDigits(d: string)
    requires d == "2020"
    ensures Text.ParseSigned(d) == Some(2020)
  {
    assert Text.AllDigits(d);
    var d3, d2, d1 := d[..3], d[..2], d[..1];
    assert d3[..2] == d2 && d2[..1] == d1 && d1[..0] == [];
    assert Text.DigitsValue(d1) == 2;
    assert Text.DigitsValue(d2) == 20;
    assert Text.DigitsValue(d3) == 202;
    assert Text.DigitsValue(d) == 2020;
  }

  /**
   * A form feed resets the tokenizer's column, so blanks that end with one
   * leave the first token unindented.
   */
  lemma FormFeedAccepted(s: string)
    requires s == "\U{0C}7"
    ensures Literal.IndentAccepted(s) && Literal.SkipBlanks(s) == "7"
  {
    assert Literal.SkipBlanks(s[1..]) == "7";
    assert s[..1] == "\U{0C}";
  }

  /**
   * A space after the form feed leaves the first token indented, so the text
   * is no literal and takes the comma split.
   */
  lemma FormFeedIndented(t: string)
    requires t == "\U{0C} 'a'"
    ensures !Literal.IndentAccepted(t)
    ensures Normalise.SafeList(GenreText(t)) == Normalise.SplitTags(t)
  {
    IndentedBlanks(t);
    Normalise.SafeListUncompilable(t);
  }

  lemma IndentedBlanks(t: string)
    requires t == "\U{0C} 'a'"
    ensures !Literal.IndentAccepted(t)
  {
    assert Literal.SkipBlanks(t[2..]) == "'a'";
    assert Literal.SkipBlanks(t) == "'a'";
    assert t[..2] == "\U{0C} ";
  }

  /** The slider at 2020-2020 keeps the two titles of 2020, in order. */
  lemma ThreeTitlesFilter(a: Record, b: Record, c: Record)
    requires ThreeTitles(a, b, c)
    ensures Filter.Filtered([a, b, c], None, None, Some([2020, 2020])) == [a, b]
  {
    var p := Filter.KeepMask(None, None, Some([2020, 2020]));
    assert p(a) && p(b) && !p(c);
    var s := [a, b, c];
    assert s[1..] == [b, c] && s[1..][1..] == [c] && s[1..][1..][1..] == [];
    assert Seqs.Where([c], p) == [];
    assert Seqs.Where([b, c], p) == [b];
  }

  /** The cards show three titles, two films and one series. */
  lemma ThreeTitlesKpis(a: Record, b: Record, c: Record)
    requires ThreeTitles(a, b, c)
    ensures Aggregate.KpiCounts([a, b, c]) == Aggregate.Kpis(3, 2, 1)
  {
    var kinds := Aggregate.Kinds([a, b, c]);
    assert kinds == [Str("Movie"), Str("TV Show"), Str("Movie")];
    assert multiset(kinds) == multiset{Str("Movie"), Str("Movie"), Str("TV Show")};
  }

  /**
   * Drama is counted twice and Comedy once; the empty list contributes no
   * bar, so there is no "Unknown" bar.
   */
  lemma ThreeTitlesGenres(a: Record, b: Record, c: Record)
    requires ThreeTitles(a, b, c)
    ensures var bars := Aggregate.GenreChart([a, b, c]);
            && bars.GenreCounts?
            && "Drama" in bars.counts && bars.counts["Drama"] == 2
            && "Comedy" in bars.counts && bars.counts["Comedy"] == 1
            && "Unknown" !in bars.counts
  {
    var f := [a, b, c];
    var lists := Seqs.Map(f, Domain.GenresOf);
    assert lists == [["Drama"], ["Comedy", "Drama"], []];
    GenreOccurrences(lists);
    assert "Drama" in f[0].genres && "Comedy" in f[1].genres;
    assert forall i :: 0 <= i < 3 ==> "Unknown" !in f[i].genres;
  }

  lemma GenreOccurrences(lists: seq<seq<string>>)
    requires lists == [["Drama"], ["Comedy", "Drama"], []]
    ensures Seqs.Occurrences(lists, "Drama") == 2 && Seqs.Occurrences(lists, "Comedy") == 1
  {
    assert lists[1..] == [["Comedy", "Drama"], []] && lists[1..][1..] == [[]];
    assert "Comedy" != "Drama" by { assert |"Comedy"| != |"Drama"|; }
    assert multiset(lists[0]) == multiset{"Drama"};
    assert multiset(lists[1]) == multiset{"Comedy", "Drama"};
    assert Seqs.Occurrences(lists[1..][1..], "Drama") == 0;
    assert Seqs.Occurrences(lists[1..][1..], "Comedy") == 0;
  }
}

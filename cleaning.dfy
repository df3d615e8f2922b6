/**
 * `clean_data`: the offline step that turns the raw catalog into the
 * cleaned CSV. It drops duplicate rows, converts `release_year` to an
 * integer and splits `listed_in` on commas. pandas raises on a missing
 * column or on a value it cannot convert; the model returns those as
 * errors.
 */
module Cleaning {
  import opened Wrappers
  import opened Text
  import opened Table
  import Seqs

  /** A cleaned row: the year is an integer and the genres a list of fragments. */
  datatype CleanRow = CleanRow(title: Cell, kind: Cell, country: Cell, year: int,
                               genres: seq<string>, others: seq<Cell>)

  /** The exceptions `clean_data` can raise. */
  datatype CleanError =
    | Unhashable                   // TypeError: drop_duplicates meets a list cell
    | MissingColumn(name: string)  // KeyError on an absent column
    | NotAnInteger                 // astype(int) on a missing, non-integer or out-of-range value
    | NotAString                   // .split on a value that is not a string

  const Int64Min: int := -0x8000_0000_0000_0000
  const Int64Max: int := 0x7FFF_FFFF_FFFF_FFFF

  /** The values an `int64` column can hold. */
  predicate InInt64(n: int) {
    Int64Min <= n <= Int64Max
  }

  /**
   * `astype(int)` on one release-year cell: a number stays; text must read
   * as an integer that fits in 64 bits (wider text raises OverflowError).
   */
  function IntCast(y: YearCell): (r: Option<int>)
    ensures y.YearNull? ==> r.None?
    ensures y.YearInt? ==> r == Some(y.n)
    ensures y.YearText? ==> (r.Some? <==> ParseInt(y.t).Some? && InInt64(ParseInt(y.t).value))
    ensures y.YearText? && r.Some? ==> r == ParseInt(y.t)
  {
    match y
    case YearNull => None
    case YearInt(n) => Some(n)
    case YearText(s) =>
      match ParseInt(s)
      case Some(n) => if InInt64(n) then Some(n) else None
      case None => None
  }

  function VisibleIn(columns: set<Column>): RawRow -> RawRow {
    r => Visible(columns, r)
  }

  /** `drop_duplicates()`: rows compared on every column the frame has. */
  function Deduped(t: RawTable): seq<RawRow> {
    Seqs.DropDuplicates(Seqs.Map(t.rows, VisibleIn(t.columns)))
  }

  /**
   * The genre column holds a Python list somewhere: `drop_duplicates`
   * hashes every cell and a list cannot be hashed.
   */
  predicate ListCell(t: RawTable) {
    ListedIn in t.columns && exists i :: 0 <= i < |t.rows| && t.rows[i].listedIn.GenreList?
  }

  /** Some row's year cannot be converted to an integer. */
  predicate BadYear(t: RawTable) {
    exists i :: 0 <= i < |t.rows| && IntCast(t.rows[i].year).None?
  }

  /** Some row's genre cell is not a string. */
  predicate BadGenre(t: RawTable) {
    exists i :: 0 <= i < |t.rows| && !t.rows[i].listedIn.GenreText?
  }

  /** A cleaned row: year converted, genre text split on every comma, untrimmed. */
  function CleanRowOf(r: RawRow): CleanRow
    requires IntCast(r.year).Some? && r.listedIn.GenreText?
  {
    CleanRow(r.title, r.kind, r.country, IntCast(r.year).value, Split(r.listedIn.t, ','), r.others)
  }

  /** Every kept row is the visible form of some raw row. */
  lemma DedupedOrigin(t: RawTable, i: nat) returns (j: nat)
    requires i < |Deduped(t)|
    ensures j < |t.rows| && Deduped(t)[i] == Visible(t.columns, t.rows[j])
  {
    var vis := Seqs.Map(t.rows, VisibleIn(t.columns));
    assert Deduped(t)[i] in vis;
    j :| j < |t.rows| && vis[j] == Deduped(t)[i];
  }

  /** Every raw row's visible form is kept. */
  lemma DedupedKeeps(t: RawTable, j: nat) returns (i: nat)
    requires j < |t.rows|
    ensures i < |Deduped(t)| && Deduped(t)[i] == Visible(t.columns, t.rows[j])
  {
    var vis := Seqs.Map(t.rows, VisibleIn(t.columns));
    assert vis[j] in vis;
    i :| i < |Deduped(t)| && Deduped(t)[i] == vis[j];
  }

  /**
   * `clean_data`: deduplicate, then convert the year column, then split the
   * genre column; the first step that fails decides the error.
   */
  method CleanData(t: RawTable) returns (r: Result<seq<CleanRow>, CleanError>)
    ensures ListCell(t) ==> r == Err(Unhashable)
    ensures !ListCell(t) && ReleaseYear !in t.columns ==> r == Err(MissingColumn("release_year"))
    ensures !ListCell(t) && ReleaseYear in t.columns && BadYear(t) ==> r == Err(NotAnInteger)
    ensures !ListCell(t) && ReleaseYear in t.columns && !BadYear(t) && ListedIn !in t.columns ==>
              r == Err(MissingColumn("listed_in"))
    ensures !ListCell(t) && ReleaseYear in t.columns && !BadYear(t) && ListedIn in t.columns && BadGenre(t) ==>
              r == Err(NotAString)
    ensures r.Ok? <==> ReleaseYear in t.columns && ListedIn in t.columns && !BadYear(t) && !BadGenre(t)
    ensures r.Ok? ==>
              && |r.value| == |Deduped(t)|
              && forall i :: 0 <= i < |r.value| ==>
                   IntCast(Deduped(t)[i].year).Some? && Deduped(t)[i].listedIn.GenreText? &&
                   r.value[i] == CleanRowOf(Deduped(t)[i])
  {
    if ListedIn in t.columns && exists i :: 0 <= i < |t.rows| && t.rows[i].listedIn.GenreList? {
      return Err(Unhashable);
    }
    var rows := Seqs.DropDuplicates(Seqs.Map(t.rows, VisibleIn(t.columns)));
    var n := |rows|;
    if ReleaseYear !in t.columns {
      return Err(MissingColumn("release_year"));
    }
    if exists i :: 0 <= i < n && IntCast(rows[i].year).None? {
      var i :| 0 <= i < n && IntCast(rows[i].year).None?;
      var j := DedupedOrigin(t, i);
      assert IntCast(t.rows[j].year).None?;
      return Err(NotAnInteger);
    }
    forall j | 0 <= j < |t.rows| ensures IntCast(t.rows[j].year).Some? {
      var i := DedupedKeeps(t, j);
    }
    var years := seq(n, i requires 0 <= i < n => IntCast(rows[i].year).value);
    if ListedIn !in t.columns {
      return Err(MissingColumn("listed_in"));
    }
    if exists i :: 0 <= i < n && !rows[i].listedIn.GenreText? {
      var i :| 0 <= i < n && !rows[i].listedIn.GenreText?;
      var j := DedupedOrigin(t, i);
      assert !t.rows[j].listedIn.GenreText?;
      return Err(NotAString);
    }
    forall j | 0 <= j < |t.rows| ensures t.rows[j].listedIn.GenreText? {
      var i := DedupedKeeps(t, j);
    }
    var lists := seq(n, i requires 0 <= i < n => Split(rows[i].listedIn.t, ','));
    r := Ok(seq(n, i requires 0 <= i < n =>
                  CleanRow(rows[i].title, rows[i].kind, rows[i].country, years[i], lists[i], rows[i].others)));
  }

  /**
   * The rows `clean_data` keeps: no two equal, one for every distinct raw
   * row, in the order of first occurrence.
   */
  lemma DedupedRows(t: RawTable)
    ensures Seqs.Distinct(Deduped(t))
    ensures forall j :: 0 <= j < |t.rows| ==> Visible(t.columns, t.rows[j]) in Deduped(t)
    ensures Seqs.IsSubsequence(Deduped(t), Seqs.Map(t.rows, VisibleIn(t.columns)))
    ensures forall i, k :: 0 <= i < k < |Deduped(t)| ==>
              Seqs.FirstIndex(Seqs.Map(t.rows, VisibleIn(t.columns)), Deduped(t)[i]) <
              Seqs.FirstIndex(Seqs.Map(t.rows, VisibleIn(t.columns)), Deduped(t)[k])
  {
    var vis := Seqs.Map(t.rows, VisibleIn(t.columns));
    Seqs.DropDuplicatesSubsequence(vis);
    Seqs.DropDuplicatesFirstOrder(vis);
    forall j | 0 <= j < |t.rows| ensures Visible(t.columns, t.rows[j]) in Deduped(t) {
      assert vis[j] in vis;
    }
  }

  /**
   * The genre split keeps every character: joining the fragments with a
   * comma gives the text back, and there is one fragment more than commas.
   */
  lemma GenreSplitRoundTrip(s: string)
    ensures Join(Split(s, ','), ',') == s
    ensures |Split(s, ',')| == multiset(s)[','] + 1
  {
    JoinSplit(s, ',');
  }

  /** The year conversion reads back a 64-bit year written in decimal. */
  lemma IntCastDecimal(n: int)
    requires InInt64(n)
    ensures IntCast(YearText(Decimal(n))) == Some(n)
  {
    ParseDecimal(n);
  }

  /** A year written in decimal that does not fit in 64 bits makes the conversion fail. */
  lemma IntCastOverflow(n: int)
    requires !InInt64(n)
    ensures IntCast(YearText(Decimal(n))) == None
  {
    ParseDecimal(n);
  }

  /**
   * Deduplication happens before conversion, so two rows that differ only
   * in how the year is written (text or number) both survive it and become
   * equal cleaned rows.
   */
  lemma ConversionCanRepeatRows(title: Cell, kind: Cell, country: Cell, genres: string, others: seq<Cell>)
    ensures var a := RawRow(title, kind, country, YearText(Decimal(2020)), GenreText(genres), others);
            var b := RawRow(title, kind, country, YearInt(2020), GenreText(genres), others);
            a != b && IntCast(a.year).Some? && CleanRowOf(a) == CleanRowOf(b)
  {
    ParseDecimal(2020);
  }
}

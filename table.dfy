/**
 * The shapes of the catalog's data: the raw frame as pandas reads it from
 * CSV, and the canonical title record the dashboard works on.
 */
module Table {

  /** A cell of a text column: pandas' missing value (NaN) or a string. */
  datatype Cell = Null | Str(s: string)

  /** A raw `release_year` cell: missing, a number pandas already parsed, or text. */
  datatype YearCell = YearNull | YearInt(n: int) | YearText(t: string)

  /** A raw `listed_in` cell: missing, a Python list already, or text. */
  datatype GenreCell = GenreNull | GenreList(items: seq<string>) | GenreText(t: string)

  /** The columns the core reads; any of them may be absent from a frame. */
  datatype Column = Title | Type | Country | ReleaseYear | ListedIn

  /**
   * One raw row. A field whose column is absent from the frame carries no
   * meaning; `others` stands for the columns the core never reads
   * (show_id, director, cast, ...), which still take part in duplicate
   * detection.
   */
  datatype RawRow = RawRow(title: Cell, kind: Cell, country: Cell, year: YearCell,
                           listedIn: GenreCell, others: seq<Cell>)

  /** A raw frame: the set of columns it has and its rows in file order. */
  datatype RawTable = RawTable(columns: set<Column>, rows: seq<RawRow>)

  /**
   * A title record after normalisation: `year` is an integer, `-1` standing
   * for an unknown year, and `genres` is the list of genre tags.
   */
  datatype Record = Record(title: Cell, kind: Cell, country: Cell, year: int, genres: seq<string>)

  /** The row as the frame holds it: fields of absent columns blanked out. */
  function Visible(columns: set<Column>, r: RawRow): RawRow
  {
    RawRow(if Title in columns then r.title else Null,
           if Type in columns then r.kind else Null,
           if Country in columns then r.country else Null,
           if ReleaseYear in columns then r.year else YearNull,
           if ListedIn in columns then r.listedIn else GenreNull,
           r.others)
  }
}

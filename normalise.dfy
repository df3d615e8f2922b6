/**
 * Field normalisation of the dashboard's frame: the release year coerced
 * to an integer with -1 for unknown, the genre cell turned into a list of
 * tags, and absent text columns filled with "Unknown".
 */
module Normalise {
  import opened Wrappers
  import opened Text
  import opened Table
  import opened Literal
  import Seqs

  // ---------------------------------------------------------------------
  // release_year
  // ---------------------------------------------------------------------

  /**
   * `pd.to_numeric(errors="coerce")`, then `fillna(-1).astype(int)`, on one
   * cell: a number stays; text that reads as an integer becomes it, provided
   * it holds no whitespace beyond ASCII (the numeric parser skips only
   * that); anything else becomes the sentinel -1.
   */
  function CoerceYear(y: YearCell): (n: int)
    ensures y.YearNull? ==> n == -1
    ensures y.YearInt? ==> n == y.n
    ensures y.YearText? && HasWideSpace(y.t) ==> n == -1
    ensures y.YearText? && ParseInt(y.t).None? ==> n == -1
    ensures y.YearText? && !HasWideSpace(y.t) && ParseInt(y.t).Some? ==> n == ParseInt(y.t).value
  {
    match y
    case YearNull => -1
    case YearInt(n) => n
    case YearText(t) =>
      if HasWideSpace(t) then -1
      else match ParseInt(t) case Some(n) => n case None => -1
  }

  /** A year written in decimal is read back as that year. */
  lemma CoerceYearDecimal(n: int)
    ensures CoerceYear(YearText(Decimal(n))) == n
  {
    ParseDecimal(n);
    DecimalNoWideSpace(n);
  }

  /**
   * Text with a character no integer can contain becomes the sentinel;
   * whitespace other than ASCII counts as such a character.
   */
  lemma CoerceYearRejects(t: string, k: nat)
    requires k < |t| && !IsDigit(t[k]) && !IsAsciiSpace(t[k]) && t[k] != '-' && t[k] != '+'
    ensures CoerceYear(YearText(t)) == -1
  {
    if !IsSpace(t[k]) {
      ParseIntRejects(t, k);
    }
  }

  // ---------------------------------------------------------------------
  // listed_in: safe_list
  // ---------------------------------------------------------------------

  function StripAtom(a: Atom): string {
    Strip(AtomText(a))
  }

  predicate NonEmpty(f: string) {
    f != ""
  }

  /**
   * The comma-split fallback: fragments stripped, empty ones dropped; every
   * tag is non-empty, already stripped and free of commas.
   */
  function SplitTags(t: string): (r: seq<string>)
    ensures forall f :: f in r ==> f != "" && Strip(f) == f && ',' !in f
  {
    var pieces := Split(t, ',');
    var frags := Seqs.Map(pieces, Strip);
    assert forall k :: 0 <= k < |frags| ==> Strip(frags[k]) == frags[k] && ',' !in frags[k] by {
      forall k | 0 <= k < |frags| ensures Strip(frags[k]) == frags[k] && ',' !in frags[k] {
        assert pieces[k] in pieces;
        StripWithin(pieces[k], ',');
        StripIdempotent(pieces[k]);
      }
    }
    Seqs.Where(frags, NonEmpty)
  }

  /**
   * `safe_list`: a list is kept as it is and a missing value becomes
   * `["Unknown"]`; text is read as a literal when it is one (each element
   * stringified and stripped, a scalar wrapped in a one-element list), and
   * otherwise split on commas.
   */
  function SafeList(x: GenreCell): (r: seq<string>)
    ensures x.GenreList? ==> r == x.items
    ensures x.GenreNull? ==> r == ["Unknown"]
    ensures x.GenreText? ==> forall f :: f in r ==> Strip(f) == f
  {
    match x
    case GenreList(items) => items
    case GenreNull => ["Unknown"]
    case GenreText(t) =>
      match ParseLiteral(t)
      case Some(ListLit(items)) =>
        assert forall i :: 0 <= i < |items| ==> Strip(StripAtom(items[i])) == StripAtom(items[i]) by {
          forall i | 0 <= i < |items| ensures Strip(StripAtom(items[i])) == StripAtom(items[i]) {
            StripIdempotent(AtomText(items[i]));
          }
        }
        Seqs.Map(items, StripAtom)
      case Some(Scalar(a)) =>
        StripIdempotent(AtomText(a));
        [StripAtom(a)]
      case None => SplitTags(t)
  }

  /** A stripped string is its own strip. */
  lemma StripIdempotent(s: string)
    ensures Strip(Strip(s)) == Strip(s)
  {
    StripUntrimmed(Strip(s));
  }

  /** Stripping keeps only characters of the input. */
  lemma StripWithin(s: string, c: char)
    requires c !in s
    ensures c !in Strip(s)
  {
  }

  /** A cell that is already a list is kept; a missing one becomes `["Unknown"]`. */
  lemma SafeListDirect(items: seq<string>)
    ensures SafeList(GenreList(items)) == items
    ensures SafeList(GenreNull) == ["Unknown"]
  {
  }

  /**
   * A text cell that reads as a literal yields one stripped string per
   * element of a list, or a single stripped string for a scalar.
   */
  lemma SafeListParsed(t: string, l: Lit)
    requires ParseLiteral(t) == Some(l)
    ensures var r := SafeList(GenreText(t));
            && (l.ListLit? ==> |r| == |l.items| && forall i :: 0 <= i < |r| ==> r[i] == Strip(AtomText(l.items[i])))
            && (l.Scalar? ==> r == [Strip(AtomText(l.a))])
  {
  }

  /** A text cell that is not a literal takes the comma-split path. */
  lemma SafeListUnparsed(t: string)
    requires ParseLiteral(t) == None
    ensures SafeList(GenreText(t)) == SplitTags(t)
  {
  }

  /**
   * The comma-split tags are the non-empty stripped comma fragments in
   * order: each tag is non-empty, already stripped and comma-free, and every
   * non-empty fragment is kept as often as it occurs.
   */
  lemma SplitTagsFragments(t: string)
    ensures var r := SplitTags(t);
            var frags := Seqs.Map(Split(t, ','), Strip);
            && (forall f :: f in r ==> f != "" && Strip(f) == f && ',' !in f)
            && Seqs.IsSubsequence(r, frags)
            && (forall f :: f != "" ==> multiset(r)[f] == multiset(frags)[f])
  {
    var pieces := Split(t, ',');
    var frags := Seqs.Map(pieces, Strip);
    var r := SplitTags(t);
    assert r == Seqs.Where(frags, NonEmpty);
    Seqs.WhereIsSubsequence(frags, NonEmpty);
    forall f | f != "" ensures multiset(r)[f] == multiset(frags)[f] {
      Seqs.WhereMultiplicity(frags, NonEmpty, f);
    }
  }

  /**
   * Text Python refuses to compile as a literal, because it holds a NUL
   * character or its first token is left indented, takes the comma-split
   * path even when it looks like a literal.
   */
  lemma SafeListUncompilable(t: string)
    requires '\U{0}' in t || !IndentAccepted(t)
    ensures SafeList(GenreText(t)) == SplitTags(t)
  {
  }

  /** Free text that cannot start a literal always takes the comma-split path. */
  lemma SafeListFreeText(t: string)
    requires var u := SkipBlanks(t);
             u == [] || (u[0] != '[' && u[0] != '\'' && u[0] != '"' && u[0] != '-' && u[0] != '+' && !IsDigit(u[0]))
    ensures SafeList(GenreText(t)) == SplitTags(t)
  {
    ParseLiteralRejects(t);
    SafeListUnparsed(t);
  }

  /**
   * A genre list stored as Python's `str(list)` (as the cleaning step writes
   * it) is read back as the list of its stripped elements.
   */
  lemma SafeListOfRepr(fs: seq<string>)
    requires forall f :: f in fs ==> Plain(f)
    ensures SafeList(GenreText(ListRepr(fs))) == Seqs.Map(fs, Strip)
  {
    ParseLiteralRepr(fs);
    SafeListOfList(ListRepr(fs), Strings(fs), fs);
  }

  lemma SafeListOfList(t: string, items: seq<Atom>, fs: seq<string>)
    requires ParseLiteral(t) == Some(ListLit(items))
    requires |items| == |fs| && forall i :: 0 <= i < |fs| ==> items[i] == AStr(fs[i])
    ensures SafeList(GenreText(t)) == Seqs.Map(fs, Strip)
  {
    assert SafeList(GenreText(t)) == Seqs.Map(items, StripAtom);
  }

  /** The tags of a single comma-free fragment: its strip, unless that is empty. */
  function FragmentTags(f: string): seq<string> {
    if Strip(f) == "" then [] else [Strip(f)]
  }

  /** A comma-free fragment followed by a comma contributes its tag first. */
  lemma SplitTagsCons(f: string, t: string)
    requires ',' !in f
    ensures SplitTags(f + [','] + t) == FragmentTags(f) + SplitTags(t)
  {
    var rest := Seqs.Map(Split(t, ','), Strip);
    MapStripCons(f, t);
    WhereFragment(f, rest);
  }

  lemma MapStripCons(f: string, t: string)
    requires ',' !in f
    ensures Seqs.Map(Split(f + [','] + t, ','), Strip) == [Strip(f)] + Seqs.Map(Split(t, ','), Strip)
  {
    SplitCons(f, t, ',');
    var ps := Split(f + [','] + t, ',');
    assert ps == [f] + Split(t, ',');
  }

  lemma WhereFragment(f: string, s: seq<string>)
    ensures Seqs.Where([Strip(f)] + s, NonEmpty) == FragmentTags(f) + Seqs.Where(s, NonEmpty)
  {
    assert ([Strip(f)] + s)[1..] == s;
  }

  /** Text without a comma is one fragment. */
  lemma SplitTagsSingle(f: string)
    requires ',' !in f
    ensures SplitTags(f) == FragmentTags(f)
  {
    assert Split(f, ',') == [f];
    assert Seqs.Map([f], Strip) == [Strip(f)];
  }

  /**
   * Fragments joined with commas (how the free text is written) are read
   * back as their non-empty strips, in order.
   */
  lemma {:induction false} SplitTagsJoin(fs: seq<string>)
    requires |fs| >= 1
    requires forall f :: f in fs ==> ',' !in f
    ensures SplitTags(Join(fs, ',')) == Seqs.Where(Seqs.Map(fs, Strip), NonEmpty)
  {
    SplitJoin(fs, ',');
  }

  /** Whitespace alone strips to nothing. */
  lemma StripAllSpace(s: string)
    requires forall i :: 0 <= i < |s| ==> IsSpace(s[i])
    ensures Strip(s) == ""
  {
  }

  /** Text made only of whitespace and commas. */
  predicate Blank(t: string) {
    forall i :: 0 <= i < |t| ==> IsSpace(t[i]) || t[i] == ','
  }

  /**
   * Text made only of whitespace and commas (the empty string included)
   * yields no tag at all: the fallback has no "Unknown" default.
   */
  lemma {:induction false} SplitTagsBlank(t: string)
    requires Blank(t)
    ensures SplitTags(t) == []
    decreases |t|
  {
    if ',' !in t {
      SplitTagsSingle(t);
      StripAllSpace(t);
    } else {
      var i := IndexOf(t, ',');
      BlankFirstFragment(t, i);
      SplitTagsBlank(t[i + 1..]);
    }
  }

  /** The fragment before the first comma of blank text contributes no tag. */
  lemma BlankFirstFragment(t: string, i: nat)
    requires Blank(t)
    requires i < |t| && t[i] == ',' && ',' !in t[..i]
    ensures SplitTags(t) == SplitTags(t[i + 1..])
    ensures Blank(t[i + 1..])
  {
    var f, rest := t[..i], t[i + 1..];
    assert t == f + [','] + rest;
    SplitTagsCons(f, rest);
    BlankParts(t, i, f, rest);
    StripAllSpace(f);
  }

  /** Around its first comma, blank text is whitespace before and blank after. */
  lemma BlankParts(t: string, i: nat, f: string, rest: string)
    requires Blank(t)
    requires i < |t| && ',' !in t[..i]
    requires f == t[..i] && rest == t[i + 1..]
    ensures forall k :: 0 <= k < |f| ==> IsSpace(f[k])
    ensures Blank(rest)
  {
    forall k | 0 <= k < |f| ensures IsSpace(f[k]) {
      assert f[k] == t[k] && f[k] in f;
    }
    forall k | 0 <= k < |rest| ensures IsSpace(rest[k]) || rest[k] == ',' {
      assert rest[k] == t[i + 1 + k];
    }
  }

  // ---------------------------------------------------------------------
  // The frame
  // ---------------------------------------------------------------------

  /** The text columns the frame must have, in the order they are filled in. */
  const TextColumns: seq<Column> := [Type, Title, Country]

  /** The cell of a text column in a raw row. */
  function TextCell(r: RawRow, c: Column): Cell
    requires c in TextColumns
  {
    match c
    case Type => r.kind
    case Title => r.title
    case Country => r.country
  }

  /** The normalised record of a raw row of a frame with the given columns. */
  function CanonicalRow(columns: set<Column>, r: RawRow): Record {
    Record(
      if Title in columns then r.title else Str("Unknown"),
      if Type in columns then r.kind else Str("Unknown"),
      if Country in columns then r.country else Str("Unknown"),
      if ReleaseYear in columns then CoerceYear(r.year) else -1,
      if ListedIn in columns then SafeList(r.listedIn) else ["Unknown"])
  }

  /** The value a text column holds in row `i` once it is filled in. */
  function FilledCell(t: RawTable, c: Column, i: nat): Cell
    requires c in TextColumns && i < |t.rows|
  {
    if c in t.columns then TextCell(t.rows[i], c) else Str("Unknown")
  }

  /**
   * The loop over "type", "title" and "country": each column the frame
   * lacks is created holding "Unknown"; the present ones keep their cells.
   */
  method FillTextColumns(t: RawTable) returns (text: map<Column, seq<Cell>>)
    ensures forall c :: c in TextColumns ==> c in text && |text[c]| == |t.rows|
    ensures forall c, i :: c in TextColumns && 0 <= i < |t.rows| ==> text[c][i] == FilledCell(t, c, i)
  {
    var n := |t.rows|;
    text := map c | c in TextColumns && c in t.columns :: seq(n, i requires 0 <= i < n => TextCell(t.rows[i], c));
    for k := 0 to |TextColumns|
      invariant forall c :: c in text ==> c in TextColumns && |text[c]| == n
      invariant forall c :: c in text ==> forall i :: 0 <= i < n ==> text[c][i] == FilledCell(t, c, i)
      invariant forall j :: 0 <= j < k ==> TextColumns[j] in text
      invariant forall j :: k <= j < |TextColumns| ==> (TextColumns[j] in text <==> TextColumns[j] in t.columns)
    {
      var c := TextColumns[k];
      if c !in text {
        text := text[c := seq(n, i => Str("Unknown"))];
      }
    }
  }

  /**
   * The module-level clean-up of the loaded frame: the year column is
   * coerced (or created as all -1), the genre column is parsed (or created
   * as all `["Unknown"]`), and each absent text column is created holding
   * "Unknown".
   */
  method Normalise(t: RawTable) returns (df: seq<Record>)
    ensures |df| == |t.rows|
    ensures forall i :: 0 <= i < |df| ==> df[i] == CanonicalRow(t.columns, t.rows[i])
  {
    var n := |t.rows|;
    var years: seq<int>;
    if ReleaseYear in t.columns {
      years := seq(n, i requires 0 <= i < n => CoerceYear(t.rows[i].year));
    } else {
      years := seq(n, i => -1);
    }
    var lists: seq<seq<string>>;
    if ListedIn in t.columns {
      lists := seq(n, i requires 0 <= i < n => SafeList(t.rows[i].listedIn));
    } else {
      lists := seq(n, i => ["Unknown"]);
    }
    var text := FillTextColumns(t);
    df := seq(n, i requires 0 <= i < n =>
                Record(text[Title][i], text[Type][i], text[Country][i], years[i], lists[i]));
    forall i | 0 <= i < n ensures df[i] == CanonicalRow(t.columns, t.rows[i]) {
      assert text[Title][i] == FilledCell(t, Title, i);
      assert text[Type][i] == FilledCell(t, Type, i);
      assert text[Country][i] == FilledCell(t, Country, i);
    }
  }
}

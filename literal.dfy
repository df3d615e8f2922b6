/**
 * A narrow stand-in for Python's `ast.literal_eval` applied to a genre
 * cell: a quoted string, an integer, or a bracketed list of those.
 * Anything else is a parse failure, which the genre normaliser answers
 * with its comma-split fallback.
 */
module Literal {
  import opened Wrappers
  import opened Text

  /** One element of a literal: a string or an integer. */
  datatype Atom = AStr(s: string) | AInt(n: int)

  /** A parsed literal: a single value or a list of values. */
  datatype Lit = Scalar(a: Atom) | ListLit(items: seq<Atom>)

  /** `str(a)` for an element. */
  function AtomText(a: Atom): string {
    match a
    case AStr(s) => s
    case AInt(n) => Decimal(n)
  }

  /** The whitespace the Python tokenizer skips between tokens on one line. */
  predicate IsBlank(c: char) {
    c == ' ' || c == '\t' || c == '\U{0C}'
  }

  /** The suffix of `s` after its leading blanks. */
  function SkipBlanks(s: string): (r: string)
    ensures |r| <= |s|
    ensures r == [] || !IsBlank(r[0])
  {
    if s != [] && IsBlank(s[0]) then SkipBlanks(s[1..]) else s
  }

  /**
   * Whether the blanks before the first token are accepted. `literal_eval`
   * removes leading spaces and tabs itself; the tokenizer then resets its
   * column at each form feed and counts the spaces and tabs after it, and a
   * first token left indented is an error. So the blanks are accepted when
   * they hold no form feed or end with one.
   */
  predicate IndentAccepted(s: string) {
    var n := |s| - |SkipBlanks(s)|;
    '\U{0C}' !in s[..n] || s[n - 1] == '\U{0C}'
  }

  /**
   * The body of a string literal opened by quote `q`, and what follows the
   * closing quote. A backslash (escape sequences are not modelled) or a line
   * break before the closing quote is a failure, as is a missing one.
   */
  function QuotedBody(s: string, q: char): (r: Option<(string, string)>)
    ensures r.Some? ==> |r.value.1| < |s|
  {
    if s == [] then None
    else if s[0] == q then Some(([], s[1..]))
    else if s[0] == '\\' || s[0] == '\n' || s[0] == '\r' then None
    else
      match QuotedBody(s[1..], q)
      case None => None
      case Some((body, rest)) => Some(([s[0]] + body, rest))
  }

  /** The number of leading ASCII digits of `s`. */
  function DigitRun(s: string): (n: nat)
    ensures n <= |s| && AllDigits(s[..n])
  {
    if s != [] && IsDigit(s[0]) then
      var n := DigitRun(s[1..]) + 1;
      assert s[..n] == [s[0]] + s[1..][..n - 1];
      n
    else 0
  }

  /** Every character of `s` is the digit zero. */
  predicate Zeros(s: string) {
    s == [] || (s[0] == '0' && Zeros(s[1..]))
  }

  /**
   * An integer literal with an optional unary sign. Python 3 rejects a
   * decimal literal with a leading zero unless every digit is zero.
   */
  function ParseIntToken(s: string): (r: Option<(int, string)>)
    ensures r.Some? ==> |r.value.1| < |s|
  {
    var signed := s != [] && (s[0] == '-' || s[0] == '+');
    var t := if signed then s[1..] else s;
    var n := DigitRun(t);
    if n == 0 then None
    else if t[0] == '0' && !Zeros(t[..n]) then None
    else
      var v: int := DigitsValue(t[..n]);
      Some((if signed && s[0] == '-' then -v else v, t[n..]))
  }

  /** A string or integer literal at the start of `s`, and what follows it. */
  function ParseAtom(s: string): (r: Option<(Atom, string)>)
    ensures r.Some? ==> |r.value.1| < |s|
  {
    if s != [] && (s[0] == '\'' || s[0] == '"') then
      match QuotedBody(s[1..], s[0])
      case None => None
      case Some((body, rest)) => Some((AStr(body), rest))
    else
      match ParseIntToken(s)
      case None => None
      case Some((n, rest)) => Some((AInt(n), rest))
  }

  /**
   * The elements of a list after its opening bracket, up to and including
   * the closing bracket; a trailing comma is allowed, an empty element is not.
   */
  function ParseItems(s: string): (r: Option<(seq<Atom>, string)>)
    ensures r.Some? ==> |r.value.1| < |s|
  {
    ItemsFrom(SkipBlanks(s))
  }

  /** `ParseItems` on text whose leading blanks are already skipped. */
  function ItemsFrom(t: string): (r: Option<(seq<Atom>, string)>)
    ensures r.Some? ==> |r.value.1| < |t|
    decreases |t|
  {
    if t != [] && t[0] == ']' then Some(([], t[1..]))
    else
      match ParseAtom(t)
      case None => None
      case Some((a, rest)) =>
        var u := SkipBlanks(rest);
        if u != [] && u[0] == ']' then Some(([a], u[1..]))
        else if u != [] && u[0] == ',' then
          match ItemsFrom(SkipBlanks(u[1..]))
          case None => None
          case Some((more, rest2)) => Some(([a] + more, rest2))
        else None
  }

  /**
   * `ast.literal_eval(s)` on the literals modelled here; `None` is the
   * exception it raises on anything else, including text that holds a NUL
   * character (which Python refuses to compile) and text whose first token
   * is left indented.
   */
  function ParseLiteral(s: string): (r: Option<Lit>)
    ensures '\U{0}' in s ==> r == None
    ensures !IndentAccepted(s) ==> r == None
    ensures r.Some? ==> SkipBlanks(s) != []
    ensures r.Some? && r.value.ListLit? ==> SkipBlanks(s)[0] == '['
  {
    if '\U{0}' in s || !IndentAccepted(s) then None else ParseTokens(SkipBlanks(s))
  }

  /** The literal spelled by `t`, which starts at its first token. */
  function ParseTokens(t: string): (r: Option<Lit>)
    ensures r.Some? ==> t != []
    ensures r.Some? && r.value.ListLit? ==> t[0] == '['
  {
    if t != [] && t[0] == '[' then
      match ParseItems(t[1..])
      case Some((items, rest)) => if SkipBlanks(rest) == [] then Some(ListLit(items)) else None
      case None => None
    else
      match ParseAtom(t)
      case Some((a, rest)) => if SkipBlanks(rest) == [] then Some(Scalar(a)) else None
      case None => None
  }

  /**
   * Text whose first non-blank character cannot start a modelled literal
   * (a letter, for instance) never parses.
   */
  lemma ParseLiteralRejects(s: string)
    requires var t := SkipBlanks(s);
             t == [] || (t[0] != '[' && t[0] != '\'' && t[0] != '"' && t[0] != '-' && t[0] != '+' && !IsDigit(t[0]))
    ensures ParseLiteral(s) == None
  {
    var t := SkipBlanks(s);
    if t != [] {
      assert DigitRun(t) == 0;
      assert ParseIntToken(t) == None;
      assert ParseAtom(t) == None;
    }
  }

  // ---------------------------------------------------------------------
  // Python's str() of a list of strings, and the parser reading it back
  // ---------------------------------------------------------------------

  /**
   * A string that Python's `repr` writes between single quotes with no
   * escapes: printable ASCII other than the single quote and the backslash.
   */
  predicate Plain(f: string) {
    forall i :: 0 <= i < |f| ==> ' ' <= f[i] <= '~' && f[i] != '\'' && f[i] != '\\'
  }

  function Quote(f: string): string {
    "'" + f + "'"
  }

  function ReprItems(fs: seq<string>): string {
    if fs == [] then ""
    else if |fs| == 1 then Quote(fs[0])
    else Quote(fs[0]) + ", " + ReprItems(fs[1..])
  }

  /** `str(fs)` for a Python list of plain strings: `['a', 'b']`. */
  function ListRepr(fs: seq<string>): string {
    "[" + ReprItems(fs) + "]"
  }

  /** The list `fs` as string elements. */
  function Strings(fs: seq<string>): (r: seq<Atom>)
    ensures |r| == |fs| && forall i :: 0 <= i < |fs| ==> r[i] == AStr(fs[i])
  {
    if fs == [] then [] else [AStr(fs[0])] + Strings(fs[1..])
  }

  lemma {:induction false} QuotedBodyPlain(f: string, rest: string)
    requires Plain(f)
    ensures QuotedBody(f + "'" + rest, '\'') == Some((f, rest))
  {
    var s := f + "'" + rest;
    if f == [] {
      assert s == "'" + rest;
      assert s[1..] == rest;
    } else {
      assert s[1..] == f[1..] + "'" + rest;
      assert s[0] == f[0];
      assert Plain(f[1..]) by {
        forall i | 0 <= i < |f[1..]| ensures ' ' <= f[1..][i] <= '~' && f[1..][i] != '\'' && f[1..][i] != '\\' {
          assert f[1..][i] == f[i + 1];
        }
      }
      QuotedBodyPlain(f[1..], rest);
      assert [f[0]] + f[1..] == f;
    }
  }

  lemma ParseAtomQuote(f: string, rest: string)
    requires Plain(f)
    ensures ParseAtom(Quote(f) + rest) == Some((AStr(f), rest))
  {
    var s := Quote(f) + rest;
    assert s[0] == '\'';
    assert s[1..] == f + "'" + rest;
    QuotedBodyPlain(f, rest);
  }

  /** The parser reads the items of a list's repr back, whatever follows it. */
  lemma {:induction false} ItemsFromRepr(fs: seq<string>, rest: string)
    requires forall f :: f in fs ==> Plain(f)
    ensures ItemsFrom(ReprItems(fs) + "]" + rest) == Some((Strings(fs), rest))
  {
    var s := ReprItems(fs) + "]" + rest;
    if fs == [] {
      ItemsFromClose(s, rest);
    } else if |fs| == 1 {
      var u := "]" + rest;
      ReprSingle(fs, rest, u, s);
      ItemsFromSingle(fs[0], u, rest, s);
      assert Strings(fs) == [AStr(fs[0])];
    } else {
      var tail := ReprItems(fs[1..]) + "]" + rest;
      var u := ", " + tail;
      ItemsFromRepr(fs[1..], rest);
      FirstQuote(fs[1..]);
      ReprCons(fs, rest, tail, u, s);
      ItemsFromCons(fs[0], u, tail, s);
      assert Strings(fs) == [AStr(fs[0])] + Strings(fs[1..]);
    }
  }

  lemma ReprSingle(fs: seq<string>, rest: string, u: string, s: string)
    requires |fs| == 1 && u == "]" + rest && s == ReprItems(fs) + "]" + rest
    ensures s == Quote(fs[0]) + u
  {
  }

  lemma ReprCons(fs: seq<string>, rest: string, tail: string, u: string, s: string)
    requires |fs| > 1 && tail == ReprItems(fs[1..]) + "]" + rest && u == ", " + tail
    requires s == ReprItems(fs) + "]" + rest
    ensures s == Quote(fs[0]) + u
    ensures tail != [] && tail[0] == '\''
  {
    ReprUnfold(fs);
    ConcatShift(Quote(fs[0]), ReprItems(fs[1..]), rest, tail, u, s);
    FirstQuote(fs[1..]);
  }

  lemma ReprUnfold(fs: seq<string>)
    requires |fs| > 1
    ensures ReprItems(fs) == Quote(fs[0]) + ", " + ReprItems(fs[1..])
  {
  }

  lemma ConcatShift(q: string, r: string, rest: string, tail: string, u: string, s: string)
    requires tail == r + "]" + rest && u == ", " + tail
    requires s == q + ", " + r + "]" + rest
    ensures s == q + u
  {
  }

  /** `'f']` followed by anything: one element. */
  lemma ItemsFromSingle(f: string, u: string, rest: string, s: string)
    requires Plain(f)
    requires u == "]" + rest && s == Quote(f) + u
    ensures ItemsFrom(s) == Some(([AStr(f)], rest))
  {
    ParseAtomQuote(f, u);
    ItemsFromLast(s, AStr(f), u, rest);
  }

  /** `'f', ` before a quoted element: `AStr(f)` prepended to what follows. */
  lemma ItemsFromCons(f: string, u: string, tail: string, s: string)
    requires Plain(f)
    requires tail != [] && tail[0] == '\''
    requires ItemsFrom(tail).Some?
    requires u == ", " + tail && s == Quote(f) + u
    ensures ItemsFrom(s) == Some(([AStr(f)] + ItemsFrom(tail).value.0, ItemsFrom(tail).value.1))
  {
    ParseAtomQuote(f, u);
    ItemsFromComma(u, tail);
    ItemsFromNext(s, AStr(f), u, tail);
  }

  lemma ItemsFromClose(s: string, rest: string)
    requires s == "]" + rest
    ensures ItemsFrom(s) == Some(([], rest))
  {
    assert s[0] == ']' && s[1..] == rest;
  }

  /** An element followed by the closing bracket ends the list. */
  lemma ItemsFromLast(s: string, a: Atom, u: string, rest: string)
    requires s != [] && s[0] != ']'
    requires ParseAtom(s) == Some((a, u))
    requires u == "]" + rest
    ensures ItemsFrom(s) == Some(([a], rest))
  {
    assert u[0] == ']' && u[1..] == rest;
    assert SkipBlanks(u) == u;
  }

  /** The text after `, ` before a quoted element, blanks skipped. */
  lemma ItemsFromComma(u: string, tail: string)
    requires u == ", " + tail
    requires tail != [] && tail[0] == '\''
    ensures SkipBlanks(u) == u && u[0] == ','
    ensures SkipBlanks(u[1..]) == tail
  {
    assert u[0] == ',';
    var v := u[1..];
    assert v == " " + tail;
    assert v[0] == ' ' && v[1..] == tail;
    assert SkipBlanks(tail) == tail;
    assert SkipBlanks(v) == SkipBlanks(v[1..]);
  }

  /** An element followed by a comma is prepended to the remaining elements. */
  lemma ItemsFromNext(s: string, a: Atom, u: string, tail: string)
    requires s != [] && s[0] != ']'
    requires ParseAtom(s) == Some((a, u))
    requires SkipBlanks(u) == u && u != [] && u[0] == ','
    requires SkipBlanks(u[1..]) == tail
    requires ItemsFrom(tail).Some?
    ensures ItemsFrom(s) == Some(([a] + ItemsFrom(tail).value.0, ItemsFrom(tail).value.1))
  {
  }

  /** A non-empty repr of items starts with a quote. */
  lemma FirstQuote(fs: seq<string>)
    requires fs != []
    ensures ReprItems(fs) != [] && ReprItems(fs)[0] == '\''
  {
  }

  /** `ast.literal_eval(str(fs)) == fs` for a list of plain strings. */
  lemma ParseLiteralRepr(fs: seq<string>)
    requires forall f :: f in fs ==> Plain(f)
    ensures ParseLiteral(ListRepr(fs)) == Some(ListLit(Strings(fs)))
  {
    var s := ListRepr(fs);
    var body := ReprItems(fs) + "]" + [];
    assert s == "[" + body;
    ReprItemsNoNul(fs);
    assert '\U{0}' !in s;
    FirstQuoteOrClose(fs, body);
    ItemsFromRepr(fs, []);
    ParseLiteralList(s, body);
  }

  /** The repr of plain strings holds no NUL character. */
  lemma {:induction false} ReprItemsNoNul(fs: seq<string>)
    requires forall f :: f in fs ==> Plain(f)
    ensures '\U{0}' !in ReprItems(fs)
  {
    if fs != [] {
      assert Plain(fs[0]);
      assert '\U{0}' !in Quote(fs[0]);
      if |fs| > 1 {
        assert forall f :: f in fs[1..] ==> f in fs;
        ReprItemsNoNul(fs[1..]);
      }
    }
  }

  /** The repr of the items, with its closing bracket, has no leading blank. */
  lemma FirstQuoteOrClose(fs: seq<string>, body: string)
    requires body == ReprItems(fs) + "]" + []
    ensures SkipBlanks(body) == body
  {
    if fs != [] {
      FirstQuote(fs);
      assert body[0] == ReprItems(fs)[0];
    } else {
      assert body[0] == ']';
    }
  }

  lemma ParseLiteralList(s: string, body: string)
    requires s == "[" + body
    requires SkipBlanks(body) == body
    requires ItemsFrom(body).Some? && ItemsFrom(body).value.1 == []
    requires '\U{0}' !in s
    ensures ParseLiteral(s) == Some(ListLit(ItemsFrom(body).value.0))
  {
    assert s[0] == '[';
    assert SkipBlanks(s) == s;
    assert IndentAccepted(s);
    assert s[1..] == body;
    assert ParseItems(s[1..]) == ItemsFrom(body);
  }
}

/**
 * The string operations of Python that the catalog pipeline relies on:
 * `str.strip()`, `str.split(",")`, `",".join(...)`, `str(int)`, `int(str)`
 * and the code-point ordering that `sorted` uses on strings.
 */
module Text {
  import opened Wrappers

  // ---------------------------------------------------------------------
  // Whitespace and strip
  // ---------------------------------------------------------------------

  /** The code points for which Python's `str.isspace()` holds. */
  predicate IsSpace(c: char) {
    ('\t' <= c <= '\r') || ('\U{1C}' <= c <= '\U{1F}') || c == ' ' || c == '\U{85}' || c == '\U{A0}'
    || c == '\U{1680}' || ('\U{2000}' <= c <= '\U{200A}') || c == '\U{2028}' || c == '\U{2029}'
    || c == '\U{202F}' || c == '\U{205F}' || c == '\U{3000}'
  }

  /**
   * The whitespace pandas' numeric parser skips around a number: the ASCII
   * space and the control characters from tab to carriage return.
   */
  predicate IsAsciiSpace(c: char) {
    c == ' ' || ('\t' <= c <= '\r')
  }

  /** Whitespace to `str.isspace()` that the numeric parser does not skip. */
  predicate IsWideSpace(c: char) {
    IsSpace(c) && !IsAsciiSpace(c)
  }

  predicate HasWideSpace(s: string) {
    exists k :: 0 <= k < |s| && IsWideSpace(s[k])
  }

  /** The number of leading whitespace characters of `s`. */
  function Lead(s: string): (n: nat)
    ensures n <= |s|
    ensures forall k :: 0 <= k < n ==> IsSpace(s[k])
    ensures n < |s| ==> !IsSpace(s[n])
  {
    if s != [] && IsSpace(s[0]) then Lead(s[1..]) + 1 else 0
  }

  /** The number of trailing whitespace characters of `s`. */
  function Trail(s: string): (n: nat)
    ensures n <= |s|
    ensures forall k :: |s| - n <= k < |s| ==> IsSpace(s[k])
    ensures n < |s| ==> !IsSpace(s[|s| - 1 - n])
  {
    if s != [] && IsSpace(s[|s| - 1]) then Trail(s[..|s| - 1]) + 1 else 0
  }

  /**
   * `s.strip()`: the slice of `s` left once whitespace is removed from both
   * ends; it neither starts nor ends with whitespace and only whitespace was
   * cut off.
   */
  function Strip(s: string): (r: string)
    ensures r == [] || (!IsSpace(r[0]) && !IsSpace(r[|r| - 1]))
    ensures Lead(s) + |r| <= |s| && r == s[Lead(s)..Lead(s) + |r|]
    ensures forall k :: Lead(s) + |r| <= k < |s| ==> IsSpace(s[k])
  {
    var i := Lead(s);
    if i == |s| then []
    else
      var j := Trail(s);
      assert !IsSpace(s[i]);
      assert i < |s| - j;
      s[i..|s| - j]
  }

  /** A string that neither starts nor ends with whitespace is its own strip. */
  lemma {:induction false} StripUntrimmed(s: string)
    requires s == [] || (!IsSpace(s[0]) && !IsSpace(s[|s| - 1]))
    ensures Strip(s) == s
  {
  }

  // ---------------------------------------------------------------------
  // split and join on one separator character
  // ---------------------------------------------------------------------

  /** The position of the first `d` in `s`. */
  function IndexOf(s: string, d: char): (i: nat)
    requires d in s
    ensures i < |s| && s[i] == d && d !in s[..i]
  {
    if s[0] == d then 0 else IndexOf(s[1..], d) + 1
  }

  /**
   * `s.split(d)` for a one-character separator: the fragments between
   * consecutive separators, none trimmed.
   */
  function Split(s: string, d: char): (r: seq<string>)
    ensures |r| == multiset(s)[d] + 1
    ensures forall f :: f in r ==> d !in f
    decreases |s|
  {
    if d !in s then
      assert multiset(s)[d] == 0;
      [s]
    else
      var i := IndexOf(s, d);
      assert s == s[..i] + [d] + s[i + 1..];
      assert multiset(s)[d] == multiset(s[..i])[d] + 1 + multiset(s[i + 1..])[d];
      [s[..i]] + Split(s[i + 1..], d)
  }

  /** `d.join(fs)`: the fragments with one separator between neighbours. */
  function Join(fs: seq<string>, d: char): string {
    if fs == [] then ""
    else if |fs| == 1 then fs[0]
    else fs[0] + [d] + Join(fs[1..], d)
  }

  /** Joining the fragments of a split gives back the string. */
  lemma {:induction false} JoinSplit(s: string, d: char)
    ensures Join(Split(s, d), d) == s
    decreases |s|
  {
    if d in s {
      var i := IndexOf(s, d);
      var rest := Split(s[i + 1..], d);
      JoinSplit(s[i + 1..], d);
      SplitUnfold(s, d);
      JoinCons(s[..i], rest, d);
      assert s == s[..i] + [d] + s[i + 1..];
    }
  }

  /** The split of a string with a separator, one step unfolded. */
  lemma SplitUnfold(s: string, d: char)
    requires d in s
    ensures Split(s, d) == [s[..IndexOf(s, d)]] + Split(s[IndexOf(s, d) + 1..], d)
  {
  }

  lemma JoinCons(f: string, rest: seq<string>, d: char)
    requires |rest| >= 1
    ensures Join([f] + rest, d) == f + [d] + Join(rest, d)
  {
    assert ([f] + rest)[1..] == rest;
  }

  /** Splitting a join of separator-free fragments gives back the fragments. */
  lemma {:induction false} SplitJoin(fs: seq<string>, d: char)
    requires |fs| >= 1
    requires forall f :: f in fs ==> d !in f
    ensures Split(Join(fs, d), d) == fs
  {
    if |fs| > 1 {
      SplitJoin(fs[1..], d);
      SplitCons(fs[0], Join(fs[1..], d), d);
      assert fs == [fs[0]] + fs[1..];
    }
  }

  /** A separator-free fragment followed by the separator splits off first. */
  lemma SplitCons(f: string, t: string, d: char)
    requires d !in f
    ensures Split(f + [d] + t, d) == [f] + Split(t, d)
  {
    var s := f + [d] + t;
    assert s[|f|] == d;
    assert s[..|f|] == f;
    IndexOfFirst(s, d, |f|);
    assert s[|f| + 1..] == t;
  }

  /** The first separator is the one with no separator before it. */
  lemma {:induction false} IndexOfFirst(s: string, d: char, i: nat)
    requires i < |s| && s[i] == d && d !in s[..i]
    ensures IndexOf(s, d) == i
  {
    if i > 0 {
      assert s[0] in s[..i];
      assert s[1..][..i - 1] == s[..i][1..];
      IndexOfFirst(s[1..], d, i - 1);
    }
  }

  // ---------------------------------------------------------------------
  // Decimal integers: str(n) and int(s)
  // ---------------------------------------------------------------------

  predicate IsDigit(c: char) {
    '0' <= c <= '9'
  }

  predicate AllDigits(s: string) {
    forall i :: 0 <= i < |s| ==> IsDigit(s[i])
  }

  function DigitChar(n: nat): (c: char)
    requires n < 10
    ensures IsDigit(c) && c as int - '0' as int == n
  {
    (n + '0' as int) as char
  }

  /** The decimal digits of a natural number, most significant first. */
  function Digits(n: nat): (r: string)
    ensures |r| >= 1 && AllDigits(r)
  {
    if n < 10 then [DigitChar(n)] else Digits(n / 10) + [DigitChar(n % 10)]
  }

  /** `str(n)` for a Python int. */
  function Decimal(n: int): (r: string)
    ensures |r| >= 1
  {
    if n < 0 then "-" + Digits(-n) else Digits(n)
  }

  /** The value of a run of decimal digits. */
  function DigitsValue(s: string): nat
    requires AllDigits(s)
  {
    if s == [] then 0
    else
      DigitsValue(s[..|s| - 1]) * 10 + (s[|s| - 1] as int - '0' as int)
  }

  /**
   * Integer parsing as `int(s)` accepts it: surrounding whitespace, an
   * optional sign, then one or more ASCII digits. `None` is the ValueError.
   */
  function ParseInt(s: string): (r: Option<int>)
    ensures r.Some? ==> Strip(s) != []
    ensures r.Some? ==> var t := Strip(s);
                        (IsDigit(t[0]) || t[0] == '-' || t[0] == '+') && AllDigits(t[1..])
    ensures r.Some? && r.value < 0 ==> Strip(s)[0] == '-'
  {
    ParseSigned(Strip(s))
  }

  /** An optional sign followed by one or more ASCII digits. */
  function ParseSigned(t: string): (r: Option<int>)
    ensures r.Some? ==> t != []
  {
    if t == [] then None
    else if t[0] == '-' || t[0] == '+' then
      if |t| > 1 && AllDigits(t[1..]) then
        var v: int := DigitsValue(t[1..]);
        Some(if t[0] == '-' then -v else v)
      else None
    else if AllDigits(t) then Some(DigitsValue(t))
    else None
  }

  lemma {:induction false} DigitsValueOfDigits(n: nat)
    ensures DigitsValue(Digits(n)) == n
  {
    if n >= 10 {
      DigitsValueOfDigits(n / 10);
      var s := Digits(n / 10) + [DigitChar(n % 10)];
      assert s[..|s| - 1] == Digits(n / 10);
    }
  }

  /** `int(str(n)) == n`: the decimal form of an integer parses back to it. */
  lemma ParseDecimal(n: int)
    ensures ParseInt(Decimal(n)) == Some(n)
  {
    if n < 0 {
      ParseNegative(Decimal(n), -n);
    } else {
      ParseNat(Decimal(n), n);
    }
  }

  /** `str(n)` holds only digits and a minus sign, so no wide whitespace. */
  lemma DecimalNoWideSpace(n: int)
    ensures !HasWideSpace(Decimal(n))
  {
    var s := Decimal(n);
    forall k | 0 <= k < |s| ensures !IsWideSpace(s[k]) {
      if n < 0 && k > 0 {
        assert s[k] == Digits(-n)[k - 1];
      }
    }
  }

  lemma ParseNat(s: string, m: nat)
    requires s == Digits(m)
    ensures ParseInt(s) == Some(m as int)
  {
    DigitsValueOfDigits(m);
    ParseDigits(s);
  }

  lemma ParseNegative(s: string, m: nat)
    requires s == "-" + Digits(m)
    ensures ParseInt(s) == Some(-(m as int))
  {
    DigitsValueOfDigits(m);
    ParseMinusDigits(s, Digits(m), m);
  }

  lemma ParseMinusDigits(s: string, d: string, v: nat)
    requires |d| >= 1 && AllDigits(d) && DigitsValue(d) == v && s == "-" + d
    ensures ParseInt(s) == Some(-(v as int))
  {
    assert s[|s| - 1] == d[|d| - 1];
    assert IsDigit(s[|s| - 1]);
    ParseIntUntrimmed(s);
    ParseSignedMinus(s, d, v);
  }

  lemma ParseSignedMinus(s: string, d: string, v: nat)
    requires |d| >= 1 && AllDigits(d) && DigitsValue(d) == v && s == "-" + d
    ensures ParseSigned(s) == Some(-(v as int))
  {
    assert s[0] == '-' && s[1..] == d;
  }

  lemma ParseDigits(s: string)
    requires |s| >= 1 && AllDigits(s)
    ensures ParseInt(s) == Some(DigitsValue(s))
  {
    ParseIntUntrimmed(s);
  }

  /** Stripping is the identity on a string without outer whitespace. */
  lemma ParseIntUntrimmed(s: string)
    requires |s| >= 1 && !IsSpace(s[0]) && !IsSpace(s[|s| - 1])
    ensures ParseInt(s) == ParseSigned(s)
  {
    StripUntrimmed(s);
  }

  /** A string with a character that is neither digit, sign nor space does not parse. */
  lemma {:induction false} ParseIntRejects(s: string, k: nat)
    requires k < |s| && !IsDigit(s[k]) && !IsSpace(s[k]) && s[k] != '-' && s[k] != '+'
    ensures ParseInt(s) == None
  {
    var t := Strip(s);
    var i := Lead(s);
    assert i <= k < i + |t|;
    assert t[k - i] == s[k];
    assert t[k - i] in t;
    if t != [] && (t[0] == '-' || t[0] == '+') {
      assert k - i > 0;
      assert t[1..][k - i - 1] == s[k];
      assert s[k] in t[1..];
    }
  }

  // ---------------------------------------------------------------------
  // Code-point order on strings, as Python compares str values
  // ---------------------------------------------------------------------

  /** `a < b` on Python strings: lexicographic by code point. */
  predicate StrLess(a: string, b: string) {
    if a == [] then b != []
    else if b == [] then false
    else if a[0] != b[0] then a[0] < b[0]
    else StrLess(a[1..], b[1..])
  }

  lemma {:induction false} StrLessIrreflexive(a: string)
    ensures !StrLess(a, a)
  {
    if a != [] { StrLessIrreflexive(a[1..]); }
  }

  lemma {:induction false} StrLessTransitive(a: string, b: string, c: string)
    requires StrLess(a, b) && StrLess(b, c)
    ensures StrLess(a, c)
  {
    if a != [] && b != [] && c != [] && a[0] == b[0] && b[0] == c[0] {
      StrLessTransitive(a[1..], b[1..], c[1..]);
    }
  }

  lemma {:induction false} StrLessTotal(a: string, b: string)
    ensures a == b || StrLess(a, b) || StrLess(b, a)
  {
    if a != [] && b != [] && a[0] == b[0] {
      StrLessTotal(a[1..], b[1..]);
      if a[1..] == b[1..] {
        assert a == [a[0]] + a[1..] && b == [b[0]] + b[1..];
      }
    }
  }

  /** Every pair of a sequence is in ascending order, so there are no repeats. */
  predicate StrictlySorted(s: seq<string>) {
    forall i, j :: 0 <= i < j < |s| ==> StrLess(s[i], s[j])
  }

  /** Insertion of one string into a strictly sorted sequence, skipping repeats. */
  function Insert(s: seq<string>, x: string): (r: seq<string>)
    requires StrictlySorted(s)
    ensures StrictlySorted(r)
    ensures forall y :: y in r <==> y in s || y == x
  {
    if s == [] then [x]
    else if x == s[0] then s
    else if StrLess(x, s[0]) then
      assert forall j :: 0 < j < |s| ==> StrLess(s[0], s[j]);
      forall j | 0 < j < |s| ensures StrLess(x, s[j]) {
        StrLessTransitive(x, s[0], s[j]);
      }
      [x] + s
    else
      StrLessTotal(x, s[0]);
      var t := Insert(s[1..], x);
      assert forall y :: y in t ==> StrLess(s[0], y);
      [s[0]] + t
  }

  /**
   * `sorted(set(xs))`: the distinct strings of `xs` in ascending order.
   */
  function SortedSet(xs: seq<string>): (r: seq<string>)
    ensures StrictlySorted(r)
    ensures forall y :: y in r <==> y in xs
  {
    if xs == [] then [] else Insert(SortedSet(xs[..|xs| - 1]), xs[|xs| - 1])
  }
}

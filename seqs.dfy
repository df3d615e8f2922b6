/**
 * Sequence operations that pandas performs on a column or a frame:
 * boolean-mask selection, `explode`, `value_counts`, `drop_duplicates`
 * and `mode`.
 */
module Seqs {
  import opened Wrappers

  // ---------------------------------------------------------------------
  // Order-preserving selection (`frame[mask]`)
  // ---------------------------------------------------------------------

  /** The elements of `s` that satisfy `p`, in their original order. */
  function Where<T>(s: seq<T>, p: T -> bool): (r: seq<T>)
    ensures |r| <= |s|
    ensures forall x :: x in r ==> x in s && p(x)
  {
    if s == [] then []
    else if p(s[0]) then [s[0]] + Where(s[1..], p)
    else Where(s[1..], p)
  }

  /** `a` is obtained from `b` by deleting elements, keeping the order. */
  predicate IsSubsequence<T(==)>(a: seq<T>, b: seq<T>)
    decreases |b|
  {
    if a == [] then true
    else if b == [] then false
    else if a[0] == b[0] then IsSubsequence(a[1..], b[1..])
    else IsSubsequence(a, b[1..])
  }

  /** A subsequence of the tail is a subsequence of the whole. */
  lemma {:induction false} SubsequenceOfTail<T>(a: seq<T>, b: seq<T>)
    requires b != [] && IsSubsequence(a, b[1..])
    ensures IsSubsequence(a, b)
    decreases |b|, |a|
  {
    if a != [] && a[0] == b[0] {
      SubsequenceDrop(a, b[1..]);
    }
  }

  /** Dropping the head of a subsequence keeps it a subsequence. */
  lemma {:induction false} SubsequenceDrop<T>(a: seq<T>, b: seq<T>)
    requires a != [] && IsSubsequence(a, b)
    ensures IsSubsequence(a[1..], b)
    decreases |b|, |a|
  {
    if a[0] == b[0] {
      if a[1..] != [] {
        SubsequenceOfTail(a[1..], b);
      }
    } else {
      SubsequenceDrop(a, b[1..]);
      if a[1..] != [] {
        SubsequenceOfTail(a[1..], b);
      }
    }
  }

  /** The selection is a subsequence of its input: order is preserved. */
  lemma {:induction false} WhereIsSubsequence<T>(s: seq<T>, p: T -> bool)
    ensures IsSubsequence(Where(s, p), s)
  {
    if s != [] {
      WhereIsSubsequence(s[1..], p);
      if !p(s[0]) && Where(s[1..], p) != [] {
        SubsequenceOfTail(Where(s[1..], p), s);
      }
    }
  }

  /**
   * The selection keeps every occurrence of an element that satisfies `p`
   * and none of the others.
   */
  lemma {:induction false} WhereMultiplicity<T>(s: seq<T>, p: T -> bool, x: T)
    ensures multiset(Where(s, p))[x] == if p(x) then multiset(s)[x] else 0
  {
    if s != [] {
      WhereMultiplicity(s[1..], p, x);
      assert s == [s[0]] + s[1..];
    }
  }

  /** An element is selected exactly when it occurs and satisfies `p`. */
  lemma {:induction false} WhereMembers<T>(s: seq<T>, p: T -> bool, x: T)
    ensures x in Where(s, p) <==> x in s && p(x)
  {
    WhereMultiplicity(s, p, x);
    assert x in Where(s, p) <==> x in multiset(Where(s, p));
    assert x in s <==> x in multiset(s);
  }

  /** Selecting with a predicate that holds throughout changes nothing. */
  lemma {:induction false} WhereTrue<T>(s: seq<T>, p: T -> bool)
    requires forall x :: x in s ==> p(x)
    ensures Where(s, p) == s
  {
    if s != [] {
      WhereTrue(s[1..], p);
      assert s == [s[0]] + s[1..];
    }
  }

  /** Selection depends only on the values the predicate takes on `s`. */
  lemma {:induction false} WhereSame<T>(s: seq<T>, p: T -> bool, q: T -> bool)
    requires forall x :: x in s ==> p(x) == q(x)
    ensures Where(s, p) == Where(s, q)
  {
    if s != [] {
      WhereSame(s[1..], p, q);
    }
  }

  /** Two selections in a row select by the conjunction. */
  lemma {:induction false} WhereWhere<T>(s: seq<T>, p: T -> bool, q: T -> bool, pq: T -> bool)
    requires forall x :: pq(x) == (p(x) && q(x))
    ensures Where(Where(s, p), q) == Where(s, pq)
  {
    if s != [] {
      WhereWhere(s[1..], p, q, pq);
    }
  }

  /** Two selections by predicates that never hold together fit in `s`. */
  lemma {:induction false} WhereDisjoint<T>(s: seq<T>, p: T -> bool, q: T -> bool)
    requires forall x :: !(p(x) && q(x))
    ensures |Where(s, p)| + |Where(s, q)| <= |s|
  {
    if s != [] {
      WhereDisjoint(s[1..], p, q);
    }
  }

  /** `Map`: apply `f` to every element, keeping the order. */
  function Map<T, U>(s: seq<T>, f: T -> U): (r: seq<U>)
    ensures |r| == |s| && forall i :: 0 <= i < |s| ==> r[i] == f(s[i])
  {
    seq(|s|, i requires 0 <= i < |s| => f(s[i]))
  }

  // ---------------------------------------------------------------------
  // explode and value_counts
  // ---------------------------------------------------------------------

  /** The number of elements over all the lists. */
  function TotalLength<T>(ls: seq<seq<T>>): nat {
    if ls == [] then 0 else |ls[0]| + TotalLength(ls[1..])
  }

  /** `explode`: the concatenation of the lists, one entry per element. */
  function Flatten<T>(ls: seq<seq<T>>): (r: seq<T>)
    ensures |r| == TotalLength(ls)
  {
    if ls == [] then [] else ls[0] + Flatten(ls[1..])
  }

  /** The number of occurrences of `x` summed over every list. */
  function Occurrences<T(==)>(ls: seq<seq<T>>, x: T): nat {
    if ls == [] then 0 else multiset(ls[0])[x] + Occurrences(ls[1..], x)
  }

  /** Flattening keeps every occurrence of every element of every list. */
  lemma {:induction false} FlattenOccurrences<T>(ls: seq<seq<T>>, x: T)
    ensures multiset(Flatten(ls))[x] == Occurrences(ls, x)
  {
    if ls != [] {
      FlattenOccurrences(ls[1..], x);
    }
  }

  /** An element is in the flattening exactly when it is in one of the lists. */
  lemma {:induction false} FlattenMembers<T>(ls: seq<seq<T>>, x: T)
    ensures x in Flatten(ls) <==> exists i :: 0 <= i < |ls| && x in ls[i]
  {
    if ls != [] {
      FlattenMembers(ls[1..], x);
      assert forall i :: 0 < i < |ls| ==> ls[i] == ls[1..][i - 1];
      if x in Flatten(ls[1..]) {
        var i :| 0 <= i < |ls[1..]| && x in ls[1..][i];
        assert x in ls[i + 1];
      }
    }
  }

  /**
   * `value_counts` without its ordering: one key per distinct element and,
   * for each key, the number of times it occurs.
   */
  function Tally<T(!new)>(xs: seq<T>): (m: map<T, nat>)
    ensures forall x :: x in m <==> x in xs
    ensures forall x :: x in m ==> m[x] == multiset(xs)[x]
  {
    if xs == [] then map[]
    else
      var init := xs[..|xs| - 1];
      var last := xs[|xs| - 1];
      var m := Tally(init);
      assert xs == init + [last];
      m[last := if last in m then m[last] + 1 else 1]
  }

  // ---------------------------------------------------------------------
  // drop_duplicates
  // ---------------------------------------------------------------------

  /** No element occurs twice. */
  predicate Distinct<T(==)>(s: seq<T>) {
    forall i, j :: 0 <= i < j < |s| ==> s[i] != s[j]
  }

  /** The position of the first occurrence of `x` in `s`. */
  function FirstIndex<T(==)>(s: seq<T>, x: T): (i: nat)
    requires x in s
    ensures i < |s| && s[i] == x && x !in s[..i]
  {
    if s[0] == x then 0 else FirstIndex(s[1..], x) + 1
  }

  /** `drop_duplicates(keep="first")`: the first occurrence of each element. */
  function DropDuplicates<T(==,!new)>(s: seq<T>): (r: seq<T>)
    ensures Distinct(r)
    ensures forall x :: x in r <==> x in s
  {
    if s == [] then []
    else
      var init := s[..|s| - 1];
      var last := s[|s| - 1];
      assert s == init + [last];
      var d := DropDuplicates(init);
      if last in init then d else d + [last]
  }

  lemma FirstIndexPrefix<T>(p: seq<T>, x: T, y: T)
    requires y in p
    ensures FirstIndex(p + [x], y) == FirstIndex(p, y)
  {
    var i := FirstIndex(p, y);
    var s := p + [x];
    assert s[..i] == p[..i];
    FirstIndexIs(s, y, i);
  }

  lemma {:induction false} FirstIndexIs<T>(s: seq<T>, x: T, i: nat)
    requires i < |s| && s[i] == x && x !in s[..i]
    ensures FirstIndex(s, x) == i
  {
    if i > 0 {
      assert s[0] in s[..i];
      assert s[1..][..i - 1] == s[..i][1..];
      FirstIndexIs(s[1..], x, i - 1);
    }
  }

  /**
   * The rows that `drop_duplicates` keeps appear in the order of their
   * first occurrence in the input.
   */
  lemma {:induction false} DropDuplicatesFirstOrder<T(!new)>(s: seq<T>)
    ensures forall i, j :: 0 <= i < j < |DropDuplicates(s)| ==>
              FirstIndex(s, DropDuplicates(s)[i]) < FirstIndex(s, DropDuplicates(s)[j])
  {
    if s != [] {
      var init := s[..|s| - 1];
      var last := s[|s| - 1];
      assert s == init + [last];
      DropDuplicatesFirstOrder(init);
      var d := DropDuplicates(init);
      var r := DropDuplicates(s);
      forall i, j | 0 <= i < j < |r| ensures FirstIndex(s, r[i]) < FirstIndex(s, r[j]) {
        assert r[i] == d[i] && d[i] in init;
        FirstIndexPrefix(init, last, r[i]);
        if j < |d| {
          assert r[j] == d[j] && d[j] in init;
          FirstIndexPrefix(init, last, r[j]);
          assert FirstIndex(init, d[i]) < FirstIndex(init, d[j]);
        } else {
          assert r == d + [last] && r[j] == last && last !in init;
          assert s[..|init|] == init;
          FirstIndexIs(s, last, |init|);
        }
      }
    }
  }

  /** The rows that `drop_duplicates` keeps are a subsequence of its input. */
  lemma {:induction false} DropDuplicatesSubsequence<T(!new)>(s: seq<T>)
    ensures IsSubsequence(DropDuplicates(s), s)
  {
    if s != [] {
      var init := s[..|s| - 1];
      var last := s[|s| - 1];
      assert s == init + [last];
      DropDuplicatesSubsequence(init);
      var d := DropDuplicates(init);
      if last in init {
        SubsequenceExtend(d, init, last);
      } else {
        SubsequenceSnoc(d, init, last);
      }
    }
  }

  /** Appending an element to the longer sequence keeps a subsequence. */
  lemma {:induction false} SubsequenceExtend<T>(a: seq<T>, b: seq<T>, x: T)
    requires IsSubsequence(a, b)
    ensures IsSubsequence(a, b + [x])
    decreases |b|
  {
    if a != [] && b != [] {
      assert (b + [x])[1..] == b[1..] + [x];
      if a[0] == b[0] {
        SubsequenceExtend(a[1..], b[1..], x);
      } else {
        SubsequenceExtend(a, b[1..], x);
      }
    }
  }

  /** Appending the same element to both keeps a subsequence. */
  lemma {:induction false} SubsequenceSnoc<T>(a: seq<T>, b: seq<T>, x: T)
    requires IsSubsequence(a, b)
    ensures IsSubsequence(a + [x], b + [x])
    decreases |b|
  {
    if b != [] {
      assert (b + [x])[1..] == b[1..] + [x];
    }
    if a == [] {
      assert a + [x] == [x];
      if b != [] {
        if b[0] != x {
          SubsequenceSnoc(a, b[1..], x);
        } else {
          assert IsSubsequence([x][1..], (b + [x])[1..]);
        }
      }
    } else {
      assert (a + [x])[1..] == a[1..] + [x];
      assert b != [];
      if a[0] == b[0] {
        SubsequenceSnoc(a[1..], b[1..], x);
      } else {
        SubsequenceSnoc(a, b[1..], x);
      }
    }
  }

  // ---------------------------------------------------------------------
  // mode
  // ---------------------------------------------------------------------

  /** `less` is a strict total order on the elements of `xs`. */
  ghost predicate StrictTotalOn<T(!new)>(xs: seq<T>, less: (T, T) -> bool) {
    && (forall a :: a in xs ==> !less(a, a))
    && (forall a, b :: a in xs && b in xs && a != b ==> less(a, b) || less(b, a))
    && (forall a, b, c :: a in xs && b in xs && c in xs && less(a, b) && less(b, c) ==> less(a, c))
  }

  /**
   * Among the candidates, one of highest count in `m`, and the least in
   * `less` of those tied with it.
   */
  function BestOf<T(==,!new)>(cands: seq<T>, m: multiset<T>, less: (T, T) -> bool): (b: T)
    requires |cands| > 0 && StrictTotalOn(cands, less)
    ensures b in cands
    ensures forall c :: c in cands ==> m[c] <= m[b]
    ensures forall c :: c in cands && c != b && m[c] == m[b] ==> less(b, c)
  {
    if |cands| == 1 then cands[0]
    else
      var rest := cands[1..];
      assert forall c :: c in rest ==> c in cands;
      var b := BestOf(rest, m, less);
      var c := cands[0];
      assert forall x :: x in cands ==> x == c || x in rest;
      if m[c] > m[b] || (m[c] == m[b] && less(c, b)) then c else b
  }

  /**
   * `Series.mode()[0]`: `None` for an empty series; otherwise a most
   * frequent value, the least of the tied ones (pandas sorts the modes).
   */
  function Mode<T(==,!new)>(xs: seq<T>, less: (T, T) -> bool): (r: Option<T>)
    requires StrictTotalOn(xs, less)
    ensures r.None? <==> xs == []
    ensures r.Some? ==> r.value in xs
    ensures r.Some? ==> forall y :: y in xs ==> multiset(xs)[y] <= multiset(xs)[r.value]
    ensures r.Some? ==> forall y :: y in xs && y != r.value && multiset(xs)[y] == multiset(xs)[r.value] ==> less(r.value, y)
  {
    if xs == [] then None else Some(BestOf(xs, multiset(xs), less))
  }
}

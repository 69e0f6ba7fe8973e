/**
 * The array pipelines the data store is written with (`filter`, `map`, `find`),
 * as functions on sequences, and the facts about them the store relies on.
 *
 * `Selects(r, s, keep)` is the independent description of a filter result:
 * `r` is a subsequence of `s` holding every occurrence of each element that
 * `keep` accepts and nothing else. `SelectsUnique` proves that exactly one
 * sequence fits that description, namely `Filter(s, keep)`.
 */
module Seqs {
  import opened Wrappers

  /** `s.filter(keep)`. */
  function Filter<T(!new)>(s: seq<T>, keep: T -> bool): (r: seq<T>)
    ensures |r| <= |s|
    ensures forall x :: x in r <==> x in s && keep(x)
  {
    if s == [] then []
    else (if keep(s[0]) then [s[0]] else []) + Filter(s[1..], keep)
  }

  /** `s.map(f)`. */
  function Map<T, U>(s: seq<T>, f: T -> U): (r: seq<U>)
    ensures |r| == |s|
    ensures forall i :: 0 <= i < |s| ==> r[i] == f(s[i])
  {
    if s == [] then [] else [f(s[0])] + Map(s[1..], f)
  }

  /** `s.findIndex(p)`, with `-1` written as `None`. */
  function FindIndex<T>(s: seq<T>, p: T -> bool): (r: Option<nat>)
    ensures r.Some? ==> r.value < |s| && p(s[r.value])
    ensures r.Some? ==> forall j :: 0 <= j < r.value ==> !p(s[j])
    ensures r.None? <==> forall j :: 0 <= j < |s| ==> !p(s[j])
  {
    if s == [] then None
    else if p(s[0]) then Some(0)
    else match FindIndex(s[1..], p)
      case None => None
      case Some(i) => Some(i + 1)
  }

  /** `s.find(p)`, with `undefined` written as `None`. */
  function Find<T>(s: seq<T>, p: T -> bool): (r: Option<T>)
    ensures r.Some? ==> exists i :: 0 <= i < |s| && s[i] == r.value && p(s[i]) &&
                                    forall j :: 0 <= j < i ==> !p(s[j])
    ensures r.None? <==> forall j :: 0 <= j < |s| ==> !p(s[j])
  {
    match FindIndex(s, p)
    case None => None
    case Some(i) => Some(s[i])
  }

  /** `a` is obtained from `b` by deleting elements: same order, no element used twice. */
  predicate IsSubseq<T(==)>(a: seq<T>, b: seq<T>)
    decreases |b|
  {
    a == [] || (b != [] && ((a[0] == b[0] && IsSubseq(a[1..], b[1..])) || IsSubseq(a, b[1..])))
  }

  /**
   * `r` is `s` with exactly the elements `keep` rejects removed: a subsequence
   * of `s` in which every accepted element occurs as often as in `s`.
   */
  ghost predicate Selects<T(!new)>(r: seq<T>, s: seq<T>, keep: T -> bool)
  {
    && IsSubseq(r, s)
    && forall x :: multiset(r)[x] == if keep(x) then multiset(s)[x] else 0
  }

  lemma {:induction false} SubseqMultiset<T(!new)>(a: seq<T>, b: seq<T>)
    requires IsSubseq(a, b)
    ensures multiset(a) <= multiset(b)
    decreases |b|
  {
    if a != [] {
      assert b == [b[0]] + b[1..];
      if IsSubseq(a, b[1..]) {
        SubseqMultiset(a, b[1..]);
      } else {
        assert a == [a[0]] + a[1..];
        SubseqMultiset(a[1..], b[1..]);
      }
    }
  }

  lemma {:induction false} SubseqTrans<T(!new)>(a: seq<T>, b: seq<T>, c: seq<T>)
    requires IsSubseq(a, b) && IsSubseq(b, c)
    ensures IsSubseq(a, c)
    decreases |c|
  {
    if a != [] {
      if IsSubseq(b, c[1..]) {
        SubseqTrans(a, b, c[1..]);
      } else if IsSubseq(a, b[1..]) {
        SubseqTrans(a, b[1..], c[1..]);
      } else {
        SubseqTrans(a[1..], b[1..], c[1..]);
      }
    }
  }

  lemma {:induction false} FilterIsSubseq<T(!new)>(s: seq<T>, keep: T -> bool)
    ensures IsSubseq(Filter(s, keep), s)
  {
    if s != [] {
      FilterIsSubseq(s[1..], keep);
      if keep(s[0]) {
        assert ([s[0]] + Filter(s[1..], keep))[1..] == Filter(s[1..], keep);
      } else {
        assert Filter(s, keep) == Filter(s[1..], keep);
      }
    }
  }

  lemma {:induction false} FilterCount<T(!new)>(s: seq<T>, keep: T -> bool)
    ensures forall x :: multiset(Filter(s, keep))[x] == if keep(x) then multiset(s)[x] else 0
  {
    if s != [] {
      FilterCount(s[1..], keep);
      assert s == [s[0]] + s[1..];
    }
  }

  lemma FilterSelects<T(!new)>(s: seq<T>, keep: T -> bool, spec: T -> bool)
    requires forall x :: x in s ==> keep(x) == spec(x)
    ensures Selects(Filter(s, keep), s, spec)
  {
    FilterIsSubseq(s, keep);
    FilterCount(s, keep);
  }

  /** Only one sequence fits the description `Selects(_, s, keep)`: the filter. */
  lemma {:induction false} SelectsUnique<T(!new)>(r: seq<T>, s: seq<T>, keep: T -> bool)
    requires Selects(r, s, keep)
    ensures r == Filter(s, keep)
  {
    if s == [] {
      assert r == [];
    } else {
      var h, t := s[0], s[1..];
      assert s == [h] + t;
      if r == [] {
        forall x | x in s ensures !keep(x) {
          assert multiset(r)[x] == 0 < multiset(s)[x];
        }
        if Filter(s, keep) != [] {
          assert Filter(s, keep)[0] in Filter(s, keep);
          assert false;
        }
      } else if keep(h) {
        if r[0] != h || !IsSubseq(r[1..], t) {
          assert IsSubseq(r, t);
          SubseqMultiset(r, t);
          assert false;
        }
        assert r == [h] + r[1..];
        SelectsUnique(r[1..], t, keep);
      } else {
        assert r[0] in r;
        assert IsSubseq(r, t);
        SelectsUnique(r, t, keep);
      }
    }
  }

  /** Filtering a filter result selects by both conditions at once. */
  lemma SelectsThenFilter<T(!new)>(a: seq<T>, s: seq<T>, p: T -> bool, q: T -> bool, pq: T -> bool)
    requires Selects(a, s, p)
    requires forall x :: x in s ==> pq(x) == (p(x) && q(x))
    ensures Selects(Filter(a, q), s, pq)
  {
    FilterIsSubseq(a, q);
    SubseqTrans(Filter(a, q), a, s);
    FilterCount(a, q);
  }

  lemma SelectsMembers<T(!new)>(r: seq<T>, s: seq<T>, keep: T -> bool)
    requires Selects(r, s, keep)
    ensures forall x :: x in r <==> x in s && keep(x)
  {
    forall x ensures x in r <==> x in s && keep(x) {
      assert x in r <==> x in multiset(r);
    }
  }

  lemma {:induction false} FilterAppend<T(!new)>(a: seq<T>, b: seq<T>, keep: T -> bool)
    ensures Filter(a + b, keep) == Filter(a, keep) + Filter(b, keep)
  {
    if a == [] {
      assert a + b == b;
    } else {
      assert (a + b)[1..] == a[1..] + b;
      FilterAppend(a[1..], b, keep);
    }
  }

  lemma {:induction false} FilterExt<T(!new)>(s: seq<T>, p: T -> bool, q: T -> bool)
    requires forall x :: x in s ==> p(x) == q(x)
    ensures Filter(s, p) == Filter(s, q)
  {
    if s != [] {
      FilterExt(s[1..], p, q);
    }
  }

  /** A stronger condition keeps a subsequence of what a weaker one keeps. */
  lemma {:induction false} FilterMono<T(!new)>(s: seq<T>, p: T -> bool, q: T -> bool)
    requires forall x :: x in s && p(x) ==> q(x)
    ensures IsSubseq(Filter(s, p), Filter(s, q))
  {
    if s != [] {
      FilterMono(s[1..], p, q);
      var fp, fq := Filter(s[1..], p), Filter(s[1..], q);
      if p(s[0]) {
        assert ([s[0]] + fp)[1..] == fp && ([s[0]] + fq)[1..] == fq;
      } else if q(s[0]) {
        assert Filter(s, p) == fp && Filter(s, q) == [s[0]] + fq;
        assert ([s[0]] + fq)[1..] == fq;
      } else {
        assert Filter(s, p) == fp && Filter(s, q) == fq;
      }
    }
  }

  /** Splitting by a condition and its negation accounts for every element once. */
  lemma FilterPartition<T(!new)>(s: seq<T>, p: T -> bool, q: T -> bool)
    requires forall x :: x in s ==> q(x) == !p(x)
    ensures multiset(Filter(s, p)) + multiset(Filter(s, q)) == multiset(s)
    ensures |Filter(s, p)| + |Filter(s, q)| == |s|
  {
    FilterCount(s, p);
    FilterCount(s, q);
    assert multiset(Filter(s, p)) + multiset(Filter(s, q)) == multiset(s);
    calc {
      |Filter(s, p)| + |Filter(s, q)|;
      |multiset(Filter(s, p))| + |multiset(Filter(s, q))|;
      |multiset(s)|;
    }
  }
}

/**
 * `removeDuplicates` (data.js:212-219): walks the list once, remembering the
 * identifiers already seen in a `Set`, and keeps an item only if its
 * identifier was not seen before.
 *
 * `Dedup` is the specification, defined from the front of the list;
 * `DedupSnoc` characterises it from the back (the step the loop takes), and
 * `RemoveDuplicates` is the loop itself, proved to compute `Dedup`.
 */
module Deduplication {
  import opened Seqs
  import opened Entities

  /** The items of `s` whose identifier is neither in `seen` nor on an earlier item. */
  function DedupFrom(s: seq<Student>, seen: set<Id>): (r: seq<Student>)
    ensures UniqueIds(r)
    ensures Ids(r) == Ids(s) - seen
    ensures IsSubseq(r, s)
  {
    if s == [] then []
    else
      assert s == [s[0]] + s[1..];
      IdsAppend([s[0]], s[1..]);
      if s[0].id in seen then DedupFrom(s[1..], seen)
      else
        var rest := DedupFrom(s[1..], seen + {s[0].id});
        IdsAppend([s[0]], rest);
        assert ([s[0]] + rest)[1..] == rest;
        [s[0]] + rest
  }

  function Dedup(s: seq<Student>): (r: seq<Student>)
    ensures UniqueIds(r) && Ids(r) == Ids(s) && IsSubseq(r, s)
  {
    DedupFrom(s, {})
  }

  lemma {:induction false} DedupFromAppend(a: seq<Student>, b: seq<Student>, seen: set<Id>)
    ensures DedupFrom(a + b, seen) == DedupFrom(a, seen) + DedupFrom(b, seen + Ids(a))
  {
    if a == [] {
      assert a + b == b;
      assert seen + Ids(a) == seen;
    } else {
      var h, t := a[0], a[1..];
      assert a == [h] + t;
      assert (a + b)[0] == h && (a + b)[1..] == t + b;
      IdsAppend([h], t);
      if h.id in seen {
        DedupFromAppend(t, b, seen);
        assert seen + Ids(a) == seen + Ids(t);
      } else {
        DedupFromAppend(t, b, seen + {h.id});
        assert seen + {h.id} + Ids(t) == seen + Ids(a);
      }
    }
  }

  /**
   * Appending one item keeps it exactly when no earlier item had its
   * identifier: the first occurrence of every identifier is kept, in order.
   */
  lemma DedupSnoc(s: seq<Student>, x: Student)
    ensures Dedup(s + [x]) == Dedup(s) + (if x.id in Ids(s) then [] else [x])
  {
    DedupFromAppend(s, [x], {});
    assert {} + Ids(s) == Ids(s);
  }

  /** On a list whose identifiers are distinct and unseen, nothing is dropped. */
  lemma {:induction false} DedupFromUnique(s: seq<Student>, seen: set<Id>)
    requires UniqueIds(s) && Ids(s) !! seen
    ensures DedupFrom(s, seen) == s
  {
    if s != [] {
      assert s == [s[0]] + s[1..];
      IdsAppend([s[0]], s[1..]);
      DedupFromUnique(s[1..], seen + {s[0].id});
    }
  }

  lemma DedupIdempotent(s: seq<Student>)
    ensures Dedup(Dedup(s)) == Dedup(s)
  {
    DedupFromUnique(Dedup(s), {});
  }

  /**
   * On a list with distinct identifiers, dropping the identifiers in `seen`
   * is a plain filter.
   */
  lemma {:induction false} DedupFromFilter(s: seq<Student>, seen: set<Id>, unseen: Student -> bool)
    requires UniqueIds(s)
    requires forall x :: unseen(x) == (x.id !in seen)
    ensures DedupFrom(s, seen) == Filter(s, unseen)
  {
    if s != [] {
      var h, t := s[0], s[1..];
      if h.id in seen {
        DedupFromFilter(t, seen, unseen);
      } else {
        var unseen' := (x: Student) => x.id !in seen + {h.id};
        DedupFromFilter(t, seen + {h.id}, unseen');
        forall x | x in t ensures unseen'(x) == unseen(x) {
          var k :| 0 <= k < |t| && t[k] == x;
          assert s[k + 1] == x;
        }
        FilterExt(t, unseen', unseen);
      }
    }
  }

  /** Deleting entries cannot make two of them share an identifier. */
  lemma {:induction false} SubseqUniqueIds(a: seq<Student>, b: seq<Student>)
    requires IsSubseq(a, b) && UniqueIds(b)
    ensures UniqueIds(a)
    decreases |b|
  {
    if a != [] {
      if IsSubseq(a, b[1..]) {
        SubseqUniqueIds(a, b[1..]);
      } else {
        SubseqUniqueIds(a[1..], b[1..]);
        SubseqMultiset(a[1..], b[1..]);
        forall i, j | 0 <= i < j < |a| ensures a[i].id != a[j].id {
          assert a[j] == a[1..][j - 1];
          if i == 0 {
            assert a[j] in multiset(b[1..]);
            var k :| 0 <= k < |b[1..]| && b[1..][k] == a[j];
            assert b[k + 1] == a[j];
          } else {
            assert a[i] == a[1..][i - 1];
          }
        }
      }
    }
  }

  /** `removeDuplicates(array)`. */
  method RemoveDuplicates(items: seq<Student>) returns (r: seq<Student>)
    ensures r == Dedup(items)
  {
    var seen: set<Id> := {};
    r := [];
    for i := 0 to |items|
      invariant seen == Ids(items[..i])
      invariant r == Dedup(items[..i])
    {
      var item := items[i];
      var duplicate := item.id in seen;
      seen := seen + {item.id};
      if !duplicate {
        r := r + [item];
      }
      assert items[..i + 1] == items[..i] + [item];
      DedupSnoc(items[..i], item);
      IdsAppend(items[..i], [item]);
    }
    assert items[..|items|] == items;
  }
}

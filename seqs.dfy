/**
 * Sequences used as Java lists and queues: `List.remove(Object)` removes the
 * first equal element, and the engine keeps its lists free of duplicates.
 */
module Seqs {

  predicate NoDup<T(==)>(s: seq<T>)
  {
    forall i, j | 0 <= i < j < |s| :: s[i] != s[j]
  }

  /** `remove(Object)` on a Java list or queue: drops the first occurrence of `x`, if any. */
  function RemoveFirst<T(==)>(s: seq<T>, x: T): (r: seq<T>)
    ensures x !in s ==> r == s
    ensures x in s ==> |r| == |s| - 1
  {
    if s == [] then []
    else if s[0] == x then s[1..]
    else [s[0]] + RemoveFirst(s[1..], x)
  }

  /** `remove(x)` drops the first occurrence of `x` and keeps every other element in order. */
  lemma {:induction false} RemoveFirstAt<T>(s: seq<T>, x: T, i: nat)
    requires i < |s| && s[i] == x && x !in s[..i]
    ensures RemoveFirst(s, x) == s[..i] + s[i + 1..]
  {
    if i > 0 {
      assert s[0] in s[..i];
      assert s[1..][..i - 1] == s[1..i];
      RemoveFirstAt(s[1..], x, i - 1);
      assert s[..i] == [s[0]] + s[1..i];
      assert s[i + 1..] == s[1..][i..];
    }
  }

  /** `remove(x)` takes away exactly one occurrence of `x`, when there is one, and nothing else. */
  lemma {:induction false} RemoveFirstMultiset<T>(s: seq<T>, x: T)
    ensures multiset(RemoveFirst(s, x)) == multiset(s) - multiset{x}
  {
    if s != [] {
      assert s == [s[0]] + s[1..];
      if s[0] != x {
        RemoveFirstMultiset(s[1..], x);
        assert RemoveFirst(s, x) == [s[0]] + RemoveFirst(s[1..], x);
      }
    }
  }

  /**
   * Two orderings of one multiset: the last element of the first occurs in the
   * second at some `j`, and what remains of each is again one multiset.
   */
  lemma MatchLast<T>(a: seq<T>, b: seq<T>) returns (j: nat)
    requires multiset(a) == multiset(b) && a != []
    ensures j < |b| && b[j] == a[|a| - 1]
    ensures multiset(a[..|a| - 1]) == multiset(b[..j] + b[j + 1..])
  {
    var x := a[|a| - 1];
    assert a == a[..|a| - 1] + [x];
    assert x in multiset(b);
    j :| 0 <= j < |b| && b[j] == x;
    assert b == b[..j] + [x] + b[j + 1..];
    assert multiset(a[..|a| - 1]) == multiset(a) - multiset{x};
    assert multiset(b[..j] + b[j + 1..]) == multiset(b) - multiset{x};
  }

  lemma NoDupTail<T>(s: seq<T>)
    requires NoDup(s) && s != []
    ensures NoDup(s[1..]) && s[0] !in s[1..]
  {
  }

  /** On a duplicate-free list, `remove(x)` removes exactly `x` and keeps the list duplicate-free. */
  lemma {:induction false} RemoveFirstNoDup<T>(s: seq<T>, x: T)
    requires NoDup(s)
    ensures NoDup(RemoveFirst(s, x))
    ensures forall y :: y in RemoveFirst(s, x) <==> y in s && y != x
  {
    if s != [] {
      NoDupTail(s);
      if s[0] != x {
        RemoveFirstNoDup(s[1..], x);
        var r := RemoveFirst(s[1..], x);
        assert RemoveFirst(s, x) == [s[0]] + r;
        assert s[0] !in r;
      }
    }
  }

  /** On a duplicate-free list, `remove(x)` leaves no `x` behind. */
  lemma RemoveFirstRemoves<T>(s: seq<T>, x: T)
    requires NoDup(s)
    ensures NoDup(RemoveFirst(s, x)) && x !in RemoveFirst(s, x)
  {
    RemoveFirstNoDup(s, x);
  }

  lemma NoDupAppend<T>(s: seq<T>, x: T)
    requires NoDup(s) && x !in s
    ensures NoDup(s + [x])
  {
  }

  /** No element repeats in `a + b` iff neither part repeats one and they share none. */
  lemma NoDupConcat<T>(a: seq<T>, b: seq<T>)
    ensures NoDup(a + b) <==> NoDup(a) && NoDup(b) && forall y :: y in a ==> y !in b
  {
    if NoDup(a) && NoDup(b) && forall y :: y in a ==> y !in b {
      forall i, j | 0 <= i < j < |a + b| ensures (a + b)[i] != (a + b)[j] {
        if i < |a| && j >= |a| {
          assert (a + b)[i] in a;
          assert (a + b)[j] == b[j - |a|];
        }
      }
    }
    if NoDup(a + b) {
      assert a == (a + b)[..|a|];
      assert b == (a + b)[|a|..];
      forall i, j | 0 <= i < |a| && 0 <= j < |b| ensures a[i] != b[j] {
        assert (a + b)[i] == a[i] && (a + b)[|a| + j] == b[j];
      }
    }
  }

  /**
   * Recency order: moving `x` to the end of a duplicate-free list leaves it
   * duplicate-free, with `x` exactly once, as the last element.
   */
  lemma MoveToBack<T>(s: seq<T>, x: T)
    requires NoDup(s)
    ensures var r := RemoveFirst(s, x) + [x];
      NoDup(r) && r[|r| - 1] == x && x !in r[..|r| - 1]
      && forall y :: y in r <==> y in s || y == x
  {
    RemoveFirstNoDup(s, x);
    var r := RemoveFirst(s, x) + [x];
    NoDupAppend(RemoveFirst(s, x), x);
    assert r[..|r| - 1] == RemoveFirst(s, x);
  }

  /** Appending `x` and then removing it restores a list that did not hold it. */
  lemma {:induction false} RemoveFirstAppended<T>(s: seq<T>, x: T)
    requires x !in s
    ensures RemoveFirst(s + [x], x) == s
  {
    if s != [] {
      assert (s + [x])[1..] == s[1..] + [x];
      RemoveFirstAppended(s[1..], x);
    }
  }

  /** Appending to the queue an element held by neither list keeps the pair duplicate-free. */
  lemma NoDupEnqueue<T>(q: seq<T>, l: seq<T>, x: T)
    requires NoDup(q + l) && x !in q && x !in l
    ensures NoDup((q + [x]) + l)
  {
    NoDupConcat(q, l);
    NoDupAppend(q, x);
    NoDupConcat(q + [x], l);
  }

  /** Moving the head of the queue to the end of the second list keeps the pair duplicate-free. */
  lemma NoDupTake<T>(q: seq<T>, l: seq<T>)
    requires NoDup(q + l) && q != []
    ensures NoDup(q[1..] + (l + [q[0]]))
  {
    NoDupConcat(q, l);
    NoDupTail(q);
    NoDupAppend(l, q[0]);
    NoDupConcat(q[1..], l + [q[0]]);
  }

  lemma NoDupRemoveLeft<T>(q: seq<T>, l: seq<T>, x: T)
    requires NoDup(q + l)
    ensures NoDup(RemoveFirst(q, x) + l)
  {
    NoDupConcat(q, l);
    RemoveFirstNoDup(q, x);
    NoDupConcat(RemoveFirst(q, x), l);
  }

  lemma NoDupRemoveRight<T>(q: seq<T>, l: seq<T>, x: T)
    requires NoDup(q + l)
    ensures NoDup(q + RemoveFirst(l, x))
  {
    NoDupConcat(q, l);
    RemoveFirstNoDup(l, x);
    NoDupConcat(q, RemoveFirst(l, x));
  }
}

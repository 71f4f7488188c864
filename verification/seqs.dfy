/** Python list operations used by the clause engine, on sequences.
    List equality and the `in` test are value equality of sequences, so two
    equal clauses are indistinguishable here exactly as they are in the
    original lists. */
module Seqs {

  /** A value or its absence; stands for Python's `None` results and for the
      paths on which the original raises. */
  datatype Option<T> = None | Some(value: T)

  /** No value occurs twice. */
  predicate NoDuplicates<T(==,!new)>(s: seq<T>) {
    forall i, j :: 0 <= i < j < |s| ==> s[i] != s[j]
  }

  /** Python's `s[:-1]`: everything but the last element (empty for the empty list). */
  function AllButLast<T>(s: seq<T>): (r: seq<T>)
    ensures |s| > 0 ==> |r| == |s| - 1
    ensures |s| == 0 ==> r == []
    ensures forall i :: 0 <= i < |r| ==> r[i] == s[i]
  {
    if s == [] then [] else s[..|s| - 1]
  }

  /** Python's `s.index(x)`: the position of the first occurrence of `x`. */
  function IndexOf<T(==,!new)>(s: seq<T>, x: T): (i: nat)
    requires x in s
    ensures i < |s| && s[i] == x
    ensures forall j :: 0 <= j < i ==> s[j] != x
  {
    if s[0] == x then 0 else 1 + IndexOf(s[1..], x)
  }

  /** Python's `s.remove(x)`: drops the first occurrence of `x`.
      Python raises when `x` is absent; every call site in the model removes a
      value it has just found, and the absent case leaves `s` alone. */
  function RemoveFirst<T(==,!new)>(s: seq<T>, x: T): (r: seq<T>)
    ensures x in s ==> |r| == |s| - 1
    ensures x !in s ==> r == s
    ensures multiset(r) == multiset(s) - multiset{x}
  {
    if s == [] then []
    else
      assert s == [s[0]] + s[1..];
      if s[0] == x then s[1..] else [s[0]] + RemoveFirst(s[1..], x)
  }

  /** Removing `x` from a list that starts with `x` leaves the rest. */
  lemma RemoveFirstHead<T(!new)>(x: T, t: seq<T>)
    ensures RemoveFirst([x] + t, x) == t
  {
    var s := [x] + t;
    assert s[0] == x && s[1..] == t;
  }

  /** Removing the first `x` from a list that starts with values other than `x`
      only touches the tail. */
  lemma {:induction false} RemoveFirstAppend<T(!new)>(a: seq<T>, b: seq<T>, x: T)
    requires x !in a
    ensures RemoveFirst(a + b, x) == a + RemoveFirst(b, x)
  {
    if a != [] {
      var ab := a + b;
      assert ab[0] == a[0] != x;
      assert ab[1..] == a[1..] + b;
      assert RemoveFirst(ab, x) == [a[0]] + RemoveFirst(a[1..] + b, x);
      RemoveFirstAppend(a[1..], b, x);
      assert [a[0]] + (a[1..] + RemoveFirst(b, x)) == a + RemoveFirst(b, x);
    } else {
      assert a + b == b;
    }
  }

  /** The tail of a list free of repeats is free of repeats and does not
      hold the head. */
  lemma NoDuplicatesTail<T(!new)>(s: seq<T>)
    requires NoDuplicates(s) && s != []
    ensures NoDuplicates(s[1..]) && s[0] !in s[1..]
  {
    var t := s[1..];
    forall i, j | 0 <= i < j < |t| ensures t[i] != t[j] {
      assert t[i] == s[i + 1] && t[j] == s[j + 1];
    }
    forall i | 0 <= i < |t| ensures t[i] != s[0] {
      assert t[i] == s[i + 1];
    }
  }

  /** Removing one copy keeps a list free of repeats. */
  lemma {:induction false} RemoveFirstNoDuplicates<T(!new)>(s: seq<T>, x: T)
    requires NoDuplicates(s)
    ensures NoDuplicates(RemoveFirst(s, x))
  {
    if s != [] && s[0] != x {
      NoDuplicatesTail(s);
      RemoveFirstNoDuplicates(s[1..], x);
      var t := RemoveFirst(s[1..], x);
      assert s[0] !in t by {
        assert multiset(t)[s[0]] <= multiset(s[1..])[s[0]] == 0;
      }
      PrependFreshNoDuplicates(s[0], t);
    } else if s != [] {
      NoDuplicatesTail(s);
    }
  }

  /** Whatever survives `remove` was in the list. */
  lemma RemoveFirstMembers<T(!new)>(s: seq<T>, x: T)
    ensures forall y :: y in RemoveFirst(s, x) ==> y in s
  {
    forall y | y in RemoveFirst(s, x) ensures y in s {
      assert multiset(RemoveFirst(s, x))[y] > 0;
    }
  }

  /** `remove` takes out only the value asked for. */
  lemma RemoveFirstKeeps<T(!new)>(s: seq<T>, x: T, y: T)
    requires y in s && y != x
    ensures y in RemoveFirst(s, x)
  {
    assert multiset(s)[y] > 0;
    assert multiset(RemoveFirst(s, x))[y] > 0;
  }

  /** Appending a new value keeps a list free of repeats. */
  lemma AppendFreshNoDuplicates<T(!new)>(s: seq<T>, x: T)
    requires NoDuplicates(s) && x !in s
    ensures NoDuplicates(s + [x])
  {
    var r := s + [x];
    forall i, j | 0 <= i < j < |r| ensures r[i] != r[j] {
      assert r[i] == s[i];
      if j < |s| {
        assert r[j] == s[j];
      }
    }
  }

  lemma PrependFreshNoDuplicates<T(!new)>(x: T, s: seq<T>)
    requires NoDuplicates(s) && x !in s
    ensures NoDuplicates([x] + s)
  {
    var r := [x] + s;
    forall i, j | 0 <= i < j < |r| ensures r[i] != r[j] {
      assert r[j] == s[j - 1];
      if i > 0 {
        assert r[i] == s[i - 1];
      }
    }
  }

  /** A repeat-free list holds each of its members exactly once. */
  lemma {:induction false} DistinctCount<T(!new)>(s: seq<T>, x: T)
    requires NoDuplicates(s) && x in s
    ensures multiset(s)[x] == 1
  {
    assert s == [s[0]] + s[1..];
    assert NoDuplicates(s[1..]) by {
      forall i, j | 0 <= i < j < |s[1..]| ensures s[1..][i] != s[1..][j] {
        assert s[1..][i] == s[i + 1] && s[1..][j] == s[j + 1];
      }
    }
    if s[0] == x {
      assert x !in s[1..] by {
        forall i | 0 <= i < |s[1..]| ensures s[1..][i] != x {
          assert s[1..][i] == s[i + 1];
        }
      }
    } else {
      DistinctCount(s[1..], x);
    }
  }

  /** A repeat-free list whose members all occur in `b` is, as a multiset,
      part of `b`. */
  lemma {:induction false} DistinctMembersSubMultiset<T(!new)>(s: seq<T>, b: seq<T>)
    requires NoDuplicates(s) && forall x :: x in s ==> x in b
    ensures multiset(s) <= multiset(b)
    decreases |s|
  {
    if s != [] {
      var x, t := s[0], s[1..];
      assert s == [x] + t;
      NoDuplicatesTail(s);
      var b' := RemoveFirst(b, x);
      forall y | y in t ensures y in b' {
        assert y in s && y != x;
        assert multiset(b')[y] == multiset(b)[y] > 0;
      }
      DistinctMembersSubMultiset(t, b');
      assert multiset(s) == multiset(t) + multiset{x};
      assert multiset(b) == multiset(b') + multiset{x} by {
        assert x in b;
      }
    }
  }

  /** Pigeonhole: a repeat-free list of members of `b`, as long as `b`, holds
      every member of `b`. */
  lemma Pigeonhole<T(!new)>(s: seq<T>, b: seq<T>)
    requires NoDuplicates(s) && (forall x :: x in s ==> x in b) && |s| == |b|
    ensures forall y :: y in b ==> y in s
  {
    DistinctMembersSubMultiset(s, b);
    var ms, mb := multiset(s), multiset(b);
    assert mb == ms + (mb - ms);
    assert |mb - ms| == 0;
    forall y | y in b ensures y in s {
      assert y in mb;
      assert (mb - ms)[y] == 0;
    }
  }

  /** Python's `[y for y in s if y not in xs]`, and equally the loop
      `for x in xs: while x in s: s.remove(x)`: every element equal to a member
      of `xs` is dropped, the others keep their order. */
  function RemoveAllOf<T(==,!new)>(s: seq<T>, xs: seq<T>): (r: seq<T>)
    ensures forall y :: y in r <==> y in s && y !in xs
    ensures |r| <= |s|
  {
    if s == [] then []
    else
      assert forall y :: y in s <==> y == s[0] || y in s[1..];
      (if s[0] in xs then [] else [s[0]]) + RemoveAllOf(s[1..], xs)
  }

  /** Only which members of `s` are listed matters, not the list itself. */
  lemma {:induction false} RemoveAllOfSameListed<T(!new)>(s: seq<T>, xs: seq<T>, ys: seq<T>)
    requires forall y :: y in s ==> (y in xs <==> y in ys)
    ensures RemoveAllOf(s, xs) == RemoveAllOf(s, ys)
  {
    if s != [] {
      assert forall y :: y in s[1..] ==> y in s;
      RemoveAllOfSameListed(s[1..], xs, ys);
    }
  }

  lemma RemoveAllOfNothing<T(!new)>(s: seq<T>, xs: seq<T>)
    requires forall y :: y in s ==> y !in xs
    ensures RemoveAllOf(s, xs) == s
  {
    if s != [] {
      RemoveAllOfNothing(s[1..], xs);
      assert s == [s[0]] + s[1..];
    }
  }

  lemma RemoveAllOfNoDuplicates<T(!new)>(s: seq<T>, xs: seq<T>)
    requires NoDuplicates(s)
    ensures NoDuplicates(RemoveAllOf(s, xs))
  {
    if s != [] {
      RemoveAllOfNoDuplicates(s[1..], xs);
      assert s[0] !in s[1..] by {
        forall i | 0 <= i < |s[1..]| ensures s[1..][i] != s[0] {
          assert s[1..][i] == s[i + 1];
        }
      }
    }
  }

  /** Dropping a value the list holds shortens it. */
  lemma {:induction false} RemoveAllOfShorter<T(!new)>(s: seq<T>, xs: seq<T>, x: T)
    requires x in s && x in xs
    ensures |RemoveAllOf(s, xs)| < |s|
  {
    if s[0] != x {
      RemoveAllOfShorter(s[1..], xs, x);
    }
  }

  /** Keeps, of every value, only its LAST occurrence; the survivors keep
      their relative order. */
  function DedupLast<T(==,!new)>(s: seq<T>): (r: seq<T>)
    ensures forall y :: y in r <==> y in s
    ensures NoDuplicates(r)
    ensures |r| <= |s|
  {
    if s == [] then []
    else
      assert forall y :: y in s <==> y == s[0] || y in s[1..];
      if s[0] in s[1..] then DedupLast(s[1..]) else [s[0]] + DedupLast(s[1..])
  }

  /** A list without repeated values is its own de-duplication. */
  lemma {:induction false} DedupLastOfDistinct<T(!new)>(s: seq<T>)
    requires NoDuplicates(s)
    ensures DedupLast(s) == s
  {
    if s != [] {
      assert s[0] !in s[1..] by {
        forall i | 0 <= i < |s[1..]| ensures s[1..][i] != s[0] {
          assert s[1..][i] == s[i + 1];
        }
      }
      assert NoDuplicates(s[1..]) by {
        forall i, j | 0 <= i < j < |s[1..]| ensures s[1..][i] != s[1..][j] {
          assert s[1..][i] == s[i + 1] && s[1..][j] == s[j + 1];
        }
      }
      DedupLastOfDistinct(s[1..]);
      assert s == [s[0]] + s[1..];
    }
  }

  /** The loop `for x in s: if x not in acc: acc.append(x)`, which keeps the
      FIRST occurrence of every value. */
  function AppendNew<T(==,!new)>(acc: seq<T>, s: seq<T>): (r: seq<T>)
    ensures forall y :: y in r <==> y in acc || y in s
    ensures NoDuplicates(acc) ==> NoDuplicates(r)
    ensures |acc| <= |r| && r[..|acc|] == acc
    decreases |s|
  {
    if s == [] then acc
    else
      assert forall y :: y in s <==> y == s[0] || y in s[1..];
      var acc' := if s[0] in acc then acc else acc + [s[0]];
      var r := AppendNew(acc', s[1..]);
      assert r[..|acc|] == r[..|acc'|][..|acc|];
      r
  }

  /** Keeps, of every value, only its first occurrence. */
  function DedupFirst<T(==,!new)>(s: seq<T>): (r: seq<T>)
    ensures forall y :: y in r <==> y in s
    ensures NoDuplicates(r)
  {
    AppendNew([], s)
  }

  /** `s` and `t` hold the same values, with no regard to order or repetition. */
  ghost predicate SameElements<T(!new)>(s: seq<T>, t: seq<T>) {
    forall y :: y in s <==> y in t
  }
}

/** Order-preserving filtering and first-occurrence removal on sequences. */
module Seqs {

  /** The elements of `s` that satisfy `p`, in their order in `s`. */
  function Filter<T>(s: seq<T>, p: T -> bool): seq<T> {
    if s == [] then [] else (if p(s[0]) then [s[0]] else []) + Filter(s[1..], p)
  }

  lemma FilterSingleton<T>(x: T, p: T -> bool)
    ensures Filter([x], p) == if p(x) then [x] else []
  {
    assert [x][1..] == [];
  }

  /** Filtering commutes with concatenation, so it never reorders. */
  lemma {:induction false} FilterAppend<T>(a: seq<T>, b: seq<T>, p: T -> bool)
    ensures Filter(a + b, p) == Filter(a, p) + Filter(b, p)
  {
    if a == [] {
      assert a + b == b;
    } else {
      var head := if p(a[0]) then [a[0]] else [];
      assert (a + b)[0] == a[0] && (a + b)[1..] == a[1..] + b;
      assert Filter(a + b, p) == head + Filter(a[1..] + b, p);
      FilterAppend(a[1..], b, p);
      assert Filter(a, p) == head + Filter(a[1..], p);
    }
  }

  lemma {:induction false} FilterMembership<T>(s: seq<T>, p: T -> bool)
    ensures forall x :: x in Filter(s, p) <==> x in s && p(x)
  {
    if s != [] {
      FilterMembership(s[1..], p);
      assert s == [s[0]] + s[1..];
    }
  }

  lemma {:induction false} FilterExtensional<T>(s: seq<T>, p: T -> bool, q: T -> bool)
    requires forall x :: p(x) == q(x)
    ensures Filter(s, p) == Filter(s, q)
  {
    if s != [] {
      FilterExtensional(s[1..], p, q);
    }
  }

  /** An element in `s` and its complement together are `s`, counted with multiplicity. */
  lemma {:induction false} FilterPartition<T>(s: seq<T>, p: T -> bool, q: T -> bool)
    requires forall x :: q(x) == !p(x)
    ensures multiset(Filter(s, p)) + multiset(Filter(s, q)) == multiset(s)
  {
    if s != [] {
      FilterPartition(s[1..], p, q);
      assert s == [s[0]] + s[1..];
    }
  }

  /** Python's `list.remove(x)` on values: drop the first element equal to `x`, if any. */
  function RemoveFirst<T(==)>(s: seq<T>, x: T): (r: seq<T>)
    ensures x !in s ==> r == s
    ensures x in s ==> |r| == |s| - 1
    ensures multiset(r) == multiset(s) - multiset{x}
  {
    if s == [] then []
    else
      assert s == [s[0]] + s[1..];
      if s[0] == x then s[1..] else [s[0]] + RemoveFirst(s[1..], x)
  }

  /** Taking away `a` and then `b` takes away `a + b`. */
  lemma MultisetMinusTwice<T>(m: multiset<T>, a: multiset<T>, b: multiset<T>)
    ensures m - a - b == m - (a + b)
  {
    forall y ensures (m - a - b)[y] == (m - (a + b))[y] {
    }
  }

  /** `for x in xs: s.remove(x)`. */
  function RemoveEach<T(==)>(s: seq<T>, xs: seq<T>): (r: seq<T>)
    ensures multiset(r) == multiset(s) - multiset(xs)
    decreases |xs|
  {
    if xs == [] then s
    else
      assert xs == [xs[0]] + xs[1..];
      MultisetMinusTwice(multiset(s), multiset{xs[0]}, multiset(xs[1..]));
      RemoveEach(RemoveFirst(s, xs[0]), xs[1..])
  }

  lemma {:induction false} RemoveEachSkipsHead<T>(x: T, rest: seq<T>, xs: seq<T>)
    requires x !in xs
    ensures RemoveEach([x] + rest, xs) == [x] + RemoveEach(rest, xs)
    decreases |xs|
  {
    if xs != [] {
      assert ([x] + rest)[1..] == rest;
      assert RemoveFirst([x] + rest, xs[0]) == [x] + RemoveFirst(rest, xs[0]);
      RemoveEachSkipsHead(x, RemoveFirst(rest, xs[0]), xs[1..]);
    }
  }

  /** One step of RemoveEachFiltered when the head is selected: removing it first leaves the tail's job. */
  lemma RemoveEachSelectedHead<T>(s: seq<T>, p: T -> bool)
    requires s != [] && p(s[0])
    ensures RemoveEach(s, Filter(s, p)) == RemoveEach(s[1..], Filter(s[1..], p))
  {
    var x, f := s[0], Filter(s[1..], p);
    assert Filter(s, p) == [x] + f;
    assert ([x] + f)[1..] == f;
    assert RemoveFirst(s, x) == s[1..];
  }

  /** One step of RemoveEachFiltered when the head is not selected: it stays in front. */
  lemma RemoveEachKeptHead<T>(s: seq<T>, p: T -> bool)
    requires s != [] && !p(s[0])
    ensures RemoveEach(s, Filter(s, p)) == [s[0]] + RemoveEach(s[1..], Filter(s[1..], p))
  {
    var x, rest := s[0], s[1..];
    var f := Filter(rest, p);
    assert Filter(s, p) == f;
    FilterMembership(rest, p);
    assert x !in f;
    assert s == [x] + rest;
    RemoveEachSkipsHead(x, rest, f);
  }

  /** Removing, one by one, the elements that satisfy `p` leaves exactly those that do not, in order. */
  lemma {:induction false} RemoveEachFiltered<T>(s: seq<T>, p: T -> bool, q: T -> bool)
    requires forall x :: q(x) == !p(x)
    ensures RemoveEach(s, Filter(s, p)) == Filter(s, q)
  {
    if s != [] {
      RemoveEachFiltered(s[1..], p, q);
      if p(s[0]) {
        RemoveEachSelectedHead(s, p);
        assert Filter(s, q) == Filter(s[1..], q);
      } else {
        RemoveEachKeptHead(s, p);
        assert Filter(s, q) == [s[0]] + Filter(s[1..], q);
      }
    }
  }
}

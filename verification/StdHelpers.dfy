/** The vector macros of StdHelpers.h, on vectors of addresses. */
module StdHelpers {

  /** No element occurs twice. */
  ghost predicate NoDup<T(!new)>(v: seq<T>) {
    forall i, j :: 0 <= i < j < |v| ==> v[i] != v[j]
  }

  /** The elements of v that satisfy p, in their order. */
  function Filter<T(!new)>(v: seq<T>, p: T -> bool): (r: seq<T>)
    ensures forall x :: x in r <==> x in v && p(x)
  {
    if v == [] then []
    else
      var init, last := v[..|v| - 1], v[|v| - 1];
      assert v == init + [last];
      if p(last) then Filter(init, p) + [last] else Filter(init, p)
  }

  lemma {:induction false} FilterNoDup<T(!new)>(v: seq<T>, p: T -> bool)
    requires NoDup(v)
    ensures NoDup(Filter(v, p))
  {
    if v != [] {
      FilterNoDup(v[..|v| - 1], p);
    }
  }

  /** Every element satisfying p stays, as often as it was there, and in its order: what is kept of
      the elements in front of one stands in front of it. */
  lemma {:induction false} FilterKeepsOrder<T(!new)>(v: seq<T>, p: T -> bool, k: nat)
    requires k < |v|
    ensures Filter(v[..k], p) <= Filter(v, p)
    ensures p(v[k]) ==> |Filter(v[..k], p)| < |Filter(v, p)| && Filter(v, p)[|Filter(v[..k], p)|] == v[k]
    ensures |Filter(v, p)| == |Filter(v[..k], p)| + (if p(v[k]) then 1 else 0) + |Filter(v[k + 1..], p)|
  {
    var n := |v| - 1;
    if k < n {
      FilterKeepsOrder(v[..n], p, k);
      assert v[..n][..k] == v[..k];
      assert v[k + 1..][..n - k - 1] == v[..n][k + 1..];
    } else {
      assert v[k + 1..] == [] && v[..n] == v[..k];
    }
  }

  function OtherThan(x: nat): nat -> bool {
    y => y != x
  }

  function KeyOf<V>(m: map<nat, V>): nat -> bool {
    x => x in m
  }

  ghost predicate StrictlyAscending(v: seq<nat>) {
    forall i, j :: 0 <= i < j < |v| ==> v[i] < v[j]
  }

  /** VEC_REMOVE_IF (and VEC_REMOVE_VALUE): the kept elements close up, in order. */
  method RemoveIf(v: seq<nat>, keep: nat -> bool) returns (r: seq<nat>)
    ensures r == Filter(v, keep)
  {
    r := [];
    for i := 0 to |v|
      invariant r == Filter(v[..i], keep)
    {
      assert v[..i + 1][..i] == v[..i];
      if keep(v[i]) {
        r := r + [v[i]];
      }
    }
    assert v[..|v|] == v;
  }

  /** What std::sort demands of a comparison. */
  ghost predicate StrictWeakOrder<V(!new)>(less: (V, V) -> bool) {
    && (forall a :: !less(a, a))
    && (forall a, b, d :: less(a, b) && less(b, d) ==> less(a, d))
    && (forall a, b, d :: less(a, d) ==> less(a, b) || less(b, d))
  }

  /** No element comes before an earlier one. */
  ghost predicate SortedBy(v: seq<nat>, less: (nat, nat) -> bool) {
    forall i, j :: 0 <= i < j < |v| ==> !less(v[j], v[i])
  }

  predicate Smaller(a: nat, b: nat) {
    a < b
  }

  function InsertBy(v: seq<nat>, x: nat, less: (nat, nat) -> bool): seq<nat> {
    if v == [] || !less(x, v[|v| - 1]) then v + [x]
    else InsertBy(v[..|v| - 1], x, less) + [v[|v| - 1]]
  }

  lemma {:induction false} InsertMultiset(v: seq<nat>, x: nat, less: (nat, nat) -> bool)
    ensures multiset(InsertBy(v, x, less)) == multiset(v) + multiset{x}
  {
    if v != [] && less(x, v[|v| - 1]) {
      assert v == v[..|v| - 1] + [v[|v| - 1]];
      InsertMultiset(v[..|v| - 1], x, less);
    }
  }

  lemma SameMembers(v: seq<nat>, w: seq<nat>)
    requires multiset(v) == multiset(w)
    ensures forall x :: x in v <==> x in w
  {
    assert forall x :: x in v <==> x in multiset(v);
    assert forall x :: x in w <==> x in multiset(w);
  }

  lemma {:induction false} InsertSorted(v: seq<nat>, x: nat, less: (nat, nat) -> bool)
    requires StrictWeakOrder(less) && SortedBy(v, less)
    ensures SortedBy(InsertBy(v, x, less), less)
  {
    if v != [] && less(x, v[|v| - 1]) {
      var init, last := v[..|v| - 1], v[|v| - 1];
      var r := InsertBy(init, x, less);
      InsertSorted(init, x, less);
      InsertMultiset(init, x, less);
      SameMembers(r, init + [x]);
      forall i | 0 <= i < |r| ensures !less(last, r[i]) {
        assert r[i] in init + [x];
      }
    }
  }

  /** std::sort. */
  method Sort(v: seq<nat>, less: (nat, nat) -> bool) returns (r: seq<nat>)
    requires StrictWeakOrder(less)
    ensures SortedBy(r, less) && multiset(r) == multiset(v)
  {
    r := [];
    for i := 0 to |v|
      invariant SortedBy(r, less)
      invariant multiset(r) == multiset(v[..i])
    {
      InsertSorted(r, v[i], less);
      InsertMultiset(r, v[i], less);
      assert v[..i + 1] == v[..i] + [v[i]];
      r := InsertBy(r, v[i], less);
    }
    assert v[..|v|] == v;
  }

  /** VEC_REMOVE_DUPLICATES: sort, then std::unique. The result is the one strictly
      ascending vector with the same members. */
  method RemoveDuplicates(v: seq<nat>) returns (r: seq<nat>)
    ensures StrictlyAscending(r)
    ensures forall x :: x in r <==> x in v
  {
    var s := Sort(v, Smaller);
    SameMembers(s, v);
    r := [];
    for i := 0 to |s|
      invariant StrictlyAscending(r)
      invariant forall x :: x in r <==> x in s[..i]
      invariant r != [] ==> i > 0 && r[|r| - 1] == s[i - 1]
    {
      if r == [] || r[|r| - 1] != s[i] {
        r := r + [s[i]];
      }
    }
    assert s[..|s|] == s;
  }

  /** Two strictly ascending vectors with the same members are the same vector. */
  lemma {:induction false} AscendingUnique(v: seq<nat>, w: seq<nat>)
    requires StrictlyAscending(v) && StrictlyAscending(w)
    requires forall x :: x in v <==> x in w
    ensures v == w
  {
    assert w == [] || v != [] by {
      if w != [] { assert w[0] in w; }
    }
    if v != [] {
      assert v[0] in w;
      assert w[0] in v;
      assert v[0] == w[0];
      forall x ensures x in v[1..] <==> x in w[1..] {
        if x in v[1..] { assert x in w; }
        if x in w[1..] { assert x in v; }
      }
      AscendingUnique(v[1..], w[1..]);
      assert v == [v[0]] + v[1..] && w == [w[0]] + w[1..];
    }
  }

  /** QVector::removeOne and QList::removeOne: the first occurrence goes. */
  function RemoveOne<T(==)>(s: seq<T>, x: T): seq<T> {
    if s == [] then [] else if s[0] == x then s[1..] else [s[0]] + RemoveOne(s[1..], x)
  }

  /** removeOne takes out the first occurrence and nothing else. */
  lemma {:induction false} RemoveOneFirst<T>(s: seq<T>, x: T) returns (i: nat)
    ensures x !in s ==> RemoveOne(s, x) == s
    ensures x in s ==> i < |s| && s[i] == x && x !in s[..i] && RemoveOne(s, x) == s[..i] + s[i + 1..]
  {
    i := 0;
    if s != [] && s[0] != x {
      var rest := s[1..];
      i := RemoveOneFirst(rest, x);
      assert s == [s[0]] + rest;
      if x in rest {
        TakenBehind(s, i);
      }
      i := i + 1;
    }
  }

  lemma TakenBehind<T>(s: seq<T>, i: nat)
    requires s != [] && i < |s[1..]|
    ensures s[..i + 1] == [s[0]] + s[1..][..i]
    ensures [s[0]] + (s[1..][..i] + s[1..][i + 1..]) == s[..i + 1] + s[i + 2..]
  {
  }

  lemma OnceEach(v: seq<nat>, x: nat)
    requires NoDup(v) && x in v
    ensures multiset(v)[x] == 1
    decreases |v|
  {
    var n := |v| - 1;
    assert v == v[..n] + [v[n]];
    if x == v[n] {
      assert x !in v[..n];
    } else {
      OnceEach(v[..n], x);
    }
  }

  lemma SortedNoDup(v: seq<nat>, r: seq<nat>)
    requires NoDup(v) && multiset(r) == multiset(v)
    ensures NoDup(r)
  {
    SameMembers(v, r);
    forall i, j | 0 <= i < j < |r| ensures r[i] != r[j] {
      if r[i] == r[j] {
        TwiceInside(r, i, j);
        assert r[i] in v;
        OnceEach(v, r[i]);
      }
    }
  }

  lemma TwiceInside(r: seq<nat>, i: nat, j: nat)
    requires i < j < |r| && r[i] == r[j]
    ensures multiset(r)[r[i]] >= 2
  {
    assert r == r[..j] + r[j..];
    assert r[i] in r[..j] && r[j] in r[j..];
  }

  /** There is always an address that is not taken. */
  lemma FreeExists(s: set<nat>) returns (p: nat)
    ensures p !in s
    ensures forall x :: x in s ==> x < p
  {
    p := 0;
    if s != {} {
      var x :| x in s;
      p := FreeExists(s - {x});
      assert s == (s - {x}) + {x};
      if p <= x { p := x + 1; }
    }
  }
}

/** Python's stable `sorted` with an ordering, and why its result is unique. */
module Sorting {

  import opened Text

  ghost predicate TotalPreorder<T(!new)>(leq: (T, T) -> bool) {
    && (forall x, y :: leq(x, y) || leq(y, x))
    && (forall x, y, z :: leq(x, y) && leq(y, z) ==> leq(x, z))
  }

  ghost predicate SortedBy<T>(s: seq<T>, leq: (T, T) -> bool) {
    forall i, j :: 0 <= i < j < |s| ==> leq(s[i], s[j])
  }

  /** No two different elements are tied. */
  ghost predicate Untied<T>(s: seq<T>, leq: (T, T) -> bool) {
    forall x, y :: x in s && y in s && leq(x, y) && leq(y, x) ==> x == y
  }

  function Insert<T>(x: T, s: seq<T>, leq: (T, T) -> bool): seq<T> {
    if s == [] || leq(x, s[0]) then [x] + s else [s[0]] + Insert(x, s[1..], leq)
  }

  function Sort<T>(s: seq<T>, leq: (T, T) -> bool): seq<T> {
    if s == [] then [] else Insert(s[0], Sort(s[1..], leq), leq)
  }

  lemma {:induction false} InsertSorted<T(!new)>(x: T, s: seq<T>, leq: (T, T) -> bool)
    requires TotalPreorder(leq) && SortedBy(s, leq)
    ensures SortedBy(Insert(x, s, leq), leq)
    ensures multiset(Insert(x, s, leq)) == multiset(s) + multiset{x}
  {
    if s == [] || leq(x, s[0]) {
      assert forall y :: y in s ==> leq(x, y);
    } else {
      var rest := Insert(x, s[1..], leq);
      InsertSorted(x, s[1..], leq);
      assert s == [s[0]] + s[1..];
      forall y | y in rest ensures leq(s[0], y) {
        assert y in multiset(rest);
        assert y == x || y in multiset(s[1..]);
      }
    }
  }

  lemma TailOf<T>(s: seq<T>)
    requires s != []
    ensures multiset(s[1..]) == multiset(s) - multiset{s[0]}
  {
    assert s == [s[0]] + s[1..];
  }

  lemma SameElements<T>(s: seq<T>, t: seq<T>)
    requires multiset(s) == multiset(t)
    ensures |s| == |t| && forall x :: x in s <==> x in t
  {
    assert |multiset(s)| == |multiset(t)|;
    assert forall x :: x in s <==> x in multiset(s);
    assert forall x :: x in t <==> x in multiset(t);
  }

  lemma {:induction false} SortSorts<T(!new)>(s: seq<T>, leq: (T, T) -> bool)
    requires TotalPreorder(leq)
    ensures SortedBy(Sort(s, leq), leq)
    ensures multiset(Sort(s, leq)) == multiset(s)
    ensures |Sort(s, leq)| == |s|
    ensures forall x :: x in Sort(s, leq) <==> x in s
  {
    if s != [] {
      SortSorts(s[1..], leq);
      InsertSorted(s[0], Sort(s[1..], leq), leq);
      TailOf(s);
    }
    SameElements(Sort(s, leq), s);
  }

  lemma SmallestFirst<T(!new)>(a: seq<T>, b: seq<T>, leq: (T, T) -> bool)
    requires a != [] && SortedBy(a, leq) && SortedBy(b, leq)
    requires forall x, y :: leq(x, y) || leq(y, x)
    requires multiset(a) == multiset(b) && Untied(a, leq)
    ensures b != [] && a[0] == b[0]
  {
    assert a[0] in multiset(b);
    assert b[0] in multiset(a);
    assert leq(a[0], b[0]) && leq(b[0], a[0]);
  }

  lemma EmptyPermutation<T>(s: seq<T>)
    requires multiset(s) == multiset{}
    ensures s == []
  {
    assert |multiset(s)| == 0;
  }

  lemma {:induction false} SortedUnique<T(!new)>(a: seq<T>, b: seq<T>, leq: (T, T) -> bool)
    requires (forall x, y :: leq(x, y) || leq(y, x)) && SortedBy(a, leq) && SortedBy(b, leq)
    requires multiset(a) == multiset(b) && Untied(a, leq)
    ensures a == b
  {
    if a == [] {
      EmptyPermutation(b);
    } else {
      SmallestFirst(a, b, leq);
      TailOf(a);
      TailOf(b);
      assert a == [a[0]] + a[1..] && b == [b[0]] + b[1..];
      SortedUnique(a[1..], b[1..], leq);
    }
  }

  /** Sorting forgets the input order, as long as no two different elements are tied. */
  lemma SortForgetsOrder<T(!new)>(s: seq<T>, t: seq<T>, leq: (T, T) -> bool)
    requires TotalPreorder(leq) && multiset(s) == multiset(t) && Untied(s, leq)
    ensures Sort(s, leq) == Sort(t, leq)
  {
    SortSorts(s, leq);
    SortSorts(t, leq);
    SortedUnique(Sort(s, leq), Sort(t, leq), leq);
  }

  // ----- Symmetric relations between the elements of a sequence -----

  ghost predicate Pairwise<T>(s: seq<T>, rel: (T, T) -> bool) {
    forall i, j :: 0 <= i < j < |s| ==> rel(s[i], s[j])
  }

  ghost predicate AllRelated<T>(x: T, s: seq<T>, rel: (T, T) -> bool) {
    forall y :: y in s ==> rel(x, y)
  }

  lemma PairwiseHead<T(!new)>(s: seq<T>, rel: (T, T) -> bool)
    requires s != []
    ensures Pairwise(s, rel) <==> AllRelated(s[0], s[1..], rel) && Pairwise(s[1..], rel)
  {
    if AllRelated(s[0], s[1..], rel) && Pairwise(s[1..], rel) {
      forall i, j | 0 <= i < j < |s| ensures rel(s[i], s[j]) {
        assert s[j] == s[1..][j - 1];
      }
    }
    if Pairwise(s, rel) {
      forall y | y in s[1..] ensures rel(s[0], y) {
        var j :| 0 <= j < |s[1..]| && s[1..][j] == y;
        assert s[j + 1] == y;
      }
      forall i, j | 0 <= i < j < |s[1..]| ensures rel(s[1..][i], s[1..][j]) {
        assert rel(s[i + 1], s[j + 1]);
      }
    }
  }

  function Removed<T>(s: seq<T>, k: nat): seq<T>
    requires k < |s|
  {
    s[..k] + s[k + 1..]
  }

  /** Taking any one element out and checking it against the rest decides the whole. */
  lemma PairwiseWithout<T(!new)>(s: seq<T>, k: nat, rel: (T, T) -> bool)
    requires k < |s| && forall x, y :: rel(x, y) ==> rel(y, x)
    ensures Pairwise(s, rel) <==>
            AllRelated(s[k], Removed(s, k), rel) && Pairwise(Removed(s, k), rel)
  {
    var rest := Removed(s, k);
    if Pairwise(s, rel) {
      forall y | y in rest ensures rel(s[k], y) {
        var j :| 0 <= j < |rest| && rest[j] == y;
        assert y == s[if j < k then j else j + 1];
      }
      forall i, j | 0 <= i < j < |rest| ensures rel(rest[i], rest[j]) {
        assert rest[i] == s[if i < k then i else i + 1];
        assert rest[j] == s[if j < k then j else j + 1];
      }
    }
    if AllRelated(s[k], rest, rel) && Pairwise(rest, rel) {
      forall i, j | 0 <= i < j < |s| ensures rel(s[i], s[j]) {
        if i != k {
          assert s[i] == rest[if i < k then i else i - 1];
        }
        if j != k {
          assert s[j] == rest[if j < k then j else j - 1];
        }
      }
    }
  }

  lemma Without<T>(s: seq<T>, k: nat)
    requires k < |s|
    ensures multiset(s) == multiset(Removed(s, k)) + multiset{s[k]}
  {
    assert s == s[..k] + ([s[k]] + s[k + 1..]);
  }

  /** Of two permutations, the first element of one is found in the other; the rests are permutations. */
  lemma MatchHead<T>(s: seq<T>, t: seq<T>) returns (k: nat)
    requires s != [] && multiset(s) == multiset(t)
    ensures k < |t| && t[k] == s[0]
    ensures multiset(s[1..]) == multiset(Removed(t, k))
  {
    assert s[0] in multiset(t);
    k :| k < |t| && t[k] == s[0];
    Without(t, k);
    TailOf(s);
    assert multiset(Removed(t, k)) == multiset(t) - multiset{t[k]};
  }

  lemma RelatedForgetsOrder<T(!new)>(x: T, s: seq<T>, t: seq<T>, rel: (T, T) -> bool)
    requires multiset(s) == multiset(t)
    ensures AllRelated(x, s, rel) <==> AllRelated(x, t, rel)
  {
    assert forall y :: y in s <==> y in multiset(s);
    assert forall y :: y in t <==> y in multiset(t);
  }

  lemma {:induction false} PairwiseForgetsOrder<T(!new)>(s: seq<T>, t: seq<T>, rel: (T, T) -> bool)
    requires multiset(s) == multiset(t) && forall x, y :: rel(x, y) ==> rel(y, x)
    ensures Pairwise(s, rel) <==> Pairwise(t, rel)
  {
    if s == [] {
      EmptyPermutation(t);
    } else {
      var k := MatchHead(s, t);
      PairwiseForgetsOrder(s[1..], Removed(t, k), rel);
      PairwiseHead(s, rel);
      PairwiseWithout(t, k, rel);
      RelatedForgetsOrder(s[0], s[1..], Removed(t, k), rel);
    }
  }

  lemma SomeMember<T>(s: seq<T>)
    ensures s != [] ==> exists x :: x in s
  {
    if s != [] {
      assert s[0] in s;
    }
  }

  /** Without repetitions, the same elements are a permutation. */
  lemma {:induction false} SameMembers<T(!new)>(s: seq<T>, t: seq<T>, rel: (T, T) -> bool)
    requires Pairwise(s, rel) && Pairwise(t, rel) && forall x :: !rel(x, x)
    requires forall x, y :: rel(x, y) ==> rel(y, x)
    requires forall x :: x in s <==> x in t
    ensures multiset(s) == multiset(t)
  {
    if s == [] {
      SomeMember(t);
    } else {
      assert s[0] in s && s[0] in t;
      var k :| 0 <= k < |t| && t[k] == s[0];
      PairwiseHead(s, rel);
      PairwiseWithout(t, k, rel);
      assert forall x :: x in s <==> x == s[0] || x in s[1..];
      assert forall x :: x in t <==> x == t[k] || x in Removed(t, k);
      SameMembers(s[1..], Removed(t, k), rel);
      Without(t, k);
      assert s == [s[0]] + s[1..];
    }
  }

  lemma {:induction false} FilterKeepsPairwise<T(!new)>(p: T -> bool, s: seq<T>, rel: (T, T) -> bool)
    requires Pairwise(s, rel)
    ensures Pairwise(Filter(p, s), rel)
  {
    if s != [] {
      var n := |s| - 1;
      var kept := Filter(p, s[..n]);
      assert Pairwise(s[..n], rel);
      FilterKeepsPairwise(p, s[..n], rel);
      forall j | 0 <= j < |kept| ensures rel(kept[j], s[n]) {
        FilterMembers(p, s[..n], kept[j]);
        var i :| 0 <= i < n && s[..n][i] == kept[j];
        assert s[i] == kept[j];
      }
    }
  }

  // ----- Carrying results along a permutation -----

  function Firsts<T, U>(pairs: seq<(T, U)>): seq<T> {
    seq(|pairs|, i requires 0 <= i < |pairs| => pairs[i].0)
  }

  /** If the keys of some pairs are permuted, the pairs can be permuted along with them. */
  lemma {:induction false} Rearrange<T, U>(pairs: seq<(T, U)>, keys: seq<T>) returns (pairs': seq<(T, U)>)
    requires multiset(Firsts(pairs)) == multiset(keys)
    ensures multiset(pairs') == multiset(pairs) && Firsts(pairs') == keys
  {
    if keys == [] {
      EmptyPermutation(Firsts(pairs));
      pairs' := [];
    } else {
      var k := MatchHead(keys, Firsts(pairs));
      assert Firsts(Removed(pairs, k)) == Removed(Firsts(pairs), k);
      var rest' := Rearrange(Removed(pairs, k), keys[1..]);
      Without(pairs, k);
      pairs' := [pairs[k]] + rest';
    }
  }

  function Seconds<T, U>(pairs: seq<(T, U)>): seq<U> {
    seq(|pairs|, i requires 0 <= i < |pairs| => pairs[i].1)
  }

  lemma SecondsWithout<T, U>(pairs: seq<(T, U)>, k: nat)
    requires k < |pairs|
    ensures multiset(Seconds(pairs)) == multiset(Seconds(Removed(pairs, k))) + multiset{pairs[k].1}
  {
    Without(Seconds(pairs), k);
    assert Seconds(Removed(pairs, k)) == Removed(Seconds(pairs), k);
  }

  lemma {:induction false} SecondsForgetOrder<T, U>(pairs: seq<(T, U)>, pairs': seq<(T, U)>)
    requires multiset(pairs) == multiset(pairs')
    ensures multiset(Seconds(pairs)) == multiset(Seconds(pairs'))
  {
    if pairs == [] {
      EmptyPermutation(pairs');
    } else {
      var k := MatchHead(pairs, pairs');
      SecondsForgetOrder(pairs[1..], Removed(pairs', k));
      SecondsWithout(pairs', k);
      SecondsWithout(pairs, 0);
      assert Removed(pairs, 0) == pairs[1..];
    }
  }

  /** The sum of a size over a sequence. */
  function Total<T>(size: T -> nat, s: seq<T>): nat {
    if s == [] then 0 else size(s[0]) + Total(size, s[1..])
  }

  lemma {:induction false} TotalAppend<T>(size: T -> nat, s: seq<T>, x: T)
    ensures Total(size, s + [x]) == Total(size, s) + size(x)
  {
    if s == [] {
      assert s + [x] == [x];
    } else {
      TotalAppend(size, s[1..], x);
      assert (s + [x])[1..] == s[1..] + [x];
    }
  }

  lemma {:induction false} TotalWithout<T>(size: T -> nat, s: seq<T>, k: nat)
    requires k < |s|
    ensures Total(size, s) == size(s[k]) + Total(size, Removed(s, k))
  {
    if k == 0 {
      assert Removed(s, k) == s[1..];
    } else {
      TotalWithout(size, s[1..], k - 1);
      assert Removed(s, k)[1..] == Removed(s[1..], k - 1);
    }
  }

  lemma {:induction false} TotalForgetsOrder<T>(size: T -> nat, s: seq<T>, t: seq<T>)
    requires multiset(s) == multiset(t)
    ensures Total(size, s) == Total(size, t)
  {
    if s == [] {
      EmptyPermutation(t);
    } else {
      var k := MatchHead(s, t);
      TotalForgetsOrder(size, s[1..], Removed(t, k));
      TotalWithout(size, t, k);
    }
  }

  /** A function applied to every element. */
  function Apply<T, U>(f: T -> U, s: seq<T>): seq<U> {
    seq(|s|, i requires 0 <= i < |s| => f(s[i]))
  }

  lemma {:induction false} ApplyForgetsOrder<T, U>(f: T -> U, s: seq<T>, t: seq<T>)
    requires multiset(s) == multiset(t)
    ensures multiset(Apply(f, s)) == multiset(Apply(f, t))
  {
    if s == [] {
      EmptyPermutation(t);
    } else {
      var k := MatchHead(s, t);
      ApplyForgetsOrder(f, s[1..], Removed(t, k));
      assert Apply(f, Removed(t, k)) == Removed(Apply(f, t), k);
      assert Apply(f, s[1..]) == Removed(Apply(f, s), 0);
      Without(Apply(f, t), k);
      Without(Apply(f, s), 0);
    }
  }

  lemma {:induction false} FlatMapWithout<T, U>(f: T -> seq<U>, s: seq<T>, k: nat)
    requires k < |s|
    ensures multiset(FlatMap(f, s)) == multiset(FlatMap(f, Removed(s, k))) + multiset(f(s[k]))
  {
    if k == 0 {
      assert Removed(s, k) == s[1..];
    } else {
      FlatMapWithout(f, s[1..], k - 1);
      assert Removed(s, k)[1..] == Removed(s[1..], k - 1) && Removed(s, k)[0] == s[0];
    }
  }

  lemma {:induction false} FlatMapForgetsOrder<T, U>(f: T -> seq<U>, s: seq<T>, t: seq<T>)
    requires multiset(s) == multiset(t)
    ensures multiset(FlatMap(f, s)) == multiset(FlatMap(f, t))
  {
    if s == [] {
      EmptyPermutation(t);
    } else {
      var k := MatchHead(s, t);
      FlatMapForgetsOrder(f, s[1..], Removed(t, k));
      FlatMapWithout(f, t, k);
    }
  }
}

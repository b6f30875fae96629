/** Dictionaries that keep, for each key, the latest of the entries seen, in order of first insertion. */
module LatestRows {

  /** A strict order under which any two entries that are not ordered are tied. */
  ghost predicate StrictOrder<T(!new)>(later: (T, T) -> bool) {
    && (forall x, y :: later(x, y) ==> !later(y, x))
    && (forall x, y, z :: !later(x, y) && !later(y, z) ==> !later(x, z))
  }

  /** `d[key(x)] = x`, unless the entry there is at least as late. */
  function Upsert<T, K(==)>(rows: seq<T>, x: T, key: T -> K, later: (T, T) -> bool): seq<T> {
    if rows == [] then [x]
    else if key(rows[0]) == key(x) then (if later(x, rows[0]) then [x] + rows[1..] else rows)
    else [rows[0]] + Upsert(rows[1..], x, key, later)
  }

  function Keep<T, K(==)>(xs: seq<T>, key: T -> K, later: (T, T) -> bool): seq<T> {
    if xs == [] then [] else Upsert(Keep(xs[..|xs| - 1], key, later), xs[|xs| - 1], key, later)
  }

  lemma KeepAppend<T, K>(xs: seq<T>, x: T, key: T -> K, later: (T, T) -> bool)
    ensures Keep(xs + [x], key, later) == Upsert(Keep(xs, key, later), x, key, later)
  {
    assert (xs + [x])[..|xs|] == xs;
  }

  ghost predicate OneRowPerKey<T, K(!new)>(rows: seq<T>, key: T -> K) {
    forall i, j :: 0 <= i < j < |rows| ==> key(rows[i]) != key(rows[j])
  }

  /** What the dictionary holds for a key. */
  function RowFor<T, K(==)>(rows: seq<T>, key: T -> K, k: K): (row: seq<T>) {
    if rows == [] then [] else if key(rows[0]) == k then [rows[0]] else RowFor(rows[1..], key, k)
  }

  lemma {:induction false} UpsertMeaning<T, K(!new)>(rows: seq<T>, x: T, key: T -> K, later: (T, T) -> bool, k: K)
    requires OneRowPerKey(rows, key)
    ensures OneRowPerKey(Upsert(rows, x, key, later), key)
    ensures var row := RowFor(rows, key, k);
            RowFor(Upsert(rows, x, key, later), key, k) ==
            if k != key(x) then row else if row == [] || later(x, row[0]) then [x] else row
    ensures forall row :: row in Upsert(rows, x, key, later) ==> row == x || row in rows
  {
    if rows != [] && key(rows[0]) != key(x) {
      UpsertMeaning(rows[1..], x, key, later, k);
      var rest := Upsert(rows[1..], x, key, later);
      forall i | 0 <= i < |rest| ensures key(rest[i]) != key(rows[0]) {
        assert rest[i] in rest;
      }
    }
  }

  lemma {:induction false} RowForIsMembership<T, K(!new)>(rows: seq<T>, key: T -> K, x: T)
    requires OneRowPerKey(rows, key)
    ensures RowFor(rows, key, key(x)) == [x] <==> x in rows
  {
    if rows != [] {
      RowForIsMembership(rows[1..], key, x);
      assert forall i :: 0 < i < |rows| ==> rows[i] == rows[1..][i - 1];
      if x in rows[1..] {
        assert key(x) != key(rows[0]);
      }
    }
  }

  /** The entry at `i` is later than, or tied with, all others of its key, and the first such. */
  ghost predicate IsLatest<T, K(!new)>(xs: seq<T>, key: T -> K, later: (T, T) -> bool, k: K, i: nat) {
    && i < |xs| && key(xs[i]) == k
    && forall j :: 0 <= j < |xs| && key(xs[j]) == k ==> !later(xs[j], xs[i]) && (j < i ==> later(xs[i], xs[j]))
  }

  /** Where the latest entry is after one more. */
  lemma LatestMoves<T(!new), K(!new)>(xs: seq<T>, x: T, key: T -> K, later: (T, T) -> bool, k: K, i: nat)
    requires StrictOrder(later) && IsLatest(xs, key, later, k, i)
    ensures IsLatest(xs + [x], key, later, k, if key(x) == k && later(x, xs[i]) then |xs| else i)
  {
    var longer := xs + [x];
    assert longer[|xs|] == x && forall j :: 0 <= j < |xs| ==> longer[j] == xs[j];
  }

  /** There is one row for each key, and it holds the first of the latest entries of that key. */
  lemma {:induction false} KeepsTheLatest<T(!new), K(!new)>(xs: seq<T>, key: T -> K, later: (T, T) -> bool, k: K)
    returns (i: nat)
    requires StrictOrder(later)
    ensures OneRowPerKey(Keep(xs, key, later), key)
    ensures if forall j :: 0 <= j < |xs| ==> key(xs[j]) != k then
              RowFor(Keep(xs, key, later), key, k) == []
            else
              IsLatest(xs, key, later, k, i) && RowFor(Keep(xs, key, later), key, k) == [xs[i]]
  {
    i := 0;
    if xs != [] {
      var n := |xs| - 1;
      var init, x := xs[..n], xs[n];
      assert xs == init + [x];
      i := KeepsTheLatest(init, key, later, k);
      UpsertMeaning(Keep(init, key, later), x, key, later, k);
      if exists j :: 0 <= j < |init| && key(init[j]) == k {
        LatestMoves(init, x, key, later, k, i);
        i := if key(x) == k && later(x, init[i]) then n else i;
      } else {
        i := n;
      }
    }
  }
}

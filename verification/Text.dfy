/** The parts of Python's `str` the models use: first-occurrence search, slices from the end, joining. */
module Text {
  import opened Prelude

  predicate OccursAt(s: string, needle: string, i: nat) {
    i + |needle| <= |s| && s[i..i + |needle|] == needle
  }

  /** No occurrence at or after `from`. */
  ghost predicate Absent(s: string, needle: string, from: nat) {
    forall j: nat :: from <= j ==> !OccursAt(s, needle, j)
  }

  /** The first occurrence at or after `from` is at `i`. */
  ghost predicate FirstAt(s: string, needle: string, from: nat, i: nat) {
    from <= i && OccursAt(s, needle, i) && forall j: nat :: from <= j < i ==> !OccursAt(s, needle, j)
  }

  /** `s.find(needle, from)`: the first occurrence at or after `from`. */
  function Find(s: string, needle: string, from: nat := 0): (index: Option<nat>)
    ensures index.Some? ==> from <= index.value && index.value + |needle| <= |s|
    decreases |s| - from
  {
    if from + |needle| > |s| then None
    else if OccursAt(s, needle, from) then Some(from)
    else Find(s, needle, from + 1)
  }

  lemma {:induction false} FindMeaning(s: string, needle: string, from: nat)
    ensures match Find(s, needle, from)
            case Some(i) => FirstAt(s, needle, from, i)
            case None => Absent(s, needle, from)
    decreases |s| - from
  {
    if from + |needle| <= |s| && !OccursAt(s, needle, from) {
      FindMeaning(s, needle, from + 1);
    }
  }

  /** `s[-n:]` for positive `n`, the empty text for zero. */
  function Suffix<T>(s: seq<T>, n: nat): (r: seq<T>)
    ensures |r| <= n
  {
    if |s| <= n then s else s[|s| - n..]
  }

  lemma SuffixSplits<T>(s: seq<T>, n: nat)
    ensures s == s[..|s| - |Suffix(s, n)|] + Suffix(s, n)
    ensures |s| > n ==> |Suffix(s, n)| == n
    ensures |s| <= n ==> Suffix(s, n) == s
  {
  }

  lemma SuffixOfAppend<T>(s: seq<T>, t: seq<T>, n: nat)
    ensures Suffix(s + t, n) == Suffix(Suffix(s, n) + t, n)
  {
    if |s| > n {
      assert s + t == s[..|s| - n] + (Suffix(s, n) + t);
    }
  }

  /** Each element replaced by a sequence, in order. */
  function FlatMap<T, U>(f: T -> seq<U>, s: seq<T>): seq<U> {
    if s == [] then [] else f(s[0]) + FlatMap(f, s[1..])
  }

  lemma Assoc<T>(a: seq<T>, b: seq<T>, c: seq<T>)
    ensures (a + b) + c == a + (b + c)
  {
  }

  lemma {:induction false} FlatMapConcat<T, U>(f: T -> seq<U>, s: seq<T>, t: seq<T>)
    ensures FlatMap(f, s + t) == FlatMap(f, s) + FlatMap(f, t)
  {
    if s == [] {
      assert s + t == t;
    } else {
      FlatMapConcat(f, s[1..], t);
      assert (s + t)[1..] == s[1..] + t;
      Assoc(f(s[0]), FlatMap(f, s[1..]), FlatMap(f, t));
    }
  }

  function Filter<T>(p: T -> bool, s: seq<T>): seq<T> {
    if s == [] then []
    else
      var kept := Filter(p, s[..|s| - 1]);
      if p(s[|s| - 1]) then kept + [s[|s| - 1]] else kept
  }

  lemma FilterOneMore<T>(p: T -> bool, s: seq<T>, x: T)
    ensures Filter(p, s + [x]) == if p(x) then Filter(p, s) + [x] else Filter(p, s)
  {
    assert (s + [x])[..|s|] == s;
  }

  lemma {:induction false} FilterMembers<T>(p: T -> bool, s: seq<T>, x: T)
    ensures x in Filter(p, s) <==> x in s && p(x)
  {
    if s != [] {
      FilterMembers(p, s[..|s| - 1], x);
      assert s == s[..|s| - 1] + [s[|s| - 1]];
    }
  }

  lemma SliceOfRest<T>(s: seq<T>, lo: nat, hi: nat)
    requires lo <= hi <= |s|
    ensures s[lo..][..hi - lo] == s[lo..hi]
    ensures hi == |s| ==> s[lo..hi] == s[lo..]
  {
  }

  lemma CutWithin<T>(front: seq<T>, s: seq<T>, i: nat)
    requires i <= |front|
    ensures (front + s)[i..] == front[i..] + s
    ensures (front + s)[..i] == front[..i]
  {
  }

  lemma CutShifted<T>(front: seq<T>, s: seq<T>, i: nat)
    requires i <= |s|
    ensures (front + s)[|front| + i..] == s[i..]
    ensures (front + s)[..|front| + i] == front + s[..i]
  {
  }

  function Concat(parts: seq<string>): string {
    if parts == [] then [] else parts[0] + Concat(parts[1..])
  }

  lemma {:induction false} ConcatAppend(parts: seq<string>, last: string)
    ensures Concat(parts + [last]) == Concat(parts) + last
  {
    if parts == [] {
      assert Concat([last]) == last + Concat([]);
      assert parts + [last] == [last];
    } else {
      ConcatAppend(parts[1..], last);
      assert (parts + [last])[1..] == parts[1..] + [last];
    }
  }

  lemma ConcatTake(parts: seq<string>, i: nat)
    requires i < |parts|
    ensures Concat(parts[..i + 1]) == Concat(parts[..i]) + parts[i]
  {
    ConcatAppend(parts[..i], parts[i]);
    assert parts[..i + 1] == parts[..i] + [parts[i]];
  }

  lemma {:induction false} FindSkip(s: string, needle: string, from: nat, count: nat)
    requires forall j: nat :: from <= j < from + count ==> !OccursAt(s, needle, j)
    ensures Find(s, needle, from) == Find(s, needle, from + count)
    decreases count
  {
    if count > 0 {
      assert !OccursAt(s, needle, from);
      FindSkip(s, needle, from + 1, count - 1);
    }
  }

  lemma FindFirst(s: string, needle: string, from: nat, i: nat)
    requires FirstAt(s, needle, from, i)
    ensures Find(s, needle, from) == Some(i)
  {
    FindSkip(s, needle, from, i - from);
  }

  lemma OccursInPrefix(s: string, t: string, needle: string, i: nat)
    requires i + |needle| <= |s|
    ensures OccursAt(s, needle, i) <==> OccursAt(s + t, needle, i)
  {
    assert (s + t)[i..i + |needle|] == s[i..i + |needle|];
  }

  /** More text behind a found needle does not move its first occurrence. */
  lemma FindStable(s: string, t: string, needle: string)
    requires Find(s, needle).Some?
    ensures Find(s + t, needle) == Find(s, needle)
  {
    FindMeaning(s, needle, 0);
    var i := Find(s, needle).value;
    forall j: nat | j <= i ensures OccursAt(s, needle, j) <==> OccursAt(s + t, needle, j) {
      OccursInPrefix(s, t, needle, j);
    }
    FindFirst(s + t, needle, 0, i);
  }

  lemma OccursShift(front: string, s: string, needle: string, i: nat)
    ensures OccursAt(front + s, needle, |front| + i) <==> OccursAt(s, needle, i)
  {
    if i + |needle| <= |s| {
      assert (front + s)[|front| + i..|front| + i + |needle|] == s[i..i + |needle|];
    }
  }

  function Shifted(index: Option<nat>, n: nat): Option<nat> {
    match index case Some(i) => Some(n + i) case None => None
  }

  lemma {:induction false} FindInRest(front: string, s: string, needle: string, from: nat)
    ensures Find(front + s, needle, |front| + from) == Shifted(Find(s, needle, from), |front|)
    decreases |s| - from
  {
    if from + |needle| <= |s| {
      OccursShift(front, s, needle, from);
      FindInRest(front, s, needle, from + 1);
    }
  }

  lemma FindShift(front: string, s: string, needle: string)
    requires forall j: nat :: j < |front| ==> !OccursAt(front + s, needle, j)
    ensures Find(front + s, needle) == Shifted(Find(s, needle), |front|)
  {
    FindSkip(front + s, needle, 0, |front|);
    FindInRest(front, s, needle, 0);
  }

  lemma NoStraddle(done: string, held: string, chunk: string, needle: string, j: nat)
    requires j < |done| && |held| >= |needle| - 1
    requires !OccursAt(done + held, needle, j)
    ensures !OccursAt(done + (held + chunk), needle, j)
  {
    assert done + (held + chunk) == (done + held) + chunk;
    OccursInPrefix(done + held, chunk, needle, j);
  }

  /** The streaming search step. `done` was scanned and dropped, `held` was kept back; if together they
      hold no needle and `held` is as long as a straddling occurrence could need, then searching
      `held + chunk` finds the first occurrence of the whole. */
  lemma FindAcross(done: string, held: string, chunk: string, needle: string)
    requires needle != []
    requires Find(done + held, needle).None?
    requires done != [] ==> |held| >= |needle| - 1
    ensures Find(done + (held + chunk), needle) ==
            Shifted(Find(held + chunk, needle), |done|)
  {
    FindMeaning(done + held, needle, 0);
    forall j: nat | j < |done| ensures !OccursAt(done + (held + chunk), needle, j) {
      NoStraddle(done, held, chunk, needle, j);
    }
    FindShift(done, held + chunk, needle);
  }

  /** Python's order of strings, by code point. */
  predicate StringLeq(a: string, b: string) {
    a == "" || (b != "" && (a[0] < b[0] || (a[0] == b[0] && StringLeq(a[1..], b[1..]))))
  }

  lemma {:induction false} StringOrder(a: string, b: string, c: string)
    ensures StringLeq(a, b) || StringLeq(b, a)
    ensures StringLeq(a, b) && StringLeq(b, c) ==> StringLeq(a, c)
    ensures StringLeq(a, b) && StringLeq(b, a) ==> a == b
  {
    if a != "" && b != "" {
      StringOrder(a[1..], b[1..], if c == "" then "" else c[1..]);
      if a[0] == b[0] && a[1..] == b[1..] {
        assert a == [a[0]] + a[1..] == [b[0]] + b[1..] == b;
      }
    }
  }

  /** One string is a beginning of the other, or is smaller at the first place where they differ. */
  ghost predicate NoLater(a: string, b: string) {
    a <= b || exists k :: 0 <= k < |a| && k < |b| && a[..k] == b[..k] && a[k] < b[k]
  }

  lemma {:induction false} StringOrderMeaning(a: string, b: string)
    ensures StringLeq(a, b) <==> NoLater(a, b)
  {
    if a != "" && b != "" {
      StringOrderMeaning(a[1..], b[1..]);
      if a[0] == b[0] {
        assert a <= b <==> a[1..] <= b[1..];
        if k :| 0 <= k < |a| && k < |b| && a[..k] == b[..k] && a[k] < b[k] {
          assert a[1..][..k - 1] == a[..k][1..] && b[1..][..k - 1] == b[..k][1..];
          assert a[1..][k - 1] < b[1..][k - 1];
        }
        if k :| 0 <= k < |a[1..]| && k < |b[1..]| && a[1..][..k] == b[1..][..k] && a[1..][k] < b[1..][k] {
          assert a[..k + 1] == [a[0]] + a[1..][..k] && b[..k + 1] == [b[0]] + b[1..][..k];
          assert a[k + 1] < b[k + 1];
        }
      } else if a[0] < b[0] {
        assert a[..0] == b[..0];
      }
    }
  }
}

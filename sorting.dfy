/** `Array.prototype.sort` as the summariser uses it: with a comparator built from
    `localeCompare`, and with no comparator on strings (UTF-16 code-unit order).

    The sort is stable (ECMAScript 2019 and later), so its result is the stable
    insertion sort of the input. The comparator is `leq(a, b)`: "`compare(a, b) <= 0`",
    `a` may stay before `b`. */
module Sorting {

  /** What a consistent comparator provides: every two elements are comparable and
      the order is transitive. `localeCompare` is assumed to be one. */
  ghost predicate TotalPreorder<T(!new)>(leq: (T, T) -> bool) {
    (forall a, b :: leq(a, b) || leq(b, a)) &&
    (forall a, b, c :: leq(a, b) && leq(b, c) ==> leq(a, c))
  }

  predicate SortedBy<T>(s: seq<T>, leq: (T, T) -> bool) {
    forall i, j :: 0 <= i < j < |s| ==> leq(s[i], s[j])
  }

  /** Puts `x` before the first element it may precede. */
  function Insert<T>(x: T, s: seq<T>, leq: (T, T) -> bool): (r: seq<T>)
    ensures multiset(r) == multiset(s) + multiset{x}
  {
    if s == [] then [x]
    else if leq(x, s[0]) then [x] + s
    else
      var rest := Insert(x, s[1..], leq);
      assert s == [s[0]] + s[1..];
      [s[0]] + rest
  }

  /** `s.sort(compare)` on a copy of `s`: a permutation of `s`. */
  function Sort<T>(s: seq<T>, leq: (T, T) -> bool): (r: seq<T>)
    ensures multiset(r) == multiset(s)
    ensures |r| == |s|
  {
    if s == [] then []
    else
      var r := Insert(s[0], Sort(s[1..], leq), leq);
      assert s == [s[0]] + s[1..];
      assert |r| == |multiset(r)| == |multiset(s)| == |s|;
      r
  }

  lemma {:induction false} InsertSorted<T(!new)>(x: T, s: seq<T>, leq: (T, T) -> bool)
    requires TotalPreorder(leq)
    requires SortedBy(s, leq)
    ensures SortedBy(Insert(x, s, leq), leq)
    decreases |s|
  {
    if s != [] && !leq(x, s[0]) {
      InsertSorted(x, s[1..], leq);
      var r := Insert(x, s[1..], leq);
      forall j | 0 <= j < |r| ensures leq(s[0], r[j]) {
        assert r[j] in multiset(r);
        if r[j] != x {
          assert r[j] in multiset(s[1..]);
          var k :| 0 <= k < |s[1..]| && s[1..][k] == r[j];
          assert s[k + 1] == r[j];
        }
      }
    }
  }

  /** With a consistent comparator the result is in order. */
  lemma {:induction false} SortSorted<T(!new)>(s: seq<T>, leq: (T, T) -> bool)
    requires TotalPreorder(leq)
    ensures SortedBy(Sort(s, leq), leq)
    decreases |s|
  {
    if s != [] {
      SortSorted(s[1..], leq);
      InsertSorted(s[0], Sort(s[1..], leq), leq);
    }
  }

  /** The elements of `s` that compare equal to `y`, in their order in `s`. */
  function Ties<T>(s: seq<T>, y: T, leq: (T, T) -> bool): (r: seq<T>)
    ensures |r| <= |s|
    ensures forall i :: 0 <= i < |r| ==> leq(r[i], y) && leq(y, r[i])
  {
    if s == [] then []
    else (if leq(s[0], y) && leq(y, s[0]) then [s[0]] else []) + Ties(s[1..], y, leq)
  }

  lemma Transitive<T(!new)>(a: T, b: T, c: T, leq: (T, T) -> bool)
    requires TotalPreorder(leq)
    requires leq(a, b) && leq(b, c)
    ensures leq(a, c)
  {
  }

  /** Inserting `x` adds it in front of the elements tied with it. */
  lemma InsertTies<T(!new)>(x: T, s: seq<T>, y: T, leq: (T, T) -> bool)
    requires TotalPreorder(leq)
    ensures Ties(Insert(x, s, leq), y, leq) ==
      (if leq(x, y) && leq(y, x) then [x] else []) + Ties(s, y, leq)
  {
    forall i | 0 <= i < |s| && leq(x, y) && leq(y, s[i]) ensures leq(x, s[i]) {
      Transitive(x, y, s[i], leq);
    }
    InsertTiesFrom(x, s, y, leq);
  }

  /** The ties of a sequence with a first element. */
  lemma TiesCons<T>(a: T, r: seq<T>, y: T, leq: (T, T) -> bool)
    ensures Ties([a] + r, y, leq) == (if leq(a, y) && leq(y, a) then [a] else []) + Ties(r, y, leq)
  {
    assert ([a] + r)[1..] == r;
  }

  /** `x` that may not precede the first element goes after it. */
  lemma InsertPast<T>(x: T, s: seq<T>, leq: (T, T) -> bool)
    requires s != [] && !leq(x, s[0])
    ensures Insert(x, s, leq) == [s[0]] + Insert(x, s[1..], leq)
  {
  }

  /** `InsertTies` for one `x`, given that `x` precedes what follows `y` in `s`. */
  lemma {:induction false} InsertTiesFrom<T>(x: T, s: seq<T>, y: T, leq: (T, T) -> bool)
    requires forall i :: 0 <= i < |s| && leq(x, y) && leq(y, s[i]) ==> leq(x, s[i])
    ensures Ties(Insert(x, s, leq), y, leq) ==
      (if leq(x, y) && leq(y, x) then [x] else []) + Ties(s, y, leq)
    decreases |s|
  {
    var tx := if leq(x, y) && leq(y, x) then [x] else [];
    if s == [] {
      TiesCons(x, [], y, leq);
      assert tx + [] == tx;
    } else if leq(x, s[0]) {
      TiesCons(x, s, y, leq);
    } else {
      var rest := Insert(x, s[1..], leq);
      var t0 := if leq(s[0], y) && leq(y, s[0]) then [s[0]] else [];
      forall i | 0 <= i < |s[1..]| && leq(x, y) && leq(y, s[1..][i]) ensures leq(x, s[1..][i]) {
        assert s[1..][i] == s[i + 1];
      }
      InsertTiesFrom(x, s[1..], y, leq);
      assert Ties(rest, y, leq) == tx + Ties(s[1..], y, leq);
      InsertPast(x, s, leq);
      TiesCons(s[0], rest, y, leq);
      assert Ties(Insert(x, s, leq), y, leq) == t0 + Ties(rest, y, leq);
      assert Ties(s, y, leq) == t0 + Ties(s[1..], y, leq);
      if tx == [] {
        assert Ties(rest, y, leq) == Ties(s[1..], y, leq);
        assert [] + Ties(s, y, leq) == Ties(s, y, leq);
      } else {
        assert leq(x, y) && !leq(x, s[0]);
        assert t0 == [];
        assert Ties(s, y, leq) == Ties(s[1..], y, leq);
      }
    }
  }

  /** The sort is stable: elements that compare equal keep their order. */
  lemma {:induction false} SortStable<T(!new)>(s: seq<T>, y: T, leq: (T, T) -> bool)
    requires TotalPreorder(leq)
    ensures Ties(Sort(s, leq), y, leq) == Ties(s, y, leq)
    decreases |s|
  {
    if s != [] {
      SortStable(s[1..], y, leq);
      InsertTies(s[0], Sort(s[1..], leq), y, leq);
    }
  }

  /** The default `sort()` on strings: lexicographic by character, a prefix first. */
  predicate CodeUnitLeq(a: string, b: string) {
    if a == [] then true
    else if b == [] then false
    else if a[0] != b[0] then a[0] < b[0]
    else CodeUnitLeq(a[1..], b[1..])
  }

  lemma {:induction false} CodeUnitLeqTotal(a: string, b: string)
    ensures CodeUnitLeq(a, b) || CodeUnitLeq(b, a)
    decreases |a|
  {
    if a != [] && b != [] && a[0] == b[0] {
      CodeUnitLeqTotal(a[1..], b[1..]);
    }
  }

  lemma {:induction false} CodeUnitLeqTransitive(a: string, b: string, c: string)
    requires CodeUnitLeq(a, b) && CodeUnitLeq(b, c)
    ensures CodeUnitLeq(a, c)
    decreases |a|
  {
    if a != [] && b != [] && c != [] && a[0] == b[0] && b[0] == c[0] {
      CodeUnitLeqTransitive(a[1..], b[1..], c[1..]);
    }
  }

  lemma {:induction false} CodeUnitLeqAntisymmetric(a: string, b: string)
    requires CodeUnitLeq(a, b) && CodeUnitLeq(b, a)
    ensures a == b
    decreases |a|
  {
    if a != [] && b != [] {
      CodeUnitLeqAntisymmetric(a[1..], b[1..]);
      assert a == [a[0]] + a[1..] && b == [b[0]] + b[1..];
    }
  }

  /** Code-unit order is a total order: a consistent comparator whose only ties are
      equal strings. */
  lemma CodeUnitOrderIsTotal()
    ensures TotalPreorder(CodeUnitLeq)
    ensures forall a, b :: CodeUnitLeq(a, b) && CodeUnitLeq(b, a) ==> a == b
  {
    forall a, b ensures CodeUnitLeq(a, b) || CodeUnitLeq(b, a) {
      CodeUnitLeqTotal(a, b);
    }
    forall a, b, c | CodeUnitLeq(a, b) && CodeUnitLeq(b, c) ensures CodeUnitLeq(a, c) {
      CodeUnitLeqTransitive(a, b, c);
    }
    forall a, b | CodeUnitLeq(a, b) && CodeUnitLeq(b, a) ensures a == b {
      CodeUnitLeqAntisymmetric(a, b);
    }
  }

  /** The comparator `(a, b) => leq(key(a), key(b))` of a sort by one field. */
  function ByKey<T, K>(key: T -> K, leq: (K, K) -> bool): (T, T) -> bool {
    (a: T, b: T) => leq(key(a), key(b))
  }

  lemma ByKeyTotalPreorder<T(!new), K(!new)>(key: T -> K, leq: (K, K) -> bool)
    requires TotalPreorder(leq)
    ensures TotalPreorder(ByKey(key, leq))
  {
    var cmp := ByKey(key, leq);
    forall a, b ensures cmp(a, b) || cmp(b, a) {
      assert leq(key(a), key(b)) || leq(key(b), key(a));
    }
    forall a, b, c | cmp(a, b) && cmp(b, c) ensures cmp(a, c) {
      assert leq(key(a), key(b)) && leq(key(b), key(c));
    }
  }
}

/** A stable sort by a comparator, the behaviour `Array.prototype.sort` is
    required to have. `leq(a, b)` holds when the comparator does not put `b`
    strictly before `a` (it returns a value `<= 0` for `(a, b)`). For a
    comparator that is a total preorder there is exactly one stable sorted
    permutation, so insertion sort below describes every conforming engine. */
module Sorting {
  import opened Seqs

  ghost predicate TotalPreorder<T(!new)>(leq: (T, T) -> bool) {
    && (forall a, b :: leq(a, b) || leq(b, a))
    && (forall a, b, c :: leq(a, b) && leq(b, c) ==> leq(a, c))
  }

  ghost predicate SortedBy<T>(leq: (T, T) -> bool, s: seq<T>) {
    forall i, j :: 0 <= i < j < |s| ==> leq(s[i], s[j])
  }

  /** Neither element sorts strictly before the other. */
  predicate Equivalent<T>(leq: (T, T) -> bool, a: T, b: T) {
    leq(a, b) && leq(b, a)
  }

  /** The elements of `s` that tie with `y`, in their order in `s`. */
  function Ties<T>(s: seq<T>, y: T, leq: (T, T) -> bool): seq<T>
  {
    if |s| == 0 then []
    else (if Equivalent(leq, s[0], y) then [s[0]] else []) + Ties(s[1..], y, leq)
  }

  /** Places `x` in front of the first element it may precede. */
  function Insert<T>(x: T, s: seq<T>, leq: (T, T) -> bool): (r: seq<T>)
    ensures multiset(r) == multiset(s) + multiset{x}
    ensures |r| == |s| + 1
  {
    if |s| == 0 then [x]
    else if leq(x, s[0]) then [x] + s
    else
      assert s == [s[0]] + s[1..];
      [s[0]] + Insert(x, s[1..], leq)
  }

  function Sort<T>(s: seq<T>, leq: (T, T) -> bool): (r: seq<T>)
    ensures multiset(r) == multiset(s)
    ensures |r| == |s|
  {
    if |s| == 0 then []
    else
      assert s == [s[0]] + s[1..];
      Insert(s[0], Sort(s[1..], leq), leq)
  }

  lemma {:induction false} InsertSorted<T(!new)>(x: T, s: seq<T>, leq: (T, T) -> bool)
    requires TotalPreorder(leq)
    requires SortedBy(leq, s)
    ensures SortedBy(leq, Insert(x, s, leq))
  {
    if |s| > 0 && !leq(x, s[0]) {
      InsertSorted(x, s[1..], leq);
      var r := Insert(x, s[1..], leq);
      assert leq(s[0], x);
      forall k | 0 <= k < |r|
        ensures leq(s[0], r[k])
      {
        assert r[k] in multiset(r);
        assert r[k] == x || r[k] in multiset(s[1..]);
        if r[k] != x {
          var m :| 0 <= m < |s[1..]| && s[1..][m] == r[k];
          assert s[m + 1] == r[k];
        }
      }
    }
  }

  /** The sort yields a permutation of its input in comparator order. */
  lemma {:induction false} SortSorted<T(!new)>(s: seq<T>, leq: (T, T) -> bool)
    requires TotalPreorder(leq)
    ensures SortedBy(leq, Sort(s, leq))
    ensures multiset(Sort(s, leq)) == multiset(s)
  {
    if |s| > 0 {
      SortSorted(s[1..], leq);
      InsertSorted(s[0], Sort(s[1..], leq), leq);
    }
  }

  lemma {:induction false} InsertTies<T(!new)>(x: T, s: seq<T>, y: T, leq: (T, T) -> bool)
    requires forall z :: leq(x, y) && leq(y, z) ==> leq(x, z)
    ensures Ties(Insert(x, s, leq), y, leq)
         == (if Equivalent(leq, x, y) then [x] else []) + Ties(s, y, leq)
  {
    if |s| == 0 || leq(x, s[0]) {
      assert Insert(x, s, leq) == [x] + s;
      TiesCons(x, s, y, leq);
    } else {
      InsertTies(x, s[1..], y, leq);
      InsertTiesBehind(x, s, y, leq);
    }
  }

  /** The step of `InsertTies` where `x` goes behind the head of `s`. */
  lemma InsertTiesBehind<T>(x: T, s: seq<T>, y: T, leq: (T, T) -> bool)
    requires |s| > 0 && !leq(x, s[0])
    requires leq(x, y) && leq(y, s[0]) ==> leq(x, s[0])
    requires Ties(Insert(x, s[1..], leq), y, leq) == (if Equivalent(leq, x, y) then [x] else []) + Ties(s[1..], y, leq)
    ensures Ties(Insert(x, s, leq), y, leq)
         == (if Equivalent(leq, x, y) then [x] else []) + Ties(s, y, leq)
  {
    var t := s[1..];
    var mine := if Equivalent(leq, x, y) then [x] else [];
    var head := if Equivalent(leq, s[0], y) then [s[0]] else [];
    var rest := Ties(t, y, leq);
    assert Insert(x, s, leq) == [s[0]] + Insert(x, t, leq);
    TiesCons(s[0], Insert(x, t, leq), y, leq);
    HeadTail(s);
    TiesCons(s[0], t, y, leq);
    assert head == [] || mine == [];
    SwapEmpty(head, mine, rest);
  }

  lemma TiesCons<T>(a: T, t: seq<T>, y: T, leq: (T, T) -> bool)
    ensures Ties([a] + t, y, leq) == (if Equivalent(leq, a, y) then [a] else []) + Ties(t, y, leq)
  {
    assert ([a] + t)[0] == a && ([a] + t)[1..] == t;
  }

  /** Stability: the elements that tie with any `y` keep their input order. */
  lemma {:induction false} SortStable<T(!new)>(s: seq<T>, y: T, leq: (T, T) -> bool)
    requires TotalPreorder(leq)
    ensures Ties(Sort(s, leq), y, leq) == Ties(s, y, leq)
  {
    if |s| > 0 {
      SortStable(s[1..], y, leq);
      InsertTies(s[0], Sort(s[1..], leq), y, leq);
    }
  }

  /** A key that no two input elements share is still unshared after sorting. */
  lemma {:induction false} SortKeepsKeysDistinct<T(!new), K>(s: seq<T>, leq: (T, T) -> bool, key: T -> K)
    requires forall i, j :: 0 <= i < j < |s| ==> key(s[i]) != key(s[j])
    ensures forall i, j :: 0 <= i < j < |Sort(s, leq)| ==> key(Sort(s, leq)[i]) != key(Sort(s, leq)[j])
  {
    if |s| > 0 {
      SortKeepsKeysDistinct(s[1..], leq, key);
      var t := Sort(s[1..], leq);
      forall z | z in t
        ensures key(z) != key(s[0])
      {
        assert z in multiset(s[1..]);
      }
      InsertKeepsKeysDistinct(s[0], t, leq, key);
    }
  }

  lemma {:induction false} InsertKeepsKeysDistinct<T(!new), K>(x: T, s: seq<T>, leq: (T, T) -> bool, key: T -> K)
    requires forall i, j :: 0 <= i < j < |s| ==> key(s[i]) != key(s[j])
    requires forall z :: z in s ==> key(z) != key(x)
    ensures forall i, j :: 0 <= i < j < |Insert(x, s, leq)| ==>
      key(Insert(x, s, leq)[i]) != key(Insert(x, s, leq)[j])
  {
    if |s| > 0 && !leq(x, s[0]) {
      InsertKeepsKeysDistinct(x, s[1..], leq, key);
      var r := Insert(x, s[1..], leq);
      forall k | 0 <= k < |r|
        ensures key(r[k]) != key(s[0])
      {
        assert r[k] in multiset(r);
        if r[k] != x {
          assert r[k] in multiset(s[1..]);
          var m :| 0 <= m < |s[1..]| && s[1..][m] == r[k];
          assert s[m + 1] == r[k];
        }
      }
    }
  }
}

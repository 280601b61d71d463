/** List facts used by the validators: `IsUniqueList` (`list.Distinct().Count() == list.Count`),
    `Min()`/`Max()` of a non-empty list, and the range 1..n that ordering answers must fill;
    and `ToDictionary`, which the game snapshots use for the score table. */
module Lists {
  import opened Wrappers

  /** The distinct elements of a list, as `Distinct()` collects them. */
  function Elements<T(==)>(s: seq<T>): set<T> {
    set x | x in s
  }

  /** `IsUniqueList`: the number of distinct elements equals the number of elements, which
      holds exactly when no element occurs twice. */
  function IsUniqueList<T(==)>(s: seq<T>): (r: bool)
    ensures r <==> NoDuplicates(s)
  {
    ElementsCardinality(s);
    |Elements(s)| == |s|
  }

  /** No two positions of the list hold equal elements. */
  predicate NoDuplicates<T(==)>(s: seq<T>) {
    forall i, j :: 0 <= i < j < |s| ==> s[i] != s[j]
  }

  lemma {:induction false} ElementsCardinality<T>(s: seq<T>)
    ensures |Elements(s)| <= |s|
    ensures |Elements(s)| == |s| <==> NoDuplicates(s)
  {
    if s != [] {
      var t := s[1..];
      ElementsCardinality(t);
      assert Elements(s) == {s[0]} + Elements(t) by {
        forall x | x in Elements(s) ensures x in {s[0]} + Elements(t) {
          var i :| 0 <= i < |s| && s[i] == x;
          if i > 0 { assert t[i - 1] == x; }
        }
      }
      if s[0] in t {
        var k :| 0 <= k < |t| && t[k] == s[0];
        assert s[0] == s[k + 1];
        assert Elements(s) == Elements(t);
      } else {
        assert s[0] !in Elements(t);
        if NoDuplicates(t) {
          forall i, j | 0 <= i < j < |s| ensures s[i] != s[j] {
            if i > 0 { assert s[i] == t[i - 1] && s[j] == t[j - 1]; } else { assert s[j] == t[j - 1]; }
          }
        }
        if NoDuplicates(s) {
          forall i, j | 0 <= i < j < |t| ensures t[i] != t[j] {
            assert t[i] == s[i + 1] && t[j] == s[j + 1];
          }
        }
      }
    }
  }

  /** `Min()` of a non-empty list. */
  function Min(s: seq<int>): (m: int)
    requires s != []
    ensures m in s && forall i :: 0 <= i < |s| ==> m <= s[i]
  {
    if |s| == 1 then s[0]
    else
      var rest := Min(s[1..]);
      assert forall i :: 1 <= i < |s| ==> s[i] == s[1..][i - 1];
      if s[0] <= rest then s[0] else rest
  }

  /** `Max()` of a non-empty list. */
  function Max(s: seq<int>): (m: int)
    requires s != []
    ensures m in s && forall i :: 0 <= i < |s| ==> s[i] <= m
  {
    if |s| == 1 then s[0]
    else
      var rest := Max(s[1..]);
      assert forall i :: 1 <= i < |s| ==> s[i] == s[1..][i - 1];
      if s[0] >= rest then s[0] else rest
  }

  /** The list 1, 2, ..., n. */
  function OneTo(n: nat): (r: seq<int>)
    ensures |r| == n && forall i :: 0 <= i < n ==> r[i] == i + 1
  {
    if n == 0 then [] else OneTo(n - 1) + [n]
  }

  /** The list holds each of 1..n exactly once, in some order. */
  predicate IsPermutationOfOneTo(s: seq<int>) {
    multiset(s) == multiset(OneTo(|s|))
  }

  lemma {:induction false} MultisetOfDistinct<T>(s: seq<T>, x: T)
    requires NoDuplicates(s)
    ensures multiset(s)[x] == if x in s then 1 else 0
  {
    if s != [] {
      var t := s[1..];
      assert s == [s[0]] + t;
      assert NoDuplicates(t) by {
        forall i, j | 0 <= i < j < |t| ensures t[i] != t[j] {
          assert t[i] == s[i + 1] && t[j] == s[j + 1];
        }
      }
      MultisetOfDistinct(t, x);
      if x == s[0] {
        assert x !in t by {
          forall k | 0 <= k < |t| ensures t[k] != x { assert t[k] == s[k + 1]; }
        }
      }
    }
  }

  lemma SameMultisetOfDistinct<T>(a: seq<T>, b: seq<T>)
    requires NoDuplicates(a) && NoDuplicates(b) && Elements(a) == Elements(b)
    ensures multiset(a) == multiset(b)
  {
    forall x ensures multiset(a)[x] == multiset(b)[x] {
      MultisetOfDistinct(a, x);
      MultisetOfDistinct(b, x);
      assert (x in a) == (x in Elements(a));
      assert (x in b) == (x in Elements(b));
    }
  }

  lemma {:induction false} SubsetOfSameSize<T>(a: set<T>, b: set<T>)
    requires a <= b && |a| == |b|
    ensures a == b
  {
    if a != b {
      var x :| x in b && x !in a;
      assert a <= b - {x};
      assert |b - {x}| == |b| - 1;
      SubsetCardinality(a, b - {x});
    }
  }

  lemma {:induction false} SubsetCardinality<T>(a: set<T>, b: set<T>)
    requires a <= b
    ensures |a| <= |b|
  {
    if a != {} {
      var x :| x in a;
      SubsetCardinality(a - {x}, b - {x});
    }
  }

  lemma OneToIsDistinct(n: nat)
    ensures NoDuplicates(OneTo(n))
    ensures forall k :: k in OneTo(n) <==> 1 <= k <= n
  {
    var r := OneTo(n);
    forall k | 1 <= k <= n ensures k in r { assert r[k - 1] == k; }
  }

  /** The ordering rule of the validators — the answers are unique, the least is 1 and the
      greatest is the number of questions — holds exactly when the answers are a permutation
      of 1..n for a non-empty list. */
  lemma OrderingRangeIffPermutation(s: seq<int>)
    ensures (s != [] && IsUniqueList(s) && Min(s) == 1 && Max(s) == |s|)
        <==> (s != [] && IsPermutationOfOneTo(s))
  {
    if s != [] && IsUniqueList(s) && Min(s) == 1 && Max(s) == |s| {
      RangeIsPermutation(s);
    }
    if s != [] && IsPermutationOfOneTo(s) {
      PermutationIsRange(s);
    }
  }

  lemma RangeIsPermutation(s: seq<int>)
    requires s != [] && IsUniqueList(s) && Min(s) == 1 && Max(s) == |s|
    ensures IsPermutationOfOneTo(s)
  {
    var n := |s|;
    var r := OneTo(n);
    OneToIsDistinct(n);
    ElementsCardinality(r);
    assert Elements(s) <= Elements(r) by {
      forall x | x in Elements(s) ensures x in Elements(r) {
        var i :| 0 <= i < n && s[i] == x;
        assert Min(s) <= s[i] <= Max(s);
      }
    }
    SubsetOfSameSize(Elements(s), Elements(r));
    SameMultisetOfDistinct(s, r);
  }

  lemma PermutationIsRange(s: seq<int>)
    requires s != [] && IsPermutationOfOneTo(s)
    ensures IsUniqueList(s) && Min(s) == 1 && Max(s) == |s|
  {
    var n := |s|;
    var r := OneTo(n);
    OneToIsDistinct(n);
    assert NoDuplicates(s) by {
      forall i, j | 0 <= i < j < n ensures s[i] != s[j] {
        if s[i] == s[j] {
          RepeatedElementCount(s, i, j);
          MultisetOfDistinct(r, s[i]);
        }
      }
    }
    SameMultisetSameMembers(s, r, 1);
    SameMultisetSameMembers(s, r, n);
    var lo, hi := Min(s), Max(s);
    SameMultisetSameMembers(s, r, lo);
    SameMultisetSameMembers(s, r, hi);
  }

  lemma RepeatedElementCount<T>(s: seq<T>, i: int, j: int)
    requires 0 <= i < j < |s| && s[i] == s[j]
    ensures multiset(s)[s[i]] >= 2
  {
    assert s == s[..i] + [s[i]] + s[i + 1..j] + [s[j]] + s[j + 1..];
  }

  lemma SameMultisetSameMembers<T>(a: seq<T>, b: seq<T>, x: T)
    requires multiset(a) == multiset(b)
    ensures x in a <==> x in b
  {
    assert (x in a) == (x in multiset(a));
    assert (x in b) == (x in multiset(b));
  }

  /** The keys of a list of key/value pairs. */
  function Keys<K, V>(pairs: seq<(K, V)>): set<K> {
    set i | 0 <= i < |pairs| :: pairs[i].0
  }

  predicate DistinctKeys<K(==), V>(pairs: seq<(K, V)>) {
    forall i, j :: 0 <= i < j < |pairs| ==> pairs[i].0 != pairs[j].0
  }

  /** `ToDictionary`: adds the pairs in order and throws (`None`) on a key that is already
      present, so it succeeds exactly when the keys are distinct, and then maps each key to
      its value. */
  function ToDictionary<K(==), V>(pairs: seq<(K, V)>): (r: Option<map<K, V>>)
    ensures r.Some? <==> DistinctKeys(pairs)
    ensures r.Some? ==> r.value.Keys == Keys(pairs)
    ensures r.Some? ==> forall i :: 0 <= i < |pairs| ==> r.value[pairs[i].0] == pairs[i].1
  {
    if pairs == [] then Some(map[])
    else
      var init := pairs[..|pairs| - 1];
      var last := pairs[|pairs| - 1];
      assert pairs == init + [last];
      KeysSnoc(init, last);
      match ToDictionary(init)
      case None => None
      case Some(m) =>
        if last.0 in m then
          var j :| 0 <= j < |init| && init[j].0 == last.0;
          assert pairs[j].0 == pairs[|pairs| - 1].0;
          None
        else Some(m[last.0 := last.1])
  }

  /** Appending a pair adds its key to the keys. */
  lemma KeysSnoc<K, V>(init: seq<(K, V)>, last: (K, V))
    ensures Keys(init + [last]) == Keys(init) + {last.0}
  {
    var pairs := init + [last];
    forall k | k in Keys(pairs) ensures k in Keys(init) + {last.0} {
      var i :| 0 <= i < |pairs| && pairs[i].0 == k;
      if i < |init| {
        assert init[i].0 == k;
      }
    }
    forall k | k in Keys(init) + {last.0} ensures k in Keys(pairs) {
      if k == last.0 {
        assert pairs[|init|].0 == k;
      } else {
        var i :| 0 <= i < |init| && init[i].0 == k;
        assert pairs[i].0 == k;
      }
    }
  }
}

/** Small facts about finite sets, maps and sequences. */
module Collections {

  lemma Member<T>(s: set<T>) returns (x: T)
    requires s != {}
    ensures x in s
  {
    x :| x in s;
  }

  lemma NoMembers(s: set<int>)
    requires forall i :: i !in s
    ensures s == {}
  {
    if s != {} { var i := Member(s); }
  }

  lemma NoKeys<V>(m: map<int, V>)
    requires forall i :: i !in m
    ensures m == map[]
  {
    NoMembers(m.Keys);
  }

  lemma SameMap<V>(a: map<int, V>, b: map<int, V>)
    requires forall i :: i in a <==> i in b
    requires forall i :: i in a ==> a[i] == b[i]
    ensures a == b
  {
    NoMembers(a.Keys - b.Keys);
    NoMembers(b.Keys - a.Keys);
    assert a.Keys == b.Keys;
    if a != b { var i := DifferingKey(a, b); }
  }

  lemma DifferingKey<K(!new), V>(a: map<K, V>, b: map<K, V>) returns (k: K)
    requires a.Keys == b.Keys && a != b
    ensures k in a && a[k] != b[k]
  {
    k :| k in a && a[k] != b[k];
  }

  lemma CardinalityMonotone<T>(a: set<T>, b: set<T>)
    requires a <= b
    ensures |a| <= |b|
  {
    assert b == a + (b - a);
  }

  lemma RemoveKeyCount<K, V>(m: map<K, V>, k: K)
    requires k in m
    ensures |m - {k}| == |m| - 1
  {
    assert (m - {k}).Keys == m.Keys - {k};
    assert |(m - {k}).Keys| == |m.Keys| - 1;
  }

  ghost predicate Distinct(s: seq<int>)
  {
    forall i, j :: 0 <= i < j < |s| ==> s[i] != s[j]
  }

  lemma {:induction false} DistinctCount(s: seq<int>)
    requires Distinct(s)
    ensures |set i | i in s| == |s|
  {
    if s != [] {
      var n := |s| - 1;
      DistinctCount(s[..n]);
      assert s == s[..n] + [s[n]];
      assert (set i | i in s) == (set i | i in s[..n]) + {s[n]};
    }
  }

  lemma {:induction false} CountInRange(s: set<int>, n: nat)
    requires forall i :: i in s ==> 0 <= i < n
    ensures |s| <= n
    ensures |s| == n ==> forall i :: 0 <= i < n ==> i in s
  {
    if n > 0 {
      CountInRange(s - {n - 1}, n - 1);
      if n - 1 in s { assert |s - {n - 1}| == |s| - 1; } else { assert s - {n - 1} == s; }
    } else {
      NoMembers(s);
    }
  }

  ghost predicate Injective(m: map<int, int>)
  {
    forall i, j :: i in m && j in m && m[i] == m[j] ==> i == j
  }

  lemma {:induction false} InjectiveCount(m: map<int, int>, values: set<int>)
    requires Injective(m)
    requires forall v :: v in values <==> exists i :: i in m && m[i] == v
    ensures |values| == |m|
  {
    if i: int :| i in m {
      var m' := m - {i};
      RemoveKeyCount(m, i);
      forall v | v in values - {m[i]}
        ensures exists j :: j in m' && m'[j] == v
      {
        var j :| j in m && m[j] == v;
        assert j in m';
      }
      InjectiveCount(m', values - {m[i]});
      assert m[i] in values;
    } else {
      NoKeys(m);
      NoMembers(values);
    }
  }

  /** A stack and an injective index that together hold n distinct numbers below n hold every one. */
  lemma EverythingUsedOnce(m: map<int, int>, free: seq<int>, n: nat, k: int)
    requires Injective(m) && Distinct(free)
    requires forall i :: i in m ==> 0 <= m[i] < n && m[i] !in free
    requires forall i :: i in free ==> 0 <= i < n
    requires |m| + |free| == n && 0 <= k < n
    ensures k in free || exists i :: i in m && m[i] == k
  {
    var used := set i | i in m :: m[i];
    var stacked := set i | i in free;
    InjectiveCount(m, used);
    DistinctCount(free);
    assert used !! stacked;
    assert |used + stacked| == |used| + |stacked|;
    CountInRange(used + stacked, n);
    assert k in used + stacked;
  }
}

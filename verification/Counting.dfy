/** Sizes of finite sets. */
module Counting {
  /** A set with a member, and one with a single member. */
  lemma CardOne<T>(s: set<T>, x: T)
    requires x in s
    ensures |s| >= 1
    ensures (forall y :: y in s ==> y == x) ==> s == {x} && |s| == 1
  {
    assert |s - {x}| + 1 == |s|;
    if forall y :: y in s ==> y == x { assert s == {x}; }
  }

  /** A map that repeats no value has as many values as keys. */
  lemma InjectiveCard<A, B>(m: map<A, B>)
    requires forall x, y :: x in m && y in m && m[x] == m[y] ==> x == y
    ensures |m.Keys| == |m.Values|
  {
    if m.Keys != {} {
      var a :| a in m;
      var m' := m - {a};
      assert m'.Keys == m.Keys - {a};
      assert m'.Values == m.Values - {m[a]} by {
        forall z | z in m.Values - {m[a]} ensures z in m'.Values {
          var x :| x in m && m[x] == z;
          assert x in m' && m'[x] == z;
        }
      }
      InjectiveCard(m');
    } else {
      assert m.Values == {};
    }
  }

  /** A part is no larger than the whole, and a proper part is smaller. */
  lemma SubsetCard<T>(s: set<T>, t: set<T>)
    requires s <= t
    ensures |s| <= |t|
    ensures s != t ==> |s| < |t|
  {
    assert t == s + (t - s);
    if s != t { var x :| x in t - s; CardOne(t - s, x); }
  }

  /** The numbers below n. */
  ghost function Below(n: nat): (r: set<nat>)
    ensures |r| == n && forall k: nat :: k in r <==> k < n
  {
    if n == 0 then {} else Below(n - 1) + {n - 1}
  }

  ghost function Elements(ix: seq<nat>): set<nat> {
    set k | k in ix
  }

  lemma {:induction false} DistinctCount(ix: seq<nat>)
    requires forall k, l :: 0 <= k < l < |ix| ==> ix[k] != ix[l]
    ensures |Elements(ix)| == |ix|
  {
    if ix != [] {
      var r := ix[1..];
      DistinctCount(r);
      assert ix[0] !in Elements(r);
      assert Elements(ix) == Elements(r) + {ix[0]};
    }
  }

  /** Distinct numbers below n are no more than n; and fewer if one of those is missing. */
  lemma DistinctBelow(ix: seq<nat>, n: nat)
    requires forall k, l :: 0 <= k < l < |ix| ==> ix[k] != ix[l]
    requires forall k :: 0 <= k < |ix| ==> ix[k] < n
    ensures |ix| <= n
    ensures forall x: nat :: x < n && x !in ix ==> |ix| < n
  {
    DistinctCount(ix);
    assert forall x: nat :: x < n && x !in ix ==> x in Below(n) && x !in Elements(ix);
    SubsetCard(Elements(ix), Below(n));
  }
}

/** `groupby(key)[value].sum()` over (key, value) pairs: one entry per key that occurs,
    holding the sum of the values paired with it. Rows whose key is missing are left out
    before the pairs are formed, as pandas drops missing group keys. */
module Grouping {

  /** Whether some pair carries key `k`. */
  predicate Occurs<K(==,!new)>(pairs: seq<(K, real)>, k: K) {
    exists i :: 0 <= i < |pairs| && pairs[i].0 == k
  }

  /** The sum of the values paired with `k`, the reference the grouping is measured against. */
  function SumFor<K(==,!new)>(pairs: seq<(K, real)>, k: K): (s: real)
    ensures !Occurs(pairs, k) ==> s == 0.0
  {
    if |pairs| == 0 then 0.0
    else
      var pre := pairs[..|pairs| - 1];
      assert !Occurs(pairs, k) ==> !Occurs(pre, k) by {
        if Occurs(pre, k) {
          var i :| 0 <= i < |pre| && pre[i].0 == k;
          assert pairs[i].0 == k;
        }
      }
      SumFor(pre, k) + (if pairs[|pairs| - 1].0 == k then pairs[|pairs| - 1].1 else 0.0)
  }

  /** Group-by-sum as a left fold over the pairs. */
  function GroupSum<K(==,!new)>(pairs: seq<(K, real)>): (m: map<K, real>)
    ensures forall k :: k in m <==> Occurs(pairs, k)
    ensures forall k :: k in m ==> m[k] == SumFor(pairs, k)
  {
    if |pairs| == 0 then map[]
    else
      var pre := pairs[..|pairs| - 1];
      var m := GroupSum(pre);
      var (k, v) := pairs[|pairs| - 1];
      assert forall k' :: Occurs(pairs, k') <==> Occurs(pre, k') || k' == k by {
        forall k' | Occurs(pairs, k')
          ensures Occurs(pre, k') || k' == k
        {
          var i :| 0 <= i < |pairs| && pairs[i].0 == k';
          if i < |pre| {
            assert pre[i].0 == k';
          }
        }
        forall k' | Occurs(pre, k')
          ensures Occurs(pairs, k')
        {
          var i :| 0 <= i < |pre| && pre[i].0 == k';
          assert pairs[i].0 == k';
        }
        assert pairs[|pairs| - 1].0 == k;
      }
      m[k := (if k in m then m[k] else 0.0) + v]
  }
}

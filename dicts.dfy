/**
 * Python's insertion-ordered `dict`, as a sequence of key/value pairs:
 * assigning to a present key replaces its value where it stands, assigning
 * to a new key appends it.
 */
module Dicts {
  import opened Wrappers

  type Dict<K, V> = seq<(K, V)>

  /** `list(d.keys())` */
  function Keys<K, V>(d: Dict<K, V>): (r: seq<K>)
    ensures |r| == |d| && forall i :: 0 <= i < |d| ==> r[i] == d[i].0
  {
    if d == [] then [] else [d[0].0] + Keys(d[1..])
  }

  /** `d.get(k)` */
  function Get<K(==), V>(d: Dict<K, V>, k: K): Option<V>
  {
    if d == [] then None
    else if d[0].0 == k then Some(d[0].1)
    else Get(d[1..], k)
  }

  /** `d[k] = v` */
  function Put<K(==, !new), V>(d: Dict<K, V>, k: K, v: V): (r: Dict<K, V>)
    ensures Get(r, k) == Some(v)
    ensures forall k' :: k' != k ==> Get(r, k') == Get(d, k')
    ensures Keys(r) == if k in Keys(d) then Keys(d) else Keys(d) + [k]
  {
    if d == [] then [(k, v)]
    else if d[0].0 == k then [(k, v)] + d[1..]
    else [d[0]] + Put(d[1..], k, v)
  }

  /** A new key goes at the end of the keys. */
  lemma PutAppendsKey<K(!new), V>(d: Dict<K, V>, k: K, v: V, a: seq<K>, b: seq<K>)
    requires Keys(d) == a + b && k !in a && k !in b
    ensures Keys(Put(d, k, v)) == a + (b + [k])
  {
    assert k !in Keys(d);
  }

  /** A key is present exactly when `Get` finds a value for it. */
  lemma {:induction false} GetPresent<K, V>(d: Dict<K, V>, k: K)
    ensures Get(d, k).Some? <==> k in Keys(d)
  {
    if d != [] {
      GetPresent(d[1..], k);
      assert Keys(d) == [d[0].0] + Keys(d[1..]);
    }
  }

  /** The keys are pairwise distinct, as in any `dict`. */
  predicate UniqueKeys<K(==), V>(d: Dict<K, V>)
  {
    forall i, j :: 0 <= i < j < |d| ==> d[i].0 != d[j].0
  }

  /** The value of the last pair: with distinct keys it is the only one for its key. */
  lemma {:induction false} GetLast<K, V>(d: Dict<K, V>, k: K)
    requires d != [] && UniqueKeys(d)
    ensures var n := |d| - 1;
      Get(d, k) == if d[n].0 == k then Some(d[n].1) else Get(d[..n], k)
    decreases |d|
  {
    var n := |d| - 1;
    if n > 0 {
      assert d[1..][..n - 1] == d[..n][1..];
      assert d[1..][n - 1] == d[n];
      GetLast(d[1..], k);
    }
  }

  /** Assigning keeps the keys distinct. */
  lemma PutUnique<K(!new), V>(d: Dict<K, V>, k: K, v: V)
    requires UniqueKeys(d)
    ensures UniqueKeys(Put(d, k, v))
  {
    var r := Put(d, k, v);
    forall i, j | 0 <= i < j < |r|
      ensures r[i].0 != r[j].0
    {
      assert Keys(r)[i] == r[i].0 && Keys(r)[j] == r[j].0;
      assert Keys(d)[i] == d[i].0;
      if j < |d| {
        assert Keys(d)[j] == d[j].0;
      }
    }
  }

  /** The pair `p` assigns key `k`. */
  predicate Writes<K(==), V>(p: Option<(K, V)>, k: K)
  {
    p.Some? && p.value.0 == k
  }

  /** The dictionary that starts empty and gets `d[k] = v` for each present pair, in order. */
  function PutEach<K(==, !new), V>(ps: seq<Option<(K, V)>>): (d: Dict<K, V>)
    ensures UniqueKeys(d)
    decreases |ps|
  {
    if ps == [] then []
    else
      var d := PutEach(ps[..|ps| - 1]);
      match ps[|ps| - 1]
      case None => d
      case Some(kv) =>
        PutUnique(d, kv.0, kv.1);
        Put(d, kv.0, kv.1)
  }

  /** One more pair: an assignment when present, nothing otherwise. */
  lemma PutEachSnoc<K(!new), V>(ps: seq<Option<(K, V)>>, p: Option<(K, V)>)
    ensures PutEach(ps + [p]) == if p.Some? then Put(PutEach(ps), p.value.0, p.value.1) else PutEach(ps)
  {
    assert (ps + [p])[..|ps|] == ps;
  }

  /** Some pair of `ps` assigns `k`. */
  predicate Written<K(==), V>(ps: seq<Option<(K, V)>>, k: K)
  {
    exists i :: 0 <= i < |ps| && Writes(ps[i], k)
  }

  /**
   * A key is present exactly when some pair assigns it, and its value is the
   * one of the last pair that does: later assignments overwrite earlier ones.
   */
  lemma {:induction false} PutEachLastWriter<K(!new), V>(ps: seq<Option<(K, V)>>, k: K)
    ensures Get(PutEach(ps), k).Some? <==> Written(ps, k)
    ensures Get(PutEach(ps), k).Some? ==>
      exists i :: 0 <= i < |ps| && Writes(ps[i], k) && Get(PutEach(ps), k) == Some(ps[i].value.1)
        && forall j :: i < j < |ps| ==> !Writes(ps[j], k)
    decreases |ps|
  {
    if ps != [] {
      var n := |ps| - 1;
      var init := ps[..n];
      if Writes(ps[n], k) {
        assert Get(PutEach(ps), k) == Some(ps[n].value.1);
      } else {
        PutEachLastWriter(init, k);
        assert Get(PutEach(ps), k) == Get(PutEach(init), k);
        if Get(PutEach(init), k).Some? {
          var i :| 0 <= i < n && Writes(init[i], k) && Get(PutEach(init), k) == Some(init[i].value.1)
            && forall j :: i < j < n ==> !Writes(init[j], k);
          assert init[i] == ps[i];
          NoWriteAfter(ps, init, k, i);
        } else {
          NoWriteAfter(ps, init, k, -1);
        }
      }
    }
  }

  /** No pair after `i` assigns `k` when the last does not and none of the others after `i` does. */
  lemma NoWriteAfter<K, V>(ps: seq<Option<(K, V)>>, init: seq<Option<(K, V)>>, k: K, i: int)
    requires ps != [] && init == ps[..|ps| - 1] && -1 <= i < |init| && !Writes(ps[|init|], k)
    requires forall j :: i < j < |init| ==> !Writes(init[j], k)
    ensures forall j :: i < j < |ps| ==> !Writes(ps[j], k)
  {
    forall j | i < j < |ps| ensures !Writes(ps[j], k) {
      if j < |init| {
        assert init[j] == ps[j];
      }
    }
  }
}

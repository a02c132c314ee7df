/** Python dictionaries as insertion-ordered association lists. Assigning
    `d[k] = v` keeps the position of an existing key and appends a new one,
    which is what the rendering and citation code observe when it iterates. */
module Dict {
  import opened Wrappers

  function Keys<K, V>(d: seq<(K, V)>): (ks: seq<K>)
    ensures |ks| == |d|
    ensures forall i | 0 <= i < |d| :: ks[i] == d[i].0
  {
    if |d| == 0 then [] else [d[0].0] + Keys(d[1..])
  }

  predicate DistinctKeys<K(==), V>(d: seq<(K, V)>) {
    forall i, j | 0 <= i < j < |d| :: d[i].0 != d[j].0
  }

  /** `d.get(k)`: the value of the first binding of `k`. */
  function Get<K(==), V>(d: seq<(K, V)>, k: K): (r: Option<V>)
    ensures r.None? <==> k !in Keys(d)
  {
    if |d| == 0 then None
    else if d[0].0 == k then Some(d[0].1)
    else
      assert Keys(d) == [d[0].0] + Keys(d[1..]);
      Get(d[1..], k)
  }

  /** `d[k] = v` */
  function Put<K(==), V>(d: seq<(K, V)>, k: K, v: V): (r: seq<(K, V)>)
    ensures Get(r, k) == Some(v)
  {
    if |d| == 0 then [(k, v)]
    else if d[0].0 == k then [(k, v)] + d[1..]
    else
      var tail := Put(d[1..], k, v);
      var r := [d[0]] + tail;
      assert r[1..] == tail;
      r
  }

  /** An existing key keeps its position; a new key is appended. */
  lemma {:induction false} PutKeys<K, V>(d: seq<(K, V)>, k: K, v: V)
    ensures Keys(Put(d, k, v)) == if k in Keys(d) then Keys(d) else Keys(d) + [k]
  {
    if |d| > 0 {
      assert Keys(d) == [d[0].0] + Keys(d[1..]);
      if d[0].0 == k {
        assert Keys(Put(d, k, v)) == [k] + Keys(d[1..]);
      } else {
        PutKeys(d[1..], k, v);
        var r := Put(d, k, v);
        assert r[1..] == Put(d[1..], k, v);
        assert Keys(r) == [d[0].0] + Keys(r[1..]);
      }
    }
  }

  /** Assigning keeps the keys distinct. */
  lemma PutDistinct<K, V>(d: seq<(K, V)>, k: K, v: V)
    requires DistinctKeys(d)
    ensures DistinctKeys(Put(d, k, v))
  {
    var r := Put(d, k, v);
    PutKeys(d, k, v);
    forall i, j | 0 <= i < j < |r| ensures r[i].0 != r[j].0 {
      assert Keys(r)[i] == r[i].0 && Keys(r)[j] == r[j].0;
      if k !in Keys(d) && j == |d| {
        assert r[i].0 == Keys(d)[i];
      } else {
        assert Keys(d)[i] == d[i].0 && Keys(d)[j] == d[j].0;
      }
    }
  }

  /** Assigning one key leaves every other key's lookup unchanged. */
  lemma {:induction false} PutOther<K, V>(d: seq<(K, V)>, k: K, v: V, k': K)
    requires k' != k
    ensures Get(Put(d, k, v), k') == Get(d, k')
  {
    if |d| > 0 && d[0].0 != k {
      PutOther(d[1..], k, v, k');
      assert Put(d, k, v)[1..] == Put(d[1..], k, v);
    }
  }

  /** `{k: f(v) for k, v in d.items()}` */
  function MapValues<K, V, W>(d: seq<(K, V)>, f: V -> W): (r: seq<(K, W)>)
    ensures |r| == |d|
    ensures forall i | 0 <= i < |d| :: r[i] == (d[i].0, f(d[i].1))
  {
    if |d| == 0 then [] else [(d[0].0, f(d[0].1))] + MapValues(d[1..], f)
  }

  lemma MapValuesGet<K, V, W>(d: seq<(K, V)>, f: V -> W, k: K)
    ensures Keys(MapValues(d, f)) == Keys(d)
    ensures Get(MapValues(d, f), k) == (match Get(d, k) case None => None case Some(v) => Some(f(v)))
  {
    if |d| > 0 && d[0].0 != k {
      MapValuesGet(d[1..], f, k);
      assert MapValues(d, f)[1..] == MapValues(d[1..], f);
    }
  }

  /** `for k, v in pairs: d[k] = v` */
  function PutAll<K(==), V>(d: seq<(K, V)>, pairs: seq<(K, V)>): seq<(K, V)> {
    if |pairs| == 0 then d
    else
      var last := pairs[|pairs| - 1];
      Put(PutAll(d, pairs[..|pairs| - 1]), last.0, last.1)
  }

  lemma PutAllSnoc<K, V>(d: seq<(K, V)>, pairs: seq<(K, V)>, k: K, v: V)
    ensures PutAll(d, pairs + [(k, v)]) == Put(PutAll(d, pairs), k, v)
  {
    assert (pairs + [(k, v)])[..|pairs|] == pairs;
  }

  /** The value of the last pair with key `k`. */
  function LastValue<K(==), V>(pairs: seq<(K, V)>, k: K): (v: V)
    requires k in Keys(pairs)
    ensures (k, v) in pairs
  {
    var last := pairs[|pairs| - 1];
    if last.0 == k then last.1
    else
      KeysSnoc(pairs);
      LastValue(pairs[..|pairs| - 1], k)
  }

  lemma KeysSnoc<K, V>(pairs: seq<(K, V)>)
    requires |pairs| > 0
    ensures Keys(pairs) == Keys(pairs[..|pairs| - 1]) + [pairs[|pairs| - 1].0]
  {
  }

  /** After the loop a key given by some pair holds the last value given for
      it; any other key keeps its value. */
  lemma {:induction false} PutAllGet<K, V>(d: seq<(K, V)>, pairs: seq<(K, V)>, k: K)
    ensures Get(PutAll(d, pairs), k) == if k in Keys(pairs) then Some(LastValue(pairs, k)) else Get(d, k)
  {
    if |pairs| > 0 {
      var init := pairs[..|pairs| - 1];
      var last := pairs[|pairs| - 1];
      KeysSnoc(pairs);
      PutAllGet(d, init, k);
      if last.0 != k {
        PutOther(PutAll(d, init), last.0, last.1, k);
      }
    }
  }

  /** A binding not shadowed by an earlier one is what `Get` finds. */
  lemma {:induction false} GetAt<K, V>(d: seq<(K, V)>, i: int)
    requires 0 <= i < |d|
    requires forall j | 0 <= j < i :: d[j].0 != d[i].0
    ensures Get(d, d[i].0) == Some(d[i].1)
  {
    if i > 0 {
      assert d[1..][i - 1] == d[i];
      GetAt(d[1..], i - 1);
    }
  }

  /** `del d[k]` when present; nothing otherwise. */
  function Remove<K(==), V>(d: seq<(K, V)>, k: K): (r: seq<(K, V)>)
    ensures |r| <= |d|
  {
    if |d| == 0 then []
    else if d[0].0 == k then Remove(d[1..], k)
    else [d[0]] + Remove(d[1..], k)
  }

  /** Removing `k` hides every binding of `k` and no other. */
  lemma {:induction false} RemoveGet<K, V>(d: seq<(K, V)>, k: K, k': K)
    ensures Get(Remove(d, k), k') == if k' == k then None else Get(d, k')
  {
    if |d| > 0 {
      RemoveGet(d[1..], k, k');
    }
  }
}

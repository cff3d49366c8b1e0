/**
  A Python `dict`: key/value pairs kept in first-insertion order. Assigning to a key
  that is already present replaces its value and leaves it where it was; a new key
  goes at the end.
*/
module OrderedMaps {

  type Dict<K, V> = seq<(K, V)>

  function Keys<K, V>(d: Dict<K, V>): seq<K> {
    seq(|d|, i requires 0 <= i < |d| => d[i].0)
  }

  ghost predicate UniqueKeys<K, V>(d: Dict<K, V>) {
    forall i, j :: 0 <= i < j < |d| ==> d[i].0 != d[j].0
  }

  /** Position of a present key: its first occurrence. */
  function IndexOf<K(==), V>(d: Dict<K, V>, k: K): (i: nat)
    requires k in Keys(d)
    ensures i < |d| && d[i].0 == k
    ensures forall j :: 0 <= j < i ==> d[j].0 != k
  {
    if d[0].0 == k then 0
    else
      assert k in Keys(d[1..]) by {
        var j :| 0 <= j < |d| && Keys(d)[j] == k;
        assert Keys(d[1..])[j - 1] == k;
      }
      1 + IndexOf(d[1..], k)
  }

  /** `d[k]` for a present key. */
  function Get<K(==), V>(d: Dict<K, V>, k: K): V
    requires k in Keys(d)
  {
    d[IndexOf(d, k)].1
  }

  /** `d[k] = v`. */
  function Put<K(==), V>(d: Dict<K, V>, k: K, v: V): Dict<K, V> {
    if k in Keys(d) then d[IndexOf(d, k) := (k, v)] else d + [(k, v)]
  }

  /** After `d[k] = v`: the key list grows only by a new key, at the end. */
  lemma PutKeys<K, V>(d: Dict<K, V>, k: K, v: V)
    ensures Keys(Put(d, k, v)) == if k in Keys(d) then Keys(d) else Keys(d) + [k]
  {
  }

  /** After `d[k] = v`: keys stay unique. */
  lemma PutUnique<K, V>(d: Dict<K, V>, k: K, v: V)
    requires UniqueKeys(d)
    ensures UniqueKeys(Put(d, k, v))
  {
    PutKeys(d, k, v);
    if k !in Keys(d) {
      forall i | 0 <= i < |d| ensures d[i].0 != k {
        assert Keys(d)[i] == d[i].0;
      }
    }
  }

  /** After `d[k] = v`: a present key reads `v` if it is `k`, and as before otherwise. */
  lemma PutGetAt<K, V>(d: Dict<K, V>, k: K, v: V, k': K)
    requires UniqueKeys(d) && (k' == k || k' in Keys(d))
    ensures k' in Keys(Put(d, k, v)) && Get(Put(d, k, v), k') == if k' == k then v else Get(d, k')
  {
    PutUnique(d, k, v);
    PutKeys(d, k, v);
    var r := Put(d, k, v);
    var i := IndexOf(r, k');
    if k' != k {
      var j := IndexOf(d, k');
      assert r[j].0 == k';
    }
  }

  /** After `d[k] = v`: keys stay unique, `d[k]` reads `v`, every other key reads as before. */
  lemma PutGet<K, V>(d: Dict<K, V>, k: K, v: V)
    requires UniqueKeys(d)
    ensures UniqueKeys(Put(d, k, v))
    ensures k in Keys(Put(d, k, v)) && Get(Put(d, k, v), k) == v
    ensures forall k' :: k' != k && k' in Keys(d) ==> k' in Keys(Put(d, k, v)) && Get(Put(d, k, v), k') == Get(d, k')
  {
    PutUnique(d, k, v);
    PutKeys(d, k, v);
    PutGetAt(d, k, v, k);
    forall k' | k' != k && k' in Keys(d)
      ensures k' in Keys(Put(d, k, v)) && Get(Put(d, k, v), k') == Get(d, k')
    {
      PutGetAt(d, k, v, k');
    }
  }

  /** Appending a key that is not yet present is a plain `d[k] = v` on a new key. */
  lemma PutLast<K, V>(d: Dict<K, V>, k: K, v0: V, v: V)
    requires k !in Keys(d)
    ensures Put(d + [(k, v0)], k, v) == d + [(k, v)]
  {
    var e := d + [(k, v0)];
    assert Keys(e) == Keys(d) + [k];
    forall i | 0 <= i < |d| ensures d[i].0 != k {
      assert Keys(d)[i] == d[i].0;
    }
  }

  /** Reading the key that was just appended gives its value. */
  lemma GetLast<K, V>(d: Dict<K, V>, k: K, v: V)
    requires k !in Keys(d)
    ensures k in Keys(d + [(k, v)]) && Get(d + [(k, v)], k) == v
  {
    var e := d + [(k, v)];
    assert Keys(e) == Keys(d) + [k];
    forall i | 0 <= i < |d| ensures d[i].0 != k {
      assert Keys(d)[i] == d[i].0;
    }
  }

  /** Right after `d[k] = v`, `d[k]` reads `v`, whether or not the keys were unique. */
  lemma PutThenGet<K, V>(d: Dict<K, V>, k: K, v: V)
    ensures k in Keys(Put(d, k, v)) && Get(Put(d, k, v), k) == v
  {
    var r := Put(d, k, v);
    PutKeys(d, k, v);
    if k in Keys(d) {
      var i := IndexOf(d, k);
      assert Keys(r)[i] == k;
      assert IndexOf(r, k) == i;
    } else {
      forall i | 0 <= i < |d| ensures d[i].0 != k {
        assert Keys(d)[i] == d[i].0;
      }
      assert Keys(r)[|d|] == k;
    }
  }

  /** A second `d[k] = v2` overwrites the first. */
  lemma PutPut<K, V>(d: Dict<K, V>, k: K, v1: V, v2: V)
    ensures Put(Put(d, k, v1), k, v2) == Put(d, k, v2)
  {
    var e := Put(d, k, v1);
    PutKeys(d, k, v1);
    if k in Keys(d) {
      var i := IndexOf(d, k);
      assert Keys(e)[i] == k;
      assert IndexOf(e, k) == i;
    } else {
      forall i | 0 <= i < |d| ensures d[i].0 != k {
        assert Keys(d)[i] == d[i].0;
      }
      assert Keys(e)[|d|] == k;
      assert IndexOf(e, k) == |d|;
    }
  }

  /** The dict built by `d[k] = v` for each pair in turn, starting from `{}`. */
  function FromPairs<K(==), V>(pairs: Dict<K, V>): Dict<K, V> {
    if pairs == [] then []
    else
      var last := pairs[|pairs| - 1];
      Put(FromPairs(pairs[..|pairs| - 1]), last.0, last.1)
  }

  /** The elements of `s` in order of first appearance, later repeats dropped. */
  function Distinct<K(==)>(s: seq<K>): (r: seq<K>)
    ensures |r| <= |s|
    ensures forall i :: 0 <= i < |r| ==> r[i] in s
    ensures forall i :: 0 <= i < |s| ==> s[i] in r
  {
    if s == [] then []
    else
      var init := Distinct(s[..|s| - 1]);
      assert s == s[..|s| - 1] + [s[|s| - 1]];
      init + (if s[|s| - 1] in init then [] else [s[|s| - 1]])
  }

  /** j is the last position of `k` in `ks`. */
  ghost predicate LastWith<K>(ks: seq<K>, k: K, j: int) {
    0 <= j < |ks| && ks[j] == k && forall j' :: j < j' < |ks| ==> ks[j'] != k
  }

  /** Building a dict pair by pair gives one key per distinct key, in order of first appearance. */
  lemma {:induction false} FromPairsKeys<K, V>(pairs: Dict<K, V>)
    ensures UniqueKeys(FromPairs(pairs))
    ensures Keys(FromPairs(pairs)) == Distinct(Keys(pairs))
  {
    if pairs != [] {
      var n := |pairs|;
      var init := pairs[..n - 1];
      var prev := FromPairs(init);
      FromPairsKeys(init);
      assert Keys(init) == Keys(pairs)[..n - 1];
      PutKeys(prev, pairs[n - 1].0, pairs[n - 1].1);
      PutGet(prev, pairs[n - 1].0, pairs[n - 1].1);
    }
  }

  /** Building a dict pair by pair, the value of a key is the one of its last pair. */
  lemma {:induction false} FromPairsLastWins<K, V>(pairs: Dict<K, V>, k: K) returns (j: nat)
    requires k in Keys(FromPairs(pairs))
    ensures LastWith(Keys(pairs), k, j) && Get(FromPairs(pairs), k) == pairs[j].1
  {
    var n := |pairs|;
    var init := pairs[..n - 1];
    var prev := FromPairs(init);
    var last := pairs[n - 1];
    assert FromPairs(pairs) == Put(prev, last.0, last.1);
    FromPairsKeys(init);
    PutGet(prev, last.0, last.1);
    if k == last.0 {
      j := n - 1;
      assert Keys(pairs)[j] == k;
    } else {
      PutKeys(prev, last.0, last.1);
      assert k in Keys(prev);
      j := FromPairsLastWins(init, k);
      assert Get(FromPairs(pairs), k) == Get(prev, k) == init[j].1;
      assert init[j] == pairs[j];
      KeysOfPrefix(pairs, n - 1);
      assert Keys(pairs)[n - 1] == last.0;
      LastWithExtended(Keys(pairs), k, j);
    }
  }

  lemma KeysOfPrefix<K, V>(d: Dict<K, V>, m: int)
    requires 0 <= m <= |d|
    ensures Keys(d[..m]) == Keys(d)[..m]
  {
  }

  /** The last position of k stays the last when an element other than k is appended. */
  lemma LastWithExtended<K>(ks: seq<K>, k: K, j: int)
    requires |ks| > 0 && ks[|ks| - 1] != k
    requires LastWith(ks[..|ks| - 1], k, j)
    ensures LastWith(ks, k, j)
  {
    forall j' | j < j' < |ks| ensures ks[j'] != k {
      if j' < |ks| - 1 {
        assert ks[j'] == ks[..|ks| - 1][j'];
      }
    }
  }
}

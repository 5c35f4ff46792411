/**
 * An insertion-ordered map (the behaviour of `java.util.LinkedHashMap`) as a
 * sequence of key/value entries. `Put` on a present key replaces the value
 * where it stands; on an absent key it appends. `Remove` takes the entry out
 * and closes the gap, so a later `Put` of the same key lands at the end.
 */
module LinkedMaps {
  import opened Wrappers

  type Entries<K, V> = seq<(K, V)>

  /** No key occurs twice. */
  ghost predicate UniqueKeys<K, V>(m: Entries<K, V>) {
    forall i, j :: 0 <= i < j < |m| ==> m[i].0 != m[j].0
  }

  predicate HasKey<K(==), V>(m: Entries<K, V>, k: K) {
    exists i :: 0 <= i < |m| && m[i].0 == k
  }

  /** The keys in insertion order (`keySet()` iteration order). */
  function Keys<K, V>(m: Entries<K, V>): (ks: seq<K>)
    ensures |ks| == |m|
    ensures forall i :: 0 <= i < |m| ==> ks[i] == m[i].0
  {
    if m == [] then [] else [m[0].0] + Keys(m[1..])
  }

  /** Position of the first entry with key `k`, or -1 when there is none. */
  function IndexOf<K(==), V>(m: Entries<K, V>, k: K): (i: int)
    ensures -1 <= i < |m|
    ensures i == -1 <==> !HasKey(m, k)
    ensures 0 <= i ==> m[i].0 == k && forall j :: 0 <= j < i ==> m[j].0 != k
  {
    if m == [] then -1
    else if m[0].0 == k then 0
    else
      var r := IndexOf(m[1..], k);
      if r < 0 then -1 else r + 1
  }

  /** Two entry lists with the same keys place every key at the same index. */
  lemma IndexOfSameKeys<K, V, W>(a: Entries<K, V>, b: Entries<K, W>, k: K)
    requires |a| == |b| && forall i :: 0 <= i < |a| ==> a[i].0 == b[i].0
    ensures IndexOf(a, k) == IndexOf(b, k)
  {
  }

  /** `get`: the value stored under `k`, if any. */
  function Get<K(==), V>(m: Entries<K, V>, k: K): (r: Option<V>)
    ensures r.Some? <==> HasKey(m, k)
    ensures r.Some? ==> exists i :: 0 <= i < |m| && m[i] == (k, r.value)
  {
    var i := IndexOf(m, k);
    if i < 0 then None else Some(m[i].1)
  }

  /** `getOrDefault`. */
  function GetOrDefault<K(==), V>(m: Entries<K, V>, k: K, default: V): V {
    Get(m, k).GetOr(default)
  }

  /** `put`: replace the value in place when `k` is present, append otherwise. */
  function Put<K(==), V>(m: Entries<K, V>, k: K, v: V): Entries<K, V> {
    var i := IndexOf(m, k);
    if i < 0 then m + [(k, v)] else m[i := (k, v)]
  }

  /** `put` seen from the front: the first entry is replaced when it holds
      `k`, otherwise the put happens in the rest. */
  lemma PutFront<K, V>(m: Entries<K, V>, k: K, v: V)
    requires m != []
    ensures Put(m, k, v) == if m[0].0 == k then [(k, v)] + m[1..] else [m[0]] + Put(m[1..], k, v)
  {
    if m[0].0 != k {
      var i := IndexOf(m[1..], k);
      assert IndexOf(m, k) == if i < 0 then -1 else i + 1;
      if i < 0 {
        assert m + [(k, v)] == [m[0]] + (m[1..] + [(k, v)]);
      } else {
        assert m[i + 1 := (k, v)] == [m[0]] + m[1..][i := (k, v)];
      }
    }
  }

  /** `put` keeps the key order, appending a new key at the end. */
  lemma PutKeys<K, V>(m: Entries<K, V>, k: K, v: V)
    ensures HasKey(m, k) ==> Keys(Put(m, k, v)) == Keys(m)
    ensures !HasKey(m, k) ==> Keys(Put(m, k, v)) == Keys(m) + [k]
  {
    var r := Put(m, k, v);
    if HasKey(m, k) {
      assert Keys(r) == Keys(m);
    } else {
      assert Keys(r) == Keys(m) + [k];
    }
  }

  /** `remove`: take out the entry for `k`, if any. Exactly one entry goes
      when `k` is present and the other keys keep their insertion order; in a
      map with unique keys, `k` is then absent and every other key keeps its
      value. */
  function Remove<K(==,!new), V>(m: Entries<K, V>, k: K): (r: Entries<K, V>)
    ensures |r| == if HasKey(m, k) then |m| - 1 else |m|
    ensures HasKey(m, k) ==> Keys(r) == Keys(m)[..IndexOf(m, k)] + Keys(m)[IndexOf(m, k) + 1..]
    ensures UniqueKeys(m) ==> UniqueKeys(r) && !HasKey(r, k)
    ensures UniqueKeys(m) ==> forall k' :: k' != k ==> Get(r, k') == Get(m, k')
  {
    var i := IndexOf(m, k);
    if i < 0 then m
    else
      CutKeepsOthers(m, i);
      m[..i] + m[i + 1..]
  }

  /** `putIfAbsent`: a stored value is kept; an absent key is stored last.
      Every entry already there stays where it is. */
  function PutIfAbsent<K(==,!new), V>(m: Entries<K, V>, k: K, v: V): (r: Entries<K, V>)
    ensures Get(r, k) == if HasKey(m, k) then Get(m, k) else Some(v)
    ensures forall k' :: k' != k ==> Get(r, k') == Get(m, k')
    ensures |m| <= |r| <= |m| + 1 && r[..|m|] == m
    ensures UniqueKeys(m) ==> UniqueKeys(r)
  {
    if HasKey(m, k) then m
    else
      AppendKeepsIndex(m, (k, v));
      m + [(k, v)]
  }

  /** Appending an entry moves no key: a present key is found where it was,
      and the appended key, when new, is found at the end. */
  lemma {:induction false} AppendKeepsIndex<K, V>(m: Entries<K, V>, e: (K, V))
    ensures forall k :: IndexOf(m + [e], k) == if HasKey(m, k) then IndexOf(m, k) else if e.0 == k then |m| else -1
  {
    if m != [] {
      AppendKeepsIndex(m[1..], e);
      assert (m + [e])[1..] == m[1..] + [e];
      forall k ensures HasKey(m, k) <==> m[0].0 == k || HasKey(m[1..], k) {
        if HasKey(m, k) && m[0].0 != k {
          var i :| 0 <= i < |m| && m[i].0 == k;
          assert m[1..][i - 1].0 == k;
        }
        if HasKey(m[1..], k) {
          var i :| 0 <= i < |m[1..]| && m[1..][i].0 == k;
          assert m[i + 1].0 == k;
        }
      }
    }
  }

  lemma PutKeepsKeysUnique<K, V>(m: Entries<K, V>, k: K, v: V)
    requires UniqueKeys(m)
    ensures UniqueKeys(Put(m, k, v))
    ensures Get(Put(m, k, v), k) == Some(v)
    ensures forall k' :: k' != k ==> Get(Put(m, k, v), k') == Get(m, k')
  {
    var r := Put(m, k, v);
    var n := |r| - 1;
    if HasKey(m, k) {
      n := IndexOf(m, k);
    }
    UniqueGet(r, k, n);
    forall k' | k' != k ensures Get(r, k') == Get(m, k') {
      if HasKey(m, k') {
        UniqueGet(r, k', IndexOf(m, k'));
      } else {
        assert !HasKey(r, k');
      }
    }
  }

  /** In a map with unique keys, cutting out the entry at `i` leaves the keys
      unique, its key absent and every other key's value where `Get` finds it. */
  lemma CutKeepsOthers<K, V>(m: Entries<K, V>, i: int)
    requires 0 <= i < |m|
    ensures UniqueKeys(m) ==> UniqueKeys(m[..i] + m[i + 1..]) && !HasKey(m[..i] + m[i + 1..], m[i].0)
    ensures UniqueKeys(m) ==> forall k' :: k' != m[i].0 ==> Get(m[..i] + m[i + 1..], k') == Get(m, k')
  {
    if UniqueKeys(m) {
      var r := m[..i] + m[i + 1..];
      RemoveShape(m, i);
      forall k' | k' != m[i].0 ensures Get(r, k') == Get(m, k') {
        if HasKey(m, k') {
          var j := IndexOf(m, k');
          UniqueGet(r, k', if j < i then j else j - 1);
        } else {
          assert !HasKey(r, k');
        }
      }
    }
  }

  /** Cutting out the entry at `i` shifts every later entry down by one. */
  lemma RemoveShape<K, V>(m: Entries<K, V>, i: int)
    requires 0 <= i < |m|
    ensures forall j :: 0 <= j < |m| - 1 ==> (m[..i] + m[i + 1..])[j] == if j < i then m[j] else m[j + 1]
  {
  }

  /** In a map with unique keys, the entry found at any index holding `k` is the one `Get` returns. */
  lemma UniqueGet<K, V>(m: Entries<K, V>, k: K, i: int)
    requires UniqueKeys(m)
    requires 0 <= i < |m| && m[i].0 == k
    ensures IndexOf(m, k) == i && Get(m, k) == Some(m[i].1)
  {
  }

  /** Putting back the value a key already has changes nothing. */
  lemma PutSame<K, V>(m: Entries<K, V>, k: K, v: V)
    requires UniqueKeys(m) && Get(m, k) == Some(v)
    ensures Put(m, k, v) == m
  {
    var i :| 0 <= i < |m| && m[i] == (k, v);
    UniqueGet(m, k, i);
  }

  /** A second put on the same key overrides the first. */
  lemma PutPut<K, V>(m: Entries<K, V>, k: K, v: V, w: V)
    ensures Put(Put(m, k, v), k, w) == Put(m, k, w)
  {
    var r := Put(m, k, v);
    assert HasKey(r, k) by { if HasKey(m, k) { assert r[IndexOf(m, k)].0 == k; } else { assert r[|m|].0 == k; } }
    if HasKey(m, k) {
      assert IndexOf(r, k) == IndexOf(m, k) by { IndexOfSameKeys(m, r, k); }
    } else {
      assert IndexOf(r, k) == |m|;
    }
  }
}

/**
 * Python's insertion-ordered `dict`, as far as the bot uses it: `d.get(k)`,
 * `d[k] = v` (overwrite in place, or append a new key at the end),
 * `d.setdefault(k, [])`, `d.pop(k, None)` and iteration in insertion order.
 *
 * A dict is an association list searched from the front. A real `dict`
 * never holds a key twice; `DistinctKeys` states that, and every operation
 * here preserves it.
 */
module Dicts {

  datatype Option<+T> = None | Some(value: T)

  type Dict<K, V> = seq<(K, V)>

  /** The keys in iteration (insertion) order. */
  function Keys<K, V>(d: Dict<K, V>): (ks: seq<K>)
    ensures |ks| == |d|
    ensures forall i :: 0 <= i < |d| ==> ks[i] == d[i].0
  {
    seq(|d|, i requires 0 <= i < |d| => d[i].0)
  }

  ghost predicate DistinctKeys<K, V>(d: Dict<K, V>) {
    forall i, j :: 0 <= i < j < |d| ==> d[i].0 != d[j].0
  }

  /** Position of the first entry holding key `k`, if any. */
  function IndexOf<K(==), V>(d: Dict<K, V>, k: K): (r: Option<nat>)
    ensures r.Some? ==> r.value < |d| && d[r.value].0 == k
    ensures r.Some? ==> forall j :: 0 <= j < r.value ==> d[j].0 != k
    ensures r.None? <==> k !in Keys(d)
  {
    if d == [] then None
    else if d[0].0 == k then Some(0)
    else match IndexOf(d[1..], k)
      case None => None
      case Some(i) => Some(i + 1)
  }

  /** `d.get(k)`: the value stored under `k`, or None when `k` is absent. */
  function Get<K(==), V>(d: Dict<K, V>, k: K): (r: Option<V>)
    ensures r.Some? <==> k in Keys(d)
    ensures r.Some? ==> (k, r.value) in d
  {
    match IndexOf(d, k)
    case Some(i) => Some(d[i].1)
    case None => None
  }

  /** `d.get(k, default)`. */
  function GetOr<K(==), V>(d: Dict<K, V>, k: K, default: V): V {
    match Get(d, k)
    case Some(v) => v
    case None => default
  }

  /**
   * `d[k] = v`: an existing key keeps its position and takes the new value;
   * a new key goes at the end.
   */
  function Put<K(==,!new), V>(d: Dict<K, V>, k: K, v: V): (r: Dict<K, V>)
    ensures forall m :: Get(r, m) == if m == k then Some(v) else Get(d, m)
    ensures Keys(r) == if k in Keys(d) then Keys(d) else Keys(d) + [k]
    ensures DistinctKeys(d) ==> DistinctKeys(r)
  {
    match IndexOf(d, k)
    case Some(i) =>
      OverwriteLookups(d, i, v);
      d[i := (k, v)]
    case None =>
      AppendLookups(d, k, v);
      d + [(k, v)]
  }

  /**
   * `d.pop(k, None)`: removes the entry for `k`, if there is one; the other
   * keys keep their order.
   */
  function Pop<K(==,!new), V>(d: Dict<K, V>, k: K): (r: Dict<K, V>)
    ensures |r| == if k in Keys(d) then |d| - 1 else |d|
    ensures k !in Keys(d) ==> r == d
    ensures k in Keys(d) ==> var i := IndexOf(d, k).value; Keys(r) == Keys(d)[..i] + Keys(d)[i + 1..]
    ensures DistinctKeys(d) ==> DistinctKeys(r)
    ensures DistinctKeys(d) ==> forall m :: m in Keys(r) <==> m in Keys(d) && m != k
    ensures DistinctKeys(d) ==> forall m :: Get(r, m) == if m == k then None else Get(d, m)
  {
    match IndexOf(d, k)
    case Some(i) =>
      RemoveLookups(d, i);
      assert Keys(d[..i] + d[i + 1..]) == Keys(d)[..i] + Keys(d)[i + 1..];
      d[..i] + d[i + 1..]
    case None =>
      d
  }

  /** Overwriting the value at position `i` changes the lookup of that key only. */
  lemma OverwriteLookups<K, V>(d: Dict<K, V>, i: nat, v: V)
    requires i < |d|
    requires forall j :: 0 <= j < i ==> d[j].0 != d[i].0
    ensures Keys(d[i := (d[i].0, v)]) == Keys(d)
    ensures forall m :: Get(d[i := (d[i].0, v)], m) == if m == d[i].0 then Some(v) else Get(d, m)
    ensures DistinctKeys(d) ==> DistinctKeys(d[i := (d[i].0, v)])
  {
    var r := d[i := (d[i].0, v)];
    assert Keys(r) == Keys(d);
    forall m ensures Get(r, m) == if m == d[i].0 then Some(v) else Get(d, m) {
      if m == d[i].0 {
        match IndexOf(r, m)
        case Some(j) =>
          assert !(j < i) && !(i < j);
        case None =>
      } else {
        GetUnderUpdate(d, i, v, m);
      }
    }
  }

  /** Appending a key that is not yet present adds exactly that lookup. */
  lemma AppendLookups<K, V>(d: Dict<K, V>, k: K, v: V)
    requires k !in Keys(d)
    ensures Keys(d + [(k, v)]) == Keys(d) + [k]
    ensures forall m :: Get(d + [(k, v)], m) == if m == k then Some(v) else Get(d, m)
    ensures DistinctKeys(d) ==> DistinctKeys(d + [(k, v)])
  {
    var r := d + [(k, v)];
    assert Keys(r) == Keys(d) + [k];
    forall m ensures Get(r, m) == if m == k then Some(v) else Get(d, m) {
      GetUnderAppend(d, k, v, m);
    }
    if DistinctKeys(d) {
      forall a, b | 0 <= a < b < |r| ensures r[a].0 != r[b].0 {
        if b == |d| {
          assert Keys(d)[a] == r[a].0;
        }
      }
    }
  }

  /** Removing position `i` of a dict removes exactly the lookup of its key. */
  lemma RemoveLookups<K, V>(d: Dict<K, V>, i: nat)
    requires i < |d|
    ensures |d[..i] + d[i + 1..]| == |d| - 1
    ensures DistinctKeys(d) ==> DistinctKeys(d[..i] + d[i + 1..])
    ensures DistinctKeys(d) ==> forall m :: m in Keys(d[..i] + d[i + 1..]) <==> m in Keys(d) && m != d[i].0
    ensures DistinctKeys(d) ==> forall m :: Get(d[..i] + d[i + 1..], m) == if m == d[i].0 then None else Get(d, m)
  {
    var r := d[..i] + d[i + 1..];
    if DistinctKeys(d) {
      RemovedDistinct(d, i);
      forall m ensures m in Keys(r) <==> m in Keys(d) && m != d[i].0 {
        RemovedKey(d, i, m);
      }
      forall m ensures Get(r, m) == if m == d[i].0 then None else Get(d, m) {
        RemovedGet(d, i, m);
      }
    }
  }

  lemma RemovedGet<K, V>(d: Dict<K, V>, i: nat, m: K)
    requires i < |d| && DistinctKeys(d)
    ensures Get(d[..i] + d[i + 1..], m) == if m == d[i].0 then None else Get(d, m)
  {
    var r := d[..i] + d[i + 1..];
    RemovedKey(d, i, m);
    if m != d[i].0 && m in Keys(d) {
      var j :| 0 <= j < |d| && Keys(d)[j] == m;
      var j' := if j < i then j else j - 1;
      assert r[j'] == d[j];
      RemovedDistinct(d, i);
      GetAt(d, j);
      GetAt(r, j');
    }
  }

  lemma RemovedDistinct<K, V>(d: Dict<K, V>, i: nat)
    requires i < |d| && DistinctKeys(d)
    ensures DistinctKeys(d[..i] + d[i + 1..])
  {
    var r := d[..i] + d[i + 1..];
    forall a, b | 0 <= a < b < |r| ensures r[a].0 != r[b].0 {
      var a' := if a < i then a else a + 1;
      var b' := if b < i then b else b + 1;
      assert r[a] == d[a'] && r[b] == d[b'];
    }
  }

  lemma RemovedKey<K, V>(d: Dict<K, V>, i: nat, m: K)
    requires i < |d| && DistinctKeys(d)
    ensures m in Keys(d[..i] + d[i + 1..]) <==> m in Keys(d) && m != d[i].0
  {
    var r := d[..i] + d[i + 1..];
    if m in Keys(r) {
      var j :| 0 <= j < |r| && Keys(r)[j] == m;
      var j' := if j < i then j else j + 1;
      assert r[j] == d[j'];
      assert Keys(d)[j'] == m;
    }
    if m in Keys(d) && m != d[i].0 {
      var j :| 0 <= j < |d| && Keys(d)[j] == m;
      var j' := if j < i then j else j - 1;
      assert r[j'] == d[j];
      assert Keys(r)[j'] == m;
    }
  }

  /** In a dict, the value at position `i` is what a lookup of its key finds. */
  lemma GetAt<K, V>(d: Dict<K, V>, i: nat)
    requires DistinctKeys(d) && i < |d|
    ensures Get(d, d[i].0) == Some(d[i].1)
  {
    match IndexOf(d, d[i].0)
    case Some(j) =>
      assert !(j < i) && !(i < j);
    case None =>
  }

  /** Overwriting the entry at `i` leaves every other key's lookup alone. */
  lemma GetUnderUpdate<K, V>(d: Dict<K, V>, i: nat, v: V, m: K)
    requires i < |d| && m != d[i].0
    ensures Get(d[i := (d[i].0, v)], m) == Get(d, m)
  {
    var r := d[i := (d[i].0, v)];
    assert Keys(r) == Keys(d);
    match IndexOf(d, m)
    case None =>
    case Some(j) =>
      assert r[j] == d[j];
      match IndexOf(r, m)
      case Some(j') =>
        assert !(j' < j) && !(j < j');
      case None =>
  }

  /** Appending a new key leaves every earlier key's lookup alone. */
  lemma GetUnderAppend<K, V>(d: Dict<K, V>, k: K, v: V, m: K)
    requires k !in Keys(d)
    ensures Get(d + [(k, v)], m) == if m == k then Some(v) else Get(d, m)
  {
    var r := d + [(k, v)];
    match IndexOf(r, m)
    case None =>
      assert Keys(r) == Keys(d) + [k];
    case Some(j) =>
      if j < |d| {
        assert Keys(d)[j] == m;
        var j' := IndexOf(d, m).value;
        assert r[j'] == d[j'];
        assert !(j' < j) && !(j < j');
      } else {
        assert m == k;
      }
  }

  /** Dropping the last entry of a dict drops exactly the lookup of its key. */
  lemma DropLast<K, V>(d: Dict<K, V>, k: K)
    requires DistinctKeys(d) && d != []
    ensures DistinctKeys(d[..|d| - 1])
    ensures Get(d, d[|d| - 1].0) == Some(d[|d| - 1].1)
    ensures Get(d[..|d| - 1], k) == if k == d[|d| - 1].0 then None else Get(d, k)
  {
    var init := d[..|d| - 1];
    var last := d[|d| - 1];
    assert d == init + [last];
    forall j | 0 <= j < |init| ensures Keys(init)[j] != last.0 {
      assert d[j] == init[j];
    }
    AppendLookups(init, last.0, last.1);
  }

  /** The keys of a dict are the keys of all but its last entry, then the last key. */
  lemma KeysOfInit<K, V>(d: Dict<K, V>)
    requires d != []
    ensures Keys(d) == Keys(d[..|d| - 1]) + [d[|d| - 1].0]
    ensures forall k :: k in Keys(d) <==> k in Keys(d[..|d| - 1]) || k == d[|d| - 1].0
  {
    assert Keys(d) == Keys(d[..|d| - 1]) + [d[|d| - 1].0];
  }
}

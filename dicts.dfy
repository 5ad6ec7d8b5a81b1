/** Python's insertion-ordered `dict`, modelled as a sequence of (key, value)
    pairs. Assigning to a present key keeps its position; a new key is
    appended; `update` assigns the entries of another dict in its order. */
module Dicts {

  datatype Option<+T> = None | Some(value: T)

  type Dict<K, V> = seq<(K, V)>

  function Keys<K, V>(d: Dict<K, V>): (ks: seq<K>)
    ensures |ks| == |d|
    ensures forall i :: 0 <= i < |d| ==> ks[i] == d[i].0
  {
    if d == [] then [] else [d[0].0] + Keys(d[1..])
  }

  predicate HasKey<K(==,!new), V>(d: Dict<K, V>, k: K) {
    exists i :: 0 <= i < |d| && d[i].0 == k
  }

  /** Python dicts never hold a key twice. */
  predicate DistinctKeys<K(==,!new), V>(d: Dict<K, V>) {
    forall i, j :: 0 <= i < j < |d| ==> d[i].0 != d[j].0
  }

  /** Position of the first entry with key `k`. */
  function Find<K(==,!new), V>(d: Dict<K, V>, k: K): (r: Option<nat>)
    ensures r.Some? ==> r.value < |d| && d[r.value].0 == k
    ensures r.Some? ==> forall j :: 0 <= j < r.value ==> d[j].0 != k
    ensures r.None? <==> !HasKey(d, k)
  {
    if d == [] then None
    else if d[0].0 == k then Some(0)
    else match Find(d[1..], k)
      case None => None
      case Some(i) => Some(i + 1)
  }

  function Get<K(==,!new), V>(d: Dict<K, V>, k: K): (r: Option<V>)
    ensures r.None? <==> !HasKey(d, k)
  {
    match Find(d, k)
    case None => None
    case Some(i) => Some(d[i].1)
  }

  /** `d[k] = v` */
  function Put<K(==,!new), V>(d: Dict<K, V>, k: K, v: V): (r: Dict<K, V>)
    ensures Get(r, k) == Some(v)
    ensures forall k' :: k' != k ==> Get(r, k') == Get(d, k')
    ensures HasKey(d, k) ==> |r| == |d| && Keys(r) == Keys(d)
    ensures !HasKey(d, k) ==> r == d + [(k, v)]
    ensures DistinctKeys(d) ==> DistinctKeys(r)
  {
    match Find(d, k)
    case Some(i) =>
      ReplaceFacts(d, i, k, v);
      d[i := (k, v)]
    case None =>
      AppendFacts(d, k, v);
      d + [(k, v)]
  }

  lemma ReplaceFacts<K(!new), V>(d: Dict<K, V>, i: nat, k: K, v: V)
    requires Find(d, k) == Some(i)
    ensures Get(d[i := (k, v)], k) == Some(v)
    ensures forall k' :: k' != k ==> Get(d[i := (k, v)], k') == Get(d, k')
    ensures Keys(d[i := (k, v)]) == Keys(d)
    ensures DistinctKeys(d) ==> DistinctKeys(d[i := (k, v)])
  {
    var r := d[i := (k, v)];
    FindFirst(r, k, i);
    assert forall j :: 0 <= j < |r| ==> r[j].0 == d[j].0;
    assert Keys(r) == Keys(d);
    forall k' | k' != k ensures Get(r, k') == Get(d, k') {
      FindUnderReplace(d, i, k, v, k');
    }
  }

  lemma AppendFacts<K(!new), V>(d: Dict<K, V>, k: K, v: V)
    requires !HasKey(d, k)
    ensures Get(d + [(k, v)], k) == Some(v)
    ensures forall k' :: k' != k ==> Get(d + [(k, v)], k') == Get(d, k')
    ensures DistinctKeys(d) ==> DistinctKeys(d + [(k, v)])
  {
    var r := d + [(k, v)];
    FindFirst(r, k, |d|);
    forall k' | k' != k ensures Get(r, k') == Get(d, k') {
      FindUnderAppend(d, k, v, k');
    }
  }

  lemma {:induction false} FindFirst<K(!new), V>(d: Dict<K, V>, k: K, i: nat)
    requires i < |d| && d[i].0 == k
    requires forall j :: 0 <= j < i ==> d[j].0 != k
    ensures Find(d, k) == Some(i)
  {
    if i > 0 {
      FindFirst(d[1..], k, i - 1);
    }
  }

  lemma FindUnderReplace<K(!new), V>(d: Dict<K, V>, i: nat, k: K, v: V, k': K)
    requires i < |d| && d[i].0 == k && k' != k
    ensures Find(d[i := (k, v)], k') == Find(d, k')
  {
    if i > 0 {
      assert d[i := (k, v)][1..] == d[1..][i - 1 := (k, v)];
      FindUnderReplace(d[1..], i - 1, k, v, k');
    }
  }

  lemma FindUnderAppend<K(!new), V>(d: Dict<K, V>, k: K, v: V, k': K)
    requires k' != k
    ensures Find(d + [(k, v)], k') == Find(d, k')
  {
    if d != [] {
      assert (d + [(k, v)])[1..] == d[1..] + [(k, v)];
      FindUnderAppend(d[1..], k, v, k');
    }
  }

  /** Every entry of `d[k] = v` is the new pair or the entry of `d` at the
      same position. */
  lemma PutEntries<K(!new), V>(d: Dict<K, V>, k: K, v: V)
    ensures forall i :: 0 <= i < |Put(d, k, v)| ==>
      Put(d, k, v)[i] == (k, v) || (i < |d| && Put(d, k, v)[i] == d[i])
  {
  }

  /** `d.update(e)`: the entries of `e` assigned one after the other. */
  function Update<K(==,!new), V>(d: Dict<K, V>, e: Dict<K, V>): (r: Dict<K, V>)
    ensures DistinctKeys(d) ==> DistinctKeys(r)
    decreases |e|
  {
    if e == [] then d else Update(Put(d, e[0].0, e[0].1), e[1..])
  }

  /** `d.update(e)` keeps every key of `d` and adds every key of `e`. */
  lemma {:induction false} UpdateKeeps<K(!new), V>(d: Dict<K, V>, e: Dict<K, V>, k: K)
    requires HasKey(d, k) || HasKey(e, k)
    ensures HasKey(Update(d, e), k)
    decreases |e|
  {
    if e != [] {
      var d' := Put(d, e[0].0, e[0].1);
      if k == e[0].0 {
        assert Get(d', k).Some?;
        UpdateKeeps(d', e[1..], k);
      } else if HasKey(d, k) {
        assert Get(d', k) == Get(d, k);
        UpdateKeeps(d', e[1..], k);
      } else {
        var i :| 0 <= i < |e| && e[i].0 == k;
        assert e[1..][i - 1].0 == k;
        UpdateKeeps(d', e[1..], k);
      }
    }
  }

  /** Every entry of `d[k] = v` is the new pair or an entry of `d`. */
  lemma PutMembers<K(!new), V>(d: Dict<K, V>, k: K, v: V)
    ensures forall p :: p in Put(d, k, v) ==> p == (k, v) || p in d
  {
    PutEntries(d, k, v);
    forall p | p in Put(d, k, v) ensures p == (k, v) || p in d {
      var i :| 0 <= i < |Put(d, k, v)| && Put(d, k, v)[i] == p;
    }
  }

  /** Every entry of `d.update(e)` is an entry of `d` or of `e`. */
  lemma {:induction false} UpdateWithinUnion<K(!new), V>(d: Dict<K, V>, e: Dict<K, V>)
    ensures forall p :: p in Update(d, e) ==> p in d || p in e
    decreases |e|
  {
    if e != [] {
      PutMembers(d, e[0].0, e[0].1);
      UpdateWithinUnion(Put(d, e[0].0, e[0].1), e[1..]);
      assert forall p :: p in e[1..] ==> p in e;
    }
  }

  /** `d.update(e)` leaves the keys that `e` lacks as they were. */
  lemma {:induction false} UpdateOther<K(!new), V>(d: Dict<K, V>, e: Dict<K, V>, k: K)
    requires !HasKey(e, k)
    ensures Get(Update(d, e), k) == Get(d, k)
    decreases |e|
  {
    if e != [] {
      assert e[0].0 != k;
      assert !HasKey(e[1..], k) by {
        forall i | 0 <= i < |e[1..]| ensures e[1..][i].0 != k { assert e[1..][i] == e[i + 1]; }
      }
      UpdateOther(Put(d, e[0].0, e[0].1), e[1..], k);
    }
  }

  /** With distinct keys, `dict(pairs)` maps each key to its own value. */
  lemma FromPairsLookup<K(!new), V>(pairs: seq<(K, V)>, i: nat)
    requires DistinctKeys(pairs) && i < |pairs|
    ensures Get(FromPairs(pairs), pairs[i].0) == Some(pairs[i].1)
  {
    FromPairsGet(pairs, [], i);
  }

  lemma {:induction false} FromPairsGet<K(!new), V>(pairs: seq<(K, V)>, d: Dict<K, V>, i: nat)
    requires DistinctKeys(pairs) && i < |pairs|
    ensures Get(Update(d, pairs), pairs[i].0) == Some(pairs[i].1)
    decreases |pairs|
  {
    var d' := Put(d, pairs[0].0, pairs[0].1);
    assert Update(d, pairs) == Update(d', pairs[1..]);
    DistinctKeysTail(pairs);
    if i == 0 {
      UpdateOther(d', pairs[1..], pairs[0].0);
    } else {
      assert pairs[1..][i - 1] == pairs[i];
      FromPairsGet(pairs[1..], d', i - 1);
    }
  }

  /** The pairs after the first still have distinct keys, none of them the
      first key. */
  lemma DistinctKeysTail<K(!new), V>(pairs: seq<(K, V)>)
    requires DistinctKeys(pairs) && pairs != []
    ensures DistinctKeys(pairs[1..]) && !HasKey(pairs[1..], pairs[0].0)
  {
    var t := pairs[1..];
    forall a, b | 0 <= a < b < |t| ensures t[a].0 != t[b].0 {
      assert t[a] == pairs[a + 1] && t[b] == pairs[b + 1];
    }
    forall j | 0 <= j < |t| ensures t[j].0 != pairs[0].0 {
      assert t[j] == pairs[j + 1];
    }
  }

  /** Every key of `a` is a key of `b`. */
  ghost predicate KeysWithin<K(!new), V>(a: Dict<K, V>, b: Dict<K, V>) {
    forall k :: HasKey(a, k) ==> HasKey(b, k)
  }

  lemma PutWithin<K(!new), V>(d: Dict<K, V>, k: K, v: V)
    ensures KeysWithin(d, Put(d, k, v)) && HasKey(Put(d, k, v), k)
  {
  }

  lemma UpdateWithin<K(!new), V>(d: Dict<K, V>, e: Dict<K, V>)
    ensures KeysWithin(d, Update(d, e)) && KeysWithin(e, Update(d, e))
  {
    forall k | HasKey(d, k) || HasKey(e, k) ensures HasKey(Update(d, e), k) {
      UpdateKeeps(d, e, k);
    }
  }

  /** `dict(pairs)`: later pairs with an earlier key overwrite it in place. */
  function FromPairs<K(==,!new), V>(pairs: seq<(K, V)>): (r: Dict<K, V>)
    ensures DistinctKeys(r)
  {
    Update([], pairs)
  }

  function Zip<A, B>(xs: seq<A>, ys: seq<B>): (r: seq<(A, B)>)
    ensures |r| == if |xs| < |ys| then |xs| else |ys|
    ensures forall i :: 0 <= i < |r| ==> r[i] == (xs[i], ys[i])
  {
    if xs == [] || ys == [] then [] else [(xs[0], ys[0])] + Zip(xs[1..], ys[1..])
  }

  /** `d.pop(k)`: the value and the dict without that entry. */
  function Pop<K(==,!new), V>(d: Dict<K, V>, k: K): (r: Option<(V, Dict<K, V>)>)
    ensures r.None? <==> !HasKey(d, k)
    ensures r.Some? ==> Get(d, k) == Some(r.value.0) && |r.value.1| == |d| - 1
  {
    match Find(d, k)
    case None => None
    case Some(i) => Some((d[i].1, d[..i] + d[i + 1..]))
  }

  lemma PutTwice<K(!new), V>(d: Dict<K, V>, k: K, v1: V, v2: V)
    ensures Put(Put(d, k, v1), k, v2) == Put(d, k, v2)
  {
    match Find(d, k)
    case Some(i) => PutTwicePresent(d, i, k, v1, v2);
    case None => PutTwiceAbsent(d, k, v1, v2);
  }

  lemma PutTwicePresent<K(!new), V>(d: Dict<K, V>, i: nat, k: K, v1: V, v2: V)
    requires Find(d, k) == Some(i)
    ensures Put(Put(d, k, v1), k, v2) == Put(d, k, v2)
  {
    var d1 := d[i := (k, v1)];
    PutPresent(d, i, k, v1);
    FindReplaced(d, i, k, v1);
    PutPresent(d1, i, k, v2);
    PutPresent(d, i, k, v2);
    UpdateTwice(d, i, (k, v1), (k, v2));
    assert Put(Put(d, k, v1), k, v2) == Put(d1, k, v2);
  }

  lemma UpdateTwice<T>(s: seq<T>, i: nat, a: T, b: T)
    requires i < |s|
    ensures s[i := a][i := b] == s[i := b]
  {
  }

  lemma PutPresent<K(!new), V>(d: Dict<K, V>, i: nat, k: K, v: V)
    requires Find(d, k) == Some(i)
    ensures Put(d, k, v) == d[i := (k, v)]
  {
  }

  lemma FindReplaced<K(!new), V>(d: Dict<K, V>, i: nat, k: K, v: V)
    requires Find(d, k) == Some(i)
    ensures Find(d[i := (k, v)], k) == Some(i)
  {
    var d1 := d[i := (k, v)];
    forall j | 0 <= j < i ensures d1[j].0 != k {
      assert d1[j] == d[j];
    }
    FindFirst(d1, k, i);
  }

  lemma PutTwiceAbsent<K(!new), V>(d: Dict<K, V>, k: K, v1: V, v2: V)
    requires Find(d, k) == None
    ensures Put(Put(d, k, v1), k, v2) == Put(d, k, v2)
  {
    var d1 := d + [(k, v1)];
    assert Put(d, k, v1) == d1;
    FindFirst(d1, k, |d|);
    assert Put(d1, k, v2) == d1[|d| := (k, v2)];
    assert d1[|d| := (k, v2)] == d + [(k, v2)];
  }
}

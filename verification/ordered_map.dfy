/** A Python dict seen as the list of its entries in insertion order: lookup
    finds a key's entry, assignment to a present key keeps its position and
    assignment to an absent key appends. */
module OrderedMap {
  import opened Wrappers

  type Entries<K, V> = seq<(K, V)>

  /** The keys, in insertion order (`d.keys()`). */
  function Keys<K, V>(e: Entries<K, V>): (ks: seq<K>)
    ensures |ks| == |e|
  {
    if e == [] then [] else [e[0].0] + Keys(e[1..])
  }

  /** The key at position `i` of the key list is the key of entry `i`. */
  lemma {:induction false} KeyAt<K, V>(e: Entries<K, V>, i: nat)
    requires i < |e|
    ensures Keys(e)[i] == e[i].0
  {
    if i > 0 {
      KeyAt(e[1..], i - 1);
    }
  }

  /** A dict never holds one key twice. */
  predicate DistinctKeys<K(==), V>(e: Entries<K, V>) {
    forall i, j :: 0 <= i < j < |e| ==> e[i].0 != e[j].0
  }

  /** `d.get(k)`: the value stored under `k`, if any. */
  function Get<K(==), V>(e: Entries<K, V>, k: K): (r: Option<V>)
    ensures r.None? <==> k !in Keys(e)
    ensures r.Some? ==> (k, r.value) in e
  {
    if e == [] then None
    else if e[0].0 == k then Some(e[0].1)
    else Get(e[1..], k)
  }

  /** `d[k] = v`. */
  function Put<K(==, !new), V>(e: Entries<K, V>, k: K, v: V): (r: Entries<K, V>)
    ensures k in Keys(e) ==> Keys(r) == Keys(e)
    ensures k !in Keys(e) ==> Keys(r) == Keys(e) + [k]
    ensures Get(r, k) == Some(v)
    ensures forall k' :: k' != k ==> Get(r, k') == Get(e, k')
  {
    if e == [] then [(k, v)]
    else if e[0].0 == k then
      PutAtHead(e, k, v);
      [(k, v)] + e[1..]
    else
      var rest := Put(e[1..], k, v);
      PutBehindHead(e, k, v, rest);
      [e[0]] + rest
  }

  /** How keys and lookup see one entry put in front of others. */
  lemma ConsEntry<K, V>(x: (K, V), e: Entries<K, V>)
    ensures Keys([x] + e) == [x.0] + Keys(e)
    ensures forall k :: Get([x] + e, k) == if x.0 == k then Some(x.1) else Get(e, k)
  {
    assert ([x] + e)[1..] == e;
  }

  lemma PutAtHead<K(!new), V>(e: Entries<K, V>, k: K, v: V)
    requires e != [] && e[0].0 == k
    ensures k in Keys(e) && Keys([(k, v)] + e[1..]) == Keys(e)
    ensures Get([(k, v)] + e[1..], k) == Some(v)
    ensures forall k' :: k' != k ==> Get([(k, v)] + e[1..], k') == Get(e, k')
  {
    assert e == [e[0]] + e[1..];
    ConsEntry(e[0], e[1..]);
    ConsEntry((k, v), e[1..]);
  }

  lemma PutBehindHead<K(!new), V>(e: Entries<K, V>, k: K, v: V, rest: Entries<K, V>)
    requires e != [] && e[0].0 != k
    requires k in Keys(e[1..]) ==> Keys(rest) == Keys(e[1..])
    requires k !in Keys(e[1..]) ==> Keys(rest) == Keys(e[1..]) + [k]
    requires Get(rest, k) == Some(v)
    requires forall k' :: k' != k ==> Get(rest, k') == Get(e[1..], k')
    ensures k in Keys(e) ==> Keys([e[0]] + rest) == Keys(e)
    ensures k !in Keys(e) ==> Keys([e[0]] + rest) == Keys(e) + [k]
    ensures Get([e[0]] + rest, k) == Some(v)
    ensures forall k' :: k' != k ==> Get([e[0]] + rest, k') == Get(e, k')
  {
    assert e == [e[0]] + e[1..];
    ConsEntry(e[0], e[1..]);
    ConsEntry(e[0], rest);
    assert k in Keys(e) <==> k in Keys(e[1..]);
    if k !in Keys(e[1..]) {
      assert [e[0].0] + (Keys(e[1..]) + [k]) == ([e[0].0] + Keys(e[1..])) + [k];
    }
  }

  /** Position of the first entry whose value is `v`. */
  function FirstIndexOfValue<K, V(==)>(e: Entries<K, V>, v: V): (r: Option<nat>)
    ensures r.None? <==> forall i :: 0 <= i < |e| ==> e[i].1 != v
    ensures r.Some? ==> r.value < |e| && e[r.value].1 == v
    ensures r.Some? ==> forall j :: 0 <= j < r.value ==> e[j].1 != v
  {
    if e == [] then None
    else if e[0].1 == v then Some(0)
    else match FirstIndexOfValue(e[1..], v)
      case None => None
      case Some(i) => Some(i + 1)
  }

  /** The key of the first entry, in insertion order, whose value is `v`. */
  function FindKey<K, V(==)>(e: Entries<K, V>, v: V): (r: Option<K>)
    ensures r.None? <==> forall i :: 0 <= i < |e| ==> e[i].1 != v
    ensures r.Some? ==> exists i :: 0 <= i < |e| && e[i] == (r.value, v) && forall j :: 0 <= j < i ==> e[j].1 != v
  {
    match FirstIndexOfValue(e, v)
    case None => None
    case Some(i) => Some(e[i].0)
  }

  /** The elements of `s` other than `x`, in order. */
  function Without<T(==, !new)>(s: seq<T>, x: T): (r: seq<T>)
    ensures forall y :: y in r <==> y in s && y != x
    ensures |r| <= |s|
  {
    if s == [] then [] else (if s[0] == x then [] else [s[0]]) + Without(s[1..], x)
  }

  /** Removing an element that does not occur changes nothing. */
  lemma {:induction false} WithoutAbsent<T(!new)>(s: seq<T>, x: T)
    requires x !in s
    ensures Without(s, x) == s
  {
    if s != [] {
      WithoutAbsent(s[1..], x);
      assert [s[0]] + s[1..] == s;
    }
  }

  /** Removing an element that occurs once cuts out exactly its position. */
  lemma {:induction false} WithoutUnique<T(!new)>(s: seq<T>, i: nat)
    requires i < |s|
    requires forall a, b :: 0 <= a < b < |s| ==> s[a] != s[b]
    ensures Without(s, s[i]) == s[..i] + s[i + 1..]
  {
    var t := s[1..];
    if i == 0 {
      assert forall b :: 0 <= b < |t| ==> t[b] == s[b + 1];
      WithoutAbsent(t, s[0]);
    } else {
      assert t[i - 1] == s[i];
      assert s[0] != s[i];
      assert Without(s, s[i]) == [s[0]] + Without(t, s[i]);
      WithoutUnique(t, i - 1);
      assert t[..i - 1] == s[1..i];
      assert t[i..] == s[i + 1..];
      assert [s[0]] + (s[1..i] + s[i + 1..]) == s[..i] + s[i + 1..];
    }
  }

  /** Assigning to a key the dict does not hold appends one entry. */
  lemma {:induction false} PutAbsent<K(!new), V>(e: Entries<K, V>, k: K, v: V)
    requires k !in Keys(e)
    ensures Put(e, k, v) == e + [(k, v)]
  {
    if e != [] {
      ConsEntry(e[0], e[1..]);
      assert e == [e[0]] + e[1..];
      PutAbsent(e[1..], k, v);
    }
  }

  /** With unique keys, lookup finds the one entry holding the key. */
  lemma {:induction false} GetDistinct<K, V>(e: Entries<K, V>, i: nat)
    requires DistinctKeys(e)
    requires i < |e|
    ensures Get(e, e[i].0) == Some(e[i].1)
  {
    if i > 0 {
      GetDistinct(e[1..], i - 1);
    }
  }

  /** With unique keys, the key list has no repeats. */
  lemma DistinctKeyList<K, V>(e: Entries<K, V>)
    requires DistinctKeys(e)
    ensures forall a, b :: 0 <= a < b < |Keys(e)| ==> Keys(e)[a] != Keys(e)[b]
  {
    forall a, b | 0 <= a < b < |Keys(e)|
      ensures Keys(e)[a] != Keys(e)[b]
    {
      KeyAt(e, a);
      KeyAt(e, b);
    }
  }
}

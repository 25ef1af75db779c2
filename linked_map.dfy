/**
 * java.util.LinkedHashMap as the runtime uses it: a sequence of entries in
 * insertion order whose keys are pairwise distinct. Putting a key that is
 * already present replaces its value and keeps its position; putting a new
 * key appends it; putAll puts the entries of the argument one by one, in
 * the argument's order.
 */
module LinkedMap {
  import opened Results

  type Entries<K, V> = seq<(K, V)>

  function Keys<K, V>(e: Entries<K, V>): (ks: seq<K>)
    ensures |ks| == |e|
    ensures forall i :: 0 <= i < |e| ==> ks[i] == e[i].0
  {
    seq(|e|, i requires 0 <= i < |e| => e[i].0)
  }

  function KeySet<K(==), V>(e: Entries<K, V>): set<K>
  {
    set k | k in Keys(e)
  }

  /** The invariant of every map: no key occurs twice. */
  predicate UniqueKeys<K(==), V>(e: Entries<K, V>)
  {
    forall i, j :: 0 <= i < j < |e| ==> e[i].0 != e[j].0
  }

  /** Position of the first entry under k, or -1 when the map does not hold k. */
  function Find<K(==), V>(e: Entries<K, V>, k: K): (r: int)
    ensures -1 <= r < |e|
    ensures r >= 0 ==> e[r].0 == k
    ensures forall j :: 0 <= j < |e| && (r < 0 || j < r) ==> e[j].0 != k
    ensures r >= 0 <==> k in Keys(e)
  {
    if |e| == 0 then -1
    else if e[0].0 == k then 0
    else
      var r := Find(e[1..], k);
      assert forall j :: 0 < j < |e| ==> e[j] == e[1..][j - 1];
      assert Keys(e) == [e[0].0] + Keys(e[1..]);
      if r < 0 then -1 else r + 1
  }

  /** map.get(k): the value under k, absent when k is not a key. */
  function Get<K(==), V>(e: Entries<K, V>, k: K): (r: Option<V>)
    ensures r.Some? <==> k in Keys(e)
  {
    var i := Find(e, k);
    if i < 0 then None else Some(e[i].1)
  }

  function ValueOr<V>(o: Option<V>, default: V): V
  {
    match o
    case Some(v) => v
    case None => default
  }

  /** map.put(k, v). */
  function Put<K(==), V>(e: Entries<K, V>, k: K, v: V): Entries<K, V>
  {
    var i := Find(e, k);
    if i < 0 then e + [(k, v)] else e[i := (k, v)]
  }

  /** map.remove(k). */
  function Remove<K(==), V>(e: Entries<K, V>, k: K): Entries<K, V>
  {
    var i := Find(e, k);
    if i < 0 then e else e[..i] + e[i + 1..]
  }

  /** map.putAll(f): every entry of f put in f's order. */
  function PutAll<K(==), V>(e: Entries<K, V>, f: Entries<K, V>): Entries<K, V>
    decreases |f|
  {
    if |f| == 0 then e else PutAll(Put(e, f[0].0, f[0].1), f[1..])
  }

  /** The entries whose key is not in ks, in their order. */
  function Without<K(==), V>(e: Entries<K, V>, ks: set<K>): Entries<K, V>
  {
    if |e| == 0 then []
    else (if e[0].0 in ks then [] else [e[0]]) + Without(e[1..], ks)
  }

  /** The entries of a, each value replaced by b's value when b holds its key. */
  function Overlay<K(==), V>(a: Entries<K, V>, b: Entries<K, V>): (r: Entries<K, V>)
    ensures |r| == |a|
  {
    seq(|a|, i requires 0 <= i < |a| => (a[i].0, ValueOr(Get(b, a[i].0), a[i].1)))
  }

  /** Collections.reverse: the elements in the opposite order. */
  function Reverse<T>(s: seq<T>): (r: seq<T>)
    ensures |r| == |s|
    ensures forall i :: 0 <= i < |s| ==> r[i] == s[|s| - 1 - i]
  {
    if |s| == 0 then [] else Reverse(s[1..]) + [s[0]]
  }

  lemma ReverseTwice<T>(s: seq<T>)
    ensures Reverse(Reverse(s)) == s
  {
  }

  // ---------------------------------------------------------------- lemmas

  lemma KeysAppend<K, V>(a: Entries<K, V>, b: Entries<K, V>)
    ensures Keys(a + b) == Keys(a) + Keys(b)
  {
  }

  /** With unique keys, the entry at position i is the one found under its key. */
  lemma FindAt<K, V>(e: Entries<K, V>, i: int)
    requires UniqueKeys(e) && 0 <= i < |e|
    ensures Find(e, e[i].0) == i
    ensures Get(e, e[i].0) == Some(e[i].1)
  {
  }

  /** Find yields the first position holding the key, whatever follows it. */
  lemma FindFirst<K, V>(e: Entries<K, V>, k: K, i: int)
    requires 0 <= i < |e| && e[i].0 == k
    requires forall j :: 0 <= j < i ==> e[j].0 != k
    ensures Find(e, k) == i
  {
  }

  lemma FindSameKeys<K, V>(x: Entries<K, V>, y: Entries<K, V>, k: K)
    requires Keys(x) == Keys(y)
    ensures Find(x, k) == Find(y, k)
  {
    var r := Find(x, k);
    if r >= 0 {
      assert Keys(y)[r] == k;
      FindFirst(y, k, r);
    }
  }

  /** In a map, the key at position i does not occur before it. */
  lemma FreshInPrefix<K, V>(e: Entries<K, V>, i: int)
    requires UniqueKeys(e) && 0 <= i < |e|
    ensures e[i].0 !in Keys(e[..i])
    ensures e[..i + 1] == e[..i] + [e[i]]
  {
    forall j | 0 <= j < i ensures Keys(e[..i])[j] != e[i].0 {
      assert e[..i][j] == e[j];
    }
  }

  /** Extending a prefix of a map by its next entry. */
  lemma GetPrefixStep<K, V>(e: Entries<K, V>, i: int)
    requires UniqueKeys(e) && 0 <= i < |e|
    ensures Keys(e[..i + 1]) == Keys(e[..i]) + [e[i].0]
    ensures forall x :: Get(e[..i + 1], x) == if x == e[i].0 then Some(e[i].1) else Get(e[..i], x)
  {
    FreshInPrefix(e, i);
    KeysAppend(e[..i], [e[i]]);
    forall x ensures Get(e[..i + 1], x) == if x == e[i].0 then Some(e[i].1) else Get(e[..i], x) {
      GetAppend(e[..i], [e[i]], x);
    }
  }

  /** Putting entries that are already there with the same values changes nothing. */
  lemma {:induction false} PutAllPresent<K, V>(e: Entries<K, V>, f: Entries<K, V>)
    requires forall i :: 0 <= i < |f| ==> Get(e, f[i].0) == Some(f[i].1)
    ensures PutAll(e, f) == e
    decreases |f|
  {
    if |f| > 0 {
      var i := Find(e, f[0].0);
      assert e[i := f[0]] == e;
      assert forall j :: 0 <= j < |f[1..]| ==> f[1..][j] == f[j + 1];
      PutAllPresent(e, f[1..]);
    }
  }

  /** putAll into an empty map copies a map. */
  lemma PutAllIntoEmpty<K, V>(e: Entries<K, V>)
    requires UniqueKeys(e)
    ensures PutAll([], e) == e
  {
    PutAllClosedForm([], e);
    assert KeySet<K, V>([]) == {};
    WithoutNothing(e, {});
  }

  /** putAll of a longer argument is one more put after the shorter one. */
  lemma {:induction false} PutAllSnoc<K, V>(e: Entries<K, V>, f: Entries<K, V>, p: (K, V))
    ensures PutAll(e, f + [p]) == Put(PutAll(e, f), p.0, p.1)
    decreases |f|
  {
    if |f| == 0 {
      assert f + [p] == [p];
    } else {
      assert (f + [p])[1..] == f[1..] + [p];
      PutAllSnoc(Put(e, f[0].0, f[0].1), f[1..], p);
    }
  }

  /** putAll onto a map gives a map whose keys are those of both arguments. */
  lemma {:induction false} PutAllKeys<K, V>(e: Entries<K, V>, f: Entries<K, V>)
    requires UniqueKeys(e)
    ensures UniqueKeys(PutAll(e, f))
    ensures forall k :: k in Keys(PutAll(e, f)) <==> k in Keys(e) || k in Keys(f)
    decreases |f|
  {
    if |f| > 0 {
      PutShape(e, f[0].0, f[0].1);
      PutAllKeys(Put(e, f[0].0, f[0].1), f[1..]);
      assert Keys(f) == [f[0].0] + Keys(f[1..]);
    }
  }

  /** A key not yet in the map is appended; one already there keeps its place. */
  lemma PutShape<K, V>(e: Entries<K, V>, k: K, v: V)
    requires UniqueKeys(e)
    ensures UniqueKeys(Put(e, k, v))
    ensures Keys(Put(e, k, v)) == if k in Keys(e) then Keys(e) else Keys(e) + [k]
    ensures k !in Keys(e) ==> Put(e, k, v) == e + [(k, v)]
    ensures Get(Put(e, k, v), k) == Some(v)
    ensures forall k' :: k' != k ==> Get(Put(e, k, v), k') == Get(e, k')
  {
    var p := Put(e, k, v);
    var i := Find(e, k);
    if i >= 0 {
      assert Keys(p) == Keys(e);
      FindAt(p, i);
    } else {
      KeysAppend(e, [(k, v)]);
      FindAt(p, |e|);
    }
    forall k' | k' != k ensures Get(p, k') == Get(e, k') {
      var fe := Find(e, k');
      if fe >= 0 {
        assert p[fe] == e[fe];
        FindAt(p, fe);
      }
    }
  }

  /** Looking up a map made of two parts finds the first part first. */
  lemma GetAppend<K, V>(a: Entries<K, V>, b: Entries<K, V>, k: K)
    ensures Get(a + b, k) == if k in Keys(a) then Get(a, k) else Get(b, k)
  {
    KeysAppend(a, b);
    if k in Keys(a) {
      var i := Find(a, k);
      FindFirst(a + b, k, i);
    } else if k in Keys(b) {
      var i := Find(b, k);
      FindFirst(a + b, k, |a| + i);
    }
  }

  lemma {:induction false} KeysWithout<K, V>(e: Entries<K, V>, ks: set<K>)
    ensures forall k :: k in Keys(Without(e, ks)) <==> k in Keys(e) && k !in ks
  {
    if |e| > 0 {
      KeysWithout(e[1..], ks);
      var head := if e[0].0 in ks then [] else [e[0]];
      var rest := Without(e[1..], ks);
      assert Without(e, ks) == head + rest;
      KeysAppend(head, rest);
      assert Keys(head) == if e[0].0 in ks then [] else [e[0].0];
      assert Keys(e) == [e[0].0] + Keys(e[1..]);
    }
  }

  /** Keys outside the removed set are looked up as before. */
  lemma {:induction false} GetWithout<K, V>(e: Entries<K, V>, ks: set<K>, k: K)
    requires k !in ks
    ensures Get(Without(e, ks), k) == Get(e, k)
  {
    if |e| > 0 {
      GetWithout(e[1..], ks, k);
      assert e == [e[0]] + e[1..];
      GetAppend([e[0]], e[1..], k);
      var head := if e[0].0 in ks then [] else [e[0]];
      GetAppend(head, Without(e[1..], ks), k);
    }
  }

  lemma {:induction false} WithoutUnique<K, V>(e: Entries<K, V>, ks: set<K>)
    requires UniqueKeys(e)
    ensures UniqueKeys(Without(e, ks))
  {
    if |e| > 0 {
      WithoutUnique(e[1..], ks);
      KeysWithout(e[1..], ks);
      assert Keys(e) == [e[0].0] + Keys(e[1..]);
      assert e[0].0 !in Keys(e[1..]);
      var head := if e[0].0 in ks then [] else [e[0]];
      UniqueAppend(head, Without(e[1..], ks));
    }
  }

  /** Two maps with no key in common put end to end form a map. */
  lemma UniqueAppend<K, V>(a: Entries<K, V>, b: Entries<K, V>)
    requires UniqueKeys(a) && UniqueKeys(b)
    requires forall k :: k in Keys(b) ==> k !in Keys(a)
    ensures UniqueKeys(a + b)
  {
    var c := a + b;
    forall i, j | 0 <= i < j < |c| ensures c[i].0 != c[j].0 {
      if j < |a| {
        assert c[i] == a[i] && c[j] == a[j];
      } else if i < |a| {
        var kb, ka := Keys(b)[j - |a|], Keys(a)[i];
        assert kb == c[j].0 && kb in Keys(b);
        assert ka == c[i].0 && ka in Keys(a);
      } else {
        assert c[i] == b[i - |a|] && c[j] == b[j - |a|];
      }
    }
  }

  /** Removing keys that the map does not hold changes nothing. */
  lemma {:induction false} WithoutNothing<K, V>(e: Entries<K, V>, ks: set<K>)
    requires forall k :: k in Keys(e) ==> k !in ks
    ensures Without(e, ks) == e
  {
    if |e| > 0 {
      assert Keys(e)[0] == e[0].0;
      forall k | k in Keys(e[1..]) ensures k !in ks {
        var i :| 0 <= i < |e[1..]| && Keys(e[1..])[i] == k;
        assert Keys(e)[i + 1] == k;
      }
      WithoutNothing(e[1..], ks);
      assert e == [e[0]] + e[1..];
    }
  }

  lemma {:induction false} WithoutSplit<K, V>(a: Entries<K, V>, b: Entries<K, V>, ks: set<K>)
    ensures Without(a + b, ks) == Without(a, ks) + Without(b, ks)
  {
    if |a| == 0 {
      assert a + b == b;
    } else {
      assert (a + b)[1..] == a[1..] + b;
      WithoutSplit(a[1..], b, ks);
    }
  }

  lemma {:induction false} WithoutTwice<K, V>(e: Entries<K, V>, ks: set<K>, more: set<K>)
    ensures Without(Without(e, ks), more) == Without(e, ks + more)
  {
    if |e| > 0 {
      WithoutTwice(e[1..], ks, more);
      var head := if e[0].0 in ks then [] else [e[0]];
      WithoutSplit(head, Without(e[1..], ks), more);
      if e[0].0 !in ks {
        assert head[1..] == [];
      }
    }
  }

  lemma OverlayPutPresent<K, V>(a: Entries<K, V>, p: (K, V), b: Entries<K, V>)
    requires UniqueKeys(a) && p.0 in Keys(a) && p.0 !in Keys(b)
    ensures Overlay(Put(a, p.0, p.1), b) == Overlay(a, [p] + b)
  {
    var a' := Put(a, p.0, p.1);
    var i := Find(a, p.0);
    forall j | 0 <= j < |a| ensures Overlay(a', b)[j] == Overlay(a, [p] + b)[j] {
      GetAppend([p], b, a[j].0);
      if j != i {
        assert a'[j] == a[j];
      }
    }
  }

  lemma OverlayPutAbsent<K, V>(a: Entries<K, V>, p: (K, V), b: Entries<K, V>)
    requires p.0 !in Keys(a) && p.0 !in Keys(b)
    ensures Overlay(a + [p], b) == Overlay(a, [p] + b) + [p]
  {
    forall j | 0 <= j < |a| ensures Overlay(a + [p], b)[j] == Overlay(a, [p] + b)[j] {
      GetAppend([p], b, a[j].0);
      assert Keys(a)[j] == a[j].0;
    }
  }

  /** Without of a map that starts with p. */
  lemma WithoutCons<K, V>(p: (K, V), b: Entries<K, V>, ks: set<K>)
    ensures Without([p] + b, ks) == (if p.0 in ks then [] else [p]) + Without(b, ks)
  {
    assert ([p] + b)[0] == p;
    assert ([p] + b)[1..] == b;
  }

  /** The tail of a map with unique keys has unique keys and lacks the head's key. */
  lemma UniqueTail<K, V>(b: Entries<K, V>)
    requires UniqueKeys(b) && |b| > 0
    ensures UniqueKeys(b[1..]) && b[0].0 !in Keys(b[1..])
  {
    forall j | 0 <= j < |b[1..]| ensures Keys(b[1..])[j] != b[0].0 {
      assert b[1..][j] == b[j + 1];
    }
  }

  /** Appending an entry adds its key to the key set. */
  lemma KeySetSnoc<K, V>(a: Entries<K, V>, p: (K, V))
    ensures KeySet(a + [p]) == KeySet(a) + {p.0}
  {
    KeysAppend(a, [p]);
    forall k ensures k in KeySet(a + [p]) <==> k in KeySet(a) + {p.0} {
      assert Keys([p]) == [p.0];
      assert k in Keys(a + [p]) <==> k in Keys(a) || k == p.0;
    }
  }

  /** Putting a key the receiver holds keeps its key set. */
  lemma PutPresentKeySet<K, V>(a: Entries<K, V>, p: (K, V))
    requires p.0 in Keys(a)
    ensures KeySet(Put(a, p.0, p.1)) == KeySet(a)
  {
    var i := Find(a, p.0);
    var a' := a[i := p];
    assert Put(a, p.0, p.1) == a';
    assert Keys(a') == Keys(a) by {
      forall j | 0 <= j < |a| ensures Keys(a')[j] == Keys(a)[j] {
      }
    }
    SameKeysSameKeySet(a', a);
  }

  lemma SameKeysSameKeySet<K, V>(x: Entries<K, V>, y: Entries<K, V>)
    requires Keys(x) == Keys(y)
    ensures KeySet(x) == KeySet(y)
  {
  }

  /** One step of putAll, with a key the receiver already holds. */
  lemma ClosedFormStepPresent<K, V>(a: Entries<K, V>, p: (K, V), b: Entries<K, V>)
    requires UniqueKeys(a) && p.0 in Keys(a) && p.0 !in Keys(b)
    ensures Overlay(Put(a, p.0, p.1), b) == Overlay(a, [p] + b)
    ensures Without(b, KeySet(Put(a, p.0, p.1))) == Without([p] + b, KeySet(a))
  {
    OverlayPutPresent(a, p, b);
    PutPresentKeySet(a, p);
    WithoutCons(p, b, KeySet(a));
  }

  /** Adding a key the map does not hold to the removed set changes nothing. */
  lemma WithoutAbsentKey<K, V>(b: Entries<K, V>, ks: set<K>, k: K)
    requires k !in Keys(b)
    ensures Without(b, ks + {k}) == Without(b, ks)
  {
    WithoutTwice(b, ks, {k});
    KeysWithout(b, ks);
    WithoutNothing(Without(b, ks), {k});
  }

  /** One step of putAll, with a key new to the receiver. */
  lemma ClosedFormStepAbsent<K, V>(a: Entries<K, V>, p: (K, V), b: Entries<K, V>)
    requires p.0 !in Keys(a) && p.0 !in Keys(b)
    ensures Overlay(Put(a, p.0, p.1), b) == Overlay(a, [p] + b) + [p]
    ensures Without(b, KeySet(Put(a, p.0, p.1))) == Without(b, KeySet(a))
    ensures Without([p] + b, KeySet(a)) == [p] + Without(b, KeySet(a))
  {
    assert Put(a, p.0, p.1) == a + [p];
    OverlayPutAbsent(a, p, b);
    KeySetSnoc(a, p);
    WithoutAbsentKey(b, KeySet(a), p.0);
    WithoutCons(p, b, KeySet(a));
  }

  lemma Regroup<T>(o: seq<T>, p: T, w: seq<T>)
    ensures (o + [p]) + w == o + ([p] + w)
  {
  }

  /**
   * putAll in closed form: the receiver's entries in their places, each
   * shared key carrying the argument's value, followed by the argument's new
   * keys in the argument's order.
   */
  lemma {:induction false} PutAllClosedForm<K, V>(a: Entries<K, V>, b: Entries<K, V>)
    requires UniqueKeys(a) && UniqueKeys(b)
    ensures PutAll(a, b) == Overlay(a, b) + Without(b, KeySet(a))
    decreases |b|
  {
    if |b| == 0 {
      assert Overlay(a, b) == a;
    } else {
      var p, b' := b[0], b[1..];
      UniqueTail(b);
      PutShape(a, p.0, p.1);
      PutAllClosedForm(Put(a, p.0, p.1), b');
      if p.0 in Keys(a) {
        ClosedFormStepPresent(a, p, b');
      } else {
        ClosedFormStepAbsent(a, p, b');
        Regroup(Overlay(a, [p] + b'), p, Without(b', KeySet(a)));
      }
      assert [p] + b' == b;
    }
  }

  /**
   * What putAll promises a caller: the key set is the union; a key of the
   * argument is looked up with the argument's value, any other key with the
   * receiver's; the receiver's keys keep their positions.
   */
  lemma PutAllProperties<K, V>(a: Entries<K, V>, b: Entries<K, V>)
    requires UniqueKeys(a) && UniqueKeys(b)
    ensures |PutAll(a, b)| >= |a|
    ensures Keys(PutAll(a, b))[..|a|] == Keys(a)
    ensures UniqueKeys(PutAll(a, b))
    ensures forall k :: k in Keys(PutAll(a, b)) <==> k in Keys(a) || k in Keys(b)
    ensures forall k :: Get(PutAll(a, b), k) == if k in Keys(b) then Get(b, k) else Get(a, k)
  {
    PutAllClosedForm(a, b);
    var o := Overlay(a, b);
    var w := Without(b, KeySet(a));
    assert Keys(o) == Keys(a);
    KeysAppend(o, w);
    KeysWithout(b, KeySet(a));
    WithoutUnique(b, KeySet(a));
    UniqueAppend(o, w);
    forall k ensures Get(o + w, k) == if k in Keys(b) then Get(b, k) else Get(a, k) {
      GetAppend(o, w, k);
      if k in Keys(a) {
        FindSameKeys(o, a, k);
      } else {
        GetWithout(b, KeySet(a), k);
      }
    }
  }

  /** On a map, remove(k) drops exactly the entry under k and keeps the order. */
  lemma RemoveIsWithout<K, V>(e: Entries<K, V>, k: K)
    requires UniqueKeys(e)
    ensures Remove(e, k) == Without(e, {k})
  {
    var i := Find(e, k);
    if i < 0 {
      WithoutNothing(e, {k});
    } else {
      WithoutAt(e, i);
    }
  }

  lemma {:induction false} WithoutAt<K, V>(e: Entries<K, V>, i: int)
    requires UniqueKeys(e) && 0 <= i < |e|
    ensures Without(e, {e[i].0}) == e[..i] + e[i + 1..]
    decreases i
  {
    var k := e[i].0;
    var tail := e[1..];
    UniqueTail(e);
    if i == 0 {
      forall x | x in Keys(tail) ensures x !in {k} {
      }
      WithoutNothing(tail, {k});
      assert Without(e, {k}) == Without(tail, {k});
    } else {
      assert tail[i - 1] == e[i];
      assert e[0].0 != k;
      WithoutAt(tail, i - 1);
      assert Without(e, {k}) == [e[0]] + Without(tail, {k});
      assert e[..i] == [e[0]] + tail[..i - 1];
      assert e[i + 1..] == tail[i..];
    }
  }

  lemma ReverseUnique<K, V>(e: Entries<K, V>)
    requires UniqueKeys(e)
    ensures UniqueKeys(Reverse(e))
  {
    var r := Reverse(e);
    forall i, j | 0 <= i < j < |r| ensures r[i].0 != r[j].0 {
      assert r[i] == e[|e| - 1 - i] && r[j] == e[|e| - 1 - j];
    }
  }
}

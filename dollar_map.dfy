/**
 * dollar.api.types.DollarMap: an insertion-ordered map from value to value.
 * The receiver's map is never changed after construction; every operation
 * builds a fresh LinkedHashMap (a copy, then puts, removes or putAll) and
 * wraps it as a new map value.
 *
 * Values are the `Var` datatype below. Argument values are taken as
 * already forced (`$fixDeep`, `$fix(false)`); the forcing of a child at a
 * given depth, the human-readable rendering and the string form of a value
 * come from other classes and are passed in as functions.
 */
module DollarMap {
  import opened Results
  import LinkedMap
  import JavaStrings
  import DollarNumber

  /** The values of the language, as far as a map needs to tell them apart. */
  datatype Var =
    | Void
    | Bool(b: bool)
    | Int(n: int)
    | Str(s: string)
    | List(items: seq<Var>)
    | Map(entries: seq<(Var, Var)>)

  type Entries = seq<(Var, Var)>

  /** The cast targets a map distinguishes; every other type is Other. */
  datatype Type = MapType | ListType | BooleanType | StringType | VoidType | Other(name: string)

  /** The ErrorType a failing map operation throws. */
  datatype Failure = InvalidMapOperation | InvalidCast | IndexOutOfBounds

  /** A Java map holds every key at most once. */
  predicate Valid(m: Entries)
  {
    LinkedMap.UniqueKeys(m)
  }

  /** The key `"_" + n` under which `$plus` files a non-map, non-string value. */
  function PositionalKey(n: nat): Var
  {
    Str("_" + JavaStrings.NatToString(n))
  }

  /** A one-entry map, as `DollarStatic.$(key, value)` builds it. */
  function PairOf(e: (Var, Var)): (r: Var)
    ensures r.Map? && |r.entries| == 1 && r.entries[0] == e
  {
    Map([e])
  }

  // -------------------------------------------------------------- copies

  /** deepClone: a fresh map holding the same entries in the same order. */
  method DeepClone(m: Entries) returns (r: Entries)
    requires Valid(m)
    ensures r == m
  {
    r := [];
    var i := 0;
    while i < |m|
      invariant 0 <= i <= |m|
      invariant r == m[..i]
    {
      LinkedMap.FreshInPrefix(m, i);
      r := LinkedMap.Put(r, m[i].0, m[i].1);
      i := i + 1;
    }
  }

  // --------------------------------------------------------------- $plus

  /**
   * $plus: a map argument is merged in with putAll; a string argument gives
   * the concatenation of both human-readable forms; any other value is filed
   * under the key "_" + size.
   */
  method Plus(m: Entries, rhs: Var, human: Var -> string) returns (r: Var)
    requires Valid(m)
    requires rhs.Map? ==> Valid(rhs.entries)
    ensures rhs.Map? ==> r.Map? && Valid(r.entries)
    ensures rhs.Map? ==>
      r.entries == LinkedMap.Overlay(m, rhs.entries) + LinkedMap.Without(rhs.entries, LinkedMap.KeySet(m))
    ensures rhs.Map? ==>
      forall k :: k in LinkedMap.Keys(r.entries) <==> k in LinkedMap.Keys(m) || k in LinkedMap.Keys(rhs.entries)
    ensures rhs.Map? ==>
      forall k :: LinkedMap.Get(r.entries, k) ==
        if k in LinkedMap.Keys(rhs.entries) then LinkedMap.Get(rhs.entries, k) else LinkedMap.Get(m, k)
    ensures rhs.Str? ==> r == Str(human(Map(m)) + human(rhs))
    ensures !rhs.Map? && !rhs.Str? ==> r.Map? && Valid(r.entries)
    ensures !rhs.Map? && !rhs.Str? && PositionalKey(|m|) !in LinkedMap.Keys(m) ==>
      r.entries == m + [(PositionalKey(|m|), rhs)]
    ensures !rhs.Map? && !rhs.Str? && PositionalKey(|m|) in LinkedMap.Keys(m) ==>
      LinkedMap.Keys(r.entries) == LinkedMap.Keys(m) &&
      LinkedMap.Get(r.entries, PositionalKey(|m|)) == Some(rhs) &&
      forall k :: k != PositionalKey(|m|) ==> LinkedMap.Get(r.entries, k) == LinkedMap.Get(m, k)
  {
    if rhs.Map? {
      var copy := DeepClone(m);
      copy := LinkedMap.PutAll(copy, rhs.entries);
      LinkedMap.PutAllClosedForm(m, rhs.entries);
      LinkedMap.PutAllProperties(m, rhs.entries);
      r := Map(copy);
    } else if rhs.Str? {
      r := Str(human(Map(m)) + human(rhs));
    } else {
      var copy := DeepClone(m);
      var key := PositionalKey(|copy|);
      copy := LinkedMap.Put(copy, key, rhs);
      LinkedMap.PutShape(m, key, rhs);
      r := Map(copy);
    }
  }

  // -------------------------------------------------------------- $minus

  /** The keys `$minus` is meant to remove: a map's keys, or a scalar's string form. */
  function RemovedKeys(rhs: Var, str: Var -> string): set<Var>
  {
    if rhs.Map? then LinkedMap.KeySet(rhs.entries) else {Str(str(rhs))}
  }

  /**
   * $minus: a copy of the receiver without the right-hand map's keys, or
   * without the key equal to the right-hand scalar's string form. The
   * remaining entries keep their values and their order.
   */
  method Minus(m: Entries, rhs: Var, str: Var -> string) returns (r: Var)
    requires Valid(m)
    ensures r.Map? && Valid(r.entries)
    ensures r.entries == LinkedMap.Without(m, RemovedKeys(rhs, str))
    ensures forall k :: LinkedMap.Get(r.entries, k) ==
                        if k in RemovedKeys(rhs, str) then None else LinkedMap.Get(m, k)
  {
    var copy := DeepClone(m);
    if rhs.Map? {
      var ks := rhs.entries;
      LinkedMap.WithoutNothing(m, {});
      assert LinkedMap.KeySet(ks[..0]) == {};
      var i := 0;
      while i < |ks|
        invariant 0 <= i <= |ks|
        invariant copy == LinkedMap.Without(m, LinkedMap.KeySet(ks[..i]))
      {
        LinkedMap.WithoutUnique(m, LinkedMap.KeySet(ks[..i]));
        LinkedMap.RemoveIsWithout(copy, ks[i].0);
        LinkedMap.WithoutTwice(m, LinkedMap.KeySet(ks[..i]), {ks[i].0});
        LinkedMap.KeysAppend(ks[..i], [ks[i]]);
        assert ks[..i + 1] == ks[..i] + [ks[i]];
        assert LinkedMap.KeySet(ks[..i + 1]) == LinkedMap.KeySet(ks[..i]) + {ks[i].0};
        copy := LinkedMap.Remove(copy, ks[i].0);
        i := i + 1;
      }
      assert ks[..i] == ks;
    } else {
      LinkedMap.RemoveIsWithout(copy, Str(str(rhs)));
      copy := LinkedMap.Remove(copy, Str(str(rhs)));
    }
    r := Map(copy);
    WithoutLookup(m, RemovedKeys(rhs, str));
  }

  lemma WithoutLookup(m: Entries, ks: set<Var>)
    requires Valid(m)
    ensures Valid(LinkedMap.Without(m, ks))
    ensures forall k :: LinkedMap.Get(LinkedMap.Without(m, ks), k) ==
                        if k in ks then None else LinkedMap.Get(m, k)
  {
    LinkedMap.WithoutUnique(m, ks);
    LinkedMap.KeysWithout(m, ks);
    forall k | k !in ks
      ensures LinkedMap.Get(LinkedMap.Without(m, ks), k) == LinkedMap.Get(m, k)
    {
      LinkedMap.GetWithout(m, ks, k);
    }
  }

  /**
   * `LinkedHashMap<var, var>.remove(String)`: a java.lang.String is never
   * equal to a `var` key, so nothing is removed.
   */
  function RemoveStringKey(m: Entries, key: string): (r: Entries)
    ensures r == m
  {
    m
  }

  /** $minus exactly as the class writes it: a scalar's string form is removed as a String. */
  function MinusAsWritten(m: Entries, rhs: Var, str: Var -> string): (r: Var)
    ensures !rhs.Map? ==> r == Map(m)
  {
    if rhs.Map? then Map(LinkedMap.Without(m, LinkedMap.KeySet(rhs.entries)))
    else Map(RemoveStringKey(m, str(rhs)))
  }

  /** Subtracting the string "a" from {"a": 1} leaves the key "a" in place as written. */
  lemma MinusScalarKeepsKey()
    ensures var m := [(Str("a"), Int(1))];
            var str := (v: Var) => if v.Str? then v.s else "";
            Str("a") in LinkedMap.Keys(MinusAsWritten(m, Str("a"), str).entries) &&
            LinkedMap.Without(m, RemovedKeys(Str("a"), str)) == []
  {
    var m := [(Str("a"), Int(1))];
    assert LinkedMap.Keys(m)[0] == Str("a");
    assert m[1..] == [];
  }

  // ------------------------------------------------------------- $negate

  /** $negate: the same entries put into a fresh map in reverse order. */
  method Negate(m: Entries) returns (r: Var)
    requires Valid(m)
    ensures r.Map? && Valid(r.entries)
    ensures |r.entries| == |m|
    ensures forall i :: 0 <= i < |m| ==> r.entries[i] == m[|m| - 1 - i]
    ensures LinkedMap.Reverse(r.entries) == m
  {
    var entries := LinkedMap.Reverse(m);
    LinkedMap.ReverseUnique(m);
    var result: Entries := [];
    var i := 0;
    while i < |entries|
      invariant 0 <= i <= |entries|
      invariant result == entries[..i]
    {
      LinkedMap.FreshInPrefix(entries, i);
      result := LinkedMap.Put(result, entries[i].0, entries[i].1);
      i := i + 1;
    }
    assert result == entries;
    r := Map(result);
  }

  // ---------------------------------------------------------------- $fix

  /**
   * $fix(depth, false): at depth 1 or less the map itself; deeper, a fresh
   * map with the same keys in the same order, each value forced at depth-1.
   */
  method Fix(m: Entries, depth: int, force: (Var, int) -> Var) returns (r: Var)
    requires Valid(m)
    ensures depth <= 1 ==> r == Map(m)
    ensures depth > 1 ==> r.Map? && Valid(r.entries) && LinkedMap.Keys(r.entries) == LinkedMap.Keys(m)
    ensures depth > 1 ==> forall i :: 0 <= i < |m| ==> r.entries[i].1 == force(m[i].1, depth - 1)
  {
    if depth <= 1 {
      return Map(m);
    }
    var result: Entries := [];
    var i := 0;
    while i < |m|
      invariant 0 <= i <= |m|
      invariant |result| == i
      invariant LinkedMap.Keys(result) == LinkedMap.Keys(m[..i])
      invariant forall j :: 0 <= j < i ==> result[j].1 == force(m[j].1, depth - 1)
    {
      LinkedMap.FreshInPrefix(m, i);
      LinkedMap.GetPrefixStep(m, i);
      var before := result;
      result := LinkedMap.Put(result, m[i].0, force(m[i].1, depth - 1));
      assert result == before + [(m[i].0, force(m[i].1, depth - 1))];
      LinkedMap.KeysAppend(before, [(m[i].0, force(m[i].1, depth - 1))]);
      i := i + 1;
    }
    assert m[..i] == m;
    assert LinkedMap.UniqueKeys(result) by {
      forall a, b | 0 <= a < b < |result| ensures result[a].0 != result[b].0 {
        assert LinkedMap.Keys(result)[a] == m[a].0 && LinkedMap.Keys(result)[b] == m[b].0;
      }
    }
    r := Map(result);
  }

  // ------------------------------------------------- $prepend, $append, $set

  /**
   * $prepend: the pair is put first and the receiver is putAll'd after it,
   * so the pair's key comes first; when the receiver already holds that key
   * its own value wins.
   */
  method Prepend(m: Entries, pair: (Var, Var)) returns (r: Var)
    requires Valid(m)
    ensures r.Map? && Valid(r.entries) && |r.entries| > 0
    ensures r.entries[0] == (pair.0, LinkedMap.ValueOr(LinkedMap.Get(m, pair.0), pair.1))
    ensures r.entries[1..] == LinkedMap.Without(m, {pair.0})
  {
    var newMap: Entries := LinkedMap.Put([], pair.0, pair.1);
    assert newMap == [pair];
    newMap := LinkedMap.PutAll(newMap, m);
    PutAllAfterPair(pair, m);
    r := Map(newMap);
  }

  lemma PutAllAfterPair(pair: (Var, Var), m: Entries)
    requires Valid(m)
    ensures Valid(LinkedMap.PutAll([pair], m))
    ensures LinkedMap.PutAll([pair], m) ==
      [(pair.0, LinkedMap.ValueOr(LinkedMap.Get(m, pair.0), pair.1))] + LinkedMap.Without(m, {pair.0})
  {
    LinkedMap.PutAllClosedForm([pair], m);
    LinkedMap.PutAllProperties([pair], m);
    assert LinkedMap.KeySet([pair]) == {pair.0};
    assert LinkedMap.Overlay([pair], m) == [(pair.0, LinkedMap.ValueOr(LinkedMap.Get(m, pair.0), pair.1))];
  }

  /** $append: a copy with the pair put, so an existing key keeps its position. */
  function Append(m: Entries, pair: (Var, Var)): (r: Var)
    requires Valid(m)
    ensures r.Map? && Valid(r.entries)
    ensures LinkedMap.Get(r.entries, pair.0) == Some(pair.1)
    ensures forall k :: k != pair.0 ==> LinkedMap.Get(r.entries, k) == LinkedMap.Get(m, k)
    ensures pair.0 in LinkedMap.Keys(m) ==> LinkedMap.Keys(r.entries) == LinkedMap.Keys(m)
    ensures pair.0 !in LinkedMap.Keys(m) ==> r.entries == m + [pair]
  {
    LinkedMap.PutShape(m, pair.0, pair.1);
    Map(LinkedMap.Put(m, pair.0, pair.1))
  }

  /** $set: a copy with the value put under the key. */
  method Set(m: Entries, key: Var, value: Var) returns (r: Var)
    requires Valid(m)
    ensures r.Map? && Valid(r.entries)
    ensures LinkedMap.Get(r.entries, key) == Some(value)
    ensures forall k :: k != key ==> LinkedMap.Get(r.entries, k) == LinkedMap.Get(m, k)
    ensures key in LinkedMap.Keys(m) ==> LinkedMap.Keys(r.entries) == LinkedMap.Keys(m)
    ensures key !in LinkedMap.Keys(m) ==> r.entries == m + [(key, value)]
  {
    var copy := DeepClone(m);
    copy := LinkedMap.Put(copy, key, value);
    LinkedMap.PutShape(m, key, value);
    r := Map(copy);
  }

  // ------------------------------------------------ $remove, $removeByKey

  /** $remove: a copy without the key; every other entry keeps its value and order. */
  function Remove(m: Entries, key: Var): (r: Var)
    requires Valid(m)
    ensures r.Map? && Valid(r.entries)
    ensures r.entries == LinkedMap.Without(m, {key})
    ensures LinkedMap.Get(r.entries, key) == None
    ensures forall k :: k != key ==> LinkedMap.Get(r.entries, k) == LinkedMap.Get(m, k)
  {
    LinkedMap.RemoveIsWithout(m, key);
    WithoutLookup(m, {key});
    Map(LinkedMap.Remove(m, key))
  }

  /** $removeByKey exactly as written: the key is removed as a String, which matches nothing. */
  function RemoveByKeyAsWritten(m: Entries, key: string): (r: Var)
    ensures r == Map(m)
  {
    Map(RemoveStringKey(m, key))
  }

  /** $removeByKey as intended: a copy without the entry whose key is that string. */
  function RemoveByKey(m: Entries, key: string): (r: Var)
    requires Valid(m)
    ensures r.Map? && Valid(r.entries)
    ensures r.entries == LinkedMap.Without(m, {Str(key)})
    ensures LinkedMap.Get(r.entries, Str(key)) == None
    ensures forall k :: k != Str(key) ==> LinkedMap.Get(r.entries, k) == LinkedMap.Get(m, k)
  {
    Remove(m, Str(key))
  }

  /** On {"a": 1}, removing the key "a" as written keeps the entry. */
  lemma RemoveByKeyKeepsEntry()
    ensures var m := [(Str("a"), Int(1))];
            RemoveByKeyAsWritten(m, "a").entries == m &&
            RemoveByKey(m, "a").entries == []
  {
    var m := [(Str("a"), Int(1))];
    assert LinkedMap.Keys(m)[0] == Str("a");
    WithoutLookup(m, {Str("a")});
    assert LinkedMap.Without(m, {Str("a")}) == [] by {
      assert m[1..] == [];
    }
  }

  // ------------------------------------------------------------- $insert

  /**
   * $insert exactly as written: the loop walks the fresh, empty map, so
   * nothing is ever inserted, and the final putAll makes a plain copy.
   */
  method InsertAsWritten(m: Entries, pair: (Var, Var), position: int) returns (r: Var)
    requires Valid(m)
    ensures r == Map(m)
  {
    var newMap: Entries := [];
    // The loop that would place the pair walks newMap itself, which is
    // empty at that point, so its body never runs.
    var copy := DeepClone(m);
    LinkedMap.PutAllClosedForm(newMap, copy);
    assert LinkedMap.KeySet(newMap) == {};
    LinkedMap.WithoutNothing(copy, {});
    newMap := LinkedMap.PutAll(newMap, copy);
    r := Map(newMap);
  }

  /**
   * $insert as intended: walking the receiver's entries and counting them,
   * the pair is put just before the entry at `position`; the final putAll
   * then gives every key of the receiver its own value back. A new key thus
   * lands at `position`; a key the receiver already holds keeps the
   * receiver's value.
   */
  method Insert(m: Entries, pair: (Var, Var), position: int) returns (r: Var)
    requires Valid(m)
    ensures r.Map? && Valid(r.entries)
    ensures pair.0 !in LinkedMap.Keys(m) && 0 <= position < |m| ==>
      r.entries == m[..position] + [pair] + m[position..]
    ensures pair.0 !in LinkedMap.Keys(m) && !(0 <= position < |m|) ==> r.entries == m
    ensures pair.0 in LinkedMap.Keys(m) ==>
      forall x :: LinkedMap.Get(r.entries, x) == LinkedMap.Get(m, x)
  {
    var newMap: Entries := [];
    var count := 0;
    while count < |m|
      invariant 0 <= count <= |m|
      invariant newMap == LinkedMap.PutAll([], InsertOrder(m, pair, position, count))
    {
      InsertWalkStep(m, pair, position, count);
      if count == position {
        newMap := LinkedMap.Put(newMap, pair.0, pair.1);
      }
      newMap := LinkedMap.Put(newMap, m[count].0, m[count].1);
      count := count + 1;
    }
    var built := newMap;
    newMap := LinkedMap.PutAll(built, m);
    InsertFinish(m, pair, position, built);
    r := Map(newMap);
  }

  /** The entries the intended $insert puts, in order, after walking count entries. */
  function InsertOrder(m: Entries, pair: (Var, Var), position: int, count: int): Entries
    requires 0 <= count <= |m|
  {
    if 0 <= position < count then m[..position] + [pair] + m[position..count] else m[..count]
  }

  lemma InsertOrderStep(m: Entries, pair: (Var, Var), position: int, count: int)
    requires 0 <= count < |m|
    ensures InsertOrder(m, pair, position, count + 1) ==
      InsertOrder(m, pair, position, count) + (if count == position then [pair] else []) + [m[count]]
  {
    assert m[..count + 1] == m[..count] + [m[count]];
    if 0 <= position < count {
      assert m[position..count + 1] == m[position..count] + [m[count]];
    } else if position == count {
      assert m[position..count + 1] == [m[count]];
    }
  }

  /** One step of the walk: the pair when the count reaches the position, then the entry counted. */
  lemma InsertWalkStep(m: Entries, pair: (Var, Var), position: int, count: int)
    requires 0 <= count < |m|
    ensures var before := LinkedMap.PutAll([], InsertOrder(m, pair, position, count));
            var withPair := if count == position then LinkedMap.Put(before, pair.0, pair.1) else before;
            LinkedMap.Put(withPair, m[count].0, m[count].1) == LinkedMap.PutAll([], InsertOrder(m, pair, position, count + 1))
  {
    InsertOrderStep(m, pair, position, count);
    var walked := InsertOrder(m, pair, position, count);
    if count == position {
      LinkedMap.PutAllSnoc([], walked, pair);
      walked := walked + [pair];
    } else {
      assert walked + [] == walked;
    }
    LinkedMap.PutAllSnoc([], walked, m[count]);
  }

  lemma InsertFinish(m: Entries, pair: (Var, Var), position: int, built: Entries)
    requires Valid(m)
    requires built == LinkedMap.PutAll([], InsertOrder(m, pair, position, |m|))
    ensures Valid(LinkedMap.PutAll(built, m))
    ensures pair.0 !in LinkedMap.Keys(m) && 0 <= position < |m| ==>
      LinkedMap.PutAll(built, m) == m[..position] + [pair] + m[position..]
    ensures pair.0 !in LinkedMap.Keys(m) && !(0 <= position < |m|) ==> LinkedMap.PutAll(built, m) == m
    ensures pair.0 in LinkedMap.Keys(m) ==>
      forall x :: LinkedMap.Get(LinkedMap.PutAll(built, m), x) == LinkedMap.Get(m, x)
  {
    var w := InsertOrder(m, pair, position, |m|);
    assert m[..|m|] == m;
    LinkedMap.PutAllKeys([], w);
    LinkedMap.PutAllProperties(built, m);
    if pair.0 !in LinkedMap.Keys(m) {
      InsertFinishNew(m, pair, position, built);
    } else {
      InsertOrderKeys(m, pair, position);
    }
  }

  lemma InsertFinishNew(m: Entries, pair: (Var, Var), position: int, built: Entries)
    requires Valid(m) && pair.0 !in LinkedMap.Keys(m)
    requires built == LinkedMap.PutAll([], InsertOrder(m, pair, position, |m|))
    ensures LinkedMap.PutAll(built, m) == InsertOrder(m, pair, position, |m|)
  {
    var w := InsertOrder(m, pair, position, |m|);
    InsertOrderUnique(m, pair, position);
    LinkedMap.PutAllIntoEmpty(w);
    InsertOrderHolds(m, pair, position);
    LinkedMap.PutAllPresent(w, m);
  }

  lemma InsertOrderHolds(m: Entries, pair: (Var, Var), position: int)
    requires Valid(m) && pair.0 !in LinkedMap.Keys(m)
    ensures forall i :: 0 <= i < |m| ==>
              LinkedMap.Get(InsertOrder(m, pair, position, |m|), m[i].0) == Some(m[i].1)
  {
    var w := InsertOrder(m, pair, position, |m|);
    InsertOrderUnique(m, pair, position);
    assert m[..|m|] == m;
    forall i | 0 <= i < |m| ensures LinkedMap.Get(w, m[i].0) == Some(m[i].1) {
      var j := if 0 <= position <= i then i + 1 else i;
      assert w[j] == m[i];
      LinkedMap.FindAt(w, j);
    }
  }

  lemma InsertOrderKeys(m: Entries, pair: (Var, Var), position: int)
    requires pair.0 in LinkedMap.Keys(m)
    ensures forall x :: x in LinkedMap.Keys(InsertOrder(m, pair, position, |m|)) ==> x in LinkedMap.Keys(m)
  {
    var w := InsertOrder(m, pair, position, |m|);
    assert m[..|m|] == m;
    forall x | x in LinkedMap.Keys(w) ensures x in LinkedMap.Keys(m) {
      var j :| 0 <= j < |w| && LinkedMap.Keys(w)[j] == x;
      if 0 <= position < |m| && j == position {
        assert w[j] == pair;
      } else {
        var i := if 0 <= position < j then j - 1 else j;
        assert w[j] == m[i];
        assert LinkedMap.Keys(m)[i] == x;
      }
    }
  }

  lemma InsertOrderUnique(m: Entries, pair: (Var, Var), position: int)
    requires Valid(m) && pair.0 !in LinkedMap.Keys(m)
    ensures Valid(InsertOrder(m, pair, position, |m|))
  {
    assert m[..|m|] == m;
    if 0 <= position < |m| {
      var w := InsertOrder(m, pair, position, |m|);
      forall a, b | 0 <= a < b < |w| ensures w[a].0 != w[b].0 {
        var ia := if a < position then a else a - 1;
        var ib := if b <= position then b else b - 1;
        if a == position {
          assert w[b] == m[ib] && LinkedMap.Keys(m)[ib] == m[ib].0;
        } else if b == position {
          assert w[a] == m[ia] && LinkedMap.Keys(m)[ia] == m[ia].0;
        } else {
          assert w[a] == m[ia] && w[b] == m[ib];
        }
      }
    }
  }

  /** On {"b": 2}, inserting ("a", 1) at position 0 should give a new map, not the copy written. */
  lemma InsertNeverInserts()
    ensures var m := [(Str("b"), Int(2))];
            var p := (Str("a"), Int(1));
            p.0 !in LinkedMap.Keys(m) && 0 < |m| && m[..0] + [p] + m[0..] != m
  {
    var m := [(Str("b"), Int(2))];
    assert LinkedMap.Keys(m) == [Str("b")];
  }

  // -------------------------------------------------------------- queries

  /**
   * $get: an integer key selects the entry at a position as a one-entry
   * map (out of range fails); the position is `toInteger()`, the low 32
   * bits of the key read as a signed int. Any other key is looked up, void
   * when absent.
   */
  function Get(m: Entries, key: Var): (r: Result<Var, Failure>)
    ensures key.Int? ==> (r.Ok? <==> 0 <= DollarNumber.IntValue(key.n) < |m|)
    ensures key.Int? && r.Ok? ==> r.value == PairOf(m[DollarNumber.IntValue(key.n)])
    ensures !key.Int? ==> r.Ok?
    ensures !key.Int? && key !in LinkedMap.Keys(m) ==> r == Ok(Void)
  {
    if key.Int? then
      var position := DollarNumber.IntValue(key.n);
      if 0 <= position < |m| then Ok(PairOf(m[position])) else Err(IndexOutOfBounds)
    else
      Ok(LinkedMap.ValueOr(LinkedMap.Get(m, key), Void))
  }

  /** The position wraps at 2^32: key 2^32 + i selects the same entry as key i. */
  lemma GetPositionWraps(m: Entries, i: int)
    requires 0 <= i < |m|
    requires i < 0x8000_0000
    ensures Get(m, Int(DollarNumber.TWO_32 + i)) == Get(m, Int(i)) == Ok(PairOf(m[i]))
  {
    DollarNumber.IntValueOfInt(i);
    DollarNumber.IntValuePeriodic(i);
  }

  /**
   * The positional and the keyed lookup agree: the pair at position i holds
   * the key found there and the value a lookup of that key returns.
   */
  lemma GetByPositionAndKey(m: Entries, i: int)
    requires Valid(m) && 0 <= i < |m| && i < 0x8000_0000 && !m[i].0.Int?
    ensures Get(m, Int(i)) == Ok(Map([m[i]]))
    ensures Get(m, m[i].0) == Ok(m[i].1)
  {
    DollarNumber.IntValueOfInt(i);
    LinkedMap.FindAt(m, i);
  }

  /** $has and $containsKey: whether the map holds the key. */
  predicate ContainsKey(m: Entries, key: Var)
  {
    key in LinkedMap.Keys(m)
  }

  /** A key is contained exactly when a lookup finds a value for it. */
  lemma ContainsKeyIffFound(m: Entries, key: Var)
    ensures ContainsKey(m, key) <==> LinkedMap.Get(m, key).Some?
    ensures !key.Int? && !ContainsKey(m, key) ==> Get(m, key) == Ok(Void)
  {
  }

  /** $containsValue: whether some entry holds the value. */
  predicate ContainsValue(m: Entries, value: Var)
  {
    exists i :: 0 <= i < |m| && m[i].1 == value
  }

  /** A value put under a key is then contained, under that key. */
  lemma ContainsAfterAppend(m: Entries, pair: (Var, Var))
    requires Valid(m)
    ensures ContainsKey(Append(m, pair).entries, pair.0)
    ensures ContainsValue(Append(m, pair).entries, pair.1)
  {
    var e := Append(m, pair).entries;
    var i := LinkedMap.Find(e, pair.0);
    assert e[i].1 == pair.1;
  }

  /** size and $size: the number of entries. */
  function Size(m: Entries): (n: nat)
    requires Valid(m)
    ensures n == |LinkedMap.KeySet(m)|
  {
    KeyCount(m);
    |m|
  }

  lemma {:induction false} KeyCount(m: Entries)
    requires Valid(m)
    ensures |LinkedMap.KeySet(m)| == |m|
  {
    if |m| > 0 {
      var init := m[..|m| - 1];
      assert LinkedMap.UniqueKeys(init);
      KeyCount(init);
      LinkedMap.FreshInPrefix(m, |m| - 1);
      LinkedMap.KeysAppend(init, [m[|m| - 1]]);
      assert LinkedMap.KeySet(m) == LinkedMap.KeySet(init) + {m[|m| - 1].0};
    }
  }

  /** toVarList: the entries in order, each as a one-entry map. */
  function ToVarList(m: Entries): (r: seq<Var>)
    ensures |r| == |m|
    ensures forall i :: 0 <= i < |m| ==> IsPair(r[i]) && r[i].entries[0] == m[i]
  {
    seq(|m|, i requires 0 <= i < |m| => PairOf(m[i]))
  }

  /** truthy: a map is truthy when it is not empty. */
  predicate Truthy(m: Entries)
  {
    |m| > 0
  }

  /** pair: a value is a pair when it is a map with exactly one entry. */
  predicate IsPair(v: Var)
  {
    v.Map? && |v.entries| == 1
  }

  /**
   * $as: a map casts to itself, to the list of its entries as pairs, to
   * "non-empty" as a boolean, to its human-readable string and to void;
   * any other target fails with INVALID_CAST.
   */
  function As(m: Entries, t: Type, human: Var -> string): (r: Result<Var, Failure>)
    ensures r.Err? <==> t.Other?
    ensures r.Err? ==> r.error == InvalidCast
    ensures t == MapType ==> r == Ok(Map(m))
    ensures t == BooleanType ==> r == Ok(Bool(Truthy(m)))
    ensures t == ListType ==> r.Ok? && r.value.List? && |r.value.items| == |m|
    ensures t == ListType ==> forall i :: 0 <= i < |m| ==>
                                IsPair(r.value.items[i]) && r.value.items[i].entries[0] == m[i]
    ensures t == StringType ==> r == Ok(Str(human(Map(m))))
    ensures t == VoidType ==> r == Ok(Void)
  {
    match t
    case MapType => Ok(Map(m))
    case ListType => Ok(List(ToVarList(m)))
    case BooleanType => Ok(Bool(|m| != 0))
    case StringType => Ok(Str(human(Map(m))))
    case VoidType => Ok(Void)
    case Other(_) => Err(InvalidCast)
  }

  /** is(types...): true when one of the types is MAP, found by a loop over them. */
  method Is(types: seq<Type>) returns (r: bool)
    ensures r <==> MapType in types
  {
    var i := 0;
    while i < |types|
      invariant 0 <= i <= |types|
      invariant MapType !in types[..i]
    {
      if types[i] == MapType {
        return true;
      }
      assert types[..i + 1] == types[..i] + [types[i]];
      i := i + 1;
    }
    assert types[..i] == types;
    return false;
  }

  /** The truth predicates of a map: never a boolean, never true, never false. */
  predicate IsBoolean(m: Entries) { false }
  predicate IsTrue(m: Entries) { false }
  predicate IsFalse(m: Entries) { false }
  predicate NeitherTrueNorFalse(m: Entries) { true }

  /**
   * A map's truth predicates: it is neither true nor false whatever it holds,
   * while its truthiness is its non-emptiness and agrees with the boolean cast.
   */
  lemma TruthOfMaps(m: Entries, human: Var -> string)
    ensures !IsBoolean(m) && !IsTrue(m) && !IsFalse(m) && NeitherTrueNorFalse(m)
    ensures Truthy(m) <==> As(m, BooleanType, human) == Ok(Bool(true))
  {
  }

  /** The arithmetic a map rejects. */
  datatype Arithmetic = Multiply | Divide | Modulus | ToInteger

  /** $multiply, $divide, $modulus and toInteger always fail with INVALID_MAP_OPERATION. */
  function ArithmeticOn(m: Entries, op: Arithmetic, rhs: Var): (r: Result<Var, Failure>)
    ensures r.Err? && r.error == InvalidMapOperation
  {
    Err(InvalidMapOperation)
  }
}

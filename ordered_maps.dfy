/**
 * Finite maps that remember the order in which their keys were first
 * inserted, as a JavaScript `Map` does: `set` on a present key overwrites the
 * value and keeps the key's place, `set` on a new key appends it, and
 * `delete` removes it. Iterating a `Map` visits `keys` in this order.
 */
module OrderedMaps {

  /** No element occurs twice in `s`. */
  ghost predicate Distinct<T>(s: seq<T>) {
    forall i, j | 0 <= i < j < |s| :: s[i] != s[j]
  }

  /** `s` with every occurrence of `x` taken out, the rest in order. */
  function Remove<T(==,!new)>(s: seq<T>, x: T): (r: seq<T>)
    ensures forall y :: y in r <==> y in s && y != x
  {
    if s == [] then [] else (if s[0] == x then [] else [s[0]]) + Remove(s[1..], x)
  }

  lemma {:induction false} RemoveAbsent<T(!new)>(s: seq<T>, x: T)
    requires x !in s
    ensures Remove(s, x) == s
  {
    if s != [] {
      RemoveAbsent(s[1..], x);
    }
  }

  lemma {:induction false} RemoveConcat<T(!new)>(a: seq<T>, b: seq<T>, x: T)
    ensures Remove(a + b, x) == Remove(a, x) + Remove(b, x)
  {
    if a != [] {
      assert (a + b)[1..] == a[1..] + b;
      RemoveConcat(a[1..], b, x);
    } else {
      assert a + b == b;
    }
  }

  /** A sequence cut around its element at `i`. */
  lemma SplitAt<T>(s: seq<T>, i: nat)
    requires i < |s|
    ensures s[..i + 1] == s[..i] + [s[i]] && s[..i + 1][..i] == s[..i]
    ensures s[i..] == [s[i]] + s[i + 1..]
    ensures s == s[..i] + ([s[i]] + s[i + 1..])
  {
    assert s == s[..i] + s[i..];
  }

  /** An element of a sequence without repetitions occurs neither before nor after its own place. */
  lemma DistinctSplit<T>(s: seq<T>, i: nat)
    requires Distinct(s) && i < |s|
    ensures s[i] !in s[..i] && s[i] !in s[i + 1..]
  {
  }

  /** Removing an element that occurs once, between `a` and `b`, closes the gap. */
  lemma {:induction false} RemoveBetween<T(!new)>(a: seq<T>, x: T, b: seq<T>)
    requires x !in a && x !in b
    ensures Remove(a + ([x] + b), x) == a + b
  {
    RemoveConcat([x], b, x);
    RemoveAbsent(b, x);
    assert Remove([x], x) == [];
    assert Remove([x] + b, x) == b;
    RemoveConcat(a, [x] + b, x);
    RemoveAbsent(a, x);
  }

  /** Removing an element that occurs once closes the gap at its place. */
  lemma RemoveAt<T(!new)>(s: seq<T>, x: T)
    requires Distinct(s) && x in s
    ensures exists i | 0 <= i < |s| :: s[i] == x && Remove(s, x) == s[..i] + s[i + 1..]
  {
    var i :| 0 <= i < |s| && s[i] == x;
    DistinctSplit(s, i);
    SplitAt(s, i);
    RemoveBetween(s[..i], x, s[i + 1..]);
  }

  lemma {:induction false} RemoveDistinct<T(!new)>(s: seq<T>, x: T)
    requires Distinct(s)
    ensures Distinct(Remove(s, x))
  {
    if s != [] {
      RemoveDistinct(s[1..], x);
      var r := Remove(s, x);
      var t := Remove(s[1..], x);
      if s[0] != x {
        assert s[0] !in s[1..];
        assert s[0] !in t;
        assert r == [s[0]] + t;
        forall i, j | 0 <= i < j < |r| ensures r[i] != r[j] {
          if i == 0 {
            assert r[j] == t[j - 1];
          } else {
            assert r[i] == t[i - 1] && r[j] == t[j - 1];
          }
        }
      } else {
        assert r == t;
      }
    }
  }

  /** A JavaScript `Map` from `K` to `V`. */
  datatype OrderedMap<K(==,!new), V> = OrderedMap(keys: seq<K>, vals: map<K, V>)
  {
    /** Every key is listed once, and the listed keys are exactly the keys of `vals`. */
    ghost predicate Valid() {
      && Distinct(keys)
      && forall k :: k in vals <==> k in keys
    }

    /** `Map.prototype.set`: only the entry of `k` changes. */
    function Set(k: K, v: V): (r: OrderedMap<K, V>)
      ensures Valid() ==> r.Valid()
      ensures k in r.vals && r.vals[k] == v
      ensures forall j | j != k :: (j in r.vals <==> j in vals) && (j in vals ==> r.vals[j] == vals[j])
      ensures k in vals ==> r.keys == keys
      ensures k !in vals ==> r.keys == keys + [k]
    {
      OrderedMap(if k in vals then keys else keys + [k], vals[k := v])
    }

    /** `Map.prototype.delete`: only the entry of `k` disappears. */
    function Delete(k: K): (r: OrderedMap<K, V>)
      ensures Valid() ==> r.Valid()
      ensures k !in r.vals
      ensures forall j | j != k :: (j in r.vals <==> j in vals) && (j in vals ==> r.vals[j] == vals[j])
      ensures Valid() && k in vals ==>
                exists i | 0 <= i < |keys| :: keys[i] == k && r.keys == keys[..i] + keys[i + 1..]
      ensures Valid() && k !in vals ==> r == this
    {
      assert Valid() ==> Distinct(Remove(keys, k)) by {
        if Valid() { RemoveDistinct(keys, k); }
      }
      assert Valid() && k in vals ==>
               exists i | 0 <= i < |keys| :: keys[i] == k && Remove(keys, k) == keys[..i] + keys[i + 1..] by {
        if Valid() && k in vals {
          RemoveAt(keys, k);
        }
      }
      assert Valid() && k !in vals ==> Remove(keys, k) == keys by {
        if Valid() && k !in vals { RemoveAbsent(keys, k); }
      }
      OrderedMap(Remove(keys, k), vals - {k})
    }
  }

  /** A map with no entries, as `new Map()` makes. */
  function Empty<K(==,!new), V>(): (r: OrderedMap<K, V>)
    ensures r.Valid() && r.vals == map[]
  {
    OrderedMap([], map[])
  }

  /** Setting a new key and then deleting it gives back the map, order included. */
  lemma SetThenDelete<K(!new), V>(m: OrderedMap<K, V>, k: K, v: V)
    requires m.Valid() && k !in m.vals
    ensures m.Set(k, v).Delete(k) == m
  {
    RemoveConcat(m.keys, [k], k);
    RemoveAbsent(m.keys, k);
    assert Remove([k], k) == [];
    assert m.vals[k := v] - {k} == m.vals;
  }
}

/**
 * java.util.LinkedHashMap as a value: the keys in insertion order beside the map from
 * keys to values. Maps that the manipulator copies and prunes in place never escape
 * the method that owns them, so a value with the same insertion order models them.
 */
module LinkedMaps {

  /** No element of `s` occurs twice. */
  ghost predicate Distinct<K>(s: seq<K>) {
    forall i, j :: 0 <= i < j < |s| ==> s[i] != s[j]
  }

  /** The elements of `s` that are not in `drop`, in their original order. */
  function Without<K>(s: seq<K>, drop: set<K>): (r: seq<K>)
    ensures forall x | x in r :: x in s && x !in drop
    ensures forall x | x in s && x !in drop :: x in r
    ensures |r| <= |s|
  {
    if s == [] then [] else (if s[0] in drop then [] else [s[0]]) + Without(s[1..], drop)
  }

  lemma {:induction false} WithoutDistinct<K>(s: seq<K>, drop: set<K>)
    ensures Distinct(s) ==> Distinct(Without(s, drop))
  {
    if s != [] {
      WithoutDistinct(s[1..], drop);
    }
  }

  /** Dropping in two rounds is dropping the union once. */
  lemma {:induction false} WithoutWithout<K>(s: seq<K>, a: set<K>, b: set<K>)
    ensures Without(Without(s, a), b) == Without(s, a + b)
  {
    if s != [] {
      WithoutWithout(s[1..], a, b);
      if s[0] in a {
        assert Without(s, a) == Without(s[1..], a);
      } else {
        assert Without(s, a) == [s[0]] + Without(s[1..], a);
        assert Without(s, a)[1..] == Without(s[1..], a);
      }
    }
  }

  /** Dropping elements that do not occur changes nothing. */
  lemma {:induction false} WithoutAbsent<K>(s: seq<K>, drop: set<K>)
    requires forall x | x in s :: x !in drop
    ensures Without(s, drop) == s
  {
    if s != [] {
      WithoutAbsent(s[1..], drop);
    }
  }

  lemma {:induction false} WithoutConcat<K>(s: seq<K>, t: seq<K>, drop: set<K>)
    ensures Without(s + t, drop) == Without(s, drop) + Without(t, drop)
  {
    if s != [] {
      assert (s + t)[1..] == s[1..] + t;
      WithoutConcat(s[1..], t, drop);
    } else {
      assert s + t == t;
    }
  }

  datatype LinkedMap<K, V> = LinkedMap(keys: seq<K>, entries: map<K, V>) {

    /** Keys in insertion order, each once, exactly the keys of the map. */
    ghost predicate Valid() {
      Distinct(keys) && entries.Keys == set k | k in keys
    }

    /** Map.put: a new key goes to the end, an existing key keeps its place. */
    function Put(k: K, v: V): (r: LinkedMap<K, V>)
      ensures r.entries == entries[k := v]
      ensures Valid() ==> r.Valid()
    {
      if k in entries then LinkedMap(keys, entries[k := v]) else LinkedMap(keys + [k], entries[k := v])
    }

    /** Removes every key in `drop`; the others keep their order and values. */
    function RemoveKeys(drop: set<K>): (r: LinkedMap<K, V>)
      ensures r.entries == entries - drop
      ensures Valid() ==> r.Valid()
    {
      WithoutDistinct(keys, drop);
      LinkedMap(Without(keys, drop), entries - drop)
    }

    /** Map.remove. */
    function Remove(k: K): LinkedMap<K, V> {
      RemoveKeys({k})
    }

    /** Puts the entries of `src` for the keys `ks`, in that order. */
    function PutKeys(ks: seq<K>, src: map<K, V>): (r: LinkedMap<K, V>)
      requires forall k :: k in ks ==> k in src
      ensures r.entries == entries + map k | k in ks :: src[k]
      ensures Valid() ==> r.Valid()
      decreases |ks|
    {
      if ks == [] then this
      else
        PutKeysStep(entries, ks, src);
        Put(ks[0], src[ks[0]]).PutKeys(ks[1..], src)
    }

    /** Map.putAll of a LinkedHashMap: its entries in its insertion order. */
    function PutAll(src: LinkedMap<K, V>): (r: LinkedMap<K, V>)
      requires src.Valid()
      ensures r.entries == entries + src.entries
      ensures Valid() ==> r.Valid()
    {
      assert (map k | k in src.keys :: src.entries[k]) == src.entries;
      PutKeys(src.keys, src.entries)
    }
  }

  lemma PutKeysStep<K, V>(entries: map<K, V>, ks: seq<K>, src: map<K, V>)
    requires ks != [] && forall k :: k in ks ==> k in src
    ensures entries[ks[0] := src[ks[0]]] + (map k | k in ks[1..] :: src[k]) == entries + map k | k in ks :: src[k]
  {
    var tail := map k | k in ks[1..] :: src[k];
    var all := map k | k in ks :: src[k];
    assert all == tail[ks[0] := src[ks[0]]];
  }

  /** A new, empty LinkedHashMap. */
  function Empty<K, V>(): (r: LinkedMap<K, V>)
    ensures r.Valid() && r.entries == map[]
  {
    LinkedMap([], map[])
  }
}

/**
 * The object helpers (src/utils/object.ts). A plain object is modelled by the finite map
 * from its own keys to their values.
 */
module Objects {

  /** `clone(object, props)`, i.e. `{ ...object, ...props }`: the overrides win. */
  function Clone<K, V>(o: map<K, V>, props: map<K, V>): (r: map<K, V>)
    ensures r.Keys == o.Keys + props.Keys
    ensures forall k :: k in props ==> r[k] == props[k]
    ensures forall k :: k in o && k !in props ==> r[k] == o[k]
  {
    o + props
  }

  /** Cloning with no overrides copies the object; applying the same overrides twice changes nothing more. */
  lemma CloneLaws<K, V>(o: map<K, V>, props: map<K, V>)
    ensures Clone(o, map[]) == o
    ensures Clone(Clone(o, props), props) == Clone(o, props)
  {
    assert Clone(o, map[]).Keys == o.Keys;
  }

  /**
   * `isShallowEqual(a, b)`: unequal key counts answer false; otherwise every key of `a`
   * must be an own key of `b` holding the same value.
   */
  predicate IsShallowEqual<K, V(==)>(a: map<K, V>, b: map<K, V>)
  {
    if |a.Keys| != |b.Keys| then false
    else forall k :: k in a ==> k in b && a[k] == b[k]
  }

  /** A subset as large as its superset is the whole superset. */
  lemma SubsetOfSameSize<K>(s: set<K>, t: set<K>)
    requires s <= t && |s| == |t|
    ensures s == t
  {
    if s != t {
      var extra :| extra in t && extra !in s;
      assert s <= t - {extra};
      SubsetSize(s, t - {extra});
    }
  }

  /** A subset is no larger than its superset. */
  lemma {:induction false} SubsetSize<K>(s: set<K>, t: set<K>)
    requires s <= t
    ensures |s| <= |t|
  {
    assert t == s + (t - s);
  }

  /** Shallow equality is exactly equality of the two dictionaries. */
  lemma IsShallowEqualIff<K, V>(a: map<K, V>, b: map<K, V>)
    ensures IsShallowEqual(a, b) <==> a == b
  {
    if IsShallowEqual(a, b) {
      SubsetOfSameSize(a.Keys, b.Keys);
    }
  }

  /** Different key counts are never shallowly equal. */
  lemma ShallowEqualNeedsSameSize<K, V>(a: map<K, V>, b: map<K, V>)
    requires |a| != |b|
    ensures !IsShallowEqual(a, b)
  {
    assert |a.Keys| == |a| && |b.Keys| == |b|;
  }

  /** Shallow equality is reflexive and symmetric. */
  lemma IsShallowEqualReflexiveSymmetric<K, V>(a: map<K, V>, b: map<K, V>)
    ensures IsShallowEqual(a, a)
    ensures IsShallowEqual(a, b) ==> IsShallowEqual(b, a)
  {
    IsShallowEqualIff(a, a);
    IsShallowEqualIff(a, b);
    IsShallowEqualIff(b, a);
  }

  /** The object `pick(object, keys)` is meant to build: the listed keys the object owns. */
  function Picked<K, V>(o: map<K, V>, keys: seq<K>): (r: map<K, V>)
    ensures r.Keys == o.Keys * set k | k in keys
    ensures forall k :: k in r ==> r[k] == o[k]
  {
    map k | k in keys && k in o :: o[k]
  }

  /**
   * `pick(object, keys)`: walks the key list and copies each key the object owns into a
   * fresh accumulator.
   */
  method Pick<K, V>(o: map<K, V>, keys: seq<K>) returns (acc: map<K, V>)
    ensures acc == Picked(o, keys)
  {
    acc := map[];
    var i := 0;
    while i < |keys|
      invariant 0 <= i <= |keys|
      invariant acc == Picked(o, keys[..i])
    {
      var key := keys[i];
      if key in o {
        acc := acc[key := o[key]];
      }
      assert keys[..i + 1] == keys[..i] + [key];
      i := i + 1;
    }
    assert keys[..i] == keys;
  }

  /** `pick` is idempotent. */
  lemma PickIdempotent<K, V>(o: map<K, V>, keys: seq<K>)
    ensures Picked(Picked(o, keys), keys) == Picked(o, keys)
  {
  }

  /** The object `omit(object, keys)` is meant to build: the object without the listed keys. */
  function Omitted<K, V>(o: map<K, V>, keys: seq<K>): (r: map<K, V>)
    ensures r.Keys == o.Keys - set k | k in keys
    ensures forall k :: k in r ==> r[k] == o[k]
  {
    map k | k in o && k !in keys :: o[k]
  }

  /**
   * `omit(object, keys)`: walks the object's own keys and copies each key not in the
   * omitted set into a fresh accumulator. `Object.keys` order is not modelled: the keys
   * are visited in an unspecified order.
   */
  method Omit<K, V>(o: map<K, V>, keys: seq<K>) returns (acc: map<K, V>)
    ensures acc == Omitted(o, keys)
  {
    var omitSet := set k | k in keys;
    acc := map[];
    var remaining := o.Keys;
    while remaining != {}
      invariant remaining <= o.Keys
      invariant acc == map k | k in o.Keys - remaining && k !in omitSet :: o[k]
      decreases remaining
    {
      var key :| key in remaining;
      if key !in omitSet {
        acc := acc[key := o[key]];
      }
      remaining := remaining - {key};
    }
  }

  /** `omit` and `pick` with the same keys split the object: disjoint, and together the whole. */
  lemma OmitPickSplit<K, V>(o: map<K, V>, keys: seq<K>)
    ensures Omitted(o, keys).Keys !! Picked(o, keys).Keys
    ensures Omitted(o, keys) + Picked(o, keys) == o
  {
    var u := Omitted(o, keys) + Picked(o, keys);
    assert u.Keys == o.Keys;
  }

  /**
   * `entriesToObject(entries)`: assigns the pairs one after the other, so the key set is
   * the set of first components and a repeated key keeps its last value.
   */
  method EntriesToObject<K, V>(entries: seq<(K, V)>) returns (acc: map<K, V>)
    ensures acc.Keys == set e | e in entries :: e.0
    ensures forall i :: 0 <= i < |entries| && (forall j :: i < j < |entries| ==> entries[j].0 != entries[i].0)
              ==> entries[i].0 in acc && acc[entries[i].0] == entries[i].1
  {
    acc := map[];
    var i := 0;
    while i < |entries|
      invariant 0 <= i <= |entries|
      invariant acc.Keys == set e | e in entries[..i] :: e.0
      invariant forall m :: 0 <= m < i && (forall j :: m < j < i ==> entries[j].0 != entries[m].0)
                  ==> entries[m].0 in acc && acc[entries[m].0] == entries[m].1
    {
      var (key, value) := entries[i];
      acc := acc[key := value];
      assert entries[..i + 1] == entries[..i] + [entries[i]];
      i := i + 1;
    }
    assert entries[..i] == entries;
  }
}

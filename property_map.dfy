/**
 * The projection between property lists and plain dictionaries of the
 * server utilities (propertyObject and objectToProperty).
 *
 * A property is a record {type, key, value}. propertyObject folds a list of
 * them into a string dictionary, skipping the properties whose type is Hash
 * and letting a later property overwrite an earlier one with the same key.
 * objectToProperty lists a dictionary back as Raw properties, one per key.
 */
module PropertyMap {

  /** The property types the projection tells apart: only Hash is special. */
  datatype PropertyType = Raw | Hash

  datatype Property = Property(kind: PropertyType, key: string, value: string)

  type Dict = map<string, string>

  /** A property that propertyObject keeps: any whose type is not Hash. */
  predicate Disclosed(p: Property)
  {
    p.kind != Hash
  }

  /** The reduce callback: a disclosed property is written over the
    * dictionary under its key; a Hash property leaves it as it is. */
  function Absorb(dict: Dict, p: Property): Dict
  {
    if Disclosed(p) then dict[p.key := p.value] else dict
  }

  /** propertyObject: a left fold of Absorb over the list, from the empty
    * dictionary; the result for a list is Absorb applied to the result for
    * all but its last element and that last element. */
  function PropertyObject(properties: seq<Property>): (dict: Dict)
    ensures forall k :: k in dict ==> Property(Raw, k, dict[k]) in properties
    decreases |properties|
  {
    if properties == [] then map[]
    else Absorb(PropertyObject(properties[..|properties| - 1]), properties[|properties| - 1])
  }

  /** The keys of the disclosed properties of a list. */
  ghost function DisclosedKeys(properties: seq<Property>): set<string>
  {
    set p | p in properties && Disclosed(p) :: p.key
  }

  /** Property i is the last disclosed property of the list with key k. */
  ghost predicate LastWrite(properties: seq<Property>, i: int, k: string)
  {
    && 0 <= i < |properties|
    && Disclosed(properties[i])
    && properties[i].key == k
    && forall j :: i < j < |properties| ==> !Disclosed(properties[j]) || properties[j].key != k
  }

  /** The dictionary holds exactly the keys of the disclosed properties;
    * in particular Hash properties alone, or none, give the empty one. */
  lemma {:induction false} PropertyObjectKeys(properties: seq<Property>)
    ensures PropertyObject(properties).Keys == DisclosedKeys(properties)
    decreases |properties|
  {
    if properties != [] {
      var init, last := properties[..|properties| - 1], properties[|properties| - 1];
      assert properties == init + [last];
      PropertyObjectKeys(init);
      if Disclosed(last) {
        assert DisclosedKeys(properties) == DisclosedKeys(init) + {last.key};
      } else {
        assert DisclosedKeys(properties) == DisclosedKeys(init);
      }
    }
  }

  /** Last write wins: the value under key k is that of the last disclosed
    * property with key k. */
  lemma {:induction false} PropertyObjectLastWins(properties: seq<Property>, i: int, k: string)
    requires LastWrite(properties, i, k)
    ensures k in PropertyObject(properties)
    ensures PropertyObject(properties)[k] == properties[i].value
    decreases |properties|
  {
    var n := |properties|;
    var init := properties[..n - 1];
    if i < n - 1 {
      assert LastWrite(init, i, k);
      PropertyObjectLastWins(init, i, k);
    }
  }

  /** Every key of the dictionary has a last disclosed property, and it is the
    * value of that property that the dictionary holds. */
  lemma {:induction false} PropertyObjectValue(properties: seq<Property>, k: string)
    requires k in PropertyObject(properties)
    ensures exists i :: LastWrite(properties, i, k) && PropertyObject(properties)[k] == properties[i].value
  {
    PropertyObjectKeys(properties);
    var n := |properties|;
    var i :| 0 <= i < n && Disclosed(properties[i]) && properties[i].key == k;
    while exists j :: i < j < n && Disclosed(properties[j]) && properties[j].key == k
      invariant 0 <= i < n && Disclosed(properties[i]) && properties[i].key == k
      decreases n - i
    {
      var j :| i < j < n && Disclosed(properties[j]) && properties[j].key == k;
      i := j;
    }
    PropertyObjectLastWins(properties, i, k);
  }

  /** The list with its Hash properties dropped, order kept. */
  function DropHashed(properties: seq<Property>): (r: seq<Property>)
    decreases |properties|
  {
    if properties == [] then []
    else
      var init, last := properties[..|properties| - 1], properties[|properties| - 1];
      if Disclosed(last) then DropHashed(init) + [last] else DropHashed(init)
  }

  /** Hash properties play no part in the dictionary: dropping them all first
    * gives the same dictionary. */
  lemma {:induction false} PropertyObjectIgnoresHashed(properties: seq<Property>)
    ensures PropertyObject(DropHashed(properties)) == PropertyObject(properties)
    decreases |properties|
  {
    if properties != [] {
      var init, last := properties[..|properties| - 1], properties[|properties| - 1];
      PropertyObjectIgnoresHashed(init);
      if Disclosed(last) {
        var d := DropHashed(init) + [last];
        assert d[..|d| - 1] == DropHashed(init);
      }
    }
  }

  /** One reduce step on an overridden dictionary only touches the part that
    * overrides. */
  lemma AbsorbOverride(base: Dict, top: Dict, p: Property)
    ensures Absorb(base + top, p) == base + Absorb(top, p)
  {
  }

  /** The fold over a concatenation is the fold over the first part updated
    * by the fold over the second: on a shared key the second part wins. */
  lemma {:induction false} PropertyObjectAppend(front: seq<Property>, back: seq<Property>)
    ensures PropertyObject(front + back) == PropertyObject(front) + PropertyObject(back)
    decreases |back|
  {
    if back == [] {
      assert front + back == front;
    } else {
      var init, last := back[..|back| - 1], back[|back| - 1];
      var whole := front + back;
      assert whole[..|whole| - 1] == front + init && whole[|whole| - 1] == last;
      PropertyObjectAppend(front, init);
      AbsorbOverride(PropertyObject(front), PropertyObject(init), last);
    }
  }

  /** `keys` lists every key of `dict` exactly once, as Object.keys does. */
  predicate Enumerates(keys: seq<string>, dict: Dict)
  {
    && (forall i, j :: 0 <= i < j < |keys| ==> keys[i] != keys[j])
    && (forall k :: k in dict ==> k in keys)
    && (forall k :: k in keys ==> k in dict)
  }

  /** Every dictionary has a key order that Enumerates it, so the lemmas
    * about ObjectToProperty below cover every dictionary. */
  lemma {:induction false} EnumerationExists(dict: Dict)
    ensures exists keys :: Enumerates(keys, dict)
    decreases |dict|
  {
    if dict == map[] {
      assert Enumerates([], dict);
    } else {
      var k :| k in dict;
      var rest := dict - {k};
      EnumerationExists(rest);
      var ks :| Enumerates(ks, rest);
      assert Enumerates(ks + [k], dict);
    }
  }

  /** objectToProperty: one Raw property per key, in the order `keys` gives
    * (the key order of Object.keys, which this model leaves open). */
  function ObjectToProperty(dict: Dict, keys: seq<string>): (r: seq<Property>)
    requires Enumerates(keys, dict)
    ensures |r| == |dict|
    ensures forall p :: p in r ==> p.kind == Raw && p.key in dict && p.value == dict[p.key]
  {
    DistinctCardinality(keys);
    assert dict.Keys == set k | k in keys;
    seq(|keys|, i requires 0 <= i < |keys| && keys[i] in dict => Property(Raw, keys[i], dict[keys[i]]))
  }

  /** A sequence without repetitions has as many elements as its set. */
  lemma {:induction false} DistinctCardinality(keys: seq<string>)
    requires forall i, j :: 0 <= i < j < |keys| ==> keys[i] != keys[j]
    ensures |set k | k in keys| == |keys|
    decreases |keys|
  {
    if keys != [] {
      var rest := keys[1..];
      DistinctCardinality(rest);
      assert (set k | k in keys) == (set k | k in rest) + {keys[0]};
      assert keys[0] !in rest;
    }
  }

  /** The list has exactly one property per key of the dictionary: every one
    * Raw, under a key of the dictionary, with the value the dictionary holds
    * there; no two share a key; and every key has one. */
  lemma ObjectToPropertyOnePerKey(dict: Dict, keys: seq<string>)
    requires Enumerates(keys, dict)
    ensures |ObjectToProperty(dict, keys)| == |dict|
    ensures forall p :: p in ObjectToProperty(dict, keys) ==> p.kind == Raw && p.key in dict && p.value == dict[p.key]
    ensures forall i, j :: 0 <= i < j < |ObjectToProperty(dict, keys)| ==>
              ObjectToProperty(dict, keys)[i].key != ObjectToProperty(dict, keys)[j].key
    ensures forall k :: k in dict ==> Property(Raw, k, dict[k]) in ObjectToProperty(dict, keys)
  {
    var r := ObjectToProperty(dict, keys);
    DistinctCardinality(keys);
    assert dict.Keys == set k | k in keys;
    forall k | k in dict
      ensures Property(Raw, k, dict[k]) in r
    {
      var i :| 0 <= i < |keys| && keys[i] == k;
      assert r[i] == Property(Raw, k, dict[k]);
    }
  }

  /** Listing a dictionary and folding the list back gives the dictionary
    * again, whatever order the keys are listed in. */
  lemma ObjectToPropertyRoundTrip(dict: Dict, keys: seq<string>)
    requires Enumerates(keys, dict)
    ensures PropertyObject(ObjectToProperty(dict, keys)) == dict
  {
    var r := ObjectToProperty(dict, keys);
    var back := PropertyObject(r);
    PropertyObjectKeys(r);
    ObjectToPropertyOnePerKey(dict, keys);
    assert back.Keys == dict.Keys;
    forall k | k in dict
      ensures back[k] == dict[k]
    {
      var i :| 0 <= i < |keys| && keys[i] == k;
      ListedKeyReadBack(dict, keys, i);
    }
  }

  /** The fold of the listed properties holds, under the key listed at i,
    * the value the dictionary holds there. */
  lemma ListedKeyReadBack(dict: Dict, keys: seq<string>, i: int)
    requires Enumerates(keys, dict)
    requires 0 <= i < |keys|
    ensures keys[i] in PropertyObject(ObjectToProperty(dict, keys))
    ensures PropertyObject(ObjectToProperty(dict, keys))[keys[i]] == dict[keys[i]]
  {
    var r := ObjectToProperty(dict, keys);
    assert LastWrite(r, i, keys[i]);
    PropertyObjectLastWins(r, i, keys[i]);
  }

  /** The keys of a list of properties, in list order. */
  function KeysOf(properties: seq<Property>): seq<string>
  {
    seq(|properties|, i requires 0 <= i < |properties| => properties[i].key)
  }

  /** When every property is Raw, the keys of a list are its disclosed keys. */
  lemma KeysOfDisclosed(properties: seq<Property>)
    requires forall p :: p in properties ==> p.kind == Raw
    ensures forall k :: k in KeysOf(properties) <==> k in DisclosedKeys(properties)
  {
    var keys := KeysOf(properties);
    forall k | k in keys
      ensures k in DisclosedKeys(properties)
    {
      var i :| 0 <= i < |keys| && keys[i] == k;
      assert properties[i] in properties;
    }
    forall k | k in DisclosedKeys(properties)
      ensures k in keys
    {
      var p :| p in properties && Disclosed(p) && p.key == k;
      var i :| 0 <= i < |properties| && properties[i] == p;
      assert keys[i] == k;
    }
  }

  /** The keys of a list with distinct keys list the keys of its fold once
    * each, when every property is Raw. */
  lemma KeysOfEnumerates(properties: seq<Property>)
    requires forall p :: p in properties ==> p.kind == Raw
    requires forall i, j :: 0 <= i < j < |properties| ==> properties[i].key != properties[j].key
    ensures Enumerates(KeysOf(properties), PropertyObject(properties))
  {
    var keys := KeysOf(properties);
    assert forall i :: 0 <= i < |keys| ==> keys[i] == properties[i].key;
    PropertyObjectKeys(properties);
    KeysOfDisclosed(properties);
  }

  /** The other direction: a list of Raw properties with distinct keys comes
    * back unchanged when folded and listed again in its own key order. */
  lemma PropertyObjectRoundTrip(properties: seq<Property>)
    requires forall p :: p in properties ==> p.kind == Raw
    requires forall i, j :: 0 <= i < j < |properties| ==> properties[i].key != properties[j].key
    ensures Enumerates(KeysOf(properties), PropertyObject(properties))
    ensures ObjectToProperty(PropertyObject(properties), KeysOf(properties)) == properties
  {
    KeysOfEnumerates(properties);
    var r := ObjectToProperty(PropertyObject(properties), KeysOf(properties));
    forall i | 0 <= i < |properties|
      ensures r[i] == properties[i]
    {
      assert properties[i] in properties;
      assert LastWrite(properties, i, properties[i].key);
      PropertyObjectLastWins(properties, i, properties[i].key);
    }
  }

  /** In a sequence without repetitions every element occurs exactly once. */
  lemma {:induction false} DistinctMultiset<T>(s: seq<T>)
    requires forall i, j :: 0 <= i < j < |s| ==> s[i] != s[j]
    ensures forall x :: multiset(s)[x] == if x in s then 1 else 0
    decreases |s|
  {
    if s != [] {
      DistinctMultiset(s[1..]);
      assert s == [s[0]] + s[1..];
      assert s[0] !in s[1..];
    }
  }

  /** Two sequences without repetitions that hold the same elements are
    * permutations of each other. */
  lemma DistinctSameElements<T>(a: seq<T>, b: seq<T>)
    requires forall i, j :: 0 <= i < j < |a| ==> a[i] != a[j]
    requires forall i, j :: 0 <= i < j < |b| ==> b[i] != b[j]
    requires forall x :: x in a <==> x in b
    ensures multiset(a) == multiset(b)
  {
    DistinctMultiset(a);
    DistinctMultiset(b);
    assert forall x :: multiset(a)[x] == multiset(b)[x];
  }

  /** Every property listed back from the fold of a Raw list with distinct
    * keys is one of the list's own properties. */
  lemma ListedBackIsOriginal(properties: seq<Property>, keys: seq<string>, p: Property)
    requires forall p :: p in properties ==> p.kind == Raw
    requires Enumerates(keys, PropertyObject(properties))
    requires p in ObjectToProperty(PropertyObject(properties), keys)
    ensures p in properties
  {
    var dict := PropertyObject(properties);
    ObjectToPropertyOnePerKey(dict, keys);
    PropertyObjectValue(properties, p.key);
    var i :| LastWrite(properties, i, p.key) && dict[p.key] == properties[i].value;
    assert properties[i] in properties;
  }

  /** Every property of a Raw list with distinct keys is listed back from
    * its fold. */
  lemma OriginalIsListedBack(properties: seq<Property>, keys: seq<string>, i: int)
    requires forall p :: p in properties ==> p.kind == Raw
    requires forall i, j :: 0 <= i < j < |properties| ==> properties[i].key != properties[j].key
    requires Enumerates(keys, PropertyObject(properties))
    requires 0 <= i < |properties|
    ensures properties[i] in ObjectToProperty(PropertyObject(properties), keys)
  {
    var dict := PropertyObject(properties);
    assert properties[i] in properties;
    assert LastWrite(properties, i, properties[i].key);
    PropertyObjectLastWins(properties, i, properties[i].key);
    ObjectToPropertyOnePerKey(dict, keys);
  }

  /** The round trip from a list of Raw properties with distinct keys holds
    * for every key order Object.keys may choose: the list comes back as a
    * permutation of itself. */
  lemma PropertyObjectRoundTripAnyOrder(properties: seq<Property>, keys: seq<string>)
    requires forall p :: p in properties ==> p.kind == Raw
    requires forall i, j :: 0 <= i < j < |properties| ==> properties[i].key != properties[j].key
    requires Enumerates(keys, PropertyObject(properties))
    ensures multiset(ObjectToProperty(PropertyObject(properties), keys)) == multiset(properties)
  {
    var r := ObjectToProperty(PropertyObject(properties), keys);
    ObjectToPropertyOnePerKey(PropertyObject(properties), keys);
    forall p | p in r
      ensures p in properties
    {
      ListedBackIsOriginal(properties, keys, p);
    }
    forall p | p in properties
      ensures p in r
    {
      var i :| 0 <= i < |properties| && properties[i] == p;
      OriginalIsListedBack(properties, keys, i);
    }
    assert forall i, j :: 0 <= i < j < |r| ==> r[i] != r[j];
    assert forall i, j :: 0 <= i < j < |properties| ==> properties[i] != properties[j];
    DistinctSameElements(r, properties);
  }
}

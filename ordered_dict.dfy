/** Python's `collections.OrderedDict` as a value: the keys in insertion order and
    the map from key to value. `Scene.objects` and `UIElement.children` are fields of
    this type that the owning methods reassign. */
module OrderedDicts {

  /** The sequence `s` without any occurrence of `k`, the rest in the same order. */
  function Erase<K(==,!new)>(s: seq<K>, k: K): (r: seq<K>)
    ensures forall x :: x in r <==> x in s && x != k
    ensures |r| <= |s|
    ensures k !in s ==> r == s
    ensures Distinct(s) ==> Distinct(r)
  {
    if s == [] then []
    else if s[0] == k then Erase(s[1..], k)
    else
      var rest := Erase(s[1..], k);
      assert Distinct(s) ==> s[0] !in s[1..] && Distinct(s[1..]);
      assert Distinct(s) ==> s[0] !in rest;
      [s[0]] + rest
  }

  predicate Distinct<K(==)>(s: seq<K>) {
    forall i, j :: 0 <= i < j < |s| ==> s[i] != s[j]
  }

  /** Erasing the key at position `i` of a sequence without repetitions cuts out exactly that position. */
  lemma {:induction false} EraseAt<K(!new)>(s: seq<K>, i: nat)
    requires Distinct(s) && i < |s|
    ensures Erase(s, s[i]) == s[..i] + s[i + 1..]
  {
    if i == 0 {
      assert s[0] !in s[1..];
      assert s[1..] == s[..0] + s[1..];
    } else {
      EraseAt(s[1..], i - 1);
      assert s[1..][i - 1] == s[i];
      assert s[1..][..i - 1] + s[1..][i..] == s[1..i] + s[i + 1..];
      assert [s[0]] + (s[1..i] + s[i + 1..]) == s[..i] + s[i + 1..];
    }
  }

  /** Erasing a key that was appended to a sequence not containing it gives back the sequence. */
  lemma {:induction false} EraseAppended<K(!new)>(s: seq<K>, k: K)
    requires k !in s
    ensures Erase(s + [k], k) == s
  {
    if s == [] {
      assert [k][1..] == [];
    } else {
      assert (s + [k])[1..] == s[1..] + [k];
      EraseAppended(s[1..], k);
      assert [s[0]] + s[1..] == s;
    }
  }

  datatype OrderedDict<K(==,!new), V> = OrderedDict(keys: seq<K>, entries: map<K, V>) {

    /** Every key is recorded once in the order, and the order holds exactly the keys. */
    predicate Valid() {
      && Distinct(keys)
      && (forall k :: k in keys ==> k in entries)
      && (forall k :: k in entries ==> k in keys)
    }

    /** The values in insertion order (`OrderedDict.values()`). */
    function Values(): (vs: seq<V>)
      requires Valid()
      ensures |vs| == |keys|
      ensures forall i :: 0 <= i < |keys| ==> vs[i] == entries[keys[i]]
    {
      seq(|keys|, i requires 0 <= i < |keys| => entries[keys[i]])
    }

    /** `d[k] = v`: a new key goes to the end of the order, an existing key keeps its place. */
    function Put(k: K, v: V): (d: OrderedDict<K, V>)
      requires Valid()
      ensures d.Valid()
      ensures d.entries == entries[k := v]
      ensures k in entries ==> d.keys == keys
      ensures k !in entries ==> d.keys == keys + [k]
    {
      if k in entries then OrderedDict(keys, entries[k := v])
      else OrderedDict(keys + [k], entries[k := v])
    }

    /** `del d[k]`: the entry goes, the other keys keep their relative order. */
    function Delete(k: K): (d: OrderedDict<K, V>)
      requires Valid()
      ensures d.Valid()
      ensures d.entries == entries - {k}
      ensures forall x :: x in d.keys <==> x in keys && x != k
    {
      OrderedDict(Erase(keys, k), entries - {k})
    }
  }

  function Empty<K(==,!new), V>(): (d: OrderedDict<K, V>)
    ensures d.Valid() && d.Values() == []
  {
    OrderedDict([], map[])
  }

  /** Adding a new key and then deleting it leaves the dictionary as it was. */
  lemma DeleteAfterPut<K(!new), V>(d: OrderedDict<K, V>, k: K, v: V)
    requires d.Valid() && k !in d.entries
    ensures d.Put(k, v).Delete(k) == d
  {
    EraseAppended(d.keys, k);
    assert d.entries[k := v] - {k} == d.entries;
  }

  /** A new key's value is appended to the values in order. */
  lemma ValuesAfterPutNew<K(!new), V>(d: OrderedDict<K, V>, k: K, v: V)
    requires d.Valid() && k !in d.entries
    ensures d.Put(k, v).Values() == d.Values() + [v]
  {
  }

  /** Position `j` of a sequence with position `i` cut out. */
  lemma CutAt<T>(s: seq<T>, i: nat, j: nat)
    requires i < |s| && j < |s| - 1
    ensures (s[..i] + s[i + 1..])[j] == s[if j < i then j else j + 1]
  {
  }

  /** Deleting the key at position `i` removes exactly that value from the ordered values. */
  lemma ValuesAfterDelete<K(!new), V>(d: OrderedDict<K, V>, i: nat)
    requires d.Valid() && i < |d.keys|
    ensures d.Delete(d.keys[i]).keys == d.keys[..i] + d.keys[i + 1..]
    ensures d.Delete(d.keys[i]).Values() == d.Values()[..i] + d.Values()[i + 1..]
  {
    var k := d.keys[i];
    EraseAt(d.keys, i);
    var e := d.Delete(k);
    var vs, ws := d.Values(), e.Values();
    var cut := vs[..i] + vs[i + 1..];
    forall j | 0 <= j < |ws|
      ensures ws[j] == cut[j]
    {
      var src := if j < i then j else j + 1;
      CutAt(d.keys, i, j);
      CutAt(vs, i, j);
      assert d.keys[src] != k;
    }
  }
}

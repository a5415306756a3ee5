/** The set of HashMap/lib/hash_set.rb: a hash map whose every value is true,
    so that its keys are the elements of the set. */
module HashSets {
  import opened HashTables
  import opened HashMaps

  /** Every value of the map is true. */
  ghost predicate AllTrue(m: map<Key, bool>)
  {
    forall k :: k in m ==> m[k]
  }

  lemma AllTrueAdd(m: map<Key, bool>, key: Key)
    requires AllTrue(m)
    ensures AllTrue(m[key := true]) && m[key := true].Keys == m.Keys + {key}
  {
  }

  class HashSet {
    var inner: HashMap<bool>
    ghost var Elements: set<Key>
    ghost var Repr: set<object>

    /** The elements are the keys of the wrapped map, and every key maps to true. */
    ghost predicate Valid()
      reads this, Repr
    {
      && Repr == {this, inner}
      && inner.Valid()
      && Elements == inner.Contents.Keys
      && AllTrue(inner.Contents)
    }

    /** initialize: wraps a new, empty map. */
    constructor ()
      ensures Valid() && fresh(Repr)
      ensures Elements == {}
    {
      inner := new HashMap<bool>();
      Elements := {};
      Repr := {this, inner};
    }

    /** add: `set(key, true)` on the map; the key becomes an element, and the
        map's result is passed on: nil when the key was already an element,
        the new length otherwise. */
    method Add(key: Key) returns (r: Option<int>)
      requires Valid()
      modifies Repr
      ensures Valid() && Repr == old(Repr)
      ensures Elements == old(Elements) + {key}
      ensures inner.count == old(inner.count) + (if key in old(Elements) then 0 else 1)
      ensures r == if key in old(Elements) then None else Some(|Elements|)
    {
      ghost var before := inner.Contents;
      r := inner.Set(key, true);
      AllTrueAdd(before, key);
      Elements := Elements + {key};
    }

    /** remove: the map's remove, so true when the key was an element and nil otherwise. */
    method Remove(key: Key) returns (r: Option<bool>)
      requires Valid()
      modifies Repr
      ensures Valid() && Repr == old(Repr)
      ensures r == if key in old(Elements) then Some(true) else None
      ensures Elements == old(Elements) - {key}
    {
      r := inner.Remove(key);
      Elements := Elements - {key};
    }

    /** has?: membership. */
    method Has(key: Key) returns (r: bool)
      requires Valid()
      ensures r <==> key in Elements
    {
      r := inner.Has(key);
    }

    /** length: the number of elements. */
    method Length() returns (n: int)
      requires Valid()
      ensures n == |Elements|
    {
      n := inner.Length();
    }

    /** clear: the map's clear; no elements remain. */
    method Clear()
      requires Valid()
      modifies Repr
      ensures Valid() && Repr == old(Repr)
      ensures Elements == {}
    {
      inner.Clear();
      Elements := {};
    }

    /** keys: every element exactly once. */
    method Keys() returns (res: seq<Key>)
      requires Valid()
      ensures |res| == |Elements|
      ensures forall k :: k in res <==> k in Elements
      ensures forall p, q :: 0 <= p < q < |res| ==> res[p] != res[q]
    {
      res := inner.Keys();
    }
  }
}

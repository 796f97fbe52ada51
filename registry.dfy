// IntersectionRegistry of src/lib.rs: deduplication of fill-graph nodes by
// their quantized position.
//
// The quantized key (IntersectionRegistry::quantize, a float rounding of the
// point scaled by 1024) is computed by the caller and handed in.

module Registry {
  import opened Maybe
  import opened Shapes

  /** The rounded position of a point. */
  datatype QKey = QKey(qx: int, qy: int)

  datatype Entry = Entry(key: QKey, id: nat)

  /** The id stored with the first entry of the given key, if any. */
  function Lookup(entries: seq<Entry>, key: QKey): (r: Option<nat>)
    ensures r.None? <==> forall i :: 0 <= i < |entries| ==> entries[i].key != key
    ensures r.Some? ==> exists i :: 0 <= i < |entries| && entries[i] == Entry(key, r.value)
                                   && forall j :: 0 <= j < i ==> entries[j].key != key
  {
    if |entries| == 0 then None
    else if entries[0].key == key then Some(entries[0].id)
    else
      var r := Lookup(entries[1..], key);
      assert forall i :: 0 < i < |entries| ==> entries[i] == entries[1..][i - 1];
      r
  }

  /** Every stored id names a node of a list of n nodes. */
  predicate IdsBelow(entries: seq<Entry>, n: nat)
  {
    forall i :: 0 <= i < |entries| ==> entries[i].id < n
  }

  /**
   * The registry is the only writer of a node list of length n: entry i
   * holds node i and no key is stored twice.
   */
  predicate Dense(entries: seq<Entry>, n: nat)
  {
    && |entries| == n
    && (forall i :: 0 <= i < n ==> entries[i].id == i)
    && (forall i, j :: 0 <= i < j < n ==> entries[i].key != entries[j].key)
  }

  /** In a dense registry a stored key finds exactly its own entry. */
  lemma DenseLookup(entries: seq<Entry>, n: nat, i: nat)
    requires Dense(entries, n) && i < n
    ensures Lookup(entries, entries[i].key) == Some(i)
  {
  }

  class IntersectionRegistry {
    var entries: seq<Entry>

    constructor ()
      ensures entries == []
    {
      entries := [];
    }

    /** The scan of get_or_insert: the id of the first entry with this key. */
    method Find(key: QKey) returns (r: Option<nat>)
      ensures r == Lookup(entries, key)
    {
      var i := 0;
      while i < |entries|
        invariant 0 <= i <= |entries|
        invariant forall j :: 0 <= j < i ==> entries[j].key != key
      {
        if entries[i].key == key {
          return Some(entries[i].id);
        }
        i := i + 1;
      }
      return None;
    }

    /**
     * get_or_insert: a key already present yields its stored id and changes
     * nothing; a new key becomes node nodes.len(), appended with one entry.
     * Either way the key now finds the returned id.
     */
    method GetOrInsert(key: QKey, p: Point, nodes: seq<Point>) returns (id: nat, nodes': seq<Point>)
      modifies this
      ensures Lookup(old(entries), key).Some? ==>
                id == Lookup(old(entries), key).value && nodes' == nodes && entries == old(entries)
      ensures Lookup(old(entries), key).None? ==>
                id == |nodes| && nodes' == nodes + [p] && entries == old(entries) + [Entry(key, id)]
      ensures Lookup(entries, key) == Some(id)
      ensures IdsBelow(old(entries), |nodes|) ==> IdsBelow(entries, |nodes'|) && id < |nodes'|
      ensures Dense(old(entries), |nodes|) ==> Dense(entries, |nodes'|)
    {
      var found := Find(key);
      if found.Some? {
        return found.value, nodes;
      }
      id := |nodes|;
      nodes' := nodes + [p];
      entries := entries + [Entry(key, id)];
      assert entries[|entries| - 1] == Entry(key, id);
    }
  }
}

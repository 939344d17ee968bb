/** The tool cache of src/cache.rs as the object it is: `get` and `set` update the map, the
    index, the byte counter and the hit counters, each call as one atomic step. */
module ToolCache {
  import opened Basics
  import J = Json
  import opened CacheModel

  /** The first slot in time order: `idx.iter().next()`. */
  method FirstSlot(index: map<nat, string>) returns (t: nat)
    requires index != map[]
    ensures t == Oldest(index)
  {
    var times := index.Keys;
    t :| t in times;
    var left := times - {t};
    while left != {}
      invariant t in index && left <= index.Keys
      invariant forall u | u in index && u !in left :: t <= u
      decreases |left|
    {
      var u :| u in left;
      left := left - {u};
      if u < t {
        t := u;
      }
    }
  }

  class ToolCache {
    const defaultTtl: nat
    const limits: Limits
    var entries: map<string, Entry>
    var accessIndex: map<nat, string>
    var bytesUsed: nat
    var hits: nat
    var misses: nat

    function State(): Cache
      reads this
    {
      Cache(entries, accessIndex, bytesUsed)
    }

    ghost predicate Valid()
      reads this
    {
      Consistent(limits, State())
    }

    /** If `result` fits and `key` is there, then `result` is what is stored. */
    predicate StoredAs(key: string, result: J.Value, now: nat, expiresAt: nat)
      reads this
    {
      EntrySize(key, result) <= limits.maxBytes && key in entries ==>
        entries[key] == Entry(result, EntrySize(key, result), now, expiresAt)
    }

    constructor (defaultTtl: nat, maxBytes: nat, maxEntries: nat)
      ensures Valid() && State() == EMPTY && hits == misses == 0
      ensures this.defaultTtl == defaultTtl && limits == Limits(maxBytes, maxEntries)
    {
      this.defaultTtl := defaultTtl;
      limits := Limits(maxBytes, maxEntries);
      entries, accessIndex, bytesUsed := map[], map[], 0;
      hits, misses := 0, 0;
    }

    method Get(toolName: string, arguments: J.Value, now: nat) returns (r: Option<J.Value>)
      requires Valid()
      modifies this
      ensures Valid()
      ensures r == Found(old(State()), ComputeKey(toolName, arguments), now)
      ensures r.Some? <==>
        (ComputeKey(toolName, arguments) in old(entries) && now < old(entries)[ComputeKey(toolName, arguments)].expiresAt)
      ensures r.Some? ==> r.value == old(entries)[ComputeKey(toolName, arguments)].result
      ensures State() == AfterGet(old(State()), ComputeKey(toolName, arguments), now)
      ensures hits == old(hits) + (if r.Some? then 1 else 0)
      ensures misses == old(misses) + (if r.Some? then 0 else 1)
    {
      var key := ComputeKey(toolName, arguments);
      GetConsistent(limits, State(), key, now);
      if key in entries {
        var entry := entries[key];
        if entry.expiresAt > now {
          var oldAccess := entry.lastAccessed;
          entries := entries[key := entry.(lastAccessed := now)];
          accessIndex := accessIndex - {oldAccess};
          accessIndex := accessIndex[now := key];
          hits := hits + 1;
          return Some(entry.result);
        }
      }
      misses := misses + 1;
      r := None;
    }

    /** Take out the entry a `set` is about to replace, with its slot and its bytes. */
    method RemoveExisting(key: string)
      modifies this`entries, this`accessIndex, this`bytesUsed
      ensures State() == Removed(old(State()), key)
    {
      if key in entries {
        var existing := entries[key];
        entries := entries - {key};
        accessIndex := accessIndex - {existing.lastAccessed};
        bytesUsed := SaturatingSub(bytesUsed, existing.size);
      }
    }

    /** One round of the eviction loop. */
    method EvictOldest()
      requires accessIndex != map[]
      modifies this`entries, this`accessIndex, this`bytesUsed
      ensures State() == DropSlot(old(State()), Oldest(old(accessIndex)))
      ensures |accessIndex| < |old(accessIndex)|
    {
      var oldestTime := FirstSlot(accessIndex);
      var evictedKey := accessIndex[oldestTime];
      SlotDropped(State(), oldestTime);
      accessIndex := accessIndex - {oldestTime};
      if evictedKey in entries {
        var evicted := entries[evictedKey];
        entries := entries - {evictedKey};
        bytesUsed := SaturatingSub(bytesUsed, evicted.size);
      }
    }

    /** The eviction loop: until there is room or no slot is left. */
    method MakeRoom(sizeBytes: nat)
      modifies this`entries, this`accessIndex, this`bytesUsed
      ensures State() == Evicted(limits, old(State()), sizeBytes)
    {
      while (bytesUsed + sizeBytes > limits.maxBytes || |entries| >= limits.maxEntries) && accessIndex != map[]
        invariant Evicted(limits, State(), sizeBytes) == Evicted(limits, old(State()), sizeBytes)
        decreases |accessIndex|
      {
        EvictOldest();
      }
    }

    method StoreIfRoom(key: string, entry: Entry)
      modifies this`entries, this`accessIndex, this`bytesUsed
      ensures State() == StoredIfRoom(limits, old(State()), key, entry)
    {
      if bytesUsed + entry.size <= limits.maxBytes && |entries| < limits.maxEntries {
        bytesUsed := bytesUsed + entry.size;
        entries := entries[key := entry];
        accessIndex := accessIndex[entry.lastAccessed := key];
      }
    }

    method Set(toolName: string, arguments: J.Value, result: J.Value, ttl: Option<nat>, now: nat)
      requires Valid()
      modifies this`entries, this`accessIndex, this`bytesUsed
      ensures Valid()
      ensures State() == AfterSet(limits, old(State()), ComputeKey(toolName, arguments), result,
                                  now + (if ttl.Some? then ttl.value else defaultTtl), now)
      ensures StoredAs(ComputeKey(toolName, arguments), result, now, now + (if ttl.Some? then ttl.value else defaultTtl))
      ensures old(Indexed(State())) && limits.maxEntries > 0 && EntrySize(ComputeKey(toolName, arguments), result) <= limits.maxBytes
          ==> ComputeKey(toolName, arguments) in entries
    {
      var key := ComputeKey(toolName, arguments);
      var expiresAt := now + match ttl case Some(t) => t case None => defaultTtl;
      if EntrySize(key, result) <= limits.maxBytes {
        SetStores(limits, State(), key, result, expiresAt, now);
      }
      SetConsistent(limits, State(), key, result, expiresAt, now);
      Put(key, result, expiresAt, now);
    }

    /** The body of `set` once key and deadline are known. */
    method Put(key: string, result: J.Value, expiresAt: nat, now: nat)
      modifies this`entries, this`accessIndex, this`bytesUsed
      ensures State() == AfterSet(limits, old(State()), key, result, expiresAt, now)
    {
      var sizeBytes := EstimatedSize(result) + ByteLength(key);
      if sizeBytes <= limits.maxBytes {
        ghost var before := State();
        RemoveExisting(key);
        assert State() == Removed(before, key);
        MakeRoom(sizeBytes);
        assert State() == Evicted(limits, Removed(before, key), sizeBytes);
        StoreIfRoom(key, Entry(result, sizeBytes, now, expiresAt));
      }
    }

    method Stats() returns (hitCount: nat, missCount: nat, count: nat)
      ensures hitCount == hits && missCount == misses && count == |entries|
    {
      hitCount, missCount, count := hits, misses, |entries|;
    }
  }

  // ---------------------------------------------------------------- what a caller sees

  datatype Request =
    | GetRequest(toolName: string, arguments: J.Value, now: nat)
    | SetRequest(toolName: string, arguments: J.Value, result: J.Value, ttl: Option<nat>, now: nat)

  /** `key` is either gone or what it was, but for its time stamp. */
  predicate GoneOrKept(was: map<string, Entry>, entries: map<string, Entry>, key: string) {
    key in entries ==>
      key in was && entries[key].result == was[key].result && entries[key].expiresAt == was[key].expiresAt
  }

  /** Serve requests one after another; their answers are of no interest here.  An entry that
      none of them sets again is either gone or what it was. */
  method Serve(cache: ToolCache, requests: seq<Request>, ghost toolName: string, ghost arguments: J.Value)
    requires cache.Valid()
    requires forall j | 0 <= j < |requests| && requests[j].SetRequest? ::
      requests[j].toolName != toolName || requests[j].arguments != arguments
    modifies cache
    ensures cache.Valid()
    ensures GoneOrKept(old(cache.entries), cache.entries, ComputeKey(toolName, arguments))
    ensures (forall j | 0 <= j < |requests| :: requests[j].GetRequest?) ==> cache.entries.Keys == old(cache.entries).Keys
  {
    ghost var key := ComputeKey(toolName, arguments);
    for k := 0 to |requests|
      invariant cache.Valid()
      invariant GoneOrKept(old(cache.entries), cache.entries, key)
      invariant (forall j | 0 <= j < k :: requests[j].GetRequest?) ==> cache.entries.Keys == old(cache.entries).Keys
    {
      match requests[k] {
        case GetRequest(tool, args, now) =>
          var answer := cache.Get(tool, args, now);
        case SetRequest(tool, args, result, ttl, now) =>
          ghost var before, other := cache.State(), ComputeKey(tool, args);
          if other == key {
            KeyIdentifiesCall(tool, args, toolName, arguments);
          }
          cache.Set(tool, args, result, ttl, now);
          SetSpares(cache.limits, before, other, result,
                    now + (if ttl.Some? then ttl.value else cache.defaultTtl), now, key);
      }
    }
  }

  /** A call is stored at `now` and asked for again at `later`, with other requests in between.
      Unless it was evicted, it is found exactly until its time to live is over, counted from
      `now`: the one given, or else the cache's own. */
  method SetThenGet(cache: ToolCache, toolName: string, arguments: J.Value, result: J.Value, ttl: Option<nat>,
                    now: nat, requests: seq<Request>, later: nat) returns (r: Option<J.Value>)
    requires cache.Valid()
    requires EstimatedSize(result) + ByteLength(ComputeKey(toolName, arguments)) <= cache.limits.maxBytes
    requires forall j | 0 <= j < |requests| && requests[j].SetRequest? ::
      requests[j].toolName != toolName || requests[j].arguments != arguments
    modifies cache
    ensures cache.Valid()
    ensures ComputeKey(toolName, arguments) in cache.entries ==>
      r == if later < now + (if ttl.Some? then ttl.value else cache.defaultTtl) then Some(result) else None
    ensures ComputeKey(toolName, arguments) !in cache.entries ==> r == None
    ensures Indexed(old(cache.State())) && cache.limits.maxEntries > 0
        && (forall j | 0 <= j < |requests| :: requests[j].GetRequest?)
        ==> ComputeKey(toolName, arguments) in cache.entries
  {
    cache.Set(toolName, arguments, result, ttl, now);
    Serve(cache, requests, toolName, arguments);
    r := cache.Get(toolName, arguments, later);
  }
}

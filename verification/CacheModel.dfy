/** What the tool cache of src/cache.rs does, on values: the key, the sizes, one step of
    `get` and of `set`, and what holds after any sequence of them. */
module CacheModel {
  import opened Basics
  import J = Json

  // ---------------------------------------------------------------- keys and sizes

  function ComputeKey(toolName: string, arguments: J.Value): string { toolName + ":" + J.Text(arguments) }

  /** Different calls never share a key, whatever colons the tool names hold. */
  lemma KeyIdentifiesCall(n: string, a: J.Value, m: string, b: J.Value)
    requires ComputeKey(n, a) == ComputeKey(m, b)
    ensures n == m && a == b
  {
    if |n| == |m| {
      assert n == ComputeKey(n, a)[..|n|] && m == ComputeKey(m, b)[..|m|];
      assert J.Text(a) == ComputeKey(n, a)[|n| + 1..] && J.Text(b) == ComputeKey(m, b)[|m| + 1..];
      assert J.Text(a) + "" == J.Text(a) && J.Text(b) + "" == J.Text(b);
      J.ValueReadable(a, b, "", "");
    } else if |n| < |m| {
      LongerName(n, a, m, b);
    } else {
      LongerName(m, b, n, a);
    }
  }

  lemma LongerName(n: string, a: J.Value, m: string, b: J.Value)
    requires |n| < |m|
    ensures ComputeKey(n, a) != ComputeKey(m, b)
  {
    if ComputeKey(n, a) == ComputeKey(m, b) {
      var key := ComputeKey(n, a);
      var between := m[|n| + 1..];
      assert J.Text(a) == key[|n| + 1..];
      assert m == key[..|m|];
      assert key[|n| + 1..] == between + ":" + J.Text(b);
      J.NoValueAfterColon(a, b, between);
    }
  }

  /** Bytes of one character in UTF-8. */
  function Utf8Length(c: char): nat {
    var n := c as int;
    if n < 0x80 then 1 else if n < 0x800 then 2 else if n < 0x1_0000 then 3 else 4
  }

  function ByteLength(s: string): nat { if s == "" then 0 else Utf8Length(s[0]) + ByteLength(s[1..]) }

  function EstimatedSize(v: J.Value): nat
    decreases v, 1
  {
    match v
    case Null => 8
    case Bool(_) => 8
    case Number(_) => 16
    case String(s) => ByteLength(s) + 24
    case Array(items) => 24 + ItemsSize(items)
    case Object(members) => 24 + MembersSize(members)
  }

  function ItemsSize(items: seq<J.Value>): nat
    decreases items, 0
  {
    if items == [] then 0 else EstimatedSize(items[0]) + ItemsSize(items[1..])
  }

  function MembersSize(members: seq<J.Member>): nat
    decreases members, 0
  {
    if members == [] then 0 else
      var m := members[0];
      assert m.value < m;
      ByteLength(m.key) + 24 + EstimatedSize(m.value) + MembersSize(members[1..])
  }

  // ---------------------------------------------------------------- what the sizes are

  /** The UTF-8 encoding of one character (RFC 3629, section 3), as numbers. */
  function Utf8(c: char): seq<nat> {
    var n := c as int;
    if n < 0x80 then [n]
    else if n < 0x800 then [0xC0 + n / 0x40, 0x80 + n % 0x40]
    else if n < 0x1_0000 then [0xE0 + n / 0x1000, 0x80 + n / 0x40 % 0x40, 0x80 + n % 0x40]
    else [0xF0 + n / 0x4_0000, 0x80 + n / 0x1000 % 0x40, 0x80 + n / 0x40 % 0x40, 0x80 + n % 0x40]
  }

  function Utf8All(s: string): seq<nat> { if s == "" then [] else Utf8(s[0]) + Utf8All(s[1..]) }

  lemma {:induction false} BytesCounted(s: string)
    ensures ByteLength(s) == |Utf8All(s)|
  {
    if s != "" {
      BytesCounted(s[1..]);
    }
  }

  lemma {:induction false} ItemsSizeSplit(a: seq<J.Value>, b: seq<J.Value>)
    ensures ItemsSize(a + b) == ItemsSize(a) + ItemsSize(b)
  {
    if a == [] {
      assert a + b == b;
    } else {
      assert (a + b)[0] == a[0] && (a + b)[1..] == a[1..] + b;
      ItemsSizeSplit(a[1..], b);
    }
  }

  lemma {:induction false} MembersSizeSplit(a: seq<J.Member>, b: seq<J.Member>)
    ensures MembersSize(a + b) == MembersSize(a) + MembersSize(b)
  {
    if a == [] {
      assert a + b == b;
    } else {
      assert (a + b)[0] == a[0] && (a + b)[1..] == a[1..] + b;
      MembersSizeSplit(a[1..], b);
    }
  }

  /** The size of a value, part by part: 8 bytes for null and booleans, 16 for a number, the
      UTF-8 bytes and 24 for a string, 24 for an array or object with nothing in it, and for
      each thing added the size of that thing, with its key and 24 more for a member. */
  lemma SizesAre(text: J.NumberText, s: string, b: bool, items: seq<J.Value>, v: J.Value, members: seq<J.Member>, key: string)
    ensures EstimatedSize(J.Null) == EstimatedSize(J.Bool(b)) == 8 && EstimatedSize(J.Number(text)) == 16
    ensures EstimatedSize(J.String(s)) == |Utf8All(s)| + 24
    ensures EstimatedSize(J.Array([])) == EstimatedSize(J.Object([])) == 24
    ensures EstimatedSize(J.Array(items + [v])) == EstimatedSize(J.Array(items)) + EstimatedSize(v)
    ensures EstimatedSize(J.Object(members + [J.Member(key, v)]))
         == EstimatedSize(J.Object(members)) + |Utf8All(key)| + 24 + EstimatedSize(v)
  {
    BytesCounted(s);
    BytesCounted(key);
    ItemsSizeSplit(items, [v]);
    MembersSizeSplit(members, [J.Member(key, v)]);
    assert [v][1..] == [] && [J.Member(key, v)][1..] == [];
    assert ItemsSize([v]) == EstimatedSize(v);
    assert MembersSize([J.Member(key, v)]) == ByteLength(key) + 24 + EstimatedSize(v);
  }

  // ---------------------------------------------------------------- state

  datatype Entry = Entry(result: J.Value, size: nat, lastAccessed: nat, expiresAt: nat)

  datatype Limits = Limits(maxBytes: nat, maxEntries: nat)

  /** The hash map, the time-ordered index and the byte counter. */
  datatype Cache = Cache(entries: map<string, Entry>, index: map<nat, string>, bytes: nat)

  const EMPTY := Cache(map[], map[], 0)

  function SaturatingSub(a: nat, b: nat): nat { if b <= a then a - b else 0 }

  ghost function Total(entries: map<string, Entry>): nat {
    if entries == map[] then 0 else
      var k :| k in entries;
      entries[k].size + Total(entries - {k})
  }

  lemma {:induction false} TotalRemove(entries: map<string, Entry>, key: string)
    requires key in entries
    ensures Total(entries) == entries[key].size + Total(entries - {key})
  {
    var k :| k in entries && Total(entries) == entries[k].size + Total(entries - {k});
    if k != key {
      TotalRemove(entries - {k}, key);
      TotalRemove(entries - {key}, k);
      assert entries - {k} - {key} == entries - {key} - {k};
    }
  }

  lemma TotalInsert(entries: map<string, Entry>, key: string, e: Entry)
    requires key !in entries
    ensures Total(entries[key := e]) == e.size + Total(entries)
    ensures |entries[key := e]| == |entries| + 1
  {
    TotalRemove(entries[key := e], key);
    assert entries[key := e] - {key} == entries;
  }

  lemma {:induction false} TotalSubmap(part: map<string, Entry>, entries: map<string, Entry>)
    requires forall k | k in part :: k in entries && entries[k] == part[k]
    ensures Total(part) <= Total(entries) && |part| <= |entries|
    decreases |part|
  {
    if k :| k in part {
      TotalRemove(part, k);
      TotalRemove(entries, k);
      assert (part - {k}).Keys == part.Keys - {k} && (entries - {k}).Keys == entries.Keys - {k};
      TotalSubmap(part - {k}, entries - {k});
    }
  }

  lemma TotalRestrict(entries: map<string, Entry>, gone: set<string>)
    ensures Total(entries - gone) <= Total(entries) && |entries - gone| <= |entries|
  {
    TotalSubmap(entries - gone, entries);
  }

  // ---------------------------------------------------------------- one step

  /** The smallest time in the index: `idx.iter().next()` of a `BTreeMap`. */
  ghost function Oldest(index: map<nat, string>): (t: nat)
    requires index != map[]
    ensures t in index && forall u | u in index :: t <= u
  {
    SmallestExists(index.Keys);
    var t :| t in index && forall u | u in index :: t <= u;
    t
  }

  lemma SmallestExists(times: set<nat>)
    requires times != {}
    ensures exists t :: t in times && forall u | u in times :: t <= u
  {
    var t := Smallest(times);
  }

  lemma {:induction false} Smallest(times: set<nat>) returns (t: nat)
    requires times != {}
    ensures t in times && forall u | u in times :: t <= u
  {
    var s :| s in times;
    if times == {s} {
      t := s;
    } else {
      t := Smallest(times - {s});
      if s < t {
        t := s;
      }
      forall u | u in times ensures t <= u {
        assert u == s || u in times - {s};
      }
    }
  }

  /** Take `key` out of the map and its slot out of the index, if it is there. */
  function Removed(c: Cache, key: string): Cache {
    if key !in c.entries then c else
      Cache(c.entries - {key}, c.index - {c.entries[key].lastAccessed},
            SaturatingSub(c.bytes, c.entries[key].size))
  }

  /** One round of the eviction loop. */
  function DropSlot(c: Cache, t: nat): Cache
    requires t in c.index
  {
    var key := c.index[t];
    var rest := c.(index := c.index - {t});
    if key !in c.entries then rest else
      rest.(entries := c.entries - {key}, bytes := SaturatingSub(c.bytes, c.entries[key].size))
  }

  predicate HasRoom(limits: Limits, c: Cache, size: nat) {
    c.bytes + size <= limits.maxBytes && |c.entries| < limits.maxEntries
  }

  ghost function Evicted(limits: Limits, c: Cache, size: nat): Cache
    decreases |c.index|
  {
    if HasRoom(limits, c, size) || c.index == map[] then c else
      assert (c.index - {Oldest(c.index)}).Keys == c.index.Keys - {Oldest(c.index)};
      Evicted(limits, DropSlot(c, Oldest(c.index)), size)
  }

  function Stored(c: Cache, key: string, e: Entry): Cache {
    Cache(c.entries[key := e], c.index[e.lastAccessed := key], c.bytes + e.size)
  }

  function StoredIfRoom(limits: Limits, c: Cache, key: string, e: Entry): Cache {
    if HasRoom(limits, c, e.size) then Stored(c, key, e) else c
  }

  function EntrySize(key: string, result: J.Value): nat { EstimatedSize(result) + ByteLength(key) }

  ghost function AfterSet(limits: Limits, c: Cache, key: string, result: J.Value, expiresAt: nat, now: nat): Cache {
    var size := EntrySize(key, result);
    if size > limits.maxBytes then c else
      StoredIfRoom(limits, Evicted(limits, Removed(c, key), size), key, Entry(result, size, now, expiresAt))
  }

  predicate Hits(c: Cache, key: string, now: nat) { key in c.entries && c.entries[key].expiresAt > now }

  function Found(c: Cache, key: string, now: nat): Option<J.Value> {
    if Hits(c, key, now) then Some(c.entries[key].result) else None
  }

  function AfterGet(c: Cache, key: string, now: nat): Cache {
    if !Hits(c, key, now) then c else
      var e := c.entries[key];
      c.(entries := c.entries[key := e.(lastAccessed := now)],
         index := (c.index - {e.lastAccessed})[now := key])
  }

  // ---------------------------------------------------------------- what every step keeps

  /** Every slot of the index names a live entry stamped with the slot's time. */
  ghost predicate SlotsLive(c: Cache) {
    forall t | t in c.index :: c.index[t] in c.entries && c.entries[c.index[t]].lastAccessed == t
  }

  ghost predicate Consistent(limits: Limits, c: Cache) {
    && SlotsLive(c)
    && c.bytes == Total(c.entries) <= limits.maxBytes
    && |c.entries| <= limits.maxEntries
  }

  lemma RemovedConsistent(limits: Limits, c: Cache, key: string)
    requires Consistent(limits, c)
    ensures Consistent(limits, Removed(c, key))
    ensures Removed(c, key).entries == c.entries - {key}
    ensures key in c.entries ==> c.entries[key].size <= c.bytes
  {
    if key in c.entries {
      TotalRemove(c.entries, key);
      TotalRestrict(c.entries, {key});
    } else {
      assert c.entries - {key} == c.entries;
    }
  }

  /** A round of the loop drops a live entry, and its subtraction does not saturate. */
  lemma DropConsistent(limits: Limits, c: Cache, t: nat)
    requires Consistent(limits, c) && t in c.index
    ensures Consistent(limits, DropSlot(c, t))
    ensures DropSlot(c, t).entries == c.entries - {c.index[t]}
    ensures c.entries[c.index[t]].size <= c.bytes
  {
    TotalRemove(c.entries, c.index[t]);
    TotalRestrict(c.entries, {c.index[t]});
  }

  lemma {:induction false} EvictedConsistent(limits: Limits, c: Cache, size: nat)
    requires Consistent(limits, c)
    ensures Consistent(limits, Evicted(limits, c, size))
    ensures Evicted(limits, c, size).entries.Keys <= c.entries.Keys
    ensures forall k | k in Evicted(limits, c, size).entries :: Evicted(limits, c, size).entries[k] == c.entries[k]
    ensures HasRoom(limits, Evicted(limits, c, size), size) || Evicted(limits, c, size).index == map[]
    decreases |c.index|
  {
    if !HasRoom(limits, c, size) && c.index != map[] {
      var t := Oldest(c.index);
      DropConsistent(limits, c, t);
      assert (c.index - {t}).Keys == c.index.Keys - {t};
      EvictedConsistent(limits, DropSlot(c, t), size);
    }
  }

  lemma SetConsistent(limits: Limits, c: Cache, key: string, result: J.Value, expiresAt: nat, now: nat)
    requires Consistent(limits, c)
    ensures Consistent(limits, AfterSet(limits, c, key, result, expiresAt, now))
  {
    var size := EntrySize(key, result);
    RemovedConsistent(limits, c, key);
    EvictedConsistent(limits, Removed(c, key), size);
    var room := Evicted(limits, Removed(c, key), size);
    if size <= limits.maxBytes && HasRoom(limits, room, size) {
      StoredConsistent(limits, room, key, Entry(result, size, now, expiresAt));
    }
  }

  lemma StoredConsistent(limits: Limits, c: Cache, key: string, e: Entry)
    requires Consistent(limits, c) && key !in c.entries && HasRoom(limits, c, e.size)
    ensures Consistent(limits, Stored(c, key, e))
  {
    TotalInsert(c.entries, key, e);
  }

  lemma TotalRestamp(entries: map<string, Entry>, key: string, now: nat)
    requires key in entries
    ensures Total(entries[key := entries[key].(lastAccessed := now)]) == Total(entries)
    ensures |entries[key := entries[key].(lastAccessed := now)]| == |entries|
  {
    var stamped := entries[key := entries[key].(lastAccessed := now)];
    TotalRemove(entries, key);
    TotalRemove(stamped, key);
    assert stamped - {key} == entries - {key};
    assert stamped.Keys == entries.Keys;
    assert |stamped| == |stamped.Keys| && |entries| == |entries.Keys|;
  }

  lemma GetConsistent(limits: Limits, c: Cache, key: string, now: nat)
    requires Consistent(limits, c)
    ensures Consistent(limits, AfterGet(c, key, now))
  {
    if Hits(c, key, now) {
      TotalRestamp(c.entries, key, now);
    }
  }

  // ---------------------------------------------------------------- runs

  datatype Op =
    | GetOp(key: string, now: nat)
    | SetOp(key: string, result: J.Value, expiresAt: nat, now: nat)

  ghost function After(limits: Limits, c: Cache, op: Op): Cache {
    match op
    case GetOp(key, now) => AfterGet(c, key, now)
    case SetOp(key, result, expiresAt, now) => AfterSet(limits, c, key, result, expiresAt, now)
  }

  ghost function Run(limits: Limits, ops: seq<Op>): Cache {
    if ops == [] then EMPTY else After(limits, Run(limits, ops[..|ops| - 1]), ops[|ops| - 1])
  }

  /** Every reachable cache agrees with itself, on any clock, ties and all. */
  lemma {:induction false} RunConsistent(limits: Limits, ops: seq<Op>)
    ensures Consistent(limits, Run(limits, ops))
  {
    if ops != [] {
      var before := Run(limits, ops[..|ops| - 1]);
      RunConsistent(limits, ops[..|ops| - 1]);
      match ops[|ops| - 1]
      case GetOp(key, now) => GetConsistent(limits, before, key, now);
      case SetOp(key, result, expiresAt, now) => SetConsistent(limits, before, key, result, expiresAt, now);
    }
  }

  // ---------------------------------------------------------------- a plain map with expiry

  datatype Written = Written(result: J.Value, expiresAt: nat)

  /** The last `set` of `key` that was not refused as oversized. */
  function LastWritten(limits: Limits, ops: seq<Op>, key: string): Option<Written> {
    if ops == [] then None else
      var op := ops[|ops| - 1];
      if op.SetOp? && op.key == key && EntrySize(key, op.result) <= limits.maxBytes
      then Some(Written(op.result, op.expiresAt))
      else LastWritten(limits, ops[..|ops| - 1], key)
  }

  ghost predicate Agrees(limits: Limits, ops: seq<Op>, c: Cache) {
    forall k | k in c.entries ::
      LastWritten(limits, ops, k) == Some(Written(c.entries[k].result, c.entries[k].expiresAt))
  }

  lemma {:induction false} RunAgrees(limits: Limits, ops: seq<Op>)
    ensures Agrees(limits, ops, Run(limits, ops))
  {
    if ops != [] {
      var init, op := ops[..|ops| - 1], ops[|ops| - 1];
      RunAgrees(limits, init);
      RunConsistent(limits, init);
      var before := Run(limits, init);
      if op.SetOp? {
        var size := EntrySize(op.key, op.result);
        RemovedConsistent(limits, before, op.key);
        EvictedConsistent(limits, Removed(before, op.key), size);
      }
    }
  }

  /** A hit returns the value of the last `set` of that key that was not refused as
      oversized, and only while that value has not expired. */
  lemma HitIsLastWritten(limits: Limits, ops: seq<Op>, key: string, now: nat)
    requires Found(Run(limits, ops), key, now).Some?
    ensures LastWritten(limits, ops, key).Some?
    ensures Found(Run(limits, ops), key, now) == Some(LastWritten(limits, ops, key).value.result)
    ensures now < LastWritten(limits, ops, key).value.expiresAt
  {
    RunAgrees(limits, ops);
  }

  /** When `key` was last stored or hit: a get counts while the value has not expired. */
  function LastUse(limits: Limits, ops: seq<Op>, key: string): Option<nat> {
    if ops == [] then None else
      var init, op := ops[..|ops| - 1], ops[|ops| - 1];
      match op
      case SetOp(k, result, _, now) =>
        if k == key && EntrySize(k, result) <= limits.maxBytes then Some(now) else LastUse(limits, init, key)
      case GetOp(k, now) =>
        var written := LastWritten(limits, init, key);
        if k == key && written.Some? && written.value.expiresAt > now then Some(now) else LastUse(limits, init, key)
  }

  /** The time stamps that order eviction are the times of last use. */
  lemma {:induction false} StampIsLastUse(limits: Limits, ops: seq<Op>, key: string)
    requires key in Run(limits, ops).entries
    ensures LastUse(limits, ops, key) == Some(Run(limits, ops).entries[key].lastAccessed)
  {
    var init, op := ops[..|ops| - 1], ops[|ops| - 1];
    RunAgrees(limits, init);
    RunConsistent(limits, init);
    var before := Run(limits, init);
    match op
    case GetOp(_, _) =>
      StampIsLastUse(limits, init, key);
    case SetOp(k, result, expiresAt, now) =>
      SetSpares(limits, before, k, result, expiresAt, now, key);
      if key in before.entries {
        StampIsLastUse(limits, init, key);
      }
  }

  /** A `set` either rewrites its own entry or leaves a surviving entry alone. */
  lemma SetSpares(limits: Limits, c: Cache, key: string, result: J.Value, expiresAt: nat, now: nat, other: string)
    requires Consistent(limits, c)
    ensures var c' := AfterSet(limits, c, key, result, expiresAt, now);
      other in c'.entries ==>
        if other == key && EntrySize(key, result) <= limits.maxBytes
        then c'.entries[other].lastAccessed == now
        else other in c.entries && c'.entries[other] == c.entries[other]
  {
    RemovedConsistent(limits, c, key);
    EvictedConsistent(limits, Removed(c, key), EntrySize(key, result));
  }

  // ---------------------------------------------------------------- least recently used

  /** Every entry owns the slot of its time stamp. */
  ghost predicate Indexed(c: Cache) {
    forall k | k in c.entries :: c.entries[k].lastAccessed in c.index && c.index[c.entries[k].lastAccessed] == k
  }

  /** `p` is a set of least recently used keys: older than every other key. */
  ghost predicate LruPrefix(entries: map<string, Entry>, p: set<string>) {
    && (forall v | v in p :: v in entries)
    && forall v, s | v in p && s in entries && s !in p :: entries[v].lastAccessed < entries[s].lastAccessed
  }

  ghost predicate MakesRoom(limits: Limits, entries: map<string, Entry>, p: set<string>, size: nat) {
    Total(entries - p) + size <= limits.maxBytes && |entries - p| < limits.maxEntries
  }

  lemma DropIndexed(limits: Limits, c: Cache)
    requires Consistent(limits, c) && Indexed(c) && c.index != map[]
    ensures Indexed(DropSlot(c, Oldest(c.index)))
    ensures LruPrefix(c.entries, {c.index[Oldest(c.index)]})
  {
  }

  /** What eviction removes is a least-recently-used prefix. */
  lemma {:induction false} EvictsPrefix(limits: Limits, c: Cache, size: nat)
    requires Consistent(limits, c) && Indexed(c)
    ensures LruPrefix(c.entries, c.entries.Keys - Evicted(limits, c, size).entries.Keys)
    ensures Evicted(limits, c, size).entries
         == c.entries - (c.entries.Keys - Evicted(limits, c, size).entries.Keys)
    ensures Indexed(Evicted(limits, c, size))
    decreases |c.index|
  {
    var out := Evicted(limits, c, size).entries;
    if HasRoom(limits, c, size) || c.index == map[] {
    } else {
      var t := Oldest(c.index);
      var next := DropSlot(c, t);
      DropConsistent(limits, c, t);
      DropIndexed(limits, c);
      assert (c.index - {t}).Keys == c.index.Keys - {t};
      EvictsPrefix(limits, next, size);
      EvictedConsistent(limits, next, size);
      PrefixExtends(c.entries, c.index[t], out);
    }
  }

  lemma PrefixExtends(entries: map<string, Entry>, key: string, out: map<string, Entry>)
    requires key in entries && LruPrefix(entries, {key})
    requires var next := entries - {key};
      out.Keys <= next.Keys && LruPrefix(next, next.Keys - out.Keys) && out == next - (next.Keys - out.Keys)
    ensures LruPrefix(entries, entries.Keys - out.Keys) && out == entries - (entries.Keys - out.Keys)
  {
    var next := entries - {key};
    forall v, s | v in entries.Keys - out.Keys && s in out.Keys
      ensures entries[v].lastAccessed < entries[s].lastAccessed
    {
      if v != key {
        assert v in next.Keys - out.Keys && s in next.Keys - (next.Keys - out.Keys);
        assert next[v].lastAccessed < next[s].lastAccessed;
      }
    }
  }

  /** It is the shortest one: any other prefix that makes room contains every victim. */
  lemma {:induction false} EvictsShortest(limits: Limits, c: Cache, size: nat, other: set<string>, victim: string)
    requires Consistent(limits, c) && Indexed(c)
    requires LruPrefix(c.entries, other) && MakesRoom(limits, c.entries, other, size)
    requires victim in c.entries && victim !in Evicted(limits, c, size).entries
    ensures victim in other
    decreases |c.index|
  {
    var t := Oldest(c.index);
    ShortestStep(limits, c, t, size, other);
    var key, next := c.index[t], DropSlot(c, t);
    if victim != key {
      EvictsShortest(limits, next, size, other - {key}, victim);
    }
  }

  lemma SlotDropped(c: Cache, t: nat)
    requires t in c.index
    ensures |DropSlot(c, t).index| < |c.index|
  {
    assert (c.index - {t}).Keys == c.index.Keys - {t};
  }

  lemma ShortestStep(limits: Limits, c: Cache, t: nat, size: nat, other: set<string>)
    requires Consistent(limits, c) && Indexed(c) && !HasRoom(limits, c, size)
    requires c.index != map[] && t == Oldest(c.index)
    requires LruPrefix(c.entries, other) && MakesRoom(limits, c.entries, other, size)
    ensures var next, key := DropSlot(c, t), c.index[t];
      && Consistent(limits, next) && Indexed(next) && key in other && |next.index| < |c.index|
      && next.entries == c.entries - {key}
      && LruPrefix(next.entries, other - {key}) && MakesRoom(limits, next.entries, other - {key}, size)
  {
    SlotDropped(c, t);
    DropConsistent(limits, c, t);
    DropIndexed(limits, c);
    PrefixStep(limits, c, DropSlot(c, t), c.index[t], size, other);
  }

  lemma NotEmpty(limits: Limits, c: Cache, size: nat, other: set<string>)
    requires Consistent(limits, c) && !HasRoom(limits, c, size) && MakesRoom(limits, c.entries, other, size)
    ensures other != {}
  {
    assert c.entries - {} == c.entries;
  }

  lemma PrefixStep(limits: Limits, c: Cache, next: Cache, key: string, size: nat, other: set<string>)
    requires Consistent(limits, c) && !HasRoom(limits, c, size)
    requires key in c.entries && next.entries == c.entries - {key} && LruPrefix(c.entries, {key})
    requires LruPrefix(c.entries, other) && MakesRoom(limits, c.entries, other, size)
    ensures key in other
    ensures LruPrefix(next.entries, other - {key}) && MakesRoom(limits, next.entries, other - {key}, size)
  {
    NotEmpty(limits, c, size, other);
    OldestInPrefix(c.entries, key, other);
  }

  lemma OldestInPrefix(entries: map<string, Entry>, key: string, other: set<string>)
    requires key in entries && LruPrefix(entries, {key}) && LruPrefix(entries, other) && other != {}
    ensures key in other
    ensures LruPrefix(entries - {key}, other - {key})
    ensures (entries - {key}) - (other - {key}) == entries - other
  {
    var v :| v in other;
    assert v != key ==> entries[key].lastAccessed < entries[v].lastAccessed;
  }

  /** With every entry in the index, eviction always makes room for what can fit at all. */
  lemma EvictionMakesRoom(limits: Limits, c: Cache, size: nat)
    requires Consistent(limits, c) && Indexed(c) && size <= limits.maxBytes && limits.maxEntries > 0
    ensures HasRoom(limits, Evicted(limits, c, size), size)
  {
    EvictedConsistent(limits, c, size);
    EvictsPrefix(limits, c, size);
    var e := Evicted(limits, c, size);
    if e.index == map[] {
      assert e.entries == map[];
    }
  }

  ghost predicate StampsBefore(c: Cache, now: nat) {
    && (forall t | t in c.index :: t < now)
    && (forall k | k in c.entries :: c.entries[k].lastAccessed < now)
  }

  /** The bargain of one `set`: exactly `key` is (re)written; the victims are a least
      recently used prefix of its rivals that makes room, and no shorter one does. */
  ghost predicate FairSet(limits: Limits, c: Cache, c': Cache, key: string, e: Entry, other: set<string>) {
    var rivals := c.entries - {key};
    var victims := rivals.Keys - c'.entries.Keys;
    && c'.entries == (rivals - victims)[key := e]
    && LruPrefix(rivals, victims)
    && MakesRoom(limits, rivals, victims, e.size)
    && (LruPrefix(rivals, other) && MakesRoom(limits, rivals, other, e.size) ==> victims <= other)
  }

  /** One `set` of something that can fit at all, while every entry owns its slot. */
  lemma SetIsFair(limits: Limits, c: Cache, key: string, result: J.Value, expiresAt: nat, now: nat, other: set<string>)
    requires Consistent(limits, c) && Indexed(c)
    requires EntrySize(key, result) <= limits.maxBytes && limits.maxEntries > 0
    ensures FairSet(limits, c, AfterSet(limits, c, key, result, expiresAt, now), key,
                    Entry(result, EntrySize(key, result), now, expiresAt), other)
  {
    var e := Entry(result, EntrySize(key, result), now, expiresAt);
    var start := Removed(c, key);
    var room := Evicted(limits, start, e.size);
    RemovedConsistent(limits, c, key);
    RemovedIndexed(c, key);
    EvictionMakesRoom(limits, start, e.size);
    EvictedConsistent(limits, start, e.size);
    EvictsPrefix(limits, start, e.size);
    forall k | k in start.entries && k !in room.entries && LruPrefix(start.entries, other) && MakesRoom(limits, start.entries, other, e.size)
      ensures k in other
    {
      EvictsShortest(limits, start, e.size, other, k);
    }
    FairlyStored(limits, c, start.entries, room, key, e, other);
  }

  lemma FairlyStored(limits: Limits, c: Cache, rivals: map<string, Entry>, room: Cache, key: string, e: Entry, other: set<string>)
    requires rivals == c.entries - {key} && room.entries == rivals - (rivals.Keys - room.entries.Keys)
    requires room.bytes == Total(room.entries) && HasRoom(limits, room, e.size)
    requires LruPrefix(rivals, rivals.Keys - room.entries.Keys)
    requires LruPrefix(rivals, other) && MakesRoom(limits, rivals, other, e.size)
        ==> forall k | k in rivals && k !in room.entries :: k in other
    ensures FairSet(limits, c, Stored(room, key, e), key, e, other)
  {
    assert rivals.Keys - Stored(room, key, e).entries.Keys == rivals.Keys - room.entries.Keys;
  }

  lemma RemovedIndexed(c: Cache, key: string)
    requires SlotsLive(c) && Indexed(c)
    ensures Indexed(Removed(c, key))
  {
  }

  lemma {:induction false} EvictedStamps(limits: Limits, c: Cache, size: nat, now: nat)
    requires Consistent(limits, c) && StampsBefore(c, now)
    ensures StampsBefore(Evicted(limits, c, size), now)
    decreases |c.index|
  {
    if !HasRoom(limits, c, size) && c.index != map[] {
      var t := Oldest(c.index);
      DropConsistent(limits, c, t);
      assert (c.index - {t}).Keys == c.index.Keys - {t};
      EvictedStamps(limits, DropSlot(c, t), size, now);
    }
  }

  ghost predicate StrictClock(ops: seq<Op>) {
    forall i, j | 0 <= i < j < |ops| :: ops[i].now < ops[j].now
  }

  /** On a strictly increasing clock no entry ever loses its slot. */
  lemma {:induction false} StrictRunIndexed(limits: Limits, ops: seq<Op>, now: nat)
    requires StrictClock(ops) && forall i | 0 <= i < |ops| :: ops[i].now < now
    ensures Indexed(Run(limits, ops)) && StampsBefore(Run(limits, ops), now)
  {
    if ops != [] {
      var init, op := ops[..|ops| - 1], ops[|ops| - 1];
      assert forall i | 0 <= i < |init| :: init[i] == ops[i];
      StrictRunIndexed(limits, init, op.now);
      RunConsistent(limits, init);
      StepIndexed(limits, Run(limits, init), op);
      assert StampsBefore(After(limits, Run(limits, init), op), now);
    }
  }

  lemma StepIndexed(limits: Limits, c: Cache, op: Op)
    requires Consistent(limits, c) && Indexed(c) && StampsBefore(c, op.now)
    ensures Indexed(After(limits, c, op)) && StampsBefore(After(limits, c, op), op.now + 1)
  {
    match op
    case GetOp(key, now) =>
      if Hits(c, key, now) {
        HitIndexed(c, key, now);
      }
    case SetOp(key, result, expiresAt, now) =>
      SetStepIndexed(limits, c, key, result, expiresAt, now);
  }

  lemma SetStepIndexed(limits: Limits, c: Cache, key: string, result: J.Value, expiresAt: nat, now: nat)
    requires Consistent(limits, c) && Indexed(c) && StampsBefore(c, now)
    ensures var c' := AfterSet(limits, c, key, result, expiresAt, now); Indexed(c') && StampsBefore(c', now + 1)
  {
    var e := Entry(result, EntrySize(key, result), now, expiresAt);
    if e.size > limits.maxBytes {
      assert AfterSet(limits, c, key, result, expiresAt, now) == c;
    } else {
      RemovedConsistent(limits, c, key);
      RemovedIndexed(c, key);
      SetIndexed(limits, Removed(c, key), key, e);
    }
  }

  lemma SetIndexed(limits: Limits, c: Cache, key: string, e: Entry)
    requires Consistent(limits, c) && Indexed(c) && StampsBefore(c, e.lastAccessed) && key !in c.entries
    ensures var c' := StoredIfRoom(limits, Evicted(limits, c, e.size), key, e);
      Indexed(c') && StampsBefore(c', e.lastAccessed + 1)
  {
    EvictedIndexed(limits, c, e.size, e.lastAccessed, key);
    StoredIndexed(Evicted(limits, c, e.size), key, e);
  }

  lemma HitIndexed(c: Cache, key: string, now: nat)
    requires SlotsLive(c) && Indexed(c) && StampsBefore(c, now) && Hits(c, key, now)
    ensures Indexed(AfterGet(c, key, now)) && StampsBefore(AfterGet(c, key, now), now + 1)
  {
  }

  lemma EvictedIndexed(limits: Limits, c: Cache, size: nat, now: nat, key: string)
    requires Consistent(limits, c) && Indexed(c) && StampsBefore(c, now) && key !in c.entries
    ensures var e := Evicted(limits, c, size); Indexed(e) && StampsBefore(e, now) && key !in e.entries
  {
    EvictsPrefix(limits, c, size);
    EvictedStamps(limits, c, size, now);
    EvictedConsistent(limits, c, size);
  }

  lemma StoredIndexed(c: Cache, key: string, e: Entry)
    requires Indexed(c) && StampsBefore(c, e.lastAccessed) && key !in c.entries
    ensures Indexed(Stored(c, key, e)) && StampsBefore(Stored(c, key, e), e.lastAccessed + 1)
    ensures StampsBefore(c, e.lastAccessed + 1)
  {
  }

  /** On a strictly increasing clock every `set` that fits is stored, at the cost of exactly
      the shortest least-recently-used prefix of the other entries. */
  lemma StrictSet(limits: Limits, ops: seq<Op>, op: Op, other: set<string>)
    requires op.SetOp? && StrictClock(ops + [op])
    requires EntrySize(op.key, op.result) <= limits.maxBytes && limits.maxEntries > 0
    ensures FairSet(limits, Run(limits, ops), Run(limits, ops + [op]), op.key,
                    Entry(op.result, EntrySize(op.key, op.result), op.now, op.expiresAt), other)
  {
    var all := ops + [op];
    assert all[..|all| - 1] == ops && all[|all| - 1] == op;
    forall i | 0 <= i < |ops| ensures ops[i].now < op.now {
      assert all[i] == ops[i];
    }
    assert StrictClock(ops) by {
      assert forall i | 0 <= i < |ops| :: all[i] == ops[i];
    }
    StrictRunIndexed(limits, ops, op.now);
    RunConsistent(limits, ops);
    SetIsFair(limits, Run(limits, ops), op.key, op.result, op.expiresAt, op.now, other);
  }

  // ---------------------------------------------------------------- hits happen

  /** After a `set` that is not refused as oversized, the key is absent or newly written; it is
      written if every entry owns its slot. */
  lemma SetStores(limits: Limits, c: Cache, key: string, result: J.Value, expiresAt: nat, now: nat)
    requires Consistent(limits, c) && EntrySize(key, result) <= limits.maxBytes
    ensures var c' := AfterSet(limits, c, key, result, expiresAt, now);
      && (key in c'.entries ==> c'.entries[key] == Entry(result, EntrySize(key, result), now, expiresAt))
      && (Indexed(c) && limits.maxEntries > 0 ==> key in c'.entries)
  {
    RemovedConsistent(limits, c, key);
    EvictedConsistent(limits, Removed(c, key), EntrySize(key, result));
    if Indexed(c) && limits.maxEntries > 0 {
      SetIsFair(limits, c, key, result, expiresAt, now, {});
    }
  }

  ghost predicate NoSetOf(limits: Limits, ops: seq<Op>, key: string) {
    forall j | 0 <= j < |ops| && ops[j].SetOp? && ops[j].key == key :: EntrySize(key, ops[j].result) > limits.maxBytes
  }

  /** Every `set` among `ops` leaves `key` in the cache that `before` leads to. */
  ghost predicate Spared(limits: Limits, before: seq<Op>, ops: seq<Op>, key: string) {
    forall j | 0 <= j < |ops| && ops[j].SetOp? :: key in Run(limits, before + ops[..j + 1]).entries
  }

  lemma RunSnoc(limits: Limits, ops: seq<Op>, op: Op)
    ensures Run(limits, ops + [op]) == After(limits, Run(limits, ops), op)
  {
    var all := ops + [op];
    assert all[..|all| - 1] == ops && all[|all| - 1] == op;
  }

  lemma SparedInit(limits: Limits, before: seq<Op>, ops: seq<Op>, key: string)
    requires ops != [] && Spared(limits, before, ops, key)
    ensures Spared(limits, before, ops[..|ops| - 1], key)
    ensures ops[|ops| - 1].SetOp? ==> key in Run(limits, before + ops).entries
  {
    var init := ops[..|ops| - 1];
    assert ops[..(|ops| - 1) + 1] == ops;
    forall j | 0 <= j < |init| && init[j].SetOp? ensures key in Run(limits, before + init[..j + 1]).entries {
      assert init[j] == ops[j] && init[..j + 1] == ops[..j + 1];
    }
  }

  lemma {:induction false} StaysStored(limits: Limits, before: seq<Op>, ops: seq<Op>, key: string)
    requires key in Run(limits, before).entries && Spared(limits, before, ops, key)
    ensures key in Run(limits, before + ops).entries
    decreases |ops|
  {
    if ops == [] {
      assert before + ops == before;
    } else {
      var init, op := ops[..|ops| - 1], ops[|ops| - 1];
      SparedInit(limits, before, ops, key);
      if op.GetOp? {
        StaysStored(limits, before, init, key);
        RunSnoc(limits, before + init, op);
        assert before + ops == (before + init) + [op];
      }
    }
  }

  lemma {:induction false} StillLastWritten(limits: Limits, before: seq<Op>, ops: seq<Op>, key: string)
    requires NoSetOf(limits, ops, key)
    ensures LastWritten(limits, before + ops, key) == LastWritten(limits, before, key)
    decreases |ops|
  {
    if ops == [] {
      assert before + ops == before;
    } else {
      var init, all := ops[..|ops| - 1], before + ops;
      assert forall j | 0 <= j < |init| :: init[j] == ops[j];
      StillLastWritten(limits, before, init, key);
      assert all[..|all| - 1] == before + init && all[|all| - 1] == ops[|ops| - 1];
    }
  }

  /** A `set` that fits is a hit until it expires, and never after: on a strictly increasing
      clock, whatever was done before, and whatever is done next that neither evicts nor
      replaces the entry. */
  lemma HitUntilExpiry(limits: Limits, before: seq<Op>, op: Op, next: seq<Op>, now: nat)
    requires op.SetOp? && StrictClock(before + [op])
    requires EntrySize(op.key, op.result) <= limits.maxBytes && limits.maxEntries > 0
    requires NoSetOf(limits, next, op.key) && Spared(limits, before + [op], next, op.key)
    ensures Found(Run(limits, before + [op] + next), op.key, now) == if now < op.expiresAt then Some(op.result) else None
  {
    var first, all := before + [op], before + [op] + next;
    StrictSet(limits, before, op, {});
    StaysStored(limits, first, next, op.key);
    StillLastWritten(limits, first, next, op.key);
    assert first[..|first| - 1] == before && first[|first| - 1] == op;
    RunAgrees(limits, all);
    assert LastWritten(limits, first, op.key) == Some(Written(op.result, op.expiresAt));
  }

  // ---------------------------------------------------------------- ties

  /** The entries that own no slot: eviction cannot reach them. */
  ghost function Orphans(c: Cache): map<string, Entry> {
    map k | k in c.entries && k !in c.index.Values :: c.entries[k]
  }

  lemma {:induction false} EvictionSparesOrphans(limits: Limits, c: Cache, size: nat)
    requires Consistent(limits, c)
    ensures HasRoom(limits, Evicted(limits, c, size), size)
       <==> Total(Orphans(c)) + size <= limits.maxBytes && |Orphans(c)| < limits.maxEntries
    decreases |c.index|
  {
    if HasRoom(limits, c, size) {
      OrphansFit(limits, c, size);
    } else if c.index == map[] {
      assert Orphans(c) == c.entries;
    } else {
      var t := Oldest(c.index);
      DropConsistent(limits, c, t);
      SlotDropped(c, t);
      OrphansKept(c, t);
      EvictionSparesOrphans(limits, DropSlot(c, t), size);
    }
  }

  lemma OrphansFit(limits: Limits, c: Cache, size: nat)
    requires Consistent(limits, c) && HasRoom(limits, c, size)
    ensures Total(Orphans(c)) + size <= limits.maxBytes && |Orphans(c)| < limits.maxEntries
  {
    TotalSubmap(Orphans(c), c.entries);
  }

  lemma OrphansKept(c: Cache, t: nat)
    requires SlotsLive(c) && t in c.index
    ensures Orphans(DropSlot(c, t)) == Orphans(c)
  {
    var d := DropSlot(c, t);
    forall k | k in c.entries && k != c.index[t] ensures k in c.index.Values <==> k in d.index.Values {
      if k in c.index.Values {
        var u :| u in c.index && c.index[u] == k;
        assert u in d.index && d.index[u] == k;
      }
      if k in d.index.Values {
        var u :| u in d.index && d.index[u] == k;
        assert u in c.index && c.index[u] == k;
      }
    }
    assert c.index[t] in c.index.Values;
  }

  /** On any clock: a `set` that fits is stored exactly when the entries that lost their
      slot, other than the one it replaces, leave room for it. */
  lemma StoredIffOrphansLeaveRoom(limits: Limits, c: Cache, key: string, result: J.Value, expiresAt: nat, now: nat)
    requires Consistent(limits, c) && EntrySize(key, result) <= limits.maxBytes
    ensures key in AfterSet(limits, c, key, result, expiresAt, now).entries
       <==> (var o := Orphans(Removed(c, key));
             Total(o) + EntrySize(key, result) <= limits.maxBytes && |o| < limits.maxEntries)
  {
    RemovedConsistent(limits, c, key);
    EvictedConsistent(limits, Removed(c, key), EntrySize(key, result));
    EvictionSparesOrphans(limits, Removed(c, key), EntrySize(key, result));
  }

  lemma SetWithRoom(limits: Limits, c: Cache, key: string, result: J.Value, expiresAt: nat, now: nat)
    requires key !in c.entries && HasRoom(limits, c, EntrySize(key, result))
    ensures AfterSet(limits, c, key, result, expiresAt, now)
         == Stored(c, key, Entry(result, EntrySize(key, result), now, expiresAt))
  {
  }

  /** The cache after two sets at time 5. */
  function Tied(a: string, b: string): Cache {
    Cache(map[a := NullEntry(a), b := NullEntry(b)], map[5 := b], NullEntry(a).size + NullEntry(b).size)
  }

  function NullEntry(key: string): Entry { Entry(J.Null, EntrySize(key, J.Null), 5, 100) }

  lemma TiedRun(limits: Limits, a: string, b: string)
    requires a != b && limits.maxEntries > 1 && limits.maxBytes >= 16 + ByteLength(a) + ByteLength(b)
    ensures Run(limits, [SetOp(a, J.Null, 100, 5), SetOp(b, J.Null, 100, 5)]) == Tied(a, b)
  {
    var ops := [SetOp(a, J.Null, 100, 5), SetOp(b, J.Null, 100, 5)];
    assert ops[..1] == [SetOp(a, J.Null, 100, 5)] && ops[..1][..0] == [];
    var one := Cache(map[a := NullEntry(a)], map[5 := a], NullEntry(a).size);
    SetWithRoom(limits, EMPTY, a, J.Null, 100, 5);
    assert Run(limits, ops[..1]) == one;
    SetWithRoom(limits, one, b, J.Null, 100, 5);
  }

  lemma TiedOrphan(a: string, b: string)
    requires a != b
    ensures Orphans(Tied(a, b)) == map[a := NullEntry(a)] && Total(Orphans(Tied(a, b))) == NullEntry(a).size
  {
    var slots: map<nat, string> := map[5 := b];
    assert slots[5] == b;
    assert b in slots.Values && a !in slots.Values;
    var single := map[a := NullEntry(a)];
    TotalRemove(single, a);
    assert single - {a} == map[];
  }

  lemma TiedConsistent(limits: Limits, a: string, b: string)
    requires a != b && limits.maxEntries > 1 && limits.maxBytes >= 16 + ByteLength(a) + ByteLength(b)
    ensures Consistent(limits, Tied(a, b))
  {
    var none: map<string, Entry> := map[];
    TotalInsert(none, a, NullEntry(a));
    TotalInsert(none[a := NullEntry(a)], b, NullEntry(b));
    assert Tied(a, b).entries == none[a := NullEntry(a)][b := NullEntry(b)];
  }

  /** After two sets at one time the first entry has lost its slot, eviction can no longer
      reach it, and a third `set` is refused although it fits the limits. */
  lemma TiedRefuses(limits: Limits, a: string, b: string, d: string)
    requires a != b && d != a && d != b && limits.maxEntries > 1
    requires 16 + ByteLength(a) + ByteLength(b) <= limits.maxBytes
    requires EntrySize(d, J.Null) <= limits.maxBytes < 16 + ByteLength(a) + ByteLength(d)
    ensures d !in AfterSet(limits, Tied(a, b), d, J.Null, 100, 6).entries
  {
    TiedConsistent(limits, a, b);
    TiedOrphan(a, b);
    assert Removed(Tied(a, b), d) == Tied(a, b);
    StoredIffOrphansLeaveRoom(limits, Tied(a, b), d, J.Null, 100, 6);
  }
}

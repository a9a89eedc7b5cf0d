/** The filter-result cache and the index from rooms to cache keys that invalidation relies on. */
module FilterCache {
  import opened Prelude

  datatype Event = Event(id: string)

  /** A filter as far as the cache is concerned: its hash and the rooms it names. */
  datatype Filter = Filter(hash: string, rooms: Option<seq<string>>)

  type Results = map<string, seq<Event>>
  type Index = map<string, seq<string>>

  datatype Cache = Cache(compiled: map<string, Filter>, results: Results, index: Index)

  const EMPTY := Cache(map[], map[], map[])

  predicate HexChar(c: char) {
    '0' <= c <= '9' || 'a' <= c <= 'f'
  }

  /** A hash as `format!("{:x}", ...)` prints it. */
  predicate IsHash(s: string) {
    s != "" && forall i :: 0 <= i < |s| ==> HexChar(s[i])
  }

  /** `format!("{}:{}", filter_hash, room_id)`. */
  function Key(hash: string, room: string): string {
    hash + ":" + room
  }

  function Push(index: Index, room: string, key: string): Index {
    index[room := (if room in index then index[room] else []) + [key]]
  }

  function PushAll(index: Index, rooms: seq<string>, key: string): Index {
    if rooms == [] then index else Push(PushAll(index, rooms[..|rooms| - 1], key), rooms[|rooms| - 1], key)
  }

  // ---------- operations ----------

  function Compile(c: Cache, f: Filter): Cache {
    if f.hash in c.compiled then c
    else
      c.(compiled := c.compiled[f.hash := f],
         index := if f.rooms.Some? then PushAll(c.index, f.rooms.value, f.hash) else c.index)
  }

  function Store(c: Cache, hash: string, room: string, events: seq<Event>): Cache {
    c.(results := c.results[Key(hash, room) := events], index := Push(c.index, room, Key(hash, room)))
  }

  function Lookup(c: Cache, hash: string, room: string): Option<seq<Event>> {
    if Key(hash, room) in c.results then Some(c.results[Key(hash, room)]) else None
  }

  function Invalidate(c: Cache, room: string): Cache {
    if room in c.index then c.(results := c.results - (set k | k in c.index[room]), index := c.index - {room}) else c
  }

  class FilterResultCache {
    var compiledFilters: map<string, Filter>
    var filterResults: Results
    var roomToKeys: Index

    constructor ()
      ensures State() == EMPTY
    {
      compiledFilters, filterResults, roomToKeys := map[], map[], map[];
    }

    function State(): Cache
      reads this
    {
      Cache(compiledFilters, filterResults, roomToKeys)
    }

    method GetOrCompileFilter(f: Filter) returns (compiled: Filter)
      modifies this
      ensures State() == Compile(old(State()), f)
      ensures compiled == if f.hash in old(compiledFilters) then old(compiledFilters)[f.hash] else f
    {
      if f.hash in compiledFilters {
        return compiledFilters[f.hash];
      }
      if f.rooms.Some? {
        var rooms := f.rooms.value;
        for i := 0 to |rooms|
          invariant roomToKeys == PushAll(old(roomToKeys), rooms[..i], f.hash)
          invariant compiledFilters == old(compiledFilters) && filterResults == old(filterResults)
        {
          assert rooms[..i + 1][..i] == rooms[..i];
          roomToKeys := Push(roomToKeys, rooms[i], f.hash);
        }
        assert rooms[..|rooms|] == rooms;
      }
      compiledFilters := compiledFilters[f.hash := f];
      return f;
    }

    method CacheFilterResults(hash: string, room: string, events: seq<Event>)
      modifies this
      ensures State() == Store(old(State()), hash, room, events)
    {
      var key := Key(hash, room);
      roomToKeys := Push(roomToKeys, room, key);
      filterResults := filterResults[key := events];
    }

    method GetCachedResults(hash: string, room: string) returns (r: Option<seq<Event>>)
      ensures r == Lookup(State(), hash, room)
    {
      r := if Key(hash, room) in filterResults then Some(filterResults[Key(hash, room)]) else None;
    }

    method InvalidateRoom(room: string)
      modifies this
      ensures State() == Invalidate(old(State()), room)
    {
      if room in roomToKeys {
        var keys := roomToKeys[room];
        roomToKeys := roomToKeys - {room};
        for i := 0 to |keys|
          invariant filterResults == old(filterResults) - (set k | k in keys[..i])
          invariant compiledFilters == old(compiledFilters) && roomToKeys == old(roomToKeys) - {room}
        {
          filterResults := filterResults - {keys[i]};
          assert keys[..i + 1] == keys[..i] + [keys[i]];
        }
        assert keys[..|keys|] == keys;
      }
    }
  }

  // ---------- runs ----------

  datatype Op =
    | CompileOp(filter: Filter)
    | StoreOp(hash: string, room: string, events: seq<Event>)
    | InvalidateOp(room: string)
    | EvictOp(keys: set<string>)

  function Apply(c: Cache, op: Op): Cache {
    match op
    case CompileOp(f) => Compile(c, f)
    case StoreOp(hash, room, events) => Store(c, hash, room, events)
    case InvalidateOp(room) => Invalidate(c, room)
    case EvictOp(keys) => c.(compiled := c.compiled - keys, results := c.results - keys)
  }

  function After(ops: seq<Op>): Cache {
    if ops == [] then EMPTY else Apply(After(ops[..|ops| - 1]), ops[|ops| - 1])
  }

  /** Filters are hashed, and results are stored under such hashes. */
  ghost predicate Hashed(ops: seq<Op>) {
    forall i :: 0 <= i < |ops| ==>
      (ops[i].StoreOp? ==> IsHash(ops[i].hash)) && (ops[i].CompileOp? ==> IsHash(ops[i].filter.hash))
  }

  /** What was last stored for the hash and room, unless the room was invalidated or the entry evicted since. */
  function LastStored(ops: seq<Op>, hash: string, room: string): Option<seq<Event>> {
    if ops == [] then None
    else
      match ops[|ops| - 1]
      case StoreOp(h, r, events) =>
        if h == hash && r == room then Some(events) else LastStored(ops[..|ops| - 1], hash, room)
      case InvalidateOp(r) => if r == room then None else LastStored(ops[..|ops| - 1], hash, room)
      case EvictOp(keys) => if Key(hash, room) in keys then None else LastStored(ops[..|ops| - 1], hash, room)
      case CompileOp(_) => LastStored(ops[..|ops| - 1], hash, room)
  }

  /** A hash holds no colon, so a key splits in one way. */
  lemma KeysSplit(h1: string, r1: string, h2: string, r2: string)
    requires ':' !in h1 && ':' !in h2 && Key(h1, r1) == Key(h2, r2)
    ensures h1 == h2 && r1 == r2
  {
    FindSplits(h1, ':', r1);
    FindSplits(h2, ':', r2);
    assert Key(h1, r1)[..|h1|] == h1 && Key(h2, r2)[..|h2|] == h2;
    assert Key(h1, r1)[|h1| + 1..] == r1 && Key(h2, r2)[|h2| + 1..] == r2;
  }

  /** Each stored result's key is in its room's index, and a room's index holds its own keys and filter hashes only. */
  ghost predicate Indexed(c: Cache) {
    && (forall hash, room :: IsHash(hash) && Key(hash, room) in c.results ==>
          room in c.index && Key(hash, room) in c.index[room])
    && (forall room, key :: room in c.index && key in c.index[room] ==> Belongs(key, room))
  }

  ghost predicate Belongs(key: string, room: string) {
    IsHash(key) || exists hash :: IsHash(hash) && key == Key(hash, room)
  }

  lemma HashHasNoColon(s: string)
    ensures IsHash(s) ==> ':' !in s
  {
  }

  /** A key belongs to no room but its own. */
  lemma KeyBelongsOnce(hash: string, room: string, other: string)
    requires IsHash(hash) && Belongs(Key(hash, room), other)
    ensures room == other
  {
    HashHasNoColon(hash);
    HashHasNoColon(Key(hash, room));
    assert Key(hash, room)[|hash|] == ':';
    var h :| IsHash(h) && Key(hash, room) == Key(h, other);
    HashHasNoColon(h);
    KeysSplit(hash, room, h, other);
  }

  lemma {:induction false} PushAllKeeps(index: Index, rooms: seq<string>, key: string)
    ensures forall r :: r in index ==> r in PushAll(index, rooms, key) && index[r] <= PushAll(index, rooms, key)[r]
    ensures forall r, k :: r in PushAll(index, rooms, key) && k in PushAll(index, rooms, key)[r] ==>
              k == key || (r in index && k in index[r])
  {
    if rooms != [] {
      PushAllKeeps(index, rooms[..|rooms| - 1], key);
    }
  }

  lemma ApplyKeepsIndexed(c: Cache, op: Op)
    requires Indexed(c) && (op.StoreOp? ==> IsHash(op.hash)) && (op.CompileOp? ==> IsHash(op.filter.hash))
    ensures Indexed(Apply(c, op))
  {
    var next := Apply(c, op);
    if op.CompileOp? && op.filter.rooms.Some? {
      PushAllKeeps(c.index, op.filter.rooms.value, op.filter.hash);
    }
    forall hash, room | IsHash(hash) && Key(hash, room) in next.results
      ensures room in next.index && Key(hash, room) in next.index[room]
    {
      match op
      case StoreOp(h, r, _) =>
        HashHasNoColon(h);
        HashHasNoColon(hash);
        if Key(hash, room) == Key(h, r) {
          KeysSplit(hash, room, h, r);
        }
      case _ =>
    }
    assert op.StoreOp? ==> Belongs(Key(op.hash, op.room), op.room);
  }

  lemma {:induction false} AlwaysIndexed(ops: seq<Op>)
    requires Hashed(ops)
    ensures Indexed(After(ops))
  {
    if ops != [] {
      AlwaysIndexed(ops[..|ops| - 1]);
      ApplyKeepsIndexed(After(ops[..|ops| - 1]), ops[|ops| - 1]);
    }
  }

  /**
   In every run, with any evictions, a lookup answers exactly what was last stored under the same hash and room since
   the room was last invalidated or the entry evicted: never stale, never another filter's or another room's.
   */
  lemma {:induction false} LookupsExact(ops: seq<Op>, hash: string, room: string)
    requires Hashed(ops) && IsHash(hash)
    ensures Lookup(After(ops), hash, room) == LastStored(ops, hash, room)
  {
    if ops != [] {
      var front, op := ops[..|ops| - 1], ops[|ops| - 1];
      LookupsExact(front, hash, room);
      AlwaysIndexed(front);
      match op
      case StoreOp(h, r, _) =>
        HashHasNoColon(h);
        HashHasNoColon(hash);
        if Key(hash, room) == Key(h, r) {
          KeysSplit(hash, room, h, r);
        }
      case InvalidateOp(r) =>
        if r in After(front).index && Key(hash, room) in After(front).index[r] {
          KeyBelongsOnce(hash, room, r);
        }
      case _ =>
    }
  }

  /** The filter first compiled under the hash since it was last evicted. */
  function FirstCompiled(ops: seq<Op>, hash: string): Option<Filter> {
    if ops == [] then None
    else
      var before := FirstCompiled(ops[..|ops| - 1], hash);
      match ops[|ops| - 1]
      case CompileOp(f) => if f.hash == hash && before.None? then Some(f) else before
      case EvictOp(keys) => if hash in keys then None else before
      case _ => before
  }

  /** In every run a filter is compiled once for its hash: neither results nor invalidations touch it. */
  lemma {:induction false} CompiledExact(ops: seq<Op>, hash: string)
    ensures (if hash in After(ops).compiled then Some(After(ops).compiled[hash]) else None) == FirstCompiled(ops, hash)
  {
    if ops != [] {
      CompiledExact(ops[..|ops| - 1], hash);
    }
  }

  lemma {:induction false} PushAllReaches(index: Index, rooms: seq<string>, key: string, room: string)
    ensures room in rooms ==> room in PushAll(index, rooms, key) && key in PushAll(index, rooms, key)[room]
    ensures room !in rooms ==>
              && (room in PushAll(index, rooms, key) <==> room in index)
              && (room in index ==> PushAll(index, rooms, key)[room] == index[room])
  {
    if rooms != [] {
      PushAllReaches(index, rooms[..|rooms| - 1], key, room);
      assert rooms == rooms[..|rooms| - 1] + [rooms[|rooms| - 1]];
    }
  }

  /** A newly compiled filter is indexed under exactly the rooms it names, and stored results are left alone. */
  lemma CompileIndexes(c: Cache, f: Filter, room: string)
    requires f.hash !in c.compiled
    ensures var next := Compile(c, f);
            && next.results == c.results
            && (f.rooms.Some? && room in f.rooms.value ==> room in next.index && f.hash in next.index[room])
            && (f.rooms.None? || room !in f.rooms.value ==>
                  (room in next.index <==> room in c.index) && (room in c.index ==> next.index[room] == c.index[room]))
  {
    if f.rooms.Some? {
      PushAllReaches(c.index, f.rooms.value, f.hash, room);
    }
  }

  /** Just invalidated: nothing of the room is found, under any hash. */
  lemma InvalidationIsComplete(ops: seq<Op>, hash: string, room: string)
    requires Hashed(ops) && IsHash(hash)
    ensures Lookup(After(ops + [InvalidateOp(room)]), hash, room) == None
  {
    var all := ops + [InvalidateOp(room)];
    assert all[..|ops|] == ops;
    LookupsExact(all, hash, room);
  }

  /** Every hash with a colon defeats invalidation: its keys also read as another room's, whose index lacks them. */
  lemma ColonDefeatsInvalidation(head: string, tail: string, room: string, events: seq<Event>)
    ensures var other := tail + ":" + room;
            Lookup(After([StoreOp(head + ":" + tail, room, events), InvalidateOp(other)]), head, other) == Some(events)
  {
    var other := tail + ":" + room;
    var store, invalidate := StoreOp(head + ":" + tail, room, events), InvalidateOp(other);
    var ops := [store, invalidate];
    assert ops[..1] == [store] && [store][..0] == [];
    assert After([store]) == Apply(EMPTY, store);
    assert After(ops) == Apply(After([store]), invalidate);
    assert Key(head + ":" + tail, room) == Key(head, other);
    assert |other| > |room|;
  }
}

/** The MongoDB discovery service: address parsing in Initialize, the watch loop, and
    the service object whose methods drive the collection. */
module Mongo {
  import opened Types
  import opened Segments
  import opened Address
  import opened Store

  const DEFAULT_COLLECTION_NAME := "nodes"
  const DEFAULT_FIELD_NAME := "url"
  const DIAL_SCHEME := "mongodb://"

  // ---------------------------------------------------------------- Initialize

  /** What Initialize derives from the backend address. */
  datatype Config = Config(dbname: string, collection: string, field: string, dialUri: string)

  /** Split the address on '/': fewer than two pieces is an error; the second piece names
      the database, a third the collection, and a fourth the field, but only when there
      are exactly four pieces. The session is dialed at the first two pieces. */
  function ParseAddress(uris: string): (r: Result<Config>)
    ensures r.Err? <==> '/' !in uris
    ensures r.Err? ==> r.error == UnknownDBName
  {
    SplitSingle(uris);
    var segs := Split(uris);
    if |segs| < 2 then Err(UnknownDBName)
    else
      Ok(Config(
        segs[1],
        if |segs| >= 3 then segs[2] else DEFAULT_COLLECTION_NAME,
        if |segs| == 4 then segs[3] else DEFAULT_FIELD_NAME,
        DIAL_SCHEME + segs[0] + "/" + segs[1]))
  }

  /** The address forms host/db[/collection[/field]...]: each piece given is taken, the
      missing ones default, and from five pieces on the field falls back to its default. */
  lemma {:induction false} ParseAddressForms(host: string, db: string, rest: seq<string>)
    requires '/' !in host && '/' !in db
    requires forall i :: 0 <= i < |rest| ==> '/' !in rest[i]
    ensures ParseAddress(Join([host, db] + rest)) == Ok(Config(
      db,
      if |rest| >= 1 then rest[0] else DEFAULT_COLLECTION_NAME,
      if |rest| == 2 then rest[1] else DEFAULT_FIELD_NAME,
      DIAL_SCHEME + host + "/" + db))
  {
    var pieces := [host, db] + rest;
    assert forall i :: 0 <= i < |pieces| ==> '/' !in pieces[i];
    SplitJoin(pieces);
  }

  // ---------------------------------------------------------------- heartbeat

  /** Go's int (64 bits on the platforms the program targets). */
  type Int64 = x: int | -0x8000_0000_0000_0000 <= x < 0x8000_0000_0000_0000

  const NANOS_PER_SECOND := 1_000_000_000

  /** x reduced into 64-bit two's complement: the one Int64 congruent to x modulo 2^64. */
  function Wrap64(x: int): (w: Int64)
    ensures (x - w) % 0x1_0000_0000_0000_0000 == 0
  {
    (x + 0x8000_0000_0000_0000) % 0x1_0000_0000_0000_0000 - 0x8000_0000_0000_0000
  }

  /** time.Duration(heartbeat) * time.Second, a 64-bit product that wraps. */
  function TickPeriod(heartbeat: Int64): (period: Int64)
    ensures (heartbeat * NANOS_PER_SECOND - period) % 0x1_0000_0000_0000_0000 == 0
  {
    Wrap64(heartbeat * NANOS_PER_SECOND)
  }

  /** Timer ticks only arrive for a positive period: time.Tick yields no channel otherwise. */
  predicate Ticking(heartbeat: Int64)
    ensures Ticking(heartbeat) ==> heartbeat != 0
  {
    TickPeriod(heartbeat) > 0
  }

  /** For heartbeats whose nanoseconds fit in 64 bits the period is exact, and ticks
      arrive exactly for the positive ones. */
  lemma TickPeriodExact(heartbeat: Int64)
    requires -9_223_372_036 <= heartbeat <= 9_223_372_036
    ensures TickPeriod(heartbeat) == heartbeat * NANOS_PER_SECOND
    ensures Ticking(heartbeat) <==> heartbeat > 0
  {
  }

  /** One second more and the product wraps: the period is negative and no tick arrives. */
  lemma TickPeriodWraps()
    ensures TickPeriod(9_223_372_037) < 0 && !Ticking(9_223_372_037)
  {
  }

  /** Larger heartbeats can wrap back to a short positive period, and a negative heartbeat
      can wrap to a positive one: both tick. */
  lemma TickPeriodWrapsPositive()
    ensures TickPeriod(18_446_744_074) == 290_448_384 && Ticking(18_446_744_074)
    ensures Ticking(-9_223_372_037)
  {
  }

  // ---------------------------------------------------------------- Watch

  /** What one tick's Fetch sees: the collection at that moment and whether the query failed. */
  datatype Tick = Tick(snapshot: seq<Record>, queryFailure: Option<string>)

  /** The outcome of Fetch on one tick: a query failure is reported as such, and a
      successful fetch has one node per record of the snapshot. */
  function TickFetch(t: Tick, field: string): (r: Result<seq<Node>>)
    ensures t.queryFailure.Some? ==> r == Err(Driver(t.queryFailure.value))
    ensures r.Ok? ==> |r.value| == |t.snapshot|
  {
    if t.queryFailure.Some? then Err(Driver(t.queryFailure.value)) else Decode(t.snapshot, field)
  }

  /** The node lists handed to the callback over the given ticks, in tick order: at most
      one per tick. */
  function Delivered(ticks: seq<Tick>, field: string): (calls: seq<seq<Node>>)
    ensures |calls| <= |ticks|
  {
    if ticks == [] then []
    else
      Delivered(ticks[..|ticks| - 1], field) +
      match TickFetch(ticks[|ticks| - 1], field)
      case Ok(nodes) => [nodes]
      case Err(_) => []
  }

  /** Delivery over consecutive runs of ticks is the concatenation of their deliveries. */
  lemma {:induction false} DeliveredAppend(a: seq<Tick>, b: seq<Tick>, field: string)
    ensures Delivered(a + b, field) == Delivered(a, field) + Delivered(b, field)
  {
    if b != [] {
      var ab := a + b;
      assert ab[..|ab| - 1] == a + b[..|b| - 1];
      assert ab[|ab| - 1] == b[|b| - 1];
      DeliveredAppend(a, b[..|b| - 1], field);
    } else {
      assert a + b == a;
    }
  }

  /** One tick calls back once with its nodes when its Fetch succeeds, and not at all otherwise. */
  lemma DeliveredOne(t: Tick, field: string)
    ensures Delivered([t], field) == if TickFetch(t, field).Ok? then [TickFetch(t, field).value] else []
  {
    var ts := [t];
    assert ts[..|ts| - 1] == [] && ts[|ts| - 1] == t;
    assert Delivered(ts[..|ts| - 1], field) == [];
  }

  /** A failing tick delivers nothing and the ticks after it deliver as they would have. */
  lemma FailingTickSkipped(a: seq<Tick>, t: Tick, b: seq<Tick>, field: string)
    requires TickFetch(t, field).Err?
    ensures Delivered(a + [t] + b, field) == Delivered(a, field) + Delivered(b, field)
  {
    DeliveredOne(t, field);
    DeliveredAppend(a, [t], field);
    assert Delivered(a, field) + [] == Delivered(a, field);
    DeliveredAppend(a + [t], b, field);
  }

  /** A succeeding tick delivers exactly its nodes, once. */
  lemma SucceedingTickDelivered(a: seq<Tick>, t: Tick, b: seq<Tick>, field: string)
    requires TickFetch(t, field).Ok?
    ensures Delivered(a + [t] + b, field)
         == Delivered(a, field) + [TickFetch(t, field).value] + Delivered(b, field)
  {
    DeliveredOne(t, field);
    DeliveredAppend(a, [t], field);
    DeliveredAppend(a + [t], b, field);
  }

  /** When every tick's Fetch succeeds, the callback sees every tick's nodes in order. */
  lemma {:induction false} DeliveredAllSucceed(ticks: seq<Tick>, field: string)
    requires forall i :: 0 <= i < |ticks| ==> TickFetch(ticks[i], field).Ok?
    ensures |Delivered(ticks, field)| == |ticks|
    ensures forall i :: 0 <= i < |ticks| ==> Delivered(ticks, field)[i] == TickFetch(ticks[i], field).value
  {
    if ticks != [] {
      var init := ticks[..|ticks| - 1];
      assert forall i :: 0 <= i < |init| ==> init[i] == ticks[i];
      DeliveredAllSucceed(init, field);
    }
  }

  // ---------------------------------------------------------------- the service

  /** The service object. The collection it is attached to is modelled as the field
      store; the driver's session is modelled by whether it is connected and the URI it
      was dialed at. */
  class MongoDiscoveryService {
    var connected: bool
    var sessionUri: string
    var indexed: bool
    var dbname: string
    var collection: string
    var field: string
    var heartbeat: Int64
    var store: seq<Record>

    /** A unique index on the field keeps the stored keys unique, and needs a session:
        while it is built, each key is held by at most one record. */
    predicate Valid()
      reads this
      ensures Valid() && indexed ==> connected && forall v :: Count(store, field, v) <= 1
    {
      UniqueCountsAtMostOne(store, field);
      indexed ==> connected && UniqueKeys(store, field)
    }

    /** The zero value the package registers. */
    constructor ()
      ensures Valid() && !connected && !indexed
      ensures dbname == "" && collection == "" && field == "" && heartbeat == 0 && store == []
    {
      connected, sessionUri, indexed := false, "", false;
      dbname, collection, field, heartbeat := "", "", "", 0;
      store := [];
    }

    /** Initialize: parse the address, dial the datastore and declare a unique index on the
        field. The driver's dial and index outcomes are parameters; contents is what the
        selected collection holds. A unique index cannot be built over duplicate keys. */
    method Initialize(uris: string, hb: Int64, dialFailure: Option<string>,
                      indexFailure: Option<string>, contents: seq<Record>)
      returns (err: Option<Error>)
      requires Valid()
      modifies this
      ensures Valid()
      ensures ParseAddress(uris).Err? ==> err == Some(UnknownDBName) && unchanged(this)
      ensures ParseAddress(uris).Ok? ==>
        var c := ParseAddress(uris).value;
        && dbname == c.dbname && collection == c.collection && field == c.field
        && heartbeat == hb
        && (dialFailure.Some? ==>
              err == Some(Driver(dialFailure.value)) && !connected && !indexed && store == old(store))
        && (dialFailure.None? ==>
              && connected && sessionUri == c.dialUri && store == contents
              && (indexFailure.Some? ==> err == Some(Driver(indexFailure.value)) && !indexed)
              && (indexFailure.None? && !UniqueKeys(contents, c.field) ==>
                    err == Some(DuplicateKey) && !indexed)
              && (indexFailure.None? && UniqueKeys(contents, c.field) ==> err == None && indexed))
    {
      var segs := Split(uris);
      var nsegs := |segs|;
      if nsegs < 2 {
        return Some(UnknownDBName);
      }
      dbname := segs[1];
      heartbeat := hb;
      if nsegs >= 3 {
        collection := segs[2];
      } else {
        collection := DEFAULT_COLLECTION_NAME;
      }
      if nsegs == 4 {
        field := segs[3];
      } else {
        field := DEFAULT_FIELD_NAME;
      }
      indexed := false;
      if dialFailure.Some? {
        connected := false;
        return Some(Driver(dialFailure.value));
      }
      connected, sessionUri := true, DIAL_SCHEME + segs[0] + "/" + segs[1];
      store := contents;
      if indexFailure.Some? {
        return Some(Driver(indexFailure.value));
      }
      if !UniqueKeys(store, field) {
        return Some(DuplicateKey);
      }
      indexed := true;
      return None;
    }

    /** Fetch: select every record of the collection and turn each into a node. */
    method Fetch(queryFailure: Option<string>) returns (r: Result<seq<Node>>)
      requires Valid() && connected
      ensures queryFailure.Some? ==> r == Err(Driver(queryFailure.value))
      ensures queryFailure.None? ==> r == Decode(store, field)
    {
      r := FetchRecords(store, field, queryFailure);
    }

    /** Watch: on every tick, Fetch; hand the nodes to the callback only when it succeeds.
        The callback's invocations are returned, in order. */
    method Watch(ticks: seq<Tick>) returns (calls: seq<seq<Node>>)
      requires Valid() && (Ticking(heartbeat) ==> connected)
      ensures calls == if Ticking(heartbeat) then Delivered(ticks, field) else []
    {
      calls := [];
      if !Ticking(heartbeat) {
        return;
      }
      for i := 0 to |ticks|
        invariant calls == Delivered(ticks[..i], field)
      {
        var nodes := FetchRecords(ticks[i].snapshot, field, ticks[i].queryFailure);
        assert ticks[..i + 1][..i] == ticks[..i];
        if nodes.Ok? {
          calls := calls + [nodes.value];
        }
      }
      assert ticks[..|ticks|] == ticks;
    }

    /** Register: insert the record for addr; a duplicate key counts as success, any other
        failure of the insert is returned. */
    method Register(addr: string, insertFailure: Option<string>) returns (err: Option<Error>)
      requires Valid() && connected
      modifies this`store
      ensures Valid()
      ensures insertFailure.Some? ==> err == Some(Driver(insertFailure.value)) && store == old(store)
      ensures insertFailure.None? ==>
        err == None && store == AfterInsert(old(store), field, indexed, BuildRecord(field, addr))
    {
      var record := map[field := Str(addr), COMMENT_KEY := Str(MARKER)];
      if !HasPrefix(addr, SCHEME) {
        record := record[field := Str(SCHEME + addr)];
      }
      if insertFailure.Some? {
        return Some(Driver(insertFailure.value));
      }
      if indexed && Stored(store, field, KeyOf(record, field)) {
        return None;
      }
      store := store + [record];
      return None;
    }

    /** Deregister: remove one record whose field equals addr exactly. */
    method Deregister(addr: string, removeFailure: Option<string>) returns (err: Option<Error>)
      requires Valid() && connected
      modifies this`store
      ensures Valid()
      ensures removeFailure.Some? ==> err == Some(Driver(removeFailure.value)) && store == old(store)
      ensures removeFailure.None? && RemoveOne(old(store), field, Str(addr)).Err? ==>
        err == Some(NotFound) && store == old(store)
      ensures removeFailure.None? && RemoveOne(old(store), field, Str(addr)).Ok? ==>
        err == None && store == RemoveOne(old(store), field, Str(addr)).value
    {
      if removeFailure.Some? {
        return Some(Driver(removeFailure.value));
      }
      var r := RemoveOne(store, field, Str(addr));
      if r.Err? {
        return Some(r.error);
      }
      if indexed {
        RemoveKeepsUnique(store, field, Str(addr));
      }
      store := r.value;
      return None;
    }
  }

  // ---------------------------------------------------------------- properties across calls

  /** The key Register stores for addr under field. */
  function RegisteredKey(field: string, addr: string): Value
  {
    KeyOf(BuildRecord(field, addr), field)
  }

  /** Unless the field is named "comment", Register stores the normalized address. */
  lemma RegisteredKeyIsNormalized(field: string, addr: string)
    requires field != COMMENT_KEY
    ensures RegisteredKey(field, addr) == Str(Normalize(addr))
  {
  }

  /** With a field named "comment", every prefixed address is stored as the marker. */
  lemma RegisteredKeyOnCommentField(addr: string)
    requires HasPrefix(addr, SCHEME)
    ensures RegisteredKey(COMMENT_KEY, addr) == Str(MARKER)
  {
  }

  /** Registering twice is registering once, and leaves exactly one record for the address. */
  lemma RegisterIdempotent(s: seq<Record>, field: string, addr: string)
    requires UniqueKeys(s, field)
    ensures var rec := BuildRecord(field, addr);
      AfterInsert(AfterInsert(s, field, true, rec), field, true, rec) == AfterInsert(s, field, true, rec)
    ensures Count(AfterInsert(s, field, true, BuildRecord(field, addr)), field, RegisteredKey(field, addr)) == 1
  {
    AfterInsertIdempotent(s, field, BuildRecord(field, addr));
    InsertedOnce(s, field, BuildRecord(field, addr));
  }

  /** A Fetch that succeeds after Register lists the normalized address. */
  lemma RegisterThenFetch(s: seq<Record>, field: string, indexed: bool, addr: string)
    requires field != COMMENT_KEY
    requires Decode(AfterInsert(s, field, indexed, BuildRecord(field, addr)), field).Ok?
    ensures Node(Normalize(addr)) in Decode(AfterInsert(s, field, indexed, BuildRecord(field, addr)), field).value
  {
    InsertedIsFetched(s, field, indexed, BuildRecord(field, addr), Normalize(addr));
  }

  /** Deregistering the stored form of a fresh registration restores the collection. */
  lemma RegisterThenDeregister(s: seq<Record>, field: string, indexed: bool, addr: string)
    requires field != COMMENT_KEY
    requires !Stored(s, field, Str(Normalize(addr)))
    ensures RemoveOne(AfterInsert(s, field, indexed, BuildRecord(field, addr)), field, Str(Normalize(addr))) == Ok(s)
  {
    InsertThenRemove(s, field, BuildRecord(field, addr));
  }

  /** Deregister does not normalize: the raw form of an address Register prefixed is not found. */
  lemma DeregisterRawAddress(s: seq<Record>, field: string, indexed: bool, addr: string)
    requires field != COMMENT_KEY && !HasPrefix(addr, SCHEME) && !Stored(s, field, Str(addr))
    ensures RemoveOne(AfterInsert(s, field, indexed, BuildRecord(field, addr)), field, Str(addr)) == Err(NotFound)
  {
    var rec := BuildRecord(field, addr);
    var s1 := AfterInsert(s, field, indexed, rec);
    assert Normalize(addr) != addr;
    assert KeyOf(rec, field) != Str(addr);
    forall i | 0 <= i < |s1|
      ensures KeyOf(s1[i], field) != Str(addr)
    {
      if i < |s| {
        assert s1[i] == s[i];
      }
    }
  }

  /** An example session, first part, for any host and database (such as
      localhost:27017 and swarm, heartbeat 5): Initialize on host/db connects to
      mongodb://host/db with collection nodes and field url, and builds the index. */
  method ScenarioInitialize(host: string, db: string, hb: Int64) returns (s: MongoDiscoveryService)
    requires '/' !in host && '/' !in db
    ensures s.Valid() && s.connected && s.indexed && s.store == []
    ensures s.dbname == db && s.collection == DEFAULT_COLLECTION_NAME && s.field == DEFAULT_FIELD_NAME
    ensures s.heartbeat == hb && s.sessionUri == DIAL_SCHEME + host + "/" + db
  {
    s := new MongoDiscoveryService();
    assert Join([host, db] + []) == host + "/" + db by {
      assert [host, db] + [] == [host, db];
      assert Join([host, db]) == host + "/" + Join([db]);
    }
    ParseAddressForms(host, db, []);
    var err := s.Initialize(host + "/" + db, hb, None, None, []);
    assert err == None;
  }

  /** An example session, second part, for any address without the prefix (such as
      10.0.0.1:2375): Register stores it prefixed, Fetch lists it, Deregister of the stored
      form removes it, and Fetch lists nothing. */
  method ScenarioRoundTrip(s: MongoDiscoveryService, addr: string)
      returns (registered: Option<Error>, listed: Result<seq<Node>>,
               deregistered: Option<Error>, remaining: Result<seq<Node>>)
    requires s.Valid() && s.connected && s.indexed && s.store == []
    requires s.field != COMMENT_KEY && !HasPrefix(addr, SCHEME)
    modifies s
    ensures registered == None && listed == Ok([Node(SCHEME + addr)])
    ensures deregistered == None && remaining == Ok([])
    ensures s.store == []
  {
    var field := s.field;
    var err := s.Register(addr, None);
    registered := err;
    var stored := SCHEME + addr;
    var rs := s.store;
    assert rs == [map[field := Str(stored), COMMENT_KEY := Str(MARKER)]];
    var nodes := s.Fetch(None);
    assert rs[..|rs| - 1] == [] && IsUrlRecord(rs[|rs| - 1], field);
    assert Decode(rs, field) == Ok([] + [Node(stored)]);
    assert [] + [Node(stored)] == [Node(stored)];
    assert err == None && nodes == Ok([Node(stored)]);
    listed := nodes;
    assert KeyOf(rs[0], field) == Str(stored) && rs[..0] + rs[1..] == [];
    assert RemoveOne(rs, field, Str(stored)) == Ok([]);
    deregistered := s.Deregister(stored, None);
    assert s.store == [];
    remaining := s.Fetch(None);
  }
}

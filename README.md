# MongoDB node discovery, modelled in Dafny

This project models the MongoDB discovery backend of Docker Swarm
(`discovery/mongo/mongo.go`). The backend keeps a registry of live endpoints in one
MongoDB collection. It offers five operations:

- `Initialize` parses a backend address `host[:port]/db[/collection[/field]]`, dials the
  datastore and declares a unique index on the configured field.
- `Fetch` lists every stored record as a node. It stops at the first record whose field
  is missing or not a string.
- `Register` stores an address under an `http://` prefix. A duplicate key counts as success.
- `Deregister` removes one record whose field equals the address exactly.
- `Watch` runs `Fetch` on every heartbeat tick. It hands the nodes to a callback only when
  the fetch succeeded.

The datastore is modelled as an in-memory sequence of records in storage order. A record
is a map from field name to a value: a string, null, or some other BSON value. Each driver
outcome, which the model cannot compute, is a parameter of the operation: dial failure, index
failure, query failure, insert failure, remove failure. So is the collection's content when
it is first selected. The unique index is the only source of duplicate-key errors, with the key equality
described under "Left out". The
service tracks whether the index was built (`indexed`). While it is built, the stored keys
stay unique (`MongoDiscoveryService.Valid`).

Files:

- `types.dfy`: errors, values, records and nodes.
- `segments.dfy`: Go's `strings.Split` and `strings.Join` with separator `/`, and their
  round trip.
- `address.dfy`: the `http://` normalization and the record that `Register` builds.
- `store.dfy`: the `Fetch` loop and its specification, plus insert and remove on the
  record sequence.
- `mongo.dfy`: address parsing, the heartbeat period, the `Watch` delivery specification,
  and the class `MongoDiscoveryService` with its methods.

Behaviours of the code a reader might not expect:

- After a dial failure, `Initialize` has already stored the database, collection, field
  and heartbeat, and the session becomes nil. After an index failure, the session stays
  open. A failed `Initialize` can therefore leave a usable session behind.
- The field name takes the fourth segment only when there are exactly four segments.
  With five or more, it falls back to `url`.
- If the configured field is named `comment`, the registration marker overwrites the
  address in the record, because the map literal assigns its keys in order.
  `Register` then stores `registered by swarm` for every `http://` address.
- `time.Tick` returns no channel for a period that is not positive, so `Watch` then never
  calls back. The period is `heartbeat × 10⁹` ns, computed in 64 bits with wrap-around.
  A heartbeat of 9223372037 s wraps to a negative period and never ticks. Larger
  heartbeats may wrap back to a positive period (18446744074 s ticks every 290448384 ns),
  and some negative heartbeats (-9223372037 s) tick.

## Model

| member | source | states |
|---|---|---|
| Segments.Split | discovery/mongo/mongo.go:44-45 | splitting on "/" always yields at least one segment (the empty string yields one empty segment) |
| Segments.SplitLength | discovery/mongo/mongo.go:44-45 | the number of segments is the number of slashes plus one |
| Segments.SplitPiecesHaveNoSlash | discovery/mongo/mongo.go:44 | no segment contains the separator |
| Segments.JoinSplit | discovery/mongo/mongo.go:44 | joining the segments with "/" gives back the address |
| Segments.SplitJoin | discovery/mongo/mongo.go:44 | splitting the join of slash-free segments gives back those segments |
| Segments.SplitSingle | discovery/mongo/mongo.go:44-50 | an address has fewer than two segments exactly when it contains no "/" |
| Segments.NoSlashesIff | discovery/mongo/mongo.go:44-48 | an address has no slashes to count exactly when "/" does not occur in it |
| Mongo.ParseAddress | discovery/mongo/mongo.go:41-66 | parsing fails, always with ErrUnknownDBName, exactly when the address has no "/" (the empty address included) |
| Mongo.ParseAddressForms | discovery/mongo/mongo.go:36-66 | for host/db/rest…: dbname is db; collection is the third segment, default "nodes"; field is the fourth segment only when there are exactly four, otherwise "url"; the dial URI is "mongodb://host/db" |
| Mongo.MongoDiscoveryService.Valid | discovery/mongo/mongo.go:73-76 | once the unique index is built there is a session and no key is held by two records |
| Store.UniqueCountsAtMostOne | discovery/mongo/mongo.go:73-76 | with unique field values, no value is held by more than one record |
| Mongo.MongoDiscoveryService.constructor | discovery/mongo/mongo.go:24-34 | the registered zero value: no session, no configuration, invariant holds |
| Mongo.MongoDiscoveryService.Initialize | discovery/mongo/mongo.go:41-77 | bad address: ErrUnknownDBName, nothing changes; otherwise the configuration is ParseAddress's and the heartbeat is stored; a dial failure is returned and drops the session; an index failure or duplicate keys are returned with the session kept; on success the index is up and keys are unique |
| Mongo.TickPeriodExact | discovery/mongo/mongo.go:107 | when heartbeat × 10⁹ fits in 64 bits, the period is exactly that, and ticks arrive exactly when heartbeat > 0 |
| Mongo.TickPeriodWraps | discovery/mongo/mongo.go:107 | heartbeat 9223372037 overflows to a negative period, so no tick arrives |
| Mongo.TickPeriodWrapsPositive | discovery/mongo/mongo.go:107 | heartbeat 18446744074 wraps back to a positive period of 290448384 ns and ticks; heartbeat -9223372037 wraps to a positive period and ticks |
| Mongo.Wrap64 | discovery/mongo/mongo.go:107 | the 64-bit result is congruent to the exact value modulo 2^64 |
| Mongo.TickPeriod | discovery/mongo/mongo.go:107 | the period is heartbeat × 10⁹ ns modulo 2^64, as a signed 64-bit duration |
| Mongo.Ticking | discovery/mongo/mongo.go:107 | ticks arrive only for a positive period, so never for a zero heartbeat |
| Store.MissingFieldsCollide | discovery/mongo/mongo.go:73-76 | the unique index keys a missing field as null, so at most one record may lack the field: any later record holds a non-null value under it (and Initialize reports a duplicate key for contents with two such records) |
| Store.Decode | discovery/mongo/mongo.go:93-103 | the walk over the records either yields one node per record or fails with ErrFiledNotExists or ErrInvalidFieldValue, never another error |
| Store.DecodeSucceeds | discovery/mongo/mongo.go:93-103 | Fetch succeeds exactly when every record's field is present and a string, and then returns one node per record, in storage order, with that record's string |
| Store.DecodePrefixFails | discovery/mongo/mongo.go:93-101 | once some prefix of the records fails, the whole fetch fails with the same error (no partial result) |
| Store.DecodeFirstRejection | discovery/mongo/mongo.go:94-101 | the first offending record decides the error: ErrFiledNotExists if its field is missing, ErrInvalidFieldValue if the field is not a string |
| Store.FetchRecords | discovery/mongo/mongo.go:89-103 | the loop returns the query error unchanged, and otherwise exactly the specified walk over the records |
| Mongo.MongoDiscoveryService.Fetch | discovery/mongo/mongo.go:79-104 | Fetch on the session's collection: the query error or the specified walk over the stored records |
| Mongo.TickFetch | discovery/mongo/mongo.go:108-111 | one tick's Fetch: a query failure is returned as that driver error; a success has one node per record of the tick's snapshot |
| Mongo.Delivered | discovery/mongo/mongo.go:106-113 | the callbacks over a run of ticks: at most one per tick |
| Mongo.DeliveredOne | discovery/mongo/mongo.go:108-111 | a single tick calls back once with its nodes when its Fetch succeeds, and not at all otherwise |
| Mongo.DeliveredAppend | discovery/mongo/mongo.go:106-113 | the callbacks over two runs of ticks are the callbacks of the first run followed by those of the second |
| Mongo.FailingTickSkipped | discovery/mongo/mongo.go:108-111 | a failing tick produces no callback and does not stop the ticks after it |
| Mongo.SucceedingTickDelivered | discovery/mongo/mongo.go:108-111 | a succeeding tick produces exactly one callback, with that tick's nodes, in its place in tick order |
| Mongo.DeliveredAllSucceed | discovery/mongo/mongo.go:106-113 | when every fetch succeeds, there is one callback per tick, in order, with each tick's nodes |
| Mongo.MongoDiscoveryService.Watch | discovery/mongo/mongo.go:106-113 | the callbacks made are exactly the specified deliveries, or none when the period is not positive |
| Address.Normalize | discovery/mongo/mongo.go:119-124 | the stored address starts with http:// and ends with the given address; it is the address itself when that already has the prefix, and the prefix is added otherwise |
| Address.NormalizeIdempotent | discovery/mongo/mongo.go:122-124 | normalizing twice is normalizing once; exactly the http:// addresses are left unchanged |
| Address.NormalizeOtherScheme | discovery/mongo/mongo.go:122-124 | https://x is stored as http://https://x |
| Address.BuildRecord | discovery/mongo/mongo.go:119-124 | the inserted record is {field: normalized address, comment: "registered by swarm"}; with a field named comment it holds only the comment key |
| Mongo.RegisteredKeyIsNormalized | discovery/mongo/mongo.go:119-124 | unless the field is named comment, Register stores the normalized address under the field |
| Mongo.RegisteredKeyOnCommentField | discovery/mongo/mongo.go:119-124 | with a field named comment, every http:// address is stored as the marker text |
| Mongo.MongoDiscoveryService.Register | discovery/mongo/mongo.go:115-130 | an insert failure is returned and nothing is stored; otherwise it returns nil, and the store gets the record appended unless the unique index already holds its key |
| Store.AfterInsert | discovery/mongo/mongo.go:125-128 | an insert keeps every earlier record in place and adds at most one; it adds none exactly when the unique index already holds the key; afterwards the key is stored |
| Store.AfterInsertKeepsUnique | discovery/mongo/mongo.go:73-76 | under the unique index, an insert keeps the field values unique |
| Store.AfterInsertIdempotent | discovery/mongo/mongo.go:125-128 | under the unique index, inserting the same record twice is inserting it once |
| Store.CountUnique | discovery/mongo/mongo.go:73-76 | with unique field values, a value is held by one record or by none |
| Store.InsertedOnce | discovery/mongo/mongo.go:125-129 | after an insert under the unique index, exactly one record holds the inserted key |
| Store.InsertedIsFetched | discovery/mongo/mongo.go:93-103 | a key just inserted, or already present, appears among the nodes of a succeeding Fetch |
| Mongo.RegisterIdempotent | discovery/mongo/mongo.go:115-130 | registering an address twice equals registering it once, and leaves exactly one record for it |
| Mongo.RegisterThenFetch | discovery/mongo/mongo.go:93-130 | after Register(addr), a succeeding Fetch lists the normalized address |
| Store.FirstMatch | discovery/mongo/mongo.go:139 | the position of the first record whose field equals the value; no earlier record matches |
| Store.RemoveOne | discovery/mongo/mongo.go:139 | no matching record gives not-found; otherwise exactly the first matching record is removed and all other records keep their order |
| Mongo.MongoDiscoveryService.Deregister | discovery/mongo/mongo.go:132-140 | a remove failure is returned; with no exact match, not-found is returned and the store is unchanged; otherwise one matching record is removed and nil is returned |
| Store.RemoveKeepsUnique | discovery/mongo/mongo.go:139 | removing a record keeps the field values unique |
| Store.RemovedIsGone | discovery/mongo/mongo.go:139 | with unique field values, after the removal no record holds the address |
| Store.RemovedIsNotFetched | discovery/mongo/mongo.go:93-103 | with unique field values, a succeeding Fetch after the removal no longer lists the node |
| Store.InsertThenRemove | discovery/mongo/mongo.go:125-139 | removing the key of a record just appended, when no other record held it, restores the collection |
| Mongo.RegisterThenDeregister | discovery/mongo/mongo.go:115-140 | Deregister of the stored (normalized) form undoes a fresh Register |
| Mongo.DeregisterRawAddress | discovery/mongo/mongo.go:122-139 | Deregister applies no normalization: on any collection not holding the raw address, after registering it without the prefix, removing its raw form is not found |
| Mongo.ScenarioInitialize | discovery/mongo/mongo.go:41-77 | Initialize on host/db (for instance localhost:27017/swarm with heartbeat 5) over an empty collection: database db, collection nodes, field url, the heartbeat kept, session dialed at mongodb://host/db, index built |
| Mongo.ScenarioRoundTrip | discovery/mongo/mongo.go:115-140 | register an unprefixed address (nil), fetch [http://addr], deregister http://addr (nil), fetch [], and the collection is empty again |

## Left out

- Driver mechanics (`mgo.Dial`, `Session.Clone`/`Close`, `EnsureIndex`, BSON decoding,
  the wire protocol) are not modelled. Their outcomes are parameters. Cloning and closing
  a session have no effect on the model's state.
- The unique index is modelled only as a flag. Whether an equal index already existed
  is not modelled.
- A MongoDB filter `{field: addr}` also matches arrays that contain `addr`. The model
  matches equal values only. It removes the first match in storage order.
- The unique index's key equality is plain equality of values. A MongoDB unique index
  also keys each element of an array, and treats numerically equal values of different
  BSON types (1 and 1.0) as one key. `UniqueKeys`, the duplicate test in `AfterInsert`
  (and so in `Register`) and the index build in `Initialize` ignore both, so they can
  differ from the server on records holding arrays or numbers under the field.
- Logging (line 68) has no effect on behaviour and is not modelled.
- The package's `init` registration under the name "mongo" (lines 32-34) is not modelled.
  It is process-wide plugin registration in another package.
- `discovery.NewNode` is not part of this model. A node is a wrapper around its URL.
- Go strings are byte strings. The model uses `seq<char>`, one character per byte.
- Calls on a service with no session panic in Go. The model requires a connected session
  for Fetch, Register and Deregister, and for Watch only when its period is positive. With
  a period that is not positive, Watch blocks without touching the session.
- Mongo.MongoDiscoveryService.Watch: it runs over a finite, given sequence of ticks and
  returns the callbacks it made. The Go loop runs forever on a timer. Each tick's records
  are given as a snapshot, because other callers may change the collection between
  ticks. Real time and concurrency are not modelled.
- Concurrent calls on cloned sessions are not modelled. The code shares no mutable state
  except the configuration.

/** The configured collection as a sequence of records in storage order, with the
    queries the backend issues on it: select all, insert one, remove one by key. */
module Store {
  import opened Types
  import opened Address

  /** The value a record holds under field, as a unique index sees it: a missing
      field indexes as null. */
  function KeyOf(r: Record, field: string): Value
  {
    if field in r then r[field] else Null
  }

  /** Some record of s holds v under field. */
  predicate Stored(s: seq<Record>, field: string, v: Value)
  {
    exists i :: 0 <= i < |s| && KeyOf(s[i], field) == v
  }

  /** The invariant a unique index on field maintains. */
  predicate UniqueKeys(s: seq<Record>, field: string)
  {
    forall i, j :: 0 <= i < j < |s| ==> KeyOf(s[i], field) != KeyOf(s[j], field)
  }

  /** Missing fields share the null key: under a unique index at most one record lacks
      the field, and a record after one that lacks it holds a value other than null. */
  lemma MissingFieldsCollide(s: seq<Record>, field: string, i: int, j: int)
    requires UniqueKeys(s, field) && 0 <= i < j < |s| && field !in s[i]
    ensures field in s[j] && s[j][field] != Null
  {
    assert KeyOf(s[i], field) != KeyOf(s[j], field);
  }

  /** How many records of s hold v under field. */
  function Count(s: seq<Record>, field: string, v: Value): nat
  {
    if s == [] then 0
    else Count(s[..|s| - 1], field, v) + (if KeyOf(s[|s| - 1], field) == v then 1 else 0)
  }

  // ---------------------------------------------------------------- Fetch

  /** A record Fetch accepts: its field is present and holds a string. */
  predicate IsUrlRecord(r: Record, field: string)
  {
    field in r && r[field].Str?
  }

  /** The error Fetch reports for a record it rejects. */
  function Rejection(r: Record, field: string): Error
  {
    if field !in r then FieldNotExists else InvalidFieldValue
  }

  /** The outcome of Fetch's walk over the records, defined on the prefix walked so far. */
  function Decode(rs: seq<Record>, field: string): (r: Result<seq<Node>>)
    ensures r.Ok? ==> |r.value| == |rs|
    ensures r.Err? ==> r.error == FieldNotExists || r.error == InvalidFieldValue
  {
    if rs == [] then Ok([])
    else
      match Decode(rs[..|rs| - 1], field)
      case Err(e) => Err(e)
      case Ok(nodes) =>
        var last := rs[|rs| - 1];
        if IsUrlRecord(last, field) then Ok(nodes + [Node(last[field].text)])
        else Err(Rejection(last, field))
  }

  /** Fetch succeeds exactly when every record is accepted, and then yields one node per
      record, in storage order, holding that record's string. */
  lemma {:induction false} DecodeSucceeds(rs: seq<Record>, field: string)
    ensures Decode(rs, field).Ok? <==> forall i :: 0 <= i < |rs| ==> IsUrlRecord(rs[i], field)
    ensures Decode(rs, field).Ok? ==>
      |Decode(rs, field).value| == |rs| &&
      forall i :: 0 <= i < |rs| ==> Decode(rs, field).value[i] == Node(rs[i][field].text)
  {
    if rs != [] {
      var init := rs[..|rs| - 1];
      DecodeSucceeds(init, field);
      assert forall i :: 0 <= i < |init| ==> init[i] == rs[i];
    }
  }

  /** Once a prefix of the records fails, the whole walk fails with the same error. */
  lemma {:induction false} DecodePrefixFails(rs: seq<Record>, field: string, k: nat)
    requires k <= |rs|
    requires Decode(rs[..k], field).Err?
    ensures Decode(rs, field) == Decode(rs[..k], field)
  {
    if k < |rs| {
      var init := rs[..|rs| - 1];
      assert init[..k] == rs[..k];
      DecodePrefixFails(init, field, k);
    } else {
      assert rs[..k] == rs;
    }
  }

  /** The first rejected record decides the error, and no nodes are returned. */
  lemma {:induction false} DecodeFirstRejection(rs: seq<Record>, field: string, k: nat)
    requires k < |rs| && !IsUrlRecord(rs[k], field)
    requires forall i :: 0 <= i < k ==> IsUrlRecord(rs[i], field)
    ensures Decode(rs, field) == Err(Rejection(rs[k], field))
  {
    var pre := rs[..k + 1];
    assert pre[..k] == rs[..k];
    DecodeSucceeds(rs[..k], field);
    DecodePrefixFails(rs, field, k + 1);
  }

  /** Fetch after the query: walk the results in order, appending one node per record,
      and give up on the first record whose field is missing or not a string. */
  method FetchRecords(results: seq<Record>, field: string, queryFailure: Option<string>)
    returns (r: Result<seq<Node>>)
    ensures queryFailure.Some? ==> r == Err(Driver(queryFailure.value))
    ensures queryFailure.None? ==> r == Decode(results, field)
  {
    if queryFailure.Some? {
      return Err(Driver(queryFailure.value));
    }
    var nodes: seq<Node> := [];
    var i := 0;
    while i < |results|
      invariant 0 <= i <= |results|
      invariant Decode(results[..i], field) == Ok(nodes)
    {
      var n := results[i];
      assert results[..i + 1][..i] == results[..i];
      if field !in n {
        DecodePrefixFails(results, field, i + 1);
        return Err(FieldNotExists);
      }
      match n[field] {
        case Str(url) =>
          nodes := nodes + [Node(url)];
        case _ =>
          DecodePrefixFails(results, field, i + 1);
          return Err(InvalidFieldValue);
      }
      i := i + 1;
    }
    assert results[..i] == results;
    return Ok(nodes);
  }

  // ---------------------------------------------------------------- Insert

  /** The collection after Insert(rec) either stored rec or failed with a duplicate key,
      which only a unique index on field raises. */
  function AfterInsert(s: seq<Record>, field: string, indexed: bool, rec: Record): (s': seq<Record>)
    ensures s' == s || s' == s + [rec]
    ensures |s| <= |s'| <= |s| + 1 && s'[..|s|] == s
    ensures |s'| == |s| <==> indexed && Stored(s, field, KeyOf(rec, field))
    ensures Stored(s', field, KeyOf(rec, field))
  {
    if indexed && Stored(s, field, KeyOf(rec, field)) then s
    else
      assert (s + [rec])[|s|] == rec;
      s + [rec]
  }

  /** Under a unique index, inserting keeps the keys unique. */
  lemma AfterInsertKeepsUnique(s: seq<Record>, field: string, rec: Record)
    requires UniqueKeys(s, field)
    ensures UniqueKeys(AfterInsert(s, field, true, rec), field)
  {
  }

  /** Under a unique index, inserting the same record twice is inserting it once. */
  lemma AfterInsertIdempotent(s: seq<Record>, field: string, rec: Record)
    ensures AfterInsert(AfterInsert(s, field, true, rec), field, true, rec)
         == AfterInsert(s, field, true, rec)
  {
    var s1 := AfterInsert(s, field, true, rec);
    if s1 != s {
      assert KeyOf(s1[|s|], field) == KeyOf(rec, field);
    }
  }

  /** Under unique keys a key is held by one record or none. */
  lemma {:induction false} CountUnique(s: seq<Record>, field: string, v: Value)
    requires UniqueKeys(s, field)
    ensures Count(s, field, v) == if Stored(s, field, v) then 1 else 0
  {
    if s != [] {
      var init := s[..|s| - 1];
      assert forall i :: 0 <= i < |init| ==> init[i] == s[i];
      CountUnique(init, field, v);
      if KeyOf(s[|s| - 1], field) != v && Stored(s, field, v) {
        var i :| 0 <= i < |s| && KeyOf(s[i], field) == v;
        assert KeyOf(init[i], field) == v;
      }
    }
  }

  /** Under unique keys no value is held by two records. */
  lemma UniqueCountsAtMostOne(s: seq<Record>, field: string)
    ensures UniqueKeys(s, field) ==> forall v :: Count(s, field, v) <= 1
  {
    if UniqueKeys(s, field) {
      forall v
        ensures Count(s, field, v) <= 1
      {
        CountUnique(s, field, v);
      }
    }
  }

  /** Under a unique index, after an insert exactly one record holds the inserted key. */
  lemma InsertedOnce(s: seq<Record>, field: string, rec: Record)
    requires UniqueKeys(s, field)
    ensures Count(AfterInsert(s, field, true, rec), field, KeyOf(rec, field)) == 1
  {
    var s1 := AfterInsert(s, field, true, rec);
    AfterInsertKeepsUnique(s, field, rec);
    if s1 != s {
      assert KeyOf(s1[|s|], field) == KeyOf(rec, field);
    }
    CountUnique(s1, field, KeyOf(rec, field));
  }

  /** A record that was stored (or whose key already was) shows up in a later successful Fetch. */
  lemma InsertedIsFetched(s: seq<Record>, field: string, indexed: bool, rec: Record, url: string)
    requires KeyOf(rec, field) == Str(url)
    requires Decode(AfterInsert(s, field, indexed, rec), field).Ok?
    ensures Node(url) in Decode(AfterInsert(s, field, indexed, rec), field).value
  {
    var s1 := AfterInsert(s, field, indexed, rec);
    DecodeSucceeds(s1, field);
    var k: int;
    if s1 == s {
      k :| 0 <= k < |s| && KeyOf(s[k], field) == Str(url);
    } else {
      k := |s|;
    }
    assert Decode(s1, field).value[k] == Node(url);
  }

  // ---------------------------------------------------------------- Remove

  /** The index of the first record holding v under field; |s| when there is none. */
  function FirstMatch(s: seq<Record>, field: string, v: Value): (k: nat)
    ensures k <= |s|
    ensures forall j :: 0 <= j < k ==> KeyOf(s[j], field) != v
    ensures k < |s| ==> KeyOf(s[k], field) == v
  {
    if s == [] then 0
    else if KeyOf(s[0], field) == v then 0
    else 1 + FirstMatch(s[1..], field, v)
  }

  /** Remove({field: v}): drop the first matching record, or report that none matches. */
  function RemoveOne(s: seq<Record>, field: string, v: Value): (r: Result<seq<Record>>)
    ensures r.Err? <==> !Stored(s, field, v)
    ensures r.Err? ==> r.error == NotFound
    ensures r.Ok? ==>
      && FirstMatch(s, field, v) < |s|
      && r.value == s[..FirstMatch(s, field, v)] + s[FirstMatch(s, field, v) + 1..]
  {
    var k := FirstMatch(s, field, v);
    if k == |s| then Err(NotFound) else Ok(s[..k] + s[k + 1..])
  }

  /** Removing one record keeps the keys unique. */
  lemma RemoveKeepsUnique(s: seq<Record>, field: string, v: Value)
    requires UniqueKeys(s, field) && RemoveOne(s, field, v).Ok?
    ensures UniqueKeys(RemoveOne(s, field, v).value, field)
  {
    var k := FirstMatch(s, field, v);
    var s1 := RemoveOne(s, field, v).value;
    assert forall i :: 0 <= i < |s1| ==> s1[i] == s[if i < k then i else i + 1];
  }

  /** Under unique keys, once the matching record is removed no record holds the key. */
  lemma RemovedIsGone(s: seq<Record>, field: string, v: Value)
    requires UniqueKeys(s, field) && RemoveOne(s, field, v).Ok?
    ensures !Stored(RemoveOne(s, field, v).value, field, v)
  {
    var k := FirstMatch(s, field, v);
    var s1 := RemoveOne(s, field, v).value;
    assert forall i :: 0 <= i < |s1| ==> s1[i] == s[if i < k then i else i + 1];
    forall i | 0 <= i < |s1|
      ensures KeyOf(s1[i], field) != v
    {
      if i >= k {
        assert KeyOf(s[k], field) != KeyOf(s[i + 1], field);
      }
    }
  }

  /** Under unique keys, a successful Fetch after the removal no longer lists the node. */
  lemma RemovedIsNotFetched(s: seq<Record>, field: string, url: string)
    requires UniqueKeys(s, field) && RemoveOne(s, field, Str(url)).Ok?
    requires Decode(RemoveOne(s, field, Str(url)).value, field).Ok?
    ensures Node(url) !in Decode(RemoveOne(s, field, Str(url)).value, field).value
  {
    var s1 := RemoveOne(s, field, Str(url)).value;
    RemovedIsGone(s, field, Str(url));
    DecodeSucceeds(s1, field);
    var nodes := Decode(s1, field).value;
    forall i | 0 <= i < |nodes|
      ensures nodes[i] != Node(url)
    {
      assert KeyOf(s1[i], field) != Str(url);
    }
  }

  /** Removing the key of a record just inserted, that nothing else held, restores the collection. */
  lemma InsertThenRemove(s: seq<Record>, field: string, rec: Record)
    requires !Stored(s, field, KeyOf(rec, field))
    ensures RemoveOne(s + [rec], field, KeyOf(rec, field)) == Ok(s)
  {
    var s1 := s + [rec];
    assert KeyOf(s1[|s|], field) == KeyOf(rec, field);
    assert forall j :: 0 <= j < |s| ==> s1[j] == s[j];
    var k := FirstMatch(s1, field, KeyOf(rec, field));
    assert k == |s|;
    assert s1[..k] + s1[k + 1..] == s;
    assert RemoveOne(s1, field, KeyOf(rec, field)) == Ok(s1[..k] + s1[k + 1..]);
  }
}

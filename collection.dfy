/**
 * The MongoDB `entry` collection the roster code talks to, as an in-memory
 * sequence of documents in natural (insertion) order.  Each database call the
 * code makes is a method of `Store`; each method is specified by a function on
 * the sequence of documents, and the properties of those functions are lemmas.
 */
module Collection {
  import opened Values

  /** The filter `{field: key}` selects a document whose field holds the string `key`. */
  predicate Matches(rec: Record, field: string, key: string)
  {
    field in rec && rec[field] == VStr(key)
  }

  /** Position of the first document, in natural order, selected by `{field: key}`. */
  function FirstMatch(recs: seq<Record>, field: string, key: string): (r: Option<nat>)
    ensures r.Some? ==> r.value < |recs| && Matches(recs[r.value], field, key)
    ensures r.Some? ==> forall j :: 0 <= j < r.value ==> !Matches(recs[j], field, key)
    ensures r.None? ==> forall j :: 0 <= j < |recs| ==> !Matches(recs[j], field, key)
  {
    if recs == [] then None
    else if Matches(recs[0], field, key) then Some(0)
    else match FirstMatch(recs[1..], field, key)
      case None => None
      case Some(i) => Some(i + 1)
  }

  /** When `b` selects under `{field: key}` the same positions as `a` does, up to
      the length of `a`, its first match is that of `a`, or lies beyond `a`. */
  lemma FirstMatchAgree(a: seq<Record>, b: seq<Record>, field: string, key: string)
    requires |a| <= |b|
    requires forall p :: 0 <= p < |a| ==> (Matches(a[p], field, key) <==> Matches(b[p], field, key))
    ensures FirstMatch(a, field, key).Some? ==> FirstMatch(b, field, key) == FirstMatch(a, field, key)
    ensures FirstMatch(a, field, key).None? ==>
      FirstMatch(b, field, key).None? || FirstMatch(b, field, key).value >= |a|
  {
    var ra, rb := FirstMatch(a, field, key), FirstMatch(b, field, key);
    if ra.Some? && rb.Some? {
      assert !(ra.value < rb.value) && !(rb.value < ra.value);
    }
  }

  /** `update_one({field: key}, {"$set": fields}, upsert=upsert)`: the first selected
      document gets the values of `fields`; when none is selected and `upsert` holds,
      the document `{field: key}` extended by `fields` is appended. */
  function Updated(recs: seq<Record>, field: string, key: string, fields: Record, upsert: bool): seq<Record>
  {
    match FirstMatch(recs, field, key)
    case Some(i) => recs[i := recs[i] + fields]
    case None => if upsert then recs + [map[field := VStr(key)] + fields] else recs
  }

  /** `update_many({}, {"$set": fields})`: every document gets the values of `fields`. */
  function SetAll(recs: seq<Record>, fields: Record): (r: seq<Record>)
    ensures |r| == |recs|
    ensures forall i :: 0 <= i < |r| ==> r[i] == recs[i] + fields
  {
    seq(|recs|, i requires 0 <= i < |recs| => recs[i] + fields)
  }

  /** The `modified_count` of `update_many({}, {"$set": fields})`: how many documents
      the update actually changes. */
  function ChangedCount(recs: seq<Record>, fields: Record): (n: nat)
    ensures n <= |recs|
  {
    if recs == [] then 0
    else
      var last := recs[|recs| - 1];
      ChangedCount(recs[..|recs| - 1], fields) + (if last + fields != last then 1 else 0)
  }

  /** Nothing is counted exactly when every document already holds the values of `fields`. */
  lemma {:induction false} ChangedCountZero(recs: seq<Record>, fields: Record)
    ensures ChangedCount(recs, fields) == 0 <==> forall i :: 0 <= i < |recs| ==> recs[i] + fields == recs[i]
  {
    if recs != [] {
      var init := recs[..|recs| - 1];
      ChangedCountZero(init, fields);
      assert forall i :: 0 <= i < |init| ==> init[i] == recs[i];
    }
  }

  /** Everything is counted exactly when no document already holds the values of `fields`. */
  lemma {:induction false} ChangedCountAll(recs: seq<Record>, fields: Record)
    ensures ChangedCount(recs, fields) == |recs| <==> forall i :: 0 <= i < |recs| ==> recs[i] + fields != recs[i]
  {
    if recs != [] {
      var init := recs[..|recs| - 1];
      ChangedCountAll(init, fields);
      assert forall i :: 0 <= i < |init| ==> init[i] == recs[i];
    }
  }

  /** A second `update_many` with the same `$set` modifies nothing. */
  lemma SetAllTwice(recs: seq<Record>, fields: Record)
    ensures SetAll(SetAll(recs, fields), fields) == SetAll(recs, fields)
    ensures ChangedCount(SetAll(recs, fields), fields) == 0
  {
    var once := SetAll(recs, fields);
    forall i | 0 <= i < |once| ensures once[i] + fields == once[i] {
      assert once[i] + fields == recs[i] + fields + fields;
    }
    ChangedCountZero(once, fields);
  }

  /** The set `distinct(field)` returns: every value the field holds in some document. */
  function FieldValues(recs: seq<Record>, field: string): set<Value>
  {
    set i | 0 <= i < |recs| && field in recs[i] :: recs[i][field]
  }

  class Store {
    /** The documents of the collection, in natural order. */
    var records: seq<Record>

    constructor ()
      ensures records == []
    {
      records := [];
    }

    /** Scan for the first document selected by `{field: key}`. */
    method Locate(field: string, key: string) returns (at: Option<nat>)
      ensures at.Some? ==> at.value < |records| && Matches(records[at.value], field, key)
      ensures at.Some? ==> forall j :: 0 <= j < at.value ==> !Matches(records[j], field, key)
      ensures at.None? <==> forall j :: 0 <= j < |records| ==> !Matches(records[j], field, key)
    {
      var i := 0;
      while i < |records|
        invariant 0 <= i <= |records|
        invariant forall j :: 0 <= j < i ==> !Matches(records[j], field, key)
      {
        if Matches(records[i], field, key) {
          return Some(i);
        }
        i := i + 1;
      }
      return None;
    }

    /** `find_one({field: key})`: the first selected document, or None. */
    method FindOne(field: string, key: string) returns (found: Option<Record>)
      ensures found.None? <==> FirstMatch(records, field, key).None?
      ensures found.Some? ==> found.value == records[FirstMatch(records, field, key).value]
      ensures found.Some? ==> Matches(found.value, field, key)
    {
      var at := Locate(field, key);
      ghost var first := FirstMatch(records, field, key);
      assert at.Some? ==> first == at by {
        if at.Some? {
          assert first.Some?;
          assert !(first.value < at.value) && !(at.value < first.value);
        }
      }
      if at.Some? {
        found := Some(records[at.value]);
      } else {
        found := None;
      }
    }

    /** `update_one({field: key}, {"$set": fields}, upsert=upsert)` */
    method UpdateOne(field: string, key: string, fields: Record, upsert: bool)
      modifies this
      ensures records == Updated(old(records), field, key, fields, upsert)
    {
      var at := Locate(field, key);
      ghost var first := FirstMatch(records, field, key);
      if at.Some? {
        assert first.Some?;
        assert !(first.value < at.value) && !(at.value < first.value);
        records := records[at.value := records[at.value] + fields];
      } else if upsert {
        records := records + [map[field := VStr(key)] + fields];
      }
    }

    /** `update_many({}, {"$set": fields})`, returning the result's `modified_count`. */
    method UpdateMany(fields: Record) returns (modified: nat)
      modifies this
      ensures records == SetAll(old(records), fields)
      ensures modified == ChangedCount(old(records), fields)
    {
      var i := 0;
      modified := 0;
      while i < |records|
        invariant 0 <= i <= |records| == |old(records)|
        invariant forall j :: 0 <= j < i ==> records[j] == old(records)[j] + fields
        invariant forall j :: i <= j < |records| ==> records[j] == old(records)[j]
        invariant modified == ChangedCount(old(records)[..i], fields)
      {
        var rec := records[i];
        var next := rec + fields;
        if next != rec {
          modified := modified + 1;
        }
        assert old(records)[..i + 1][..i] == old(records)[..i];
        records := records[i := next];
        i := i + 1;
      }
      assert old(records)[..i] == old(records);
    }

    /** `insert_many(docs)`, returning how many ids were inserted; the driver
        refuses an empty list, so callers only pass a non-empty one. */
    method InsertMany(docs: seq<Record>) returns (inserted: nat)
      requires docs != []
      modifies this
      ensures records == old(records) + docs
      ensures inserted == |docs|
    {
      records := records + docs;
      inserted := |docs|;
    }

    /** `distinct(field)`: the values the field holds across the collection. */
    method Distinct(field: string) returns (values: set<Value>)
      ensures forall v :: v in values <==> exists i :: 0 <= i < |records| && field in records[i] && records[i][field] == v
    {
      values := {};
      var i := 0;
      while i < |records|
        invariant 0 <= i <= |records|
        invariant forall v :: v in values <==> exists j :: 0 <= j < i && field in records[j] && records[j][field] == v
      {
        if field in records[i] {
          values := values + {records[i][field]};
        }
        i := i + 1;
      }
    }
  }
}

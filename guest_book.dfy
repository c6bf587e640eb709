/**
 * The guest-book revision of the roster (app/database.py): CSV import that
 * upserts one document per row keyed on `id`, CSV export of
 * `id,name,check_in,checked_in_at`, one-time check-in, and reset of one
 * participant or of everyone.
 */
module GuestBook {
  import opened Values
  import opened Collection

  const EmptyFile := "Empty file"
  const MissingColumns := "Missing required columns id and/or name"
  const IdNotFound := "ID not found"
  const AlreadyCheckedIn := "Already checked in"

  /** The argument of a reset that means "every participant". */
  const ResetAllArgument := "all"

  /** The exported header, which is also the order of every exported row. */
  const Columns := ["id", "name", "check_in", "checked_in_at"]

  /** The fields of every document the import writes. */
  const DocumentFields := {"id", "name", "check_in", "checked_in_at"}

  /** An operation's result together with the collection it leaves behind. */
  datatype Step<T> = Step(result: Result<T>, records: seq<Record>)

  // ---------------------------------------------------------------------------
  // Import: upsert keyed on `id`
  // ---------------------------------------------------------------------------

  /** The header only has to contain `id` and `name`; other columns are accepted. */
  predicate HasRequiredColumns(header: seq<string>)
  {
    "id" in header && "name" in header
  }

  /** Extra columns, before or after, never make a header unacceptable. */
  lemma ExtraColumnsAccepted(header: seq<string>, before: seq<string>, after: seq<string>)
    requires HasRequiredColumns(header)
    ensures HasRequiredColumns(before + header + after)
  {
    assert forall c :: c in header ==> c in before + header + after;
  }

  /** The document written for one CSV row: absent check-in columns default to
      False and None, so importing a row without them clears its check-in. */
  function RowDocument(row: map<string, string>): (doc: Record)
    requires "id" in row && "name" in row
    ensures doc.Keys == DocumentFields
    ensures doc["id"] == VStr(row["id"]) && doc["name"] == VStr(row["name"])
  {
    map["id" := VStr(row["id"]),
        "name" := VStr(row["name"]),
        "check_in" := if "check_in" in row then VStr(row["check_in"]) else VBool(false),
        "checked_in_at" := if "checked_in_at" in row then VStr(row["checked_in_at"]) else VNull]
  }

  predicate HasIdAndName(rows: seq<map<string, string>>)
  {
    forall i :: 0 <= i < |rows| ==> "id" in rows[i] && "name" in rows[i]
  }

  /** The `documents` list the import builds, one per row in input order. */
  function Documents(rows: seq<map<string, string>>): (docs: seq<Record>)
    requires HasIdAndName(rows)
    ensures |docs| == |rows|
    ensures forall i :: 0 <= i < |rows| ==> docs[i] == RowDocument(rows[i])
  {
    seq(|rows|, i requires 0 <= i < |rows| && "id" in rows[i] && "name" in rows[i] => RowDocument(rows[i]))
  }

  /** A document that carries a string `id`, the key of its upsert. */
  predicate Keyed(doc: Record)
  {
    "id" in doc && doc["id"].VStr?
  }

  predicate AllKeyed(docs: seq<Record>)
  {
    forall i :: 0 <= i < |docs| ==> Keyed(docs[i])
  }

  function KeyOf(doc: Record): string
    requires Keyed(doc)
  {
    doc["id"].s
  }

  /** The collection after `update_one({"id": doc["id"]}, {"$set": doc}, upsert=True)`
      for every document in order. */
  function UpsertAll(recs: seq<Record>, docs: seq<Record>): seq<Record>
    requires AllKeyed(docs)
  {
    if docs == [] then recs
    else
      var last := docs[|docs| - 1];
      Updated(UpsertAll(recs, docs[..|docs| - 1]), "id", KeyOf(last), last, true)
  }

  /** Position of the last document in `docs` keyed on `key`. */
  function LastWith(docs: seq<Record>, key: string): (r: Option<nat>)
    requires AllKeyed(docs)
    ensures r.Some? ==> r.value < |docs| && KeyOf(docs[r.value]) == key
    ensures r.Some? ==> forall j :: r.value < j < |docs| ==> KeyOf(docs[j]) != key
    ensures r.None? ==> forall j :: 0 <= j < |docs| ==> KeyOf(docs[j]) != key
  {
    if docs == [] then None
    else if KeyOf(docs[|docs| - 1]) == key then Some(|docs| - 1)
    else LastWith(docs[..|docs| - 1], key)
  }

  /** Every field of `doc` holds the same value in `rec`. */
  predicate Carries(rec: Record, doc: Record)
  {
    forall f :: f in doc ==> f in rec && rec[f] == doc[f]
  }

  lemma CarriesAbsorbs(rec: Record, doc: Record)
    requires Carries(rec, doc)
    ensures rec + doc == rec
  {
  }

  /** A later `$set` over at least the same fields hides an earlier one. */
  lemma LaterSetWins(rec: Record, earlier: Record, later: Record)
    requires earlier.Keys <= later.Keys
    ensures rec + earlier + later == rec + later
  {
  }

  /** Upserting a keyed document leaves the first document with that key carrying it. */
  lemma UpsertCarries(recs: seq<Record>, doc: Record)
    requires Keyed(doc)
    ensures var after := Updated(recs, "id", KeyOf(doc), doc, true);
      FirstMatch(after, "id", KeyOf(doc)).Some? &&
      Carries(after[FirstMatch(after, "id", KeyOf(doc)).value], doc)
  {
    var key := KeyOf(doc);
    var after := Updated(recs, "id", key, doc, true);
    match FirstMatch(recs, "id", key)
    case Some(i) =>
      assert Matches(after[i], "id", key);
      FirstMatchAgree(recs, after, "id", key);
    case None =>
      assert Matches(after[|recs|], "id", key);
      FirstMatchAgree(recs, after, "id", key);
  }

  /** Upserting a document with another key changes neither which document is the
      first with `key` nor that document. */
  lemma UpsertOtherKey(recs: seq<Record>, doc: Record, key: string)
    requires Keyed(doc) && KeyOf(doc) != key
    ensures var after := Updated(recs, "id", KeyOf(doc), doc, true);
      FirstMatch(after, "id", key) == FirstMatch(recs, "id", key) &&
      (FirstMatch(recs, "id", key).Some? ==>
        after[FirstMatch(recs, "id", key).value] == recs[FirstMatch(recs, "id", key).value])
  {
    var after := Updated(recs, "id", KeyOf(doc), doc, true);
    assert forall p :: |recs| <= p < |after| ==> !Matches(after[p], "id", key);
    FirstMatchAgree(recs, after, "id", key);
    assert FirstMatch(recs, "id", key).None? ==> FirstMatch(after, "id", key).None?;
  }

  /** After an upsert import, the first document with a given `id` carries every
      field of the last row with that `id`: the last duplicate wins. */
  lemma {:induction false} LastDuplicateWins(recs: seq<Record>, docs: seq<Record>, key: string)
    requires AllKeyed(docs) && LastWith(docs, key).Some?
    ensures var after := UpsertAll(recs, docs);
      FirstMatch(after, "id", key).Some? &&
      Carries(after[FirstMatch(after, "id", key).value], docs[LastWith(docs, key).value])
  {
    var init, last := docs[..|docs| - 1], docs[|docs| - 1];
    assert AllKeyed(init);
    var before := UpsertAll(recs, init);
    assert UpsertAll(recs, docs) == Updated(before, "id", KeyOf(last), last, true);
    if KeyOf(last) == key {
      UpsertCarries(before, last);
    } else {
      assert LastWith(docs, key) == LastWith(init, key);
      LastDuplicateWins(recs, init, key);
      UpsertOtherKey(before, last, key);
    }
  }

  /** What an upsert import leaves at position `p` of the collection it started from:
      the document with the last row for its `id` applied, if it is the first
      document with that `id` and the batch has one; otherwise the same document. */
  ghost function Refreshed(recs: seq<Record>, docs: seq<Record>, p: nat): Record
    requires p < |recs| && AllKeyed(docs)
  {
    var rec := recs[p];
    if "id" in rec && rec["id"].VStr? && FirstMatch(recs, "id", rec["id"].s) == Some(p)
       && LastWith(docs, rec["id"].s).Some?
    then rec + docs[LastWith(docs, rec["id"].s).value]
    else rec
  }

  /** Upserting documents that all have the same fields only ever updates the first
      document of each `id` in place or appends: the documents that were already
      there end up as `Refreshed` says, and nothing is appended when every `id` of
      the batch was already present. */
  lemma {:induction false} UpsertAllOnExisting(recs: seq<Record>, docs: seq<Record>)
    requires AllKeyed(docs)
    requires forall i :: 0 <= i < |docs| ==> docs[i].Keys == DocumentFields
    ensures |UpsertAll(recs, docs)| >= |recs|
    ensures forall p :: 0 <= p < |recs| ==> UpsertAll(recs, docs)[p] == Refreshed(recs, docs, p)
    ensures (forall j :: 0 <= j < |docs| ==> FirstMatch(recs, "id", KeyOf(docs[j])).Some?) ==>
      |UpsertAll(recs, docs)| == |recs|
  {
    if docs == [] {
      forall p | 0 <= p < |recs| ensures recs[p] == Refreshed(recs, docs, p) {
      }
    } else {
      var init, d := docs[..|docs| - 1], docs[|docs| - 1];
      assert AllKeyed(init);
      var k := KeyOf(d);
      UpsertAllOnExisting(recs, init);
      var before := UpsertAll(recs, init);
      var after := UpsertAll(recs, docs);
      assert after == Updated(before, "id", k, d, true);
      // Each old position keeps its `id`, so `{"id": k}` selects the same old positions.
      forall p | 0 <= p < |recs|
        ensures Matches(before[p], "id", k) <==> Matches(recs[p], "id", k)
      {
        assert before[p] == Refreshed(recs, init, p);
      }
      FirstMatchAgree(recs, before, "id", k);
      forall p | 0 <= p < |recs| ensures after[p] == Refreshed(recs, docs, p) {
        assert before[p] == Refreshed(recs, init, p);
        var rec := recs[p];
        if "id" in rec && rec["id"].VStr? && rec["id"].s != k {
          assert LastWith(docs, rec["id"].s) == LastWith(init, rec["id"].s);
        }
        if FirstMatch(recs, "id", k) == Some(p) {
          assert LastWith(docs, k) == Some(|docs| - 1);
          match LastWith(init, k)
          case None =>
          case Some(j) => LaterSetWins(rec, init[j], d);
        }
      }
    }
  }

  /** Importing the same batch twice leaves the same collection as importing it once. */
  lemma UpsertAllIdempotent(recs: seq<Record>, docs: seq<Record>)
    requires AllKeyed(docs)
    requires forall i :: 0 <= i < |docs| ==> docs[i].Keys == DocumentFields
    ensures UpsertAll(UpsertAll(recs, docs), docs) == UpsertAll(recs, docs)
  {
    var once := UpsertAll(recs, docs);
    forall j | 0 <= j < |docs| ensures FirstMatch(once, "id", KeyOf(docs[j])).Some? {
      LastDuplicateWins(recs, docs, KeyOf(docs[j]));
    }
    UpsertAllOnExisting(once, docs);
    var twice := UpsertAll(once, docs);
    forall p | 0 <= p < |once| ensures twice[p] == once[p] {
      var rec := once[p];
      if "id" in rec && rec["id"].VStr? && FirstMatch(once, "id", rec["id"].s) == Some(p)
         && LastWith(docs, rec["id"].s).Some? {
        LastDuplicateWins(recs, docs, rec["id"].s);
        CarriesAbsorbs(rec, docs[LastWith(docs, rec["id"].s).value]);
      }
    }
  }

  /** The import's outcome for one row: the row that is the last with its `id`
      leaves a document with that `id` holding its name and its check-in columns,
      or False and None when the file has no such columns. */
  lemma ImportedRow(recs: seq<Record>, rows: seq<map<string, string>>, j: nat)
    requires HasIdAndName(rows) && j < |rows|
    requires forall k :: j < k < |rows| ==> rows[k]["id"] != rows[j]["id"]
    ensures var after := UpsertAll(recs, Documents(rows));
      var at := FirstMatch(after, "id", rows[j]["id"]);
      && at.Some?
      && "name" in after[at.value] && "check_in" in after[at.value] && "checked_in_at" in after[at.value]
      && after[at.value]["name"] == VStr(rows[j]["name"])
      && after[at.value]["check_in"] ==
         (if "check_in" in rows[j] then VStr(rows[j]["check_in"]) else VBool(false))
      && after[at.value]["checked_in_at"] ==
         (if "checked_in_at" in rows[j] then VStr(rows[j]["checked_in_at"]) else VNull)
  {
    var docs := Documents(rows);
    assert AllKeyed(docs);
    assert docs[j] == RowDocument(rows[j]) && "name" in docs[j];
    assert LastWith(docs, rows[j]["id"]) == Some(j);
    LastDuplicateWins(recs, docs, rows[j]["id"]);
  }

  /** Re-importing a file leaves the collection as the first import left it. */
  lemma ImportIdempotent(recs: seq<Record>, rows: seq<map<string, string>>)
    requires HasIdAndName(rows)
    ensures UpsertAll(UpsertAll(recs, Documents(rows)), Documents(rows)) ==
            UpsertAll(recs, Documents(rows))
  {
    UpsertAllIdempotent(recs, Documents(rows));
  }

  /** Importing a one-row file into an empty collection stores exactly that row's
      document. */
  lemma ImportIntoEmpty(row: map<string, string>)
    requires "id" in row && "name" in row
    ensures HasIdAndName([row]) && UpsertAll([], Documents([row])) == [RowDocument(row)]
  {
    var doc := RowDocument(row);
    assert Documents([row]) == [doc];
    assert UpsertAll([], [doc]) == Updated([], "id", row["id"], doc, true);
    assert map["id" := VStr(row["id"])] + doc == doc;
  }

  /** `import_csv`: reject a blank file, then a header without `id` and `name`;
      otherwise upsert one document per row and report the number of rows. */
  method ImportCsv(store: Store, text: string, header: seq<string>, rows: seq<map<string, string>>)
    returns (r: Result<nat>)
    requires FromHeader(header, rows)
    modifies store
    ensures IsBlank(text) ==> r == Fail(EmptyFile) && store.records == old(store.records)
    ensures !IsBlank(text) && !HasRequiredColumns(header) ==>
      r == Fail(MissingColumns) && store.records == old(store.records)
    ensures !IsBlank(text) && HasRequiredColumns(header) ==>
      HasIdAndName(rows) && r == Ok(|rows|) &&
      store.records == UpsertAll(old(store.records), Documents(rows))
  {
    if Trim(text) == "" {
      return Fail(EmptyFile);
    }
    if !HasRequiredColumns(header) {
      return Fail(MissingColumns);
    }
    RequiredColumnsInEveryRow(header, rows);
    var documents: seq<Record> := [];
    var i := 0;
    while i < |rows|
      invariant 0 <= i <= |rows|
      invariant store.records == old(store.records)
      invariant |documents| == i
      invariant forall k :: 0 <= k < i ==> documents[k] == RowDocument(rows[k])
    {
      documents := documents + [RowDocument(rows[i])];
      i := i + 1;
    }
    assert documents == Documents(rows);
    assert AllKeyed(documents);
    i := 0;
    while i < |documents|
      invariant 0 <= i <= |documents|
      invariant store.records == UpsertAll(old(store.records), documents[..i])
    {
      var doc := documents[i];
      UpsertAllStep(old(store.records), documents, i);
      store.UpdateOne("id", doc["id"].s, doc, true);
      i := i + 1;
    }
    assert documents[..i] == documents;
    return Ok(|documents|);
  }

  /** Every row of an accepted header has an `id` and a `name` cell. */
  lemma RequiredColumnsInEveryRow(header: seq<string>, rows: seq<map<string, string>>)
    requires FromHeader(header, rows) && HasRequiredColumns(header)
    ensures HasIdAndName(rows)
  {
    forall i | 0 <= i < |rows| ensures "id" in rows[i] && "name" in rows[i] {
      assert "id" in (set c | c in header) && "name" in (set c | c in header);
    }
  }

  /** One more `update_one` extends the upserted prefix by one document. */
  lemma UpsertAllStep(recs: seq<Record>, docs: seq<Record>, i: nat)
    requires AllKeyed(docs) && i < |docs|
    ensures AllKeyed(docs[..i]) && AllKeyed(docs[..i + 1])
    ensures UpsertAll(recs, docs[..i + 1]) ==
            Updated(UpsertAll(recs, docs[..i]), "id", KeyOf(docs[i]), docs[i], true)
  {
    assert docs[..i + 1][..i] == docs[..i];
  }

  // ---------------------------------------------------------------------------
  // Export
  // ---------------------------------------------------------------------------

  /** `export_csv`: the header, then one row per stored document in store order,
      a missing field written as an empty cell. */
  method ExportCsv(store: Store) returns (table: seq<seq<string>>)
    ensures |table| == |store.records| + 1
    ensures table[0] == ["id", "name", "check_in", "checked_in_at"]
    ensures forall i :: 0 <= i < |store.records| ==>
      table[i + 1] == [Cell(store.records[i], "id"), Cell(store.records[i], "name"),
                       Cell(store.records[i], "check_in"), Cell(store.records[i], "checked_in_at")]
  {
    var entries := store.records;
    table := [Columns];
    var i := 0;
    while i < |entries|
      invariant 0 <= i <= |entries|
      invariant |table| == i + 1 && table[0] == Columns
      invariant forall k :: 0 <= k < i ==>
        table[k + 1] == [Cell(entries[k], "id"), Cell(entries[k], "name"),
                         Cell(entries[k], "check_in"), Cell(entries[k], "checked_in_at")]
    {
      var entry := entries[i];
      table := table + [[Cell(entry, "id"), Cell(entry, "name"),
                         Cell(entry, "check_in"), Cell(entry, "checked_in_at")]];
      i := i + 1;
    }
  }

  // ---------------------------------------------------------------------------
  // Check-in and reset
  // ---------------------------------------------------------------------------

  /** The stored `check_in`, tested as `entry.get("check_in", False)` is. */
  predicate IsCheckedIn(rec: Record)
  {
    Truthy(Get(rec, "check_in", VBool(false)))
  }

  function CheckedInFields(now: string): Record
  {
    map["check_in" := VBool(true), "checked_in_at" := VStr(now)]
  }

  const ResetFields: Record := map["check_in" := VBool(false), "checked_in_at" := VNull]

  /** `check_in(entry_id)` at time `now`. */
  function CheckInStep(recs: seq<Record>, id: string, now: string): Step<string>
  {
    match FirstMatch(recs, "id", id)
    case None => Step(Fail(IdNotFound), recs)
    case Some(i) =>
      if IsCheckedIn(recs[i]) then Step(Fail(AlreadyCheckedIn), recs)
      else Step(Ok(now), recs[i := recs[i] + CheckedInFields(now)])
  }

  /** `reset_check_in(entry_id)`: the argument "all" resets every document, even
      when some document has the id "all". */
  function ResetStep(recs: seq<Record>, id: string): Step<nat>
  {
    if id != ResetAllArgument then
      match FirstMatch(recs, "id", id)
      case None => Step(Fail(IdNotFound), recs)
      case Some(i) => Step(Ok(1), recs[i := recs[i] + ResetFields])
    else
      Step(Ok(ChangedCount(recs, ResetFields)), SetAll(recs, ResetFields))
  }

  /** The three outcomes of a check-in: refused for an absent id, refused for a
      document already checked in, and successful otherwise. A successful one
      changes only the two check-in fields of the first document with that id. */
  lemma CheckInOutcomes(recs: seq<Record>, id: string, now: string)
    ensures var step := CheckInStep(recs, id, now);
      && (FirstMatch(recs, "id", id).None? ==> step == Step(Fail(IdNotFound), recs))
      && (FirstMatch(recs, "id", id).Some? && IsCheckedIn(recs[FirstMatch(recs, "id", id).value]) ==>
            step == Step(Fail(AlreadyCheckedIn), recs))
      && (FirstMatch(recs, "id", id).Some? && !IsCheckedIn(recs[FirstMatch(recs, "id", id).value]) ==>
            step.result == Ok(now))
      && (step.result.Ok? ==>
            var i := FirstMatch(recs, "id", id).value;
            && step.result.value == now
            && |step.records| == |recs|
            && (forall j :: 0 <= j < |recs| && j != i ==> step.records[j] == recs[j])
            && step.records[i]["check_in"] == VBool(true)
            && step.records[i]["checked_in_at"] == VStr(now)
            && (forall f :: f != "check_in" && f != "checked_in_at" ==>
                  (f in step.records[i] <==> f in recs[i]) &&
                  (f in recs[i] ==> step.records[i][f] == recs[i][f])))
  {
  }

  /** A check-in that succeeded is never followed by a second successful one. */
  lemma CheckInAtMostOnce(recs: seq<Record>, id: string, first: string, second: string)
    requires CheckInStep(recs, id, first).result.Ok?
    ensures CheckInStep(CheckInStep(recs, id, first).records, id, second) ==
            Step(Fail(AlreadyCheckedIn), CheckInStep(recs, id, first).records)
  {
    var after := CheckInStep(recs, id, first).records;
    var i := FirstMatch(recs, "id", id).value;
    assert forall p :: 0 <= p < |recs| && p != i ==> after[p] == recs[p];
    assert Matches(after[i], "id", id);
    FirstMatchAgree(recs, after, "id", id);
  }

  /** Resetting one id fails when it is absent, and otherwise sets only that
      document's check-in fields to False and None and reports 1. */
  lemma ResetOneOutcomes(recs: seq<Record>, id: string)
    requires id != ResetAllArgument
    ensures var step := ResetStep(recs, id);
      && (FirstMatch(recs, "id", id).None? ==> step == Step(Fail(IdNotFound), recs))
      && (FirstMatch(recs, "id", id).Some? ==>
            var i := FirstMatch(recs, "id", id).value;
            && step.result == Ok(1)
            && |step.records| == |recs|
            && (forall j :: 0 <= j < |recs| && j != i ==> step.records[j] == recs[j])
            && step.records[i]["check_in"] == VBool(false)
            && step.records[i]["checked_in_at"] == VNull
            && (forall f :: f != "check_in" && f != "checked_in_at" ==>
                  (f in step.records[i] <==> f in recs[i]) &&
                  (f in recs[i] ==> step.records[i][f] == recs[i][f])))
  {
  }

  /** A document is untouched by the reset `$set` exactly when it already holds
      False and None in the two check-in fields. */
  predicate IsReset(rec: Record)
  {
    "check_in" in rec && rec["check_in"] == VBool(false) &&
    "checked_in_at" in rec && rec["checked_in_at"] == VNull
  }

  lemma ResetFieldsAbsorbed(rec: Record)
    ensures rec + ResetFields == rec <==> IsReset(rec)
  {
    if rec + ResetFields == rec {
      assert (rec + ResetFields)["check_in"] == VBool(false);
      assert (rec + ResetFields)["checked_in_at"] == VNull;
    }
  }

  /** Reset-all leaves every document with False and None, and reports how many
      documents it changed: none exactly when all were already reset, all of them
      exactly when none was. A second reset-all reports 0. */
  lemma ResetAllOutcome(recs: seq<Record>)
    ensures var step := ResetStep(recs, ResetAllArgument);
      && step.result.Ok? && step.result.value <= |recs|
      && |step.records| == |recs|
      && (forall i :: 0 <= i < |recs| ==> IsReset(step.records[i]))
      && (step.result.value == 0 <==> forall i :: 0 <= i < |recs| ==> IsReset(recs[i]))
      && (step.result.value == |recs| <==> forall i :: 0 <= i < |recs| ==> !IsReset(recs[i]))
      && ResetStep(step.records, ResetAllArgument).result == Ok(0)
  {
    forall i | 0 <= i < |recs| ensures recs[i] + ResetFields == recs[i] <==> IsReset(recs[i]) {
      ResetFieldsAbsorbed(recs[i]);
    }
    ChangedCountZero(recs, ResetFields);
    ChangedCountAll(recs, ResetFields);
    SetAllTwice(recs, ResetFields);
  }

  /** After reset-all every exported row shows `False` and an empty cell in the
      check-in columns. */
  lemma ResetAllThenExport(recs: seq<Record>)
    ensures var after := ResetStep(recs, ResetAllArgument).records;
      forall i :: 0 <= i < |after| ==>
        Cell(after[i], "check_in") == "False" && Cell(after[i], "checked_in_at") == ""
  {
  }

  /** A document is consistent when it counts as checked in exactly when it has a
      check-in time. */
  predicate Consistent(rec: Record)
  {
    IsCheckedIn(rec) <==> Get(rec, "checked_in_at", VNull) != VNull
  }

  predicate AllConsistent(recs: seq<Record>)
  {
    forall i :: 0 <= i < |recs| ==> Consistent(recs[i])
  }

  /** Check-in and reset keep every document consistent. */
  lemma CheckInResetKeepConsistent(recs: seq<Record>, id: string, now: string)
    requires AllConsistent(recs)
    ensures AllConsistent(CheckInStep(recs, id, now).records)
    ensures AllConsistent(ResetStep(recs, id).records)
  {
  }

  /** An import can store a document that is not consistent: a row whose
      `check_in` cell is empty but whose `checked_in_at` cell is not. */
  lemma ImportMayBreakConsistency()
    ensures !Consistent(RowDocument(map["id" := "A1", "name" := "Alice",
                                        "check_in" := "", "checked_in_at" := "09:00"]))
  {
  }

  /** The stored `check_in` is tested by Python truthiness, so an imported cell
      `"False"` counts as checked in while an empty cell does not. */
  lemma ImportedCheckInIsTruthy(id: string, name: string, cell: string, at: string, now: string)
    ensures var doc := RowDocument(map["id" := id, "name" := name,
                                       "check_in" := cell, "checked_in_at" := at]);
      CheckInStep([doc], id, now).result == (if cell == "" then Ok(now) else Fail(AlreadyCheckedIn))
  {
    var doc := RowDocument(map["id" := id, "name" := name, "check_in" := cell, "checked_in_at" := at]);
    assert Matches(doc, "id", id);
  }

  /** `check_in`: look the id up, refuse an absent or already checked-in entry,
      otherwise record the check-in at time `now` and return it. */
  method CheckIn(store: Store, entryId: string, now: string) returns (r: Result<string>)
    modifies store
    ensures r == CheckInStep(old(store.records), entryId, now).result
    ensures store.records == CheckInStep(old(store.records), entryId, now).records
  {
    var entry := store.FindOne("id", entryId);
    if entry.None? {
      return Fail(IdNotFound);
    }
    if Truthy(Get(entry.value, "check_in", VBool(false))) {
      return Fail(AlreadyCheckedIn);
    }
    store.UpdateOne("id", entryId, CheckedInFields(now), false);
    return Ok(now);
  }

  /** `reset_check_in`: reset one id, or every document when the argument is "all". */
  method ResetCheckIn(store: Store, entryId: string) returns (r: Result<nat>)
    modifies store
    ensures r == ResetStep(old(store.records), entryId).result
    ensures store.records == ResetStep(old(store.records), entryId).records
  {
    if entryId != ResetAllArgument {
      var entry := store.FindOne("id", entryId);
      if entry.None? {
        return Fail(IdNotFound);
      }
      store.UpdateOne("id", entryId, ResetFields, false);
      return Ok(1);
    } else {
      var modified := store.UpdateMany(ResetFields);
      return Ok(modified);
    }
  }

  /** On a collection holding one document that is not checked in: check-in
      succeeds, a second check-in is refused, and a reset reports 1. */
  lemma SingleEntryTrace(entry: Record, id: string, now: string)
    requires Matches(entry, "id", id) && !IsCheckedIn(entry) && id != ResetAllArgument
    ensures var checked := entry + CheckedInFields(now);
      && CheckInStep([entry], id, now) == Step(Ok(now), [checked])
      && CheckInStep([checked], id, now) == Step(Fail(AlreadyCheckedIn), [checked])
      && ResetStep([checked], id) == Step(Ok(1), [checked + ResetFields])
  {
    var checked := entry + CheckedInFields(now);
    assert FirstMatch([entry], "id", id) == Some(0);
    assert Matches(checked, "id", id);
    assert FirstMatch([checked], "id", id) == Some(0);
  }

  /** A file whose header is exactly `id,name` and whose one row fills both. */
  lemma IdNameFile(row: map<string, string>)
    requires row.Keys == {"id", "name"}
    ensures FromHeader(["id", "name"], [row]) && HasRequiredColumns(["id", "name"])
  {
    assert (set c | c in ["id", "name"]) == {"id", "name"};
  }

  /** A whole session on an empty collection: import `A1,Alice`, check in twice,
      reset that id, export. */
  method CheckInSession(now: string) returns (first: Result<string>, second: Result<string>,
                                              reset: Result<nat>, table: seq<seq<string>>)
    ensures first == Ok(now) && second == Fail(AlreadyCheckedIn) && reset == Ok(1)
    ensures table == [["id", "name", "check_in", "checked_in_at"], ["A1", "Alice", "False", ""]]
  {
    var store := new Store();
    var row := map["id" := "A1", "name" := "Alice"];
    var entry: Record := map["id" := VStr("A1"), "name" := VStr("Alice"),
                             "check_in" := VBool(false), "checked_in_at" := VNull];
    var text := "id,name\nA1,Alice\n";
    var header := ["id", "name"];
    assert !IsBlank(text) by {
      assert !IsSpace(text[0]);
    }
    IdNameFile(row);
    var imported := ImportCsv(store, text, header, [row]);
    assert store.records == [entry] by {
      ImportIntoEmpty(row);
    }
    var checked := entry + CheckedInFields(now);
    SingleEntryTrace(entry, "A1", now);
    first := CheckIn(store, "A1", now);
    second := CheckIn(store, "A1", now);
    reset := ResetCheckIn(store, "A1");
    assert store.records == [entry] by {
      LaterSetWins(entry, CheckedInFields(now), ResetFields);
      ResetFieldsAbsorbed(entry);
    }
    assert Cell(entry, "id") == "A1" && Cell(entry, "name") == "Alice";
    assert Cell(entry, "check_in") == "False" && Cell(entry, "checked_in_at") == "";
    table := ExportCsv(store);
  }
}

/**
 * The extended-roster revision (database.py): CSV import that accepts only the
 * exact nine-column header (optionally followed by the two check-in columns),
 * trims every cell and inserts only rows whose `nim` is not stored yet, and CSV
 * export of the eleven columns.
 */
module Roster {
  import opened Values
  import opened Collection

  const EmptyFile := "Empty file"
  const InvalidFormat := "Invalid file format"

  /** The nine columns of a roster file, in order. */
  const ExpectedHeader := ["nim", "name", "address", "phone_number", "email", "major",
                           "study_program", "generation", "status"]

  /** The two columns a roster file may carry after the nine. */
  const CheckInColumns := ["check_in", "checked_in_at"]

  /** The two check-in columns are not among the nine. */
  lemma CheckInColumnsApart()
    ensures "check_in" !in ExpectedHeader && "checked_in_at" !in ExpectedHeader
  {
    assert forall k :: 0 <= k < |ExpectedHeader| ==> ExpectedHeader[k][0] != 'c';
  }

  /** The columns of the export, which are also the fields of every staged document. */
  const Columns := ExpectedHeader + CheckInColumns

  // ---------------------------------------------------------------------------
  // Import: insert-only, keyed on the trimmed `nim`
  // ---------------------------------------------------------------------------

  /** The header check: exactly the nine columns, or exactly the nine followed by
      `check_in,checked_in_at`; the order matters and nothing else is accepted. */
  function HeaderAccepted(header: seq<string>): (ok: bool)
    ensures ok <==>
      && (|header| == 9 || |header| == 11)
      && (forall k :: 0 <= k < 9 ==> header[k] == ExpectedHeader[k])
      && (|header| == 11 ==> header[9] == "check_in" && header[10] == "checked_in_at")
  {
    header == ExpectedHeader || header == ExpectedHeader + CheckInColumns
  }

  /** A row that has a cell for each of the nine columns. */
  predicate HasRosterColumns(row: map<string, string>)
  {
    forall c :: c in ExpectedHeader ==> c in row
  }

  predicate AllRosterRows(rows: seq<map<string, string>>)
  {
    forall i :: 0 <= i < |rows| ==> HasRosterColumns(rows[i])
  }

  /** `row.get(column, "").strip() or default`: the trimmed cell, or `default`
      when that is empty or the column is absent. */
  function TrimmedOr(row: map<string, string>, column: string, default: Value): (v: Value)
    ensures v == default || (v.VStr? && v.s != "" && IsStripped(v.s))
    ensures column in row && !IsBlank(row[column]) ==> v == VStr(Trim(row[column]))
    ensures (column !in row || IsBlank(row[column])) ==> v == default
  {
    var cell := Trim(if column in row then row[column] else "");
    if cell != "" then VStr(cell) else default
  }

  /** The trimmed `nim` of a row, the key the import compares. */
  function NimOf(row: map<string, string>): string
    requires HasRosterColumns(row)
  {
    Trim(row["nim"])
  }

  /** The value staged for one column: the trimmed cell, or for the two check-in
      columns the trimmed cell or their default (False, None) when that is empty
      or absent. */
  function StagedValue(row: map<string, string>, column: string): Value
    requires column in row || column == "check_in" || column == "checked_in_at"
  {
    if column == "check_in" then TrimmedOr(row, column, VBool(false))
    else if column == "checked_in_at" then TrimmedOr(row, column, VNull)
    else VStr(Trim(row[column]))
  }

  predicate Stageable(row: map<string, string>, columns: seq<string>)
  {
    forall c :: c in columns ==> c in row || c == "check_in" || c == "checked_in_at"
  }

  /** The document holding the staged value of each of `columns`. */
  function StageColumns(row: map<string, string>, columns: seq<string>): Record
    requires Stageable(row, columns)
  {
    if columns == [] then map[]
    else
      var n := |columns| - 1;
      StageColumns(row, columns[..n])[columns[n] := StagedValue(row, columns[n])]
  }

  /** `StageColumns` has a field for exactly the given columns, each holding its
      staged value. */
  lemma {:induction false} StageColumnsSpec(row: map<string, string>, columns: seq<string>)
    requires Stageable(row, columns)
    ensures forall c :: c in StageColumns(row, columns) <==> c in columns
    ensures forall c :: c in columns ==> StageColumns(row, columns)[c] == StagedValue(row, c)
  {
    if columns != [] {
      var n := |columns| - 1;
      var init := columns[..n];
      assert forall c :: c in columns <==> c in init || c == columns[n];
      StageColumnsSpec(row, init);
    }
  }

  /** Every column of the export can be staged from a row with the nine roster cells. */
  lemma ColumnsStageable(row: map<string, string>)
    requires HasRosterColumns(row)
    ensures Stageable(row, Columns)
  {
    forall c | c in Columns ensures c in row || c == "check_in" || c == "checked_in_at" {
      assert c in ExpectedHeader || c in CheckInColumns;
    }
  }

  /** The document staged for a new row: every cell trimmed, `check_in` False and
      `checked_in_at` None when their cells are empty or absent. */
  function StageRow(row: map<string, string>): (doc: Record)
    requires HasRosterColumns(row)
    ensures "nim" in doc && doc["nim"] == VStr(NimOf(row))
  {
    ColumnsStageable(row);
    StageColumnsSpec(row, Columns);
    assert "nim" in Columns && "nim" in row;
    StageColumns(row, Columns)
  }

  /** A staged document has exactly the eleven exported fields. */
  lemma StagedFields(row: map<string, string>)
    requires HasRosterColumns(row)
    ensures StageRow(row).Keys == set c | c in Columns
  {
    ColumnsStageable(row);
    StageColumnsSpec(row, Columns);
  }

  /** Each of the nine roster fields of a staged document holds its trimmed cell;
      `check_in` holds the trimmed cell or False, `checked_in_at` the trimmed cell
      or None. */
  lemma StagedDocument(row: map<string, string>)
    requires HasRosterColumns(row)
    ensures var doc := StageRow(row);
      && (forall c :: c in ExpectedHeader ==> c in doc && doc[c] == VStr(Trim(row[c])))
      && "check_in" in doc && doc["check_in"] == TrimmedOr(row, "check_in", VBool(false))
      && "checked_in_at" in doc && doc["checked_in_at"] == TrimmedOr(row, "checked_in_at", VNull)
  {
    ColumnsStageable(row);
    StageColumnsSpec(row, Columns);
    CheckInColumnsApart();
    assert forall c :: c in ExpectedHeader ==> c in Columns;
    assert "check_in" in Columns && "checked_in_at" in Columns;
  }

  /** No staged value has whitespace at either end, and the two check-in fields never
      hold an empty string. */
  lemma StagedValuesStripped(row: map<string, string>)
    requires HasRosterColumns(row)
    ensures var doc := StageRow(row);
      && (forall f :: f in doc && doc[f].VStr? ==> IsStripped(doc[f].s))
      && "check_in" in doc && "checked_in_at" in doc
      && (doc["check_in"] == VBool(false) || (doc["check_in"].VStr? && doc["check_in"].s != ""))
      && (doc["checked_in_at"] == VNull || (doc["checked_in_at"].VStr? && doc["checked_in_at"].s != ""))
  {
    var doc := StageRow(row);
    StagedFields(row);
    StagedDocument(row);
    forall f | f in doc && doc[f].VStr? ensures IsStripped(doc[f].s) {
      assert f in Columns;
      assert f in ExpectedHeader || f in CheckInColumns;
    }
  }

  /** The key each row is compared by: its trimmed `nim`. */
  function NimKeys(rows: seq<map<string, string>>): (keys: seq<Value>)
    requires AllRosterRows(rows)
    ensures |keys| == |rows|
    ensures forall i :: 0 <= i < |rows| ==> keys[i] == VStr(NimOf(rows[i]))
  {
    seq(|rows|, i requires 0 <= i < |rows| => VStr(NimOf(rows[i])))
  }

  /** Positions, in input order, of the keys not among the `existing` values. */
  function NewPositions(keys: seq<Value>, existing: set<Value>): (idx: seq<nat>)
    ensures forall k :: 0 <= k < |idx| ==> idx[k] < |keys| && keys[idx[k]] !in existing
    ensures forall k, l :: 0 <= k < l < |idx| ==> idx[k] < idx[l]
    ensures forall i :: 0 <= i < |keys| && keys[i] !in existing ==> i in idx
  {
    if keys == [] then []
    else
      var n := |keys| - 1;
      NewPositions(keys[..n], existing) + (if keys[n] in existing then [] else [n])
  }

  /** The rows the import stages: in input order, every row whose trimmed `nim` is
      not among the `existing` values read before the loop. Rows are compared with
      the stored values only, never with each other. */
  function NewRows(rows: seq<map<string, string>>, existing: set<Value>): (picked: seq<map<string, string>>)
    requires AllRosterRows(rows)
    ensures AllRosterRows(picked)
  {
    var idx := NewPositions(NimKeys(rows), existing);
    seq(|idx|, k requires 0 <= k < |idx| => rows[idx[k]])
  }

  /** The staged document of each row, in order. */
  function StageAll(rows: seq<map<string, string>>): (docs: seq<Record>)
    requires AllRosterRows(rows)
  {
    seq(|rows|, k requires 0 <= k < |rows| => StageRow(rows[k]))
  }

  /** The `documents` list the import builds. */
  function Staged(rows: seq<map<string, string>>, existing: set<Value>): (docs: seq<Record>)
    requires AllRosterRows(rows)
  {
    StageAll(NewRows(rows, existing))
  }

  /** No position when every key is already stored. */
  lemma {:induction false} NewPositionsNone(keys: seq<Value>, existing: set<Value>)
    requires forall i :: 0 <= i < |keys| ==> keys[i] in existing
    ensures NewPositions(keys, existing) == []
  {
    if keys != [] {
      var init := keys[..|keys| - 1];
      assert forall i :: 0 <= i < |init| ==> init[i] == keys[i];
      NewPositionsNone(init, existing);
    }
  }

  /** Every position, in order, when no key is stored. */
  lemma {:induction false} NewPositionsAll(keys: seq<Value>, existing: set<Value>)
    requires forall i :: 0 <= i < |keys| ==> keys[i] !in existing
    ensures |NewPositions(keys, existing)| == |keys|
    ensures forall k :: 0 <= k < |keys| ==> NewPositions(keys, existing)[k] == k
  {
    if keys != [] {
      var init := keys[..|keys| - 1];
      assert forall i :: 0 <= i < |init| ==> init[i] == keys[i];
      NewPositionsAll(init, existing);
    }
  }

  /** No staged row has a `nim` that was already stored, and every row whose trimmed
      `nim` was not already stored is staged. */
  lemma NewRowsExactlyNew(rows: seq<map<string, string>>, existing: set<Value>)
    requires AllRosterRows(rows)
    ensures forall k :: 0 <= k < |NewRows(rows, existing)| ==>
      VStr(NimOf(NewRows(rows, existing)[k])) !in existing
    ensures forall i :: 0 <= i < |rows| && VStr(NimOf(rows[i])) !in existing ==>
      rows[i] in NewRows(rows, existing)
  {
    var keys := NimKeys(rows);
    var idx := NewPositions(keys, existing);
    var picked := NewRows(rows, existing);
    forall k | 0 <= k < |picked| ensures VStr(NimOf(picked[k])) !in existing {
      assert picked[k] == rows[idx[k]];
    }
    forall i | 0 <= i < |rows| && VStr(NimOf(rows[i])) !in existing ensures rows[i] in picked {
      assert keys[i] !in existing;
      var k :| 0 <= k < |idx| && idx[k] == i;
      assert picked[k] == rows[i];
    }
  }

  /** Nothing is staged when every row's `nim` is already stored. */
  lemma NoNewRows(rows: seq<map<string, string>>, existing: set<Value>)
    requires AllRosterRows(rows)
    requires forall i :: 0 <= i < |rows| ==> VStr(NimOf(rows[i])) in existing
    ensures NewRows(rows, existing) == []
  {
    NewPositionsNone(NimKeys(rows), existing);
  }

  /** Every row is staged, in order, when no row's `nim` is stored. */
  lemma AllNewRows(rows: seq<map<string, string>>, existing: set<Value>)
    requires AllRosterRows(rows)
    requires forall i :: 0 <= i < |rows| ==> VStr(NimOf(rows[i])) !in existing
    ensures NewRows(rows, existing) == rows
  {
    NewPositionsAll(NimKeys(rows), existing);
  }

  /** Two new rows of one file with the same trimmed `nim` are both staged: the
      skip set is read once, before the loop, and never grows during it. */
  lemma DuplicateNewRowsBothStaged(first: map<string, string>, second: map<string, string>,
                                   existing: set<Value>)
    requires HasRosterColumns(first) && HasRosterColumns(second)
    requires NimOf(first) == NimOf(second) && VStr(NimOf(first)) !in existing
    ensures AllRosterRows([first, second])
    ensures NewRows([first, second], existing) == [first, second]
  {
    var rows := [first, second];
    assert AllRosterRows(rows) by {
      forall i | 0 <= i < |rows| ensures HasRosterColumns(rows[i]) {
        assert rows[i] == first || rows[i] == second;
      }
    }
    AllNewRows(rows, existing);
  }

  /** After an import, the trimmed `nim` of every row of the file is stored: it was
      either stored before or the import inserted a document for that row. */
  lemma ImportedNimStored(recs: seq<Record>, rows: seq<map<string, string>>, i: nat)
    requires AllRosterRows(rows) && i < |rows|
    ensures VStr(NimOf(rows[i])) in FieldValues(recs + Staged(rows, FieldValues(recs, "nim")), "nim")
  {
    var existing := FieldValues(recs, "nim");
    var staged := Staged(rows, existing);
    var after := recs + staged;
    var key := VStr(NimOf(rows[i]));
    var p: nat;
    if key in existing {
      p :| p < |recs| && "nim" in recs[p] && recs[p]["nim"] == key;
      assert after[p] == recs[p];
    } else {
      var picked := NewRows(rows, existing);
      NewRowsExactlyNew(rows, existing);
      var k :| 0 <= k < |picked| && picked[k] == rows[i];
      p := |recs| + k;
      assert after[p] == staged[k] == StageRow(rows[i]);
    }
    assert "nim" in after[p] && after[p]["nim"] == key;
  }

  /** Importing the same file a second time stages nothing. */
  lemma ImportTwiceStagesNothing(recs: seq<Record>, rows: seq<map<string, string>>)
    requires AllRosterRows(rows)
    ensures var after := recs + Staged(rows, FieldValues(recs, "nim"));
      Staged(rows, FieldValues(after, "nim")) == []
  {
    var after := recs + Staged(rows, FieldValues(recs, "nim"));
    forall i | 0 <= i < |rows| ensures VStr(NimOf(rows[i])) in FieldValues(after, "nim") {
      ImportedNimStored(recs, rows, i);
    }
    NoNewRows(rows, FieldValues(after, "nim"));
  }

  /** Looking at one more row stages it exactly when its `nim` is not stored. */
  lemma NewRowsStep(rows: seq<map<string, string>>, existing: set<Value>, i: nat)
    requires AllRosterRows(rows) && i < |rows|
    ensures AllRosterRows(rows[..i]) && AllRosterRows(rows[..i + 1])
    ensures NewRows(rows[..i + 1], existing) ==
      NewRows(rows[..i], existing) + (if VStr(NimOf(rows[i])) in existing then [] else [rows[i]])
  {
    var pre, cur := rows[..i], rows[..i + 1];
    var kp, kc := NimKeys(pre), NimKeys(cur);
    assert kc[..i] == kp;
    var a, b := NewPositions(kp, existing), NewPositions(kc, existing);
    assert b == a + (if kc[i] in existing then [] else [i]);
    assert forall k :: 0 <= k < |a| ==> cur[a[k]] == pre[a[k]];
  }

  /** Staging one more row appends its document. */
  lemma StageAllAppend(rows: seq<map<string, string>>, row: map<string, string>)
    requires AllRosterRows(rows) && HasRosterColumns(row)
    ensures AllRosterRows(rows + [row])
    ensures StageAll(rows + [row]) == StageAll(rows) + [StageRow(row)]
  {
    assert forall k :: 0 <= k < |rows| ==> (rows + [row])[k] == rows[k];
  }

  /** Looking at one more row appends its staged document exactly when its `nim`
      is not stored. */
  lemma StagedStep(rows: seq<map<string, string>>, existing: set<Value>, i: nat)
    requires AllRosterRows(rows) && i < |rows|
    ensures AllRosterRows(rows[..i]) && AllRosterRows(rows[..i + 1])
    ensures Staged(rows[..i + 1], existing) ==
      Staged(rows[..i], existing) +
        (if VStr(Trim(rows[i]["nim"])) in existing then [] else [StageRow(rows[i])])
  {
    NewRowsStep(rows, existing, i);
    if VStr(NimOf(rows[i])) !in existing {
      StageAllAppend(NewRows(rows[..i], existing), rows[i]);
    }
  }

  /** Every row of an accepted header has a cell for each of the nine columns. */
  lemma RosterColumnsInEveryRow(header: seq<string>, rows: seq<map<string, string>>)
    requires FromHeader(header, rows) && HeaderAccepted(header)
    ensures AllRosterRows(rows)
  {
    forall i, c | 0 <= i < |rows| && c in ExpectedHeader ensures c in rows[i] {
      assert c in header;
    }
  }

  /** `import_csv`: reject a blank file, then a header that is not exactly one of
      the two accepted ones; otherwise read the stored `nim` values once, stage
      every row whose trimmed `nim` is not among them, insert the staged documents
      in one batch after everything already stored, and report how many. */
  method ImportCsv(store: Store, text: string, header: seq<string>, rows: seq<map<string, string>>)
    returns (r: Result<nat>)
    requires FromHeader(header, rows)
    modifies store
    ensures IsBlank(text) ==> r == Fail(EmptyFile) && store.records == old(store.records)
    ensures !IsBlank(text) && !HeaderAccepted(header) ==>
      r == Fail(InvalidFormat) && store.records == old(store.records)
    ensures !IsBlank(text) && HeaderAccepted(header) ==>
      && AllRosterRows(rows)
      && var staged := Staged(rows, FieldValues(old(store.records), "nim"));
      && r == Ok(|staged|)
      && store.records == old(store.records) + staged
  {
    if Trim(text) == "" {
      return Fail(EmptyFile);
    }
    if !HeaderAccepted(header) {
      return Fail(InvalidFormat);
    }
    RosterColumnsInEveryRow(header, rows);
    var existing := store.Distinct("nim");
    assert existing == FieldValues(store.records, "nim");
    var documents: seq<Record> := [];
    for i := 0 to |rows|
      invariant store.records == old(store.records)
      invariant AllRosterRows(rows[..i])
      invariant documents == Staged(rows[..i], existing)
    {
      StagedStep(rows, existing, i);
      var row := rows[i];
      var nim := Trim(row["nim"]);
      if VStr(nim) in existing {
        continue;
      }
      documents := documents + [StageRow(row)];
    }
    assert rows[..|rows|] == rows;
    assert documents == Staged(rows, FieldValues(old(store.records), "nim"));
    if documents != [] {
      var inserted := store.InsertMany(documents);
      return Ok(inserted);
    }
    assert store.records + documents == store.records;
    return Ok(0);
  }

  // ---------------------------------------------------------------------------
  // Export
  // ---------------------------------------------------------------------------

  /** `export_csv`: the eleven-column header, then one row per stored document in
      store order, a missing field written as an empty cell. */
  method ExportCsv(store: Store) returns (table: seq<seq<string>>)
    ensures |table| == |store.records| + 1
    ensures table[0] == ["nim", "name", "address", "phone_number", "email", "major",
                         "study_program", "generation", "status", "check_in", "checked_in_at"]
    ensures forall i :: 0 <= i < |store.records| ==> table[i + 1] == ExportRow(store.records[i])
  {
    var entries := store.records;
    table := [Columns];
    for i := 0 to |entries|
      invariant |table| == i + 1 && table[0] == Columns
      invariant forall k :: 0 <= k < i ==> table[k + 1] == ExportRow(entries[k])
    {
      var entry := entries[i];
      var row := [];
      for j := 0 to |Columns|
        invariant row == ExportRow(entry)[..j]
      {
        row := row + [Cell(entry, Columns[j])];
      }
      table := table + [row];
    }
  }

  /** One exported line: the eleven columns of a document in header order, a
      missing field as an empty cell. */
  function ExportRow(entry: Record): (line: seq<string>)
    ensures |line| == |Columns| == 11
    ensures forall j :: 0 <= j < |Columns| ==> line[j] == Cell(entry, Columns[j])
  {
    seq(|Columns|, j requires 0 <= j < |Columns| => Cell(entry, Columns[j]))
  }

  /** Importing one file twice: the second import of an accepted file inserts
      nothing and reports 0, whatever the collection held before the first. */
  method ImportTwice(store: Store, text: string, header: seq<string>, rows: seq<map<string, string>>)
    returns (first: Result<nat>, second: Result<nat>)
    requires FromHeader(header, rows)
    modifies store
    ensures !IsBlank(text) && HeaderAccepted(header) ==>
      && AllRosterRows(rows)
      && var staged := Staged(rows, FieldValues(old(store.records), "nim"));
      && first == Ok(|staged|) && second == Ok(0)
      && store.records == old(store.records) + staged
    ensures IsBlank(text) || !HeaderAccepted(header) ==>
      first.Fail? && second == first && store.records == old(store.records)
  {
    first := ImportCsv(store, text, header, rows);
    if !IsBlank(text) && HeaderAccepted(header) {
      ImportTwiceStagesNothing(old(store.records), rows);
    }
    second := ImportCsv(store, text, header, rows);
    if !IsBlank(text) && HeaderAccepted(header) {
      assert store.records + [] == store.records;
    }
  }
}

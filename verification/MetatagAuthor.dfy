/**
 * metatag_post_update_convert_author_data: a batch update that keeps its whole state in the sandbox
 * and processes at most 100 records per invocation.
 */
module MetatagAuthor {
  import opened Options
  import opened MetatagBatch
  import opened Sequences

  /** A row of a metatag field table, as fetched by the first invocation. */
  datatype Record = Record(entityId: int, revisionId: int, langcode: string, tags: Tags)

  /** The columns an update statement selects a row by, with the table it is in. */
  datatype Key = Key(table: string, entityId: int, revisionId: int, langcode: string)

  datatype Table = Table(name: string, records: seq<Record>)

  /** The rows with each key; a field with several values has several of them. */
  type Database = map<Key, seq<Tags>>

  /** A record together with the table it comes from. */
  datatype Visit = Visit(table: string, record: Record) {
    function RowKey(): Key { Key(table, record.entityId, record.revisionId, record.langcode) }
  }

  datatype Sandbox = Sandbox(
    initialized: bool,
    fields: seq<Table>,
    totalRecords: nat,
    recordsProcessed: nat,
    currentField: nat,
    currentRecord: nat,
    finished: real,
    db: Database,
    visited: seq<Visit>)  // the records processed so far

  function Fresh(db: Database): Sandbox { Sandbox(false, [], 0, 0, 0, 0, 0.0, db, []) }

  // ---- The first invocation -------------------------------------------------------------------

  /** Tables without records are left out. */
  function NonEmpty(tables: seq<Table>): (r: seq<Table>)
    ensures forall t :: t in r <==> t in tables && t.records != []
  {
    if tables == [] then []
    else if tables[0].records == [] then NonEmpty(tables[1..])
    else [tables[0]] + NonEmpty(tables[1..])
  }

  /** `picked` are the tables at these positions, which are all those with records from `from` on, in order. */
  ghost predicate PicksNonEmpty(tables: seq<Table>, from: nat, indices: seq<nat>, picked: seq<Table>) {
    && |indices| == |picked| && (forall j, k :: 0 <= j < k < |indices| ==> indices[j] < indices[k])
    && (forall k :: 0 <= k < |indices| ==> from <= indices[k] < |tables| && picked[k] == tables[indices[k]])
    && (forall i: nat :: from <= i < |tables| ==> (i in indices <==> tables[i].records != []))
  }

  /** The tables that are not left out keep their order. */
  lemma {:induction false} NonEmptyInOrder(tables: seq<Table>, from: nat) returns (indices: seq<nat>)
    requires from <= |tables|
    ensures PicksNonEmpty(tables, from, indices, NonEmpty(tables[from..]))
    decreases |tables| - from
  {
    if from == |tables| {
      indices := [];
    } else {
      indices := NonEmptyInOrder(tables, from + 1);
      assert tables[from..][1..] == tables[from + 1..];
      if tables[from].records != [] {
        PickFirst(tables, from, indices, NonEmpty(tables[from + 1..]));
        indices := [from] + indices;
      }
    }
  }

  lemma {:induction false} PickFirst(tables: seq<Table>, from: nat, indices: seq<nat>, picked: seq<Table>)
    requires from < |tables| && tables[from].records != [] && PicksNonEmpty(tables, from + 1, indices, picked)
    ensures PicksNonEmpty(tables, from, [from] + indices, [tables[from]] + picked)
  {
  }

  function Count(fields: seq<Table>): nat {
    if fields == [] then 0 else Count(fields[..|fields| - 1]) + |fields[|fields| - 1].records|
  }

  function Initialized(s: Sandbox, tables: seq<Table>): Sandbox {
    if s.initialized then s
    else s.(initialized := true, fields := NonEmpty(tables), totalRecords := Count(NonEmpty(tables)),
            recordsProcessed := 0, currentField := 0, currentRecord := 0)
  }

  // ---- One batch --------------------------------------------------------------------------------

  const OLD_TAG := "google_plus_author"
  const NEW_TAG := "author"

  /** The author is moved into the main module; the old tag is left where it is. */
  function Converted(tags: Tags): Tags {
    if OLD_TAG in tags then tags[NEW_TAG := tags[OLD_TAG]] else tags
  }

  /** The update statement overwrites every row with the key of the record. */
  function Write(db: Database, v: Visit): Database {
    var key := v.RowKey();
    if OLD_TAG in v.record.tags && key in db then db[key := Repeat(|db[key]|, Converted(v.record.tags))] else db
  }

  function WriteAll(db: Database, visits: seq<Visit>): Database {
    if visits == [] then db else Write(WriteAll(db, visits[..|visits| - 1]), visits[|visits| - 1])
  }

  /** The records of a table from `a` up to `b`. */
  function Visits(t: Table, a: nat, b: nat): (r: seq<Visit>)
    requires a <= b <= |t.records|
    ensures |r| == b - a
  {
    if a == b then [] else Visits(t, a, b - 1) + [Visit(t.name, t.records[b - 1])]
  }

  lemma {:induction false} VisitsInOrder(t: Table, a: nat, b: nat, k: nat)
    requires a <= b <= |t.records| && k < b - a
    ensures Visits(t, a, b)[k] == Visit(t.name, t.records[a + k])
    decreases b
  {
    if k < b - 1 - a {
      VisitsInOrder(t, a, b - 1, k);
    }
  }

  /** How far a batch that starts at record `a` of the table gets. */
  function BatchEnd(t: Table, a: nat): (b: nat)
    requires a <= |t.records|
    ensures a <= b <= |t.records|
  {
    if a + MAX_PER_BATCH <= |t.records| then a + MAX_PER_BATCH else |t.records|
  }

  predicate HasRecord(s: Sandbox, record: nat) {
    s.currentField < |s.fields| && record <= |s.fields[s.currentField].records|
  }

  /** The loop over the records of the current field up to `end`. */
  function Processed(s: Sandbox, end: nat): Sandbox
    requires HasRecord(s, end) && s.currentRecord <= end
  {
    var visits := Visits(s.fields[s.currentField], s.currentRecord, end);
    s.(recordsProcessed := s.recordsProcessed + |visits|, db := WriteAll(s.db, visits), visited := s.visited + visits)
  }

  /** What is left for the next invocation when the loop ends at `end`. */
  function MovedOn(s: Sandbox, end: nat): Sandbox
    requires HasRecord(s, end) && s.totalRecords != 0
  {
    var all := end == |s.fields[s.currentField].records|;
    var field, record := if all then s.currentField + 1 else s.currentField, if all then 0 else end;
    if field >= |s.fields| then s.(finished := 1.0)
    else
      s.(currentField := field, currentRecord := record, finished := Ratio(s.recordsProcessed, s.totalRecords))
  }

  /** One invocation after the initialization. */
  function Batch(s: Sandbox): Sandbox
    requires s.totalRecords != 0 ==> HasRecord(s, s.currentRecord)
  {
    if s.totalRecords == 0 then s.(finished := 1.0)
    else
      var end := BatchEnd(s.fields[s.currentField], s.currentRecord);
      MovedOn(Processed(s, end), end)
  }

  // ---- The whole update -----------------------------------------------------------------------------

  /** All records of the first `k` tables, in order. */
  function AllVisits(fields: seq<Table>, k: nat): (r: seq<Visit>)
    requires k <= |fields|
    ensures |r| == Count(fields[..k])
  {
    if k == 0 then []
    else
      assert fields[..k][..k - 1] == fields[..k - 1];
      AllVisits(fields, k - 1) + Visits(fields[k - 1], 0, |fields[k - 1].records|)
  }

  /** Between two invocations: everything before the current record has been processed, and nothing else. */
  ghost predicate InProgress(s: Sandbox, tables: seq<Table>, db: Database) {
    && s.initialized && s.fields == NonEmpty(tables) && s.totalRecords == Count(s.fields)
    && s.currentField < |s.fields| && s.currentRecord < |s.fields[s.currentField].records|
    && s.visited == AllVisits(s.fields, s.currentField) + Visits(s.fields[s.currentField], 0, s.currentRecord)
    && s.recordsProcessed == |s.visited|
    && s.db == WriteAll(db, s.visited)
  }

  /** The state after the last invocation: every record of every table processed, once and in order. */
  ghost predicate Completed(s: Sandbox, tables: seq<Table>, db: Database) {
    && s.finished == 1.0 && s.fields == NonEmpty(tables)
    && s.visited == AllVisits(s.fields, |s.fields|) && s.recordsProcessed == s.totalRecords == Count(s.fields)
    && s.db == WriteAll(db, s.visited)
  }

  /** The number of batches that `n` records take. */
  function Batches(n: nat): nat { (n + MAX_PER_BATCH - 1) / MAX_PER_BATCH }

  function BatchSum(fields: seq<Table>, from: nat): nat
    decreases |fields| - from
  {
    if from >= |fields| then 0 else Batches(|fields[from].records|) + BatchSum(fields, from + 1)
  }

  /** The invocations still needed. */
  function CallsLeft(s: Sandbox): nat
    requires s.currentField < |s.fields| && s.currentRecord <= |s.fields[s.currentField].records|
  {
    Batches(|s.fields[s.currentField].records| - s.currentRecord) + BatchSum(s.fields, s.currentField + 1)
  }

  lemma {:induction false} VisitsJoin(t: Table, a: nat, b: nat, c: nat)
    requires a <= b <= c <= |t.records|
    ensures Visits(t, a, b) + Visits(t, b, c) == Visits(t, a, c)
    decreases c
  {
    if b < c {
      VisitsJoin(t, a, b, c - 1);
    } else {
      assert Visits(t, a, b) + [] == Visits(t, a, b);
    }
  }

  lemma {:induction false} WritesJoin(db: Database, a: seq<Visit>, b: seq<Visit>)
    ensures WriteAll(WriteAll(db, a), b) == WriteAll(db, a + b)
  {
    if b == [] {
      assert a + b == a;
    } else {
      assert (a + b)[..|a + b| - 1] == a + b[..|b| - 1];
      WritesJoin(db, a, b[..|b| - 1]);
    }
  }

  lemma {:induction false} CountMonotone(fields: seq<Table>, a: nat, b: nat)
    requires a < b <= |fields| && fields[a].records != []
    ensures Count(fields[..a]) + |fields[a].records| <= Count(fields[..b])
    ensures Count(fields[..a + 1]) == Count(fields[..a]) + |fields[a].records|
    decreases b
  {
    assert fields[..a + 1][..a] == fields[..a];
    if a + 1 < b {
      CountMonotone(fields, a, b - 1);
      assert fields[..b][..b - 1] == fields[..b - 1];
    }
  }

  lemma {:induction false} FieldsNonEmpty(s: Sandbox, tables: seq<Table>, f: nat)
    requires s.fields == NonEmpty(tables) && f < |s.fields|
    ensures s.fields[f].records != []
    ensures Count(s.fields[..f]) + |s.fields[f].records| <= Count(s.fields)
    ensures Count(s.fields[..f + 1]) == Count(s.fields[..f]) + |s.fields[f].records|
    ensures f + 1 < |s.fields| ==> Count(s.fields[..f + 1]) < Count(s.fields) && BatchSum(s.fields, f + 1) >= 1
    ensures f + 1 == |s.fields| ==> Count(s.fields[..f + 1]) == Count(s.fields) && BatchSum(s.fields, f + 1) == 0
  {
    assert s.fields[f] in s.fields;
    assert s.fields[..|s.fields|] == s.fields;
    CountMonotone(s.fields, f, |s.fields|);
    if f + 1 < |s.fields| {
      assert s.fields[f + 1] in s.fields;
      CountMonotone(s.fields, f + 1, |s.fields|);
    }
  }

  /** What a batch has visited and written, whatever it does to the counters. */
  lemma {:induction false} BatchVisits(s: Sandbox, tables: seq<Table>, db: Database)
    requires InProgress(s, tables, db) && s.totalRecords != 0
    ensures var t := s.fields[s.currentField];
            var r := Batch(s);
            && r.visited == AllVisits(s.fields, s.currentField) + Visits(t, 0, BatchEnd(t, s.currentRecord))
            && r.db == WriteAll(db, r.visited) && r.recordsProcessed == |r.visited|
  {
    var t := s.fields[s.currentField];
    var end := BatchEnd(t, s.currentRecord);
    var visits := Visits(t, s.currentRecord, end);
    VisitsJoin(t, 0, s.currentRecord, end);
    WritesJoin(db, s.visited, visits);
    Associative(AllVisits(s.fields, s.currentField), Visits(t, 0, s.currentRecord), visits);
    assert Batch(s).visited == s.visited + visits;
  }

  lemma {:induction false} BatchCount(n: nat)
    ensures n > 0 ==> Batches(n) >= 1
    ensures n > MAX_PER_BATCH ==> Batches(n) == 1 + Batches(n - MAX_PER_BATCH)
    ensures 0 < n <= MAX_PER_BATCH ==> Batches(n) == 1
  {
  }

  /** The batch does not get to the end of its table. */
  lemma {:induction false} BatchInside(s: Sandbox, tables: seq<Table>, db: Database)
    requires InProgress(s, tables, db)
    requires BatchEnd(s.fields[s.currentField], s.currentRecord) < |s.fields[s.currentField].records|
    ensures InProgress(Batch(s), tables, db) && CallsLeft(Batch(s)) == CallsLeft(s) - 1 >= 1
    ensures 0.0 <= Batch(s).finished < 1.0
  {
    FieldsNonEmpty(s, tables, s.currentField);
    BatchVisits(s, tables, db);
    CallsInside(s);
  }

  lemma {:induction false} CallsInside(s: Sandbox)
    requires s.totalRecords != 0 && s.currentField < |s.fields| && s.currentRecord < |s.fields[s.currentField].records|
    requires BatchEnd(s.fields[s.currentField], s.currentRecord) < |s.fields[s.currentField].records|
    ensures Batch(s).fields == s.fields && Batch(s).currentField == s.currentField
    ensures Batch(s).currentRecord == BatchEnd(s.fields[s.currentField], s.currentRecord)
    ensures CallsLeft(Batch(s)) == CallsLeft(s) - 1 >= 1
  {
    BatchCount(|s.fields[s.currentField].records| - s.currentRecord);
    BatchCount(|s.fields[s.currentField].records| - s.currentRecord - MAX_PER_BATCH);
  }

  lemma {:induction false} CallsNext(s: Sandbox)
    requires s.totalRecords != 0 && s.currentField + 1 < |s.fields|
    requires s.currentRecord < |s.fields[s.currentField].records| == BatchEnd(s.fields[s.currentField], s.currentRecord)
    ensures Batch(s).fields == s.fields && Batch(s).currentField == s.currentField + 1 && Batch(s).currentRecord == 0
    ensures CallsLeft(Batch(s)) == CallsLeft(s) - 1
  {
    BatchCount(|s.fields[s.currentField].records| - s.currentRecord);
  }

  /** The batch finishes a table that is not the last one. */
  lemma {:induction false} BatchNext(s: Sandbox, tables: seq<Table>, db: Database)
    requires InProgress(s, tables, db) && s.currentField + 1 < |s.fields|
    requires BatchEnd(s.fields[s.currentField], s.currentRecord) == |s.fields[s.currentField].records|
    ensures InProgress(Batch(s), tables, db) && CallsLeft(Batch(s)) == CallsLeft(s) - 1 >= 1
    ensures 0.0 <= Batch(s).finished < 1.0
  {
    var f := s.currentField;
    FieldsNonEmpty(s, tables, f);
    FieldsNonEmpty(s, tables, f + 1);
    BatchVisits(s, tables, db);
    CallsNext(s);
    assert AllVisits(s.fields, f + 1) + Visits(s.fields[f + 1], 0, 0) == AllVisits(s.fields, f + 1);
  }

  /** The batch finishes the last table. */
  lemma {:induction false} BatchLast(s: Sandbox, tables: seq<Table>, db: Database)
    requires InProgress(s, tables, db) && s.currentField + 1 == |s.fields|
    requires BatchEnd(s.fields[s.currentField], s.currentRecord) == |s.fields[s.currentField].records|
    ensures Completed(Batch(s), tables, db) && CallsLeft(s) == 1
  {
    var f := s.currentField;
    FieldsNonEmpty(s, tables, f);
    BatchVisits(s, tables, db);
    BatchCount(|s.fields[f].records| - s.currentRecord);
    AllCounted(s.fields);
    assert Batch(s).visited == AllVisits(s.fields, f + 1);
  }

  lemma {:induction false} AllCounted(fields: seq<Table>)
    ensures |AllVisits(fields, |fields|)| == Count(fields)
  {
    assert fields[..|fields|] == fields;
  }

  /** Every batch brings the update nearer to its end by exactly one invocation. */
  lemma {:induction false} BatchProgress(s: Sandbox, tables: seq<Table>, db: Database)
    requires InProgress(s, tables, db)
    ensures var t := Batch(s);
            if CallsLeft(s) == 1 then Completed(t, tables, db)
            else InProgress(t, tables, db) && CallsLeft(t) == CallsLeft(s) - 1 && 0.0 <= t.finished < 1.0
    ensures CallsLeft(s) >= 1
  {
    if BatchEnd(s.fields[s.currentField], s.currentRecord) < |s.fields[s.currentField].records| {
      BatchInside(s, tables, db);
    } else if s.currentField + 1 < |s.fields| {
      BatchNext(s, tables, db);
    } else {
      BatchLast(s, tables, db);
    }
  }

  // ---- Repeated invocations ------------------------------------------------------------------------

  /** One invocation of the update function. */
  function Invoke(s: Sandbox, tables: seq<Table>): Sandbox
    requires s.initialized && s.totalRecords != 0 ==>
               s.currentField < |s.fields| && s.currentRecord <= |s.fields[s.currentField].records|
  {
    FirstTable(s, tables);
    Batch(Initialized(s, tables))
  }

  lemma {:induction false} FirstTable(s: Sandbox, tables: seq<Table>)
    ensures !s.initialized ==>
              var i := Initialized(s, tables); i.totalRecords != 0 <==> i.fields != []
  {
    var fields := NonEmpty(tables);
    if fields != [] {
      assert fields[|fields| - 1] in fields;
    }
  }

  /** The number of invocations the update takes: one batch for every 100 records of a table, or one in all. */
  function CallsNeeded(tables: seq<Table>): nat {
    if NonEmpty(tables) == [] then 1 else BatchSum(NonEmpty(tables), 0)
  }

  lemma {:induction false} InitialProgress(tables: seq<Table>, db: Database)
    requires NonEmpty(tables) != []
    ensures InProgress(Initialized(Fresh(db), tables), tables, db)
    ensures CallsLeft(Initialized(Fresh(db), tables)) == CallsNeeded(tables)
  {
    var fields := NonEmpty(tables);
    assert fields[0] in fields;
    assert AllVisits(fields, 0) + Visits(fields[0], 0, 0) == [];
  }

  // ---- The effect on the database -------------------------------------------------------------------

  /** The tags of the last record written to the rows with this key. */
  function LastWriter(visits: seq<Visit>, key: Key): Option<Tags> {
    if visits == [] then None
    else
      var last := visits[|visits| - 1];
      if last.RowKey() == key && OLD_TAG in last.record.tags then Some(last.record.tags)
      else LastWriter(visits[..|visits| - 1], key)
  }

  /** All rows with a key end up with the converted tags of the last record written to them, or as they were. */
  lemma {:induction false} WritesConvert(db: Database, visits: seq<Visit>, key: Key)
    ensures WriteAll(db, visits).Keys == db.Keys
    ensures key in db ==>
              WriteAll(db, visits)[key]
              == match LastWriter(visits, key) case None => db[key] case Some(tags) => Repeat(|db[key]|, Converted(tags))
  {
    if visits != [] {
      WritesConvert(db, visits[..|visits| - 1], key);
    }
  }

  lemma {:induction false} LastWriterMember(visits: seq<Visit>, key: Key)
    ensures var tags := LastWriter(visits, key);
            if tags.Some? then exists v :: v in visits && v.RowKey() == key && v.record.tags == tags.value && OLD_TAG in tags.value
            else forall v :: v in visits && v.RowKey() == key ==> OLD_TAG !in v.record.tags
  {
    if visits != [] {
      var front, last := visits[..|visits| - 1], visits[|visits| - 1];
      LastWriterMember(front, key);
      assert last in visits && forall v :: v in visits <==> v in front || v == last;
    }
  }

  lemma {:induction false} VisitsMembers(t: Table, b: nat, v: Visit)
    requires b <= |t.records|
    ensures v in Visits(t, 0, b) <==> v.table == t.name && v.record in t.records[..b]
  {
    if b != 0 {
      VisitsMembers(t, b - 1, v);
      assert t.records[..b] == t.records[..b - 1] + [t.records[b - 1]];
    }
  }

  lemma {:induction false} AllVisitsMembers(fields: seq<Table>, k: nat, v: Visit)
    requires k <= |fields|
    ensures v in AllVisits(fields, k)
       <==> exists i: nat :: i < k && v.table == fields[i].name && v.record in fields[i].records
  {
    if k != 0 {
      AllVisitsMembers(fields, k - 1, v);
      var t := fields[k - 1];
      VisitsMembers(t, |t.records|, v);
      assert t.records[..|t.records|] == t.records;
    }
  }

  /** The table holds the record of this visit. */
  predicate Holds(t: Table, v: Visit) { v.table == t.name && v.record in t.records }

  predicate Listed(tables: seq<Table>, v: Visit) { exists t :: t in tables && Holds(t, v) }

  ghost predicate RowListed(tables: seq<Table>, key: Key, tags: Tags) {
    exists v :: Listed(tables, v) && v.RowKey() == key && v.record.tags == tags
  }

  /** A completed update has visited exactly the records of the listed tables. */
  lemma {:induction false} CompletedVisits(s: Sandbox, tables: seq<Table>, db: Database, v: Visit)
    requires Completed(s, tables, db)
    ensures v in s.visited <==> Listed(tables, v)
  {
    AllVisitsMembers(s.fields, |s.fields|, v);
    if v in s.visited {
      var i: nat :| i < |s.fields| && v.table == s.fields[i].name && v.record in s.fields[i].records;
      assert s.fields[i] in tables && Holds(s.fields[i], v);
    }
    if t :| t in tables && Holds(t, v) {
      assert t in s.fields;
      var i: nat :| i < |s.fields| && s.fields[i] == t;
    }
  }

  /** The old tag's value becomes the author; all other tags are as before, the old one included. */
  predicate AuthorMoved(before: Tags, after: Tags) {
    && (OLD_TAG in before ==> NEW_TAG in after && after[NEW_TAG] == before[OLD_TAG])
    && (forall tag :: tag in before && (tag != NEW_TAG || OLD_TAG !in before) ==> tag in after && after[tag] == before[tag])
    && (forall tag :: tag in after ==> tag in before || (tag == NEW_TAG && OLD_TAG in before))
  }

  lemma {:induction false} ConvertedMoves(before: Tags, after: Tags)
    ensures AuthorMoved(before, after) <==> after == Converted(before)
  {
    if AuthorMoved(before, after) {
      var goal := Converted(before);
      assert forall tag :: tag in after <==> tag in goal;
      assert forall tag :: tag in after ==> after[tag] == goal[tag];
    }
  }

  /**
   * The records listed are rows of the database as it was, and every row with the old tag is listed (the
   * query looks for its name in the field).
   */
  ghost predicate ReadFrom(tables: seq<Table>, db: Database) {
    && (forall v {:trigger Listed(tables, v)} :: Listed(tables, v) ==> v.RowKey() in db && v.record.tags in db[v.RowKey()])
    && (forall key, tags {:trigger RowListed(tables, key, tags)} ::
          key in db && tags in db[key] && OLD_TAG in tags ==> RowListed(tables, key, tags))
  }

  /** None of the rows has the old tag. */
  predicate Unaffected(rows: seq<Tags>) { forall j :: 0 <= j < |rows| ==> OLD_TAG !in rows[j] }

  /** All the rows convert to the same tags. */
  predicate Agree(rows: seq<Tags>) {
    forall j, k :: 0 <= j < k < |rows| ==> Converted(rows[j]) == Converted(rows[k])
  }

  /**
   * What a completed update has done to the rows with this key: each of them has its own author moved, and
   * its other tags as before, if and only if none of them has the old tag or all convert to the same tags.  A
   * single row always agrees with itself.
   */
  lemma {:induction false} CompletedConvertsIff(s: Sandbox, tables: seq<Table>, db: Database, key: Key)
    requires Completed(s, tables, db) && ReadFrom(tables, db) && key in db
    ensures s.db.Keys == db.Keys && |s.db[key]| == |db[key]|
    ensures (forall j :: 0 <= j < |db[key]| ==> AuthorMoved(db[key][j], s.db[key][j]))
       <==> Unaffected(db[key]) || Agree(db[key])
  {
    WritesConvert(db, s.visited, key);
    WrittenTags(s, tables, db, key);
    RowsConverted(db[key], s.db[key], LastWriter(s.visited, key));
  }

  /** What is written to the rows with a key are the tags of one of them, if one has the old tag. */
  lemma {:induction false} WrittenTags(s: Sandbox, tables: seq<Table>, db: Database, key: Key)
    requires Completed(s, tables, db) && ReadFrom(tables, db) && key in db
    ensures var tags := LastWriter(s.visited, key);
            if tags.Some? then tags.value in db[key] && OLD_TAG in tags.value else Unaffected(db[key])
  {
    var tags := LastWriter(s.visited, key);
    LastWriterMember(s.visited, key);
    if tags.Some? {
      var v :| v in s.visited && v.RowKey() == key && v.record.tags == tags.value;
      CompletedVisits(s, tables, db, v);
    } else {
      forall j | 0 <= j < |db[key]|
        ensures OLD_TAG !in db[key][j]
      {
        if OLD_TAG in db[key][j] {
          assert RowListed(tables, key, db[key][j]);
          var v :| Listed(tables, v) && v.RowKey() == key && v.record.tags == db[key][j];
          CompletedVisits(s, tables, db, v);
        }
      }
    }
  }

  lemma {:induction false} RowsConverted(before: seq<Tags>, after: seq<Tags>, tags: Option<Tags>)
    requires after == match tags case None => before case Some(t) => Repeat(|before|, Converted(t))
    requires if tags.Some? then tags.value in before && OLD_TAG in tags.value else Unaffected(before)
    ensures (forall j :: 0 <= j < |before| ==> AuthorMoved(before[j], after[j])) <==> Unaffected(before) || Agree(before)
  {
    forall j | 0 <= j < |before|
      ensures AuthorMoved(before[j], after[j]) <==> after[j] == Converted(before[j])
    {
      ConvertedMoves(before[j], after[j]);
    }
    if tags.Some? {
      var m :| 0 <= m < |before| && before[m] == tags.value;
      if forall j :: 0 <= j < |before| ==> AuthorMoved(before[j], after[j]) {
        assert forall j :: 0 <= j < |before| ==> Converted(before[j]) == Converted(before[m]);
      }
    }
  }

  /** A row that is alone with its key has its author moved. */
  lemma {:induction false} SingleRowConverted(s: Sandbox, tables: seq<Table>, db: Database, key: Key)
    requires Completed(s, tables, db) && ReadFrom(tables, db) && key in db && |db[key]| == 1
    ensures key in s.db && |s.db[key]| == 1 && AuthorMoved(db[key][0], s.db[key][0])
  {
    CompletedConvertsIff(s, tables, db, key);
  }

  lemma {:induction false} TwoWrites(db: Database, v: Visit, w: Visit)
    ensures WriteAll(db, [v]) == Write(db, v) && WriteAll(db, [v, w]) == Write(Write(db, v), w)
  {
    assert [v][..0] == [] && [v, w][..1] == [v];
  }

  lemma {:induction false} TwoVisits(t: Table)
    requires |t.records| == 2
    ensures Visits(t, 0, 2) == [Visit(t.name, t.records[0]), Visit(t.name, t.records[1])]
    ensures NonEmpty([t]) == [t] && Count([t]) == 2
  {
    assert Visits(t, 0, 1) == [Visit(t.name, t.records[0])];
    assert [t][1..] == [] && [t][..0] == [];
  }

  /** Of two values of one field with different authors, the first ends up with the author of the second. */
  lemma {:induction false} SharedKeyLoses(key: Key, a: Tags, b: Tags)
    requires OLD_TAG in a && OLD_TAG in b && a[OLD_TAG] != b[OLD_TAG]
    ensures var x, y := Record(key.entityId, key.revisionId, key.langcode, a), Record(key.entityId, key.revisionId, key.langcode, b);
            var tables, db := [Table(key.table, [x, y])], map[key := [a, b]];
            var s := Invoke(Fresh(db), tables);
            && s.finished == 1.0 && key in s.db && s.db[key] == [Converted(b), Converted(b)]
            && !AuthorMoved(a, s.db[key][0]) && AuthorMoved(b, s.db[key][1])
  {
    var x, y := Record(key.entityId, key.revisionId, key.langcode, a), Record(key.entityId, key.revisionId, key.langcode, b);
    var t, db := Table(key.table, [x, y]), map[key := [a, b]];
    var v, w := Visit(t.name, x), Visit(t.name, y);
    TwoVisits(t);
    TwoWrites(db, v, w);
    assert v.RowKey() == w.RowKey() == key;
    var row := Converted(b);
    assert Write(Write(db, v), w)[key] == [row, row];
    assert row[NEW_TAG] == b[OLD_TAG];
  }

  lemma {:induction false} CollectStep(tables: seq<Table>, i: nat, fields: seq<Table>)
    requires i < |tables|
    ensures var next := if tables[i].records == [] then fields else fields + [tables[i]];
            && fields + NonEmpty(tables[i..]) == next + NonEmpty(tables[i + 1..])
            && Count(next) == Count(fields) + |tables[i].records|
  {
    assert tables[i..][0] == tables[i] && tables[i..][1..] == tables[i + 1..];
    assert (fields + [tables[i]])[..|fields|] == fields;
  }

  /** The loop over the tables that looks for records. */
  method CollectFields(tables: seq<Table>) returns (fields: seq<Table>, totalRecords: nat)
    ensures fields == NonEmpty(tables) && totalRecords == Count(fields)
  {
    totalRecords := 0;
    fields := [];
    assert tables[0..] == tables;
    for i := 0 to |tables|
      invariant fields + NonEmpty(tables[i..]) == NonEmpty(tables)
      invariant totalRecords == Count(fields)
    {
      CollectStep(tables, i, fields);
      if tables[i].records != [] {
        fields := fields + [tables[i]];
        totalRecords := totalRecords + |tables[i].records|;
      }
    }
  }

  // ---- The update function as it is written -----------------------------------------------------------

  lemma {:induction false} NothingProcessed(s: Sandbox)
    requires HasRecord(s, s.currentRecord)
    ensures Processed(s, s.currentRecord) == s
  {
    assert s.visited + [] == s.visited;
  }

  lemma {:induction false} OneMoreProcessed(s: Sandbox, end: nat)
    requires HasRecord(s, end + 1) && s.currentRecord <= end
    ensures var t, done := s.fields[s.currentField], Processed(s, end);
            var visit := Visit(t.name, t.records[end]);
            Processed(s, end + 1) == done.(recordsProcessed := done.recordsProcessed + 1,
                                           db := Write(done.db, visit), visited := done.visited + [visit])
  {
    var t := s.fields[s.currentField];
    var visits := Visits(t, s.currentRecord, end);
    var more := visits + [Visit(t.name, t.records[end])];
    assert more[..|visits|] == visits;
    Associative(s.visited, visits, [Visit(t.name, t.records[end])]);
  }

  /** The sandbox passed by reference, and the database. */
  class BatchUpdate {
    var initialized: bool
    var fields: seq<Table>
    var totalRecords: nat
    var recordsProcessed: nat
    var currentField: nat
    var currentRecord: nat
    var finished: real
    var db: Database
    ghost var visited: seq<Visit>

    ghost function Abs(): Sandbox
      reads this
    {
      Sandbox(initialized, fields, totalRecords, recordsProcessed, currentField, currentRecord, finished, db, visited)
    }

    constructor (db: Database)
      ensures Abs() == Fresh(db)
    {
      initialized, fields, totalRecords, recordsProcessed := false, [], 0, 0;
      currentField, currentRecord, finished, this.db, visited := 0, 0, 0.0, db, [];
    }

    /** The top section, which is only needed the first time. */
    method Initialize(tables: seq<Table>)
      modifies this
      ensures Abs() == Initialized(old(Abs()), tables)
    {
      if initialized {
        return;
      }
      initialized := true;
      recordsProcessed, currentField, currentRecord := 0, 0, 0;
      fields, totalRecords := CollectFields(tables);
    }

    /** The loop over the records of the current field; `stop` is where it left off. */
    method ProcessRecords() returns (stop: nat)
      requires currentField < |fields| && currentRecord <= |fields[currentField].records|
      modifies this
      ensures stop == BatchEnd(old(fields[currentField]), old(currentRecord))
      ensures Abs() == Processed(old(Abs()), stop)
    {
      ghost var s := Abs();
      var counter := 1;
      var t := fields[currentField];
      stop := currentRecord;
      NothingProcessed(s);
      ghost var done := s;
      while counter <= MAX_PER_BATCH && stop < |t.records|
        invariant 1 <= counter <= MAX_PER_BATCH + 1 && stop == s.currentRecord + counter - 1 <= |t.records|
        invariant done == Processed(s, stop) && done.recordsProcessed == s.recordsProcessed + counter - 1
        invariant Abs() == done.(recordsProcessed := s.recordsProcessed)
      {
        OneMoreProcessed(s, stop);
        done := Processed(s, stop + 1);
        var visit := Visit(t.name, t.records[stop]);
        db := Write(db, visit);
        visited := visited + [visit];
        counter := counter + 1;
        stop := stop + 1;
      }
      recordsProcessed := recordsProcessed + (counter - 1);
    }

    /** The batch processing of the records of one field. */
    method ProcessBatch()
      requires totalRecords != 0 ==> currentField < |fields| && currentRecord <= |fields[currentField].records|
      modifies this
      ensures Abs() == Batch(old(Abs()))
    {
      if totalRecords == 0 {
        finished := 1.0;
        return;
      }
      var record := ProcessRecords();
      var field := currentField;
      // The field is done with: the next batch begins at the following one.
      if record >= |fields[field].records| {
        field, record := field + 1, 0;
      }
      if field >= |fields| {
        finished := 1.0;
      } else {
        currentField, currentRecord := field, record;
        finished := Ratio(recordsProcessed, totalRecords);
      }
    }

    /** One invocation. */
    method ConvertAuthorData(tables: seq<Table>)
      requires initialized && totalRecords != 0 ==>
                 currentField < |fields| && currentRecord <= |fields[currentField].records|
      modifies this
      ensures Abs() == Invoke(old(Abs()), tables)
    {
      FirstTable(Abs(), tables);
      Initialize(tables);
      ProcessBatch();
    }
  }

  /**
   * Invoked until it reports that it is finished, the update takes exactly the needed number of calls,
   * and has then processed every record of every table once, in order.
   */
  method RunUpdate(tables: seq<Table>, db: Database) returns (s: Sandbox, calls: nat)
    ensures calls == CallsNeeded(tables)
    ensures Completed(s, tables, db)
  {
    s, calls := Fresh(db), 0;
    if NonEmpty(tables) != [] {
      InitialProgress(tables, db);
    }
    while s.finished < 1.0
      invariant s.finished <= 1.0
      invariant s.finished == 1.0 ==> Completed(s, tables, db) && calls == CallsNeeded(tables)
      invariant s.finished < 1.0 && calls != 0 ==>
                  NonEmpty(tables) != [] && InProgress(s, tables, db) && calls + CallsLeft(s) == CallsNeeded(tables)
      invariant s.finished < 1.0 && calls == 0 ==> s == Fresh(db)
      decreases s.finished < 1.0, CallsNeeded(tables) - calls
    {
      if NonEmpty(tables) != [] {
        BatchProgress(Initialized(s, tables), tables, db);
      }
      s := Invoke(s, tables);
      calls := calls + 1;
    }
  }
}

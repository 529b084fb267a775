/**
 * metatag_post_update_v2_01_change_fields_to_json: every invocation queries again for up to 100 rows
 * of the current field that still hold a serialized array, and writes each one back as JSON.  The
 * update statement selects rows by their key, so it overwrites all rows of the table with that key.
 */
module MetatagJson {
  import opened Options
  import opened MetatagBatch
  import opened Sequences

  /**
   * What the field column of a row holds: a serialized array; something else that begins with "a:" but
   * does not unserialize to an array; the JSON of an array, which the update writes; or anything else.
   */
  datatype Value = Serialized(tags: Tags) | Broken(text: string) | Json(tags: Tags) | Other(text: string)

  datatype Row = Row(key: RowKey, value: Value)

  datatype Sandbox = Sandbox(
    initialized: bool,
    fields: seq<nat>,      // the tables, by number, that had matching rows at first
    totalRecords: nat,
    recordsProcessed: nat,
    currentField: nat,
    finished: real,
    tables: seq<seq<Row>>)

  function Fresh(tables: seq<seq<Row>>): Sandbox { Sandbox(false, [], 0, 0, 0, 0.0, tables) }

  // ---- The query and the update statement ------------------------------------------------------

  /** The condition of the query: the value begins with "a:". */
  predicate Matches(row: Row) { row.value.Serialized? || row.value.Broken? }

  function Matching(rows: seq<Row>): (r: seq<Row>)
    ensures forall i :: 0 <= i < |r| ==> Matches(r[i])
  {
    if rows == [] then [] else (if Matches(rows[0]) then [rows[0]] else []) + Matching(rows[1..])
  }

  /** The part of the matching rows that one invocation sees. */
  function First(ms: seq<Row>): (r: seq<Row>)
    ensures ms != [] ==> r != []
    ensures |r| <= |ms| && r == ms[..|r|] && (|r| == |ms| || |r| == MAX_PER_BATCH)
  {
    if |ms| <= MAX_PER_BATCH then ms else ms[..MAX_PER_BATCH]
  }

  function Overwrite(rows: seq<Row>, key: RowKey, tags: Tags): (r: seq<Row>)
    ensures |r| == |rows|
    ensures forall i :: 0 <= i < |rows| ==> r[i] == if rows[i].key == key then Row(key, Json(tags)) else rows[i]
  {
    seq(|rows|, i requires 0 <= i < |rows| => if rows[i].key == key then Row(key, Json(tags)) else rows[i])
  }

  function Write(rows: seq<Row>, record: Row): (r: seq<Row>)
    ensures |r| == |rows|
  {
    if record.value.Serialized? then Overwrite(rows, record.key, record.value.tags) else rows
  }

  /** The loop over the records that a query has found. */
  function WriteAll(rows: seq<Row>, records: seq<Row>): (r: seq<Row>)
    ensures |r| == |rows|
  {
    if records == [] then rows
    else Write(WriteAll(rows, records[..|records| - 1]), records[|records| - 1])
  }

  /** The tags that end up in the rows with this key: those of the last record written to it. */
  function LastWriter(records: seq<Row>, key: RowKey): Option<Tags> {
    if records == [] then None
    else
      var last := records[|records| - 1];
      if last.value.Serialized? && last.key == key then Some(last.value.tags)
      else LastWriter(records[..|records| - 1], key)
  }

  lemma {:induction false} WriteAllAt(rows: seq<Row>, records: seq<Row>, i: nat)
    requires i < |rows|
    ensures WriteAll(rows, records)[i]
         == match LastWriter(records, rows[i].key) case None => rows[i] case Some(tags) => Row(rows[i].key, Json(tags))
  {
    if records != [] {
      WriteAllAt(rows, records[..|records| - 1], i);
    }
  }

  lemma {:induction false} LastWriterMember(records: seq<Row>, key: RowKey) returns (k: nat)
    requires LastWriter(records, key).Some?
    ensures k < |records| && records[k].key == key && records[k].value == Serialized(LastWriter(records, key).value)
  {
    k := |records| - 1;
    if !(records[k].value.Serialized? && records[k].key == key) {
      k := LastWriterMember(records[..k], key);
    }
  }

  lemma {:induction false} WriterFound(records: seq<Row>, k: nat)
    requires k < |records| && records[k].value.Serialized?
    ensures LastWriter(records, records[k].key).Some?
  {
    if k < |records| - 1 {
      WriterFound(records[..|records| - 1], k);
    }
  }

  // ---- One field, batch by batch -------------------------------------------------------------------

  /** The matching rows whose key is not written to. */
  function Unwritten(ms: seq<Row>, records: seq<Row>): (r: seq<Row>)
    ensures |r| <= |ms| && (|r| == |ms| ==> r == ms)
  {
    if ms == [] then []
    else
      var rest := Unwritten(ms[1..], records);
      if LastWriter(records, ms[0].key).Some? then rest else [ms[0]] + rest
  }

  lemma {:induction false} UnwrittenMember(ms: seq<Row>, records: seq<Row>, m: Row)
    ensures m in Unwritten(ms, records) <==> m in ms && LastWriter(records, m.key).None?
  {
    if ms != [] {
      UnwrittenMember(ms[1..], records, m);
      assert ms == [ms[0]] + ms[1..];
    }
  }

  /** What the loop leaves to be matched: the rows with the keys written to are JSON now. */
  lemma {:induction false} MatchingAfter(rows: seq<Row>, after: seq<Row>, records: seq<Row>)
    requires |after| == |rows|
    requires forall i :: 0 <= i < |rows| ==>
               if LastWriter(records, rows[i].key).Some? then after[i].value.Json? else after[i] == rows[i]
    ensures Matching(after) == Unwritten(Matching(rows), records)
  {
    if rows != [] {
      MatchingAfter(rows[1..], after[1..], records);
      var ms, rest := Matching(rows), Matching(rows[1..]);
      if Matches(rows[0]) {
        assert ms[0] == rows[0] && ms[1..] == rest;
      } else {
        assert ms == rest;
      }
      assert !Matches(after[0]) || after[0] == rows[0];
    }
  }

  /** The matching rows after a batch. */
  function Next(ms: seq<Row>): (r: seq<Row>)
    ensures |r| <= |ms| && (|r| == |ms| ==> r == ms)
  {
    Unwritten(ms, First(ms))
  }

  lemma {:induction false} BatchMatching(rows: seq<Row>)
    ensures Matching(WriteAll(rows, First(Matching(rows)))) == Next(Matching(rows))
  {
    var records := First(Matching(rows));
    forall i | 0 <= i < |rows|
      ensures WriteAll(rows, records)[i]
           == match LastWriter(records, rows[i].key) case None => rows[i] case Some(tags) => Row(rows[i].key, Json(tags))
    {
      WriteAllAt(rows, records, i);
    }
    MatchingAfter(rows, WriteAll(rows, records), records);
  }

  /** Batch after batch leaves no matching row; otherwise some batch changes nothing any more. */
  predicate Drains(ms: seq<Row>)
    decreases |ms|
  {
    ms == [] || (|Next(ms)| < |ms| && Drains(Next(ms)))
  }

  /** The records that the batches which change something have counted. */
  function Counted(ms: seq<Row>): nat
    decreases |ms|
  {
    if |Next(ms)| < |ms| then |First(ms)| + Counted(Next(ms)) else 0
  }

  /**
   * The tags that the update gives to the rows with this key, if its batches go on: those of the last
   * record with the key that unserializes, among the records of the first batch to find one.
   */
  function Winner(ms: seq<Row>, key: RowKey): Option<Tags>
    decreases |ms|
  {
    var first := LastWriter(First(ms), key);
    if first.Some? || |Next(ms)| == |ms| then first else Winner(Next(ms), key)
  }

  lemma {:induction false} WinnerMember(ms: seq<Row>, key: RowKey) returns (m: Row)
    requires Winner(ms, key).Some?
    ensures m in ms && m == Row(key, Serialized(Winner(ms, key).value))
    decreases |ms|
  {
    if LastWriter(First(ms), key).Some? {
      var k := LastWriterMember(First(ms), key);
      m := ms[k];
    } else {
      m := WinnerMember(Next(ms), key);
      UnwrittenMember(ms, First(ms), m);
    }
  }

  /** A batch that writes to a key settles it; otherwise its rows still wait for the same tags. */
  lemma {:induction false} BatchWinner(ms: seq<Row>, key: RowKey)
    ensures Winner(Next(ms), key) == if LastWriter(First(ms), key).Some? then None else Winner(ms, key)
    ensures LastWriter(First(ms), key).Some? ==> Winner(ms, key) == LastWriter(First(ms), key)
  {
    if LastWriter(First(ms), key).Some? && Winner(Next(ms), key).Some? {
      var m := WinnerMember(Next(ms), key);
      UnwrittenMember(ms, First(ms), m);
    }
  }

  // ---- The update as a function of the sandbox -------------------------------------------------------

  function FieldsFrom(tables: seq<seq<Row>>, from: nat): (r: seq<nat>)
    ensures forall k :: 0 <= k < |r| ==> from <= r[k] < |tables| && Matching(tables[r[k]]) != []
    ensures forall i, j :: 0 <= i < j < |r| ==> r[i] < r[j]
    decreases |tables| - from
  {
    if from >= |tables| then []
    else if Matching(tables[from]) == [] then FieldsFrom(tables, from + 1)
    else [from] + FieldsFrom(tables, from + 1)
  }

  /** Different tables, by number. */
  ghost predicate FieldsOf(fields: seq<nat>, n: nat) {
    && (forall k :: 0 <= k < |fields| ==> fields[k] < n)
    && (forall i, j :: 0 <= i < j < |fields| ==> fields[i] < fields[j])
  }

  function Sum(ns: seq<nat>, k: nat): nat
    requires k <= |ns|
  {
    if k == 0 then 0 else Sum(ns, k - 1) + ns[k - 1]
  }

  /** The matching rows of each field. */
  function Lists(tables: seq<seq<Row>>, fields: seq<nat>): (r: seq<seq<Row>>)
    requires forall k :: 0 <= k < |fields| ==> fields[k] < |tables|
    ensures |r| == |fields| && forall k :: 0 <= k < |fields| ==> r[k] == Matching(tables[fields[k]])
  {
    seq(|fields|, k requires 0 <= k < |fields| => Matching(tables[fields[k]]))
  }

  function Sizes(lists: seq<seq<Row>>): (r: seq<nat>)
    ensures |r| == |lists| && forall k :: 0 <= k < |lists| ==> r[k] == |lists[k]|
  {
    seq(|lists|, k requires 0 <= k < |lists| => |lists[k]|)
  }

  /** The numbers of records that the batches of each field count. */
  function Counts(lists: seq<seq<Row>>): (r: seq<nat>)
    ensures |r| == |lists| && forall k :: 0 <= k < |lists| ==> r[k] == Counted(lists[k])
  {
    seq(|lists|, k requires 0 <= k < |lists| => Counted(lists[k]))
  }

  function RowTotal(lists: seq<seq<Row>>): nat { Sum(Sizes(lists), |lists|) }

  function CountTotal(lists: seq<seq<Row>>): nat { Sum(Counts(lists), |lists|) }

  /** The matching rows of all fields of these tables. */
  function AllLists(tables: seq<seq<Row>>): seq<seq<Row>> { Lists(tables, FieldsFrom(tables, 0)) }

  function Initialized(s: Sandbox): Sandbox {
    if s.initialized then s
    else
      var fields := FieldsFrom(s.tables, 0);
      s.(initialized := true, fields := fields, totalRecords := RowTotal(Lists(s.tables, fields)),
         recordsProcessed := 0, currentField := 0)
  }

  /** The current field exists, or it is not needed. */
  predicate InRange(s: Sandbox) {
    s.totalRecords != 0 ==> s.currentField < |s.fields| && s.fields[s.currentField] < |s.tables|
  }

  function Batch(s: Sandbox): Sandbox
    requires InRange(s)
  {
    if s.totalRecords == 0 then s.(finished := 1.0)
    else
      var f := s.fields[s.currentField];
      var records := First(Matching(s.tables[f]));
      var processed := s.recordsProcessed + |records|;
      s.(tables := s.tables[f := WriteAll(s.tables[f], records)],
         currentField := if records == [] then s.currentField + 1 else s.currentField,
         recordsProcessed := processed,
         finished := if processed >= s.totalRecords then 1.0 else Ratio(processed, s.totalRecords))
  }

  /** One invocation; None where the source looks up a field that does not exist. */
  function Invoke(s: Sandbox): Option<Sandbox> {
    var i := Initialized(s);
    if InRange(i) then Some(Batch(i)) else None
  }

  // ---- Contents --------------------------------------------------------------------------------------

  /** Row `j` may have been written to row `i`. */
  predicate Writes(rows: seq<Row>, j: nat, i: nat) {
    j < |rows| && i < |rows| && rows[j].key == rows[i].key && rows[j].value.Serialized?
  }

  /** A row is as it was until its key is settled; from then on it holds the JSON of the winner. */
  ghost predicate Kept(before: seq<Row>, after: seq<Row>, i: nat)
    requires i < |before| == |after|
  {
    var key := before[i].key;
    var was, now := Winner(Matching(before), key), Winner(Matching(after), key);
    if now == was then after[i] == before[i] else was.Some? && now.None? && after[i] == Row(key, Json(was.value))
  }

  ghost predicate RowsKept(before: seq<Row>, after: seq<Row>) {
    |after| == |before| && forall i: nat :: i < |before| ==> Kept(before, after, i)
  }

  ghost predicate TablesKept(before: seq<seq<Row>>, after: seq<seq<Row>>) {
    |after| == |before| && forall f :: 0 <= f < |before| ==> RowsKept(before[f], after[f])
  }

  lemma {:induction false} MatchingMember(rows: seq<Row>, m: Row)
    ensures m in Matching(rows) <==> m in rows && Matches(m)
  {
    if rows != [] {
      MatchingMember(rows[1..], m);
      assert rows == [rows[0]] + rows[1..];
    }
  }

  /** A row that has changed holds the JSON of a row with its key, as do all rows with that key. */
  lemma {:induction false} RowsKeptMeans(before: seq<Row>, after: seq<Row>, i: nat)
    requires RowsKept(before, after) && i < |before|
    ensures after[i].key == before[i].key
    ensures after[i] == before[i]
            || exists j: nat :: Writes(before, j, i) && after[i] == Row(before[i].key, Json(before[j].value.tags))
    ensures after[i] == before[i] || forall k: nat :: k < |before| && before[k].key == before[i].key ==> after[k] == after[i]
  {
    var key := before[i].key;
    assert Kept(before, after, i);
    if after[i] != before[i] {
      var m := WinnerMember(Matching(before), key);
      MatchingMember(before, m);
      var j: nat :| j < |before| && before[j] == m;
      assert Writes(before, j, i);
      forall k: nat | k < |before| && before[k].key == key
        ensures after[k] == after[i]
      {
        assert Kept(before, after, k);
      }
    }
  }

  /** Without matching rows there is nothing to write. */
  lemma {:induction false} StaysEmpty(before: seq<Row>, after: seq<Row>)
    requires Matching(before) == [] && RowsKept(before, after)
    ensures after == before
  {
    forall i: nat | i < |before|
      ensures after[i] == before[i]
    {
      RowsKeptMeans(before, after, i);
      if j: nat :| Writes(before, j, i) {
        MatchingMember(before, before[j]);
      }
    }
  }

  lemma {:induction false} WriteKeeps(before: seq<Row>, now: seq<Row>)
    requires RowsKept(before, now)
    ensures RowsKept(before, WriteAll(now, First(Matching(now))))
  {
    var ms, after := Matching(now), WriteAll(now, First(Matching(now)));
    BatchMatching(now);
    forall i: nat | i < |before|
      ensures Kept(before, after, i)
    {
      assert Kept(before, now, i);
      WriteAllAt(now, First(ms), i);
      BatchWinner(ms, before[i].key);
    }
  }

  lemma {:induction false} BatchKeeps(s: Sandbox, tables: seq<seq<Row>>)
    requires InRange(s) && TablesKept(tables, s.tables)
    ensures TablesKept(tables, Batch(s).tables)
  {
    if s.totalRecords != 0 {
      var f := s.fields[s.currentField];
      WriteKeeps(tables[f], s.tables[f]);
    }
  }

  // ---- The invariant of the batches -----------------------------------------------------------------

  /** How the records processed add up, as long as the fields drain; `now` is what the current field still holds. */
  ghost predicate Accounted(lists: seq<seq<Row>>, c: nat, processed: nat, now: seq<Row>)
    requires c <= |lists|
  {
    && (forall k :: 0 <= k < c ==> Drains(lists[k]))
    && if c == |lists| then processed == CountTotal(lists)
       else
         && (Drains(now) <==> Drains(lists[c]))
         && (Drains(now) ==> processed + Counted(now) == Sum(Counts(lists), c + 1))
  }

  lemma {:induction false} NextDrains(ms: seq<Row>)
    ensures Drains(Next(ms)) <==> Drains(ms)
    ensures Drains(ms) ==> Counted(ms) == |First(ms)| + Counted(Next(ms))
  {
  }

  lemma {:induction false} CountedAfter(lists: seq<seq<Row>>, c: nat, processed: nat, now: seq<Row>)
    requires c < |lists| && Accounted(lists, c, processed, now)
    ensures Accounted(lists, c, processed + |First(now)|, Next(now))
  {
    NextDrains(now);
  }

  lemma {:induction false} InitialAccounts(lists: seq<seq<Row>>)
    requires lists != []
    ensures Accounted(lists, 0, 0, lists[0])
  {
    assert Sum(Counts(lists), 1) == Sum(Counts(lists), 0) + Counts(lists)[0];
  }

  lemma {:induction false} LeftAfter(lists: seq<seq<Row>>, c: nat, processed: nat)
    requires c < |lists| && Accounted(lists, c, processed, [])
    ensures Accounted(lists, c + 1, processed, if c + 1 < |lists| then lists[c + 1] else [])
  {
  }

  /** The matching rows of the current field. */
  function Now(s: Sandbox): seq<Row>
    requires s.currentField < |s.fields| ==> s.fields[s.currentField] < |s.tables|
  {
    if s.currentField < |s.fields| then Matching(s.tables[s.fields[s.currentField]]) else []
  }

  /** The fields left behind are done with, and those not reached yet are as they were. */
  ghost predicate FieldByField(s: Sandbox, tables: seq<seq<Row>>) {
    && |s.tables| == |tables| && FieldsOf(s.fields, |tables|)
    && (forall k :: 0 <= k < s.currentField && k < |s.fields| ==> Matching(s.tables[s.fields[k]]) == [])
    && (forall k :: s.currentField < k < |s.fields| ==> s.tables[s.fields[k]] == tables[s.fields[k]])
  }

  /** What holds of the sandbox between any two batches. */
  ghost predicate Consistent(s: Sandbox, tables: seq<seq<Row>>) {
    && s.initialized && FieldByField(s, tables) && s.currentField <= |s.fields|
    && s.totalRecords == RowTotal(Lists(tables, s.fields)) > 0
    && TablesKept(tables, s.tables)
    && Accounted(Lists(tables, s.fields), s.currentField, s.recordsProcessed, Now(s))
  }

  /** Between two invocations of an unfinished update. */
  ghost predicate InProgress(s: Sandbox, tables: seq<seq<Row>>) {
    Consistent(s, tables) && s.recordsProcessed < s.totalRecords
  }

  /** After the last invocation. */
  ghost predicate Completed(s: Sandbox, tables: seq<seq<Row>>) {
    && s.finished == 1.0 && s.fields == FieldsFrom(tables, 0)
    && if s.fields == [] then s.tables == tables
       else Consistent(s, tables) && s.currentField < |s.fields| && s.recordsProcessed >= s.totalRecords
  }

  /** The invocations an unfinished update can still take. */
  function CallBound(s: Sandbox): int {
    (s.totalRecords - s.recordsProcessed) + (|s.fields| - s.currentField)
  }

  /** `t` is `s` after a batch on the current field. */
  ghost predicate Advanced(s: Sandbox, t: Sandbox)
    requires s.currentField < |s.fields|
  {
    && t.fields == s.fields && |t.tables| == |s.tables|
    && (forall g :: 0 <= g < |s.tables| && g != s.fields[s.currentField] ==> t.tables[g] == s.tables[g])
    && (t.currentField == s.currentField || t.currentField == s.currentField + 1)
  }

  lemma {:induction false} FieldsAfter(s: Sandbox, t: Sandbox, tables: seq<seq<Row>>)
    requires FieldByField(s, tables) && s.currentField < |s.fields| && Advanced(s, t)
    requires t.currentField != s.currentField ==> Matching(t.tables[s.fields[s.currentField]]) == []
    ensures FieldByField(t, tables)
  {
    var f := s.fields[s.currentField];
    forall k | 0 <= k < |t.fields| && k != s.currentField
      ensures t.tables[t.fields[k]] == s.tables[s.fields[k]]
    {
      assert t.fields[k] != f;
    }
  }

  /** What a batch does, as far as the invariant is concerned. */
  lemma {:induction false} BatchAdvances(s: Sandbox)
    requires s.totalRecords > 0 && InRange(s)
    ensures var t, f := Batch(s), s.fields[s.currentField];
            var ms := Now(s);
            && Advanced(s, t) && t.initialized == s.initialized && t.totalRecords == s.totalRecords
            && Matching(t.tables[f]) == Next(ms) && t.recordsProcessed == s.recordsProcessed + |First(ms)|
            && t.currentField == s.currentField + (if ms == [] then 1 else 0)
  {
    BatchMatching(s.tables[s.fields[s.currentField]]);
  }

  /** The next field is as it was at first. */
  lemma {:induction false} NextField(s: Sandbox, t: Sandbox, tables: seq<seq<Row>>)
    requires FieldByField(s, tables) && s.currentField < |s.fields| && Advanced(s, t)
    requires t.currentField == s.currentField + 1
    ensures var lists, c := Lists(tables, s.fields), t.currentField;
            Now(t) == if c < |lists| then lists[c] else []
  {
    if t.currentField < |t.fields| {
      assert s.fields[t.currentField] != s.fields[s.currentField];
    }
  }

  lemma {:induction false} AccountsAfter(s: Sandbox, t: Sandbox, tables: seq<seq<Row>>)
    requires FieldByField(s, tables) && FieldByField(t, tables) && s.currentField < |s.fields| && Advanced(s, t)
    requires Accounted(Lists(tables, s.fields), s.currentField, s.recordsProcessed, Now(s))
    requires Matching(t.tables[s.fields[s.currentField]]) == Next(Now(s))
    requires t.recordsProcessed == s.recordsProcessed + |First(Now(s))|
    requires t.currentField == s.currentField + (if Now(s) == [] then 1 else 0)
    ensures Accounted(Lists(tables, s.fields), t.currentField, t.recordsProcessed, Now(t))
  {
    var lists, c := Lists(tables, s.fields), s.currentField;
    if Now(s) == [] {
      LeftAfter(lists, c, s.recordsProcessed);
      NextField(s, t, tables);
    } else {
      CountedAfter(lists, c, s.recordsProcessed, Now(s));
      assert Now(t) == Next(Now(s));
    }
  }

  lemma {:induction false} BatchConsistent(s: Sandbox, tables: seq<seq<Row>>)
    requires InProgress(s, tables) && InRange(s)
    ensures Consistent(Batch(s), tables)
  {
    BatchAdvances(s);
    FieldsAfter(s, Batch(s), tables);
    AccountsAfter(s, Batch(s), tables);
    BatchKeeps(s, tables);
  }

  lemma {:induction false} BatchCalls(s: Sandbox)
    requires s.totalRecords > 0 && InRange(s) && s.recordsProcessed < s.totalRecords
    ensures var t := Batch(s);
            && t.fields == s.fields && t.totalRecords == s.totalRecords
            && if t.recordsProcessed >= t.totalRecords then t.finished == 1.0 && t.currentField == s.currentField
               else 0 <= CallBound(t) < CallBound(s) && 0.0 <= t.finished < 1.0
  {
  }

  /** Every invocation finishes the update or brings it nearer to its end. */
  lemma {:induction false} BatchProgress(s: Sandbox, tables: seq<seq<Row>>)
    requires InProgress(s, tables) && InRange(s)
    ensures Consistent(Batch(s), tables) && Batch(s).fields == s.fields
    ensures var t := Batch(s);
            if t.recordsProcessed >= t.totalRecords then t.finished == 1.0 && t.currentField < |t.fields|
            else InProgress(t, tables) && 0 <= CallBound(t) < CallBound(s) && 0.0 <= t.finished < 1.0
  {
    BatchConsistent(s, tables);
    BatchCalls(s);
  }

  // ---- When the update runs off its fields ------------------------------------------------------------

  /**
   * The update fails: every field drains, but some rows are converted along with others before they
   * are counted, so that the fields are used up before the count is complete.
   */
  ghost predicate RunsOut(lists: seq<seq<Row>>) {
    (forall k :: 0 <= k < |lists| ==> Drains(lists[k])) && CountTotal(lists) < RowTotal(lists)
  }

  ghost predicate Fails(tables: seq<seq<Row>>) { RunsOut(AllLists(tables)) }

  lemma {:induction false} SumMonotone(ns: seq<nat>, a: nat, b: nat)
    requires a <= b <= |ns|
    ensures Sum(ns, a) <= Sum(ns, b)
    decreases b
  {
    if a < b {
      SumMonotone(ns, a, b - 1);
    }
  }

  /** An unfinished update without a current field is one that fails. */
  lemma {:induction false} OutOfFields(s: Sandbox, tables: seq<seq<Row>>)
    requires InProgress(s, tables) && !InRange(s)
    ensures RunsOut(Lists(tables, s.fields))
  {
  }

  /** Fields that all drain cannot count more before their last is left than they can in all. */
  lemma {:induction false} DrainedShort(lists: seq<seq<Row>>, c: nat, processed: nat, now: seq<Row>)
    requires c < |lists| && Accounted(lists, c, processed, now)
    ensures RunsOut(lists) ==> processed < RowTotal(lists)
  {
    if RunsOut(lists) {
      assert Drains(lists[c]);
      SumMonotone(Counts(lists), c + 1, |lists|);
    }
  }

  /** A completed update is one that does not. */
  lemma {:induction false} CompletedInRange(s: Sandbox, tables: seq<seq<Row>>)
    requires Consistent(s, tables) && s.currentField < |s.fields| && s.recordsProcessed >= s.totalRecords
    ensures !RunsOut(Lists(tables, s.fields))
  {
    DrainedShort(Lists(tables, s.fields), s.currentField, s.recordsProcessed, Now(s));
  }

  lemma {:induction false} EmptyRange(tables: seq<seq<Row>>)
    ensures RowTotal(AllLists(tables)) > 0 <==> FieldsFrom(tables, 0) != []
  {
    var lists := AllLists(tables);
    if lists != [] {
      assert Sizes(lists)[|lists| - 1] > 0;
    }
  }

  // ---- Repeated invocations --------------------------------------------------------------------------

  lemma {:induction false} KeptItself(tables: seq<seq<Row>>)
    ensures TablesKept(tables, tables)
  {
  }

  lemma {:induction false} InitialProgress(tables: seq<seq<Row>>)
    requires FieldsFrom(tables, 0) != []
    ensures InProgress(Initialized(Fresh(tables)), tables)
  {
    EmptyRange(tables);
    KeptItself(tables);
    InitialAccounts(AllLists(tables));
    InitialFields(tables);
  }

  lemma {:induction false} InitialFields(tables: seq<seq<Row>>)
    requires FieldsFrom(tables, 0) != []
    ensures var i := Initialized(Fresh(tables)); FieldByField(i, tables) && Now(i) == AllLists(tables)[0]
  {
  }

  /** Every table with matching rows is a field. */
  lemma {:induction false} FieldOf(tables: seq<seq<Row>>, from: nat, f: nat) returns (k: nat)
    requires from <= f < |tables| && Matching(tables[f]) != []
    ensures k < |FieldsFrom(tables, from)| && FieldsFrom(tables, from)[k] == f
    decreases |tables| - from
  {
    if from == f {
      k := 0;
    } else {
      k := FieldOf(tables, from + 1, f);
      if Matching(tables[from]) != [] {
        k := k + 1;
      }
    }
  }

  /** An update that has run off its fields has left no matching row. */
  lemma {:induction false} OutOfRows(s: Sandbox, tables: seq<seq<Row>>)
    requires InProgress(s, tables) && s.fields == FieldsFrom(tables, 0) && !InRange(s)
    ensures |s.tables| == |tables| && forall f :: 0 <= f < |tables| ==> Matching(s.tables[f]) == []
  {
    forall f: nat | f < |tables|
      ensures Matching(s.tables[f]) == []
    {
      if Matching(tables[f]) == [] {
        StaysEmpty(tables[f], s.tables[f]);
      } else {
        var k := FieldOf(tables, 0, f);
      }
    }
  }

  /** What holds of the sandbox as long as the update is unfinished. */
  ghost predicate Unfinished(s: Sandbox, tables: seq<seq<Row>>) {
    var fields, i := FieldsFrom(tables, 0), Initialized(s);
    if fields == [] then s == Fresh(tables) else i.fields == fields && InProgress(i, tables)
  }

  lemma {:induction false} InvokeProgress(s: Sandbox, tables: seq<seq<Row>>)
    requires Unfinished(s, tables) && s.finished < 1.0
    ensures var t := Invoke(s);
            if t.None? then
              && Fails(tables) && FieldsFrom(tables, 0) != [] && |s.tables| == |tables|
              && forall f :: 0 <= f < |tables| ==> Matching(s.tables[f]) == []
            else if t.value.finished == 1.0 then Completed(t.value, tables) && !Fails(tables)
            else Unfinished(t.value, tables) && t.value.initialized && t.value.finished < 1.0
                 && 0 <= CallBound(t.value) < CallBound(Initialized(s))
  {
    var fields, i := FieldsFrom(tables, 0), Initialized(s);
    EmptyRange(tables);
    if fields != [] {
      if !InRange(i) {
        OutOfFields(i, tables);
        OutOfRows(i, tables);
      } else {
        BatchProgress(i, tables);
        if Batch(i).finished == 1.0 {
          CompletedInRange(Batch(i), tables);
        }
      }
    }
  }

  /**
   * Invoked until it is finished or fails, the update takes at most one call for every matching row and
   * one for every field, whatever the rows.  It fails if and only if every field drains with fewer
   * records counted than there were matching rows; no row is left to be matched then.
   */
  method RunUpdate(tables: seq<seq<Row>>) returns (s: Sandbox, calls: nat, failed: bool)
    ensures failed <==> Fails(tables)
    ensures !failed ==> Completed(s, tables)
    ensures TablesKept(tables, s.tables)
    ensures failed ==> forall f :: 0 <= f < |tables| ==> Matching(s.tables[f]) == []
    ensures var fields := FieldsFrom(tables, 0); calls <= 1 + RowTotal(AllLists(tables)) + |fields|
  {
    s, calls, failed := Fresh(tables), 0, false;
    ghost var bound := CallBound(Initialized(s));
    if FieldsFrom(tables, 0) != [] {
      InitialProgress(tables);
    }
    while s.finished < 1.0
      invariant if s.finished < 1.0 then Unfinished(s, tables) && calls + CallBound(Initialized(s)) <= bound
                else Completed(s, tables) && !Fails(tables) && calls <= bound + 1
      decreases s.finished < 1.0, bound + 1 - calls
    {
      InvokeProgress(s, tables);
      calls := calls + 1;
      var next := Invoke(s);
      if next.None? {
        KeptItself(tables);
        return s, calls, true;
      }
      s := next.value;
    }
    KeptItself(tables);
  }

  // ---- The update function as it is written --------------------------------------------------------------

  /** The loop over the results of the query, each of which updates the rows with its key. */
  method ConvertSegment(rows: seq<Row>) returns (converted: seq<Row>, counter: nat)
    ensures converted == WriteAll(rows, First(Matching(rows))) && counter == |First(Matching(rows))|
  {
    var results := First(Matching(rows));
    converted, counter := rows, 0;
    for i := 0 to |results|
      invariant counter == i && converted == WriteAll(rows, results[..i])
    {
      var record := results[i];
      assert results[..i + 1][..i] == results[..i];
      if record.value.Serialized? {
        converted := Overwrite(converted, record.key, record.value.tags);
      }
      counter := counter + 1;
    }
    assert results[..|results|] == results;
  }

  /** The fields among the first `i` tables, and the number of their matching rows. */
  ghost predicate Collected(tables: seq<seq<Row>>, i: nat, fields: seq<nat>, total: nat) {
    && i <= |tables| && (forall k :: 0 <= k < |fields| ==> fields[k] < i)
    && fields + FieldsFrom(tables, i) == FieldsFrom(tables, 0)
    && total == RowTotal(Lists(tables, fields))
  }

  lemma {:induction false} CollectNext(tables: seq<seq<Row>>, i: nat, fields: seq<nat>, total: nat)
    requires i < |tables| && Collected(tables, i, fields, total) && Matching(tables[i]) != []
    ensures Collected(tables, i + 1, fields + [i], total + |Matching(tables[i])|)
  {
    OneMoreField(tables, fields, i);
    Associative(fields, [i as nat], FieldsFrom(tables, i + 1));
  }

  lemma {:induction false} OneMoreField(tables: seq<seq<Row>>, fields: seq<nat>, i: nat)
    requires i < |tables| && forall k :: 0 <= k < |fields| ==> fields[k] < i
    ensures RowTotal(Lists(tables, fields + [i])) == RowTotal(Lists(tables, fields)) + |Matching(tables[i])|
  {
    var more := Lists(tables, fields + [i]);
    SumPrefix(Sizes(Lists(tables, fields)), Sizes(more), |fields|);
    assert more[|fields|] == Matching(tables[i]);
  }

  lemma {:induction false} CollectSkip(tables: seq<seq<Row>>, i: nat, fields: seq<nat>, total: nat)
    requires i < |tables| && Collected(tables, i, fields, total) && Matching(tables[i]) == []
    ensures Collected(tables, i + 1, fields, total)
  {
  }

  lemma {:induction false} CollectedAll(tables: seq<seq<Row>>, fields: seq<nat>, total: nat)
    requires Collected(tables, |tables|, fields, total)
    ensures fields == FieldsFrom(tables, 0) && total == RowTotal(Lists(tables, fields))
  {
    assert fields + [] == fields;
  }

  lemma {:induction false} SumPrefix(a: seq<nat>, b: seq<nat>, k: nat)
    requires k <= |a| && k <= |b| && forall j :: 0 <= j < k ==> a[j] == b[j]
    ensures Sum(a, k) == Sum(b, k)
  {
    if k != 0 {
      SumPrefix(a, b, k - 1);
    }
  }

  /** The loop over the tables that looks for records to convert. */
  method CollectFields(tables: seq<seq<Row>>) returns (fields: seq<nat>, totalRecords: nat)
    ensures fields == FieldsFrom(tables, 0) && totalRecords == RowTotal(Lists(tables, fields))
  {
    fields, totalRecords := [], 0;
    for i := 0 to |tables|
      invariant Collected(tables, i, fields, totalRecords)
    {
      var records := Matching(tables[i]);
      if records != [] {
        CollectNext(tables, i, fields, totalRecords);
        fields := fields + [i];
        totalRecords := totalRecords + |records|;
      } else {
        CollectSkip(tables, i, fields, totalRecords);
      }
    }
    CollectedAll(tables, fields, totalRecords);
  }

  /** The sandbox passed by reference, and the tables. */
  class BatchUpdate {
    var initialized: bool
    var fields: seq<nat>
    var totalRecords: nat
    var recordsProcessed: nat
    var currentField: nat
    var finished: real
    var tables: seq<seq<Row>>

    ghost function Abs(): Sandbox
      reads this
    {
      Sandbox(initialized, fields, totalRecords, recordsProcessed, currentField, finished, tables)
    }

    constructor (tables: seq<seq<Row>>)
      ensures Abs() == Fresh(tables)
    {
      initialized, fields, totalRecords, recordsProcessed := false, [], 0, 0;
      currentField, finished, this.tables := 0, 0.0, tables;
    }

    /** The top section, which is only needed the first time. */
    method Initialize()
      modifies this
      ensures Abs() == Initialized(old(Abs()))
    {
      if !initialized {
        initialized, recordsProcessed, currentField := true, 0, 0;
        fields, totalRecords := CollectFields(tables);
      }
    }

    /** One batch of the current field. */
    method ProcessBatch()
      requires InRange(Abs())
      modifies this
      ensures Abs() == Batch(old(Abs()))
    {
      if totalRecords == 0 {
        finished := 1.0;
        return;
      }
      ghost var records := First(Matching(tables[fields[currentField]]));
      var field := fields[currentField];
      var rows, counter := ConvertSegment(tables[field]);
      assert counter == 0 <==> records == [];
      tables := tables[field := rows];
      if counter == 0 {
        currentField := currentField + 1;
      }
      recordsProcessed := recordsProcessed + counter;
      finished := if recordsProcessed >= totalRecords then 1.0
                  else Ratio(recordsProcessed, totalRecords);
    }

    /** One invocation; `ok` is false where the source looks up a field that does not exist. */
    method ChangeFieldsToJson() returns (ok: bool)
      modifies this
      ensures ok <==> Invoke(old(Abs())).Some?
      ensures ok ==> Invoke(old(Abs())) == Some(Abs())
    {
      Initialize();
      ok := totalRecords == 0 || (currentField < |fields| && fields[currentField] < |tables|);
      if ok {
        ProcessBatch();
      }
    }
  }
}

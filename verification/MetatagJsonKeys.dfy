/**
 * What the JSON update does when rows share keys and when they do not: when it runs off its fields, what
 * it leaves in the rows, and how a row that does not unserialize holds it up.
 */
module MetatagJsonKeys {
  import opened Options
  import opened MetatagBatch
  import opened MetatagJson

  // ---- Rows that all unserialize ----------------------------------------------------------------------

  ghost predicate AllSerialized(ms: seq<Row>) { forall k :: 0 <= k < |ms| ==> ms[k].value.Serialized? }

  /** Rows with the same key are found by the same batch: they are in the same hundred. */
  ghost predicate KeysTogether(ms: seq<Row>) {
    forall i, j :: 0 <= i < j < |ms| && i / MAX_PER_BATCH != j / MAX_PER_BATCH ==> ms[i].key != ms[j].key
  }

  lemma {:induction false} UnwrittenConcat(a: seq<Row>, b: seq<Row>, records: seq<Row>)
    ensures Unwritten(a + b, records) == Unwritten(a, records) + Unwritten(b, records)
  {
    if a == [] {
      assert a + b == b;
    } else {
      assert (a + b)[1..] == a[1..] + b;
      UnwrittenConcat(a[1..], b, records);
    }
  }

  lemma {:induction false} AllWritten(ms: seq<Row>, records: seq<Row>)
    requires forall k :: 0 <= k < |ms| ==> LastWriter(records, ms[k].key).Some?
    ensures Unwritten(ms, records) == []
  {
    if ms != [] {
      AllWritten(ms[1..], records);
    }
  }

  lemma {:induction false} NoneWritten(ms: seq<Row>, records: seq<Row>)
    ensures Unwritten(ms, records) == ms <==> forall k :: 0 <= k < |ms| ==> LastWriter(records, ms[k].key).None?
  {
    if ms != [] {
      NoneWritten(ms[1..], records);
    }
  }

  /** The batch takes its own rows, and with them the later ones that share a key with one of its own. */
  lemma {:induction false} SerializedBatch(ms: seq<Row>)
    requires AllSerialized(ms)
    ensures AllSerialized(Next(ms)) && Next(ms) == Unwritten(ms[|First(ms)|..], First(ms))
  {
    var records, rest := First(ms), ms[|First(ms)|..];
    forall k | 0 <= k < |records|
      ensures LastWriter(records, records[k].key).Some?
    {
      WriterFound(records, k);
    }
    AllWritten(records, records);
    assert ms == records + rest;
    UnwrittenConcat(records, rest, records);
    forall k | 0 <= k < |Next(ms)|
      ensures Next(ms)[k].value.Serialized?
    {
      UnwrittenMember(ms, records, Next(ms)[k]);
    }
  }

  /** Whether the later rows share a key with a row of the batch. */
  lemma {:induction false} SharesKey(ms: seq<Row>)
    requires AllSerialized(ms) && |ms| > MAX_PER_BATCH
    ensures Next(ms) == ms[MAX_PER_BATCH..] <==>
              forall i, j :: 0 <= i < MAX_PER_BATCH <= j < |ms| ==> ms[i].key != ms[j].key
  {
    var records, rest := First(ms), ms[MAX_PER_BATCH..];
    SerializedBatch(ms);
    NoneWritten(rest, records);
    if i, j :| 0 <= i < MAX_PER_BATCH <= j < |ms| && ms[i].key == ms[j].key {
      WriterFound(records, i);
      assert rest[j - MAX_PER_BATCH] == ms[j];
    }
    if k :| 0 <= k < |rest| && LastWriter(records, rest[k].key).Some? {
      var i := LastWriterMember(records, rest[k].key);
      assert ms[i].key == ms[MAX_PER_BATCH + k].key;
    }
  }

  lemma {:induction false} TogetherSplit(ms: seq<Row>)
    requires |ms| > MAX_PER_BATCH
    ensures KeysTogether(ms) <==>
              KeysTogether(ms[MAX_PER_BATCH..])
              && forall i, j :: 0 <= i < MAX_PER_BATCH <= j < |ms| ==> ms[i].key != ms[j].key
  {
    var rest := ms[MAX_PER_BATCH..];
    if KeysTogether(ms) {
      forall i, j | 0 <= i < j < |rest| && i / MAX_PER_BATCH != j / MAX_PER_BATCH
        ensures rest[i].key != rest[j].key
      {
        assert ms[i + MAX_PER_BATCH].key != ms[j + MAX_PER_BATCH].key;
      }
    }
    if KeysTogether(rest) && forall i, j :: 0 <= i < MAX_PER_BATCH <= j < |ms| ==> ms[i].key != ms[j].key {
      forall i, j | 0 <= i < j < |ms| && i / MAX_PER_BATCH != j / MAX_PER_BATCH
        ensures ms[i].key != ms[j].key
      {
        if MAX_PER_BATCH <= i {
          assert rest[i - MAX_PER_BATCH].key != rest[j - MAX_PER_BATCH].key;
        }
      }
    }
  }

  /** Rows that all unserialize drain, and are all counted if and only if keys are shared within hundreds only. */
  lemma {:induction false} SerializedDrain(ms: seq<Row>)
    requires AllSerialized(ms)
    ensures Drains(ms) && Counted(ms) <= |ms|
    ensures Counted(ms) == |ms| <==> KeysTogether(ms)
    decreases |ms|
  {
    if ms != [] {
      SerializedBatch(ms);
      SerializedDrain(Next(ms));
      NextDrains(ms);
      if |ms| <= MAX_PER_BATCH {
        assert Next(ms) == [];
        assert forall i :: 0 <= i < |ms| && i < MAX_PER_BATCH ==> i / MAX_PER_BATCH == 0 || |ms| == MAX_PER_BATCH;
      } else {
        SharesKey(ms);
        TogetherSplit(ms);
      }
    }
  }

  lemma {:induction false} SumsCompare(a: seq<nat>, b: seq<nat>, k: nat)
    requires k <= |a| == |b| && forall j :: 0 <= j < k ==> a[j] <= b[j]
    ensures Sum(a, k) <= Sum(b, k)
    ensures Sum(a, k) == Sum(b, k) <==> forall j :: 0 <= j < k ==> a[j] == b[j]
  {
    if k != 0 {
      SumsCompare(a, b, k - 1);
    }
  }

  /** When no field loses rows or counts rows twice. */
  lemma {:induction false} CountsCompare(lists: seq<seq<Row>>)
    requires forall k :: 0 <= k < |lists| ==> Drains(lists[k]) && Counted(lists[k]) <= |lists[k]|
    ensures RunsOut(lists) <==> exists k :: 0 <= k < |lists| && Counted(lists[k]) != |lists[k]|
    ensures CountTotal(lists) <= RowTotal(lists)
  {
    SumsCompare(Counts(lists), Sizes(lists), |lists|);
    if k :| 0 <= k < |lists| && Counted(lists[k]) != |lists[k]| {
      assert Counts(lists)[k] != Sizes(lists)[k];
    }
    if j :| 0 <= j < |lists| && Counts(lists)[j] != Sizes(lists)[j] {
      assert Counted(lists[j]) != |lists[j]|;
    }
  }

  /** No row that unserializes shares its key with one that begins with "a:" but does not. */
  ghost predicate BrokenApart(rows: seq<Row>) { forall i: nat, j: nat :: Writes(rows, j, i) ==> !rows[i].value.Broken? }

  /** The table has no row that begins with "a:" without unserializing to an array. */
  ghost predicate NoBroken(rows: seq<Row>) { forall i :: 0 <= i < |rows| ==> !rows[i].value.Broken? }

  /** The table has one that no other row can overwrite. */
  ghost predicate HasStuckRow(rows: seq<Row>) {
    exists i: nat :: i < |rows| && rows[i].value.Broken? && forall j: nat :: !Writes(rows, j, i)
  }

  lemma {:induction false} MatchingSerialized(rows: seq<Row>)
    ensures AllSerialized(Matching(rows)) <==> NoBroken(rows)
  {
    var ms := Matching(rows);
    forall k | 0 <= k < |ms|
      ensures ms[k] in rows
    {
      MatchingMember(rows, ms[k]);
    }
    if i :| 0 <= i < |rows| && rows[i].value.Broken? {
      MatchingMember(rows, rows[i]);
    }
  }

  /** A row that does not unserialize stays, if no row with its key does. */
  lemma {:induction false} BrokenStays(ms: seq<Row>, m: Row)
    requires m in ms && m.value.Broken? && forall q :: q in ms && q.key == m.key ==> !q.value.Serialized?
    ensures !Drains(ms)
    decreases |ms|
  {
    var records := First(ms);
    if LastWriter(records, m.key).Some? {
      var k := LastWriterMember(records, m.key);
      assert false;
    }
    UnwrittenMember(ms, records, m);
    if |Next(ms)| < |ms| {
      forall q | q in Next(ms)
        ensures q in ms
      {
        UnwrittenMember(ms, records, q);
      }
      BrokenStays(Next(ms), m);
    }
  }

  lemma {:induction false} StuckStays(rows: seq<Row>)
    requires HasStuckRow(rows)
    ensures !Drains(Matching(rows)) && Matching(rows) != []
  {
    var i: nat :| i < |rows| && rows[i].value.Broken? && forall j: nat :: !Writes(rows, j, i);
    MatchingMember(rows, rows[i]);
    forall q | q in Matching(rows) && q.key == rows[i].key
      ensures !q.value.Serialized?
    {
      MatchingMember(rows, q);
      var j: nat :| j < |rows| && rows[j] == q;
      assert !Writes(rows, j, i);
    }
    BrokenStays(Matching(rows), rows[i]);
  }

  /** Where no row can be overwritten by one with another outcome, rows drain if and only if all unserialize. */
  lemma {:induction false} ApartDrains(rows: seq<Row>)
    requires BrokenApart(rows)
    ensures Drains(Matching(rows)) <==> NoBroken(rows)
  {
    MatchingSerialized(rows);
    if i: nat :| i < |rows| && rows[i].value.Broken? {
      assert forall j: nat :: !Writes(rows, j, i);
      StuckStays(rows);
    } else {
      SerializedDrain(Matching(rows));
    }
  }

  /** The update does not run off its fields if some row can never be converted. */
  lemma {:induction false} StuckNeverFails(tables: seq<seq<Row>>, f: nat)
    requires f < |tables| && HasStuckRow(tables[f])
    ensures !Fails(tables)
  {
    StuckStays(tables[f]);
    var k := FieldOf(tables, 0, f);
    assert AllLists(tables)[k] == Matching(tables[f]);
  }

  /**
   * When all matching rows unserialize, the update runs off its fields if and only if some table has two
   * of them with the same key in different hundreds.
   */
  lemma {:induction false} SerializedFailsIff(tables: seq<seq<Row>>)
    requires forall f :: 0 <= f < |tables| ==> AllSerialized(Matching(tables[f]))
    ensures Fails(tables) <==> exists f :: 0 <= f < |tables| && !KeysTogether(Matching(tables[f]))
  {
    var fields, lists := FieldsFrom(tables, 0), AllLists(tables);
    forall k | 0 <= k < |lists|
      ensures Drains(lists[k]) && Counted(lists[k]) <= |lists[k]|
      ensures Counted(lists[k]) == |lists[k]| <==> KeysTogether(lists[k])
    {
      assert lists[k] == Matching(tables[fields[k]]);
      SerializedDrain(lists[k]);
    }
    CountsCompare(lists);
    if f: nat :| f < |tables| && !KeysTogether(Matching(tables[f])) {
      var k := FieldOf(tables, 0, f);
      assert Counted(lists[k]) != |lists[k]|;
    }
    if k :| 0 <= k < |lists| && Counted(lists[k]) != |lists[k]| {
      assert !KeysTogether(Matching(tables[fields[k]]));
    }
  }

  /**
   * The update runs off its fields if and only if all matching rows unserialize and some table has two of
   * them with the same key in different hundreds.
   */
  lemma {:induction false} FailsIffKeysStraddle(tables: seq<seq<Row>>)
    requires forall f :: 0 <= f < |tables| ==> BrokenApart(tables[f])
    ensures Fails(tables) <==>
              && (forall f :: 0 <= f < |tables| ==> NoBroken(tables[f]))
              && exists f :: 0 <= f < |tables| && !KeysTogether(Matching(tables[f]))
  {
    if forall f :: 0 <= f < |tables| ==> NoBroken(tables[f]) {
      forall f | 0 <= f < |tables|
        ensures AllSerialized(Matching(tables[f]))
      {
        MatchingSerialized(tables[f]);
      }
      SerializedFailsIff(tables);
    } else {
      var f: nat :| f < |tables| && !NoBroken(tables[f]);
      var i: nat :| i < |tables[f]| && tables[f][i].value.Broken?;
      assert forall j: nat :: !Writes(tables[f], j, i);
      StuckNeverFails(tables, f);
    }
  }

  /** A hundred and one rows, the last two of which share a key. */
  function SharedKeyTable(): (rows: seq<Row>)
    ensures |rows| == 101 && AllSerialized(rows) && rows[99].key == rows[100].key
  {
    seq(101, i => Row(RowKey(if i == 100 then 99 else i, 1, "en"), Serialized(map[])))
  }

  lemma {:induction false} MatchingAll(rows: seq<Row>)
    requires AllSerialized(rows)
    ensures Matching(rows) == rows
  {
    if rows != [] {
      MatchingAll(rows[1..]);
    }
  }

  /** The first batch converts all of them but counts a hundred; then there is no current field. */
  lemma {:induction false} SharedKeyFails()
    ensures Fails([SharedKeyTable()])
  {
    var rows, tables := SharedKeyTable(), [SharedKeyTable()];
    MatchingAll(rows);
    assert forall f :: 0 <= f < |tables| ==> tables[f] == rows;
    SerializedFailsIff(tables);
    assert rows[99].key == rows[100].key && 99 / MAX_PER_BATCH != 100 / MAX_PER_BATCH;
    assert !KeysTogether(Matching(tables[0]));
  }

  // ---- Distinct keys -------------------------------------------------------------------------------------

  ghost predicate DistinctKeys(rows: seq<Row>) {
    forall i, j :: 0 <= i < j < |rows| ==> rows[i].key != rows[j].key
  }

  ghost predicate AllDistinct(tables: seq<seq<Row>>) { forall f :: 0 <= f < |tables| ==> DistinctKeys(tables[f]) }

  lemma {:induction false} MatchingDistinct(rows: seq<Row>)
    requires DistinctKeys(rows)
    ensures DistinctKeys(Matching(rows))
  {
    if rows != [] {
      MatchingDistinct(rows[1..]);
      forall j | 0 <= j < |Matching(rows[1..])|
        ensures Matching(rows[1..])[j].key != rows[0].key
      {
        MatchingMember(rows[1..], Matching(rows[1..])[j]);
      }
    }
  }

  /** With distinct keys the update never runs off its fields. */
  lemma {:induction false} DistinctNeverFails(tables: seq<seq<Row>>)
    requires AllDistinct(tables)
    ensures !Fails(tables)
  {
    forall f | 0 <= f < |tables|
      ensures BrokenApart(tables[f]) && KeysTogether(Matching(tables[f]))
    {
      MatchingDistinct(tables[f]);
      forall i: nat, j: nat | Writes(tables[f], j, i)
        ensures i == j
      {
      }
    }
    FailsIffKeysStraddle(tables);
  }

  /** With distinct keys, an unfinished update always has a current field. */
  lemma {:induction false} DistinctInRange(s: Sandbox, tables: seq<seq<Row>>)
    requires InProgress(s, tables) && s.fields == FieldsFrom(tables, 0) && AllDistinct(tables)
    ensures InRange(s)
  {
    DistinctNeverFails(tables);
    if !InRange(s) {
      OutOfFields(s, tables);
    }
  }

  // ---- What a finished update leaves ---------------------------------------------------------------------

  lemma {:induction false} SumGrows(ns: seq<nat>, a: nat, b: nat)
    requires a < b <= |ns| && forall k :: 0 <= k < |ns| ==> ns[k] > 0
    ensures Sum(ns, a) < Sum(ns, b)
    decreases b
  {
    SumMonotone(ns, a, b - 1);
  }

  /** The accounts at the end. */
  lemma {:induction false} FinalAccounts(s: Sandbox, tables: seq<seq<Row>>, lists: seq<seq<Row>>)
    requires Completed(s, tables) && s.fields != [] && lists == AllLists(tables)
    ensures && s.currentField < |lists| == |s.fields| && FieldByField(s, tables)
            && Accounted(lists, s.currentField, s.recordsProcessed, Now(s)) && s.recordsProcessed >= RowTotal(lists)
            && forall j :: 0 <= j < |lists| ==> lists[j] != []
  {
  }

  /** A completed update whose fields drain without loss has left no matching row in any of them. */
  lemma {:induction false} CompletedDrained(s: Sandbox, tables: seq<seq<Row>>, lists: seq<seq<Row>>, k: nat)
    requires Completed(s, tables) && lists == AllLists(tables) && k < |lists|
    requires forall j :: 0 <= j < |lists| ==> Drains(lists[j]) && Counted(lists[j]) == |lists[j]|
    ensures FieldsOf(s.fields, |s.tables|) && k < |s.fields| && Matching(s.tables[s.fields[k]]) == []
  {
    FinalAccounts(s, tables, lists);
    LastField(lists, s.currentField, s.recordsProcessed, Now(s));
    FieldsDone(s, tables, k);
  }

  lemma {:induction false} FieldsDone(s: Sandbox, tables: seq<seq<Row>>, k: nat)
    requires FieldByField(s, tables) && s.currentField == |s.fields| - 1 && Now(s) == [] && k < |s.fields|
    ensures FieldsOf(s.fields, |s.tables|) && Matching(s.tables[s.fields[k]]) == []
  {
  }

  /** All matching rows have been counted once: the last field is done with. */
  lemma {:induction false} LastField(lists: seq<seq<Row>>, c: nat, processed: nat, now: seq<Row>)
    requires c < |lists| && Accounted(lists, c, processed, now) && processed >= RowTotal(lists)
    requires forall k :: 0 <= k < |lists| ==> lists[k] != [] && Drains(lists[k]) && Counted(lists[k]) == |lists[k]|
    ensures c == |lists| - 1 && now == []
  {
    ProcessedBound(lists, c, processed, now);
    if c + 1 < |lists| {
      StillCounting(lists, c + 1);
    }
    assert Counts(lists) == Sizes(lists);
    NextDrains(now);
  }

  lemma {:induction false} CompletedCounts(s: Sandbox, tables: seq<seq<Row>>)
    requires Completed(s, tables) && forall f :: 0 <= f < |tables| ==> NoBroken(tables[f])
    ensures forall k :: 0 <= k < |AllLists(tables)| ==>
              Drains(AllLists(tables)[k]) && Counted(AllLists(tables)[k]) == |AllLists(tables)[k]|
  {
    var lists := AllLists(tables);
    forall k | 0 <= k < |lists|
      ensures Drains(lists[k]) && Counted(lists[k]) <= |lists[k]|
    {
      MatchingSerialized(tables[FieldsFrom(tables, 0)[k]]);
      SerializedDrain(lists[k]);
    }
    CountsCompare(lists);
    if lists != [] {
      CompletedInRange(s, tables);
    }
  }

  /** When all rows unserialize, a finished update has left none of them, whatever the keys. */
  lemma {:induction false} NothingLeft(s: Sandbox, tables: seq<seq<Row>>)
    requires Completed(s, tables) && forall f :: 0 <= f < |tables| ==> NoBroken(tables[f])
    ensures TablesKept(tables, s.tables) && forall f :: 0 <= f < |tables| ==> Matching(s.tables[f]) == []
  {
    KeptItself(tables);
    CompletedCounts(s, tables);
    forall f: nat | f < |tables|
      ensures Matching(s.tables[f]) == []
    {
      if Matching(tables[f]) == [] {
        StaysEmpty(tables[f], s.tables[f]);
      } else {
        var k := FieldOf(tables, 0, f);
        CompletedDrained(s, tables, AllLists(tables), k);
      }
    }
  }

  /** Unless other rows overwrite them, rows that do not unserialize are all that can be left. */
  lemma {:induction false} NothingLeftIff(s: Sandbox, tables: seq<seq<Row>>)
    requires Completed(s, tables) && forall f :: 0 <= f < |tables| ==> BrokenApart(tables[f])
    ensures |s.tables| == |tables|
    ensures (forall f :: 0 <= f < |tables| ==> Matching(s.tables[f]) == [])
       <==> (forall f :: 0 <= f < |tables| ==> NoBroken(tables[f]))
  {
    KeptItself(tables);
    if forall f :: 0 <= f < |tables| ==> NoBroken(tables[f]) {
      NothingLeft(s, tables);
    } else {
      var f: nat :| f < |tables| && !NoBroken(tables[f]);
      var i: nat :| i < |tables[f]| && tables[f][i].value.Broken?;
      RowsKeptMeans(tables[f], s.tables[f], i);
      MatchingMember(s.tables[f], s.tables[f][i]);
    }
  }

  /** What a row is to become: the JSON of its own array, if it holds one. */
  function OwnJson(row: Row): Row {
    if row.value.Serialized? then Row(row.key, Json(row.value.tags)) else row
  }

  /** A row with the key of a row that unserializes is to become the same as that one. */
  ghost predicate KeysAgree(rows: seq<Row>) {
    forall i: nat, j: nat :: Writes(rows, j, i) ==> OwnJson(rows[i]) == OwnJson(rows[j])
  }

  /** Once nothing is left to convert, the winner of its key decides a row. */
  lemma {:induction false} SettledContents(before: seq<Row>, after: seq<Row>, i: nat)
    requires RowsKept(before, after) && Matching(after) == [] && i < |before|
    ensures after[i] == match Winner(Matching(before), before[i].key)
                        case None => before[i]
                        case Some(tags) => Row(before[i].key, Json(tags))
    ensures Winner(Matching(before), before[i].key).Some? <==> exists j: nat :: Writes(before, j, i)
  {
    var key := before[i].key;
    assert Kept(before, after, i);
    if Winner(Matching(before), key).Some? {
      var m := WinnerMember(Matching(before), key);
      MatchingMember(before, m);
      var j: nat :| j < |before| && before[j] == m;
      assert Writes(before, j, i);
    } else if j: nat :| Writes(before, j, i) {
      assert Kept(before, after, j);
      MatchingMember(after, after[j]);
    }
  }

  /** It is converted right in every row if and only if rows that share a key agree. */
  lemma {:induction false} SettledRightIff(before: seq<Row>, after: seq<Row>)
    requires RowsKept(before, after) && Matching(after) == []
    ensures (forall i :: 0 <= i < |before| ==> after[i] == OwnJson(before[i])) <==> KeysAgree(before)
  {
    if forall i :: 0 <= i < |before| ==> after[i] == OwnJson(before[i]) {
      forall i: nat, j: nat | Writes(before, j, i)
        ensures OwnJson(before[i]) == OwnJson(before[j])
      {
        SettledContents(before, after, i);
        SettledContents(before, after, j);
      }
    }
    if KeysAgree(before) {
      forall i: nat | i < |before|
        ensures after[i] == OwnJson(before[i])
      {
        AgreeingRow(before, after, i);
      }
    }
  }

  /** A row that agrees with those that can overwrite it is converted right. */
  lemma {:induction false} AgreeingRow(before: seq<Row>, after: seq<Row>, i: nat)
    requires RowsKept(before, after) && Matching(after) == [] && i < |before|
    requires forall j: nat :: Writes(before, j, i) ==> OwnJson(before[j]) == OwnJson(before[i])
    ensures after[i] == OwnJson(before[i])
  {
    SettledContents(before, after, i);
    RowsKeptMeans(before, after, i);
    if before[i].value.Serialized? {
      assert Writes(before, i, i);
    }
  }

  /**
   * When all rows unserialize, a finished update has made every row found its own JSON, and left all
   * others alone, if and only if in every table rows that share a key agree.
   */
  lemma {:induction false} CompletedConvertsIff(s: Sandbox, tables: seq<seq<Row>>)
    requires Completed(s, tables) && forall f :: 0 <= f < |tables| ==> NoBroken(tables[f])
    ensures TablesKept(tables, s.tables)
    ensures (forall f, i :: 0 <= f < |tables| && 0 <= i < |tables[f]| ==> s.tables[f][i] == OwnJson(tables[f][i]))
       <==> (forall f :: 0 <= f < |tables| ==> KeysAgree(tables[f]))
  {
    NothingLeft(s, tables);
    forall f | 0 <= f < |tables|
      ensures (forall i :: 0 <= i < |tables[f]| ==> s.tables[f][i] == OwnJson(tables[f][i])) <==> KeysAgree(tables[f])
    {
      SettledRightIff(tables[f], s.tables[f]);
    }
  }

  /** In any case a row that is alone with its key becomes its own JSON or stays as it was. */
  lemma {:induction false} SingleRowConverted(s: Sandbox, tables: seq<seq<Row>>, f: nat, i: nat)
    requires Completed(s, tables) && forall g :: 0 <= g < |tables| ==> NoBroken(tables[g])
    requires f < |tables| && i < |tables[f]|
    requires forall j :: 0 <= j < |tables[f]| && j != i ==> tables[f][j].key != tables[f][i].key
    ensures TablesKept(tables, s.tables) && s.tables[f][i] == OwnJson(tables[f][i])
  {
    NothingLeft(s, tables);
    AgreeingRow(tables[f], s.tables[f], i);
  }

  lemma {:induction false} TwoWrites(rows: seq<Row>, x: Row, y: Row)
    ensures WriteAll(rows, [x]) == Write(rows, x) && WriteAll(rows, [x, y]) == Write(Write(rows, x), y)
  {
    assert [x][..0] == [] && [x, y][..1] == [x];
  }

  /** A single table whose matching rows fit into one batch is converted by one invocation. */
  lemma {:induction false} SingleBatch(rows: seq<Row>)
    requires 0 < |Matching(rows)| <= MAX_PER_BATCH
    ensures var s := Invoke(Fresh([rows]));
            s.Some? && s.value.finished == 1.0 && s.value.tables == [WriteAll(rows, Matching(rows))]
  {
    var tables := [rows];
    assert FieldsFrom(tables, 1) == [] && FieldsFrom(tables, 0) == [0];
    var sizes := Sizes(Lists(tables, [0]));
    assert Sum(sizes, 0) == 0 && Sum(sizes, 1) == |Matching(rows)|;
  }

  /** Of two values of one field the first is lost, and so is any other value of the field. */
  lemma {:induction false} SharedKeyLoses(key: RowKey, a: Tags, b: Tags, text: string)
    ensures var rows := [Row(key, Serialized(a)), Row(key, Serialized(b)), Row(key, Other(text))];
            var s := Invoke(Fresh([rows]));
            && s.Some? && s.value.finished == 1.0
            && s.value.tables == [[Row(key, Json(b)), Row(key, Json(b)), Row(key, Json(b))]]
  {
    var x, y, z := Row(key, Serialized(a)), Row(key, Serialized(b)), Row(key, Other(text));
    var rows := [x, y, z];
    assert rows[1..] == [y, z] && [y, z][1..] == [z] && [z][1..] == [];
    assert Matching([z]) == [];
    assert Matching([y, z]) == [y];
    assert Matching(rows) == [x, y];
    TwoWrites(rows, x, y);
    var j := Row(key, Json(b));
    assert Write(Write(rows, x), y) == [j, j, j];
    SingleBatch(rows);
  }

  // ---- A row that does not unserialize --------------------------------------------------------------------

  /**
   * The first field that does not drain is never left: when the update is finished, the fields before it
   * are done with and the tables of those after it are as they were.
   */
  lemma {:induction false} UndrainedHoldsUp(s: Sandbox, tables: seq<seq<Row>>, lists: seq<seq<Row>>, k: nat)
    requires Completed(s, tables) && lists == AllLists(tables) && k < |lists| && !Drains(lists[k])
    requires forall j :: 0 <= j < k ==> Drains(lists[j]) && Counted(lists[j]) <= |lists[j]|
    ensures s.currentField == k && FieldByField(s, tables)
  {
    FinalAccounts(s, tables, lists);
    StopsAt(lists, s.currentField, s.recordsProcessed, Now(s), k);
  }

  lemma {:induction false} StopsAt(lists: seq<seq<Row>>, c: nat, processed: nat, now: seq<Row>, k: nat)
    requires c < |lists| && Accounted(lists, c, processed, now) && processed >= RowTotal(lists)
    requires k < |lists| && !Drains(lists[k]) && forall j :: 0 <= j < |lists| ==> lists[j] != []
    requires forall j :: 0 <= j < k ==> Drains(lists[j]) && Counted(lists[j]) <= |lists[j]|
    ensures c == k
  {
    if c < k {
      ProcessedBound(lists, c, processed, now);
      StillCounting(lists, c + 1);
    } else if k < c {
      LeftDrains(lists, c, processed, now, k);
    }
  }

  lemma {:induction false} ProcessedBound(lists: seq<seq<Row>>, c: nat, processed: nat, now: seq<Row>)
    requires c < |lists| && Accounted(lists, c, processed, now) && Drains(lists[c])
    ensures processed <= Sum(Counts(lists), c + 1)
  {
  }

  lemma {:induction false} LeftDrains(lists: seq<seq<Row>>, c: nat, processed: nat, now: seq<Row>, k: nat)
    requires k < c <= |lists| && Accounted(lists, c, processed, now)
    ensures Drains(lists[k])
  {
  }

  /** The counts of the first fields stay below the total. */
  lemma {:induction false} StillCounting(lists: seq<seq<Row>>, n: nat)
    requires n < |lists| && forall j :: 0 <= j < |lists| ==> lists[j] != []
    requires forall j :: 0 <= j < n ==> Counted(lists[j]) <= |lists[j]|
    ensures Sum(Counts(lists), n) < RowTotal(lists)
  {
    SumsCompare(Counts(lists), Sizes(lists), n);
    SumGrows(Sizes(lists), n, |lists|);
  }

  /** The first field with a row that can never be converted holds up the update for good. */
  lemma {:induction false} BrokenRowBlocks(s: Sandbox, tables: seq<seq<Row>>, k: nat)
    requires Completed(s, tables) && k < |s.fields| && HasStuckRow(tables[s.fields[k]])
    requires forall j :: 0 <= j < k ==> NoBroken(tables[s.fields[j]])
    ensures s.currentField == k && |s.tables| == |tables|
    ensures forall j :: 0 <= j < k ==> Matching(s.tables[s.fields[j]]) == []
    ensures forall j :: k < j < |s.fields| ==> s.tables[s.fields[j]] == tables[s.fields[j]]
  {
    var fields, lists := FieldsFrom(tables, 0), AllLists(tables);
    StuckStays(tables[fields[k]]);
    forall j | 0 <= j < k
      ensures Drains(lists[j]) && Counted(lists[j]) <= |lists[j]|
    {
      MatchingSerialized(tables[fields[j]]);
      SerializedDrain(lists[j]);
    }
    UndrainedHoldsUp(s, tables, lists, k);
  }

  lemma {:induction false} AloneStays(x: Row)
    requires x.value.Broken?
    ensures Matching([x]) == [x] && WriteAll([x], [x]) == [x]
  {
    assert [x][1..] == [];
    TwoWrites([x], x, x);
  }

  lemma {:induction false} TwoFields(x: Row, y: Row)
    requires Matches(x) && Matches(y)
    ensures FieldsFrom([[x], [y]], 0) == [0, 1] && RowTotal(Lists([[x], [y]], [0, 1])) == 2
  {
    var tables := [[x], [y]];
    assert [x][1..] == [] == [y][1..];
    assert Matching([x]) == [x] && Matching([y]) == [y];
    assert FieldsFrom(tables, 2) == [] && FieldsFrom(tables, 1) == [1];
    var sizes := Sizes(Lists(tables, [0, 1]));
    assert Sum(sizes, 0) == 0 && Sum(sizes, 1) == 1;
  }

  /** Two tables with a row each: the first cannot be converted, so the second is not. */
  lemma {:induction false} BrokenRowExample(a: RowKey, b: RowKey, tags: Tags)
    ensures var tables := [[Row(a, Broken("a:x"))], [Row(b, Serialized(tags))]];
            var s := Invoke(Fresh(tables));
            && s.Some? && s.value.finished < 1.0
            && var t := Invoke(s.value);
               t.Some? && t.value.finished == 1.0 && t.value.tables == tables
  {
    var x, y := Row(a, Broken("a:x")), Row(b, Serialized(tags));
    var tables := [[x], [y]];
    AloneStays(x);
    TwoFields(x, y);
    assert tables[0 := [x]] == tables;
    assert Invoke(Fresh(tables)) == Some(Sandbox(true, [0, 1], 2, 1, 0, Ratio(1, 2), tables));
  }
}

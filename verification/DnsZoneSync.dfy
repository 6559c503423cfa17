/** Syncing all records of a zone (internal/service/dns.go, SyncZone) and what the
    listing underneath it leaves out (internal/storage/dns_sqlite.go, pagination.go). */
module DnsZoneSync {
  import opened Text
  import opened Dns
  import opened Paging

  /** One set of faults for each row, by position. */
  type Faults = nat -> SyncFaults

  // ----- the listing -----

  /** The ids of a zone's rows, each once, in the order of the query. */
  ghost predicate Enumerates(records: Records, zone: string, order: seq<string>) {
    && (forall i, j :: 0 <= i < j < |order| ==> order[i] != order[j])
    && (forall id :: id in order <==> id in records && records[id].zone == zone)
  }

  // ----- the loop -----

  function SyncRow(cfg: Config, db: Db, id: string, f: SyncFaults): Db {
    if id in db.records then SyncRecord(cfg, db, id, db.records[id], f) else db
  }

  function SyncRows(cfg: Config, db: Db, rows: seq<string>, f: Faults): Db {
    if rows == [] then db
    else SyncRow(cfg, SyncRows(cfg, db, rows[..|rows| - 1], f), rows[|rows| - 1], f(|rows| - 1))
  }

  lemma {:induction false} SyncRowsKeeps(cfg: Config, db: Db, rows: seq<string>, f: Faults, strict: bool)
    requires Unique(db.records)
    ensures Unique(SyncRows(cfg, db, rows, f).records)
    ensures Agrees(db, strict) ==> Agrees(SyncRows(cfg, db, rows, f), strict)
  {
    hide Agrees, Unique, SyncRecord;
    if rows != [] {
      var before, last := SyncRows(cfg, db, rows[..|rows| - 1], f), rows[|rows| - 1];
      SyncRowsKeeps(cfg, db, rows[..|rows| - 1], f, strict);
      if last in before.records {
        SyncKeeps(cfg, before, last, f(|rows| - 1), strict);
      }
    }
  }

  ghost predicate Distinct(records: Records, rows: seq<string>) {
    && (forall i, j :: 0 <= i < j < |rows| ==> rows[i] != rows[j])
    && (forall i :: 0 <= i < |rows| ==> rows[i] in records)
  }

  predicate RowPushed(cfg: Config, db: Db, id: string, f: SyncFaults)
    requires id in db.records
  {
    Pushed(cfg, db, db.records[id], f)
  }

  predicate RowReached(cfg: Config, db: Db, id: string, f: SyncFaults)
    requires id in db.records
  {
    Reached(cfg, db, db.records[id], f)
  }

  /** The row syncs when it is tried on its own from `db`. */
  predicate RowOk(cfg: Config, db: Db, id: string, f: SyncFaults)
    requires id in db.records
  {
    RowPushed(cfg, db, id, f) && f.storeOk
  }

  /** The rows after the loop: each as if it had been synced alone from the start. */
  ghost predicate RowsDone(cfg: Config, db: Db, rows: seq<string>, f: Faults, db': Db)
    requires Distinct(db.records, rows)
  {
    && db'.records.Keys == db.records.Keys
    && (forall i :: 0 <= i < |rows| ==>
         db'.records[rows[i]] ==
         if RowOk(cfg, db, rows[i], f(i)) then db.records[rows[i]].(status := Synced) else db.records[rows[i]])
    && (forall id :: id in db.records && id !in rows ==> db'.records[id] == db.records[id])
  }

  ghost predicate SameAt(db: Db, db': Db, k: Key) {
    (k in db'.remote <==> k in db.remote) && (k in db.remote ==> db'.remote[k] == db.remote[k])
  }

  /** The provider after the loop: it serves the value of every row that reached it, and
      every other key is as it was. */
  ghost predicate RemoteDone(cfg: Config, db: Db, rows: seq<string>, f: Faults, db': Db)
    requires Distinct(db.records, rows)
  {
    && (forall i :: 0 <= i < |rows| && RowReached(cfg, db, rows[i], f(i)) ==>
         var rec := db.records[rows[i]]; rec.At() in db'.remote && db'.remote[rec.At()].value == rec.value)
    && (forall k :: Untouched(cfg, db, rows, f, k) ==> SameAt(db, db', k))
  }

  ghost predicate Untouched(cfg: Config, db: Db, rows: seq<string>, f: Faults, k: Key)
    requires Distinct(db.records, rows)
  {
    forall i :: 0 <= i < |rows| && RowReached(cfg, db, rows[i], f(i)) ==> db.records[rows[i]].At() != k
  }

  /** Earlier rows do not influence a later one. */
  lemma LaterRowUnaffected(cfg: Config, db: Db, rows: seq<string>, f: Faults, before: Db)
    requires Unique(db.records) && Distinct(db.records, rows) && rows != []
    requires Distinct(db.records, rows[..|rows| - 1])
    requires RowsDone(cfg, db, rows[..|rows| - 1], f, before) && RemoteDone(cfg, db, rows[..|rows| - 1], f, before)
    ensures var id := rows[|rows| - 1];
      && id in before.records && before.records[id] == db.records[id]
      && (RowPushed(cfg, before, id, f(|rows| - 1)) <==> RowPushed(cfg, db, id, f(|rows| - 1)))
      && (RowReached(cfg, before, id, f(|rows| - 1)) <==> RowReached(cfg, db, id, f(|rows| - 1)))
      && SameAt(db, before, db.records[id].At())
  {
    var n := |rows| - 1;
    var id := rows[n];
    assert id !in rows[..n];
    assert before.records[id] == db.records[id];
    assert Untouched(cfg, db, rows[..n], f, db.records[id].At()) by {
      forall i | 0 <= i < n ensures db.records[rows[..n][i]].At() != db.records[id].At() {
        assert rows[i] != id;
      }
    }
  }

  lemma {:induction false} SyncRowsEffect(cfg: Config, db: Db, rows: seq<string>, f: Faults)
    requires Unique(db.records) && Distinct(db.records, rows)
    ensures RowsDone(cfg, db, rows, f, SyncRows(cfg, db, rows, f))
    ensures RemoteDone(cfg, db, rows, f, SyncRows(cfg, db, rows, f))
  {
    if rows != [] {
      var n := |rows| - 1;
      var init, id := rows[..n], rows[n];
      var before := SyncRows(cfg, db, init, f);
      SyncRowsEffect(cfg, db, init, f);
      SyncRowsKeeps(cfg, db, init, f, false);
      LaterRowUnaffected(cfg, db, rows, f, before);
      RowsStep(cfg, db, rows, f, before);
      RemoteStep(cfg, db, rows, f, before);
    }
  }

  lemma KeysDiffer(db: Db, rows: seq<string>)
    requires Unique(db.records) && Distinct(db.records, rows)
    ensures forall i, j :: 0 <= i < j < |rows| ==> db.records[rows[i]].At() != db.records[rows[j]].At()
  {
  }

  lemma RowsStep(cfg: Config, db: Db, rows: seq<string>, f: Faults, before: Db)
    requires Unique(db.records) && Distinct(db.records, rows) && rows != [] && Unique(before.records)
    requires RowsDone(cfg, db, rows[..|rows| - 1], f, before)
    requires before.records[rows[|rows| - 1]] == db.records[rows[|rows| - 1]]
    requires var id, g := rows[|rows| - 1], f(|rows| - 1);
      RowPushed(cfg, before, id, g) <==> RowPushed(cfg, db, id, g)
    ensures RowsDone(cfg, db, rows, f, SyncRow(cfg, before, rows[|rows| - 1], f(|rows| - 1)))
  {
    hide SyncRecord, Pushed, Reached, SyncOk, Agrees, Unique;
    var n := |rows| - 1;
    var id := rows[n];
    SyncKeeps(cfg, before, id, f(n), false);
    SyncEstablishes(cfg, before, id, f(n));
    hide SyncRow;
    var db' := SyncRow(cfg, before, id, f(n));
    forall i | 0 <= i < |rows|
      ensures db'.records[rows[i]] ==
        if RowOk(cfg, db, rows[i], f(i)) then db.records[rows[i]].(status := Synced) else db.records[rows[i]]
    {
      if i < n {
        assert rows[..n][i] == rows[i] && rows[i] != id;
      }
    }
    assert forall other :: other in rows[..n] ==> other in rows;
  }

  lemma RemoteStep(cfg: Config, db: Db, rows: seq<string>, f: Faults, before: Db)
    requires Unique(db.records) && Distinct(db.records, rows) && rows != [] && Unique(before.records)
    requires RemoteDone(cfg, db, rows[..|rows| - 1], f, before)
    requires rows[|rows| - 1] in before.records && before.records[rows[|rows| - 1]] == db.records[rows[|rows| - 1]]
    requires var id, g := rows[|rows| - 1], f(|rows| - 1);
      RowReached(cfg, before, id, g) <==> RowReached(cfg, db, id, g)
    ensures RemoteDone(cfg, db, rows, f, SyncRow(cfg, before, rows[|rows| - 1], f(|rows| - 1)))
  {
    hide SyncRecord, Pushed, Reached, SyncOk, Agrees, Unique;
    var n := |rows| - 1;
    var init, id := rows[..n], rows[n];
    SyncKeeps(cfg, before, id, f(n), false);
    SyncEstablishes(cfg, before, id, f(n));
    KeysDiffer(db, rows);
    var db' := SyncRow(cfg, before, id, f(n));
    hide SyncRow;
    assert forall i :: 0 <= i < n ==> init[i] == rows[i];
    forall i | 0 <= i < |rows| && RowReached(cfg, db, rows[i], f(i))
      ensures var rec := db.records[rows[i]]; rec.At() in db'.remote && db'.remote[rec.At()].value == rec.value
    {
      if i < n {
        assert RowReached(cfg, db, init[i], f(i));
        assert db.records[rows[i]].At() != db.records[id].At();
      }
    }
    forall k | Untouched(cfg, db, rows, f, k) ensures SameAt(db, db', k) {
      assert Untouched(cfg, db, init, f, k);
      assert RowReached(cfg, db, id, f(n)) ==> db.records[id].At() != k;
    }
  }

  // ----- the result -----

  datatype ZoneStatus = Success | AllFailed | Partial

  datatype SyncResult = SyncResult(
    success: bool, total: nat, synced: nat, failed: nat, failedIds: seq<string>, status: ZoneStatus)

  /** The rows that fail when tried on their own, in order. */
  function FailedRows(cfg: Config, db: Db, rows: seq<string>, f: Faults): (failed: seq<string>)
    requires forall i :: 0 <= i < |rows| ==> rows[i] in db.records
    ensures |failed| <= |rows|
    ensures forall i :: 0 <= i < |rows| && !RowOk(cfg, db, rows[i], f(i)) ==> rows[i] in failed
    ensures forall id :: id in failed ==> exists i :: 0 <= i < |rows| && rows[i] == id && !RowOk(cfg, db, rows[i], f(i))
  {
    if rows == [] then []
    else
      var n := |rows| - 1;
      var init := FailedRows(cfg, db, rows[..n], f);
      assert forall i :: 0 <= i < n ==> rows[..n][i] == rows[i];
      init + if RowOk(cfg, db, rows[n], f(n)) then [] else [rows[n]]
  }

  lemma FailedStep(cfg: Config, db: Db, rows: seq<string>, f: Faults)
    requires rows != [] && forall i :: 0 <= i < |rows| ==> rows[i] in db.records
    ensures var n := |rows| - 1;
      FailedRows(cfg, db, rows, f) ==
      FailedRows(cfg, db, rows[..n], f) + if RowOk(cfg, db, rows[n], f(n)) then [] else [rows[n]]
  {
    hide RowOk;
  }

  /** They are listed in the order of the rows. */
  lemma {:induction false} FailedInOrder(cfg: Config, db: Db, rows: seq<string>, f: Faults) returns (at: seq<nat>)
    requires forall i :: 0 <= i < |rows| ==> rows[i] in db.records
    ensures |at| == |FailedRows(cfg, db, rows, f)|
    ensures forall i, j :: 0 <= i < j < |at| ==> at[i] < at[j]
    ensures forall i :: 0 <= i < |at| ==>
      at[i] < |rows| && FailedRows(cfg, db, rows, f)[i] == rows[at[i]] && !RowOk(cfg, db, rows[at[i]], f(at[i]))
  {
    hide RowOk, FailedRows;
    if rows == [] {
      at := [];
    } else {
      var n := |rows| - 1;
      var init := rows[..n];
      at := FailedInOrder(cfg, db, init, f);
      FailedStep(cfg, db, rows, f);
      assert forall i :: 0 <= i < |at| ==> init[at[i]] == rows[at[i]];
      if !RowOk(cfg, db, rows[n], f(n)) {
        at := at + [n];
      }
    }
  }

  ghost predicate ResultMatches(r: SyncResult, rows: seq<string>, failedIds: seq<string>) {
    && r.total == |rows| && r.failedIds == failedIds
    && r.failed == |failedIds| && r.synced + r.failed == r.total
    && r.success == (r.failed == 0)
    && r.status == (if r.failed == 0 then Success else if r.synced == 0 then AllFailed else Partial)
  }

  /** Every listed record that is not in FailedIDs is marked synced and served by the provider. */
  lemma SyncedRowsAgree(cfg: Config, db: Db, rows: seq<string>, f: Faults, id: string)
    requires Unique(db.records) && Distinct(db.records, rows)
    requires id in rows && id !in FailedRows(cfg, db, rows, f)
    ensures var db' := SyncRows(cfg, db, rows, f);
      && id in db'.records && db'.records[id] == db.records[id].(status := Synced)
      && RowAgrees(db', id, true)
  {
    SyncRowsEffect(cfg, db, rows, f);
    var i :| 0 <= i < |rows| && rows[i] == id;
  }

  /** After a full success, the repeat writes a row at the provider exactly when it cannot read it there. */
  lemma RepeatWritesExactly(cfg: Config, db: Db, rows: seq<string>, f: Faults, again: Faults, i: nat)
    requires Unique(db.records) && Distinct(db.records, rows) && FailedRows(cfg, db, rows, f) == [] && i < |rows|
    ensures var db' := SyncRows(cfg, db, rows, f);
      var before := SyncRows(cfg, db', rows[..i], again);
      && rows[i] in before.records
      && (NeedsWrite(before, before.records[rows[i]], again(i)) <==> !again(i).getOk)
  {
    hide SyncRows, FailedRows, Unique, RowsDone, RemoteDone, RowPushed, RowReached;
    var db' := SyncRows(cfg, db, rows, f);
    SyncedRowsAgree(cfg, db, rows, f, rows[i]);
    SyncRowsKeeps(cfg, db, rows, f, false);
    RowsStay(cfg, db, rows, f);
    assert Distinct(db'.records, rows[..i + 1]);
    SyncRowsEffect(cfg, db', rows[..i], again);
    assert rows[..i + 1][..i] == rows[..i];
    LaterRowUnaffected(cfg, db', rows[..i + 1], again, SyncRows(cfg, db', rows[..i], again));
  }

  lemma RowsStay(cfg: Config, db: Db, rows: seq<string>, f: Faults)
    requires Unique(db.records) && Distinct(db.records, rows)
    ensures Distinct(SyncRows(cfg, db, rows, f).records, rows)
  {
    hide SyncRows, Unique, RemoteDone;
    SyncRowsEffect(cfg, db, rows, f);
  }

  /** So a repeat that can read every row at the provider changes nothing, whatever else fails. */
  lemma RepeatIsQuiet(cfg: Config, db: Db, rows: seq<string>, f: Faults, again: Faults)
    requires Unique(db.records) && Distinct(db.records, rows) && FailedRows(cfg, db, rows, f) == []
    requires forall i :: 0 <= i < |rows| ==> again(i).getOk
    ensures SyncRows(cfg, SyncRows(cfg, db, rows, f), rows, again) == SyncRows(cfg, db, rows, f)
  {
    hide SyncRows, FailedRows, Unique;
    var db' := SyncRows(cfg, db, rows, f);
    forall i | 0 <= i < |rows|
      ensures rows[i] in db'.records && db'.records[rows[i]].status == Synced && RowAgrees(db', rows[i], true)
    {
      SyncedRowsAgree(cfg, db, rows, f, rows[i]);
    }
    QuietRows(cfg, db', rows, again);
  }

  lemma {:induction false} QuietRows(cfg: Config, db: Db, rows: seq<string>, f: Faults)
    requires forall i :: 0 <= i < |rows| ==>
      rows[i] in db.records && db.records[rows[i]].status == Synced && RowAgrees(db, rows[i], true) && f(i).getOk
    ensures SyncRows(cfg, db, rows, f) == db
  {
    if rows != [] {
      var n := |rows| - 1;
      assert forall i :: 0 <= i < n ==> rows[..n][i] == rows[i];
      QuietRows(cfg, db, rows[..n], f);
      assert RowAgrees(db, rows[n], true);
    }
  }

  /** One pass covers the zone exactly when the zone fits on one default page; a row beyond
      it keeps its state. */
  lemma PassCoversZone(cfg: Config, db: Db, zone: string, order: seq<string>, f: Faults)
    requires Unique(db.records) && Enumerates(db.records, zone, order)
    ensures Distinct(db.records, FirstPage(order))
    ensures |FirstPage(order)| == |order| <==> |order| <= DEFAULT_PAGE_SIZE
    ensures var db' := SyncRows(cfg, db, FirstPage(order), f);
      forall i :: DEFAULT_PAGE_SIZE <= i < |order| ==>
        order[i] in db.records && order[i] in db'.records && db'.records[order[i]] == db.records[order[i]]
  {
    hide RemoteDone, SyncRows, Unique;
    var rows := FirstPage(order);
    assert forall i :: 0 <= i < |rows| ==> rows[i] == order[i];
    SyncRowsEffect(cfg, db, rows, f);
    forall i | DEFAULT_PAGE_SIZE <= i < |order| ensures order[i] in db.records && order[i] !in rows {
      assert order[i] in order;
    }
  }

  /** Without any fault a pass reports success. */
  lemma FaultFreePassSucceeds(cfg: Config, db: Db, zone: string, order: seq<string>, f: Faults)
    requires Enumerates(db.records, zone, order) && Distinct(db.records, FirstPage(order)) && zone in cfg.zones
    requires forall i: nat :: f(i) == SyncFaults(true, true, true, Confirmed, true)
    ensures forall i :: 0 <= i < |FirstPage(order)| ==> RowOk(cfg, db, FirstPage(order)[i], f(i))
    ensures FailedRows(cfg, db, FirstPage(order), f) == []
  {
    var rows := FirstPage(order);
    var failed := FailedRows(cfg, db, rows, f);
    assert |failed| > 0 ==> failed[0] in failed;
    forall i | 0 <= i < |rows| ensures RowOk(cfg, db, rows[i], f(i)) {
      assert order[i] in order;
    }
  }

  ghost predicate AllSynced(records: Records, rows: seq<string>) {
    forall i :: 0 <= i < |rows| ==> rows[i] in records && records[rows[i]].status == Synced
  }

  /** Yet it leaves the whole zone synced exactly when the rows beyond the first page were synced before. */
  lemma FaultFreePassSyncsZone(cfg: Config, db: Db, zone: string, order: seq<string>, f: Faults)
    requires Unique(db.records) && Enumerates(db.records, zone, order) && zone in cfg.zones
    requires forall i: nat :: f(i) == SyncFaults(true, true, true, Confirmed, true)
    ensures AllSynced(SyncRows(cfg, db, FirstPage(order), f).records, order) <==>
            AllSynced(db.records, order[|FirstPage(order)|..])
  {
    hide SyncRows, RowOk, RowsDone, RemoteDone, Unique, Enumerates, FailedRows;
    var rows := FirstPage(order);
    PassCoversZone(cfg, db, zone, order, f);
    FaultFreePassSucceeds(cfg, db, zone, order, f);
    FirstPageSynced(cfg, db, rows, f);
    SyncedInTwoParts(db.records, SyncRows(cfg, db, rows, f).records, order, |rows|);
  }

  lemma FirstPageSynced(cfg: Config, db: Db, rows: seq<string>, f: Faults)
    requires Unique(db.records) && Distinct(db.records, rows)
    requires forall i :: 0 <= i < |rows| ==> RowOk(cfg, db, rows[i], f(i))
    ensures AllSynced(SyncRows(cfg, db, rows, f).records, rows)
  {
    hide SyncRows, RowOk, RemoteDone, Unique;
    SyncRowsEffect(cfg, db, rows, f);
  }

  lemma SyncedInTwoParts(before: Records, after: Records, order: seq<string>, n: nat)
    requires n <= |order| && AllSynced(after, order[..n])
    requires forall i :: n <= i < |order| ==>
      order[i] in before && order[i] in after && after[order[i]] == before[order[i]]
    ensures AllSynced(after, order) <==> AllSynced(before, order[n..])
  {
    assert forall i :: 0 <= i < n ==> order[..n][i] == order[i];
    assert forall i :: n <= i < |order| ==> order[n..][i - n] == order[i];
  }

  /** Recovery: from any state with unique keys, orphaned rows included, a fault-free pass over a zone that fits on
      a page leaves every row of the zone synced and in full agreement. */
  lemma FaultFreePassRecovers(cfg: Config, db: Db, zone: string, order: seq<string>, f: Faults, id: string)
    requires Unique(db.records) && Enumerates(db.records, zone, order) && zone in cfg.zones
    requires |order| <= DEFAULT_PAGE_SIZE && id in db.records && db.records[id].zone == zone
    requires forall i: nat :: f(i) == SyncFaults(true, true, true, Confirmed, true)
    ensures var db' := SyncRows(cfg, db, FirstPage(order), f);
      && id in db'.records && db'.records[id] == db.records[id].(status := Synced)
      && RowAgrees(db', id, true)
  {
    hide SyncRows, FailedRows, RowOk, Unique;
    PassCoversZone(cfg, db, zone, order, f);
    FaultFreePassSucceeds(cfg, db, zone, order, f);
    SyncedRowsAgree(cfg, db, FirstPage(order), f, id);
  }

  function LongName(n: nat): (s: string)
    ensures |s| == n
  {
    seq(n, _ => 'x')
  }

  function PendingRow(name: string): Record {
    Record("z", name, "A", "10.0.0.1", 60, None, None, Pending)
  }

  /** A zone of 101 pending records: the last one is still pending after a pass that reports success. */
  lemma LongZoneStaysPending() returns (cfg: Config, db: Db, order: seq<string>, f: Faults)
    ensures Unique(db.records) && Enumerates(db.records, "z", order) && "z" in cfg.zones
    ensures forall i: nat :: f(i) == SyncFaults(true, true, true, Confirmed, true)
    ensures !AllSynced(SyncRows(cfg, db, FirstPage(order), f).records, order)
  {
    hide SyncRows;
    order := seq(101, i requires 0 <= i < 101 => LongName(i));
    db := Db(map id | id in order :: PendingRow(id), map[]);
    cfg := Config(map["z" := Zone("example.org", true, 60)], {});
    f := i => SyncFaults(true, true, true, Confirmed, true);
    assert forall i, j :: 0 <= i < j < 101 ==> |order[i]| != |order[j]|;
    assert order[100] in order;
    FaultFreePassSyncsZone(cfg, db, "z", order, f);
    assert order[|FirstPage(order)|..][0] == order[100];
  }
}

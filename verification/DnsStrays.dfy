/** Provider entries that no stored row stands for (internal/service/dns.go). */
module DnsStrays {
  import opened Text
  import opened Dns
  import opened DnsZoneSync
  import opened DnsRuns
  import DnsImport

  ghost predicate HasRow(records: Records, k: Key) {
    exists id :: id in records && records[id].At() == k
  }

  /** Everything the provider serves belongs to a row. */
  ghost predicate Owned(db: Db) {
    forall k :: k in db.remote ==> HasRow(db.records, k)
  }

  /** A rename that is carried out: the row moves to another key, the provider keeps the old one. */
  predicate LeavesOldName(cfg: Config, db: Db, id: string, req: UpdateRequest, f: UpdateFaults) {
    && id in db.records && RefusedField(cfg, req).None?
    && UpdateAccepted(db.records, id, Applied(db.records[id], req), f.storeOk)
    && Applied(db.records[id], req).At() != db.records[id].At() && db.records[id].At() in db.remote
  }

  /** A delete that is carried out without removing what the provider has. */
  predicate LeavesEntry(cfg: Config, db: Db, id: string, f: DeleteFaults) {
    && id in db.records && f.zoneOk && db.records[id].zone in cfg.zones && f.storeOk
    && db.records[id].At() in db.remote
    && (db.records[id].status != Synced || !f.providerOk || f.remove == Refused)
  }

  predicate LeavesStray(cfg: Config, db: Db, op: Op) {
    || (op.UpdateOp? && LeavesOldName(cfg, db, op.id, op.update, op.updateFaults))
    || (op.DeleteOp? && LeavesEntry(cfg, db, op.id, op.deleteFaults))
  }

  // ----- one operation -----

  /** When only row `id` and its key changed, everything stays owned exactly when the row did not move away from
      a key the provider has. */
  lemma OwnedAfterOnlyRow(db: Db, db': Db, id: string)
    requires Unique(db.records) && Owned(db) && OnlyRow(db, db', id) && id in db'.records
    ensures Owned(db') <==>
      !(id in db.records && db'.records[id].At() != db.records[id].At() && db.records[id].At() in db.remote)
  {
    if id in db.records && db'.records[id].At() != db.records[id].At() && db.records[id].At() in db.remote {
      var k := db.records[id].At();
      assert k in db'.remote && !HasRow(db'.records, k);
    } else {
      forall k | k in db'.remote ensures HasRow(db'.records, k) {
        if k == db'.records[id].At() {
          assert HasRow(db'.records, k);
        } else {
          assert HasRow(db.records, k);
          var i :| i in db.records && db.records[i].At() == k;
          assert i in db'.records && db'.records[i].At() == k;
        }
      }
    }
  }

  lemma UpdateOwned(cfg: Config, db: Db, id: string, req: UpdateRequest, f: UpdateFaults)
    requires Unique(db.records) && Owned(db)
    ensures Owned(Update(cfg, db, id, req, f).0) <==> !LeavesOldName(cfg, db, id, req, f)
  {
    hide Unique, Owned, OnlyRow, AutoSync, RefusedField, UpdateAccepted;
    UpdateEffect(cfg, db, id, req, f);
    var (db', r) := Update(cfg, db, id, req, f);
    if r.Done? {
      OwnedAfterOnlyRow(db, db', id);
    }
  }

  lemma CreateOwned(cfg: Config, db: Db, req: CreateRequest, newId: string, f: CreateFaults)
    requires Unique(db.records) && Owned(db)
    ensures Owned(Create(cfg, db, req, newId, f).0)
  {
    hide Unique, Owned, OnlyRow, AutoSync, Update, Missing, Taken;
    CreateEffect(cfg, db, req, newId, f);
    var (db', r) := Create(cfg, db, req, newId, f);
    if r.Done? {
      OwnedAfterOnlyRow(db, db', r.id);
    }
  }

  lemma DeleteOwned(cfg: Config, db: Db, id: string, f: DeleteFaults)
    requires Unique(db.records) && Owned(db)
    ensures Owned(Delete(cfg, db, id, f).0) <==> !LeavesEntry(cfg, db, id, f)
  {
    var db' := Delete(cfg, db, id, f).0;
    if LeavesEntry(cfg, db, id, f) {
      var k := db.records[id].At();
      assert k in db'.remote && !HasRow(db'.records, k);
    } else {
      forall k | k in db'.remote ensures HasRow(db'.records, k) {
        assert HasRow(db.records, k);
        var i :| i in db.records && db.records[i].At() == k;
        assert i in db'.records && db'.records[i].At() == k;
      }
    }
  }

  lemma SyncOwned(cfg: Config, db: Db, id: string, f: SyncFaults)
    requires Unique(db.records) && Owned(db)
    ensures Owned(SyncRow(cfg, db, id, f))
  {
    if id in db.records {
      SyncKeeps(cfg, db, id, f, false);
      hide SyncRecord, SyncOk, Owned, Agrees, Unique;
      assert OnlyRow(db, SyncRow(cfg, db, id, f), id);
      OwnedAfterOnlyRow(db, SyncRow(cfg, db, id, f), id);
    }
  }

  lemma {:induction false} SyncRowsOwned(cfg: Config, db: Db, rows: seq<string>, f: Faults)
    requires Unique(db.records) && Owned(db)
    ensures Owned(SyncRows(cfg, db, rows, f))
  {
    hide Unique, Owned, SyncRow;
    if rows != [] {
      SyncRowsOwned(cfg, db, rows[..|rows| - 1], f);
      SyncRowsKeeps(cfg, db, rows[..|rows| - 1], f, false);
      SyncOwned(cfg, SyncRows(cfg, db, rows[..|rows| - 1], f), rows[|rows| - 1], f(|rows| - 1));
    }
  }

  lemma MoreRowsOwned(db: Db, records: Records, touched: set<Key>)
    requires Owned(db) && DnsImport.Preserves(db.records, records, touched)
    ensures Owned(db.(records := records))
  {
    forall k | k in db.remote ensures HasRow(records, k) {
      assert HasRow(db.records, k);
      var i :| i in db.records && db.records[i].At() == k;
      assert i in records && records[i].At() == k;
    }
  }

  /** From a state in which the provider serves only what rows stand for, an operation keeps that exactly when it
      is neither a rename away from a served name nor a delete that leaves the provider's entry. */
  lemma StepOwned(cfg: Config, db: Db, op: Op)
    requires Unique(db.records) && Owned(db)
    ensures Owned(Step(cfg, db, op)) <==> !LeavesStray(cfg, db, op)
  {
    hide Unique, Owned, Create, Update, Delete, SyncRow, SyncRows, LeavesOldName, LeavesEntry, DnsImport.ImportRows;
    match op
    case CreateOp(req, newId, f) => CreateOwned(cfg, db, req, newId, f);
    case UpdateOp(id, req, f) => UpdateOwned(cfg, db, id, req, f);
    case DeleteOp(id, f) => DeleteOwned(cfg, db, id, f);
    case SyncOp(id, f) => SyncOwned(cfg, db, id, f);
    case SyncZoneOp(rows, f) => SyncRowsOwned(cfg, db, rows, f);
    case ImportOp(env, order, s) =>
      var listing := ListRemote(db.remote, env.zoneId, order);
      DnsImport.ImportPreserves(env, db.records, listing, s);
      MoreRowsOwned(db, DnsImport.ImportRows(env, db.records, listing, s).0, DnsImport.Keys(env, listing));
  }

  // ----- runs -----

  ghost predicate OwnedThroughout(cfg: Config, db: Db, ops: seq<Op>) {
    if ops == [] then Owned(db)
    else OwnedThroughout(cfg, db, ops[..|ops| - 1]) && Owned(After(cfg, db, ops))
  }

  ghost predicate NoStrays(cfg: Config, db: Db, ops: seq<Op>) {
    forall k :: 0 <= k < |ops| ==> !LeavesStray(cfg, After(cfg, db, ops[..k]), ops[k])
  }

  lemma NoStraysStep(cfg: Config, db: Db, ops: seq<Op>)
    requires ops != []
    ensures var n := |ops| - 1;
      NoStrays(cfg, db, ops) <==> NoStrays(cfg, db, ops[..n]) && !LeavesStray(cfg, After(cfg, db, ops[..n]), ops[n])
  {
    hide After, LeavesStray;
    var n := |ops| - 1;
    var init := ops[..n];
    forall k | 0 <= k < n ensures init[..k] == ops[..k] && init[k] == ops[k] {
    }
  }

  /** Along a run the provider serves only what rows stand for in every state, exactly when no operation of the
      run leaves a stray entry. */
  lemma {:induction false} OwnedOverRuns(cfg: Config, db: Db, ops: seq<Op>)
    requires Unique(db.records) && Owned(db)
    ensures OwnedThroughout(cfg, db, ops) <==> NoStrays(cfg, db, ops)
    ensures OwnedThroughout(cfg, db, ops) ==> Owned(After(cfg, db, ops))
  {
    hide Step, Unique, Owned, LeavesStray;
    if ops != [] {
      hide NoStrays;
      var n := |ops| - 1;
      OwnedOverRuns(cfg, db, ops[..n]);
      NoStraysStep(cfg, db, ops);
      AlwaysUnique(cfg, db, ops[..n]);
      if Owned(After(cfg, db, ops[..n])) {
        StepOwned(cfg, After(cfg, db, ops[..n]), ops[n]);
      }
    }
  }

  /** The family is not empty: renaming a synced record leaves its old name at the provider. */
  lemma RenameLeavesOldName()
    ensures var rec := Record("z", "www", "A", "10.0.0.1", 60, None, None, Synced);
      var db := Db(map["r" := rec], map[rec.At() := Remote("10.0.0.1", 60)]);
      var cfg := Config(map["z" := Zone("example.org", true, 60)], {});
      var ok := SyncFaults(true, true, true, Confirmed, true);
      var req := UpdateRequest(None, Some("web"), None, None, None);
      var op := UpdateOp("r", req, UpdateFaults(true, true, AutoFaults(ok, true)));
      Unique(db.records) && Owned(db) && !Owned(Step(cfg, db, op))
  {
    var rec := Record("z", "www", "A", "10.0.0.1", 60, None, None, Synced);
    var db := Db(map["r" := rec], map[rec.At() := Remote("10.0.0.1", 60)]);
    var cfg := Config(map["z" := Zone("example.org", true, 60)], {});
    var ok := SyncFaults(true, true, true, Confirmed, true);
    var req := UpdateRequest(None, Some("web"), None, None, None);
    var op := UpdateOp("r", req, UpdateFaults(true, true, AutoFaults(ok, true)));
    assert db.records["r"].At() == rec.At();
    assert HasRow(db.records, rec.At());
    assert Unique(db.records) && Owned(db);
    hide Owned, Update, Unique;
    assert LeavesStray(cfg, db, op);
    StepOwned(cfg, db, op);
  }
}

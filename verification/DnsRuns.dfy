/** All runs of the DNS operations on fixed zones, with any call allowed to fail and no other
    writer at the provider. */
module DnsRuns {
  import opened Text
  import opened Dns
  import opened DnsZoneSync
  import DnsImport

  datatype Op =
    | CreateOp(req: CreateRequest, newId: string, createFaults: CreateFaults)
    | UpdateOp(id: string, update: UpdateRequest, updateFaults: UpdateFaults)
    | DeleteOp(id: string, deleteFaults: DeleteFaults)
    | SyncOp(id: string, syncFaults: SyncFaults)
    | SyncZoneOp(rows: seq<string>, faults: Faults)
    | ImportOp(env: DnsImport.Env, order: seq<(string, string)>, script: DnsImport.Script)

  /** What the provider lists for a zone, in some order of names and types. */
  function ListRemote(remote: map<Key, Remote>, zone: string, order: seq<(string, string)>): (l: seq<DnsImport.Listed>)
    ensures forall e :: e in l ==>
      Key(zone, e.name, e.rtype) in remote && remote[Key(zone, e.name, e.rtype)] == Remote(e.value, e.ttl)
  {
    if order == [] then []
    else
      var key := Key(zone, order[0].0, order[0].1);
      var rest := ListRemote(remote, zone, order[1..]);
      if key in remote then [DnsImport.Listed(key.name, key.rtype, remote[key].value, remote[key].ttl)] + rest else rest
  }

  ghost function Step(cfg: Config, db: Db, op: Op): Db {
    match op
    case CreateOp(req, newId, f) => Create(cfg, db, req, newId, f).0
    case UpdateOp(id, req, f) => Update(cfg, db, id, req, f).0
    case DeleteOp(id, f) => Delete(cfg, db, id, f).0
    case SyncOp(id, f) => SyncRow(cfg, db, id, f)
    case SyncZoneOp(rows, f) => SyncRows(cfg, db, rows, f)
    case ImportOp(env, order, s) =>
      db.(records := DnsImport.ImportRows(env, db.records, ListRemote(db.remote, env.zoneId, order), s).0)
  }

  /** The one way to lose agreement: a delete that reaches the provider but not the store. */
  ghost predicate OrphansRow(cfg: Config, db: Db, op: Op) {
    op.DeleteOp? && Orphans(cfg, db, op.id, op.deleteFaults)
  }

  lemma StepKeeps(cfg: Config, db: Db, op: Op, strict: bool)
    requires Unique(db.records)
    ensures Unique(Step(cfg, db, op).records)
    ensures Agrees(db, strict) && !(strict && op.DeleteOp?) ==> Agrees(Step(cfg, db, op), strict)
  {
    hide Unique, Agrees, Create, Update, Delete, SyncRecord, SyncRows;
    match op
    case CreateOp(req, newId, f) => CreateKeeps(cfg, db, req, newId, f, strict);
    case UpdateOp(id, req, f) => UpdateKeeps(cfg, db, id, req, f, strict);
    case DeleteOp(id, f) => DeleteKeeps(cfg, db, id, f);
    case SyncOp(id, f) => if id in db.records { SyncKeeps(cfg, db, id, f, strict); }
    case SyncZoneOp(rows, f) => SyncRowsKeeps(cfg, db, rows, f, strict);
    case ImportOp(env, order, s) =>
      var listing := ListRemote(db.remote, env.zoneId, order);
      DnsImport.ImportPreserves(env, db.records, listing, s);
      if Agrees(db, strict) {
        DnsImport.ImportKeeps(env, db, listing, s, strict);
      }
  }

  /** From an agreeing state, one operation keeps full agreement exactly when it is not an orphaning delete. */
  lemma StepAgreement(cfg: Config, db: Db, op: Op)
    requires Unique(db.records) && Agrees(db, true)
    ensures Agrees(Step(cfg, db, op), true) <==> !OrphansRow(cfg, db, op)
  {
    hide Unique, Agrees, Create, Update, Delete, SyncRecord, SyncRows, Orphans;
    StepKeeps(cfg, db, op, true);
    if op.DeleteOp? {
      DeleteKeeps(cfg, db, op.id, op.deleteFaults);
    }
  }

  ghost function After(cfg: Config, db: Db, ops: seq<Op>): Db {
    if ops == [] then db else Step(cfg, After(cfg, db, ops[..|ops| - 1]), ops[|ops| - 1])
  }

  lemma {:induction false} AlwaysUnique(cfg: Config, db: Db, ops: seq<Op>)
    requires Unique(db.records)
    ensures Unique(After(cfg, db, ops).records)
  {
    hide Step, Unique;
    if ops != [] {
      AlwaysUnique(cfg, db, ops[..|ops| - 1]);
      StepKeeps(cfg, After(cfg, db, ops[..|ops| - 1]), ops[|ops| - 1], false);
    }
  }

  /** In every reachable state keys are unique, and no row marked synced has another value at the provider. */
  lemma {:induction false} NeverStale(cfg: Config, db: Db, ops: seq<Op>)
    requires Unique(db.records) && Agrees(db, false)
    ensures Unique(After(cfg, db, ops).records) && Agrees(After(cfg, db, ops), false)
  {
    hide Step, Unique, Agrees;
    if ops != [] {
      NeverStale(cfg, db, ops[..|ops| - 1]);
      StepKeeps(cfg, After(cfg, db, ops[..|ops| - 1]), ops[|ops| - 1], false);
    }
  }

  ghost predicate AgreesThroughout(cfg: Config, db: Db, ops: seq<Op>) {
    forall k :: 0 <= k <= |ops| ==> Agrees(After(cfg, db, ops[..k]), true)
  }

  ghost predicate NoOrphans(cfg: Config, db: Db, ops: seq<Op>) {
    forall k :: 0 <= k < |ops| ==> !OrphansRow(cfg, After(cfg, db, ops[..k]), ops[k])
  }

  lemma AgreesOneMore(cfg: Config, db: Db, ops: seq<Op>)
    requires ops != []
    ensures var init := ops[..|ops| - 1];
      && (AgreesThroughout(cfg, db, ops) <==> AgreesThroughout(cfg, db, init) && Agrees(After(cfg, db, ops), true))
      && (AgreesThroughout(cfg, db, init) ==> Agrees(After(cfg, db, init), true))
  {
    hide After, Agrees;
    var n := |ops| - 1;
    var init := ops[..n];
    forall k | 0 <= k <= n ensures init[..k] == ops[..k] {
    }
    assert ops[..n + 1] == ops;
    assert init[..n] == init;
    if AgreesThroughout(cfg, db, init) && Agrees(After(cfg, db, ops), true) {
      forall k | 0 <= k <= n + 1 ensures Agrees(After(cfg, db, ops[..k]), true) {
        if k <= n {
          assert Agrees(After(cfg, db, init[..k]), true);
        }
      }
    }
  }

  lemma NoOrphansOneMore(cfg: Config, db: Db, ops: seq<Op>)
    requires ops != []
    ensures var n := |ops| - 1;
      NoOrphans(cfg, db, ops) <==> NoOrphans(cfg, db, ops[..n]) && !OrphansRow(cfg, After(cfg, db, ops[..n]), ops[n])
  {
    hide After, OrphansRow;
    var n := |ops| - 1;
    var init := ops[..n];
    forall k | 0 <= k < n ensures init[..k] == ops[..k] && init[k] == ops[k] {
    }
  }

  /** Every row marked synced has exactly the provider's value in all states of a run, exactly
      when no operation of the run is an orphaning delete. */
  lemma {:induction false} AgreementOverRuns(cfg: Config, db: Db, ops: seq<Op>)
    requires Unique(db.records) && Agrees(db, true)
    ensures AgreesThroughout(cfg, db, ops) <==> NoOrphans(cfg, db, ops)
  {
    hide Step, Unique, Agrees, OrphansRow;
    if ops == [] {
      assert ops[..0] == [];
    } else {
      hide AgreesThroughout, NoOrphans;
      var n := |ops| - 1;
      AgreementOverRuns(cfg, db, ops[..n]);
      AgreesOneMore(cfg, db, ops);
      NoOrphansOneMore(cfg, db, ops);
      WeakerAgreement(db);
      NeverStale(cfg, db, ops[..n]);
      if Agrees(After(cfg, db, ops[..n]), true) {
        StepAgreement(cfg, After(cfg, db, ops[..n]), ops[n]);
      }
    }
  }

  lemma WeakerAgreement(db: Db)
    ensures Agrees(db, true) ==> Agrees(db, false)
  {
    if Agrees(db, true) {
      forall id | id in db.records ensures RowAgrees(db, id, false) {
        assert RowAgrees(db, id, true);
      }
    }
  }

  /** The failing family is not empty: one synced record, and a delete whose store write fails. */
  lemma OrphaningDeleteExists()
    ensures var rec := Record("z", "www", "A", "10.0.0.1", 60, None, None, Synced);
      var db := Db(map["r" := rec], map[rec.At() := Remote("10.0.0.1", 60)]);
      var cfg := Config(map["z" := Zone("example.org", true, 60)], {});
      var op := DeleteOp("r", DeleteFaults(true, true, Confirmed, false));
      Unique(db.records) && Agrees(db, true) && !Agrees(Step(cfg, db, op), true)
  {
    var rec := Record("z", "www", "A", "10.0.0.1", 60, None, None, Synced);
    var db := Db(map["r" := rec], map[rec.At() := Remote("10.0.0.1", 60)]);
    var cfg := Config(map["z" := Zone("example.org", true, 60)], {});
    var op := DeleteOp("r", DeleteFaults(true, true, Confirmed, false));
    assert RowAgrees(db, "r", true);
    StepAgreement(cfg, db, op);
  }
}

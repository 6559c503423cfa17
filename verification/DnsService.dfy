/** The DNS service as it runs: an object whose methods update the store and the provider
    in place (internal/service/dns.go). */
module DnsService {
  import opened Text
  import opened Dns
  import opened DnsZoneSync
  import opened DnsLink
  import opened Paging
  import DnsImport

  datatype ZoneOutcome = ZoneSynced(result: SyncResult) | ZoneNotFound | ZoneUnreachable | ZoneListFailed

  datatype ImportOutcome = ImportDone(result: DnsImport.ImportResult) | ImportNotFound | ImportUnreachable

  class Service {
    const cfg: Config
    var records: Records
    var remote: map<Key, Remote>

    constructor (cfg: Config, records: Records, remote: map<Key, Remote>)
      ensures this.cfg == cfg && State() == Db(records, remote)
    {
      this.cfg, this.records, this.remote := cfg, records, remote;
    }

    function State(): Db reads this { Db(records, remote) }

    method UpdateRow(id: string, rec: Record, ok: bool) returns (done: bool)
      modifies this
      ensures done == UpdateAccepted(old(records), id, rec, ok)
      ensures State() == Db(StoreUpdate(old(records), id, rec, ok), old(remote))
    {
      done := ok && id in records && !Taken(records, id, rec.At());
      if done {
        records := records[id := rec];
      }
    }

    /** Creating and updating at the provider both leave it serving the record. */
    method WriteRemote(rec: Record, reply: Reply) returns (ok: bool)
      modifies this`remote
      ensures ok == (reply == Confirmed)
      ensures remote == if reply == Refused then old(remote) else old(remote)[rec.At() := Remote(rec.value, rec.ttl)]
    {
      if reply != Refused {
        remote := remote[rec.At() := Remote(rec.value, rec.ttl)];
      }
      return reply == Confirmed;
    }

    method SyncRecord(id: string, rec: Record, f: SyncFaults) returns (ok: bool)
      modifies this
      ensures ok == SyncOk(cfg, old(State()), id, rec, f)
      ensures State() == Dns.SyncRecord(cfg, old(State()), id, rec, f)
    {
      if !f.zoneOk || rec.zone !in cfg.zones { return false; }
      if !f.providerOk { return false; }
      if f.getOk && rec.At() in remote {
        if remote[rec.At()].value != rec.value {
          ok := WriteRemote(rec, f.write);
          if !ok { return false; }
        }
      } else {
        ok := WriteRemote(rec, f.write);
        if !ok { return false; }
      }
      ok := UpdateRow(id, rec.(status := Synced), f.storeOk);
    }

    method AutoSync(id: string, rec: Record, f: AutoFaults)
      modifies this
      ensures State() == Dns.AutoSync(cfg, old(State()), id, rec, f)
    {
      var ok := SyncRecord(id, rec, f.sync);
      if !ok {
        var _ := UpdateRow(id, rec.(status := Failed), f.markOk);
      }
    }

    /** Validates the request and applies it to a copy of the row. */
    method ApplyRequest(was: Record, req: UpdateRequest)
      returns (problem: Option<string>, rec: Record, updated: bool)
      ensures problem == RefusedField(cfg, req)
      ensures problem.None? ==> rec == Applied(was, req) && updated == Changes(req)
    {
      rec, updated := was, false;
      if req.device.Some? && req.device.value != "" && req.device.value !in cfg.devices {
        return Some("device_id"), rec, updated;
      }
      if req.device.Some? {
        rec, updated := rec.(device := req.device), true;
      }
      if req.name.Some? {
        if req.name.value == "" { return Some("name"), rec, updated; }
        rec, updated := rec.(name := req.name.value), true;
      }
      if req.rtype.Some? {
        if req.rtype.value == "" { return Some("type"), rec, updated; }
        rec, updated := rec.(rtype := req.rtype.value), true;
      }
      if req.value.Some? {
        if req.value.value == "" { return Some("value"), rec, updated; }
        rec, updated := rec.(value := req.value.value), true;
      }
      if req.ttl.Some? {
        if req.ttl.value < 0 { return Some("ttl"), rec, updated; }
        rec, updated := rec.(ttl := req.ttl.value), true;
      }
      if updated {
        rec := rec.(status := Pending);
      }
      return None, rec, updated;
    }

    method UpdateRecord(id: string, req: UpdateRequest, f: UpdateFaults) returns (r: Outcome)
      modifies this
      ensures (State(), r) == Update(cfg, old(State()), id, req, f)
    {
      hide Dns.AutoSync, UpdateAccepted, Applied, RefusedField, Changes;
      if id !in records { return NotFound; }
      var problem, rec, updated := ApplyRequest(records[id], req);
      if problem.Some? { return Invalid(problem.value); }
      var ok := UpdateRow(id, rec, f.storeOk);
      if !ok { return StoreError; }
      if f.zoneOk && rec.zone in cfg.zones && cfg.zones[rec.zone].autoSync && updated {
        AutoSync(id, rec, f.auto);
      }
      return Done(id);
    }

    method CreateRecord(req: CreateRequest, newId: string, f: CreateFaults) returns (r: Outcome)
      requires Unique(records)
      modifies this
      ensures (State(), r) == Create(cfg, old(State()), req, newId, f)
    {
      if req.zone == "" { return Invalid("zone_id"); }
      if req.name == "" { return Invalid("name"); }
      if req.rtype == "" { return Invalid("type"); }
      if req.value == "" { return Invalid("value"); }
      if req.zone !in cfg.zones { return Invalid("zone_id"); }
      if req.device.Some? && req.device.value != "" && req.device.value !in cfg.devices {
        return Invalid("device_id");
      }
      var key := Key(req.zone, req.name, req.rtype);
      if f.lookupOk {
        if id :| id in records && records[id].At() == key {
          assert Lookup(records, key) == Some(id);
          r := UpdateRecord(id, UpdateRequest(req.device, None, None, Some(req.value), Some(req.ttl)), f.update);
          return;
        }
      }
      var ttl := req.ttl;
      if ttl <= 0 {
        ttl := cfg.zones[req.zone].ttl;
      }
      var rec := Record(req.zone, req.name, req.rtype, req.value, ttl, req.device, None, Pending);
      if !f.storeOk || newId in records || Taken(records, newId, key) { return StoreError; }
      records := records[newId := rec];
      if cfg.zones[req.zone].autoSync {
        AutoSync(newId, rec, f.auto);
      }
      return Done(newId);
    }

    method DeleteRecord(id: string, f: DeleteFaults) returns (r: Outcome)
      modifies this
      ensures (State(), r) == Delete(cfg, old(State()), id, f)
    {
      if id !in records { return NotFound; }
      var rec := records[id];
      if !f.zoneOk || rec.zone !in cfg.zones { return StoreError; }
      if rec.status == Synced {
        if f.providerOk && f.remove != Refused {
          remote := remote - {rec.At()};
        }
      }
      if !f.storeOk { return StoreError; }
      records := records - {id};
      return Done(id);
    }

    /** `order` is what the store's query enumerates; only its first page is synced. */
    method SyncZone(zoneId: string, order: seq<string>, providerOk: bool, listOk: bool, f: Faults)
      returns (r: ZoneOutcome)
      requires Unique(records) && Enumerates(records, zoneId, order)
      modifies this
      ensures r == ZoneNotFound <==> zoneId !in cfg.zones
      ensures r == ZoneUnreachable <==> zoneId in cfg.zones && !providerOk
      ensures r == ZoneListFailed <==> zoneId in cfg.zones && providerOk && !listOk
      ensures !r.ZoneSynced? ==> State() == old(State())
      ensures r.ZoneSynced? ==>
        && Distinct(old(records), FirstPage(order))
        && State() == SyncRows(cfg, old(State()), FirstPage(order), f)
        && DnsZoneSync.ResultMatches(r.result, FirstPage(order), FailedRows(cfg, old(State()), FirstPage(order), f))
    {
      if zoneId !in cfg.zones { return ZoneNotFound; }
      if !providerOk { return ZoneUnreachable; }
      if !listOk { return ZoneListFailed; }
      PassCoversZone(cfg, State(), zoneId, order, f);
      var page := new Pagination(0, 0);
      page.Clamp();
      var rows := if |order| <= page.limit then order else order[..page.limit];
      var synced, failed, failedIds := SyncListed(rows, f);
      var status := if failed == 0 then Success else if synced == 0 then AllFailed else Partial;
      return ZoneSynced(SyncResult(failed == 0, |rows|, synced, failed, failedIds, status));
    }

    /** Brings the provider's listing into the store; the provider itself is only read. */
    method ImportFromDNS(env: DnsImport.Env, listOk: bool, listing: seq<DnsImport.Listed>, s: DnsImport.Script)
      returns (r: ImportOutcome)
      requires Unique(records)
      requires env.zoneId in cfg.zones ==> env.zone == cfg.zones[env.zoneId]
      modifies this`records
      ensures r == ImportNotFound <==> env.zoneId !in cfg.zones
      ensures r == ImportUnreachable <==> env.zoneId in cfg.zones && !listOk
      ensures !r.ImportDone? ==> records == old(records)
      ensures r.ImportDone? ==>
        && records == DnsImport.ImportRows(env, old(records), listing, s).0
        && DnsImport.ResultMatches(r.result, listing, DnsImport.ImportRows(env, old(records), listing, s).1)
        && r.result.total == r.result.imported + r.result.skipped + r.result.failed
        && r.result.linked <= r.result.imported
        && |r.result.skippedIds| == r.result.skipped && |r.result.failedIds| == r.result.failed
    {
      if env.zoneId !in cfg.zones { return ImportNotFound; }
      if !listOk { return ImportUnreachable; }
      var c := DnsImport.ImportResult(true, |listing|, 0, 0, 0, 0, [], []);
      ghost var results := [];
      DnsImport.NothingImported(env, records, s);
      assert listing[..0] == [];
      hide DnsImport.ImportRows, DnsImport.ImportRow, DnsImport.ResultMatches, DnsImport.Preserves;
      hide DnsImport.Counted, Unique;
      for i := 0 to |listing|
        invariant (records, results) == DnsImport.ImportRows(env, old(records), listing[..i], s)
        invariant Unique(records) && c.success && c.total == |listing|
        invariant DnsImport.ResultMatches(c.(total := i, success := c.failed == 0), listing[..i], results)
      {
        ghost var before := records;
        var result := ImportOne(env, listing[i], s.newId(i), s.faults(i));
        DnsImport.ImportRowPreserves(env, before, listing[i], s.newId(i), s.faults(i));
        DnsImport.OneMoreRow(env, old(records), listing, s, i);
        DnsImport.OneMoreCounted(listing, i, c, results, result);
        results := results + [result];
        c := CountResult(c, listing[i].name, result);
      }
      assert listing[..|listing|] == listing;
      c := c.(success := c.failed == 0);
      DnsImport.TotalsAddUp(c, listing, results);
      return ImportDone(c);
    }

    /** The counters of the import after one more result. */
    method CountResult(was: DnsImport.ImportResult, name: string, result: DnsImport.RowResult)
      returns (c: DnsImport.ImportResult)
      ensures c == DnsImport.Counted(was, name, result) && c.total == was.total && c.success == was.success
    {
      c := was;
      match result {
        case Imported(linked) =>
          c := c.(imported := c.imported + 1);
          if linked { c := c.(linked := c.linked + 1); }
        case Skipped => c := c.(skipped := c.skipped + 1, skippedIds := c.skippedIds + [name]);
        case RowFailed => c := c.(failed := c.failed + 1, failedIds := c.failedIds + [name]);
      }
    }

    /** The body of the import loop for one listed record. */
    method ImportOne(env: DnsImport.Env, e: DnsImport.Listed, newId: string, f: DnsImport.RowFaults)
      returns (r: DnsImport.RowResult)
      requires Unique(records)
      modifies this`records
      ensures (records, r) == DnsImport.ImportRow(env, old(records), e, newId, f)
    {
      if env.zoneId == "" || e.name == "" || !f.lookupOk { return DnsImport.RowFailed; }
      var key := Key(env.zoneId, e.name, e.rtype);
      if id :| id in records && records[id].At() == key {
        assert Lookup(records, key) == Some(id);
        var rec := records[id];
        if rec.value == e.value { return DnsImport.Skipped; }
        rec := rec.(value := e.value);
        if e.ttl > 0 { rec := rec.(ttl := e.ttl); }
        rec := rec.(status := Synced);
        if env.devices.Some? && rec.device.None? {
          rec := MatchDeviceForRecord(rec, env.zone.name, FirstPage(env.devices.value), env.ptrToIP);
        }
        assert rec == DnsImport.Refreshed(env, records[id], e);
        if !f.storeOk || Taken(records, id, rec.At()) { return DnsImport.RowFailed; }
        records := records[id := rec];
        return DnsImport.Imported(rec.device.Some?);
      }
      var rec := Record(env.zoneId, e.name, e.rtype, e.value, e.ttl, None, None, Synced);
      if e.ttl == 0 { rec := rec.(ttl := env.zone.ttl); }
      if env.devices.Some? {
        rec := MatchDeviceForRecord(rec, env.zone.name, FirstPage(env.devices.value), env.ptrToIP);
      }
      assert rec == DnsImport.NewRow(env, e);
      if !f.storeOk || newId in records || Taken(records, newId, rec.At()) { return DnsImport.RowFailed; }
      records := records[newId := rec];
      return DnsImport.Imported(rec.device.Some?);
    }

    /** The loop of SyncZone over the rows as they were listed. */
    method SyncListed(rows: seq<string>, f: Faults) returns (synced: nat, failed: nat, failedIds: seq<string>)
      requires Unique(records) && Distinct(records, rows)
      modifies this
      ensures State() == SyncRows(cfg, old(State()), rows, f)
      ensures failedIds == FailedRows(cfg, old(State()), rows, f)
      ensures failed == |failedIds| && synced + failed == |rows|
    {
      ghost var db := State();
      var listed := records;
      synced, failed, failedIds := 0, 0, [];
      NoRows(cfg, db, f);
      hide Unique, SyncRows, FailedRows, SyncOk, Dns.SyncRecord;
      for i := 0 to |rows|
        invariant State() == SyncRows(cfg, db, rows[..i], f)
        invariant failedIds == FailedRows(cfg, db, rows[..i], f)
        invariant failed == |failedIds| && synced + failed == i
      {
        RowsBefore(cfg, db, rows, f, i);
        var ok := SyncRecord(rows[i], listed[rows[i]], f(i));
        if !ok {
          failed, failedIds := failed + 1, failedIds + [rows[i]];
        } else {
          synced := synced + 1;
        }
      }
      assert rows[..|rows|] == rows;
    }
  }

  lemma NoRows(cfg: Config, db: Db, f: Faults)
    ensures SyncRows(cfg, db, [], f) == db && FailedRows(cfg, db, [], f) == []
  {
  }

  /** When the loop reaches row `i`, that row is as listed, and its outcome and effect are the
      ones of the specification. */
  lemma RowsBefore(cfg: Config, db: Db, rows: seq<string>, f: Faults, i: nat)
    requires Unique(db.records) && Distinct(db.records, rows) && i < |rows|
    ensures var before := SyncRows(cfg, db, rows[..i], f);
      && rows[i] in before.records && before.records[rows[i]] == db.records[rows[i]]
      && SyncRows(cfg, db, rows[..i + 1], f) == Dns.SyncRecord(cfg, before, rows[i], db.records[rows[i]], f(i))
      && FailedRows(cfg, db, rows[..i + 1], f) == FailedRows(cfg, db, rows[..i], f) +
           (if SyncOk(cfg, before, rows[i], db.records[rows[i]], f(i)) then [] else [rows[i]])
  {
    var upTo := rows[..i + 1];
    assert upTo[..|upTo| - 1] == rows[..i];
    SyncRowsEffect(cfg, db, rows[..i], f);
    SyncRowsKeeps(cfg, db, rows[..i], f, false);
    var before := SyncRows(cfg, db, rows[..i], f);
    LaterRowUnaffected(cfg, db, upTo, f, before);
    hide SyncRows, RowsDone, RemoteDone;
    SyncEstablishes(cfg, before, rows[i], f(i));
  }
}

/** What each DNS operation answers and does, spelled out field by field (internal/service/dns.go). */
module DnsEffects {
  import opened Text
  import opened Dns

  // ----- sync -----

  /** A record sync succeeds exactly when the zone is found, the provider is available, the provider confirms a
      write or was read to hold the value already, and the store takes the new status. */
  lemma SyncSucceedsExactly(cfg: Config, db: Db, id: string, f: SyncFaults)
    requires Unique(db.records) && id in db.records
    ensures var rec := db.records[id];
      SyncOk(cfg, db, id, rec, f) <==>
      && f.zoneOk && rec.zone in cfg.zones && f.providerOk && f.storeOk
      && (f.write == Confirmed || (f.getOk && rec.At() in db.remote && db.remote[rec.At()].value == rec.value))
  {
  }

  /** Without its zone or its provider a sync does nothing. */
  lemma SyncNeedsProvider(cfg: Config, db: Db, id: string, rec: Record, f: SyncFaults)
    requires !(f.zoneOk && rec.zone in cfg.zones && f.providerOk)
    ensures SyncRecord(cfg, db, id, rec, f) == db && !SyncOk(cfg, db, id, rec, f)
  {
  }

  // ----- refusals -----

  /** The field names the service reports are different ones. */
  lemma FieldNamesDiffer()
    ensures "zone_id" != "name" && "zone_id" != "type" && "zone_id" != "value" && "zone_id" != "device_id"
    ensures "zone_id" != "ttl" && "name" != "type" && "name" != "value" && "name" != "device_id" && "name" != "ttl"
    ensures "type" != "value" && "type" != "device_id" && "type" != "ttl"
    ensures "value" != "device_id" && "value" != "ttl" && "device_id" != "ttl"
  {
    assert "name"[0] != "type"[0];
  }

  predicate NoSuchDevice(cfg: Config, device: Option<string>) {
    match device
    case None => false
    case Some(d) => d != "" && d !in cfg.devices
  }

  /** The first field of an update that is refused: a device that does not exist, an empty text, a negative TTL. */
  lemma RefusedFieldIs(cfg: Config, req: UpdateRequest)
    ensures var device, name, rtype, value, ttl :=
        NoSuchDevice(cfg, req.device), req.name == Some(""), req.rtype == Some(""), req.value == Some(""),
        req.ttl.Some? && req.ttl.value < 0;
      && (RefusedField(cfg, req) == Some("device_id") <==> device)
      && (RefusedField(cfg, req) == Some("name") <==> !device && name)
      && (RefusedField(cfg, req) == Some("type") <==> !device && !name && rtype)
      && (RefusedField(cfg, req) == Some("value") <==> !device && !name && !rtype && value)
      && (RefusedField(cfg, req) == Some("ttl") <==> !device && !name && !rtype && !value && ttl)
      && (RefusedField(cfg, req) == None <==> !device && !name && !rtype && !value && !ttl)
  {
    FieldNamesDiffer();
  }

  // ----- update -----

  /** The key the row of an update ends up with. */
  function NewKey(rec: Record, req: UpdateRequest): Key {
    Key(rec.zone, if req.name.Some? then req.name.value else rec.name,
        if req.rtype.Some? then req.rtype.value else rec.rtype)
  }

  predicate KeyUsedElsewhere(records: Records, id: string, k: Key) {
    exists other :: other in records && other != id && records[other].At() == k
  }

  /** An update is done exactly when its row exists, no field is refused, no other row has the new key and the
      store works. */
  lemma UpdateAnswers(cfg: Config, db: Db, id: string, req: UpdateRequest, f: UpdateFaults)
    ensures var r := Update(cfg, db, id, req, f).1;
      && (r == NotFound <==> id !in db.records)
      && (forall field: string :: r == Invalid(field) <==> id in db.records && RefusedField(cfg, req) == Some(field))
      && (r.Done? <==>
            && id in db.records && RefusedField(cfg, req).None? && f.storeOk
            && !KeyUsedElsewhere(db.records, id, NewKey(db.records[id], req)))
  {
    hide RefusedField, AutoSync;
  }

  predicate NothingGiven(req: UpdateRequest) {
    req == UpdateRequest(None, None, None, None, None)
  }

  /** The status after a done update: as it was if nothing was given; pending, with the provider untouched, without
      automatic sync; else synced if the sync succeeded, and failed if not. */
  lemma UpdateStatus(cfg: Config, db: Db, id: string, req: UpdateRequest, f: UpdateFaults)
    requires Unique(db.records) && Update(cfg, db, id, req, f).1.Done?
    ensures var db' := Update(cfg, db, id, req, f).0;
      var auto := f.zoneOk && db.records[id].zone in cfg.zones && cfg.zones[db.records[id].zone].autoSync;
      && id in db'.records
      && (NothingGiven(req) ==> db' == db)
      && (!NothingGiven(req) && !auto ==> db'.records[id].status == Pending && db'.remote == db.remote)
      && (!NothingGiven(req) && auto ==>
            var stored := db.(records := db.records[id := Applied(db.records[id], req)]);
            var ok := SyncOk(cfg, stored, id, Applied(db.records[id], req), f.auto.sync);
            && (ok ==> db'.records[id].status == Synced)
            && (!ok && f.auto.markOk ==> db'.records[id].status == Failed))
  {
    hide AutoSync, RefusedField, SyncOk;
    var rec := Applied(db.records[id], req);
    var stored := db.(records := db.records[id := rec]);
    if NothingGiven(req) {
      assert rec == db.records[id] && db.records[id := rec] == db.records;
    }
    UpdateStored(db, id, rec);
    hide Unique;
    AutoSyncEffect(cfg, stored, id, f.auto);
  }

  // ----- create -----

  ghost predicate KeyExists(records: Records, k: Key) {
    exists id :: id in records && records[id].At() == k
  }

  function KeyAsked(req: CreateRequest): Key {
    Key(req.zone, req.name, req.rtype)
  }

  predicate AllGiven(req: CreateRequest) {
    req.zone != "" && req.name != "" && req.rtype != "" && req.value != ""
  }

  /** The request passes every test that comes before the store is asked for the key. */
  predicate Acceptable(cfg: Config, req: CreateRequest) {
    AllGiven(req) && req.zone in cfg.zones && !NoSuchDevice(cfg, req.device)
  }

  /** Which field a create refuses: the first one that is missing, then an unknown zone, then an unknown device; a
      negative TTL only when the key exists. */
  lemma CreateRefusals(cfg: Config, db: Db, req: CreateRequest, newId: string, f: CreateFaults)
    ensures var r := Create(cfg, db, req, newId, f).1;
      && (r == Invalid("zone_id") <==> req.zone == "" || (AllGiven(req) && req.zone !in cfg.zones))
      && (r == Invalid("name") <==> req.zone != "" && req.name == "")
      && (r == Invalid("type") <==> req.zone != "" && req.name != "" && req.rtype == "")
      && (r == Invalid("value") <==> req.zone != "" && req.name != "" && req.rtype != "" && req.value == "")
      && (r == Invalid("device_id") <==> AllGiven(req) && req.zone in cfg.zones && NoSuchDevice(cfg, req.device))
      && (r == Invalid("ttl") <==>
            Acceptable(cfg, req) && f.lookupOk && KeyExists(db.records, KeyAsked(req)) && req.ttl < 0)
  {
    FieldNamesDiffer();
    var existing := Lookup(db.records, KeyAsked(req));
    assert KeyExists(db.records, KeyAsked(req)) <==> existing.Some?;
    if Acceptable(cfg, req) && f.lookupOk && existing.Some? {
      var update := UpdateRequest(req.device, None, None, Some(req.value), Some(req.ttl));
      RefusedFieldIs(cfg, update);
      UpdateAnswers(cfg, db, existing.value, update, f.update);
    }
    hide Update, Lookup, KeyExists;
  }

  /** A create that is not refused is done exactly when the store works and, unless the existing row is updated,
      the key and the id are free. */
  lemma CreateDone(cfg: Config, db: Db, req: CreateRequest, newId: string, f: CreateFaults)
    requires Unique(db.records)
    ensures Create(cfg, db, req, newId, f).1.Done? <==>
      && Acceptable(cfg, req)
      && if f.lookupOk && KeyExists(db.records, KeyAsked(req)) then req.ttl >= 0 && f.update.storeOk
         else f.storeOk && newId !in db.records && !KeyExists(db.records, KeyAsked(req))
  {
    var existing := Lookup(db.records, KeyAsked(req));
    assert KeyExists(db.records, KeyAsked(req)) <==> existing.Some?;
    if Acceptable(cfg, req) {
      if f.lookupOk && existing.Some? {
        var update := UpdateRequest(req.device, None, None, Some(req.value), Some(req.ttl));
        RefusedFieldIs(cfg, update);
        UpdateAnswers(cfg, db, existing.value, update, f.update);
        assert !KeyUsedElsewhere(db.records, existing.value, KeyAsked(req));
        hide Update;
      } else if newId !in db.records {
        assert Taken(db.records, newId, KeyAsked(req)) <==> KeyExists(db.records, KeyAsked(req));
      }
    }
  }

  /** The row of a new key: every field as requested, the TTL the requested one if positive and the zone's if not;
      pending, with the provider untouched, without automatic sync; else synced if the sync succeeded, and failed
      if not. */
  lemma CreateNewRow(cfg: Config, db: Db, req: CreateRequest, newId: string, f: CreateFaults)
    requires Unique(db.records) && Create(cfg, db, req, newId, f).1.Done?
    requires !(f.lookupOk && KeyExists(db.records, KeyAsked(req)))
    ensures var (db', r) := Create(cfg, db, req, newId, f);
      && req.zone in cfg.zones && r == Done(newId) && newId !in db.records && newId in db'.records
      && var zone, row := cfg.zones[req.zone], db'.records[newId];
      && row.At() == KeyAsked(req) && row.value == req.value
      && row.ttl == (if req.ttl > 0 then req.ttl else zone.ttl)
      && row.device == req.device && row.address == None
      && (!zone.autoSync ==> row.status == Pending && db'.remote == db.remote)
      && (zone.autoSync && f.auto.sync == SyncFaults(true, true, true, Confirmed, true) ==>
            row.status == Synced && row.At() in db'.remote && db'.remote[row.At()].value == req.value)
      && (zone.autoSync && f.auto.sync.write != Confirmed && row.At() !in db.remote && f.auto.markOk ==>
            row.status == Failed)
  {
    assert Lookup(db.records, KeyAsked(req)).Some? ==> KeyExists(db.records, KeyAsked(req));
    hide AutoSync, Missing, Update, SyncOk, Lookup, KeyExists;
    var ttl := if req.ttl <= 0 then cfg.zones[req.zone].ttl else req.ttl;
    var rec := Record(req.zone, req.name, req.rtype, req.value, ttl, req.device, None, Pending);
    var stored := db.(records := db.records[newId := rec]);
    CreateStored(db, newId, rec);
    hide Unique, Taken;
    AutoSyncEffect(cfg, stored, newId, f.auto);
    AutoSyncSynced(cfg, stored, newId, f.auto);
    SyncSucceedsExactly(cfg, stored, newId, f.auto.sync);
  }

  /** Creating a key that exists updates its row: value and TTL become the requested ones, the TTL also when it is
      zero, and the device if one is given. */
  lemma CreateExistingRow(cfg: Config, db: Db, req: CreateRequest, newId: string, f: CreateFaults, id: string)
    requires Unique(db.records) && Create(cfg, db, req, newId, f).1.Done? && f.lookupOk
    requires id in db.records && db.records[id].At() == KeyAsked(req)
    ensures var (db', r) := Create(cfg, db, req, newId, f);
      && r == Done(id) && db'.records.Keys == db.records.Keys
      && var row, was := db'.records[id], db.records[id];
      && row.At() == was.At() && row.value == req.value && row.ttl == req.ttl && row.address == was.address
      && row.device == (if req.device.Some? then req.device else was.device)
  {
    assert Lookup(db.records, KeyAsked(req)) == Some(id);
    var update := UpdateRequest(req.device, None, None, Some(req.value), Some(req.ttl));
    UpdateEffect(cfg, db, id, update, f.update);
    hide Update, Lookup, Missing;
  }

  /** So a TTL of zero, which stands for the zone's default in a new row, is stored as zero in an existing one. */
  lemma ZeroTtlIsStored(cfg: Config, db: Db, req: CreateRequest, newId: string, f: CreateFaults, id: string)
    requires Unique(db.records) && Create(cfg, db, req, newId, f).1.Done? && f.lookupOk
    requires id in db.records && db.records[id].At() == KeyAsked(req) && req.ttl == 0
    ensures id in Create(cfg, db, req, newId, f).0.records
    ensures Create(cfg, db, req, newId, f).0.records[id].ttl == 0
  {
    hide Create;
    CreateExistingRow(cfg, db, req, newId, f, id);
  }

  // ----- delete -----

  /** The provider is asked to remove the entry, and does. */
  predicate Removes(cfg: Config, db: Db, id: string, f: DeleteFaults) {
    && id in db.records && f.zoneOk && db.records[id].zone in cfg.zones
    && db.records[id].status == Synced && f.providerOk && f.remove != Refused
  }

  /** A delete is done exactly when the row exists, its zone is found and the store works; then the row is gone and
      all others are as they were. The provider loses the row's key, and no other, exactly when the row was synced,
      the provider was available and the removal was not refused. */
  lemma DeleteEffect(cfg: Config, db: Db, id: string, f: DeleteFaults)
    ensures var (db', r) := Delete(cfg, db, id, f);
      && (r == NotFound <==> id !in db.records)
      && (r.Done? <==> id in db.records && f.zoneOk && db.records[id].zone in cfg.zones && f.storeOk)
      && (r.Done? ==> r.id == id && db'.records.Keys == db.records.Keys - {id})
      && (!r.Done? ==> db'.records.Keys == db.records.Keys)
      && (forall i :: i in db'.records ==> i in db.records && db'.records[i] == db.records[i])
      && (forall k :: k in db'.remote <==> k in db.remote && !(Removes(cfg, db, id, f) && k == db.records[id].At()))
      && (forall k :: k in db'.remote ==> db'.remote[k] == db.remote[k])
  {
  }
}

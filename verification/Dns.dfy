/** DNS records and their provider (internal/service/dns.go). The store maps ids to
    records and enforces one record per (zone, name, type); the provider maps the same
    keys to what it serves. Every call may fail: a store call without effect, a provider
    write without effect or after it took effect. Which calls fail, and how, is an argument
    of each operation. */
module Dns {
  import opened Text

  datatype Status = Pending | Synced | Failed

  datatype Zone = Zone(name: string, autoSync: bool, ttl: int)

  /** Zone names are unique, so a zone id also identifies the zone at its provider. */
  datatype Key = Key(zone: string, name: string, rtype: string)

  datatype Record = Record(
    zone: string, name: string, rtype: string, value: string, ttl: int,
    device: Option<string>, address: Option<string>, status: Status)
  {
    function At(): Key { Key(zone, name, rtype) }
  }

  datatype Remote = Remote(value: string, ttl: int)

  type Records = map<string, Record>

  datatype Db = Db(records: Records, remote: map<Key, Remote>)

  /** What the operations consult but do not change. */
  datatype Config = Config(zones: map<string, Zone>, devices: set<string>)

  // ----- the store -----

  /** Another row already has this key. */
  predicate Taken(records: Records, id: string, key: Key) {
    exists other :: other in records && other != id && records[other].At() == key
  }

  predicate UpdateAccepted(records: Records, id: string, rec: Record, ok: bool) {
    ok && id in records && !Taken(records, id, rec.At())
  }

  function StoreUpdate(records: Records, id: string, rec: Record, ok: bool): Records {
    if UpdateAccepted(records, id, rec, ok) then records[id := rec] else records
  }

  predicate CreateAccepted(records: Records, id: string, rec: Record, ok: bool) {
    ok && id !in records && !Taken(records, id, rec.At())
  }

  /** The id of the row with a key, if there is one. */
  ghost function Lookup(records: Records, key: Key): (r: Option<string>)
    ensures r.Some? ==> r.value in records && records[r.value].At() == key
    ensures r.None? ==> forall id :: id in records ==> records[id].At() != key
  {
    if exists id :: id in records && records[id].At() == key
    then var id :| id in records && records[id].At() == key; Some(id)
    else None
  }

  // ----- what must hold -----

  ghost predicate Unique(records: Records) {
    forall i, j :: i in records && j in records && records[i].At() == records[j].At() ==> i == j
  }

  /** A row marked synced has no other value at the provider; if `strict`, it is there. */
  ghost predicate RowAgrees(db: Db, id: string, strict: bool)
    requires id in db.records
  {
    var rec := db.records[id];
    rec.status == Synced ==>
      (strict ==> rec.At() in db.remote) && (rec.At() in db.remote ==> db.remote[rec.At()].value == rec.value)
  }

  ghost predicate Agrees(db: Db, strict: bool) {
    forall id :: id in db.records ==> RowAgrees(db, id, strict)
  }

  // ----- SyncRecord -----

  /** How a provider write ends: confirmed, refused, or carried out but reported as failed. */
  datatype Reply = Confirmed | Refused | Unconfirmed

  datatype SyncFaults = SyncFaults(zoneOk: bool, providerOk: bool, getOk: bool, write: Reply, storeOk: bool)

  predicate Reachable(cfg: Config, rec: Record, f: SyncFaults) {
    f.zoneOk && rec.zone in cfg.zones && f.providerOk
  }

  /** The provider is written unless it was seen to hold the value already. */
  predicate NeedsWrite(db: Db, rec: Record, f: SyncFaults) {
    !(f.getOk && rec.At() in db.remote && db.remote[rec.At()].value == rec.value)
  }

  /** The provider serves the value afterwards, and ... */
  predicate Reached(cfg: Config, db: Db, rec: Record, f: SyncFaults) {
    Reachable(cfg, rec, f) && (NeedsWrite(db, rec, f) ==> f.write != Refused)
  }

  /** ... the service knows it. */
  predicate Pushed(cfg: Config, db: Db, rec: Record, f: SyncFaults) {
    Reachable(cfg, rec, f) && (NeedsWrite(db, rec, f) ==> f.write == Confirmed)
  }

  predicate SyncOk(cfg: Config, db: Db, id: string, rec: Record, f: SyncFaults) {
    Pushed(cfg, db, rec, f) && UpdateAccepted(db.records, id, rec.(status := Synced), f.storeOk)
  }

  function SyncRecord(cfg: Config, db: Db, id: string, rec: Record, f: SyncFaults): Db {
    Db(
      if Pushed(cfg, db, rec, f) then StoreUpdate(db.records, id, rec.(status := Synced), f.storeOk) else db.records,
      if Reached(cfg, db, rec, f) && NeedsWrite(db, rec, f)
      then db.remote[rec.At() := Remote(rec.value, rec.ttl)] else db.remote)
  }

  /** Syncing a stored row touches only that row and its key, and keeps the invariant. */
  lemma SyncKeeps(cfg: Config, db: Db, id: string, f: SyncFaults, strict: bool)
    requires Unique(db.records) && id in db.records
    ensures var db' := SyncRecord(cfg, db, id, db.records[id], f);
      && Unique(db'.records) && (Agrees(db, strict) ==> Agrees(db', strict))
      && db'.records.Keys == db.records.Keys
      && db'.records[id] == (if SyncOk(cfg, db, id, db.records[id], f)
                             then db.records[id].(status := Synced) else db.records[id])
      && (forall i :: i in db.records && i != id ==> db'.records[i] == db.records[i])
      && (forall k :: k != db.records[id].At() ==>
           (k in db'.remote <==> k in db.remote) && (k in db.remote ==> db'.remote[k] == db.remote[k]))
  {
    var rec := db.records[id];
    var db' := SyncRecord(cfg, db, id, rec, f);
    forall i | Agrees(db, strict) && i in db'.records ensures RowAgrees(db', i, strict) {
      assert RowAgrees(db, i, strict);
      assert i != id ==> db.records[i].At() != rec.At();
    }
  }

  /** The provider serves the row's value exactly as far as the write took effect, and the sync succeeds
      exactly when it is known to have and the store accepts the new status. */
  lemma SyncEstablishes(cfg: Config, db: Db, id: string, f: SyncFaults)
    requires Unique(db.records) && id in db.records
    ensures var rec, remote := db.records[id], SyncRecord(cfg, db, id, db.records[id], f).remote;
      if Reached(cfg, db, rec, f) then rec.At() in remote && remote[rec.At()].value == rec.value
      else remote == db.remote
    ensures SyncOk(cfg, db, id, db.records[id], f) <==> Pushed(cfg, db, db.records[id], f) && f.storeOk
  {
  }

  /** The provider's TTL follows only when the value is written too: a record whose
      value already agrees is marked synced with whatever TTL the provider has. */
  lemma SyncedTtl(cfg: Config, db: Db, id: string, f: SyncFaults)
    requires id in db.records && Reached(cfg, db, db.records[id], f)
    ensures var rec := db.records[id];
      SyncRecord(cfg, db, id, rec, f).remote[rec.At()].ttl == rec.ttl <==>
      NeedsWrite(db, rec, f) || db.remote[rec.At()].ttl == rec.ttl
  {
  }

  /** A record whose TTL was changed to 300: it is marked synced while the provider keeps 60. */
  lemma TtlChangeIsNotPushed()
    ensures var rec := Record("z", "www", "A", "10.0.0.1", 300, None, None, Pending);
      var db := Db(map["r" := rec], map[rec.At() := Remote("10.0.0.1", 60)]);
      var cfg := Config(map["z" := Zone("example.org", true, 60)], {});
      var db' := SyncRecord(cfg, db, "r", rec, SyncFaults(true, true, true, Confirmed, true));
      db'.records["r"].status == Synced && db'.remote[rec.At()].ttl == 60
  {
  }

  // ----- create and update -----

  datatype Outcome = Done(id: string) | Invalid(field: string) | NotFound | StoreError

  /** The automatic sync after a change, and the write that records its failure. */
  datatype AutoFaults = AutoFaults(sync: SyncFaults, markOk: bool)

  function AutoSync(cfg: Config, db: Db, id: string, rec: Record, f: AutoFaults): Db {
    var synced := SyncRecord(cfg, db, id, rec, f.sync);
    if SyncOk(cfg, db, id, rec, f.sync) then synced
    else synced.(records := StoreUpdate(synced.records, id, rec.(status := Failed), f.markOk))
  }

  lemma AutoSyncKeeps(cfg: Config, db: Db, id: string, f: AutoFaults, strict: bool)
    requires Unique(db.records) && id in db.records
    ensures Unique(AutoSync(cfg, db, id, db.records[id], f).records)
    ensures Agrees(db, strict) ==> Agrees(AutoSync(cfg, db, id, db.records[id], f), strict)
  {
    SyncKeeps(cfg, db, id, f.sync, strict);
    var rec := db.records[id];
    var synced := SyncRecord(cfg, db, id, rec, f.sync);
    hide SyncRecord, SyncOk;
    var db' := AutoSync(cfg, db, id, rec, f);
    forall i | Agrees(db, strict) && i in db'.records ensures RowAgrees(db', i, strict) {
      assert RowAgrees(synced, i, strict);
    }
  }

  datatype UpdateRequest = UpdateRequest(
    device: Option<string>, name: Option<string>, rtype: Option<string>, value: Option<string>, ttl: Option<int>)

  datatype UpdateFaults = UpdateFaults(storeOk: bool, zoneOk: bool, auto: AutoFaults)

  predicate UnknownDevice(cfg: Config, device: Option<string>) {
    device.Some? && device.value != "" && device.value !in cfg.devices
  }

  /** The first field of the request that is refused. */
  function RefusedField(cfg: Config, req: UpdateRequest): Option<string> {
    if UnknownDevice(cfg, req.device) then Some("device_id")
    else if req.name == Some("") then Some("name")
    else if req.rtype == Some("") then Some("type")
    else if req.value == Some("") then Some("value")
    else if req.ttl.Some? && req.ttl.value < 0 then Some("ttl")
    else None
  }

  predicate Changes(req: UpdateRequest) {
    req.device.Some? || req.name.Some? || req.rtype.Some? || req.value.Some? || req.ttl.Some?
  }

  function Or<T>(o: Option<T>, default: T): T { if o.Some? then o.value else default }

  function Applied(rec: Record, req: UpdateRequest): Record {
    rec.(device := if req.device.Some? then req.device else rec.device,
         name := Or(req.name, rec.name), rtype := Or(req.rtype, rec.rtype), value := Or(req.value, rec.value),
         ttl := Or(req.ttl, rec.ttl), status := if Changes(req) then Pending else rec.status)
  }

  predicate AutoSynced(cfg: Config, rec: Record) { rec.zone in cfg.zones && cfg.zones[rec.zone].autoSync }

  function Update(cfg: Config, db: Db, id: string, req: UpdateRequest, f: UpdateFaults): (r: (Db, Outcome)) {
    if id !in db.records then (db, NotFound)
    else if RefusedField(cfg, req).Some? then (db, Invalid(RefusedField(cfg, req).value))
    else
      var rec := Applied(db.records[id], req);
      if !UpdateAccepted(db.records, id, rec, f.storeOk) then (db, StoreError)
      else
        var stored := db.(records := StoreUpdate(db.records, id, rec, f.storeOk));
        if f.zoneOk && AutoSynced(cfg, rec) && Changes(req)
        then (AutoSync(cfg, stored, id, rec, f.auto), Done(id))
        else (stored, Done(id))
  }

  lemma UpdateKeeps(cfg: Config, db: Db, id: string, req: UpdateRequest, f: UpdateFaults, strict: bool)
    requires Unique(db.records)
    ensures Unique(Update(cfg, db, id, req, f).0.records)
    ensures Agrees(db, strict) ==> Agrees(Update(cfg, db, id, req, f).0, strict)
  {
    hide AutoSync, RefusedField;
    if id in db.records && UpdateAccepted(db.records, id, Applied(db.records[id], req), f.storeOk) {
      var rec := Applied(db.records[id], req);
      var stored := db.(records := db.records[id := rec]);
      forall i | Agrees(db, strict) && i in stored.records ensures RowAgrees(stored, i, strict) {
        assert RowAgrees(db, i, strict);
        assert !Changes(req) ==> rec == db.records[id];
      }
      AutoSyncKeeps(cfg, stored, id, f.auto, strict);
    }
  }

  datatype CreateRequest = CreateRequest(
    zone: string, device: Option<string>, name: string, rtype: string, value: string, ttl: int)

  datatype CreateFaults = CreateFaults(lookupOk: bool, storeOk: bool, auto: AutoFaults, update: UpdateFaults)

  function Missing(req: CreateRequest): Option<string> {
    if req.zone == "" then Some("zone_id")
    else if req.name == "" then Some("name")
    else if req.rtype == "" then Some("type")
    else if req.value == "" then Some("value")
    else None
  }

  /** Creating a key that exists updates its row instead; `newId` is the generated id. */
  ghost function Create(cfg: Config, db: Db, req: CreateRequest, newId: string, f: CreateFaults): (r: (Db, Outcome)) {
    if Missing(req).Some? then (db, Invalid(Missing(req).value))
    else if req.zone !in cfg.zones then (db, Invalid("zone_id"))
    else if UnknownDevice(cfg, req.device) then (db, Invalid("device_id"))
    else
      var zone, existing := cfg.zones[req.zone], Lookup(db.records, Key(req.zone, req.name, req.rtype));
      if f.lookupOk && existing.Some? then
        Update(cfg, db, existing.value,
          UpdateRequest(req.device, None, None, Some(req.value), Some(req.ttl)), f.update)
      else
        var rec := Record(req.zone, req.name, req.rtype, req.value, if req.ttl <= 0 then zone.ttl else req.ttl,
          req.device, None, Pending);
        if !CreateAccepted(db.records, newId, rec, f.storeOk) then (db, StoreError)
        else
          var stored := db.(records := db.records[newId := rec]);
          (if zone.autoSync then AutoSync(cfg, stored, newId, rec, f.auto) else stored, Done(newId))
  }

  lemma CreateKeeps(cfg: Config, db: Db, req: CreateRequest, newId: string, f: CreateFaults, strict: bool)
    requires Unique(db.records)
    ensures Unique(Create(cfg, db, req, newId, f).0.records)
    ensures Agrees(db, strict) ==> Agrees(Create(cfg, db, req, newId, f).0, strict)
  {
    hide AutoSync, Update, Missing;
    var existing := Lookup(db.records, Key(req.zone, req.name, req.rtype));
    if existing.Some? {
      UpdateKeeps(cfg, db, existing.value,
        UpdateRequest(req.device, None, None, Some(req.value), Some(req.ttl)), f.update, strict);
    }
    if req.zone in cfg.zones {
      var ttl := if req.ttl <= 0 then cfg.zones[req.zone].ttl else req.ttl;
      var rec := Record(req.zone, req.name, req.rtype, req.value, ttl, req.device, None, Pending);
      if CreateAccepted(db.records, newId, rec, f.storeOk) {
        var stored := db.(records := db.records[newId := rec]);
        forall i | Agrees(db, strict) && i in stored.records ensures RowAgrees(stored, i, strict) {
          assert i != newId ==> RowAgrees(db, i, strict);
        }
        AutoSyncKeeps(cfg, stored, newId, f.auto, strict);
      }
    }
  }

  /** Only the row `id` and its key may differ. */
  ghost predicate OnlyRow(db: Db, db': Db, id: string) {
    && db.records.Keys <= db'.records.Keys <= db.records.Keys + {id}
    && (forall i :: i in db.records && i != id ==> db'.records[i] == db.records[i])
    && (id in db'.records ==> forall k :: k != db'.records[id].At() ==>
         (k in db'.remote <==> k in db.remote) && (k in db.remote ==> db'.remote[k] == db.remote[k]))
  }

  lemma AutoSyncEffect(cfg: Config, db: Db, id: string, f: AutoFaults)
    requires Unique(db.records) && id in db.records
    ensures var rec, db' := db.records[id], AutoSync(cfg, db, id, db.records[id], f);
      && OnlyRow(db, db', id) && id in db'.records
      && db'.records[id] == rec.(status := db'.records[id].status)
      && (SyncOk(cfg, db, id, rec, f.sync) ==> db'.records[id].status == Synced)
      && (!SyncOk(cfg, db, id, rec, f.sync) && f.markOk ==> db'.records[id].status == Failed)
  {
    hide NeedsWrite, Reachable;
  }

  /** Row `id` holds what the request asked for, and nothing else was touched. A changed row
      is marked synced only if the provider serves its value. */
  ghost predicate AsAsked(db: Db, db': Db, id: string, req: UpdateRequest)
    requires id in db.records
  {
    && OnlyRow(db, db', id) && id in db'.records
    && var row, was := db'.records[id], db.records[id];
    && row.zone == was.zone && row.name == Or(req.name, was.name) && row.rtype == Or(req.rtype, was.rtype)
    && row.value == Or(req.value, was.value) && row.ttl == Or(req.ttl, was.ttl)
    && row.device == (if req.device.Some? then req.device else was.device) && row.address == was.address
    && (Changes(req) && row.status == Synced ==> row.At() in db'.remote && db'.remote[row.At()].value == row.value)
  }

  predicate NoFaults(f: UpdateFaults) {
    f.storeOk && f.zoneOk && f.auto.markOk && f.auto.sync == SyncFaults(true, true, true, Confirmed, true)
  }

  /** An update answers NotFound and Invalid exactly on a missing row and a refused field, and
      changes nothing unless it is done; then the row is as asked, and with automatic sync
      and no fault it is synced. */
  lemma UpdateEffect(cfg: Config, db: Db, id: string, req: UpdateRequest, f: UpdateFaults)
    requires Unique(db.records)
    ensures var (db', r) := Update(cfg, db, id, req, f);
      && (r == NotFound <==> id !in db.records)
      && (r.Invalid? <==> id in db.records && RefusedField(cfg, req).Some?)
      && (!r.Done? ==> db' == db)
      && (r.Done? ==> r.id == id && id in db.records && AsAsked(db, db', id, req))
      && (r.Done? && Changes(req) && NoFaults(f) && AutoSynced(cfg, db'.records[id]) ==>
           db'.records[id].status == Synced)
  {
    hide AutoSync, RefusedField, OnlyRow;
    var db' := Update(cfg, db, id, req, f).0;
    if Update(cfg, db, id, req, f).1.Done? {
      var rec := Applied(db.records[id], req);
      var stored := db.(records := db.records[id := rec]);
      UpdateStored(db, id, rec);
      AutoSyncEffect(cfg, stored, id, f.auto);
      if Changes(req) {
        AutoSyncSynced(cfg, stored, id, f.auto);
        OnlyRowTrans(db, stored, db', id);
      }
    }
  }

  lemma UpdateStored(db: Db, id: string, rec: Record)
    requires Unique(db.records) && id in db.records && !Taken(db.records, id, rec.At())
    ensures Unique(db.records[id := rec]) && OnlyRow(db, db.(records := db.records[id := rec]), id)
  {
  }

  lemma AutoSyncSynced(cfg: Config, db: Db, id: string, f: AutoFaults)
    requires Unique(db.records) && id in db.records && db.records[id].status == Pending
    ensures var rec, db' := db.records[id], AutoSync(cfg, db, id, db.records[id], f);
      db'.records[id].status == Synced ==> rec.At() in db'.remote && db'.remote[rec.At()].value == rec.value
  {
  }

  lemma OnlyRowTrans(a: Db, b: Db, c: Db, id: string)
    requires OnlyRow(a, b, id) && OnlyRow(b, c, id) && id in b.records && id in c.records
    requires b.records[id].At() == c.records[id].At()
    ensures OnlyRow(a, c, id)
  {
  }

  /** A create that is done leaves exactly one row with its key, holding the requested value; an
      existing row keeps its id. Otherwise nothing changes. */
  lemma CreateEffect(cfg: Config, db: Db, req: CreateRequest, newId: string, f: CreateFaults)
    requires Unique(db.records)
    ensures var (db', r) := Create(cfg, db, req, newId, f);
      var key := Key(req.zone, req.name, req.rtype);
      && (!r.Done? ==> db' == db)
      && (r.Done? ==> r.id in db'.records && OnlyRow(db, db', r.id) && Unique(db'.records))
      && (r.Done? ==> db'.records[r.id].At() == key && db'.records[r.id].value == req.value)
      && (r.Done? ==> r.id == if f.lookupOk then Or(Lookup(db.records, key), newId) else newId)
      && (r.Done? && db'.records[r.id].status == Synced ==>
           key in db'.remote && db'.remote[key].value == req.value)
  {
    hide AutoSync, Update, Missing, OnlyRow;
    var (db', r) := Create(cfg, db, req, newId, f);
    var existing := Lookup(db.records, Key(req.zone, req.name, req.rtype));
    CreateKeeps(cfg, db, req, newId, f, true);
    if f.lookupOk && existing.Some? {
      UpdateEffect(cfg, db, existing.value,
        UpdateRequest(req.device, None, None, Some(req.value), Some(req.ttl)), f.update);
    } else if r.Done? {
      var ttl := if req.ttl <= 0 then cfg.zones[req.zone].ttl else req.ttl;
      var rec := Record(req.zone, req.name, req.rtype, req.value, ttl, req.device, None, Pending);
      var stored := db.(records := db.records[newId := rec]);
      CreateStored(db, newId, rec);
      AutoSyncEffect(cfg, stored, newId, f.auto);
      AutoSyncSynced(cfg, stored, newId, f.auto);
      if cfg.zones[req.zone].autoSync {
        OnlyRowTrans(db, stored, db', newId);
      }
    }
  }

  lemma CreateStored(db: Db, id: string, rec: Record)
    requires Unique(db.records) && id !in db.records && !Taken(db.records, id, rec.At())
    ensures Unique(db.records[id := rec]) && OnlyRow(db, db.(records := db.records[id := rec]), id)
  {
  }

  // ----- delete -----

  datatype DeleteFaults = DeleteFaults(zoneOk: bool, providerOk: bool, remove: Reply, storeOk: bool)

  function Delete(cfg: Config, db: Db, id: string, f: DeleteFaults): (r: (Db, Outcome)) {
    if id !in db.records then (db, NotFound)
    else if !(f.zoneOk && db.records[id].zone in cfg.zones) then (db, StoreError)
    else
      var rec := db.records[id];
      var removed := rec.status == Synced && f.providerOk && f.remove != Refused;
      var remote := if removed then db.remote - {rec.At()} else db.remote;
      if f.storeOk then (Db(db.records - {id}, remote), Done(id)) else (Db(db.records, remote), StoreError)
  }

  /** The provider forgets the record but the store keeps its row, still marked synced. */
  predicate Orphans(cfg: Config, db: Db, id: string, f: DeleteFaults) {
    id in db.records && f.zoneOk && db.records[id].zone in cfg.zones &&
    db.records[id].status == Synced && f.providerOk && f.remove != Refused && !f.storeOk
  }

  /** Deleting never leaves a stale value behind; it keeps full agreement exactly when it
      does not orphan the row. */
  lemma DeleteKeeps(cfg: Config, db: Db, id: string, f: DeleteFaults)
    requires Unique(db.records)
    ensures Unique(Delete(cfg, db, id, f).0.records)
    ensures Agrees(db, false) ==> Agrees(Delete(cfg, db, id, f).0, false)
    ensures Agrees(db, true) ==> (Agrees(Delete(cfg, db, id, f).0, true) <==> !Orphans(cfg, db, id, f))
  {
    var db' := Delete(cfg, db, id, f).0;
    forall i | i in db'.records && Agrees(db, false) ensures RowAgrees(db', i, false) {
      assert RowAgrees(db, i, false);
    }
    if Agrees(db, true) && Orphans(cfg, db, id, f) {
      assert !RowAgrees(db', id, true);
    } else {
      forall i | i in db'.records && Agrees(db, true) ensures RowAgrees(db', i, true) {
        assert RowAgrees(db, i, true);
        assert i != id && id in db.records ==> db.records[i].At() != db.records[id].At();
      }
    }
  }
}

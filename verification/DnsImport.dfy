/** Importing a provider's records into the store (internal/service/dns.go, ImportFromDNS). */
module DnsImport {
  import opened Text
  import opened Dns
  import opened DnsLink
  import opened Paging

  /** A record as the provider lists it. */
  datatype Listed = Listed(name: string, rtype: string, value: string, ttl: int)

  datatype RowFaults = RowFaults(lookupOk: bool, storeOk: bool)

  /** The zone imported into, all devices in the order of the query unless it failed, and the reverse-name
      conversion. */
  datatype Env = Env(zoneId: string, zone: Zone, devices: Option<seq<Device>>, ptrToIP: string -> string)

  datatype RowResult = Imported(linked: bool) | Skipped | RowFailed

  function KeyOf(env: Env, e: Listed): Key { Key(env.zoneId, e.name, e.rtype) }

  function MaybeLinked(env: Env, rec: Record): Record {
    if env.devices.Some? && rec.device.None?
    then Linked(rec, env.zone.name, FirstPage(env.devices.value), env.ptrToIP) else rec
  }

  function Refreshed(env: Env, rec: Record, e: Listed): Record {
    MaybeLinked(env, rec.(value := e.value, ttl := if e.ttl > 0 then e.ttl else rec.ttl, status := Synced))
  }

  function NewRow(env: Env, e: Listed): Record {
    MaybeLinked(env,
      Record(env.zoneId, e.name, e.rtype, e.value, if e.ttl == 0 then env.zone.ttl else e.ttl, None, None, Synced))
  }

  /** One turn of the import loop. */
  ghost function ImportRow(env: Env, records: Records, e: Listed, newId: string, f: RowFaults): (Records, RowResult) {
    var existing := Lookup(records, KeyOf(env, e));
    if env.zoneId == "" || e.name == "" || !f.lookupOk then (records, RowFailed)
    else if existing.Some? then
      if records[existing.value].value == e.value then (records, Skipped)
      else
        var rec := Refreshed(env, records[existing.value], e);
        if UpdateAccepted(records, existing.value, rec, f.storeOk)
        then (records[existing.value := rec], Imported(rec.device.Some?)) else (records, RowFailed)
    else
      var rec := NewRow(env, e);
      if CreateAccepted(records, newId, rec, f.storeOk)
      then (records[newId := rec], Imported(rec.device.Some?)) else (records, RowFailed)
  }

  /** The names of generated ids and the faults, by position in the listing. */
  datatype Script = Script(newId: nat -> string, faults: nat -> RowFaults)

  ghost function ImportRows(env: Env, records: Records, listing: seq<Listed>, s: Script): (Records, seq<RowResult>) {
    if listing == [] then (records, [])
    else
      var n := |listing| - 1;
      var (before, results) := ImportRows(env, records, listing[..n], s);
      var (after, result) := ImportRow(env, before, listing[n], s.newId(n), s.faults(n));
      (after, results + [result])
  }

  /** Only the first page of devices is consulted: the import misses the link that all devices would give exactly
      when no device of that page answers to the record but a later one does. */
  lemma ImportMissesLinkExactly(env: Env, rec: Record)
    requires env.devices.Some? && rec.device.None?
    ensures var all := env.devices.value;
      MaybeLinked(env, rec) == Linked(rec, env.zone.name, all, env.ptrToIP) <==>
      !((forall d :: d in FirstPage(all) ==> !Answers(d, rec, env.zone.name)) &&
        (exists d :: d in all[|FirstPage(all)|..] && Answers(d, rec, env.zone.name)))
  {
    hide Answers, Linked;
    var all := env.devices.value;
    assert FirstPage(all) == all[..|FirstPage(all)|];
    LinkMissedExactly(rec, env.zone.name, all, |FirstPage(all)|, env.ptrToIP);
  }

  // ----- counters -----

  predicate WasImported(r: RowResult) { r.Imported? }

  predicate WasLinked(r: RowResult) { r.Imported? && r.linked }

  predicate WasSkipped(r: RowResult) { r.Skipped? }

  predicate HasFailed(r: RowResult) { r.RowFailed? }

  function Count(results: seq<RowResult>, p: RowResult -> bool): nat {
    if results == [] then 0 else Count(results[..|results| - 1], p) + if p(results[|results| - 1]) then 1 else 0
  }

  /** The names of the listed records with a given result, in order. */
  function NamesOf(listing: seq<Listed>, results: seq<RowResult>, r: RowResult): (names: seq<string>)
    requires |listing| == |results|
  {
    if results == [] then []
    else
      var n := |results| - 1;
      NamesOf(listing[..n], results[..n], r) + if results[n] == r then [listing[n].name] else []
  }

  datatype ImportResult = ImportResult(
    success: bool, total: nat, imported: nat, linked: nat, skipped: nat, failed: nat,
    skippedIds: seq<string>, failedIds: seq<string>)

  ghost predicate ResultMatches(r: ImportResult, listing: seq<Listed>, results: seq<RowResult>) {
    && |listing| == |results| && r.total == |listing|
    && r.imported == Count(results, WasImported)
    && r.linked == Count(results, WasLinked)
    && r.skipped == Count(results, WasSkipped)
    && r.failed == Count(results, HasFailed)
    && r.skippedIds == NamesOf(listing, results, Skipped) && r.failedIds == NamesOf(listing, results, RowFailed)
    && r.success == (r.failed == 0)
  }

  /** One more turn of the loop. */
  lemma OneMoreRow(env: Env, records: Records, listing: seq<Listed>, s: Script, i: nat)
    requires i < |listing|
    ensures var (before, results) := ImportRows(env, records, listing[..i], s);
      var (after, r) := ImportRow(env, before, listing[i], s.newId(i), s.faults(i));
      ImportRows(env, records, listing[..i + 1], s) == (after, results + [r])
  {
    hide ImportRow;
    assert listing[..i + 1][..i] == listing[..i];
  }

  /** The counters after one more result. */
  function Counted(c: ImportResult, name: string, r: RowResult): ImportResult {
    match r
    case Imported(linked) => c.(imported := c.imported + 1, linked := c.linked + if linked then 1 else 0)
    case Skipped => c.(skipped := c.skipped + 1, skippedIds := c.skippedIds + [name])
    case RowFailed => c.(failed := c.failed + 1, failedIds := c.failedIds + [name])
  }

  lemma CountStep(results: seq<RowResult>, r: RowResult, p: RowResult -> bool)
    ensures Count(results + [r], p) == Count(results, p) + if p(r) then 1 else 0
  {
    assert (results + [r])[..|results|] == results;
  }

  lemma NamesStep(listing: seq<Listed>, i: nat, results: seq<RowResult>, r: RowResult, wanted: RowResult)
    requires i < |listing| && |results| == i
    ensures NamesOf(listing[..i + 1], results + [r], wanted) ==
            NamesOf(listing[..i], results, wanted) + if r == wanted then [listing[i].name] else []
  {
    assert listing[..i + 1][..i] == listing[..i] && (results + [r])[..i] == results;
  }

  lemma OneMoreCounted(listing: seq<Listed>, i: nat, c: ImportResult, results: seq<RowResult>, r: RowResult)
    requires i < |listing| && ResultMatches(c.(total := i, success := c.failed == 0), listing[..i], results)
    ensures var c' := Counted(c, listing[i].name, r);
      ResultMatches(c'.(total := i + 1, success := c'.failed == 0), listing[..i + 1], results + [r])
  {
    hide Count, NamesOf;
    CountStep(results, r, WasImported);
    CountStep(results, r, WasLinked);
    CountStep(results, r, WasSkipped);
    CountStep(results, r, HasFailed);
    NamesStep(listing, i, results, r, Skipped);
    NamesStep(listing, i, results, r, RowFailed);
  }

  lemma {:induction false} CountersAddUp(results: seq<RowResult>)
    ensures |results| == Count(results, WasImported) + Count(results, WasSkipped) + Count(results, HasFailed)
    ensures Count(results, WasLinked) <= Count(results, WasImported)
  {
    if results != [] {
      CountersAddUp(results[..|results| - 1]);
    }
  }

  lemma NothingImported(env: Env, records: Records, s: Script)
    ensures ImportRows(env, records, [], s) == (records, [])
    ensures ResultMatches(ImportResult(true, 0, 0, 0, 0, 0, [], []), [], [])
  {
  }

  lemma TotalsAddUp(r: ImportResult, listing: seq<Listed>, results: seq<RowResult>)
    requires ResultMatches(r, listing, results)
    ensures r.total == |listing| == r.imported + r.skipped + r.failed && r.linked <= r.imported
    ensures |r.skippedIds| == r.skipped && |r.failedIds| == r.failed
  {
    CountersAddUp(results);
    NamesAreCounted(listing, results);
  }

  lemma {:induction false} NamesAreCounted(listing: seq<Listed>, results: seq<RowResult>)
    requires |listing| == |results|
    ensures |NamesOf(listing, results, Skipped)| == Count(results, WasSkipped)
    ensures |NamesOf(listing, results, RowFailed)| == Count(results, HasFailed)
  {
    if results != [] {
      NamesAreCounted(listing[..|results| - 1], results[..|results| - 1]);
    }
  }

  /** The names with a result are those of all the records that had it, in the order of the listing. */
  lemma {:induction false} NamesInOrder(listing: seq<Listed>, results: seq<RowResult>, r: RowResult)
    returns (at: seq<nat>)
    requires |listing| == |results|
    ensures |at| == |NamesOf(listing, results, r)|
    ensures forall i, j :: 0 <= i < j < |at| ==> at[i] < at[j]
    ensures forall i :: 0 <= i < |at| ==>
      at[i] < |listing| && results[at[i]] == r && NamesOf(listing, results, r)[i] == listing[at[i]].name
    ensures forall i: nat :: i < |listing| && results[i] == r ==> i in at
  {
    if results == [] {
      at := [];
    } else {
      var n := |results| - 1;
      at := NamesInOrder(listing[..n], results[..n], r);
      if results[n] == r {
        at := at + [n];
      }
    }
  }

  // ----- what every import keeps -----

  /** Rows stay, under their key; a device link stays; rows with other keys are not touched. */
  ghost predicate Preserves(before: Records, after: Records, touched: set<Key>) {
    && before.Keys <= after.Keys
    && (forall id :: id in before ==> after[id].At() == before[id].At())
    && (forall id :: id in before && before[id].device.Some? ==> after[id].device == before[id].device)
    && (forall id :: id in before && before[id].At() !in touched ==> after[id] == before[id])
  }

  lemma ImportRowKeeps(env: Env, db: Db, e: Listed, newId: string, f: RowFaults, strict: bool)
    requires Unique(db.records)
    requires KeyOf(env, e) in db.remote && db.remote[KeyOf(env, e)].value == e.value
    ensures var records := ImportRow(env, db.records, e, newId, f).0;
      && Unique(records) && Preserves(db.records, records, {KeyOf(env, e)})
      && (Agrees(db, strict) ==> Agrees(db.(records := records), strict))
  {
    ImportRowPreserves(env, db.records, e, newId, f);
    var records := ImportRow(env, db.records, e, newId, f).0;
    LinksOnly(env, e);
    forall id | Agrees(db, strict) && id in records ensures RowAgrees(db.(records := records), id, strict) {
      assert id in db.records ==> RowAgrees(db, id, strict);
    }
  }

  /** Linking never changes what a row says or where it is. */
  lemma LinksOnly(env: Env, e: Listed)
    ensures forall rec: Record :: MaybeLinked(env, rec).At() == rec.At() && MaybeLinked(env, rec).value == rec.value
    ensures forall rec: Record :: rec.device.Some? || env.devices.None? ==> MaybeLinked(env, rec) == rec
  {
  }

  lemma RowReplaced(records: Records, id: string, rec: Record)
    requires Unique(records) && id in records && rec.At() == records[id].At()
    requires records[id].device.Some? ==> rec.device == records[id].device
    ensures Unique(records[id := rec]) && Preserves(records, records[id := rec], {rec.At()})
  {
  }

  lemma RowAdded(records: Records, id: string, rec: Record)
    requires Unique(records) && id !in records && !Taken(records, id, rec.At())
    ensures Unique(records[id := rec]) && Preserves(records, records[id := rec], {rec.At()})
  {
  }

  lemma ImportRowPreserves(env: Env, records: Records, e: Listed, newId: string, f: RowFaults)
    requires Unique(records)
    ensures var records' := ImportRow(env, records, e, newId, f).0;
      Unique(records') && Preserves(records, records', {KeyOf(env, e)})
  {
    LinksOnly(env, e);
    hide MaybeLinked, Lookup, Unique;
    var existing := Lookup(records, KeyOf(env, e));
    if existing.Some? {
      RowReplaced(records, existing.value, Refreshed(env, records[existing.value], e));
    } else if CreateAccepted(records, newId, NewRow(env, e), f.storeOk) {
      RowAdded(records, newId, NewRow(env, e));
    }
  }

  function Keys(env: Env, listing: seq<Listed>): set<Key> { set e | e in listing :: KeyOf(env, e) }

  lemma OneMoreKey(env: Env, listing: seq<Listed>)
    requires listing != []
    ensures Keys(env, listing) == Keys(env, listing[..|listing| - 1]) + {KeyOf(env, listing[|listing| - 1])}
  {
    assert listing == listing[..|listing| - 1] + [listing[|listing| - 1]];
  }

  lemma PreservesTrans(a: Records, b: Records, c: Records, more: set<Key>, key: Key)
    requires Preserves(a, b, more) && Preserves(b, c, {key})
    ensures Preserves(a, c, more + {key})
  {
  }

  /** Whatever is listed and whatever fails: keys stay unique, no row disappears or moves, no
      device link changes, and only rows with a listed key are touched. */
  lemma {:induction false} ImportPreserves(env: Env, records: Records, listing: seq<Listed>, s: Script)
    requires Unique(records)
    ensures var (records', results) := ImportRows(env, records, listing, s);
      Unique(records') && Preserves(records, records', Keys(env, listing)) && |results| == |listing|
  {
    if listing == [] {
      assert Keys(env, listing) == {};
    } else {
      hide ImportRow, Unique, Preserves;
      var n := |listing| - 1;
      var before := ImportRows(env, records, listing[..n], s).0;
      ImportPreserves(env, records, listing[..n], s);
      ImportRowPreserves(env, before, listing[n], s.newId(n), s.faults(n));
      var after := ImportRows(env, records, listing, s).0;
      PreservesTrans(records, before, after, Keys(env, listing[..n]), KeyOf(env, listing[n]));
      OneMoreKey(env, listing);
    }
  }

  /** A listing taken from the provider keeps synced rows in agreement with it. */
  lemma {:induction false} ImportKeeps(env: Env, db: Db, listing: seq<Listed>, s: Script, strict: bool)
    requires Unique(db.records) && Agrees(db, strict)
    requires forall e :: e in listing ==> KeyOf(env, e) in db.remote && db.remote[KeyOf(env, e)].value == e.value
    ensures Unique(ImportRows(env, db.records, listing, s).0)
    ensures Agrees(db.(records := ImportRows(env, db.records, listing, s).0), strict)
  {
    if listing != [] {
      hide ImportRow, Unique, Agrees;
      var n := |listing| - 1;
      ImportKeeps(env, db, listing[..n], s, strict);
      var before := db.(records := ImportRows(env, db.records, listing[..n], s).0);
      assert listing[n] in listing;
      ImportRowKeeps(env, before, listing[n], s.newId(n), s.faults(n), strict);
    }
  }

  // ----- a complete import -----

  ghost predicate Has(records: Records, key: Key, value: string) {
    exists id :: id in records && records[id].At() == key && records[id].value == value
  }

  predicate SameKey(a: Listed, b: Listed) {
    a.name == b.name && a.rtype == b.rtype
  }

  /** Record `i` is the last one listed with its key. */
  ghost predicate LastOfKey(listing: seq<Listed>, i: nat) {
    i < |listing| && forall j :: i < j < |listing| ==> !SameKey(listing[i], listing[j])
  }

  /** No call fails, and generated ids are new. */
  ghost predicate Faultless(env: Env, records: Records, s: Script) {
    && env.zoneId != ""
    && (forall i: nat :: s.faults(i) == RowFaults(true, true) && s.newId(i) !in records)
    && (forall i: nat, j: nat :: i < j ==> s.newId(i) != s.newId(j))
  }

  lemma FaultlessRow(env: Env, records: Records, e: Listed, newId: string)
    requires Unique(records) && env.zoneId != "" && e.name != "" && newId !in records
    ensures var (records', r) := ImportRow(env, records, e, newId, RowFaults(true, true));
      && !r.RowFailed? && Has(records', KeyOf(env, e), e.value)
      && (r.Skipped? ==> records' == records)
      && (forall k, v :: k != KeyOf(env, e) && Has(records, k, v) ==> Has(records', k, v))
      && records'.Keys <= records.Keys + {newId}
  {
    LinksOnly(env, e);
    hide MaybeLinked, Lookup;
    var existing := Lookup(records, KeyOf(env, e));
    var records' := ImportRow(env, records, e, newId, RowFaults(true, true)).0;
    var at := if existing.Some? then existing.value else newId;
    assert at in records' && records'[at].At() == KeyOf(env, e) && records'[at].value == e.value;
    forall k, v | k != KeyOf(env, e) && Has(records, k, v) ensures Has(records', k, v) {
      var id :| id in records && records[id].At() == k && records[id].value == v;
      assert id in records' && records'[id] == records[id];
    }
  }

  /** The store does not look up an empty name. */
  lemma NamelessRow(env: Env, records: Records, e: Listed, newId: string, f: RowFaults)
    requires e.name == ""
    ensures ImportRow(env, records, e, newId, f) == (records, RowFailed)
  {
  }

  /** Every listed record with a name is stored with its value. */
  ghost predicate NamedStored(env: Env, records: Records, listing: seq<Listed>) {
    forall i :: 0 <= i < |listing| && listing[i].name != "" ==> Has(records, KeyOf(env, listing[i]), listing[i].value)
  }

  /** Of the listed records with a name, the last one with each key is stored with its value. */
  ghost predicate LastStored(env: Env, records: Records, listing: seq<Listed>) {
    forall i: nat :: LastOfKey(listing, i) && listing[i].name != "" ==>
      Has(records, KeyOf(env, listing[i]), listing[i].value)
  }

  lemma LastStoredStep(env: Env, before: Records, after: Records, listing: seq<Listed>)
    requires listing != [] && LastStored(env, before, listing[..|listing| - 1])
    requires var e := listing[|listing| - 1];
      && (e.name != "" ==> Has(after, KeyOf(env, e), e.value))
      && (forall k, v :: k != KeyOf(env, e) && Has(before, k, v) ==> Has(after, k, v))
    ensures LastStored(env, after, listing)
  {
    hide Has;
    var n := |listing| - 1;
    forall i: nat | LastOfKey(listing, i) && listing[i].name != ""
      ensures Has(after, KeyOf(env, listing[i]), listing[i].value)
    {
      if i < n {
        assert forall j :: 0 <= j < n ==> listing[..n][j] == listing[j];
        assert LastOfKey(listing[..n], i);
        assert !SameKey(listing[i], listing[n]);
      }
    }
  }

  /** With no failing call, exactly the listed records without a name fail, and for every other key the last value
      listed is stored. */
  lemma {:induction false} ImportIsComplete(env: Env, records: Records, listing: seq<Listed>, s: Script)
    requires Unique(records) && Faultless(env, records, s)
    ensures var (records', results) := ImportRows(env, records, listing, s);
      && LastStored(env, records', listing)
      && |results| == |listing|
      && (forall i :: 0 <= i < |results| ==> (results[i].RowFailed? <==> listing[i].name == ""))
      && (forall m: nat :: m >= |listing| ==> s.newId(m) !in records')
  {
    if listing != [] {
      var n := |listing| - 1;
      var init, e := listing[..n], listing[n];
      ImportIsComplete(env, records, init, s);
      ImportPreserves(env, records, init, s);
      var before := ImportRows(env, records, init, s).0;
      hide ImportRow, Unique, Has, Preserves, LastStored;
      if e.name == "" {
        NamelessRow(env, before, e, s.newId(n), s.faults(n));
      } else {
        FaultlessRow(env, before, e, s.newId(n));
      }
      LastStoredStep(env, before, ImportRows(env, records, listing, s).0, listing);
    }
  }

  // ----- a second import -----

  /** The result of a record that has nothing new. */
  function Quiet(e: Listed): RowResult {
    if e.name == "" then RowFailed else Skipped
  }

  /** Listed records with the same key have the same value. */
  ghost predicate Consistent(listing: seq<Listed>) {
    forall i, j :: 0 <= i < j < |listing| && listing[i].name != "" && SameKey(listing[i], listing[j]) ==>
      listing[i].value == listing[j].value
  }

  /** The last record listed with the key of record `i`. */
  lemma {:induction false} LastWithKey(listing: seq<Listed>, i: nat) returns (j: nat)
    requires i < |listing|
    ensures i <= j && LastOfKey(listing, j) && SameKey(listing[i], listing[j])
    decreases |listing| - i
  {
    j := i;
    if !LastOfKey(listing, i) {
      var k :| i < k < |listing| && SameKey(listing[i], listing[k]);
      j := LastWithKey(listing, k);
    }
  }

  lemma ConsistentIsStored(env: Env, records: Records, listing: seq<Listed>)
    requires Consistent(listing) && LastStored(env, records, listing)
    ensures NamedStored(env, records, listing)
  {
    hide Has;
    forall i | 0 <= i < |listing| && listing[i].name != ""
      ensures Has(records, KeyOf(env, listing[i]), listing[i].value)
    {
      var j := LastWithKey(listing, i);
    }
  }

  lemma StoredIsConsistent(env: Env, records: Records, listing: seq<Listed>)
    requires Unique(records) && NamedStored(env, records, listing)
    ensures Consistent(listing)
  {
    forall i, j | 0 <= i < j < |listing| && listing[i].name != "" && SameKey(listing[i], listing[j])
      ensures listing[i].value == listing[j].value
    {
      assert Has(records, KeyOf(env, listing[i]), listing[i].value);
      assert Has(records, KeyOf(env, listing[j]), listing[j].value);
    }
  }

  lemma SkippedRow(env: Env, records: Records, e: Listed, newId: string, f: RowFaults)
    requires Unique(records) && env.zoneId != "" && f.lookupOk
    requires e.name != "" ==> Has(records, KeyOf(env, e), e.value)
    ensures ImportRow(env, records, e, newId, f) == (records, Quiet(e))
  {
    if e.name != "" {
      var id :| id in records && records[id].At() == KeyOf(env, e) && records[id].value == e.value;
      assert Lookup(records, KeyOf(env, e)) == Some(id);
    }
  }

  lemma QuietRow(env: Env, records: Records, e: Listed, newId: string, f: RowFaults)
    requires ImportRow(env, records, e, newId, f).1 == Quiet(e)
    ensures ImportRow(env, records, e, newId, f).0 == records
    ensures e.name != "" ==> Has(records, KeyOf(env, e), e.value)
  {
  }

  /** When every listed record with a name is already stored with its value, an import skips all of them and
      changes nothing. */
  lemma {:induction false} StoredIsQuiet(env: Env, records: Records, listing: seq<Listed>, s: Script)
    requires Unique(records) && env.zoneId != "" && NamedStored(env, records, listing)
    requires forall i :: 0 <= i < |listing| ==> s.faults(i).lookupOk
    ensures AllQuiet(listing, ImportRows(env, records, listing, s).1)
  {
    hide ImportRow, Has, Unique;
    if listing != [] {
      var n := |listing| - 1;
      assert forall i :: 0 <= i < n ==> listing[..n][i] == listing[i];
      StoredIsQuiet(env, records, listing[..n], s);
      QuietIsStored(env, records, listing[..n], s);
      SkippedRow(env, records, listing[n], s.newId(n), s.faults(n));
    }
  }

  ghost predicate AllQuiet(listing: seq<Listed>, results: seq<RowResult>) {
    |results| == |listing| && forall i :: 0 <= i < |listing| ==> results[i] == Quiet(listing[i])
  }

  /** Conversely, an import that skips every record with a name found them all stored, and changed nothing. */
  lemma {:induction false} QuietIsStored(env: Env, records: Records, listing: seq<Listed>, s: Script)
    requires AllQuiet(listing, ImportRows(env, records, listing, s).1)
    ensures ImportRows(env, records, listing, s).0 == records && NamedStored(env, records, listing)
  {
    if listing != [] {
      hide ImportRow, Has;
      var n := |listing| - 1;
      var (before, results) := ImportRows(env, records, listing[..n], s);
      ResultsFit(env, records, listing[..n], s);
      var all := ImportRows(env, records, listing, s).1;
      assert forall i :: 0 <= i < n ==> listing[..n][i] == listing[i] && all[i] == results[i];
      QuietIsStored(env, records, listing[..n], s);
      QuietRow(env, records, listing[n], s.newId(n), s.faults(n));
    }
  }

  lemma {:induction false} ResultsFit(env: Env, records: Records, listing: seq<Listed>, s: Script)
    ensures |ImportRows(env, records, listing, s).1| == |listing|
  {
    hide ImportRow;
    if listing != [] {
      ResultsFit(env, records, listing[..|listing| - 1], s);
    }
  }

  /** After an import without a failing call, a second one of the same listing skips every record with a name
      exactly when records listed with the same key have the same value; and then it changes nothing. */
  lemma SecondImportIsQuiet(env: Env, records: Records, listing: seq<Listed>, s: Script, again: Script)
    requires Unique(records) && Faultless(env, records, s)
    requires forall i: nat :: again.faults(i).lookupOk
    ensures var first := ImportRows(env, records, listing, s).0;
      var (second, results) := ImportRows(env, first, listing, again);
      && (AllQuiet(listing, results) <==> Consistent(listing))
      && (Consistent(listing) ==> second == first)
  {
    hide ImportRows, Unique, NamedStored, LastStored, Consistent, AllQuiet;
    ImportIsComplete(env, records, listing, s);
    ImportPreserves(env, records, listing, s);
    var first := ImportRows(env, records, listing, s).0;
    if Consistent(listing) {
      ConsistentIsStored(env, first, listing);
      StoredIsQuiet(env, first, listing, again);
      QuietIsStored(env, first, listing, again);
    } else if AllQuiet(listing, ImportRows(env, first, listing, again).1) {
      QuietIsStored(env, first, listing, again);
      StoredIsConsistent(env, first, listing);
    }
  }

  /** Two name servers of one zone: no import of them is ever followed by a quiet one. */
  lemma TwoValuesAreImportedAgain(env: Env, records: Records, s: Script, again: Script)
    requires Unique(records) && Faultless(env, records, s)
    requires forall i: nat :: again.faults(i).lookupOk
    ensures var listing := [Listed("@", "NS", "ns1", 60), Listed("@", "NS", "ns2", 60)];
      !AllQuiet(listing, ImportRows(env, ImportRows(env, records, listing, s).0, listing, again).1)
  {
    hide ImportRows, AllQuiet;
    var listing := [Listed("@", "NS", "ns1", 60), Listed("@", "NS", "ns2", 60)];
    assert "ns1"[2] != "ns2"[2];
    assert SameKey(listing[0], listing[1]) && listing[0].value != listing[1].value;
    SecondImportIsQuiet(env, records, listing, s, again);
  }
}

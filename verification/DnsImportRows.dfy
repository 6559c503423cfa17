/** The rows an import leaves behind, field by field (internal/service/dns.go, ImportFromDNS). */
module DnsImportRows {
  import opened Text
  import opened Dns
  import opened DnsImport

  // ----- one listed record -----

  predicate LooksUp(env: Env, e: Listed, f: RowFaults) {
    env.zoneId != "" && e.name != "" && f.lookupOk
  }

  /** Without a zone, a name or a working lookup a record fails and nothing changes. */
  lemma NotLookedUp(env: Env, records: Records, e: Listed, newId: string, f: RowFaults)
    requires !LooksUp(env, e, f)
    ensures ImportRow(env, records, e, newId, f) == (records, RowFailed)
  {
  }

  /** A record whose key is stored: skipped if the value is the same; else the row becomes synced with the listed
      value, and with the listed TTL if that is positive, unless the store fails. A link is kept. */
  lemma StoredKey(env: Env, records: Records, e: Listed, newId: string, f: RowFaults, id: string)
    requires Unique(records) && LooksUp(env, e, f) && id in records && records[id].At() == KeyOf(env, e)
    ensures var (records', r) := ImportRow(env, records, e, newId, f);
      var was := records[id];
      && (r == Skipped <==> was.value == e.value)
      && (r == RowFailed <==> was.value != e.value && !f.storeOk)
      && (!r.Imported? ==> records' == records)
      && (r.Imported? ==>
            && records'.Keys == records.Keys && (forall i :: i in records && i != id ==> records'[i] == records[i])
            && var row := records'[id];
            && r.linked == row.device.Some?
            && row.At() == was.At() && row.value == e.value && row.status == Synced
            && row.ttl == (if e.ttl > 0 then e.ttl else was.ttl)
            && (was.device.Some? ==> row.device == was.device && row.address == was.address))
  {
    LinksOnly(env, e);
    assert Lookup(records, KeyOf(env, e)) == Some(id);
    var ttl := if e.ttl > 0 then e.ttl else records[id].ttl;
    LinkKeepsRest(env, records[id].(value := e.value, ttl := ttl, status := Synced));
    hide MaybeLinked, Lookup;
  }

  lemma LinkKeepsRest(env: Env, rec: Record)
    ensures var r := MaybeLinked(env, rec); r == rec.(device := r.device, address := r.address)
  {
  }

  /** A record whose key is not stored: a new synced row with the listed value, and the listed TTL or, if that is
      zero, the zone's; unless the store fails. */
  lemma NewKey(env: Env, records: Records, e: Listed, newId: string, f: RowFaults)
    requires LooksUp(env, e, f) && forall id :: id in records ==> records[id].At() != KeyOf(env, e)
    ensures var (records', r) := ImportRow(env, records, e, newId, f);
      && (r.Imported? <==> f.storeOk && newId !in records)
      && (!r.Imported? ==> r == RowFailed && records' == records)
      && (r.Imported? ==>
            && records'.Keys == records.Keys + {newId} && (forall i :: i in records ==> records'[i] == records[i])
            && var row := records'[newId];
            && r.linked == row.device.Some?
            && row.At() == KeyOf(env, e) && row.value == e.value && row.status == Synced
            && row.ttl == (if e.ttl == 0 then env.zone.ttl else e.ttl))
  {
    LinksOnly(env, e);
    var ttl := if e.ttl == 0 then env.zone.ttl else e.ttl;
    LinkKeepsRest(env, Record(env.zoneId, e.name, e.rtype, e.value, ttl, None, None, Synced));
    hide MaybeLinked;
  }

  // ----- whole listings -----

  /** The record was imported under this key. */
  predicate ImportedAs(env: Env, e: Listed, r: RowResult, k: Key) {
    r.Imported? && KeyOf(env, e) == k
  }

  /** The TTL of the first record that was imported under a key. */
  function FirstTtl(env: Env, listing: seq<Listed>, results: seq<RowResult>, k: Key): Option<int>
    requires |listing| == |results|
  {
    if listing == [] then None
    else
      var n := |listing| - 1;
      var earlier := FirstTtl(env, listing[..n], results[..n], k);
      if earlier.Some? then earlier
      else if ImportedAs(env, listing[n], results[n], k) then Some(listing[n].ttl) else None
  }

  /** The last positive TTL that was imported under a key. */
  function LastTtl(env: Env, listing: seq<Listed>, results: seq<RowResult>, k: Key): Option<int>
    requires |listing| == |results|
  {
    if listing == [] then None
    else
      var n := |listing| - 1;
      if ImportedAs(env, listing[n], results[n], k) && listing[n].ttl > 0 then Some(listing[n].ttl)
      else LastTtl(env, listing[..n], results[..n], k)
  }

  /** Whether the last record that was imported under a key counted as linked. */
  function LastLinked(env: Env, listing: seq<Listed>, results: seq<RowResult>, k: Key): Option<bool>
    requires |listing| == |results|
  {
    if listing == [] then None
    else
      var n := |listing| - 1;
      if ImportedAs(env, listing[n], results[n], k) then Some(results[n].linked)
      else LastLinked(env, listing[..n], results[..n], k)
  }

  /** The TTL a row ends up with: the last positive one imported under its key; without one, its own if it was there
      before, and else the first one imported or, if that is zero, the zone's. */
  function TtlAfter(env: Env, own: Option<int>, listing: seq<Listed>, results: seq<RowResult>, k: Key): Option<int>
    requires |listing| == |results|
  {
    var last, first := LastTtl(env, listing, results, k), FirstTtl(env, listing, results, k);
    if last.Some? then last
    else if own.Some? then own
    else if first == Some(0) then Some(env.zone.ttl) else first
  }

  function Own(before: Records, id: string): Option<int> {
    if id in before then Some(before[id].ttl) else None
  }

  /** What is known of one row after an import. */
  ghost predicate RowExplained(env: Env, before: Records, listing: seq<Listed>, results: seq<RowResult>,
                               id: string, row: Record)
    requires |listing| == |results|
  {
    && (id in before || FirstTtl(env, listing, results, row.At()).Some?)
    && Some(row.ttl) == TtlAfter(env, Own(before, id), listing, results, row.At())
    && match LastLinked(env, listing, results, row.At())
       case Some(linked) => row.status == Synced && linked == row.device.Some?
       case None => id in before && row == before[id]
  }

  ghost predicate KeyStored(records: Records, k: Key) {
    exists id :: id in records && records[id].At() == k
  }

  ghost predicate Explained(env: Env, before: Records, listing: seq<Listed>, results: seq<RowResult>, after: Records) {
    && |listing| == |results|
    && (forall id :: id in after ==> RowExplained(env, before, listing, results, id, after[id]))
    && (forall k :: FirstTtl(env, listing, results, k).Some? ==> KeyStored(after, k))
  }

  /** First, last and last positive exist together, as far as they can. */
  lemma {:induction false} OneForAll(env: Env, listing: seq<Listed>, results: seq<RowResult>, k: Key)
    requires |listing| == |results|
    ensures LastTtl(env, listing, results, k).Some? ==> FirstTtl(env, listing, results, k).Some?
    ensures LastLinked(env, listing, results, k).Some? <==> FirstTtl(env, listing, results, k).Some?
  {
    hide ImportedAs;
    if listing != [] {
      OneForAll(env, listing[..|listing| - 1], results[..|listing| - 1], k);
    }
  }

  /** A record that was not imported under a key changes nothing for that key. */
  lemma KeyNotImported(env: Env, listing: seq<Listed>, results: seq<RowResult>, k: Key)
    requires |listing| == |results| && listing != []
    requires !ImportedAs(env, listing[|listing| - 1], results[|listing| - 1], k)
    ensures var n := |listing| - 1;
      && FirstTtl(env, listing, results, k) == FirstTtl(env, listing[..n], results[..n], k)
      && LastTtl(env, listing, results, k) == LastTtl(env, listing[..n], results[..n], k)
      && LastLinked(env, listing, results, k) == LastLinked(env, listing[..n], results[..n], k)
  {
    hide ImportedAs;
  }

  lemma OtherRowStays(env: Env, before: Records, listing: seq<Listed>, results: seq<RowResult>, id: string, row: Record)
    requires |listing| == |results| && listing != []
    requires !ImportedAs(env, listing[|listing| - 1], results[|listing| - 1], row.At())
    requires RowExplained(env, before, listing[..|listing| - 1], results[..|listing| - 1], id, row)
    ensures RowExplained(env, before, listing, results, id, row)
  {
    hide ImportedAs, FirstTtl, LastTtl, LastLinked;
    KeyNotImported(env, listing, results, row.At());
  }

  lemma RefreshedRowExplained(env: Env, before: Records, listing: seq<Listed>, results: seq<RowResult>,
                              id: string, was: Record, row: Record)
    requires |listing| == |results| && listing != []
    requires var e, r := listing[|listing| - 1], results[|listing| - 1];
      && ImportedAs(env, e, r, row.At()) && row.At() == was.At() && row.status == Synced
      && row.ttl == (if e.ttl > 0 then e.ttl else was.ttl) && r.linked == row.device.Some?
    requires RowExplained(env, before, listing[..|listing| - 1], results[..|listing| - 1], id, was)
    ensures RowExplained(env, before, listing, results, id, row)
  {
    hide ImportedAs;
    OneForAll(env, listing[..|listing| - 1], results[..|listing| - 1], row.At());
  }

  lemma NewRowExplained(env: Env, before: Records, listing: seq<Listed>, results: seq<RowResult>,
                        id: string, row: Record)
    requires |listing| == |results| && listing != [] && id !in before
    requires var e, r := listing[|listing| - 1], results[|listing| - 1];
      && ImportedAs(env, e, r, row.At()) && row.status == Synced && r.linked == row.device.Some?
      && row.ttl == (if e.ttl == 0 then env.zone.ttl else e.ttl)
    requires FirstTtl(env, listing[..|listing| - 1], results[..|listing| - 1], row.At()).None?
    ensures RowExplained(env, before, listing, results, id, row)
  {
    hide ImportedAs;
    OneForAll(env, listing[..|listing| - 1], results[..|listing| - 1], row.At());
  }

  /** What one turn of the loop did: nothing, or it wrote the row `at`. */
  ghost predicate Wrote(env: Env, mid: Records, after: Records, e: Listed, r: RowResult, at: string) {
    if !r.Imported? then after == mid
    else
      && after.Keys == mid.Keys + {at} && (forall i :: i in mid && i != at ==> after[i] == mid[i])
      && var row := after[at];
      && row.At() == KeyOf(env, e) && row.status == Synced && r.linked == row.device.Some?
      && if at in mid then row.At() == mid[at].At() && row.ttl == (if e.ttl > 0 then e.ttl else mid[at].ttl)
         else row.ttl == (if e.ttl == 0 then env.zone.ttl else e.ttl) && !KeyStored(mid, KeyOf(env, e))
  }

  lemma TurnWrites(env: Env, mid: Records, e: Listed, newId: string, f: RowFaults) returns (at: string)
    requires Unique(mid)
    ensures var (after, r) := ImportRow(env, mid, e, newId, f); Wrote(env, mid, after, e, r, at)
  {
    at := newId;
    if !LooksUp(env, e, f) {
      NotLookedUp(env, mid, e, newId, f);
    } else if id :| id in mid && mid[id].At() == KeyOf(env, e) {
      StoredKey(env, mid, e, newId, f, id);
      at := id;
    } else {
      NewKey(env, mid, e, newId, f);
    }
    hide ImportRow, Unique;
  }

  lemma RowsExplainedStep(env: Env, before: Records, listing: seq<Listed>, results: seq<RowResult>,
                          mid: Records, after: Records, at: string)
    requires |listing| == |results| && listing != [] && Unique(mid) && before.Keys <= mid.Keys
    requires Explained(env, before, listing[..|listing| - 1], results[..|listing| - 1], mid)
    requires Wrote(env, mid, after, listing[|listing| - 1], results[|listing| - 1], at)
    ensures forall id :: id in after ==> RowExplained(env, before, listing, results, id, after[id])
  {
    hide RowExplained, FirstTtl;
    var e, r := listing[|listing| - 1], results[|listing| - 1];
    forall id | id in after ensures RowExplained(env, before, listing, results, id, after[id]) {
      if r.Imported? && id == at {
        if at in mid {
          RefreshedRowExplained(env, before, listing, results, id, mid[id], after[id]);
        } else {
          NewRowExplained(env, before, listing, results, id, after[id]);
        }
      } else {
        assert r.Imported? && at in mid ==> mid[id].At() != mid[at].At();
        OtherRowStays(env, before, listing, results, id, after[id]);
      }
    }
  }

  lemma KeysStoredStep(env: Env, listing: seq<Listed>, results: seq<RowResult>,
                       mid: Records, after: Records, at: string, k: Key)
    requires |listing| == |results| && listing != []
    requires FirstTtl(env, listing[..|listing| - 1], results[..|listing| - 1], k).Some? ==> KeyStored(mid, k)
    requires Wrote(env, mid, after, listing[|listing| - 1], results[|listing| - 1], at)
    requires FirstTtl(env, listing, results, k).Some?
    ensures KeyStored(after, k)
  {
    hide FirstTtl;
    if ImportedAs(env, listing[|listing| - 1], results[|listing| - 1], k) {
      assert after[at].At() == k;
    } else {
      KeyNotImported(env, listing, results, k);
      var id :| id in mid && mid[id].At() == k;
      assert after[id].At() == k;
    }
  }

  /** One more listed record. */
  lemma ExplainedStep(env: Env, before: Records, listing: seq<Listed>, results: seq<RowResult>,
                      mid: Records, newId: string, f: RowFaults)
    requires |listing| == |results| && listing != [] && Unique(mid) && before.Keys <= mid.Keys
    requires Explained(env, before, listing[..|listing| - 1], results[..|listing| - 1], mid)
    requires results[|listing| - 1] == ImportRow(env, mid, listing[|listing| - 1], newId, f).1
    ensures Explained(env, before, listing, results, ImportRow(env, mid, listing[|listing| - 1], newId, f).0)
  {
    hide ImportRow, RowExplained, FirstTtl, Wrote, KeyStored, Unique;
    var at := TurnWrites(env, mid, listing[|listing| - 1], newId, f);
    var after := ImportRow(env, mid, listing[|listing| - 1], newId, f).0;
    RowsExplainedStep(env, before, listing, results, mid, after, at);
    forall k | FirstTtl(env, listing, results, k).Some? ensures KeyStored(after, k) {
      KeysStoredStep(env, listing, results, mid, after, at, k);
    }
  }

  /** Whatever is listed and whatever fails: a row is synced if any record was imported under its key, and is as it
      was before otherwise; its TTL is the one the imported records give it; and the last of these counted as
      linked exactly when the row has a device. */
  lemma {:induction false} ImportExplained(env: Env, records: Records, listing: seq<Listed>, s: Script)
    requires Unique(records)
    ensures var (after, results) := ImportRows(env, records, listing, s);
      Explained(env, records, listing, results, after)
  {
    if listing == [] {
      hide ImportedAs;
    } else {
      hide ImportRow, Explained, Unique, Preserves;
      var n := |listing| - 1;
      var (mid, results) := ImportRows(env, records, listing[..n], s);
      ImportExplained(env, records, listing[..n], s);
      ImportPreserves(env, records, listing[..n], s);
      KeysStay(records, mid, Keys(env, listing[..n]));
      var all := ImportRows(env, records, listing, s).1;
      assert all[..n] == results;
      ExplainedStep(env, records, listing, all, mid, s.newId(n), s.faults(n));
    }
  }

  lemma KeysStay(before: Records, after: Records, touched: set<Key>)
    requires Preserves(before, after, touched)
    ensures before.Keys <= after.Keys
  {
  }
}

/** Device export to CSV rows (internal/export/export.go) and import from them (internal/importdata/import.go).
    Rows are lists of cells; quoting them is left to the CSV library on both sides. */
module DeviceCsv {
  import opened Text

  const COLUMNS := ["id", "name", "hostname", "description", "make_model", "os", "datacenter_id", "username",
                    "location", "addresses", "tags", "domains", "created_at", "updated_at"]

  datatype Address = Address(id: string, ip: string, port: Option<int>, kind: string, title: string, network: string,
                             switchPort: string, pool: string)

  /** An instant: its RFC 3339 text, empty for an unset one, and the fraction of a second that text does not show. */
  datatype Time = Time(text: string, nanos: nat)

  datatype CustomField = CustomField(field: string, value: string)

  datatype Device = Device(id: string, name: string, hostname: string, description: string, makeModel: string,
                           os: string, datacenter: string, username: string, location: string,
                           status: string, decommissioned: Option<Time>, statusChanged: Option<Time>,
                           statusChangedBy: string, tags: seq<string>, addresses: seq<Address>,
                           domains: seq<string>, customFields: seq<CustomField>, created: Time, updated: Time)

  /** An address with nothing but a network id and an IP. */
  function PlainAddress(network: string, ip: string): Address {
    Address("", ip, None, "", "", network, "", "")
  }

  // ----- addresses and lists in one cell -----

  function AddressText(a: Address): string {
    a.network + ":" + a.ip
  }

  function AddressTexts(addresses: seq<Address>): (parts: seq<string>)
    ensures |parts| == |addresses|
    ensures forall i :: 0 <= i < |parts| ==> parts[i] == AddressText(addresses[i])
  {
    seq(|addresses|, i requires 0 <= i < |addresses| => AddressText(addresses[i]))
  }

  method JoinAddresses(addresses: seq<Address>) returns (s: string)
    ensures s == Join(AddressTexts(addresses), ';')
  {
    var parts := [];
    for i := 0 to |addresses|
      invariant parts == AddressTexts(addresses[..i])
    {
      parts := parts + [AddressText(addresses[i])];
    }
    assert addresses[..|addresses|] == addresses;
    return Join(parts, ';');
  }

  /** Position of the first `c`, or -1. */
  function Index(s: string, c: char): (i: int)
    ensures i == -1 <==> c !in s
    ensures i != -1 ==> 0 <= i < |s| && s[i] == c && c !in s[..i]
  {
    if s == "" then -1
    else if s[0] == c then 0
    else
      var i := Index(s[1..], c);
      if i == -1 then
        assert s == [s[0]] + s[1..];
        -1
      else
        assert s[..i + 1] == [s[0]] + s[1..][..i];
        i + 1
  }

  /** The address in one part, if it has a network id followed by a colon. */
  function PartAddress(part: string): seq<Address> {
    var i := Index(part, ':');
    if i > 0 then [PlainAddress(part[..i], part[i + 1..])] else []
  }

  function PartAddresses(parts: seq<string>): seq<Address> {
    if parts == [] then [] else PartAddress(parts[0]) + PartAddresses(parts[1..])
  }

  method ParseAddresses(s: string) returns (addresses: seq<Address>)
    ensures addresses == PartAddresses(Split(s, ';'))
  {
    hide PartAddresses, Join;
    addresses := [];
    var parts := Split(s, ';');
    var k := 0;
    assert parts[0..] == parts;
    while k < |parts|
      invariant 0 <= k <= |parts|
      invariant addresses + PartAddresses(parts[k..]) == PartAddresses(parts)
    {
      var part := parts[k];
      NextPart(addresses, parts, k);
      k := k + 1;
      if part == "" { continue; }
      var i := Index(part, ':');
      if i > 0 {
        addresses := addresses + [PlainAddress(part[..i], part[i + 1..])];
      }
    }
    NoParts(parts[k..]);
  }

  lemma NoParts(parts: seq<string>)
    requires parts == []
    ensures PartAddresses(parts) == []
  {
  }

  lemma NextPart(addresses: seq<Address>, parts: seq<string>, k: nat)
    requires k < |parts|
    ensures addresses + PartAddresses(parts[k..]) ==
            (addresses + PartAddress(parts[k])) + PartAddresses(parts[k + 1..])
  {
    hide PartAddress;
    assert parts[k..][1..] == parts[k + 1..];
  }

  /** What the import makes of the addresses cell. */
  function CellAddresses(s: string): seq<Address> {
    if s == "" then [] else PartAddresses(Split(s, ';'))
  }

  /** What the import makes of the tags or the domains cell. */
  function CellList(s: string): seq<string> {
    if s == "" then [] else Split(s, ';')
  }

  // ----- rows -----

  function Row(d: Device): (row: seq<string>)
    ensures |row| == |COLUMNS|
  {
    [d.id, d.name, d.hostname, d.description, d.makeModel, d.os, d.datacenter, d.username, d.location,
     Join(AddressTexts(d.addresses), ';'), Join(d.tags, ';'), Join(d.domains, ';'), d.created.text, d.updated.text]
  }

  function Rows(devices: seq<Device>): (rows: seq<seq<string>>)
    ensures |rows| == |devices|
    ensures forall i :: 0 <= i < |rows| ==> rows[i] == Row(devices[i])
  {
    seq(|devices|, i requires 0 <= i < |devices| => Row(devices[i]))
  }

  /** The header and then one row for each device. */
  method ExportDevicesCSV(devices: seq<Device>) returns (written: seq<seq<string>>)
    ensures written == [COLUMNS] + Rows(devices)
  {
    written := [COLUMNS];
    for i := 0 to |devices|
      invariant written == [COLUMNS] + Rows(devices[..i])
    {
      var d := devices[i];
      var addresses := JoinAddresses(d.addresses);
      var row := [d.id, d.name, d.hostname, d.description, d.makeModel, d.os, d.datacenter, d.username, d.location,
                  addresses, Join(d.tags, ';'), Join(d.domains, ';'), d.created.text, d.updated.text];
      assert row == Row(d);
      hide Row;
      assert Rows(devices[..i + 1]) == Rows(devices[..i]) + [row];
      written := written + [row];
    }
    assert devices[..|devices|] == devices;
  }

  /** Position of the last column with this name, or -1. */
  function LastColumn(header: seq<string>, name: string): (i: int)
    ensures -1 <= i < |header|
    ensures i == -1 <==> name !in header
    ensures i >= 0 ==> header[i] == name && name !in header[i + 1..]
  {
    if header == [] then -1
    else
      var n := |header| - 1;
      if header[n] == name then n
      else
        var i := LastColumn(header[..n], name);
        assert header == header[..n] + [header[n]];
        assert i >= 0 ==> header[i + 1..] == header[..n][i + 1..] + [header[n]];
        i
  }

  function Field(header: seq<string>, record: seq<string>, name: string): string {
    var i := LastColumn(header, name);
    if 0 <= i < |record| then record[i] else ""
  }

  function Imported(header: seq<string>, record: seq<string>): Device {
    Device(Field(header, record, "id"), Field(header, record, "name"), Field(header, record, "hostname"),
           Field(header, record, "description"), Field(header, record, "make_model"), Field(header, record, "os"),
           Field(header, record, "datacenter_id"), Field(header, record, "username"),
           Field(header, record, "location"), "", None, None, "", CellList(Field(header, record, "tags")),
           CellAddresses(Field(header, record, "addresses")), CellList(Field(header, record, "domains")), [],
           Time(Field(header, record, "created_at"), 0), Time(Field(header, record, "updated_at"), 0))
  }

  ghost predicate Maps(m: map<string, nat>, header: seq<string>) {
    && (forall c :: c in m <==> c in header)
    && (forall c :: c in m ==> m[c] == LastColumn(header, c))
  }

  method MapHeader(header: seq<string>) returns (m: map<string, nat>)
    ensures Maps(m, header)
  {
    m := map[];
    for i := 0 to |header|
      invariant Maps(m, header[..i])
    {
      assert header[..i + 1] == header[..i] + [header[i]];
      m := m[header[i] := i];
    }
    assert header[..|header|] == header;
  }

  method GetField(record: seq<string>, m: map<string, nat>, name: string, ghost header: seq<string>)
    returns (s: string)
    requires Maps(m, header)
    ensures s == Field(header, record, name)
  {
    if name in m && m[name] < |record| { return record[m[name]]; }
    return "";
  }

  method ImportRow(record: seq<string>, m: map<string, nat>, ghost header: seq<string>) returns (d: Device)
    requires Maps(m, header)
    ensures d == Imported(header, record)
  {
    hide Maps, Field;
    var id := GetField(record, m, "id", header);
    var name := GetField(record, m, "name", header);
    var hostname := GetField(record, m, "hostname", header);
    var description := GetField(record, m, "description", header);
    var makeModel := GetField(record, m, "make_model", header);
    var os := GetField(record, m, "os", header);
    var datacenter := GetField(record, m, "datacenter_id", header);
    var username := GetField(record, m, "username", header);
    var location := GetField(record, m, "location", header);
    var addressText := GetField(record, m, "addresses", header);
    var addresses: seq<Address> := [];
    if addressText != "" { addresses := ParseAddresses(addressText); }
    var tagText := GetField(record, m, "tags", header);
    var tags: seq<string> := [];
    if tagText != "" { tags := Split(tagText, ';'); }
    var domainText := GetField(record, m, "domains", header);
    var domains: seq<string> := [];
    if domainText != "" { domains := Split(domainText, ';'); }
    var created := GetField(record, m, "created_at", header);
    var updated := GetField(record, m, "updated_at", header);
    d := Device(id, name, hostname, description, makeModel, os, datacenter, username, location, "", None, None, "",
                tags, addresses, domains, [], Time(created, 0), Time(updated, 0));
  }

  function ImportedAll(header: seq<string>, records: seq<seq<string>>): (devices: seq<Device>)
    ensures |devices| == |records|
    ensures forall i :: 0 <= i < |records| ==> devices[i] == Imported(header, records[i])
  {
    seq(|records|, i requires 0 <= i < |records| => Imported(header, records[i]))
  }

  method ImportDevicesCSV(header: seq<string>, records: seq<seq<string>>) returns (devices: seq<Device>)
    ensures devices == ImportedAll(header, records)
  {
    hide Imported, Maps;
    var m := MapHeader(header);
    devices := [];
    for i := 0 to |records|
      invariant devices == ImportedAll(header, records[..i])
    {
      var d := ImportRow(records[i], m, header);
      assert ImportedAll(header, records[..i + 1]) == ImportedAll(header, records[..i]) + [d];
      devices := devices + [d];
    }
    assert records[..|records|] == records;
  }

  // ----- what one cell restores -----

  predicate CleanAddress(a: Address) {
    a == PlainAddress(a.network, a.ip) && a.network != "" && ':' !in a.network && ';' !in a.network && ';' !in a.ip
  }

  predicate CleanAddresses(addresses: seq<Address>) {
    forall i :: 0 <= i < |addresses| ==> CleanAddress(addresses[i])
  }

  predicate CleanList(items: seq<string>) {
    items != [""] && forall i :: 0 <= i < |items| ==> ';' !in items[i]
  }

  lemma PartOfAddress(a: Address)
    requires CleanAddress(a)
    ensures PartAddress(AddressText(a)) == [a] && ';' !in AddressText(a)
  {
    var part := AddressText(a);
    var n := |a.network|;
    assert part[n] == ':' && part[..n] == a.network && part[n + 1..] == a.ip;
  }

  lemma {:induction false} PartsOfAddresses(addresses: seq<Address>)
    requires CleanAddresses(addresses)
    ensures PartAddresses(AddressTexts(addresses)) == addresses
    ensures forall i :: 0 <= i < |addresses| ==> ';' !in AddressTexts(addresses)[i]
  {
    hide AddressText, PartAddress;
    if addresses != [] {
      PartOfAddress(addresses[0]);
      PartsOfAddresses(addresses[1..]);
      assert AddressTexts(addresses) == [AddressText(addresses[0])] + AddressTexts(addresses[1..]);
      assert AddressTexts(addresses)[1..] == AddressTexts(addresses[1..]);
    }
  }

  lemma {:induction false} PartsAreClean(parts: seq<string>)
    requires forall i :: 0 <= i < |parts| ==> ';' !in parts[i]
    ensures CleanAddresses(PartAddresses(parts))
  {
    if parts != [] {
      PartsAreClean(parts[1..]);
      assert ';' !in parts[0];
    }
  }

  /** The addresses cell restores a list exactly when every address has nothing but a network id and an IP, the id
      non-empty and free of ':' and ';' and the IP free of ';'. */
  lemma AddressesRestored(addresses: seq<Address>)
    ensures CellAddresses(Join(AddressTexts(addresses), ';')) == addresses <==> CleanAddresses(addresses)
  {
    var text := Join(AddressTexts(addresses), ';');
    PartsAreClean(Split(text, ';'));
    if CleanAddresses(addresses) && addresses != [] {
      PartsOfAddresses(addresses);
      SplitJoin(AddressTexts(addresses), ';');
      assert AddressTexts(addresses)[0] != "";
    }
  }

  /** The tags or domains cell restores a list exactly when no item has a ';' and it is not one empty item. */
  lemma ListRestored(items: seq<string>)
    ensures CellList(Join(items, ';')) == items <==> CleanList(items)
  {
    if CleanList(items) && items != [] {
      SplitJoin(items, ';');
    }
  }

  // ----- what a row restores -----

  predicate Distinct(header: seq<string>) {
    forall i, j :: 0 <= i < j < |header| ==> header[i] != header[j]
  }

  lemma FieldAt(header: seq<string>, record: seq<string>, k: nat)
    requires Distinct(header) && k < |header| && k < |record|
    ensures Field(header, record, header[k]) == record[k]
  {
    var i := LastColumn(header, header[k]);
  }

  lemma ColumnsDistinct()
    ensures Distinct(COLUMNS)
  {
    assert |COLUMNS[0]| == 2 && |COLUMNS[5]| == 2 && COLUMNS[0][0] == 'i' && COLUMNS[5][0] == 'o';
    assert |COLUMNS[1]| == 4 && |COLUMNS[10]| == 4 && COLUMNS[1][0] == 'n' && COLUMNS[10][0] == 't';
    assert |COLUMNS[2]| == 8 && |COLUMNS[7]| == 8 && |COLUMNS[8]| == 8;
    assert COLUMNS[2][0] == 'h' && COLUMNS[7][0] == 'u' && COLUMNS[8][0] == 'l';
    assert |COLUMNS[4]| == 10 && |COLUMNS[12]| == 10 && |COLUMNS[13]| == 10;
    assert COLUMNS[4][0] == 'm' && COLUMNS[12][0] == 'c' && COLUMNS[13][0] == 'u';
    assert |COLUMNS[3]| == 11 && |COLUMNS[6]| == 13 && |COLUMNS[9]| == 9 && |COLUMNS[11]| == 7;
  }

  /** The device says nothing that the columns do not show: no status, no custom fields, whole seconds. */
  predicate Shown(d: Device) {
    && d.status == "" && d.decommissioned == None && d.statusChanged == None && d.statusChangedBy == ""
    && d.customFields == [] && d.created.nanos == 0 && d.updated.nanos == 0
  }

  predicate Restorable(d: Device) {
    Shown(d) && CleanAddresses(d.addresses) && CleanList(d.tags) && CleanList(d.domains)
  }

  /** What comes back from a device's own row. */
  function Returned(d: Device): Device {
    d.(addresses := CellAddresses(Join(AddressTexts(d.addresses), ';')),
       tags := CellList(Join(d.tags, ';')), domains := CellList(Join(d.domains, ';')),
       status := "", decommissioned := None, statusChanged := None, statusChangedBy := "", customFields := [],
       created := d.created.(nanos := 0), updated := d.updated.(nanos := 0))
  }

  lemma RowReturns(d: Device)
    ensures Imported(COLUMNS, Row(d)) == Returned(d)
  {
    hide Field, CellAddresses, CellList, AddressTexts, Join;
    ColumnsDistinct();
    forall k: nat | k < |COLUMNS| ensures Field(COLUMNS, Row(d), COLUMNS[k]) == Row(d)[k] {
      FieldAt(COLUMNS, Row(d), k);
    }
    assert COLUMNS[0] == "id" && COLUMNS[1] == "name" && COLUMNS[2] == "hostname" && COLUMNS[3] == "description";
    assert COLUMNS[4] == "make_model" && COLUMNS[5] == "os" && COLUMNS[6] == "datacenter_id";
    assert COLUMNS[7] == "username" && COLUMNS[8] == "location" && COLUMNS[9] == "addresses";
    assert COLUMNS[10] == "tags" && COLUMNS[11] == "domains";
    assert COLUMNS[12] == "created_at" && COLUMNS[13] == "updated_at";
  }

  /** Exporting a device and importing its row gives the device back exactly when it is restorable. */
  lemma RowRoundTrip(d: Device)
    ensures Imported(COLUMNS, Row(d)) == d <==> Restorable(d)
  {
    RowReturns(d);
    hide Imported, Row;
    AddressesRestored(d.addresses);
    ListRestored(d.tags);
    ListRestored(d.domains);
  }

  // ----- the order of the columns -----

  /** A reordering of columns: `order` names each old position exactly once. */
  ghost predicate Reorders(order: seq<nat>, n: nat) {
    && |order| == n
    && (forall i :: 0 <= i < n ==> order[i] < n)
    && (forall i, j :: 0 <= i < j < n ==> order[i] != order[j])
    && (forall k: nat :: k < n ==> k in order)
  }

  function Reordered(cells: seq<string>, order: seq<nat>): (r: seq<string>)
    requires forall i :: 0 <= i < |order| ==> order[i] < |cells|
    ensures |r| == |order| && forall i :: 0 <= i < |r| ==> r[i] == cells[order[i]]
  {
    seq(|order|, i requires 0 <= i < |order| => cells[order[i]])
  }

  lemma FieldIgnoresOrder(header: seq<string>, record: seq<string>, order: seq<nat>, name: string)
    requires Distinct(header) && |record| == |header| && Reorders(order, |header|)
    ensures Field(Reordered(header, order), Reordered(record, order), name) == Field(header, record, name)
  {
    var moved := Reordered(header, order);
    var k := LastColumn(header, name);
    if k >= 0 {
      assert k in order;
      var i: nat :| i < |order| && order[i] == k;
      FieldAt(moved, Reordered(record, order), i);
    }
  }

  lemma ImportIgnoresOrder(header: seq<string>, record: seq<string>, order: seq<nat>)
    requires Distinct(header) && |record| == |header| && Reorders(order, |header|)
    ensures Imported(Reordered(header, order), Reordered(record, order)) == Imported(header, record)
  {
    hide Field, CellAddresses, CellList;
    forall name: string
      ensures Field(Reordered(header, order), Reordered(record, order), name) == Field(header, record, name)
    {
      FieldIgnoresOrder(header, record, order, name);
    }
  }

  function ReorderedAll(rows: seq<seq<string>>, order: seq<nat>): (r: seq<seq<string>>)
    requires forall k, i :: 0 <= k < |rows| && 0 <= i < |order| ==> order[i] < |rows[k]|
    ensures |r| == |rows| && forall k :: 0 <= k < |r| ==> r[k] == Reordered(rows[k], order)
  {
    seq(|rows|, k requires 0 <= k < |rows| => Reordered(rows[k], order))
  }

  /** Whatever order the columns are put in, importing an export restores the devices exactly when every one of
      them is restorable. */
  lemma ExportImportRoundTrip(devices: seq<Device>, order: seq<nat>)
    requires Reorders(order, |COLUMNS|)
    ensures ImportedAll(Reordered(COLUMNS, order), ReorderedAll(Rows(devices), order)) == devices <==>
            forall i :: 0 <= i < |devices| ==> Restorable(devices[i])
  {
    var back := ImportedAll(Reordered(COLUMNS, order), ReorderedAll(Rows(devices), order));
    ColumnsDistinct();
    forall i | 0 <= i < |devices| ensures back[i] == devices[i] <==> Restorable(devices[i]) {
      ImportIgnoresOrder(COLUMNS, Row(devices[i]), order);
      RowRoundTrip(devices[i]);
    }
    hide Restorable, Imported, Row, Rows, ReorderedAll, Reorders;
    if forall i :: 0 <= i < |devices| ==> Restorable(devices[i]) {
      assert back == devices;
    }
  }

  /** So no device that has a status comes back: the import leaves it empty. */
  lemma StatusIsNotRestored(d: Device)
    requires d.status != ""
    ensures Imported(COLUMNS, Row(d)) != d && Imported(COLUMNS, Row(d)).status == ""
  {
    RowRoundTrip(d);
  }
}

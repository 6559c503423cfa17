/** Matching an imported record to a device (internal/service/dns.go, matchDeviceForRecord). */
module DnsLink {
  import opened Text
  import opened Dns

  datatype Address = Address(id: string, ip: string)

  datatype Device = Device(id: string, hostname: string, domains: seq<string>, addresses: seq<Address>)

  /** The first address with this IP. */
  function FirstAddress(addresses: seq<Address>, ip: string): (r: Option<Address>)
    ensures r.Some? <==> exists a :: a in addresses && a.ip == ip
    ensures r.Some? ==> r.value in addresses && r.value.ip == ip
  {
    if addresses == [] then None
    else if addresses[0].ip == ip then Some(addresses[0])
    else
      assert forall a :: a in addresses && a.ip == ip ==> a in addresses[1..];
      FirstAddress(addresses[1..], ip)
  }

  /** Whether a device answers to a record: by address, by domain or by host name. */
  predicate Answers(d: Device, rec: Record, zone: string) {
    match rec.rtype
    case "A" => FirstAddress(d.addresses, rec.value).Some?
    case "AAAA" => FirstAddress(d.addresses, rec.value).Some?
    case "CNAME" => rec.name + "." + zone in d.domains
    case "PTR" => d.hostname != "" && rec.value == d.hostname + "." + zone
    case _ => false
  }

  /** The record linked to that device; `ptrToIP` turns a reverse name into an IP. */
  function LinkTo(d: Device, rec: Record, ptrToIP: string -> string): Record {
    var a :=
      if rec.rtype == "PTR" then FirstAddress(d.addresses, ptrToIP(rec.name))
      else if rec.rtype == "CNAME" then None
      else FirstAddress(d.addresses, rec.value);
    rec.(device := Some(d.id), address := if a.Some? then Some(a.value.id) else rec.address)
  }

  function FirstAnswering(devices: seq<Device>, rec: Record, zone: string): Option<Device> {
    if devices == [] then None
    else if Answers(devices[0], rec, zone) then Some(devices[0])
    else FirstAnswering(devices[1..], rec, zone)
  }

  /** Device `i` answers to the record and no earlier one does. */
  predicate FirstAt(devices: seq<Device>, rec: Record, zone: string, i: nat) {
    i < |devices| && Answers(devices[i], rec, zone) && forall j :: 0 <= j < i ==> !Answers(devices[j], rec, zone)
  }

  lemma {:induction false} AnsweringIsFirst(devices: seq<Device>, rec: Record, zone: string) returns (i: nat)
    ensures FirstAnswering(devices, rec, zone).None? <==> forall d :: d in devices ==> !Answers(d, rec, zone)
    ensures FirstAnswering(devices, rec, zone).Some? ==>
              FirstAt(devices, rec, zone, i) && FirstAnswering(devices, rec, zone) == Some(devices[i])
  {
    i := 0;
    if devices != [] && !Answers(devices[0], rec, zone) {
      hide Answers;
      i := AnsweringIsFirst(devices[1..], rec, zone);
      assert devices == [devices[0]] + devices[1..];
      i := i + 1;
    }
  }

  function Linked(rec: Record, zone: string, devices: seq<Device>, ptrToIP: string -> string): Record {
    var d := FirstAnswering(devices, rec, zone);
    if d.None? then rec else LinkTo(d.value, rec, ptrToIP)
  }

  /** The address that linking to device `d` must set: by the record's value, or by its reverse name. */
  predicate AddressFits(d: Device, rec: Record, ptrToIP: string -> string, address: Option<string>) {
    match rec.rtype
    case "CNAME" => address == rec.address
    case "PTR" => AddressFor(d, ptrToIP(rec.name), rec.address, address)
    case _ => AddressFor(d, rec.value, rec.address, address)
  }

  predicate AddressFor(d: Device, ip: string, was: Option<string>, address: Option<string>) {
    if exists a :: a in d.addresses && a.ip == ip
    then exists a :: a in d.addresses && a.ip == ip && address == Some(a.id)
    else address == was
  }

  /** Matching changes only the links. They are set exactly when some device answers to the record, to the first
      one that does, with the fitting address of that device. */
  lemma LinkedIsSound(rec: Record, zone: string, devices: seq<Device>, ptrToIP: string -> string)
    ensures var r := Linked(rec, zone, devices, ptrToIP);
      && r == rec.(device := r.device, address := r.address)
      && ((forall d :: d in devices ==> !Answers(d, rec, zone)) ==> r == rec)
      && ((exists d :: d in devices && Answers(d, rec, zone)) ==>
            exists i: nat :: FirstAt(devices, rec, zone, i) && r.device == Some(devices[i].id)
                             && AddressFits(devices[i], rec, ptrToIP, r.address))
  {
    var i := AnsweringIsFirst(devices, rec, zone);
    hide Answers;
  }

  // ----- by record type -----

  /** Address `j` of the device is its first one with this IP. */
  predicate FirstWithIp(d: Device, ip: string, j: nat) {
    j < |d.addresses| && d.addresses[j].ip == ip && forall k :: 0 <= k < j ==> d.addresses[k].ip != ip
  }

  predicate HasIp(d: Device, ip: string) {
    exists k :: 0 <= k < |d.addresses| && d.addresses[k].ip == ip
  }

  lemma {:induction false} FirstAddressIs(addresses: seq<Address>, ip: string, j: nat)
    requires j < |addresses| && addresses[j].ip == ip && forall k :: 0 <= k < j ==> addresses[k].ip != ip
    ensures FirstAddress(addresses, ip) == Some(addresses[j])
  {
    if j > 0 {
      assert addresses[0].ip != ip;
      FirstAddressIs(addresses[1..], ip, j - 1);
    }
  }

  lemma NoAddress(addresses: seq<Address>, ip: string)
    requires forall k :: 0 <= k < |addresses| ==> addresses[k].ip != ip
    ensures FirstAddress(addresses, ip) == None
  {
  }

  lemma {:induction false} FirstAnsweringIs(devices: seq<Device>, rec: Record, zone: string, i: nat)
    requires FirstAt(devices, rec, zone, i)
    ensures FirstAnswering(devices, rec, zone) == Some(devices[i])
  {
    hide Answers;
    if i > 0 {
      assert !Answers(devices[0], rec, zone);
      FirstAnsweringIs(devices[1..], rec, zone, i - 1);
    }
  }

  /** An address record is linked to the first device that has its value for an IP, and to that address. */
  lemma LinkByAddress(rec: Record, zone: string, devices: seq<Device>, ptrToIP: string -> string, i: nat, j: nat)
    requires rec.rtype in {"A", "AAAA"}
    requires i < |devices| && FirstWithIp(devices[i], rec.value, j)
    requires forall k :: 0 <= k < i ==> !HasIp(devices[k], rec.value)
    ensures Linked(rec, zone, devices, ptrToIP) ==
            rec.(device := Some(devices[i].id), address := Some(devices[i].addresses[j].id))
  {
    FirstAddressIs(devices[i].addresses, rec.value, j);
    forall k | 0 <= k < i ensures !Answers(devices[k], rec, zone) {
      NoAddress(devices[k].addresses, rec.value);
    }
    FirstAnsweringIs(devices, rec, zone, i);
  }

  /** An alias is linked to the first device that has its full name for a domain; no address is set. */
  lemma LinkByDomain(rec: Record, zone: string, devices: seq<Device>, ptrToIP: string -> string, i: nat)
    requires rec.rtype == "CNAME" && i < |devices| && rec.name + "." + zone in devices[i].domains
    requires forall k :: 0 <= k < i ==> rec.name + "." + zone !in devices[k].domains
    ensures Linked(rec, zone, devices, ptrToIP) == rec.(device := Some(devices[i].id))
  {
    FirstAnsweringIs(devices, rec, zone, i);
  }

  predicate NamesHost(d: Device, value: string, zone: string) {
    d.hostname != "" && value == d.hostname + "." + zone
  }

  /** A reverse record is linked to the first device whose host name in the zone is its value, and to the first
      address of that device that its own name stands for, if there is one. */
  lemma LinkByHostname(rec: Record, zone: string, devices: seq<Device>, ptrToIP: string -> string, i: nat)
    requires rec.rtype == "PTR" && i < |devices| && NamesHost(devices[i], rec.value, zone)
    requires forall k :: 0 <= k < i ==> !NamesHost(devices[k], rec.value, zone)
    ensures Linked(rec, zone, devices, ptrToIP).device == Some(devices[i].id)
    ensures forall j: nat :: FirstWithIp(devices[i], ptrToIP(rec.name), j) ==>
      Linked(rec, zone, devices, ptrToIP).address == Some(devices[i].addresses[j].id)
    ensures !HasIp(devices[i], ptrToIP(rec.name)) ==>
      Linked(rec, zone, devices, ptrToIP) == rec.(device := Some(devices[i].id))
  {
    FirstAnsweringIs(devices, rec, zone, i);
    var ip := ptrToIP(rec.name);
    forall j: nat | FirstWithIp(devices[i], ip, j)
      ensures FirstAddress(devices[i].addresses, ip) == Some(devices[i].addresses[j])
    {
      FirstAddressIs(devices[i].addresses, ip, j);
    }
    if !HasIp(devices[i], ip) {
      NoAddress(devices[i].addresses, ip);
    }
  }

  /** No other record is linked, nor one of these types that no device fits. */
  lemma NotLinked(rec: Record, zone: string, devices: seq<Device>, ptrToIP: string -> string)
    requires rec.rtype in {"A", "AAAA"} ==> forall k :: 0 <= k < |devices| ==> !HasIp(devices[k], rec.value)
    requires rec.rtype == "CNAME" ==>
      forall k :: 0 <= k < |devices| ==> rec.name + "." + zone !in devices[k].domains
    requires rec.rtype == "PTR" ==> forall k :: 0 <= k < |devices| ==> !NamesHost(devices[k], rec.value, zone)
    ensures Linked(rec, zone, devices, ptrToIP) == rec
  {
    forall k | 0 <= k < |devices| ensures !Answers(devices[k], rec, zone) {
      if rec.rtype in {"A", "AAAA"} {
        NoAddress(devices[k].addresses, rec.value);
      }
    }
    var i := AnsweringIsFirst(devices, rec, zone);
  }

  /** A prefix of the devices gives the same links as all of them exactly when it is not the case that only later
      devices answer to the record. */
  lemma LinkMissedExactly(rec: Record, zone: string, devices: seq<Device>, n: nat, ptrToIP: string -> string)
    requires rec.device.None? && n <= |devices|
    ensures Linked(rec, zone, devices[..n], ptrToIP) == Linked(rec, zone, devices, ptrToIP) <==>
            !((forall d :: d in devices[..n] ==> !Answers(d, rec, zone)) &&
              (exists d :: d in devices[n..] && Answers(d, rec, zone)))
  {
    hide Answers, FirstAnswering;
    var i := AnsweringIsFirst(devices, rec, zone);
    var j := AnsweringIsFirst(devices[..n], rec, zone);
    assert devices == devices[..n] + devices[n..];
    if FirstAnswering(devices[..n], rec, zone).Some? {
      assert devices[..n][j] == devices[j] && devices[j] in devices;
      assert i <= j && j <= i;
    } else if FirstAnswering(devices, rec, zone).Some? {
      assert devices[i] in devices[..n] || devices[i] in devices[n..];
    }
  }

  method FindAddress(addresses: seq<Address>, ip: string) returns (r: Option<Address>)
    ensures r == FirstAddress(addresses, ip)
  {
    for i := 0 to |addresses|
      invariant FirstAddress(addresses, ip) == FirstAddress(addresses[i..], ip)
    {
      if addresses[i].ip == ip { return Some(addresses[i]); }
      assert addresses[i..][1..] == addresses[i + 1..];
    }
    return None;
  }

  method MatchDeviceForRecord(rec: Record, zone: string, devices: seq<Device>, ptrToIP: string -> string)
    returns (r: Record)
    ensures r == Linked(rec, zone, devices, ptrToIP)
  {
    for i := 0 to |devices|
      invariant FirstAnswering(devices, rec, zone) == FirstAnswering(devices[i..], rec, zone)
    {
      var dev := devices[i];
      assert devices[i..][0] == dev && devices[i..][1..] == devices[i + 1..];
      match rec.rtype {
        case "A" =>
          var a := FindAddress(dev.addresses, rec.value);
          if a.Some? { return rec.(device := Some(dev.id), address := Some(a.value.id)); }
        case "AAAA" =>
          var a := FindAddress(dev.addresses, rec.value);
          if a.Some? { return rec.(device := Some(dev.id), address := Some(a.value.id)); }
        case "CNAME" =>
          if rec.name + "." + zone in dev.domains { return rec.(device := Some(dev.id)); }
        case "PTR" =>
          if dev.hostname != "" && rec.value == dev.hostname + "." + zone {
            var a := FindAddress(dev.addresses, ptrToIP(rec.name));
            r := rec.(device := Some(dev.id));
            if a.Some? { r := r.(address := Some(a.value.id)); }
            return;
          }
        case _ =>
      }
    }
    return rec;
  }
}

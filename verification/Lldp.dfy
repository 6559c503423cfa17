/** LLDP frames (internal/discovery/lldp.go): the TLV loop and its handlers; the TLV format is
    that of clause 8 of IEEE 802.1AB. */
module Lldp {
  import opened Bytes
  import opened Text

  /** A type-length-value: seven bits of type, nine bits of length. */
  datatype Tlv = Tlv(kind: nat, value: bytes) {
    predicate Valid() { kind < 128 && |value| < 512 }

    predicate IsEnd() { kind == 0 && value == [] }
  }

  /** An identifier as the source formats it: nothing yet, a MAC, an IPv4 address or raw text. */
  datatype Ident = NoIdent | Mac(mac: bytes) | Ipv4(ip: bytes) | Raw(text: bytes)

  datatype ChassisType = NoType | MacType | NetworkType | OtherType(subtype: byte)

  datatype Info = Info(
    chassisType: ChassisType, chassis: Ident, port: Ident,
    portDesc: bytes, systemName: bytes, systemDesc: bytes, mgmt: Option<bytes>)

  const BLANK := Info(NoType, NoIdent, NoIdent, [], [], [], None)

  // ----- the handlers -----

  function ChassisInfo(info: Info, v: bytes): Info {
    if |v| < 2 then info
    else
      var payload := v[1..];
      if v[0] == 4 || v[0] == 7 then
        info.(chassisType := MacType, chassis := if |payload| >= 6 then Mac(payload[..6]) else info.chassis)
      else if v[0] == 5 then
        info.(chassisType := NetworkType,
              chassis := if |payload| >= 5 && payload[0] == 1 then Ipv4(payload[1..5]) else Raw(payload))
      else info.(chassisType := OtherType(v[0]), chassis := Raw(payload))
  }

  function PortInfo(info: Info, v: bytes): Info {
    if |v| < 2 then info
    else if v[0] == 3 then (if |v| >= 7 then info.(port := Mac(v[1..7])) else info)
    else info.(port := Raw(v[1..]))
  }

  /** The address a management TLV carries, if it carries one the parser understands. */
  function MgmtAddress(v: bytes): Option<bytes> {
    if |v| < 2 || v[0] < 2 || |v| - 1 < v[0] then None
    else if v[1] == 1 && v[0] >= 5 then Some(v[2..6])
    else if v[1] == 2 && v[0] >= 17 then Some(v[2..18])
    else None
  }

  function Handle(info: Info, t: Tlv): Info {
    match t.kind
    case 1 => ChassisInfo(info, t.value)
    case 2 => PortInfo(info, t.value)
    case 4 => info.(portDesc := t.value)
    case 5 => info.(systemName := t.value)
    case 6 => info.(systemDesc := t.value)
    case 8 => if info.mgmt.Some? then info else info.(mgmt := MgmtAddress(t.value))
    case _ => info
  }

  function Fold(info: Info, tlvs: seq<Tlv>): Info
    decreases |tlvs|
  {
    if tlvs == [] then info else Fold(Handle(info, tlvs[0]), tlvs[1..])
  }

  // ----- the loop -----

  function TlvLength(data: bytes, at: nat): nat
    requires at + 2 <= |data|
  {
    ((data[at] as int) * 256 + data[at + 1]) % 512
  }

  /** The TLVs the loop visits from an offset on. */
  function Visit(data: bytes, at: nat): (tlvs: seq<Tlv>)
    ensures forall t :: t in tlvs ==> t.Valid() && !t.IsEnd()
    decreases |data| - at
  {
    if at + 2 > |data| then []
    else
      var kind, n := data[at] / 2, TlvLength(data, at);
      if (n == 0 && kind == 0) || at + 2 + n > |data| then []
      else [Tlv(kind, data[at + 2..at + 2 + n])] + Visit(data, at + 2 + n)
  }

  /** Ethernet header: a multicast destination of LLDP and its ethertype. */
  predicate LldpHeader(data: bytes) {
    |data| >= 14 &&
    data[..6] in {[0x01, 0x80, 0xc2, 0x00, 0x00, 0x0e], [0x01, 0x80, 0xc2, 0x00, 0x00, 0x03],
                  [0x01, 0x80, 0xc2, 0x00, 0x00, 0x00]} &&
    data[12] == 0x88 && data[13] == 0xcc
  }

  /** The parser's answer from what the TLVs said: nothing without a chassis or a name, and the
      sender's address where no management address was given. */
  function Answer(info: Info, sender: bytes): Option<Info> {
    if info.chassis == NoIdent && info.systemName == [] then None
    else Some(if info.mgmt.Some? then info else info.(mgmt := Some(sender)))
  }

  function Parsed(data: bytes, sender: bytes): Option<Info> {
    if LldpHeader(data) then Answer(Fold(BLANK, Visit(data, 14)), sender) else None
  }

  method ParseLLDP(data: bytes, sender: bytes) returns (r: Option<Info>)
    ensures r == Parsed(data, sender)
  {
    hide Handle, TlvLength, LldpHeader;
    if !LldpHeader(data) { return None; }
    var info, offset := BLANK, 14;
    while offset + 2 <= |data|
      invariant 14 <= offset
      invariant Fold(BLANK, Visit(data, 14)) == Fold(info, Visit(data, offset))
      decreases |data| - offset
    {
      var tlvType, tlvLen := data[offset] / 2, TlvLength(data, offset);
      ghost var rest := Visit(data, offset);
      offset := offset + 2;
      if tlvLen == 0 && tlvType == 0 { break; }
      if offset + tlvLen > |data| { break; }
      assert rest == [Tlv(tlvType, data[offset..offset + tlvLen])] + Visit(data, offset + tlvLen);
      assert rest[1..] == Visit(data, offset + tlvLen);
      info := Handle(info, Tlv(tlvType, data[offset..offset + tlvLen]));
      offset := offset + tlvLen;
    }
    r := Answer(info, sender);
  }

  // ----- serialised frames -----

  function Encode(t: Tlv): bytes
    requires t.Valid()
  {
    [t.kind * 2 + |t.value| / 256, |t.value| % 256] + t.value
  }

  /** The TLVs one after the other, in front of `tail`. */
  function Serialize(tlvs: seq<Tlv>, tail: bytes): bytes
    requires forall i :: 0 <= i < |tlvs| ==> tlvs[i].Valid()
  {
    if tlvs == [] then tail else Encode(tlvs[0]) + Serialize(tlvs[1..], tail)
  }

  /** The TLVs and an end TLV are stored from `at` on. */
  ghost predicate Stored(data: bytes, at: nat, tlvs: seq<Tlv>)
    decreases |tlvs|
  {
    if tlvs == [] then at + 2 <= |data| && data[at] == 0 && data[at + 1] == 0
    else
      var n := |tlvs[0].value|;
      at + 2 + n <= |data| && data[at] == tlvs[0].kind * 2 + n / 256 && data[at + 1] == n % 256 &&
      data[at + 2..at + 2 + n] == tlvs[0].value && Stored(data, at + 2 + n, tlvs[1..])
  }

  lemma HeadStored(data: bytes, at: nat, t: Tlv, rest: bytes)
    requires t.Valid() && at <= |data| && data[at..] == Encode(t) + rest
    ensures |data| >= at + 2 + |t.value| && data[at + 2 + |t.value|..] == rest
    ensures data[at] == t.kind * 2 + |t.value| / 256 && data[at + 1] == |t.value| % 256
    ensures data[at + 2..at + 2 + |t.value|] == t.value
  {
    var n := |t.value|;
    assert data[at] == data[at..][0] && data[at + 1] == data[at..][1];
    assert data[at + 2..at + 2 + n] == data[at..][2..2 + n];
    assert data[at + 2 + n..] == data[at..][2 + n..];
  }

  lemma {:induction false} SerializeStores(data: bytes, at: nat, tlvs: seq<Tlv>, tail: bytes)
    requires |tail| >= 2 && tail[0] == 0 && tail[1] == 0
    requires forall i :: 0 <= i < |tlvs| ==> tlvs[i].Valid()
    requires at <= |data| && data[at..] == Serialize(tlvs, tail)
    ensures Stored(data, at, tlvs)
    decreases |tlvs|
  {
    if tlvs == [] {
      assert data[at] == data[at..][0] && data[at + 1] == data[at..][1];
    } else {
      HeadStored(data, at, tlvs[0], Serialize(tlvs[1..], tail));
      hide Encode;
      SerializeStores(data, at + 2 + |tlvs[0].value|, tlvs[1..], tail);
    }
  }

  /** The loop visits stored TLVs up to the first end TLV; so all of them exactly when none is one. */
  lemma {:induction false} VisitStored(data: bytes, at: nat, tlvs: seq<Tlv>)
    requires Stored(data, at, tlvs) && forall i :: 0 <= i < |tlvs| ==> tlvs[i].Valid()
    ensures Visit(data, at) <= tlvs
    ensures Visit(data, at) == tlvs <==> forall i :: 0 <= i < |tlvs| ==> !tlvs[i].IsEnd()
    decreases |tlvs|
  {
    if tlvs == [] {
      assert Visit(data, at) == [];
    } else {
      var t, next := tlvs[0], at + 2 + |tlvs[0].value|;
      HeaderFields(data, at, t);
      VisitStored(data, next, tlvs[1..]);
      hide TlvLength;
      assert Visit(data, at) == if t.IsEnd() then [] else [t] + Visit(data, next);
      assert tlvs == [t] + tlvs[1..];
      assert forall i :: 0 < i < |tlvs| ==> tlvs[i] == tlvs[1..][i - 1];
    }
  }

  lemma HeaderFields(data: bytes, at: nat, t: Tlv)
    requires t.Valid() && at + 2 <= |data|
    requires data[at] == t.kind * 2 + |t.value| / 256 && data[at + 1] == |t.value| % 256
    ensures data[at] / 2 == t.kind && TlvLength(data, at) == |t.value|
  {
  }

  /** The loop visits exactly the TLVs a frame was serialised from, whatever padding follows. */
  lemma FrameVisitsItsTlvs(header: bytes, tlvs: seq<Tlv>, padding: bytes)
    requires |header| == 14 && forall i :: 0 <= i < |tlvs| ==> tlvs[i].Valid() && !tlvs[i].IsEnd()
    ensures Visit(header + Serialize(tlvs, [0, 0] + padding), 14) == tlvs
  {
    var data := header + Serialize(tlvs, [0, 0] + padding);
    assert data[14..] == Serialize(tlvs, [0, 0] + padding);
    SerializeStores(data, 14, tlvs, [0, 0] + padding);
    VisitStored(data, 14, tlvs);
  }

  // ----- what the fold keeps -----

  /** The value of the last TLV of a kind, or nothing. */
  function LastValue(tlvs: seq<Tlv>, kind: nat): bytes {
    if tlvs == [] then []
    else if tlvs[|tlvs| - 1].kind == kind then tlvs[|tlvs| - 1].value
    else LastValue(tlvs[..|tlvs| - 1], kind)
  }

  lemma {:induction false} LastValueIs(tlvs: seq<Tlv>, kind: nat, i: nat)
    requires i < |tlvs| && tlvs[i].kind == kind && forall j :: i < j < |tlvs| ==> tlvs[j].kind != kind
    ensures LastValue(tlvs, kind) == tlvs[i].value
  {
    if i < |tlvs| - 1 {
      LastValueIs(tlvs[..|tlvs| - 1], kind, i);
    }
  }

  /** The first management address any TLV carries. */
  function FirstAddress(tlvs: seq<Tlv>): Option<bytes> {
    if tlvs == [] then None
    else
      var earlier := FirstAddress(tlvs[..|tlvs| - 1]);
      if earlier.Some? then earlier
      else if tlvs[|tlvs| - 1].kind == 8 then MgmtAddress(tlvs[|tlvs| - 1].value) else None
  }

  /** The chassis a TLV gives: it needs a subtype and a byte of value, and six bytes where a MAC is announced. */
  function ChassisOf(t: Tlv): Ident {
    if t.kind != 1 || |t.value| < 2 then NoIdent
    else if t.value[0] in {4, 7} then (if |t.value| < 7 then NoIdent else Mac(t.value[1..7]))
    else if t.value[0] == 5 && |t.value| >= 6 && t.value[1] == 1 then Ipv4(t.value[2..6])
    else Raw(t.value[1..])
  }

  /** The TLV sets the chassis type. */
  predicate SetsType(t: Tlv) {
    t.kind == 1 && |t.value| >= 2
  }

  function TypeOf(t: Tlv): ChassisType
    requires SetsType(t)
  {
    if t.value[0] in {4, 7} then MacType else if t.value[0] == 5 then NetworkType else OtherType(t.value[0])
  }

  predicate GivesChassis(t: Tlv) {
    SetsType(t) && (t.value[0] in {4, 7} ==> |t.value| >= 7)
  }

  /** The port a TLV gives. */
  function PortOf(t: Tlv): Ident
    requires GivesPort(t)
  {
    if t.value[0] == 3 then Mac(t.value[1..7]) else Raw(t.value[1..])
  }

  predicate GivesPort(t: Tlv) {
    t.kind == 2 && |t.value| >= 2 && (t.value[0] == 3 ==> |t.value| >= 7)
  }

  /** The position of the last TLV with a property, or -1. */
  function LastWhere(tlvs: seq<Tlv>, p: Tlv -> bool): (i: int)
    ensures -1 <= i < |tlvs|
    ensures i >= 0 ==> p(tlvs[i])
    ensures forall j :: i < j < |tlvs| ==> !p(tlvs[j])
  {
    if tlvs == [] then -1
    else if p(tlvs[|tlvs| - 1]) then |tlvs| - 1
    else
      var i := LastWhere(tlvs[..|tlvs| - 1], p);
      assert forall j :: i < j < |tlvs| - 1 ==> tlvs[..|tlvs| - 1][j] == tlvs[j];
      i
  }

  /** The chassis of the last TLV that gives one. */
  function LastChassis(tlvs: seq<Tlv>): (chassis: Ident)
    ensures chassis == NoIdent <==> forall i :: 0 <= i < |tlvs| ==> !GivesChassis(tlvs[i])
  {
    var i := LastWhere(tlvs, GivesChassis);
    if i < 0 then NoIdent else ChassisOf(tlvs[i])
  }

  /** The chassis type of the last TLV that sets it. */
  function LastType(tlvs: seq<Tlv>): ChassisType {
    var i := LastWhere(tlvs, SetsType);
    if i < 0 then NoType else TypeOf(tlvs[i])
  }

  function LastPort(tlvs: seq<Tlv>): Ident {
    var i := LastWhere(tlvs, GivesPort);
    if i < 0 then NoIdent else PortOf(tlvs[i])
  }

  lemma HandleChassis(info: Info, t: Tlv)
    ensures Handle(info, t).chassis == if GivesChassis(t) then ChassisOf(t) else info.chassis
    ensures Handle(info, t).chassisType == if SetsType(t) then TypeOf(t) else info.chassisType
    ensures Handle(info, t).port == if GivesPort(t) then PortOf(t) else info.port
  {
    if SetsType(t) {
      assert |t.value| >= 7 ==> t.value[1..][..6] == t.value[1..7];
      assert |t.value| >= 6 ==> t.value[1..][1..5] == t.value[2..6];
    }
  }

  lemma {:induction false} FoldChassis(tlvs: seq<Tlv>)
    ensures Fold(BLANK, tlvs).chassis == LastChassis(tlvs) && Fold(BLANK, tlvs).chassisType == LastType(tlvs)
    ensures Fold(BLANK, tlvs).port == LastPort(tlvs)
  {
    hide Handle, GivesChassis, SetsType, ChassisOf, TypeOf, GivesPort, PortOf;
    if tlvs != [] {
      var init, last := tlvs[..|tlvs| - 1], tlvs[|tlvs| - 1];
      FoldChassis(init);
      assert tlvs == init + [last];
      FoldAppend(BLANK, init, last);
      HandleChassis(Fold(BLANK, init), last);
    }
  }

  /** Chassis type and chassis come from the same TLV exactly when the last one that sets the type is not an
      announced MAC of fewer than six bytes. */
  lemma ChassisFromOneTlv(tlvs: seq<Tlv>)
    ensures var i := LastWhere(tlvs, SetsType);
      LastWhere(tlvs, GivesChassis) == i <==> !(i >= 0 && tlvs[i].value[0] in {4, 7} && |tlvs[i].value| < 7)
  {
    var i, j := LastWhere(tlvs, SetsType), LastWhere(tlvs, GivesChassis);
    assert j >= 0 ==> SetsType(tlvs[j]);
    assert i > j ==> !GivesChassis(tlvs[i]);
  }

  /** A raw chassis "A" followed by a cut MAC: the answer calls the raw text a MAC. */
  lemma ChassisCanBeMixed()
    ensures var info := Fold(BLANK, [Tlv(1, [1, 65]), Tlv(1, [4, 9])]);
      info.chassisType == MacType && info.chassis == Raw([65])
  {
    var a, b := Tlv(1, [1, 65]), Tlv(1, [4, 9]);
    assert [a, b] == [a] + [b] && [a] == [] + [a];
    FoldAppend(BLANK, [a], b);
    FoldAppend(BLANK, [], a);
    assert [1, 65][1..] == [65];
  }

  lemma {:induction false} FoldAppend(info: Info, tlvs: seq<Tlv>, t: Tlv)
    ensures Fold(info, tlvs + [t]) == Handle(Fold(info, tlvs), t)
    decreases |tlvs|
  {
    hide Handle;
    if tlvs == [] {
      assert ([] + [t])[1..] == [];
    } else {
      FoldAppend(Handle(info, tlvs[0]), tlvs[1..], t);
      assert (tlvs + [t])[1..] == tlvs[1..] + [t];
    }
  }

  lemma HandleTextsAndAddress(info: Info, t: Tlv)
    ensures Handle(info, t).portDesc == if t.kind == 4 then t.value else info.portDesc
    ensures Handle(info, t).systemName == if t.kind == 5 then t.value else info.systemName
    ensures Handle(info, t).systemDesc == if t.kind == 6 then t.value else info.systemDesc
    ensures Handle(info, t).mgmt ==
      if info.mgmt.Some? then info.mgmt else if t.kind == 8 then MgmtAddress(t.value) else None
  {
  }

  /** The port description, the system name and the system description are the last ones given, the management
      address the first one given. */
  lemma {:induction false} LastTextsFirstAddress(tlvs: seq<Tlv>)
    ensures Fold(BLANK, tlvs).portDesc == LastValue(tlvs, 4)
    ensures Fold(BLANK, tlvs).systemName == LastValue(tlvs, 5)
    ensures Fold(BLANK, tlvs).systemDesc == LastValue(tlvs, 6)
    ensures Fold(BLANK, tlvs).mgmt == FirstAddress(tlvs)
  {
    hide Handle, MgmtAddress;
    if tlvs != [] {
      var init, last := tlvs[..|tlvs| - 1], tlvs[|tlvs| - 1];
      LastTextsFirstAddress(init);
      assert tlvs == init + [last];
      FoldAppend(BLANK, init, last);
      HandleTextsAndAddress(Fold(BLANK, init), last);
    }
  }

  /** Parsing a serialised frame: an answer exactly when some TLV gave a chassis or the last system name is not
      empty, with the last chassis, chassis type and port given, the last texts, and the first management address
      or else the sender's. */
  lemma FrameAnswer(header: bytes, tlvs: seq<Tlv>, padding: bytes, sender: bytes)
    requires |header| == 14 && LldpHeader(header)
    requires forall i :: 0 <= i < |tlvs| ==> tlvs[i].Valid() && !tlvs[i].IsEnd()
    ensures var r := Parsed(header + Serialize(tlvs, [0, 0] + padding), sender);
      && (r.None? <==> (forall i :: 0 <= i < |tlvs| ==> !GivesChassis(tlvs[i])) && LastValue(tlvs, 5) == [])
      && (r.Some? ==> r.value.chassis == LastChassis(tlvs) && r.value.chassisType == LastType(tlvs))
      && (r.Some? ==> r.value.port == LastPort(tlvs) && r.value.portDesc == LastValue(tlvs, 4))
      && (r.Some? ==> r.value.systemName == LastValue(tlvs, 5) && r.value.systemDesc == LastValue(tlvs, 6))
      && (r.Some? ==> r.value.mgmt == if FirstAddress(tlvs).Some? then FirstAddress(tlvs) else Some(sender))
  {
    hide GivesChassis, Fold, Handle, LastValue, LastType, LastPort;
    var data := header + Serialize(tlvs, [0, 0] + padding);
    assert data[..6] == header[..6] && data[12] == header[12] && data[13] == header[13];
    FrameVisitsItsTlvs(header, tlvs, padding);
    LastTextsFirstAddress(tlvs);
    FoldChassis(tlvs);
  }

  /** Only frames to one of the three LLDP multicast addresses with the LLDP ethertype are parsed. */
  lemma HeaderExactly(data: bytes, sender: bytes)
    ensures LldpHeader(data) <==>
      && |data| >= 14 && data[0] == 0x01 && data[1] == 0x80 && data[2] == 0xc2 && data[3] == 0x00 && data[4] == 0x00
      && data[5] in {0x00, 0x03, 0x0e} && data[12] == 0x88 && data[13] == 0xcc
    ensures !LldpHeader(data) ==> Parsed(data, sender) == None
  {
    assert |data| >= 14 ==> data[..6] == [data[0], data[1], data[2], data[3], data[4], data[5]];
  }

  // ----- what senders encode -----

  /** A management TLV: the length of subtype and address, the subtype (1 for IPv4, 2 for IPv6), the address, and
      whatever follows it. The announced length may cover some of what follows. */
  lemma MgmtEncoded(subtype: byte, ip: bytes, rest: bytes, n: byte)
    requires (subtype == 1 && |ip| == 4) || (subtype == 2 && |ip| == 16)
    requires |ip| + 1 <= n <= |ip| + 1 + |rest|
    ensures MgmtAddress([n, subtype] + ip + rest) == Some(ip)
  {
    var v := [n, subtype] + ip + rest;
    assert v[0] == n && v[1] == subtype && v[2..2 + |ip|] == ip;
  }

  /** Too short, cut before the announced length, of another subtype, or announcing too few bytes. */
  predicate Unusable(v: bytes) {
    || |v| < 2
    || |v| <= v[0]
    || (v[1] == 1 && v[0] < 5)
    || (v[1] == 2 && v[0] < 17)
    || v[1] !in {1, 2}
  }

  lemma UnusableExactly(v: bytes)
    ensures MgmtAddress(v).None? <==> Unusable(v)
  {
  }

  lemma {:induction false} FirstUsable(tlvs: seq<Tlv>, i: nat)
    requires i < |tlvs| && tlvs[i].kind == 8 && MgmtAddress(tlvs[i].value).Some?
    requires forall j :: 0 <= j < i && tlvs[j].kind == 8 ==> MgmtAddress(tlvs[j].value).None?
    ensures FirstAddress(tlvs) == MgmtAddress(tlvs[i].value)
  {
    hide MgmtAddress;
    var n := |tlvs| - 1;
    var init := tlvs[..n];
    assert forall j :: 0 <= j < n ==> init[j] == tlvs[j];
    if i < n {
      FirstUsable(init, i);
    } else {
      NoneUsable(init);
    }
  }

  lemma {:induction false} NoneUsable(tlvs: seq<Tlv>)
    requires forall j :: 0 <= j < |tlvs| && tlvs[j].kind == 8 ==> MgmtAddress(tlvs[j].value).None?
    ensures FirstAddress(tlvs) == None
  {
    hide MgmtAddress;
    if tlvs != [] {
      var init := tlvs[..|tlvs| - 1];
      assert forall j :: 0 <= j < |init| ==> init[j] == tlvs[j];
      NoneUsable(init);
    }
  }

  /** An answered frame carries the address that its first usable management TLV encodes. */
  lemma FrameGivesAddress(header: bytes, tlvs: seq<Tlv>, padding: bytes, sender: bytes,
                          i: nat, subtype: byte, ip: bytes, rest: bytes, n: byte)
    requires |header| == 14 && LldpHeader(header)
    requires forall j :: 0 <= j < |tlvs| ==> tlvs[j].Valid() && !tlvs[j].IsEnd()
    requires (subtype == 1 && |ip| == 4) || (subtype == 2 && |ip| == 16)
    requires |ip| + 1 <= n <= |ip| + 1 + |rest|
    requires i < |tlvs| && tlvs[i] == Tlv(8, [n, subtype] + ip + rest)
    requires forall j :: 0 <= j < i && tlvs[j].kind == 8 ==> Unusable(tlvs[j].value)
    ensures var r := Parsed(header + Serialize(tlvs, [0, 0] + padding), sender);
      r.Some? ==> r.value.mgmt == Some(ip)
  {
    hide MgmtAddress, Unusable, Parsed, LldpHeader;
    MgmtEncoded(subtype, ip, rest, n);
    forall j | 0 <= j < i && tlvs[j].kind == 8 ensures MgmtAddress(tlvs[j].value).None? {
      UnusableExactly(tlvs[j].value);
    }
    FirstUsable(tlvs, i);
    FrameAnswer(header, tlvs, padding, sender);
  }

  /** An answered frame without a usable management TLV carries the sender's address. */
  lemma FrameFallsBackToSender(header: bytes, tlvs: seq<Tlv>, padding: bytes, sender: bytes)
    requires |header| == 14 && LldpHeader(header)
    requires forall j :: 0 <= j < |tlvs| ==> tlvs[j].Valid() && !tlvs[j].IsEnd()
    requires forall j :: 0 <= j < |tlvs| && tlvs[j].kind == 8 ==> Unusable(tlvs[j].value)
    ensures var r := Parsed(header + Serialize(tlvs, [0, 0] + padding), sender);
      r.Some? ==> r.value.mgmt == Some(sender)
  {
    hide MgmtAddress, Unusable, Parsed, LldpHeader;
    forall j | 0 <= j < |tlvs| && tlvs[j].kind == 8 ensures MgmtAddress(tlvs[j].value).None? {
      UnusableExactly(tlvs[j].value);
    }
    NoneUsable(tlvs);
    FrameAnswer(header, tlvs, padding, sender);
  }

  /** Chassis TLVs: a MAC behind subtype 4 or 7, an IPv4 address behind subtype 5 and family 1, else plain text. */
  lemma ChassisEncoded(subtype: byte, mac: bytes, ip: bytes, text: bytes, rest: bytes)
    requires |mac| == 6 && |ip| == 4 && text != []
    ensures subtype in {4, 7} ==>
      var t := Tlv(1, [subtype] + mac + rest); GivesChassis(t) && ChassisOf(t) == Mac(mac) && TypeOf(t) == MacType
    ensures var t := Tlv(1, [5, 1] + ip + rest);
      GivesChassis(t) && ChassisOf(t) == Ipv4(ip) && TypeOf(t) == NetworkType
    ensures subtype !in {4, 5, 7} ==>
      var t := Tlv(1, [subtype] + text);
      GivesChassis(t) && ChassisOf(t) == Raw(text) && TypeOf(t) == OtherType(subtype)
  {
    assert ([subtype] + mac + rest)[1..7] == mac;
    assert ([5, 1] + ip + rest)[2..6] == ip;
    assert ([subtype] + text)[1..] == text;
  }

  /** Port TLVs: a MAC behind subtype 3, else plain text. */
  lemma PortEncoded(subtype: byte, mac: bytes, text: bytes, rest: bytes)
    requires |mac| == 6 && text != []
    ensures var t := Tlv(2, [3] + mac + rest); GivesPort(t) && PortOf(t) == Mac(mac)
    ensures subtype != 3 ==> var t := Tlv(2, [subtype] + text); GivesPort(t) && PortOf(t) == Raw(text)
  {
    assert ([3] + mac + rest)[1..7] == mac;
    assert ([subtype] + text)[1..] == text;
  }
}

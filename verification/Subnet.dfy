/** Subnet enumeration (internal/discovery/helpers.go): an in-place big-endian
    increment driven by a bytewise mask test lists exactly the subnet's hosts. */
module Subnet {
  import opened Bytes
  import opened Text

  /** A network as net.ParseCIDR returns it: an address and the prefix length
      of its mask, `ones` leading one bits. */
  datatype IPNet = IPNet(ip: seq<byte>, ones: nat) {
    ghost predicate Valid() { ones <= 8 * |ip| }

    function HostBits(): nat requires Valid() { 8 * |ip| - ones }
  }

  const MAX_SUBNET_BITS := 16

  /** Byte `i` of the mask: full bytes, at most one partial byte, then zeros. */
  function MaskAt(ones: nat, i: nat): byte {
    if ones >= 8 * i + 8 then MaskByte(8)
    else if ones <= 8 * i then MaskByte(0)
    else MaskByte(ones - 8 * i)
  }

  function MaskByte(j: nat): byte
    requires j <= 8
  {
    assert Pow2(8) == 256;
    HighMask(j, 8 - j)
  }

  function ApplyMask(ip: seq<byte>, ones: nat): (r: seq<byte>)
    ensures |r| == |ip|
    ensures forall i :: 0 <= i < |ip| ==> r[i] == And(ip[i], MaskAt(ones, i))
  {
    seq(|ip|, i requires 0 <= i < |ip| => And(ip[i], MaskAt(ones, i)))
  }

  predicate Contains(net: IPNet, ip: seq<byte>) {
    |ip| == |net.ip| &&
    forall i :: 0 <= i < |ip| ==> And(net.ip[i], MaskAt(net.ones, i)) == And(ip[i], MaskAt(net.ones, i))
  }

  function CountHosts(net: IPNet): (n: nat)
    requires net.Valid()
  {
    Pow2(net.HostBits())
  }

  /** The network address as a number. */
  function Base(net: IPNet): nat
    requires net.Valid()
  {
    Clear(Value(net.ip), net.HostBits())
  }

  // ----- what masking means -----

  lemma MaskByteClears(b: byte, j: nat)
    requires j <= 8
    ensures And(b, MaskByte(j)) == Clear(b, 8 - j)
  {
    assert Pow2(8) == 256;
    AndHighMask(b, j, 8 - j);
  }

  lemma ClearAppendByte(v: nat, b: byte, k: nat)
    ensures k <= 8 ==> Clear(v * 256 + b, k) == v * 256 + Clear(b, k)
    ensures k >= 8 ==> Clear(v * 256 + b, k) == Clear(v, k - 8) * 256
  {
    assert Pow2(8) == 256;
    ShlByte(v);
    if k <= 8 {
      ClearShifted(v, 8, b, k);
    }
    if k >= 8 {
      ClearPastShift(v, 8, b, k);
      ShlByte(Clear(v, k - 8));
    }
  }

  /** Masking the front of an address needs only the front's share of the mask. */
  lemma MaskFront(ip: seq<byte>, ones: nat, frontOnes: nat)
    requires |ip| > 0
    requires ones == frontOnes || (ones >= 8 * (|ip| - 1) && frontOnes == 8 * (|ip| - 1))
    ensures ApplyMask(ip, ones)[..|ip| - 1] == ApplyMask(ip[..|ip| - 1], frontOnes)
  {
  }

  lemma MaskLast(ip: seq<byte>, ones: nat)
    requires |ip| > 0 && ones <= 8 * |ip|
    ensures 8 * |ip| - ones >= 8 ==> ApplyMask(ip, ones)[|ip| - 1] == 0
    ensures 8 * |ip| - ones < 8 ==> ApplyMask(ip, ones)[|ip| - 1] == Clear(ip[|ip| - 1], 8 * |ip| - ones)
  {
    var n, k := |ip|, 8 * |ip| - ones;
    if k >= 8 {
      assert MaskAt(ones, n - 1) == MaskByte(0);
      MaskByteClears(ip[n - 1], 0);
      ClearAppendByte(0, ip[n - 1], 8);
    } else {
      assert MaskAt(ones, n - 1) == MaskByte(8 - k);
      MaskByteClears(ip[n - 1], 8 - k);
    }
  }

  /** Bytewise masking clears exactly the low host bits of the whole address. */
  lemma {:induction false} MaskClearsHostBits(ip: seq<byte>, ones: nat)
    requires ones <= 8 * |ip|
    ensures Value(ApplyMask(ip, ones)) == Clear(Value(ip), 8 * |ip| - ones)
    decreases |ip|
  {
    hide Clear, ApplyMask, MaskAt;
    var n, k := |ip|, 8 * |ip| - ones;
    if n > 0 {
      var frontOnes := if k >= 8 then ones else 8 * (n - 1);
      MaskFront(ip, ones, frontOnes);
      MaskClearsHostBits(ip[..n - 1], frontOnes);
      MaskLast(ip, ones);
      ClearAppendByte(Value(ip[..n - 1]), ip[n - 1], k);
    }
  }

  /** The mask test is equality of the network parts as numbers. */
  lemma ContainsMeansSameNetwork(net: IPNet, ip: seq<byte>)
    requires net.Valid() && |ip| == |net.ip|
    ensures Contains(net, ip) <==> Clear(Value(ip), net.HostBits()) == Base(net)
  {
    hide And, Clear, MaskAt, Value;
    MaskClearsHostBits(ip, net.ones);
    MaskClearsHostBits(net.ip, net.ones);
    var a, b := ApplyMask(ip, net.ones), ApplyMask(net.ip, net.ones);
    assert Contains(net, ip) <==> a == b;
    if Value(a) == Value(b) {
      ValueInjective(a, b);
    }
  }

  // ----- incrementIP -----

  /** The next address, with the carry running from the last byte. */
  function Next(s: seq<byte>): (r: seq<byte>)
    ensures |r| == |s|
  {
    if s == [] then []
    else if s[|s| - 1] < 255 then s[..|s| - 1] + [s[|s| - 1] + 1]
    else Next(s[..|s| - 1]) + [0]
  }

  /** Next adds one, and wraps the all-ones address to zero. */
  lemma {:induction false} NextAddsOne(s: seq<byte>)
    ensures Value(Next(s)) == if Value(s) + 1 < Pow2(8 * |s|) then Value(s) + 1 else 0
  {
    var n := |s|;
    if n > 0 {
      var front := s[..n - 1];
      ValueBound(front);
      Pow2Byte(8 * (n - 1));
      if s[n - 1] < 255 {
        assert Next(s)[..n - 1] == front;
      } else {
        NextAddsOne(front);
        assert Next(s)[..n - 1] == Next(front);
      }
    }
  }

  method IncrementIP(ip: array<byte>)
    modifies ip
    ensures ip[..] == Next(old(ip[..]))
  {
    ghost var was := ip[..];
    var i := ip.Length - 1;
    assert was[..i + 1] == was;
    while i >= 0
      invariant -1 <= i < ip.Length
      invariant ip[..i + 1] == was[..i + 1]
      invariant Next(was) == Next(was[..i + 1]) + ip[i + 1..]
    {
      assert was[..i + 1][..i] == was[..i];
      ip[i] := if ip[i] == 255 then 0 else ip[i] + 1;
      if ip[i] > 0 {
        assert ip[..] == was[..i] + [was[i] + 1] + ip[i + 1..];
        break;
      }
      assert ip[i..] == [0] + ip[i + 1..];
      i := i - 1;
    }
  }

  // ----- expandCIDR -----

  /** Membership is a contiguous range of values starting at the network address. */
  lemma ContainsIsRange(net: IPNet, ip: seq<byte>)
    requires net.Valid() && |ip| == |net.ip|
    ensures Contains(net, ip) <==> Base(net) <= Value(ip) < Base(net) + CountHosts(net)
  {
    hide Contains, Clear, Value, Pow2;
    ContainsMeansSameNetwork(net, ip);
    SameBlock(Value(ip), Value(net.ip), net.HostBits());
  }

  /** After `count` increments of the network address the guard holds exactly while
      count < 2^k, also when the last increment wraps past the all-ones address. */
  lemma GuardAfter(net: IPNet, ip: seq<byte>, count: nat)
    requires net.Valid() && net.ones > 0 && |ip| == |net.ip|
    requires count <= CountHosts(net)
    requires Value(ip) == if Base(net) + count < Pow2(8 * |net.ip|) then Base(net) + count else 0
    ensures Contains(net, ip) <==> count < CountHosts(net)
    ensures count < CountHosts(net) ==> Value(ip) == Base(net) + count
  {
    ContainsIsRange(net, ip);
    ValueBound(net.ip);
    BlockFits(Value(net.ip), net.HostBits(), 8 * |net.ip|);
    Pow2Monotone(8 * |net.ip|, net.HostBits());
  }

  /** One turn of the loop: the value advances by one and the guard is known. */
  lemma GuardAfterNext(net: IPNet, ip: seq<byte>, count: nat)
    requires net.Valid() && net.ones > 0 && |ip| == |net.ip|
    requires count < CountHosts(net) && Value(ip) == Base(net) + count
    ensures Contains(net, Next(ip)) <==> count + 1 < CountHosts(net)
    ensures count + 1 < CountHosts(net) ==> Value(Next(ip)) == Base(net) + count + 1
  {
    hide Contains, Clear, Next, Value;
    NextAddsOne(ip);
    GuardAfter(net, Next(ip), count + 1);
  }

  /** With no network bits at all the guard never fails, so the loop would not end;
      the size limit of 16 host bits keeps such networks away from expandCIDR. */
  lemma DefaultRouteContainsAll(net: IPNet, ip: seq<byte>)
    requires net.Valid() && net.ones == 0 && |ip| == |net.ip|
    ensures Contains(net, ip) && Contains(net, Next(ip))
  {
  }

  /** Which addresses of the subnet are scanned: all but the first and last when there are more than two. */
  ghost predicate IsHost(net: IPNet, ip: seq<byte>)
    requires net.Valid()
  {
    Contains(net, ip) &&
    (CountHosts(net) > 2 ==> Base(net) < Value(ip) < Base(net) + CountHosts(net) - 1)
  }

  /** The addresses are the consecutive values from `off` above the network address,
      in order; so no address is listed twice. */
  ghost predicate Consecutive(net: IPNet, ips: seq<seq<byte>>, off: nat)
    requires net.Valid()
  {
    forall i :: 0 <= i < |ips| ==> |ips[i]| == |net.ip| && Value(ips[i]) == Base(net) + off + i
  }

  /** A list of consecutive values is complete: it contains every host. */
  lemma ListsExactlyHosts(net: IPNet, ips: seq<seq<byte>>)
    requires net.Valid()
    requires |ips| == if CountHosts(net) > 2 then CountHosts(net) - 2 else CountHosts(net)
    requires Consecutive(net, ips, if CountHosts(net) > 2 then 1 else 0)
    ensures forall ip :: ip in ips <==> IsHost(net, ip)
  {
    var off := if CountHosts(net) > 2 then 1 else 0;
    forall ip | ip in ips ensures IsHost(net, ip) {
      ContainsIsRange(net, ip);
    }
    forall ip | IsHost(net, ip) ensures ip in ips {
      ContainsIsRange(net, ip);
      var i := Value(ip) - Base(net) - off;
      ValueInjective(ips[i], ip);
    }
  }

  method ExpandCIDR(net: IPNet) returns (ips: seq<seq<byte>>)
    requires net.Valid() && net.ones > 0
    ensures |ips| == if CountHosts(net) > 2 then CountHosts(net) - 2 else CountHosts(net)
    ensures Consecutive(net, ips, if CountHosts(net) > 2 then 1 else 0)
    ensures forall ip :: ip in ips <==> IsHost(net, ip)
  {
    hide Contains, Next, Clear, Value, Pow2;
    ips := [];
    var masked := ApplyMask(net.ip, net.ones);
    var ip := new byte[|masked|](i requires 0 <= i < |masked| => masked[i]);
    assert ip[..] == masked;
    MaskClearsHostBits(net.ip, net.ones);
    ValueBound(masked);
    GuardAfter(net, masked, 0);
    while Contains(net, ip[..])
      invariant |ips| <= CountHosts(net)
      invariant Contains(net, ip[..]) <==> |ips| < CountHosts(net)
      invariant |ips| < CountHosts(net) ==> Value(ip[..]) == Base(net) + |ips|
      invariant Consecutive(net, ips, 0)
      decreases CountHosts(net) - |ips|
    {
      GuardAfterNext(net, ip[..], |ips|);
      ips := ips + [ip[..]];
      IncrementIP(ip);
    }
    if |ips| > 2 {
      ips := ips[1..|ips| - 1];
    }
    ListsExactlyHosts(net, ips);
  }

  /** ScanWithOptions: refuse more than 16 host bits, otherwise scan the enumerated hosts. */
  method PlanScan(net: IPNet) returns (targets: Option<seq<seq<byte>>>)
    requires net.Valid() && |net.ip| in {4, 16}
    ensures targets.None? <==> CountHosts(net) > 65536
    ensures targets.Some? ==>
      |targets.value| >= 1 && forall ip :: ip in targets.value <==> IsHost(net, ip)
  {
    Pow2Byte(8);
    assert Pow2(8) == 256;
    Pow2Monotone(net.HostBits(), 16);
    if 8 * |net.ip| - net.ones > MAX_SUBNET_BITS {
      return None;
    }
    var ips := ExpandCIDR(net);
    return Some(ips);
  }
}

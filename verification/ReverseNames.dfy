/** Reverse-lookup names (internal/service/dns.go): section 3.5 of RFC 1035 for IPv4 and
    section 2.5 of RFC 3596 for IPv6. */
module ReverseNames {
  import opened Bytes
  import opened Text

  const V4_SUFFIX := ".in-addr.arpa"
  const V6_SUFFIX := ".ip6.arpa"

  /** Lower-case hexadecimal digits. */
  const HEX := "0123456789abcdef"

  // ----- names from addresses -----

  function ReverseIPSpec(ip: string): string { Join(Reversed(Split(ip, '.')), '.') }

  method ReverseIP(ip: string) returns (r: string)
    ensures r == ReverseIPSpec(ip)
  {
    var split := Split(ip, '.');
    var parts := new string[|split|](i requires 0 <= i < |split| => split[i]);
    assert parts[..] == split;
    ReverseInPlace(parts);
    r := Join(parts[..], '.');
  }

  function Nibble(n: nat): string
    requires n < 16
  {
    [HEX[n]]
  }

  /** The 32 nibbles of an address, high nibble first. */
  function Nibbles(bytes: seq<byte>): (r: seq<string>)
    ensures |r| == 2 * |bytes|
    ensures forall i :: 0 <= i < |bytes| ==> r[2 * i] == Nibble(bytes[i] / 16) && r[2 * i + 1] == Nibble(bytes[i] % 16)
  {
    if bytes == [] then []
    else
      var n := |bytes| - 1;
      Nibbles(bytes[..n]) + [Nibble(bytes[n] / 16), Nibble(bytes[n] % 16)]
  }

  function ReverseIPv6Spec(bytes: seq<byte>): string { Join(Reversed(Nibbles(bytes)), '.') }

  /** The loop from the last byte down, low nibble first. */
  method ReverseIPv6(bytes: seq<byte>) returns (r: string)
    requires |bytes| == 16
    ensures r == ReverseIPv6Spec(bytes)
  {
    var nibbles: seq<string> := [];
    var i := 15;
    while i >= 0
      invariant -1 <= i <= 15
      invariant nibbles == Reversed(Nibbles(bytes))[..2 * (15 - i)]
    {
      ghost var all := Reversed(Nibbles(bytes));
      assert all[2 * (15 - i)] == Nibbles(bytes)[2 * i + 1] && all[2 * (15 - i) + 1] == Nibbles(bytes)[2 * i];
      nibbles := nibbles + [Nibble(bytes[i] % 16)];
      nibbles := nibbles + [Nibble(bytes[i] / 16)];
      i := i - 1;
    }
    assert Reversed(Nibbles(bytes))[..32] == Reversed(Nibbles(bytes));
    r := Join(nibbles, '.');
  }

  /** extractPTRName: `text` is the dotted form net.IP prints for an IPv4 address. */
  datatype IP = V4(text: string) | V6(bytes: seq<byte>)

  function PtrName(ip: IP): string {
    match ip
    case V4(text) => ReverseIPSpec(text) + V4_SUFFIX + "."
    case V6(bytes) => ReverseIPv6Spec(bytes) + V6_SUFFIX + "."
  }

  // ----- addresses from names -----

  function Concat(parts: seq<string>): string { if parts == [] then [] else parts[0] + Concat(parts[1..]) }

  /** Eight groups of four nibbles. */
  function Groups(nibbles: seq<string>): (groups: seq<string>)
    requires |nibbles| == 32
    ensures |groups| == 8
    ensures forall g :: 0 <= g < 8 ==> groups[g] == Concat(nibbles[4 * g..4 * g + 4])
  {
    seq(8, g requires 0 <= g < 8 => Concat(nibbles[4 * g..4 * g + 4]))
  }

  /** The text that ptrNameToIP hands to net.ParseIP, if it gets that far. */
  function PtrText(name: string): Option<string> {
    var trimmed := TrimSuffix(name, ".");
    if HasSuffix(trimmed, V4_SUFFIX) then
      Some(Join(Reversed(Split(TrimSuffix(trimmed, V4_SUFFIX), '.')), '.'))
    else if HasSuffix(trimmed, V6_SUFFIX) then
      var nibbles := Reversed(Split(TrimSuffix(trimmed, V6_SUFFIX), '.'));
      if |nibbles| != 32 then None else Some(Join(Groups(nibbles), ':'))
    else None
  }

  method PtrNameToText(name: string) returns (r: Option<string>)
    ensures r == PtrText(name)
  {
    var trimmed := TrimSuffix(name, ".");
    var v4 := HasSuffix(trimmed, V4_SUFFIX);
    if !v4 && !HasSuffix(trimmed, V6_SUFFIX) { return None; }
    var split := Split(TrimSuffix(trimmed, if v4 then V4_SUFFIX else V6_SUFFIX), '.');
    var parts := new string[|split|](i requires 0 <= i < |split| => split[i]);
    assert parts[..] == split;
    ReverseInPlace(parts);
    if v4 { return Some(Join(parts[..], '.')); }
    if parts.Length != 32 { return None; }
    var groups := GroupNibbles(parts[..]);
    return Some(Join(groups, ':'));
  }

  method GroupNibbles(nibbles: seq<string>) returns (groups: seq<string>)
    requires |nibbles| == 32
    ensures groups == Groups(nibbles)
  {
    groups := [];
    for g := 0 to 8
      invariant groups == Groups(nibbles)[..g]
    {
      groups := groups + [Concat(nibbles[4 * g..4 * g + 4])];
    }
    assert Groups(nibbles)[..8] == Groups(nibbles);
  }

  // ----- the round trip -----

  lemma SuffixAppended(s: string, t: string)
    ensures HasSuffix(s + t, t) && TrimSuffix(s + t, t) == s
  {
  }

  lemma ReversedTwice<T>(s: seq<T>)
    ensures Reversed(Reversed(s)) == s
  {
  }

  /** For every text, dotted or not, ptrNameToIP recovers what the IPv4 name was made from. */
  lemma V4RoundTrip(text: string)
    ensures PtrText(PtrName(V4(text))) == Some(text)
  {
    var body := ReverseIPSpec(text);
    SuffixAppended(body + V4_SUFFIX, ".");
    SuffixAppended(body, V4_SUFFIX);
    var parts := Split(text, '.');
    SplitJoin(Reversed(parts), '.');
    ReversedTwice(parts);
  }

  /** The reverse name of an IPv4 address, part by part. */
  lemma V4NameSpelled(a: string, b: string, c: string, d: string)
    requires '.' !in a && '.' !in b && '.' !in c && '.' !in d
    ensures PtrName(V4(a + "." + b + "." + c + "." + d)) == d + "." + c + "." + b + "." + a + ".in-addr.arpa."
  {
    var parts := [a, b, c, d];
    JoinFour(a, b, c, d);
    JoinFour(d, c, b, a);
    SplitJoin(parts, '.');
    assert Reversed(parts) == [d, c, b, a];
    hide Split, Join;
  }

  lemma JoinFour(a: string, b: string, c: string, d: string)
    ensures Join([a, b, c, d], '.') == a + "." + b + "." + c + "." + d
  {
    assert [a, b, c, d][1..] == [b, c, d] && [b, c, d][1..] == [c, d] && [c, d][1..] == [d];
    assert Join([d], '.') == d && Join([c, d], '.') == c + "." + d;
    assert Join([b, c, d], '.') == b + "." + (c + "." + d);
  }

  /** Conversely, whatever IPv4 reverse name is accepted, with or without its last dot, is the name of the text it
      gives. */
  lemma V4NameRebuilt(name: string)
    requires HasSuffix(TrimSuffix(name, "."), V4_SUFFIX)
    ensures PtrText(name).Some? && PtrName(V4(PtrText(name).value)) == TrimSuffix(name, ".") + "."
  {
    hide Split, Join;
    var trimmed := TrimSuffix(name, ".");
    var body := TrimSuffix(trimmed, V4_SUFFIX);
    SuffixRejoined(trimmed, V4_SUFFIX);
    var parts := Split(body, '.');
    SplitJoin(Reversed(parts), '.');
    ReversedTwice(parts);
    hide HasSuffix, TrimSuffix;
    assert ReverseIPSpec(PtrText(name).value) == body;
  }

  lemma SuffixRejoined(s: string, t: string)
    requires HasSuffix(s, t)
    ensures TrimSuffix(s, t) + t == s
  {
  }

  /** A name with neither suffix is not accepted. */
  lemma OtherNamesGiveNothing(name: string)
    requires !HasSuffix(TrimSuffix(name, "."), V4_SUFFIX) && !HasSuffix(TrimSuffix(name, "."), V6_SUFFIX)
    ensures PtrText(name) == None
  {
  }

  /** What net.ParseIP reads from eight colon-separated groups of four hexadecimal digits. */
  function HexValue(c: char): (v: nat)
    ensures v < 16
  {
    if '0' <= c <= '9' then (c - '0') as int else if 'a' <= c <= 'f' then (c - 'a') as int + 10 else 0
  }

  function ParseGroups(groups: seq<string>): (bytes: seq<byte>)
    requires forall g :: 0 <= g < |groups| ==> |groups[g]| == 4
    ensures |bytes| == 2 * |groups|
    ensures forall i :: 0 <= i < |bytes| ==>
      bytes[i] == HexValue(groups[i / 2][i % 2 * 2]) * 16 + HexValue(groups[i / 2][i % 2 * 2 + 1])
  {
    seq(2 * |groups|, i requires 0 <= i < 2 * |groups| =>
      HexValue(groups[i / 2][i % 2 * 2]) * 16 + HexValue(groups[i / 2][i % 2 * 2 + 1]))
  }

  lemma V6Text(bytes: seq<byte>)
    requires |bytes| == 16
    ensures PtrText(PtrName(V6(bytes))) == Some(Join(Groups(Nibbles(bytes)), ':'))
  {
    var nibbles := Nibbles(bytes);
    var body := ReverseIPv6Spec(bytes);
    SuffixAppended(body + V6_SUFFIX, ".");
    SuffixAppended(body, V6_SUFFIX);
    NibbleNotDot(bytes);
    SplitJoin(Reversed(nibbles), '.');
    ReversedTwice(nibbles);
    NotV4(body);
  }

  lemma NibbleNotDot(bytes: seq<byte>)
    ensures forall i :: 0 <= i < |Nibbles(bytes)| ==> |Nibbles(bytes)[i]| == 1 && '.' !in Nibbles(bytes)[i]
  {
  }

  lemma NotV4(body: string)
    ensures !HasSuffix(body + V6_SUFFIX, V4_SUFFIX)
  {
    var s := body + V6_SUFFIX;
    assert s[|s| - 6] == '6' && V4_SUFFIX[7] == 'r' && |V4_SUFFIX| == 13;
    assert |s| >= 13 ==> s[|s| - 13..][7] == s[|s| - 6];
  }

  lemma HexDigit(n: nat)
    requires n < 16
    ensures HexValue(HEX[n]) == n && HEX[n] != ':'
  {
  }

  lemma NibblesAt(bytes: seq<byte>, g: nat)
    requires |bytes| == 16 && g < 8
    ensures var four := Nibbles(bytes)[4 * g..4 * g + 4];
      && four[0] == Nibble(bytes[2 * g] / 16) && four[1] == Nibble(bytes[2 * g] % 16)
      && four[2] == Nibble(bytes[2 * g + 1] / 16) && four[3] == Nibble(bytes[2 * g + 1] % 16)
  {
    hide Nibbles, Nibble;
    var i := 2 * g;
    assert 2 * i == 4 * g && 2 * (i + 1) == 4 * g + 2;
  }

  /** Each group holds the four digits of two bytes. */
  lemma GroupDigits(bytes: seq<byte>, g: nat)
    requires |bytes| == 16 && g < 8
    ensures Groups(Nibbles(bytes))[g] ==
      [HEX[bytes[2 * g] / 16], HEX[bytes[2 * g] % 16], HEX[bytes[2 * g + 1] / 16], HEX[bytes[2 * g + 1] % 16]]
  {
    hide Nibbles, Concat, Groups;
    var four := Nibbles(bytes)[4 * g..4 * g + 4];
    NibblesAt(bytes, g);
    assert four == [four[0], four[1], four[2], four[3]];
    ConcatFour(four[0], four[1], four[2], four[3]);
  }

  lemma ConcatFour(a: string, b: string, c: string, d: string)
    ensures Concat([a, b, c, d]) == a + b + c + d
  {
    assert [a, b, c, d][1..] == [b, c, d] && [b, c, d][1..] == [c, d] && [c, d][1..] == [d] && [d][1..] == [];
    assert Concat([d]) == d && Concat([c, d]) == c + d && Concat([b, c, d]) == b + (c + d);
    assert a + (b + (c + d)) == a + b + c + d;
  }

  /** Reading the digits of one byte back. */
  lemma ByteValue(b: byte)
    ensures HexValue(HEX[b / 16]) * 16 + HexValue(HEX[b % 16]) == b
    ensures HEX[b / 16] != ':' && HEX[b % 16] != ':'
  {
    hide HexValue;
    HexDigit(b / 16);
    HexDigit(b % 16);
  }

  /** Reading the digits of a group back gives its two bytes. */
  lemma GroupBytes(bytes: seq<byte>, g: nat)
    requires |bytes| == 16 && g < 8
    ensures var group := Groups(Nibbles(bytes))[g];
      && |group| == 4 && ':' !in group
      && HexValue(group[0]) * 16 + HexValue(group[1]) == bytes[2 * g]
      && HexValue(group[2]) * 16 + HexValue(group[3]) == bytes[2 * g + 1]
  {
    hide Groups, Nibbles, HexValue;
    GroupDigits(bytes, g);
    ByteValue(bytes[2 * g]);
    ByteValue(bytes[2 * g + 1]);
  }

  /** The groups of an address spell its bytes. */
  lemma GroupsSpell(bytes: seq<byte>, groups: seq<string>)
    requires |bytes| == 16 && groups == Groups(Nibbles(bytes))
    ensures forall g :: 0 <= g < 8 ==> |groups[g]| == 4 && ':' !in groups[g]
    ensures ParseGroups(groups) == bytes
  {
    hide Groups, Nibbles, HexValue;
    forall g | 0 <= g < 8 ensures |groups[g]| == 4 && ':' !in groups[g] {
      GroupBytes(bytes, g);
    }
    var read := ParseGroups(groups);
    hide ParseGroups;
    forall g | 0 <= g < 8 ensures read[2 * g] == bytes[2 * g] && read[2 * g + 1] == bytes[2 * g + 1] {
      GroupBytes(bytes, g);
      ParsedAt(groups, g);
    }
    forall i | 0 <= i < 16 ensures read[i] == bytes[i] {
      assert i == 2 * (i / 2) || i == 2 * (i / 2) + 1;
    }
  }

  lemma ParsedAt(groups: seq<string>, g: nat)
    requires g < |groups| && forall g :: 0 <= g < |groups| ==> |groups[g]| == 4
    ensures ParseGroups(groups)[2 * g] == HexValue(groups[g][0]) * 16 + HexValue(groups[g][1])
    ensures ParseGroups(groups)[2 * g + 1] == HexValue(groups[g][2]) * 16 + HexValue(groups[g][3])
  {
    hide HexValue;
    assert (2 * g) / 2 == g && (2 * g) % 2 == 0 && (2 * g + 1) / 2 == g && (2 * g + 1) % 2 == 1;
  }

  /** For every IPv6 address, the groups that ptrNameToIP hands on spell the original bytes. */
  lemma V6RoundTrip(bytes: seq<byte>)
    requires |bytes| == 16
    ensures var text := PtrText(PtrName(V6(bytes)));
      && text.Some?
      && (forall g :: 0 <= g < |Split(text.value, ':')| ==> |Split(text.value, ':')[g]| == 4)
      && ParseGroups(Split(text.value, ':')) == bytes
  {
    hide Groups, Nibbles, PtrText, PtrName, Split, Join, HexValue, ParseGroups;
    V6Text(bytes);
    var groups := Groups(Nibbles(bytes));
    GroupsSpell(bytes, groups);
    SplitJoin(groups, ':');
  }
}

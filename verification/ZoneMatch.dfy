/** Longest-suffix zone matching (internal/service/dns.go, MatchZoneForDomain). */
module ZoneMatch {
  import opened Text

  datatype Zone = Zone(id: string, name: string)

  datatype Match = Match(zone: Zone, prefix: string)

  /** The zone name is the domain or a dot-separated suffix of it. */
  predicate Covers(name: string, domain: string) {
    domain == name || HasSuffix(domain, "." + name)
  }

  function Prefix(name: string, domain: string): string {
    if domain == name then "@" else TrimSuffix(domain, "." + name)
  }

  /** A best match: covering, and at least as long as every covering zone name. */
  ghost predicate Best(domain: string, zones: seq<Zone>, m: Option<Match>) {
    match m
    case None => forall z :: z in zones ==> !Covers(z.name, domain)
    case Some(b) =>
      b.zone in zones && Covers(b.zone.name, domain) && b.prefix == Prefix(b.zone.name, domain) &&
      forall z :: z in zones && Covers(z.name, domain) ==> |z.name| <= |b.zone.name|
  }

  /** Of several zones with the same name, the first one. */
  ghost predicate FirstOfItsName(zones: seq<Zone>, z: Zone) {
    exists i :: 0 <= i < |zones| && zones[i] == z && forall j :: 0 <= j < i ==> zones[j].name != z.name
  }

  /** A covering zone that beats all earlier ones has a name none of them has. */
  lemma LongerIsNew(domain: string, zones: seq<Zone>, i: nat, m: Option<Match>)
    requires i < |zones| && Best(domain, zones[..i], m) && Covers(zones[i].name, domain)
    requires m.None? || |zones[i].name| > |m.value.zone.name|
    ensures forall j :: 0 <= j < i ==> zones[j].name != zones[i].name
  {
    hide Covers;
    assert forall j :: 0 <= j < i ==> zones[j] in zones[..i];
  }

  method MatchZoneForDomain(domain: string, zones: seq<Zone>) returns (m: Option<Match>)
    ensures Best(domain, zones, m)
    ensures m.Some? ==> FirstOfItsName(zones, m.value.zone)
  {
    m := None;
    ghost var at := 0;
    for i := 0 to |zones|
      invariant Best(domain, zones[..i], m)
      invariant m.Some? ==> at < i && zones[at] == m.value.zone
      invariant m.Some? ==> forall j :: 0 <= j < at ==> zones[j].name != m.value.zone.name
    {
      var zone := zones[i];
      assert zones[..i + 1] == zones[..i] + [zone];
      if domain == zone.name {
        if m.None? || |zone.name| > |m.value.zone.name| {
          LongerIsNew(domain, zones, i, m);
          m, at := Some(Match(zone, "@")), i;
        }
      } else if HasSuffix(domain, "." + zone.name) {
        var prefix := TrimSuffix(domain, "." + zone.name);
        if m.None? || |zone.name| > |m.value.zone.name| {
          LongerIsNew(domain, zones, i, m);
          m, at := Some(Match(zone, prefix)), i;
        }
      }
    }
    assert zones[..|zones|] == zones;
  }

  /** A zone is returned exactly when some zone covers the domain, and its name with the prefix
      rebuilds the domain. */
  lemma MatchRebuildsDomain(domain: string, zones: seq<Zone>, m: Option<Match>)
    requires Best(domain, zones, m)
    ensures m.Some? <==> exists z :: z in zones && Covers(z.name, domain)
    ensures m.Some? ==>
      domain == if domain == m.value.zone.name then domain else m.value.prefix + "." + m.value.zone.name
    ensures m.Some? && domain == m.value.zone.name ==> m.value.prefix == "@"
  {
    if m.Some? && domain != m.value.zone.name {
      var tail := "." + m.value.zone.name;
      assert domain == domain[..|domain| - |tail|] + domain[|domain| - |tail|..];
    }
  }

  /** Covering names of the same length are the same name. */
  lemma CoveringNamesAgree(a: string, b: string, domain: string)
    requires Covers(a, domain) && Covers(b, domain) && |a| == |b|
    ensures a == b
  {
    assert forall n :: HasSuffix(domain, "." + n) ==> domain[|domain| - |n|..] == n by {
      forall n | HasSuffix(domain, "." + n) ensures domain[|domain| - |n|..] == n {
        assert domain[|domain| - |n|..] == domain[|domain| - |n| - 1..][1..];
      }
    }
  }

  /** The chosen name and prefix depend only on which zones there are, not on their order. */
  lemma OrderDoesNotMatter(domain: string, zones: seq<Zone>, others: seq<Zone>, m: Option<Match>, n: Option<Match>)
    requires forall z :: z in zones <==> z in others
    requires Best(domain, zones, m) && Best(domain, others, n)
    ensures m.Some? <==> n.Some?
    ensures m.Some? ==> m.value.zone.name == n.value.zone.name && m.value.prefix == n.value.prefix
  {
    if m.Some? && n.Some? {
      assert n.value.zone in zones && m.value.zone in others;
      CoveringNamesAgree(m.value.zone.name, n.value.zone.name, domain);
    }
  }
}

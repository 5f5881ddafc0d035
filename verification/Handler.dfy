/** The answer decision (src/server/handler.rs). */
module Handler {
  import opened Wrappers
  import opened Bits
  import opened Names
  import opened ConfigModel
  import opened Lookup
  import opened Synth
  import opened RoundTrip
  import opened Resolution
  import opened Upstreams
  import opened RateLimit

  datatype ResponseCode = NoError | NxDomain | Refused

  datatype Reply = Reply(
    code: ResponseCode,
    authoritative: bool,
    answers: seq<Record>,
    authority: seq<Record>,
    kind: Kind)

  const REFUSAL := Reply(Refused, false, [], [], KindNegative)

  const I32_MAX: nat := 0x7FFF_FFFF

  /** `soa_record`; the TTL is the negative-caching TTL of section 3 of RFC 2308. */
  function SoaRecord(apex: Name, soa: SoaParams, ttl: nat): Record {
    NewRecord(apex, Min(ttl, soa.minimum),
              SoaData(soa.primary, soa.hostmaster, soa.serial, Min(soa.refresh, I32_MAX), Min(soa.retry, I32_MAX),
                      Min(soa.expire, I32_MAX), soa.minimum))
  }

  /** `ns_records`. */
  function NsRecords(apex: Name, c: Config, ttl: nat): seq<Record> {
    seq(|c.nameservers|, i requires 0 <= i < |c.nameservers| => NewRecord(apex, ttl, NsData(c.nameservers[i])))
  }

  /** The search `negative_authority` makes: each zone's reverse origin, then its forward apex. */
  function NegativeSoa(zones: seq<Zone>, soa: SoaParams, qname: Name): seq<Record> {
    if zones == [] then []
    else if ZoneOf(zones[0].ptrZone, qname) then [SoaRecord(zones[0].ptrZone, soa, zones[0].ttl)]
    else if ZoneOf(zones[0].fwdParent, qname) then [SoaRecord(zones[0].fwdParent, soa, zones[0].ttl)]
    else NegativeSoa(zones[1..], soa, qname)
  }

  /** `negative_authority`. */
  function NegativeAuthority(c: Config, qname: Name, kind: Kind): seq<Record> {
    if kind != KindNegative then []
    else
      match c.soa
      case None => []
      case Some(soa) => NegativeSoa(c.zones, soa, qname)
  }

  /** `Iterator::find` with the case-insensitive equality of names. */
  function FindName(names: seq<Name>, qname: Name): Option<Name> {
    if names == [] then None
    else if SameName(names[0], qname) then Some(names[0])
    else FindName(names[1..], qname)
  }

  lemma {:induction false} FindNameExact(names: seq<Name>, qname: Name)
    ensures FindName(names, qname).Some? <==> Listed(names, qname)
    ensures FindName(names, qname).Some? ==> SameName(FindName(names, qname).value, qname)
  {
    if names != [] {
      FindNameExact(names[1..], qname);
      if i :| 0 <= i < |names| && SameName(names[i], qname) {
        if i > 0 {
          assert names[1..][i - 1] == names[i];
        }
      }
      if i :| 0 <= i < |names| - 1 && SameName(names[1..][i], qname) {
        assert names[i + 1] == names[1..][i];
      }
    }
  }

  // ---- the vocabulary of the contract ----

  /** Standard queries of class IN (or ANY), transfers excepted. */
  predicate Served(qtype: RecordType, qclass: DnsClass) {
    qclass in {ClassIN, ClassANY} && qtype !in {AXFR, IXFR}
  }

  predicate IsApex(c: Config, qname: Name) {
    exists i :: 0 <= i < |c.zones| && IsApexOf(c.zones[i], qname)
  }

  predicate AsksApex(c: Config, qname: Name, qtype: RecordType) {
    qtype in {SOA, NS, ANY} && IsApex(c, qname)
  }

  /** Exactly one SOA record: that of the first zone that encloses the name asked for. */
  predicate OneEnclosingSoa(c: Config, qname: Name, authority: seq<Record>)
    requires c.soa.Some?
  {
    && ZoneContaining(c, qname).Some?
    && |authority| == 1
    && SoaOfZone(ZoneContaining(c, qname).value, c.soa.value, qname, authority[0])
  }

  /** The SOA record of the zone's reverse origin if that encloses the name, else of its forward apex, which then does. */
  predicate SoaOfZone(z: Zone, soa: SoaParams, qname: Name, record: Record) {
    && record.owner == (if ZoneOf(z.ptrZone, qname) then z.ptrZone else z.fwdParent)
    && ZoneOf(record.owner, qname)
    && SoaFor(soa, z.ttl, record)
  }

  /** The configured SOA, its TTL no longer than either the zone's or the minimum. */
  predicate SoaFor(soa: SoaParams, ttl: nat, record: Record) {
    && record.dnsClass == ClassIN
    && record.ttl == (if ttl < soa.minimum then ttl else soa.minimum)
    && record.data.SoaData?
    && record.data.mname == soa.primary && record.data.rname == soa.hostmaster && record.data.serial == soa.serial
    && record.data.refresh == Min(soa.refresh, 0x7FFF_FFFF) && record.data.retry == Min(soa.retry, 0x7FFF_FFFF)
    && record.data.expire == Min(soa.expire, 0x7FFF_FFFF) && record.data.minimum == soa.minimum
  }

  predicate OwnedBy(records: seq<Record>, qname: Name) {
    forall i :: 0 <= i < |records| ==> SameName(records[i].owner, qname)
  }

  lemma {:induction false} NegativeSoaExact(zones: seq<Zone>, soa: SoaParams, qname: Name)
    ensures var zone, records := FirstEnclosing(zones, qname), NegativeSoa(zones, soa, qname);
      if zone.None? then records == [] else |records| == 1 && SoaOfZone(zone.value, soa, qname, records[0])
  {
    if zones != [] && !Encloses(zones[0], qname) {
      NegativeSoaExact(zones[1..], soa, qname);
    }
  }

  lemma ApexEnclosed(c: Config, qname: Name)
    requires IsApex(c, qname)
    ensures ZoneContaining(c, qname).Some?
  {
    FirstEnclosingFacts(c.zones, qname);
    var i :| 0 <= i < |c.zones| && IsApexOf(c.zones[i], qname);
    var z := c.zones[i];
    SameNameLabels(z.ptrZone, qname);
    SameNameLabels(z.fwdParent, qname);
    assert qname[0..] == qname;
    assert Encloses(c.zones[i], qname);
  }

  /** Whatever the configuration answers, the zone it answers from was reached by a match. */
  lemma AnswerMeansMatch(c: Config, qname: Name, qtype: RecordType)
    requires ValidConfig(c)
    ensures Resolve(c, qname, qtype).Answer? ==> ZoneContaining(c, qname).Some? || Overrun(c, qname)
    ensures Resolve(c, qname, qtype).NoName? ==> ZoneContaining(c, qname) == Some(Resolve(c, qname, qtype).zone)
    ensures Resolve(c, qname, qtype).NoZone? ==> ZoneContaining(c, qname).None? && !Overrun(c, qname)
  {
    if MatchPtr(c, qname).Some? {
      ReverseEnclosed(c, qname);
    }
    OutcomeSource(c, qname, qtype);
  }

  lemma OutcomeSource(c: Config, qname: Name, qtype: RecordType)
    ensures Resolve(c, qname, qtype).Answer? ==> MatchPtr(c, qname).Some? || MatchForward(c, qname).Some?
    ensures Resolve(c, qname, qtype).NoName? ==> ZoneContaining(c, qname) == Some(Resolve(c, qname, qtype).zone)
    ensures Resolve(c, qname, qtype).NoZone? ==> ZoneContaining(c, qname).None? && MatchForward(c, qname).None?
  {
  }

  // ---- the decision ----

  /** Only a PTR query for a matched name of a zone with an upstream consults that upstream. */
  function Relayed(c: Config, upstreams: map<IpAddr, seq<Record>>, qname: Name, qtype: RecordType): seq<Record> {
    match Resolve(c, qname, qtype)
    case Answer(zone, _) =>
      if qtype == PTR && zone.upstream.Some? && zone.upstream.value in upstreams
      then Relay(qname, upstreams[zone.upstream.value])
      else []
    case _ => []
  }

  function ApexTtl(c: Config): nat {
    if c.zones == [] then 3600 else c.zones[0].ttl
  }

  function ApexSoas(c: Config, apex: Name, qtype: RecordType): seq<Record> {
    if c.soa.Some? && (qtype == SOA || qtype == ANY) then [SoaRecord(apex, c.soa.value, ApexTtl(c))] else []
  }

  function ApexServers(c: Config, apex: Name, qtype: RecordType): (r: seq<Record>)
    ensures |r| == if qtype == NS || qtype == ANY then |c.nameservers| else 0
  {
    if qtype == NS || qtype == ANY then NsRecords(apex, c, ApexTtl(c)) else []
  }

  /** The reply to an apex query: the SOA and the NS records asked for, from the first spelling configured. */
  predicate ApexReply(c: Config, qname: Name, qtype: RecordType, r: Reply) {
    && r.code == NoError && r.authoritative && r.authority == []
    && (r.kind.KindNegative? <==> r.answers == [])
    && OwnedBy(r.answers, qname)
    && FindName(ApexesOf(c.zones), qname).Some?
    && var apex := FindName(ApexesOf(c.zones), qname).value;
       r.answers == ApexSoas(c, apex, qtype) + ApexServers(c, apex, qtype)
  }

  /**
    An apex reply never carries authority records. With a SOA configured it is empty in one case
    only: the name servers were asked for and none is configured.
   */
  lemma ApexNegative(c: Config, qname: Name, qtype: RecordType, r: Reply)
    requires qtype in {SOA, NS, ANY} && ApexReply(c, qname, qtype, r)
    ensures r.authority == []
    ensures c.soa.Some? ==> (r.answers == [] <==> qtype == NS && c.nameservers == [])
    ensures c.soa.None? ==> (r.answers == [] <==> qtype == SOA || c.nameservers == [])
  {
    var apex := FindName(ApexesOf(c.zones), qname).value;
    assert |r.answers| == |ApexSoas(c, apex, qtype)| + |ApexServers(c, apex, qtype)|;
  }

  /** Record by record: the SOA first, if one is asked for, then the name servers in the order configured. */
  predicate ApexRecords(c: Config, qname: Name, qtype: RecordType, answers: seq<Record>) {
    var soas := if c.soa.Some? && (qtype == SOA || qtype == ANY) then 1 else 0;
    var servers := if qtype == NS || qtype == ANY then |c.nameservers| else 0;
    var ttl := if c.zones == [] then 3600 else c.zones[0].ttl;
    && |answers| == soas + servers
    && (soas == 1 ==> SameName(answers[0].owner, qname) && SoaFor(c.soa.value, ttl, answers[0]))
    && ServersFrom(c, ttl, qname, answers, soas, servers)
  }

  predicate ServersFrom(c: Config, ttl: nat, qname: Name, answers: seq<Record>, from: nat, count: nat)
    requires from + count <= |answers| && count <= |c.nameservers|
  {
    forall k :: 0 <= k < count ==>
      SameName(answers[from + k].owner, qname) && IsServer(answers[from + k], ttl, c.nameservers[k])
  }

  predicate IsServer(record: Record, ttl: nat, server: Name) {
    record.dnsClass == ClassIN && record.ttl == ttl && record.data == NsData(server)
  }

  lemma ApexRecordsExact(c: Config, qname: Name, qtype: RecordType, r: Reply)
    requires qtype in {SOA, NS, ANY} && ApexReply(c, qname, qtype, r)
    ensures ApexRecords(c, qname, qtype, r.answers)
  {
    FindNameExact(ApexesOf(c.zones), qname);
    ListedRecords(c, qname, qtype, FindName(ApexesOf(c.zones), qname).value, r.answers);
  }

  lemma ListedRecords(c: Config, qname: Name, qtype: RecordType, apex: Name, answers: seq<Record>)
    requires SameName(apex, qname)
    requires answers == ApexSoas(c, apex, qtype) + ApexServers(c, apex, qtype)
    ensures ApexRecords(c, qname, qtype, answers)
  {
    ServersBehind(c, qname, qtype, apex, ApexSoas(c, apex, qtype), answers);
  }

  lemma ServersBehind(c: Config, qname: Name, qtype: RecordType, apex: Name, front: seq<Record>, answers: seq<Record>)
    requires SameName(apex, qname) && answers == front + ApexServers(c, apex, qtype)
    ensures |answers| == |front| + |ApexServers(c, apex, qtype)|
    ensures ServersFrom(c, ApexTtl(c), qname, answers, |front|, |ApexServers(c, apex, qtype)|)
  {
    Behind(front, ApexServers(c, apex, qtype), answers);
    ServersExact(c, apex, qtype);
  }

  lemma Behind(front: seq<Record>, back: seq<Record>, all: seq<Record>)
    requires all == front + back
    ensures |all| == |front| + |back|
    ensures forall k :: 0 <= k < |back| ==> all[|front| + k] == back[k]
    ensures forall k :: 0 <= k < |front| ==> all[k] == front[k]
  {
  }

  lemma ServersExact(c: Config, apex: Name, qtype: RecordType)
    ensures forall k :: 0 <= k < |ApexServers(c, apex, qtype)| ==>
      ApexServers(c, apex, qtype)[k].owner == apex && IsServer(ApexServers(c, apex, qtype)[k], ApexTtl(c), c.nameservers[k])
  {
  }

  lemma ApexOwners(c: Config, apex: Name, qname: Name, qtype: RecordType, answers: seq<Record>)
    requires SameName(apex, qname) && answers == ApexSoas(c, apex, qtype) + ApexServers(c, apex, qtype)
    ensures OwnedBy(answers, qname)
  {
    ServersExact(c, apex, qtype);
  }

  /** The apex branch of `decide`; nothing if the name is not an apex. */
  method DecideApex(c: Config, qname: Name, qtype: RecordType) returns (r: Option<Reply>)
    requires qtype in {SOA, NS, ANY}
    ensures r.Some? <==> IsApex(c, qname)
    ensures r.Some? ==> ApexReply(c, qname, qtype, r.value)
  {
    var apexes := Apexes(c);
    var found := FindName(apexes, qname);
    FindNameExact(apexes, qname);
    ApexesExact(c.zones, qname);
    if found.None? {
      return None;
    }
    var apex := found.value;
    var ttl := if |c.zones| > 0 then c.zones[0].ttl else 3600;
    var answers: seq<Record> := [];
    if qtype == SOA || qtype == ANY {
      if c.soa.Some? {
        answers := answers + [SoaRecord(apex, c.soa.value, ttl)];
      }
    }
    assert answers == ApexSoas(c, apex, qtype);
    if qtype == NS || qtype == ANY {
      answers := answers + NsRecords(apex, c, ttl);
    }
    assert answers == ApexSoas(c, apex, qtype) + ApexServers(c, apex, qtype);
    ApexOwners(c, apex, qname, qtype, answers);
    return Some(Reply(NoError, true, answers, [], if answers == [] then KindNegative else KindAnswer));
  }

  /** Every resolved record is owned by the name asked for. */
  lemma ResolvedOwners(c: Config, qname: Name, qtype: RecordType)
    ensures Resolve(c, qname, qtype).Answer? ==> OwnedBy(Resolve(c, qname, qtype).records, qname)
  {
  }

  lemma RelayedOwners(qname: Name, answers: seq<Record>)
    ensures OwnedBy(Relay(qname, answers), qname)
  {
    if UpstreamQname(qname).Some? {
      RelayedRecords(qname, UpstreamQname(qname).value, answers);
    }
  }

  /**
    The reply to any other query: what the configuration says about it, except that records
    relayed for a matched PTR replace the synthesized one.
   */
  predicate ResolvedReply(c: Config, upstreams: map<IpAddr, seq<Record>>, qname: Name, qtype: RecordType, r: Reply) {
    match Resolve(c, qname, qtype)
    case Answer(_, records) =>
      var relayed := Relayed(c, upstreams, qname, qtype);
      && r.code == NoError && r.authoritative
      && r.answers == (if records != [] && relayed != [] then relayed else records)
      && r.authority == NegativeAuthority(c, qname, r.kind)
    case NoName(_) =>
      && r.code == NxDomain && r.authoritative && r.answers == []
      && (c.soa.None? ==> r.authority == [])
      && (c.soa.Some? ==> OneEnclosingSoa(c, qname, r.authority))
    case NoZone =>
      r == if c.outOfZone.PolicyRefused? then REFUSAL else REFUSAL.(code := NxDomain)
  }

  /** The records an upstream gives for a matched PTR query, if its zone has one. */
  function OverrideFor(z: Zone, upstreams: map<IpAddr, seq<Record>>, qname: Name): seq<Record> {
    if z.upstream.Some? && z.upstream.value in upstreams then Relay(qname, upstreams[z.upstream.value]) else []
  }

  /**
    The reply, type by type. The reverse name of a served address answers PTR and ANY, PTR with
    the upstream's records where there are any; a forward name answers AAAA and ANY with its
    address and every other type with nothing; other names do not exist.
   */
  predicate RepliesByType(c: Config, upstreams: map<IpAddr, seq<Record>>, qname: Name, qtype: RecordType, r: Reply) {
    if (qtype == PTR || qtype == ANY) && MatchPtr(c, qname).Some? then
      var (z, addr) := MatchPtr(c, qname).value;
      && r.code == NoError && r.authoritative
      && r.answers == if qtype == PTR && OverrideFor(z, upstreams, qname) != [] then OverrideFor(z, upstreams, qname)
                      else [Record(qname, ClassIN, z.ttl, PtrData(NameOf(z, addr)))]
    else if MatchForward(c, qname).Some? then
      var (z, addr) := MatchForward(c, qname).value;
      && r.code == NoError && r.authoritative
      && r.answers == if qtype == AAAA || qtype == ANY then [Record(qname, ClassIN, z.ttl, AaaaData(addr))] else []
    else if ZoneContaining(c, qname).Some? then r.code == NxDomain && r.authoritative && r.answers == []
    else
      && r.code == (if c.outOfZone.PolicyRefused? then Refused else NxDomain)
      && !r.authoritative && r.answers == [] && r.authority == []
  }

  lemma ResolvedByType(c: Config, upstreams: map<IpAddr, seq<Record>>, qname: Name, qtype: RecordType, r: Reply)
    requires ValidConfig(c) && ResolvedReply(c, upstreams, qname, qtype, r)
    ensures RepliesByType(c, upstreams, qname, qtype, r)
  {
    ResolveExact(c, qname, qtype);
  }

  /** Authority is exact and negatives are cacheable, for every reply the configuration determines. */
  lemma AuthorityAndNegatives(c: Config, upstreams: map<IpAddr, seq<Record>>, qname: Name, qtype: RecordType, r: Reply)
    requires ValidConfig(c) && ResolvedReply(c, upstreams, qname, qtype, r)
    requires r.kind.KindNegative? <==> r.answers == []
    ensures r.authoritative <==> ZoneContaining(c, qname).Some? || Overrun(c, qname)
    ensures !r.authoritative ==> r == if c.outOfZone.PolicyRefused? then REFUSAL else REFUSAL.(code := NxDomain)
    ensures r.answers != [] ==> r.authority == []
    ensures r.authoritative && r.answers == [] && c.soa.Some? ==>
      (OneEnclosingSoa(c, qname, r.authority) <==> ZoneContaining(c, qname).Some?)
    ensures c.soa.None? || ZoneContaining(c, qname).None? ==> r.authority == []
  {
    AnswerMeansMatch(c, qname, qtype);
    if c.soa.Some? {
      NegativeSoaExact(c.zones, c.soa.value, qname);
    }
  }

  method DecideResolved(c: Config, upstreams: map<IpAddr, seq<Record>>, qname: Name, qtype: RecordType) returns (r: Reply)
    ensures ResolvedReply(c, upstreams, qname, qtype, r)
    ensures OwnedBy(r.answers, qname)
    ensures r.kind.KindNegative? <==> r.answers == []
  {
    ResolvedOwners(c, qname, qtype);
    match Resolve(c, qname, qtype) {
      case Answer(zone, resolved) =>
        var records := resolved;
        if records != [] && qtype == PTR {
          if zone.upstream.Some? && zone.upstream.value in upstreams {
            var relayed := Relay(qname, upstreams[zone.upstream.value]);
            RelayedOwners(qname, upstreams[zone.upstream.value]);
            if relayed != [] {
              records := relayed;
            }
          }
        }
        var kind := if records == [] then KindNegative else KindAnswer;
        return Reply(NoError, true, records, NegativeAuthority(c, qname, kind), kind);
      case NoName(zone) =>
        var apex := if ZoneOf(zone.ptrZone, qname) then zone.ptrZone else zone.fwdParent;
        var authority := match c.soa case None => [] case Some(soa) => [SoaRecord(apex, soa, zone.ttl)];
        OutcomeSource(c, qname, qtype);
        FirstEnclosingFacts(c.zones, qname);
        return Reply(NxDomain, true, [], authority, KindNegative);
      case NoZone =>
        match c.outOfZone {
          case PolicyRefused =>
            return REFUSAL;
          case PolicyNxDomain =>
            return Reply(NxDomain, false, [], [], KindNegative);
        }
    }
  }

  lemma ApexFacts(c: Config, qname: Name, qtype: RecordType, r: Reply)
    requires qtype in {SOA, NS, ANY} && ApexReply(c, qname, qtype, r) && IsApex(c, qname)
    ensures ZoneContaining(c, qname).Some? && r.authority == []
    ensures ApexRecords(c, qname, qtype, r.answers)
    ensures r.answers == [] && c.soa.Some? ==> qtype == NS && c.nameservers == []
  {
    ApexEnclosed(c, qname);
    ApexNegative(c, qname, qtype, r);
    ApexRecordsExact(c, qname, qtype, r);
  }

  /**
    `Handler::decide`. `upstreams` holds, for each upstream client, the raw answer section its
    lookup would yield for this name; a skipped, failed or timed-out lookup yields none.
   */
  method Decide(c: Config, upstreams: map<IpAddr, seq<Record>>, qname: Name, qtype: RecordType, qclass: DnsClass)
    returns (r: Reply)
    requires ValidConfig(c)
    // what is never served
    ensures !Served(qtype, qclass) ==> r == Reply(Refused, false, [], [], KindNegative)
    // authority is exact
    ensures r.authoritative <==>
      && (qclass == ClassIN || qclass == ClassANY) && qtype != AXFR && qtype != IXFR
      && (ZoneContaining(c, qname).Some? || Overrun(c, qname))
    ensures Served(qtype, qclass) && !r.authoritative ==>
      r == Reply(if c.outOfZone.PolicyRefused? then Refused else NxDomain, false, [], [], KindNegative)
    // an answer is about the name asked for, and is budgeted as what it is
    ensures OwnedBy(r.answers, qname)
    ensures r.kind.KindNegative? <==> r.answers == []
    ensures r.answers != [] ==> r.authority == []
    // an apex answers for itself
    ensures Served(qtype, qclass) && (qtype == SOA || qtype == NS || qtype == ANY) && IsApex(c, qname) ==>
      ApexReply(c, qname, qtype, r) && ApexRecords(c, qname, qtype, r.answers)
    // everything else follows the configuration, or the upstream where one overrides a PTR
    ensures Served(qtype, qclass) && !AsksApex(c, qname, qtype) ==>
      ResolvedReply(c, upstreams, qname, qtype, r) && RepliesByType(c, upstreams, qname, qtype, r)
    // every negative is cacheable, precisely when some apex encloses the name, except one
    ensures r.authoritative && r.answers == [] && c.soa.Some? ==>
      (OneEnclosingSoa(c, qname, r.authority) <==> ZoneContaining(c, qname).Some? && !AsksApex(c, qname, qtype))
    ensures r.authoritative && r.answers == [] && c.soa.Some? && AsksApex(c, qname, qtype) ==>
      qtype == NS && c.nameservers == []
    ensures c.soa.None? || ZoneContaining(c, qname).None? ==> r.authority == []
  {
    if !(qclass == ClassIN || qclass == ClassANY) {
      return REFUSAL;
    }
    if qtype == AXFR || qtype == IXFR {
      return REFUSAL;
    }
    if qtype == SOA || qtype == NS || qtype == ANY {
      var reply := DecideApex(c, qname, qtype);
      if reply.Some? {
        ApexFacts(c, qname, qtype, reply.value);
        return reply.value;
      }
    }
    r := DecideResolved(c, upstreams, qname, qtype);
    AuthorityAndNegatives(c, upstreams, qname, qtype, r);
    ResolvedByType(c, upstreams, qname, qtype, r);
  }

  // ---- consequences ----

  /** Without `*` templates authority is exactly containment in a configured namespace. */
  lemma NoOverrunWithoutStar(c: Config, qname: Name)
    requires ValidConfig(c) && forall i :: 0 <= i < |c.zones| ==> !StarTemplate(c.zones[i].fwd)
    ensures !Overrun(c, qname)
  {
    if Overrun(c, qname) {
      OverrunNeedsStar(c, qname);
    }
  }
}

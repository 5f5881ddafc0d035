/** Building the records of an answer (src/zone/synth.rs). */
module Synth {
  import opened Wrappers
  import opened Bits
  import opened Names
  import opened Nibble
  import opened ConfigModel

  datatype RecordType = A | AAAA | PTR | SOA | NS | ANY | AXFR | IXFR | OtherType(code: nat)

  datatype DnsClass = ClassIN | ClassANY | OtherClass(code: nat)

  datatype RData =
    | PtrData(target: Name)
    | AaaaData(addr: nat)
    | NsData(server: Name)
    | SoaData(mname: Name, rname: Name, serial: nat, refresh: nat, retry: nat, expire: nat, minimum: nat)
    | OtherData(rtype: RecordType)

  datatype Record = Record(owner: Name, dnsClass: DnsClass, ttl: nat, data: RData)

  /** `Record::from_rdata`, which makes a record of class IN. */
  function NewRecord(owner: Name, ttl: nat, data: RData): Record {
    Record(owner, ClassIN, ttl, data)
  }

  /** `forward_name`. */
  function ForwardName(z: Zone, addr: u128): Option<Name> {
    match HostDigits(addr, z.hostNibbles)
    case None => None
    case Some(digits) => Rendered(z.fwd, digits)
  }

  /** `ptr_record`. */
  function PtrRecord(z: Zone, qname: Name, addr: u128): Option<Record> {
    match ForwardName(z, addr)
    case None => None
    case Some(target) => Some(NewRecord(qname, z.ttl, PtrData(target)))
  }

  /** `aaaa_record`. */
  function AaaaRecord(z: Zone, qname: Name, addr: nat): Record {
    NewRecord(qname, z.ttl, AaaaData(addr))
  }

  predicate ForwardHasType(t: RecordType) {
    t == AAAA || t == ANY
  }

  predicate ReverseHasType(t: RecordType) {
    t == PTR || t == ANY
  }

  /** The name a valid zone prints for an address: the digits are its low nibbles. */
  function NameOf(z: Zone, addr: nat): Name {
    RenderedLabels(z.fwd.labels, FixedHex(addr, z.hostNibbles))
  }

  /** Rendering never fails for a compiled zone, whatever the address. */
  lemma ForwardNameTotal(z: Zone, addr: u128)
    requires ValidZone(z)
    ensures ForwardName(z, addr) == Some(NameOf(z, addr))
  {
    HostDigitsExact(addr, z.hostNibbles);
    WidestProbeSuffices(z.fwd, z.hostNibbles, FixedHex(addr, z.hostNibbles));
  }
}

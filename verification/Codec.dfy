/** The mapping between one value of a logical record and the Infoblox
    object that stores it, in both directions: writes store one object per
    target, reads turn each object back into single-target logical records
    (a HOST object into one A record per address). */
module Codec {
  import opened Wrappers
  import opened Objects

  /** The object type a record type is stored as. */
  function KindOf(t: RecordType): (k: ObjectType)
    ensures k != RecordHost
  {
    match t
    case A => RecordA
    case CNAME => RecordCname
    case TXT => RecordTxt
    case PTR => RecordPtr
  }

  /** The object that stores one target of a record named `name` in `zone`;
      a PTR object is keyed by the forward name and holds the address. */
  function ObjectFor(t: RecordType, name: string, target: string, zone: string): (o: RawObject)
    ensures Kind(o) == KindOf(t) && OwnerName(o) == name && o.zone == zone && o.ref == ""
  {
    match t
    case A => ARecord(name, target, zone, "")
    case CNAME => CnameRecord(name, target, zone, "")
    case TXT => TxtRecord(name, target, zone, "")
    case PTR => PtrRecord(name, target, zone, "")
  }

  /** The logical records one object stands for: one A record per address
      of a HOST object, and one single-target record of its own type for
      any other object (a PTR under its forward name). The double logs the
      objects it creates and updates in this shape, and reads use it too. */
  function EndpointsOf(o: RawObject): (eps: seq<Endpoint>)
    ensures o.HostRecord? ==> |eps| == |o.ipv4addrs|
    ensures !o.HostRecord? ==> |eps| == 1 && KindOf(eps[0].recordType) == Kind(o)
    ensures forall i :: 0 <= i < |eps| ==>
              eps[i].name == OwnerName(o) && |eps[i].targets| == 1 && eps[i].providerSpecific == map[]
              && (eps[i].recordType == PTR <==> o.PtrRecord?)
  {
    match o
    case ARecord(n, ip, _, _) => [NewEndpoint(n, A, ip)]
    case CnameRecord(n, c, _, _) => [NewEndpoint(n, CNAME, c)]
    case HostRecord(n, ips, _, _) => seq(|ips|, i requires 0 <= i < |ips| => NewEndpoint(n, A, ips[i]))
    case TxtRecord(n, t, _, _) => [NewEndpoint(n, TXT, t)]
    case PtrRecord(n, ip, _, _) => [NewEndpoint(n, PTR, ip)]
  }

  /** Reading back a stored value gives the one-target record it came from,
      whatever the zone and reference the object carries. */
  lemma ReadBackWritten(t: RecordType, name: string, target: string, zone: string, ref: string)
    ensures EndpointsOf(WithRef(ObjectFor(t, name, target, zone), ref)) == [NewEndpoint(name, t, target)]
  {
  }

  /** Writing a read single-value object stores the same value again: the
      round trip in the other direction, for every type except HOST, which
      writes never produce. */
  lemma WriteBackRead(o: RawObject)
    requires !o.HostRecord?
    ensures var e := EndpointsOf(o)[0];
            ObjectFor(e.recordType, e.name, e.targets[0], o.zone) == WithRef(o, "")
  {
  }

  /** A HOST object reads as the A objects of its addresses would, address
      by address, whatever its zone and reference. */
  lemma HostReadsAsAddresses(n: string, ips: seq<string>, zone: string, ref: string)
    ensures var eps := EndpointsOf(HostRecord(n, ips, zone, ref));
            |eps| == |ips|
            && forall i :: 0 <= i < |ips| ==> [eps[i]] == EndpointsOf(ObjectFor(A, n, ips[i], zone))
  {
  }
}

/** The data the provider works on: logical records (external-dns endpoints),
    the Infoblox record objects that store them, zones, the provider's
    configuration and the change batches it applies. */
module Objects {

  /** Record types of the generic record model handled here. */
  datatype RecordType = A | CNAME | TXT | PTR

  function RecordTypeName(t: RecordType): string {
    match t
    case A => "A"
    case CNAME => "CNAME"
    case TXT => "TXT"
    case PTR => "PTR"
  }

  /** A logical record: a name, a type, its values and provider-specific flags. */
  datatype Endpoint = Endpoint(name: string, recordType: RecordType, targets: seq<string>,
                               providerSpecific: map<string, string>)

  /** endpoint.NewEndpoint with one target and no provider-specific flags. */
  function NewEndpoint(name: string, t: RecordType, target: string): Endpoint {
    Endpoint(name, t, [target], map[])
  }

  /** Infoblox object types ("record:a", ...). */
  datatype ObjectType = RecordA | RecordCname | RecordHost | RecordTxt | RecordPtr

  function ObjectTypeName(k: ObjectType): (s: string)
    ensures '/' !in s && |s| > 0
  {
    match k
    case RecordA => "record:a"
    case RecordCname => "record:cname"
    case RecordHost => "record:host"
    case RecordTxt => "record:txt"
    case RecordPtr => "record:ptr"
  }

  lemma ObjectTypeNameInjective(k: ObjectType, l: ObjectType)
    requires ObjectTypeName(k) == ObjectTypeName(l)
    ensures k == l
  {
    var s := ObjectTypeName(k);
    assert s[7] == ObjectTypeName(l)[7];
    assert |s| == |ObjectTypeName(l)|;
  }

  /** An Infoblox record object. A HOST object carries several addresses; a
      PTR object is keyed by the forward name it points to (`ptrdname`). */
  datatype RawObject =
    | ARecord(name: string, ipv4addr: string, zone: string, ref: string)
    | CnameRecord(name: string, canonical: string, zone: string, ref: string)
    | HostRecord(name: string, ipv4addrs: seq<string>, zone: string, ref: string)
    | TxtRecord(name: string, text: string, zone: string, ref: string)
    | PtrRecord(ptrdname: string, ipv4addr: string, zone: string, ref: string)

  function Kind(o: RawObject): ObjectType {
    match o
    case ARecord(_, _, _, _) => RecordA
    case CnameRecord(_, _, _, _) => RecordCname
    case HostRecord(_, _, _, _) => RecordHost
    case TxtRecord(_, _, _, _) => RecordTxt
    case PtrRecord(_, _, _, _) => RecordPtr
  }

  /** The name the object's reference encodes: the record name, or for PTR the forward name. */
  function OwnerName(o: RawObject): string {
    if o.PtrRecord? then o.ptrdname else o.name
  }

  /** The same object carrying reference `r`. */
  function WithRef(o: RawObject, r: string): (p: RawObject)
    ensures p.ref == r && Kind(p) == Kind(o) && OwnerName(p) == OwnerName(o) && p.zone == o.zone
    ensures o.ref == r ==> p == o
  {
    match o
    case ARecord(n, ip, z, _) => ARecord(n, ip, z, r)
    case CnameRecord(n, c, z, _) => CnameRecord(n, c, z, r)
    case HostRecord(n, ips, z, _) => HostRecord(n, ips, z, r)
    case TxtRecord(n, t, z, _) => TxtRecord(n, t, z, r)
    case PtrRecord(n, ip, z, _) => PtrRecord(n, ip, z, r)
  }

  /** An authoritative zone: a DNS suffix or, for reverse zones, a CIDR string. */
  datatype Zone = Zone(fqdn: string)

  /** The provider's startup configuration. */
  datatype Config = Config(view: string, dryRun: bool, createPTR: bool)

  /** A change batch; updateOld[i] and updateNew[i] are the two sides of one update. */
  datatype Changes = Changes(create: seq<Endpoint>, updateOld: seq<Endpoint>,
                             updateNew: seq<Endpoint>, delete: seq<Endpoint>)
}

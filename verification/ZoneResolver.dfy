/** Zone resolution: the authoritative zone a record name belongs to (the
    longest zone name it ends with on a sub boundary) and the reverse zone
    an IPv4 address falls in (the most specific CIDR zone containing it). */
module ZoneResolver {
  import opened Wrappers
  import opened Objects
  import Strings
  import Ipv4
  import Selection

  /** `name` lies in the zone `fqdn`: it ends with "." + fqdn, or is fqdn. */
  predicate InZone(name: string, fqdn: string) {
    Strings.HasSuffix(name, "." + fqdn) || name == fqdn
  }

  /** Two zones of equal length that both contain a name are the same zone. */
  lemma SameLengthSameZone(name: string, f: string, g: string)
    requires InZone(name, f) && InZone(name, g) && |f| == |g|
    ensures f == g
  {
    if name != f && name != g {
      assert ("." + f)[1..] == f && ("." + g)[1..] == g;
    }
  }

  function FindZone(zones: seq<Zone>, name: string): (r: Option<Zone>)
    ensures r.None? <==> forall z :: z in zones ==> !InZone(name, z.fqdn)
    ensures r.Some? ==> r.value in zones && InZone(name, r.value.fqdn)
    ensures r.Some? ==> forall z :: z in zones && InZone(name, z.fqdn) ==> |z.fqdn| <= |r.value.fqdn|
  {
    match Selection.SelectBest(zones, (z: Zone) => InZone(name, z.fqdn), (z: Zone) => |z.fqdn|)
    case None => None
    case Some(i) => Some(zones[i])
  }

  /** The zone found depends only on which zones are listed, not on their
      order or repetition: the longest containing zone is unique. */
  lemma FindZoneOrderIndependent(zs: seq<Zone>, ws: seq<Zone>, name: string)
    requires forall z :: z in zs <==> z in ws
    ensures FindZone(zs, name) == FindZone(ws, name)
  {
    var r, s := FindZone(zs, name), FindZone(ws, name);
    if r.Some? {
      assert s.Some?;
      SameLengthSameZone(name, r.value.fqdn, s.value.fqdn);
    }
  }

  /** A zone matches a name exactly when it is its longest containing zone
      among the listed ones, so adding a shorter zone never changes the choice. */
  lemma FindZoneIgnoresShorter(zs: seq<Zone>, z: Zone, name: string)
    requires FindZone(zs, name).Some?
    requires |z.fqdn| <= |FindZone(zs, name).value.fqdn|
    ensures FindZone(zs + [z], name) == FindZone(zs, name)
  {
    var r, s := FindZone(zs, name), FindZone(zs + [z], name);
    assert r.value in zs + [z];
    assert s.Some?;
    if s.value in zs {
      SameLengthSameZone(name, r.value.fqdn, s.value.fqdn);
    } else {
      assert s.value == z;
      SameLengthSameZone(name, r.value.fqdn, s.value.fqdn);
    }
  }

  /** The zone is a CIDR network containing the address. */
  predicate ReverseMatch(ip: Ipv4.Addr, z: Zone) {
    match Ipv4.ParseCidr(z.fqdn)
    case None => false
    case Some(c) => Ipv4.Contains(c, ip)
  }

  /** The prefix length of a CIDR zone; other zones never match. */
  function PrefixLength(z: Zone): int {
    match Ipv4.ParseCidr(z.fqdn)
    case None => -1
    case Some(c) => c.prefix
  }

  function FindReverseZone(zones: seq<Zone>, name: string): (r: Option<Zone>)
    ensures Ipv4.ParseIPv4(name).None? ==> r.None?
    ensures Ipv4.ParseIPv4(name).Some? ==>
              (r.None? <==> forall z :: z in zones ==> !ReverseMatch(Ipv4.ParseIPv4(name).value, z))
    ensures r.Some? ==> r.value in zones && ReverseMatch(Ipv4.ParseIPv4(name).value, r.value)
    ensures r.Some? ==> forall z :: z in zones && ReverseMatch(Ipv4.ParseIPv4(name).value, z) ==>
                                    PrefixLength(z) <= PrefixLength(r.value)
  {
    match Ipv4.ParseIPv4(name)
    case None => None
    case Some(ip) =>
      match Selection.SelectBest(zones, (z: Zone) => ReverseMatch(ip, z), PrefixLength)
      case None => None
      case Some(i) => Some(zones[i])
  }

  /** A name whose last character differs from the zone's is not in it. */
  lemma LastCharDiffers(name: string, fqdn: string)
    requires |name| > 0 && |fqdn| > 0 && name[|name| - 1] != fqdn[|fqdn| - 1]
    ensures !InZone(name, fqdn)
  {
    var t := "." + fqdn;
    assert t[|t| - 1] == fqdn[|fqdn| - 1];
  }

  /** `sub.fqdn` is in the zone `fqdn`. */
  lemma {:induction false} Below(sub: string, fqdn: string)
    ensures InZone(sub + "." + fqdn, fqdn)
  {
    var name := sub + "." + fqdn;
    assert name[|name| - |"." + fqdn|..] == "." + fqdn;
  }

  /** A name that ends with the zone's text without a dot before it is not in
      the zone. */
  lemma {:induction false} NotOnLabelBoundary(head: string, fqdn: string)
    requires |head| > 0 && head[|head| - 1] != '.'
    ensures !InZone(head + fqdn, fqdn)
  {
    var name := head + fqdn;
    assert name[|head| - 1] == head[|head| - 1];
  }

  /** FindZone picks zone `i` when it contains the name and no listed zone
      containing the name is longer. */
  lemma FindZoneIs(zs: seq<Zone>, name: string, i: nat)
    requires i < |zs| && InZone(name, zs[i].fqdn)
    requires forall j :: 0 <= j < |zs| && InZone(name, zs[j].fqdn) ==> |zs[j].fqdn| <= |zs[i].fqdn|
    ensures FindZone(zs, name) == Some(zs[i])
  {
    var r := FindZone(zs, name).value;
    var j :| 0 <= j < |zs| && zs[j] == r;
    SameLengthSameZone(name, r.fqdn, zs[i].fqdn);
  }

  // ---- The zone list of the provider's zone test ----

  const Apex: string := "example.com"
  const Lvl11: string := "lvl1-1" + "." + Apex
  const Lvl21: string := "lvl2-1" + "." + Lvl11
  const Net123: string := "1.2.3.0/24"
  const ForwardZones: seq<Zone> := [Zone(Apex), Zone(Lvl11), Zone(Lvl21), Zone(Net123)]

  /** The zone names above spell the literal zones of the test. */
  lemma ZoneSpellings()
    ensures Lvl11 == "lvl1-1.example.com"
    ensures Lvl21 == "lvl2-1.lvl1-1.example.com"
  {
  }

  lemma VectorApex()
    ensures FindZone(ForwardZones, Apex) == Some(Zone(Apex))
  {
    LastCharDiffers(Apex, Net123);
    FindZoneIs(ForwardZones, Apex, 0);
  }

  lemma VectorNoMatch()
    ensures FindZone(ForwardZones, "nomatch-" + Apex) == None
  {
    var n := "nomatch-" + Apex;
    NotOnLabelBoundary("nomatch-", Apex);
    LastCharDiffers(n, Net123);
    assert !InZone(n, Lvl11) by {
      assert n[0] != ("." + Lvl11)[0];
    }
  }

  lemma VectorBelowApex(sub: string)
    requires sub == "nginx" || sub == "lvl1-2"
    ensures FindZone(ForwardZones, sub + "." + Apex) == Some(Zone(Apex))
  {
    var n := sub + "." + Apex;
    Below(sub, Apex);
    LastCharDiffers(n, Net123);
    assert !InZone(n, Lvl11) by {
      assert n[5] != Lvl11[5] || |n| != |Lvl11|;
    }
    FindZoneIs(ForwardZones, n, 0);
  }

  lemma VectorSubzone()
    ensures FindZone(ForwardZones, Lvl11) == Some(Zone(Lvl11))
  {
    LastCharDiffers(Lvl11, Net123);
    FindZoneIs(ForwardZones, Lvl11, 1);
  }

  lemma VectorBelowSubzone()
    ensures FindZone(ForwardZones, "lvl2-2" + "." + Lvl11) == Some(Zone(Lvl11))
  {
    var n := "lvl2-2" + "." + Lvl11;
    Below("lvl2-2", Lvl11);
    LastCharDiffers(n, Net123);
    assert n != Lvl21 by {
      assert n[5] != Lvl21[5];
    }
    FindZoneIs(ForwardZones, n, 1);
  }

  lemma VectorDeepest()
    ensures FindZone(ForwardZones, Lvl21) == Some(Zone(Lvl21))
  {
    LastCharDiffers(Lvl21, Net123);
    FindZoneIs(ForwardZones, Lvl21, 2);
  }

  lemma VectorSkipsSibling()
    ensures FindZone(ForwardZones, "lvl2-2" + "." + "lvl1-2" + "." + Apex) == Some(Zone(Apex))
  {
    var n := "lvl2-2" + "." + "lvl1-2" + "." + Apex;
    Below("lvl2-2" + "." + "lvl1-2", Apex);
    LastCharDiffers(n, Net123);
    assert !InZone(n, Lvl11) by {
      assert n[12] != ("." + Lvl11)[6];
    }
    assert n != Lvl21 by {
      assert n[5] != Lvl21[5];
    }
    FindZoneIs(ForwardZones, n, 0);
  }

  lemma VectorNetworkName()
    ensures FindZone(ForwardZones, Net123) == Some(Zone(Net123))
  {
    LastCharDiffers(Net123, Apex);
    LastCharDiffers(Net123, Lvl11);
    LastCharDiffers(Net123, Lvl21);
    FindZoneIs(ForwardZones, Net123, 3);
  }

  // ---- The zone list of the provider's reverse-zone test ----

  const Net10: string := "10.0.0.0/8"
  const ReverseZones: seq<Zone> := [Zone(Apex), Zone(Net123), Zone(Net10)]

  /** The literal `s` spells the address `a`, given the spelling of its octets. */
  lemma Spelled(a: Ipv4.Addr, d0: string, d1: string, d2: string, d3: string, s: string)
    requires Ipv4.ValidAddr(a)
    requires Ipv4.Decimal(a.o0) == d0 && Ipv4.Decimal(a.o1) == d1
    requires Ipv4.Decimal(a.o2) == d2 && Ipv4.Decimal(a.o3) == d3
    requires d0 + "." + d1 + "." + d2 + "." + d3 == s
    ensures Ipv4.FormatAddr(a) == s
    ensures Ipv4.ParseIPv4(s) == Some(a)
  {
    Ipv4.Join4(d0, d1, d2, d3);
    Ipv4.ParseFormat(a);
  }

  /** The literal `s` spells the network `a/p`. */
  lemma SpelledNetwork(a: Ipv4.Addr, p: int, quad: string, d: string, s: string)
    requires Ipv4.ValidAddr(a) && 0 <= p <= 32
    requires Ipv4.FormatAddr(a) == quad && Ipv4.Decimal(p) == d
    requires quad + "/" + d == s
    ensures Ipv4.ParseCidr(s) == Some(Ipv4.Cidr(a, p))
  {
    Ipv4.ParseFormatCidr(a, p);
  }

  lemma Spelling1234()
    ensures Ipv4.ParseIPv4("1.2.3.4") == Some(Ipv4.Addr(1, 2, 3, 4))
  {
    Spelled(Ipv4.Addr(1, 2, 3, 4), "1", "2", "3", "4", "1.2.3.4");
  }

  lemma Spelling10282930()
    ensures Ipv4.ParseIPv4("10.28.29.30") == Some(Ipv4.Addr(10, 28, 29, 30))
  {
    Spelled(Ipv4.Addr(10, 28, 29, 30), "10", "28", "29", "30", "10.28.29.30");
  }

  lemma Spelling192168()
    ensures Ipv4.ParseIPv4("192.168.0.1") == Some(Ipv4.Addr(192, 168, 0, 1))
  {
    Spelled(Ipv4.Addr(192, 168, 0, 1), "192", "168", "0", "1", "192.168.0.1");
  }

  lemma Spelling1230()
    ensures Ipv4.FormatAddr(Ipv4.Addr(1, 2, 3, 0)) == "1.2.3.0"
  {
    Spelled(Ipv4.Addr(1, 2, 3, 0), "1", "2", "3", "0", "1.2.3.0");
  }

  lemma Spelling10000()
    ensures Ipv4.FormatAddr(Ipv4.Addr(10, 0, 0, 0)) == "10.0.0.0"
  {
    Spelled(Ipv4.Addr(10, 0, 0, 0), "10", "0", "0", "0", "10.0.0.0");
  }

  lemma SpellingNet123()
    ensures Ipv4.ParseCidr(Net123) == Some(Ipv4.Cidr(Ipv4.Addr(1, 2, 3, 0), 24))
  {
    Spelling1230();
    SpelledNetwork(Ipv4.Addr(1, 2, 3, 0), 24, "1.2.3.0", "24", Net123);
  }

  lemma SpellingNet10()
    ensures Ipv4.ParseCidr(Net10) == Some(Ipv4.Cidr(Ipv4.Addr(10, 0, 0, 0), 8))
  {
    Spelling10000();
    SpelledNetwork(Ipv4.Addr(10, 0, 0, 0), 8, "10.0.0.0", "8", Net10);
  }

  lemma ApexNotANetwork()
    ensures Ipv4.ParseCidr(Apex) == None
  {
    assert '/' !in Apex;
  }

  /** Membership in 1.2.3.0/24: the first three octets are 1, 2 and 3. */
  lemma InNet123(ip: Ipv4.Addr)
    requires Ipv4.ValidAddr(ip)
    ensures ReverseMatch(ip, Zone(Net123)) <==> ip.o0 == 1 && ip.o1 == 2 && ip.o2 == 3
  {
    SpellingNet123();
    Ipv4.ContainsByOctets(Ipv4.Cidr(Ipv4.Addr(1, 2, 3, 0), 24), ip);
  }

  /** Membership in 10.0.0.0/8: the first octet is 10. */
  lemma InNet10(ip: Ipv4.Addr)
    requires Ipv4.ValidAddr(ip)
    ensures ReverseMatch(ip, Zone(Net10)) <==> ip.o0 == 10
  {
    SpellingNet10();
    Ipv4.ContainsByOctets(Ipv4.Cidr(Ipv4.Addr(10, 0, 0, 0), 8), ip);
  }

  /** Which test address lies in which test network. */
  lemma Memberships()
    ensures ReverseMatch(Ipv4.Addr(1, 2, 3, 4), Zone(Net123))
    ensures !ReverseMatch(Ipv4.Addr(1, 2, 3, 4), Zone(Net10))
    ensures ReverseMatch(Ipv4.Addr(10, 28, 29, 30), Zone(Net10))
    ensures !ReverseMatch(Ipv4.Addr(10, 28, 29, 30), Zone(Net123))
    ensures !ReverseMatch(Ipv4.Addr(192, 168, 0, 1), Zone(Net123))
    ensures !ReverseMatch(Ipv4.Addr(192, 168, 0, 1), Zone(Net10))
    ensures !ReverseMatch(Ipv4.Addr(1, 2, 3, 4), Zone(Apex))
    ensures !ReverseMatch(Ipv4.Addr(10, 28, 29, 30), Zone(Apex))
    ensures !ReverseMatch(Ipv4.Addr(192, 168, 0, 1), Zone(Apex))
  {
    ApexNotANetwork();
    InNet123(Ipv4.Addr(1, 2, 3, 4));
    InNet123(Ipv4.Addr(10, 28, 29, 30));
    InNet123(Ipv4.Addr(192, 168, 0, 1));
    InNet10(Ipv4.Addr(1, 2, 3, 4));
    InNet10(Ipv4.Addr(10, 28, 29, 30));
    InNet10(Ipv4.Addr(192, 168, 0, 1));
  }

  /** FindReverseZone over three zones of which at most one contains the address. */
  lemma FindReverseZoneOfThree(z0: Zone, z1: Zone, z2: Zone, name: string, ip: Ipv4.Addr,
                               m0: bool, m1: bool, m2: bool)
    requires Ipv4.ParseIPv4(name) == Some(ip)
    requires ReverseMatch(ip, z0) == m0 && ReverseMatch(ip, z1) == m1 && ReverseMatch(ip, z2) == m2
    requires !(m0 && m1) && !(m0 && m2) && !(m1 && m2)
    ensures FindReverseZone([z0, z1, z2], name) ==
              if m0 then Some(z0) else if m1 then Some(z1) else if m2 then Some(z2) else None
  {
    var zs := [z0, z1, z2];
    var r := FindReverseZone(zs, name);
    assert forall z :: z in zs <==> z == z0 || z == z1 || z == z2;
    if r.Some? {
      assert r.value == z0 || r.value == z1 || r.value == z2;
    }
  }

  lemma ReverseVectorNotAnAddress()
    ensures FindReverseZone(ReverseZones, "nomatch-" + Apex) == None
  {
    Ipv4.NotALiteral("nomatch-" + Apex, 0);
  }

  lemma ReverseVectorOutside()
    ensures FindReverseZone(ReverseZones, "192.168.0.1") == None
  {
    Spelling192168();
    Memberships();
    FindReverseZoneOfThree(Zone(Apex), Zone(Net123), Zone(Net10), "192.168.0.1",
                           Ipv4.Addr(192, 168, 0, 1), false, false, false);
  }

  lemma ReverseVectorInner()
    ensures FindReverseZone(ReverseZones, "1.2.3.4") == Some(Zone(Net123))
  {
    Spelling1234();
    Memberships();
    FindReverseZoneOfThree(Zone(Apex), Zone(Net123), Zone(Net10), "1.2.3.4",
                           Ipv4.Addr(1, 2, 3, 4), false, true, false);
  }

  lemma ReverseVectorWide()
    ensures FindReverseZone(ReverseZones, "10.28.29.30") == Some(Zone(Net10))
  {
    Spelling10282930();
    Memberships();
    FindReverseZoneOfThree(Zone(Apex), Zone(Net123), Zone(Net10), "10.28.29.30",
                           Ipv4.Addr(10, 28, 29, 30), false, false, true);
  }
}

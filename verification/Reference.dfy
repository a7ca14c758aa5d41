/** Record references of the form `type/base64(name):discriminator/default`:
    how the in-memory Infoblox double builds them when an object is created
    or a fixture is made, and how its DeleteObject takes one apart with the
    pattern `([^/]+)/[^:]+:([^/]+)/default`. The discriminator is the record
    name for forward types and the reverse-lookup name for PTR. */
module Reference {
  import opened Wrappers
  import opened Objects
  import Strings
  import Base64
  import Ipv4
  import Codec

  const RefSuffix: string := "/default"

  /** A reference for an object of type `kind` whose owner name is `name`. */
  function RefFor(kind: ObjectType, name: string, discriminator: string): (r: string)
    ensures Strings.HasPrefix(r, ObjectTypeName(kind) + "/")
  {
    var r := ObjectTypeName(kind) + "/" + Base64.EncodeString(name) + ":" + discriminator + RefSuffix;
    assert r[..|ObjectTypeName(kind)| + 1] == ObjectTypeName(kind) + "/";
    r
  }

  /** The reference CreateObject hands back for an object: the discriminator is
      the name, or for PTR the reverse name of the address, which fails when
      the address is not an IPv4 literal. */
  function CreateRef(o: RawObject): (r: Result<string, string>)
    ensures r.Failure? <==> o.PtrRecord? && Ipv4.ParseIPv4(o.ipv4addr).None?
    ensures r.Success? && !o.PtrRecord? ==> r.value == RefFor(Kind(o), o.name, o.name)
    ensures r.Success? && o.PtrRecord? ==>
              r.value == RefFor(RecordPtr, o.ptrdname, Ipv4.ReverseAddr(o.ipv4addr).value)
  {
    match o
    case PtrRecord(ptrdname, ip, _, _) =>
      (match Ipv4.ReverseAddr(ip)
       case None => Failure("unable to create reverse addr from " + ip)
       case Some(rev) => Success(RefFor(RecordPtr, ptrdname, rev)))
    case _ => Success(RefFor(Kind(o), o.name, o.name))
  }

  /** What one CreateObject call does to the double: the reference (or
      error) it returns, the endpoints it logs and the objects it stores. */
  datatype CreateOutcome = CreateOutcome(result: Result<string, string>, logged: seq<Endpoint>,
                                         stored: seq<RawObject>)

  /** CreateObject as written. The TXT and PTR branches copy the reference
      into the stored object before computing it, so those objects are stored
      with an empty reference; a PTR whose address does not parse is logged
      but not stored. */
  function CreateObjectAsWritten(o: RawObject): (c: CreateOutcome)
    ensures c.result == CreateRef(o)
    ensures c.logged == Codec.EndpointsOf(o)
    ensures c.result.Success? ==> |c.stored| == 1 && Kind(c.stored[0]) == Kind(o)
    ensures c.result.Failure? ==> c.stored == []
  {
    match CreateRef(o)
    case Failure(e) => CreateOutcome(Failure(e), Codec.EndpointsOf(o), [])
    case Success(ref) =>
      var storedRef := if o.TxtRecord? || o.PtrRecord? then "" else ref;
      CreateOutcome(Success(ref), Codec.EndpointsOf(o), [WithRef(o, storedRef)])
  }

  /** The stored TXT or PTR object does not carry the reference the call returned. */
  lemma StoredRefLost(o: RawObject)
    requires o.TxtRecord? || (o.PtrRecord? && Ipv4.ParseIPv4(o.ipv4addr).Some?)
    ensures CreateObjectAsWritten(o).stored[0].ref == ""
    ensures CreateObjectAsWritten(o).result.value != ""
  {
    var r := CreateObjectAsWritten(o).result.value;
    assert Strings.HasPrefix(r, ObjectTypeName(Kind(o)) + "/");
  }

  /** CreateObject as evidently intended: every stored object carries the
      reference the call returned, so a later lookup by that reference finds it. */
  function CreateObject(o: RawObject): (c: CreateOutcome)
    ensures c.result == CreateRef(o)
    ensures c.logged == Codec.EndpointsOf(o)
    ensures c.result.Success? ==> c.stored == [WithRef(o, c.result.value)]
    ensures c.result.Failure? ==> c.stored == []
  {
    match CreateRef(o)
    case Failure(e) => CreateOutcome(Failure(e), Codec.EndpointsOf(o), [])
    case Success(ref) => CreateOutcome(Success(ref), Codec.EndpointsOf(o), [WithRef(o, ref)])
  }

  /** The two versions differ only in the reference stored for TXT and PTR objects. */
  lemma CreateObjectVersionsAgree(o: RawObject)
    ensures CreateObjectAsWritten(o).result == CreateObject(o).result
    ensures CreateObjectAsWritten(o).logged == CreateObject(o).logged
    ensures !o.TxtRecord? && !o.PtrRecord? ==> CreateObjectAsWritten(o) == CreateObject(o)
  {
  }

  /** createMockInfobloxObjectWithZone: a fixture object of the given record
      type ("A", "CNAME", "TXT", "HOST" or "PTR"; anything else gives nil)
      whose reference is `record:<lower-cased type>/base64(name):name/default`.
      createMockInfobloxObject is the same with an empty zone. */
  function Fixture(name: string, recordType: string, value: string, zone: string): (r: Option<RawObject>)
    ensures r.Some? <==> recordType in {"A", "CNAME", "TXT", "HOST", "PTR"}
    ensures r.Some? ==> OwnerName(r.value) == name && r.value.zone == zone
    ensures r.Some? ==> r.value.ref == "record:" + Strings.ToLower(recordType) + "/"
                                       + Base64.EncodeString(name) + ":" + name + RefSuffix
  {
    var ref := "record:" + Strings.ToLower(recordType) + "/" + Base64.EncodeString(name) + ":" + name + RefSuffix;
    if recordType == "A" then Some(ARecord(name, value, zone, ref))
    else if recordType == "CNAME" then Some(CnameRecord(name, value, zone, ref))
    else if recordType == "TXT" then Some(TxtRecord(name, value, zone, ref))
    else if recordType == "HOST" then Some(HostRecord(name, [value], zone, ref))
    else if recordType == "PTR" then Some(PtrRecord(name, value, zone, ref))
    else None
  }

  /** A fixture's reference is the one CreateObject would return for the same
      object, except for PTR, where the fixture uses the forward name and not
      the reverse name of the address as discriminator. */
  lemma FixtureRefMatchesCreateRef(name: string, recordType: string, value: string, zone: string)
    requires recordType in {"A", "CNAME", "TXT", "HOST", "PTR"}
    ensures var o := Fixture(name, recordType, value, zone).value;
            o.ref == RefFor(Kind(o), name, name)
    ensures recordType != "PTR" ==>
              var o := Fixture(name, recordType, value, zone).value;
              CreateRef(o) == Success(o.ref)
  {
    var o := Fixture(name, recordType, value, zone).value;
    FixtureTypeName(name, recordType, value, zone);
    assert o.ref == ObjectTypeName(Kind(o)) + "/" + Base64.EncodeString(name) + ":" + name + RefSuffix;
  }

  /** The lower-cased record type in a fixture's reference is the object type name. */
  lemma FixtureTypeName(name: string, recordType: string, value: string, zone: string)
    requires recordType in {"A", "CNAME", "TXT", "HOST", "PTR"}
    ensures "record:" + Strings.ToLower(recordType) == ObjectTypeName(Kind(Fixture(name, recordType, value, zone).value))
  {
    var lower := LowerRecordType(recordType);
    assert Strings.ToLower(recordType) == lower;
  }

  /** The lower-cased names of the record types a fixture accepts. */
  lemma LowerRecordType(recordType: string) returns (lower: string)
    requires recordType in {"A", "CNAME", "TXT", "HOST", "PTR"}
    ensures Strings.ToLower(recordType) == lower
    ensures recordType == "A" ==> lower == "a"
    ensures recordType == "CNAME" ==> lower == "cname"
    ensures recordType == "TXT" ==> lower == "txt"
    ensures recordType == "HOST" ==> lower == "host"
    ensures recordType == "PTR" ==> lower == "ptr"
  {
    if recordType == "A" {
      lower := "a";
    } else if recordType == "CNAME" {
      lower := "cname";
    } else if recordType == "TXT" {
      lower := "txt";
    } else if recordType == "HOST" {
      lower := "host";
    } else {
      lower := "ptr";
    }
    Strings.LowerOf(recordType, lower);
  }

  // ---- DeleteObject: the reference pattern ([^/]+)/[^:]+:([^/]+)/default ----

  /** The pieces of one match: group 1, the skipped middle, group 2. */
  datatype RefMatch = RefMatch(objectType: string, middle: string, name: string)

  /** The text a match covers. */
  function Matched(m: RefMatch): string {
    m.objectType + "/" + m.middle + ":" + m.name + RefSuffix
  }

  lemma MatchedSlice(s: string, p: nat, a: nat, b: nat, c: nat)
    requires p < a < b < c && c + |RefSuffix| <= |s|
    requires s[a] == '/' && s[b] == ':' && Strings.HasPrefix(s[c..], RefSuffix)
    ensures Strings.HasPrefix(s[p..], Matched(RefMatch(s[p..a], s[a + 1..b], s[b + 1..c])))
  {
    var w := Matched(RefMatch(s[p..a], s[a + 1..b], s[b + 1..c]));
    assert s[c..c + |RefSuffix|] == RefSuffix;
    assert s[p..c + |RefSuffix|] == s[p..a] + [s[a]] + s[a + 1..b] + [s[b]] + s[b + 1..c] + s[c..c + |RefSuffix|];
    assert s[p..][..|w|] == s[p..c + |RefSuffix|];
  }

  /** The match of the pattern starting exactly at `p`. Every piece is forced:
      group 1 runs to the first '/', the middle to the next ':', group 2 to
      the next '/', which must begin "/default". */
  function MatchAt(s: string, p: nat): (r: Option<RefMatch>)
    requires p <= |s|
    ensures r.Some? ==> Strings.HasPrefix(s[p..], Matched(r.value))
    ensures r.Some? ==> |r.value.objectType| > 0 && '/' !in r.value.objectType
    ensures r.Some? ==> |r.value.middle| > 0 && ':' !in r.value.middle
    ensures r.Some? ==> |r.value.name| > 0 && '/' !in r.value.name
  {
    var a := Strings.IndexFrom(s, '/', p);
    if a == |s| || a == p then None
    else
      var b := Strings.IndexFrom(s, ':', a + 1);
      if b == |s| || b == a + 1 then None
      else
        var c := Strings.IndexFrom(s, '/', b + 1);
        if c == |s| || c == b + 1 || !Strings.HasPrefix(s[c..], RefSuffix) then None
        else
          MatchedSlice(s, p, a, b, c);
          Some(RefMatch(s[p..a], s[a + 1..b], s[b + 1..c]))
  }

  /** The leftmost position at or after `p` where the pattern matches
      (regexp.FindStringSubmatch reports that match). */
  function FindMatchFrom(s: string, p: nat): (q: Option<nat>)
    requires p <= |s|
    ensures q.Some? ==> p <= q.value <= |s| && MatchAt(s, q.value).Some?
    ensures q.Some? ==> forall j :: p <= j < q.value ==> MatchAt(s, j).None?
    ensures q.None? ==> forall j :: p <= j <= |s| ==> MatchAt(s, j).None?
    decreases |s| - p
  {
    if MatchAt(s, p).Some? then Some(p)
    else if p == |s| then None
    else FindMatchFrom(s, p + 1)
  }

  /** A string of the pattern's shape is matched at its start, with exactly
      the pieces it was built from. */
  lemma MatchAtComplete(t: string, m: string, n: string, rest: string)
    requires |t| > 0 && '/' !in t
    requires |m| > 0 && ':' !in m
    requires |n| > 0 && '/' !in n
    ensures MatchAt(Matched(RefMatch(t, m, n)) + rest, 0) == Some(RefMatch(t, m, n))
  {
    var tail := RefSuffix + rest;
    assert Matched(RefMatch(t, m, n)) + rest == t + "/" + m + ":" + n + tail;
    Strings.PrefixOfConcat(RefSuffix, rest);
    MatchAtShape(t + "/" + m + ":" + n + tail, t, m, n, tail);
  }

  lemma MatchAtShape(s: string, t: string, m: string, n: string, tail: string)
    requires s == t + "/" + m + ":" + n + tail && Strings.HasPrefix(tail, RefSuffix)
    requires |t| > 0 && '/' !in t
    requires |m| > 0 && ':' !in m
    requires |n| > 0 && '/' !in n
    ensures MatchAt(s, 0) == Some(RefMatch(t, m, n))
  {
    var a, b, c := |t|, |t| + 1 + |m|, |t| + 2 + |m| + |n|;
    Pieces(t, m, n, tail);
    Strings.IndexFromAt(s, '/', 0, a);
    Strings.IndexFromAt(s, ':', a + 1, b);
    Strings.IndexFromAt(s, '/', b + 1, c);
    MatchAtOf(s, 0, a, b, c);
  }

  /** The positions of the pieces in a string of the pattern's shape. */
  lemma Pieces(t: string, m: string, n: string, tail: string)
    requires |tail| > 0 && tail[0] == '/'
    ensures var s := t + "/" + m + ":" + n + tail;
            var a, b, c := |t|, |t| + 1 + |m|, |t| + 2 + |m| + |n|;
            |s| == c + |tail| && s[0..a] == t && s[a] == '/' && s[a + 1..b] == m && s[b] == ':'
            && s[b + 1..c] == n && s[c] == '/' && s[c..] == tail
  {
  }

  /** MatchAt at `p` when the three delimiters it looks for sit at `a`, `b` and `c`. */
  lemma MatchAtOf(s: string, p: nat, a: nat, b: nat, c: nat)
    requires p < a && a + 1 < b && b + 1 < c < |s|
    requires Strings.IndexFrom(s, '/', p) == a && Strings.IndexFrom(s, ':', a + 1) == b
    requires Strings.IndexFrom(s, '/', b + 1) == c && Strings.HasPrefix(s[c..], RefSuffix)
    ensures MatchAt(s, p) == Some(RefMatch(s[p..a], s[a + 1..b], s[b + 1..c]))
  {
  }

  /** What DeleteObject does with a reference: it panics when the pattern
      does not match (it indexes the nil submatch slice), looks the object up
      by type and group-2 name when group 1 is a known type, and does nothing
      for any other type. */
  datatype DeleteOutcome = Panics | Lookup(kind: ObjectType, name: string) | Ignored

  function KindOfName(s: string): (r: Option<ObjectType>)
    ensures r.Some? ==> ObjectTypeName(r.value) == s
    ensures forall k :: ObjectTypeName(k) == s ==> r == Some(k)
  {
    if s == "record:a" then Some(RecordA)
    else if s == "record:cname" then Some(RecordCname)
    else if s == "record:host" then Some(RecordHost)
    else if s == "record:txt" then Some(RecordTxt)
    else if s == "record:ptr" then Some(RecordPtr)
    else None
  }

  lemma DeleteLookupWitness(ref: string, q: nat, m: RefMatch, k: ObjectType)
    requires q <= |ref| && MatchAt(ref, q) == Some(m) && ObjectTypeName(k) == m.objectType
    ensures Strings.HasPrefix(ref[q..], ObjectTypeName(k) + "/")
  {
    MatchedPrefix(ref[q..], m);
  }

  lemma MatchedPrefix(x: string, m: RefMatch)
    requires Strings.HasPrefix(x, Matched(m))
    ensures Strings.HasPrefix(x, m.objectType + "/")
  {
    Strings.PrefixOfPrefix(x, m.objectType + "/", m.middle + ":" + m.name + RefSuffix);
  }

  function DeleteObject(ref: string): (d: DeleteOutcome)
    ensures d.Panics? <==> forall j :: 0 <= j <= |ref| ==> MatchAt(ref, j).None?
    ensures d.Lookup? ==> |d.name| > 0 && '/' !in d.name
    ensures d.Lookup? ==> exists q :: 0 <= q <= |ref| && MatchAt(ref, q).Some?
                                      && Strings.HasPrefix(ref[q..], ObjectTypeName(d.kind) + "/")
  {
    match FindMatchFrom(ref, 0)
    case None => Panics
    case Some(q) =>
      var m := MatchAt(ref, q).value;
      match KindOfName(m.objectType)
      case None => Ignored
      case Some(k) =>
        DeleteLookupWitness(ref, q, m, k);
        Lookup(k, m.name)
  }

  /** DeleteObject dispatches on the leftmost match, as FindStringSubmatch
      reports it: a known group-1 type is looked up by that type and the
      group-2 name, and any other type is ignored. */
  lemma DeleteObjectDispatch(ref: string, q: nat)
    requires q <= |ref| && MatchAt(ref, q).Some?
    requires forall j :: 0 <= j < q ==> MatchAt(ref, j).None?
    ensures var m := MatchAt(ref, q).value;
            DeleteObject(ref).Lookup? <==> KindOfName(m.objectType).Some?
    ensures var m := MatchAt(ref, q).value;
            DeleteObject(ref).Ignored? <==> KindOfName(m.objectType).None?
    ensures var m, d := MatchAt(ref, q).value, DeleteObject(ref);
            d.Lookup? ==> ObjectTypeName(d.kind) == m.objectType && d.name == m.name
  {
    LeftmostIsFound(ref, q);
  }

  lemma LeftmostIsFound(ref: string, q: nat)
    requires q <= |ref| && MatchAt(ref, q).Some?
    requires forall j :: 0 <= j < q ==> MatchAt(ref, j).None?
    ensures FindMatchFrom(ref, 0) == Some(q)
  {
    var f := FindMatchFrom(ref, 0);
    assert f.Some?;
    var k := f.value;
    var found := (j: nat) => j <= |ref| && MatchAt(ref, j).Some?;
    assert found(k) && found(q);
    assert forall j :: 0 <= j < k ==> !found(j);
    assert forall j :: 0 <= j < q ==> !found(j);
    FirstIsUnique(found, k, q);
  }

  /** Two positions that are each the first to satisfy `p` are the same. */
  lemma FirstIsUnique(p: nat -> bool, k: nat, q: nat)
    requires p(k) && p(q)
    requires forall j :: 0 <= j < k ==> !p(j)
    requires forall j :: 0 <= j < q ==> !p(j)
    ensures k == q
  {
  }

  /** DeleteObject recovers the type and discriminator from every reference
      built by RefFor, provided the owner name is non-empty (so its base64
      text is too) and the discriminator is non-empty and has no '/'. */
  lemma {:induction false} DeleteRecoversRef(kind: ObjectType, name: string, discriminator: string)
    requires |name| > 0
    requires |discriminator| > 0 && '/' !in discriminator
    ensures DeleteObject(RefFor(kind, name, discriminator)) == Lookup(kind, discriminator)
  {
    var t := ObjectTypeName(kind);
    var b := Base64.EncodeString(name);
    var ref := RefFor(kind, name, discriminator);
    assert ref == Matched(RefMatch(t, b, discriminator)) + "";
    MatchAtComplete(t, b, discriminator, "");
    DeleteAtStart(ref, RefMatch(t, b, discriminator), kind);
  }

  /** A reference matched at its start is looked up by its own type and name. */
  lemma DeleteAtStart(ref: string, m: RefMatch, k: ObjectType)
    requires MatchAt(ref, 0) == Some(m) && ObjectTypeName(k) == m.objectType
    ensures DeleteObject(ref) == Lookup(k, m.name)
  {
    assert FindMatchFrom(ref, 0) == Some(0);
    assert KindOfName(m.objectType) == Some(k);
  }

  /** The reference round trip: deleting by the reference CreateObject
      returned looks up exactly the created object's type and name (for PTR,
      its reverse name). */
  lemma {:induction false} CreateDeleteRoundTrip(o: RawObject)
    requires CreateRef(o).Success?
    requires |OwnerName(o)| > 0
    requires !o.PtrRecord? ==> '/' !in o.name
    ensures !o.PtrRecord? ==> DeleteObject(CreateRef(o).value) == Lookup(Kind(o), o.name)
    ensures o.PtrRecord? ==>
              DeleteObject(CreateRef(o).value) == Lookup(RecordPtr, Ipv4.ReverseAddr(o.ipv4addr).value)
  {
    if o.PtrRecord? {
      Ipv4.ReverseAddrRecoversAddress(o.ipv4addr);
      DeleteRecoversRef(RecordPtr, o.ptrdname, Ipv4.ReverseAddr(o.ipv4addr).value);
    } else {
      DeleteRecoversRef(Kind(o), o.name, o.name);
    }
  }
}

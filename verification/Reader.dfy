/** Reading the provider's records: the queries a read issues, and how the
    objects returned for each zone become logical records. A records that
    share a name are folded into one record holding all their addresses, a
    HOST object becomes an A record, CNAME and TXT objects map one to one.
    What the server answers is a parameter: `fetch(k, z)` is the list of
    objects it returns for the query of type `k` in zone `z`. */
module Reader {
  import opened Wrappers
  import opened Objects
  import Codec
  import Domains

  // ---- The query plan ----

  datatype Query = Query(objectType: string, params: map<string, string>)

  const ZoneAuth: string := "zone_auth"

  /** The `view` parameter every query carries when a view is configured. */
  function ViewParams(view: string): (m: map<string, string>)
    ensures "view" in m <==> view != ""
    ensures "view" in m ==> m["view"] == view
    ensures "zone" !in m
  {
    if view == "" then map[] else map["view" := view]
  }

  function ZoneQuery(cfg: Config): (q: Query)
    ensures q.objectType == ZoneAuth && "zone" !in q.params
  {
    Query(ZoneAuth, ViewParams(cfg.view))
  }

  /** The record types read from each zone, in the order they are read. */
  const ReadKinds: seq<ObjectType> := [RecordA, RecordHost, RecordCname, RecordTxt]

  function RecordQuery(cfg: Config, k: ObjectType, z: Zone): (q: Query)
    ensures q.objectType == ObjectTypeName(k) && q.objectType != ZoneAuth
    ensures "zone" in q.params && q.params["zone"] == z.fqdn
    ensures "view" in q.params <==> cfg.view != ""
    ensures "view" in q.params ==> q.params["view"] == cfg.view
  {
    Query(ObjectTypeName(k), ViewParams(cfg.view)["zone" := z.fqdn])
  }

  function ZoneQueries(cfg: Config, z: Zone): seq<Query> {
    [RecordQuery(cfg, RecordA, z), RecordQuery(cfg, RecordHost, z),
     RecordQuery(cfg, RecordCname, z), RecordQuery(cfg, RecordTxt, z)]
  }

  function RecordQueries(cfg: Config, zs: seq<Zone>): (qs: seq<Query>)
    ensures |qs| == 4 * |zs|
    ensures forall i :: 0 <= i < |zs| ==> qs[4 * i..4 * i + 4] == ZoneQueries(cfg, zs[i])
  {
    if |zs| == 0 then []
    else
      var rest := RecordQueries(cfg, zs[1..]);
      var qs := ZoneQueries(cfg, zs[0]) + rest;
      assert forall i :: 1 <= i < |zs| ==> qs[4 * i..4 * i + 4] == ZoneQueries(cfg, zs[i]) by {
        forall i | 1 <= i < |zs| ensures qs[4 * i..4 * i + 4] == ZoneQueries(cfg, zs[i]) {
          SliceAfter(ZoneQueries(cfg, zs[0]), rest, 4 * (i - 1), 4 * (i - 1) + 4);
          assert zs[1..][i - 1] == zs[i];
        }
      }
      qs
  }

  /** Every record query of a read is the query of one read type in one of the zones. */
  lemma {:induction false} RecordQueryOrigin(cfg: Config, zs: seq<Zone>, q: Query) returns (z: Zone, k: ObjectType)
    requires q in RecordQueries(cfg, zs)
    ensures z in zs && k in ReadKinds && q == RecordQuery(cfg, k, z)
    decreases |zs|
  {
    var head := ZoneQueries(cfg, zs[0]);
    var rest := RecordQueries(cfg, zs[1..]);
    assert RecordQueries(cfg, zs) == head + rest;
    if q in head {
      z := zs[0];
      k := if q == head[0] then RecordA else if q == head[1] then RecordHost
           else if q == head[2] then RecordCname else RecordTxt;
    } else {
      z, k := RecordQueryOrigin(cfg, zs[1..], q);
    }
  }

  /** A slice of the tail of a concatenation, re-indexed past the head. */
  lemma SliceAfter<T>(head: seq<T>, rest: seq<T>, a: nat, b: nat)
    requires a <= b <= |rest|
    ensures (head + rest)[|head| + a..|head| + b] == rest[a..b]
  {
  }

  /** Every query of a read: the zone list first, then the four record types
      of each zone that passes the domain filter, in zone order. */
  function ReadQueries(zones: seq<Zone>, df: Domains.DomainFilter, cfg: Config): (qs: seq<Query>)
    ensures var fz := Domains.FilteredZones(zones, df);
            |qs| == 1 + 4 * |fz|
            && qs[0] == ZoneQuery(cfg)
            && forall i :: 0 <= i < |fz| ==> qs[1 + 4 * i..5 + 4 * i] == ZoneQueries(cfg, fz[i])
  {
    QueriesOfZones(cfg, Domains.FilteredZones(zones, df))
  }

  /** The zone-list query followed by the record queries of the zones `zs`. */
  function QueriesOfZones(cfg: Config, zs: seq<Zone>): (qs: seq<Query>)
    ensures |qs| == 1 + 4 * |zs|
    ensures qs[0] == ZoneQuery(cfg)
    ensures forall i :: 0 <= i < |zs| ==> qs[1 + 4 * i..5 + 4 * i] == ZoneQueries(cfg, zs[i])
  {
    var rest := RecordQueries(cfg, zs);
    var qs := [ZoneQuery(cfg)] + rest;
    assert forall i :: 0 <= i < |zs| ==> qs[1 + 4 * i..5 + 4 * i] == ZoneQueries(cfg, zs[i]) by {
      forall i | 0 <= i < |zs| ensures qs[1 + 4 * i..5 + 4 * i] == ZoneQueries(cfg, zs[i]) {
        SliceAfter([ZoneQuery(cfg)], rest, 4 * i, 4 * i + 4);
      }
    }
    qs
  }

  /** Every query of a read carries `view` exactly when a view is configured;
      the zone-list query carries no `zone`, and each record query names a
      listed zone that passes the filter. */
  lemma ReadQueriesParameters(zones: seq<Zone>, df: Domains.DomainFilter, cfg: Config)
    ensures var qs := ReadQueries(zones, df, cfg);
            forall q :: q in qs ==> ("view" in q.params <==> cfg.view != "")
                                    && ("view" in q.params ==> q.params["view"] == cfg.view)
    ensures "zone" !in ReadQueries(zones, df, cfg)[0].params
    ensures var qs := ReadQueries(zones, df, cfg);
            forall q :: q in qs[1..] ==> q.objectType != ZoneAuth && "zone" in q.params
                                         && Zone(q.params["zone"]) in zones
                                         && Domains.Match(df, q.params["zone"])
  {
    var qs := ReadQueries(zones, df, cfg);
    var fz := Domains.FilteredZones(zones, df);
    assert qs == QueriesOfZones(cfg, fz) == [ZoneQuery(cfg)] + RecordQueries(cfg, fz);
    assert qs[1..] == RecordQueries(cfg, fz);
    forall q | q in qs[1..]
      ensures q.objectType != ZoneAuth && "zone" in q.params
              && Zone(q.params["zone"]) in zones && Domains.Match(df, q.params["zone"])
      ensures ("view" in q.params <==> cfg.view != "") && ("view" in q.params ==> q.params["view"] == cfg.view)
    {
      RecordQueryInZone(zones, df, cfg, q);
    }
    assert forall q :: q in qs ==> q == qs[0] || q in qs[1..];
  }

  lemma RecordQueryInZone(zones: seq<Zone>, df: Domains.DomainFilter, cfg: Config, q: Query)
    requires q in RecordQueries(cfg, Domains.FilteredZones(zones, df))
    ensures q.objectType != ZoneAuth && "zone" in q.params
            && Zone(q.params["zone"]) in zones && Domains.Match(df, q.params["zone"])
    ensures ("view" in q.params <==> cfg.view != "") && ("view" in q.params ==> q.params["view"] == cfg.view)
  {
    var z, k := RecordQueryOrigin(cfg, Domains.FilteredZones(zones, df), q);
    assert Zone(q.params["zone"]) == z;
  }

  // ---- Folding A records ----

  predicate DistinctTargets(ts: seq<string>) {
    forall i, j :: 0 <= i < j < |ts| ==> ts[i] != ts[j]
  }

  /** A-record endpoints as a read produces them: A type, no flags, at least
      one target, no repeated target, and no two endpoints with one name. */
  predicate WellFormedA(eps: seq<Endpoint>) {
    (forall e :: e in eps ==>
       e.recordType == A && e.providerSpecific == map[] && |e.targets| > 0 && DistinctTargets(e.targets))
    && (forall i, j :: 0 <= i < j < |eps| ==> eps[i].name != eps[j].name)
  }

  /** Some endpoint named `n` holds the address `a`. */
  predicate Holds(eps: seq<Endpoint>, n: string, a: string) {
    exists e :: e in eps && e.name == n && a in e.targets
  }

  /** Some A object read is named `n` with address `a`. */
  predicate ReadA(os: seq<RawObject>, n: string, a: string) {
    exists o :: o in os && o.ARecord? && o.name == n && o.ipv4addr == a
  }

  function FindName(eps: seq<Endpoint>, n: string): (r: Option<nat>)
    ensures r.Some? ==> r.value < |eps| && eps[r.value].name == n
    ensures r.None? ==> forall e :: e in eps ==> e.name != n
  {
    if |eps| == 0 then None
    else if eps[0].name == n then Some(0)
    else
      match FindName(eps[1..], n)
      case None => None
      case Some(i) => Some(i + 1)
  }

  /** Adds one A object to the endpoints read so far: a new endpoint for a
      new name, an extra target for a known one, nothing for a repeat. */
  function AddA(eps: seq<Endpoint>, n: string, a: string): (r: seq<Endpoint>)
    requires WellFormedA(eps)
    ensures WellFormedA(r)
    ensures forall m, b :: Holds(r, m, b) <==> Holds(eps, m, b) || (m == n && b == a)
    ensures |r| == |eps| || |r| == |eps| + 1
  {
    match FindName(eps, n)
    case None =>
      var r := eps + [NewEndpoint(n, A, a)];
      assert forall e :: e in r <==> e in eps || e == NewEndpoint(n, A, a);
      r
    case Some(i) =>
      var e := eps[i];
      if a in e.targets then eps
      else
        var e' := e.(targets := e.targets + [a]);
        var r := eps[i := e'];
        assert forall f :: f in r ==> f in eps || f == e';
        assert forall f :: f in eps ==> f in r || f == e by {
          forall f | f in eps ensures f in r || f == e {
            var j :| 0 <= j < |eps| && eps[j] == f;
            if j != i { assert r[j] == f; }
          }
        }
        assert r[i] == e';
        r
  }

  /** Folds the A objects of `os`, in order, into `eps`; other objects are ignored. */
  function FoldInto(eps: seq<Endpoint>, os: seq<RawObject>): (r: seq<Endpoint>)
    requires WellFormedA(eps)
    ensures WellFormedA(r)
    ensures forall m, b :: Holds(r, m, b) <==> Holds(eps, m, b) || ReadA(os, m, b)
    decreases |os|
  {
    if |os| == 0 then eps
    else
      var o := os[0];
      var next := if o.ARecord? then AddA(eps, o.name, o.ipv4addr) else eps;
      var r := FoldInto(next, os[1..]);
      assert forall m, b :: ReadA(os, m, b) <==> (o.ARecord? && o.name == m && o.ipv4addr == b) || ReadA(os[1..], m, b) by {
        assert forall x :: x in os <==> x == o || x in os[1..];
      }
      r
  }

  /** The A records of one read: one endpoint per name, holding exactly the
      addresses read under that name. */
  function FoldA(os: seq<RawObject>): (r: seq<Endpoint>)
    ensures WellFormedA(r)
    ensures forall m, b :: Holds(r, m, b) <==> ReadA(os, m, b)
  {
    FoldInto([], os)
  }

  /** Two A objects with one name and different addresses read as one
      endpoint with both addresses, in read order. */
  lemma FoldTwoAddresses(n: string, a: string, b: string, z: string, r1: string, r2: string)
    requires a != b
    ensures FoldA([ARecord(n, a, z, r1), ARecord(n, b, z, r2)]) == [Endpoint(n, A, [a, b], map[])]
  {
    var os := [ARecord(n, a, z, r1), ARecord(n, b, z, r2)];
    var one := AddA([], n, a);
    assert one == [NewEndpoint(n, A, a)];
    assert FoldA(os) == FoldInto(one, os[1..]);
    assert os[1..] == [ARecord(n, b, z, r2)];
    assert FindName(one, n) == Some(0);
    assert b !in one[0].targets;
    assert one[0].targets + [b] == [a, b];
    assert one[0 := one[0].(targets := [a, b])] == [Endpoint(n, A, [a, b], map[])];
    assert AddA(one, n, b) == [Endpoint(n, A, [a, b], map[])];
    assert FoldInto(one, os[1..]) == FoldInto(AddA(one, n, b), os[2..]);
  }

  // ---- The inverse: one A object per target ----

  /** The A objects that store the targets `ts` of the name `n`. */
  function UnfoldTargets(n: string, ts: seq<string>, zone: string): (os: seq<RawObject>)
    ensures |os| == |ts|
    ensures forall i :: 0 <= i < |ts| ==> os[i] == Codec.ObjectFor(A, n, ts[i], zone)
  {
    if |ts| == 0 then [] else [Codec.ObjectFor(A, n, ts[0], zone)] + UnfoldTargets(n, ts[1..], zone)
  }

  /** The A objects that store the endpoints `eps`, one per target. */
  function UnfoldA(eps: seq<Endpoint>, zone: string): seq<RawObject> {
    if |eps| == 0 then [] else UnfoldTargets(eps[0].name, eps[0].targets, zone) + UnfoldA(eps[1..], zone)
  }

  lemma {:induction false} FoldIntoConcat(eps: seq<Endpoint>, xs: seq<RawObject>, ys: seq<RawObject>)
    requires WellFormedA(eps)
    ensures FoldInto(eps, xs + ys) == FoldInto(FoldInto(eps, xs), ys)
    decreases |xs|
  {
    if |xs| > 0 {
      var o := xs[0];
      var next := if o.ARecord? then AddA(eps, o.name, o.ipv4addr) else eps;
      assert (xs + ys)[0] == o && (xs + ys)[1..] == xs[1..] + ys;
      FoldIntoConcat(next, xs[1..], ys);
    } else {
      assert xs + ys == ys;
    }
  }

  /** Folding the remaining targets of the last endpoint extends it. */
  lemma {:induction false} FoldTargets(eps: seq<Endpoint>, n: string, ts: seq<string>, us: seq<string>, zone: string)
    requires WellFormedA(eps + [Endpoint(n, A, ts, map[])])
    requires DistinctTargets(ts + us)
    ensures WellFormedA(eps + [Endpoint(n, A, ts + us, map[])])
    ensures FoldInto(eps + [Endpoint(n, A, ts, map[])], UnfoldTargets(n, us, zone))
            == eps + [Endpoint(n, A, ts + us, map[])]
    decreases |us|
  {
    var cur := eps + [Endpoint(n, A, ts, map[])];
    if |us| == 0 {
      assert ts + us == ts;
    } else {
      var u := us[0];
      assert u !in ts by {
        assert (ts + us)[|ts|] == u;
        assert forall i :: 0 <= i < |ts| ==> (ts + us)[i] == ts[i];
      }
      assert FindName(cur, n) == Some(|eps|) by {
        assert cur[|eps|] in cur && cur[|eps|].name == n;
        assert forall i :: 0 <= i < |eps| ==> cur[i].name != cur[|eps|].name;
      }
      var next := eps + [Endpoint(n, A, ts + [u], map[])];
      assert AddA(cur, n, u) == next;
      assert ts + [u] + us[1..] == ts + us;
      assert (ts + [u]) + us[1..] == ts + us;
      FoldTargets(eps, n, ts + [u], us[1..], zone);
    }
  }

  lemma WellFormedParts(xs: seq<Endpoint>, ys: seq<Endpoint>)
    requires WellFormedA(xs + ys)
    ensures WellFormedA(xs) && WellFormedA(ys)
  {
    var w := xs + ys;
    assert forall i :: 0 <= i < |xs| ==> w[i] == xs[i];
    assert forall i :: 0 <= i < |ys| ==> w[|xs| + i] == ys[i];
    assert forall i, j :: 0 <= i < j < |ys| ==> ys[i].name == w[|xs| + i].name && ys[j].name == w[|xs| + j].name;
  }

  /** Folding the objects of one endpoint whose name is new appends it. */
  lemma FoldOne(acc: seq<Endpoint>, e: Endpoint, zone: string)
    requires WellFormedA(acc + [e])
    ensures WellFormedA(acc)
    ensures FoldInto(acc, UnfoldTargets(e.name, e.targets, zone)) == acc + [e]
  {
    var whole := acc + [e];
    WellFormedParts(acc, [e]);
    var ts := e.targets;
    assert e == whole[|acc|] && e in whole;
    assert forall i :: 0 <= i < |acc| ==> acc[i].name == whole[i].name != whole[|acc|].name;
    assert FindName(acc, e.name) == None;
    var single := acc + [NewEndpoint(e.name, A, ts[0])];
    assert AddA(acc, e.name, ts[0]) == single;
    var first := UnfoldTargets(e.name, ts, zone);
    assert first == [Codec.ObjectFor(A, e.name, ts[0], zone)] + UnfoldTargets(e.name, ts[1..], zone);
    assert FoldInto(acc, first) == FoldInto(single, UnfoldTargets(e.name, ts[1..], zone));
    assert [ts[0]] + ts[1..] == ts;
    assert DistinctTargets([ts[0]] + ts[1..]);
    FoldTargets(acc, e.name, [ts[0]], ts[1..], zone);
  }

  /** Folding the stored objects of well-formed A endpoints reads back
      exactly those endpoints, after whatever was read before them. */
  lemma {:induction false} FoldUnfold(acc: seq<Endpoint>, eps: seq<Endpoint>, zone: string)
    requires WellFormedA(acc) && WellFormedA(acc + eps)
    ensures FoldInto(acc, UnfoldA(eps, zone)) == acc + eps
    decreases |eps|
  {
    if |eps| == 0 {
      assert acc + eps == acc;
    } else {
      var e := eps[0];
      assert acc + eps == (acc + [e]) + eps[1..];
      WellFormedParts(acc + [e], eps[1..]);
      FoldIntoConcat(acc, UnfoldTargets(e.name, e.targets, zone), UnfoldA(eps[1..], zone));
      FoldOne(acc, e, zone);
      FoldUnfold(acc + [e], eps[1..], zone);
    }
  }

  /** Reading back the stored objects of well-formed A endpoints gives the
      endpoints themselves. */
  lemma ReadUnfold(eps: seq<Endpoint>, zone: string)
    requires WellFormedA(eps)
    ensures FoldA(UnfoldA(eps, zone)) == eps
  {
    assert [] + eps == eps;
    assert WellFormedA([]);
    FoldUnfold([], eps, zone);
  }

  // ---- The records of a read ----

  /** The single-target records of the objects in `os` of kind `k`, in order. */
  function Singles(os: seq<RawObject>, k: ObjectType): (eps: seq<Endpoint>)
    ensures forall e :: e in eps ==>
              |e.targets| == 1 && e.providerSpecific == map[] && (e.recordType == PTR <==> k == RecordPtr)
    ensures forall e :: e in eps <==> exists o :: o in os && Kind(o) == k && e in Codec.EndpointsOf(o)
  {
    if |os| == 0 then []
    else
      var rest := Singles(os[1..], k);
      assert forall o :: o in os <==> o == os[0] || o in os[1..];
      if Kind(os[0]) == k then Codec.EndpointsOf(os[0]) + rest else rest
  }

  /** The records of one zone: its folded A records, then its HOST, CNAME
      and TXT records, each from the answer to that type's query. */
  function ZoneRecords(fetch: (ObjectType, Zone) -> seq<RawObject>, z: Zone): (eps: seq<Endpoint>)
    ensures forall e :: e in eps ==> e.providerSpecific == map[] && e.recordType != PTR
  {
    FoldA(fetch(RecordA, z)) + Singles(fetch(RecordHost, z), RecordHost)
    + Singles(fetch(RecordCname, z), RecordCname) + Singles(fetch(RecordTxt, z), RecordTxt)
  }

  lemma ZoneRecordsParts(fetch: (ObjectType, Zone) -> seq<RawObject>, z: Zone, e: Endpoint)
    ensures e in ZoneRecords(fetch, z) <==>
              e in FoldA(fetch(RecordA, z)) || e in Singles(fetch(RecordHost, z), RecordHost)
              || e in Singles(fetch(RecordCname, z), RecordCname) || e in Singles(fetch(RecordTxt, z), RecordTxt)
  {
  }

  /** Every address read under an A name, every HOST, CNAME and TXT object
      appears among the zone's records. */
  lemma ZoneRecordsComplete(fetch: (ObjectType, Zone) -> seq<RawObject>, z: Zone)
    ensures forall n, a :: ReadA(fetch(RecordA, z), n, a) ==>
              exists e :: e in ZoneRecords(fetch, z) && e.recordType == A && e.name == n && a in e.targets
    ensures forall o, a :: o in fetch(RecordHost, z) && o.HostRecord? && a in o.ipv4addrs ==>
              NewEndpoint(o.name, A, a) in ZoneRecords(fetch, z)
    ensures forall o :: o in fetch(RecordCname, z) && o.CnameRecord? ==>
              NewEndpoint(o.name, CNAME, o.canonical) in ZoneRecords(fetch, z)
    ensures forall o :: o in fetch(RecordTxt, z) && o.TxtRecord? ==>
              NewEndpoint(o.name, TXT, o.text) in ZoneRecords(fetch, z)
  {
    forall n, a | ReadA(fetch(RecordA, z), n, a)
      ensures exists e :: e in ZoneRecords(fetch, z) && e.recordType == A && e.name == n && a in e.targets
    {
      var folded := FoldA(fetch(RecordA, z));
      assert Holds(folded, n, a);
      var e :| e in folded && e.name == n && a in e.targets;
      ZoneRecordsParts(fetch, z, e);
    }
    forall o, a | o in fetch(RecordHost, z) && o.HostRecord? && a in o.ipv4addrs
      ensures NewEndpoint(o.name, A, a) in ZoneRecords(fetch, z)
    {
      var i :| 0 <= i < |o.ipv4addrs| && o.ipv4addrs[i] == a;
      assert Codec.EndpointsOf(o)[i] == NewEndpoint(o.name, A, a);
      ZoneRecordsParts(fetch, z, NewEndpoint(o.name, A, a));
    }
    forall o | o in fetch(RecordCname, z) && o.CnameRecord?
      ensures NewEndpoint(o.name, CNAME, o.canonical) in ZoneRecords(fetch, z)
    {
      ZoneRecordsParts(fetch, z, Codec.EndpointsOf(o)[0]);
    }
    forall o | o in fetch(RecordTxt, z) && o.TxtRecord?
      ensures NewEndpoint(o.name, TXT, o.text) in ZoneRecords(fetch, z)
    {
      ZoneRecordsParts(fetch, z, Codec.EndpointsOf(o)[0]);
    }
  }

  /** Every record of a zone comes from an object read there: an A record
      from the A answer or a HOST object, a CNAME or TXT record from an
      object of its own type. */
  lemma ZoneRecordsSound(fetch: (ObjectType, Zone) -> seq<RawObject>, z: Zone, e: Endpoint)
    requires e in ZoneRecords(fetch, z)
    ensures e.recordType == A ==>
              (forall a :: a in e.targets ==> ReadA(fetch(RecordA, z), e.name, a))
              || exists o, a :: o in fetch(RecordHost, z) && o.HostRecord? && a in o.ipv4addrs && e == NewEndpoint(o.name, A, a)
    ensures e.recordType == CNAME ==>
              exists o :: o in fetch(RecordCname, z) && o.CnameRecord? && e == NewEndpoint(o.name, CNAME, o.canonical)
    ensures e.recordType == TXT ==>
              exists o :: o in fetch(RecordTxt, z) && o.TxtRecord? && e == NewEndpoint(o.name, TXT, o.text)
  {
    ZoneRecordsParts(fetch, z, e);
    var folded := FoldA(fetch(RecordA, z));
    if e in folded {
      assert forall a :: a in e.targets ==> Holds(folded, e.name, a);
    } else if e in Singles(fetch(RecordHost, z), RecordHost) {
      var o, i := SingleOrigin(fetch(RecordHost, z), RecordHost, e);
      if o.HostRecord? {
        assert e == NewEndpoint(o.name, A, o.ipv4addrs[i]);
        assert o.ipv4addrs[i] in o.ipv4addrs;
      }
    } else if e in Singles(fetch(RecordCname, z), RecordCname) {
      var o, i := SingleOrigin(fetch(RecordCname, z), RecordCname, e);
    } else {
      var o, i := SingleOrigin(fetch(RecordTxt, z), RecordTxt, e);
    }
  }

  /** The object, and the position among its records, a single record comes from. */
  lemma SingleOrigin(os: seq<RawObject>, k: ObjectType, e: Endpoint) returns (o: RawObject, i: nat)
    requires e in Singles(os, k)
    ensures o in os && Kind(o) == k && i < |Codec.EndpointsOf(o)| && e == Codec.EndpointsOf(o)[i]
  {
    o :| o in os && Kind(o) == k && e in Codec.EndpointsOf(o);
    i :| 0 <= i < |Codec.EndpointsOf(o)| && e == Codec.EndpointsOf(o)[i];
  }

  function RecordsIn(fetch: (ObjectType, Zone) -> seq<RawObject>, zs: seq<Zone>): (eps: seq<Endpoint>)
    ensures forall e :: e in eps <==> exists z :: z in zs && e in ZoneRecords(fetch, z)
  {
    if |zs| == 0 then []
    else
      var rest := RecordsIn(fetch, zs[1..]);
      assert forall z :: z in zs <==> z == zs[0] || z in zs[1..];
      ZoneRecords(fetch, zs[0]) + rest
  }

  /** Records(): the records of every listed zone that passes the domain
      filter, and of no other zone. */
  function Records(zones: seq<Zone>, df: Domains.DomainFilter,
                   fetch: (ObjectType, Zone) -> seq<RawObject>): (eps: seq<Endpoint>)
    ensures forall e :: e in eps <==>
              exists z :: z in zones && Domains.Match(df, z.fqdn) && e in ZoneRecords(fetch, z)
  {
    RecordsIn(fetch, Domains.FilteredZones(zones, df))
  }
}

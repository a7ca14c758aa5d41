/** Applying a change batch. Each change is routed to the zone its name
    belongs to (changes without a zone are skipped); under createPTR an A
    change is mirrored as a PTR change into the reverse zone of its first
    target. Deletions (Delete, then UpdateOld) are all issued before
    creations (Create, then UpdateNew), one call per target; an update is
    never issued, and a dry run issues nothing. Which stored objects a
    deletion removes comes from a lookup against the server, a parameter
    here: `lookup(k, n, t)` is the list of references found for type `k`,
    name `n` and target `t`. */
module Applier {
  import opened Wrappers
  import opened Objects
  import Codec
  import Domains
  import ZoneResolver
  import Reference
  import Ipv4
  import Reader

  /** One entry of a change map: an endpoint and the zone it was routed to. */
  datatype Routed = Routed(zone: Zone, ep: Endpoint)

  /** The calls the provider makes on the Infoblox client. */
  datatype Op =
    | CreateOp(zone: string, obj: RawObject)
    | DeleteOp(zone: string, kind: ObjectType, name: string, target: string, ref: string)
    | UpdateOp(zone: string, obj: RawObject)

  type Lookup = (ObjectType, string, string) -> seq<string>

  /** An A change needs a target when createPTR is on: the mirror reads
      `Targets[0]` once the change has a zone. The predicate asks it of every
      A change, also of those without a zone, which are skipped before the
      read. */
  predicate Routable(cfg: Config, e: Endpoint) {
    cfg.createPTR && e.recordType == A ==> |e.targets| > 0
  }

  predicate ValidChanges(cfg: Config, ch: Changes) {
    (forall e :: e in ch.create ==> Routable(cfg, e))
    && (forall e :: e in ch.updateOld ==> Routable(cfg, e))
    && (forall e :: e in ch.updateNew ==> Routable(cfg, e))
    && (forall e :: e in ch.delete ==> Routable(cfg, e))
  }

  function AsPtr(e: Endpoint): (p: Endpoint)
    ensures p.recordType == PTR && p.name == e.name && p.targets == e.targets
  {
    Endpoint(e.name, PTR, e.targets, e.providerSpecific)
  }

  /** Whether an A change is mirrored into a reverse zone. */
  predicate Mirrored(zones: seq<Zone>, cfg: Config, e: Endpoint)
    requires Routable(cfg, e)
  {
    cfg.createPTR && e.recordType == A && ZoneResolver.FindReverseZone(zones, e.targets[0]).Some?
  }

  /** Routing one change: to its zone, and under createPTR an A change also
      to the reverse zone of its first target. A change whose name has no
      zone is dropped, mirror and all. */
  function MapChange(zones: seq<Zone>, cfg: Config, e: Endpoint): (rs: seq<Routed>)
    requires Routable(cfg, e)
    ensures rs == [] <==> ZoneResolver.FindZone(zones, e.name).None?
    ensures |rs| > 0 ==> rs[0] == Routed(ZoneResolver.FindZone(zones, e.name).value, e)
    ensures |rs| <= 2
    ensures |rs| == 2 <==> |rs| > 0 && Mirrored(zones, cfg, e)
    ensures |rs| == 2 ==> rs[1] == Routed(ZoneResolver.FindReverseZone(zones, e.targets[0]).value, AsPtr(e))
    ensures forall r :: r in rs ==> r.zone in zones
  {
    match ZoneResolver.FindZone(zones, e.name)
    case None => []
    case Some(z) =>
      if cfg.createPTR && e.recordType == A then
        match ZoneResolver.FindReverseZone(zones, e.targets[0])
        case None => [Routed(z, e)]
        case Some(rz) => [Routed(z, e), Routed(rz, AsPtr(e))]
      else [Routed(z, e)]
  }

  function MapChanges(zones: seq<Zone>, cfg: Config, es: seq<Endpoint>): (rs: seq<Routed>)
    requires forall e :: e in es ==> Routable(cfg, e)
    ensures forall r :: r in rs <==> exists e :: e in es && r in MapChange(zones, cfg, e)
  {
    if |es| == 0 then []
    else
      var rest := MapChanges(zones, cfg, es[1..]);
      assert forall e :: e in es <==> e == es[0] || e in es[1..];
      MapChange(zones, cfg, es[0]) + rest
  }

  datatype ChangeMaps = ChangeMaps(created: seq<Routed>, deleted: seq<Routed>)

  /** mapChanges: Delete then UpdateOld go to the deletions, Create then
      UpdateNew to the creations. */
  function Plan(zones: seq<Zone>, cfg: Config, ch: Changes): (m: ChangeMaps)
    requires ValidChanges(cfg, ch)
    ensures forall r :: r in m.deleted <==>
              exists e :: (e in ch.delete || e in ch.updateOld) && r in MapChange(zones, cfg, e)
    ensures forall r :: r in m.created <==>
              exists e :: (e in ch.create || e in ch.updateNew) && r in MapChange(zones, cfg, e)
  {
    var d1 := MapChanges(zones, cfg, ch.delete);
    var d2 := MapChanges(zones, cfg, ch.updateOld);
    var c1 := MapChanges(zones, cfg, ch.create);
    var c2 := MapChanges(zones, cfg, ch.updateNew);
    assert forall r :: r in d1 + d2 <==> r in d1 || r in d2;
    assert forall r :: r in c1 + c2 <==> r in c1 || r in c2;
    ChangeMaps(c1 + c2, d1 + d2)
  }

  // ---- The client calls ----

  /** The creation calls for the targets `ts` of a change named `n` of type `t`. */
  function CreatesOfTargets(zone: string, t: RecordType, n: string, ts: seq<string>): (ops: seq<Op>)
    ensures |ops| == |ts|
    ensures forall i :: 0 <= i < |ts| ==> ops[i] == CreateOp(zone, Codec.ObjectFor(t, n, ts[i], zone))
  {
    if |ts| == 0 then [] else [CreateOp(zone, Codec.ObjectFor(t, n, ts[0], zone))] + CreatesOfTargets(zone, t, n, ts[1..])
  }

  /** The creation calls of one routed change, one per target, in target order. */
  function CreatesOf(r: Routed): seq<Op> {
    CreatesOfTargets(r.zone.fqdn, r.ep.recordType, r.ep.name, r.ep.targets)
  }

  function Creates(rs: seq<Routed>): (ops: seq<Op>)
    ensures forall op :: op in ops ==> op.CreateOp?
    ensures forall op :: op in ops <==> exists r :: r in rs && op in CreatesOf(r)
  {
    if |rs| == 0 then []
    else
      var rest := Creates(rs[1..]);
      assert forall r :: r in rs <==> r == rs[0] || r in rs[1..];
      CreatesOf(rs[0]) + rest
  }

  /** The deletion calls for one target: one per reference the lookup finds. */
  function DeletesForTarget(zone: string, k: ObjectType, n: string, t: string, lookup: Lookup): (ops: seq<Op>)
    ensures |ops| == |lookup(k, n, t)|
    ensures forall i :: 0 <= i < |ops| ==> ops[i] == DeleteOp(zone, k, n, t, lookup(k, n, t)[i])
  {
    var refs := lookup(k, n, t);
    seq(|refs|, i requires 0 <= i < |refs| => DeleteOp(zone, k, n, t, refs[i]))
  }

  function DeletesOfTargets(zone: string, k: ObjectType, n: string, ts: seq<string>, lookup: Lookup): (ops: seq<Op>)
    ensures forall op :: op in ops <==>
              op.DeleteOp? && op.zone == zone && op.kind == k && op.name == n && op.target in ts
              && op.ref in lookup(k, n, op.target)
  {
    if |ts| == 0 then []
    else
      var first := DeletesForTarget(zone, k, n, ts[0], lookup);
      var rest := DeletesOfTargets(zone, k, n, ts[1..], lookup);
      assert forall t :: t in ts <==> t == ts[0] || t in ts[1..];
      assert forall op :: op in first <==>
               op.DeleteOp? && op.zone == zone && op.kind == k && op.name == n && op.target == ts[0]
               && op.ref in lookup(k, n, ts[0]) by {
        forall op: Op | op.DeleteOp? && op.zone == zone && op.kind == k && op.name == n && op.target == ts[0]
                    && op.ref in lookup(k, n, ts[0])
          ensures op in first
        {
          var refs := lookup(k, n, ts[0]);
          var i :| 0 <= i < |refs| && refs[i] == op.ref;
          assert first[i] == op;
        }
      }
      first + rest
  }


  /** The deletion calls for a list of targets are those of each target in
      turn: exactly DeletesForTarget's calls, one per reference the lookup
      finds, target after target. */
  lemma DeletesOfTargetsOne(zone: string, k: ObjectType, n: string, t: string, lookup: Lookup)
    ensures DeletesOfTargets(zone, k, n, [t], lookup) == DeletesForTarget(zone, k, n, t, lookup)
  {
    assert [t][1..] == [];
    assert DeletesForTarget(zone, k, n, t, lookup) + [] == DeletesForTarget(zone, k, n, t, lookup);
  }

  lemma {:induction false} DeletesOfTargetsAppend(zone: string, k: ObjectType, n: string,
                                                 a: seq<string>, b: seq<string>, lookup: Lookup)
    ensures DeletesOfTargets(zone, k, n, a + b, lookup)
            == DeletesOfTargets(zone, k, n, a, lookup) + DeletesOfTargets(zone, k, n, b, lookup)
    decreases |a|
  {
    if |a| > 0 {
      DeletesOfTargetsAppend(zone, k, n, a[1..], b, lookup);
      assert (a + b)[1..] == a[1..] + b;
      assert (a + b)[0] == a[0];
    } else {
      assert a + b == b;
    }
  }

  function DeletesOf(r: Routed, lookup: Lookup): seq<Op> {
    DeletesOfTargets(r.zone.fqdn, Codec.KindOf(r.ep.recordType), r.ep.name, r.ep.targets, lookup)
  }

  function Deletes(rs: seq<Routed>, lookup: Lookup): (ops: seq<Op>)
    ensures forall op :: op in ops ==> op.DeleteOp?
    ensures forall op :: op in ops <==>
              op.DeleteOp? && op.ref in lookup(op.kind, op.name, op.target)
              && exists r :: r in rs && op.zone == r.zone.fqdn && op.kind == Codec.KindOf(r.ep.recordType)
                             && op.name == r.ep.name && op.target in r.ep.targets
  {
    if |rs| == 0 then []
    else
      var rest := Deletes(rs[1..], lookup);
      assert forall r :: r in rs <==> r == rs[0] || r in rs[1..];
      DeletesOf(rs[0], lookup) + rest
  }

  /** Every call of `ds` comes before every call of `cs`. */
  lemma DeletesFirst(ds: seq<Op>, cs: seq<Op>)
    requires forall op :: op in ds ==> op.DeleteOp?
    requires forall op :: op in cs ==> op.CreateOp?
    ensures forall op :: op in ds + cs ==> !op.UpdateOp?
    ensures forall i, j :: 0 <= i < j < |ds + cs| && (ds + cs)[i].CreateOp? ==> (ds + cs)[j].CreateOp?
  {
    var ops := ds + cs;
    assert forall i :: 0 <= i < |ds| ==> ops[i] == ds[i] && ops[i] in ds;
    assert forall i :: |ds| <= i < |ops| ==> ops[i] == cs[i - |ds|] && ops[i] in cs;
  }

  /** ApplyChanges: resolve the changes against the zones that pass the
      domain filter, then issue every deletion and after them every creation;
      a dry run issues nothing. */
  function ApplyChanges(zones: seq<Zone>, df: Domains.DomainFilter, cfg: Config, ch: Changes,
                        lookup: Lookup): (ops: seq<Op>)
    requires ValidChanges(cfg, ch)
    ensures cfg.dryRun ==> ops == []
    ensures forall op :: op in ops ==> !op.UpdateOp?
    ensures forall i, j :: 0 <= i < j < |ops| && ops[i].CreateOp? ==> ops[j].CreateOp?
  {
    if cfg.dryRun then []
    else
      var m := Plan(Domains.FilteredZones(zones, df), cfg, ch);
      var ds := Deletes(m.deleted, lookup);
      var cs := Creates(m.created);
      DeletesFirst(ds, cs);
      ds + cs
  }

  /** A change with a zone has every target created in that zone. */
  lemma CreatesCovered(zones: seq<Zone>, df: Domains.DomainFilter, cfg: Config, ch: Changes,
                       lookup: Lookup, e: Endpoint, i: nat)
    requires ValidChanges(cfg, ch) && !cfg.dryRun
    requires e in ch.create || e in ch.updateNew
    requires ZoneResolver.FindZone(Domains.FilteredZones(zones, df), e.name).Some?
    requires i < |e.targets|
    ensures var z := ZoneResolver.FindZone(Domains.FilteredZones(zones, df), e.name).value;
            CreateOp(z.fqdn, Codec.ObjectFor(e.recordType, e.name, e.targets[i], z.fqdn))
              in ApplyChanges(zones, df, cfg, ch, lookup)
  {
    var fz := Domains.FilteredZones(zones, df);
    var m := Plan(fz, cfg, ch);
    var r := MapChange(fz, cfg, e)[0];
    assert r in MapChange(fz, cfg, e);
    assert r in m.created;
    assert CreatesOf(r)[i] in CreatesOf(r);
  }

  /** A change with a zone has, for every target, each stored reference the
      lookup finds deleted in that zone. */
  lemma DeletesCovered(zones: seq<Zone>, df: Domains.DomainFilter, cfg: Config, ch: Changes,
                       lookup: Lookup, e: Endpoint, t: string, ref: string)
    requires ValidChanges(cfg, ch) && !cfg.dryRun
    requires e in ch.delete || e in ch.updateOld
    requires ZoneResolver.FindZone(Domains.FilteredZones(zones, df), e.name).Some?
    requires t in e.targets && ref in lookup(Codec.KindOf(e.recordType), e.name, t)
    ensures var z := ZoneResolver.FindZone(Domains.FilteredZones(zones, df), e.name).value;
            DeleteOp(z.fqdn, Codec.KindOf(e.recordType), e.name, t, ref) in ApplyChanges(zones, df, cfg, ch, lookup)
  {
    var fz := Domains.FilteredZones(zones, df);
    var m := Plan(fz, cfg, ch);
    var r := DeletionRouted(fz, cfg, ch, e);
    DeletesHas(m.deleted, lookup, r, t, ref);
    assert ApplyChanges(zones, df, cfg, ch, lookup) == Deletes(m.deleted, lookup) + Creates(m.created);
  }

  lemma DeletionRouted(fz: seq<Zone>, cfg: Config, ch: Changes, e: Endpoint) returns (r: Routed)
    requires ValidChanges(cfg, ch)
    requires e in ch.delete || e in ch.updateOld
    requires ZoneResolver.FindZone(fz, e.name).Some?
    ensures r == Routed(ZoneResolver.FindZone(fz, e.name).value, e) && r in Plan(fz, cfg, ch).deleted
  {
    r := MapChange(fz, cfg, e)[0];
    assert r in MapChange(fz, cfg, e);
  }

  lemma DeletesHas(rs: seq<Routed>, lookup: Lookup, r: Routed, t: string, ref: string)
    requires r in rs && t in r.ep.targets && ref in lookup(Codec.KindOf(r.ep.recordType), r.ep.name, t)
    ensures DeleteOp(r.zone.fqdn, Codec.KindOf(r.ep.recordType), r.ep.name, t, ref) in Deletes(rs, lookup)
  {
  }

  /** The routed change and target a creation call of ApplyChanges came from. */
  lemma CreateOrigin(zones: seq<Zone>, df: Domains.DomainFilter, cfg: Config, ch: Changes,
                     lookup: Lookup, op: Op) returns (e: Endpoint, r: Routed, t: string)
    requires ValidChanges(cfg, ch)
    requires op in ApplyChanges(zones, df, cfg, ch, lookup) && op.CreateOp?
    ensures (e in ch.create || e in ch.updateNew) && Routable(cfg, e)
    ensures r in MapChange(Domains.FilteredZones(zones, df), cfg, e)
    ensures t in r.ep.targets
    ensures op == CreateOp(r.zone.fqdn, Codec.ObjectFor(r.ep.recordType, r.ep.name, t, r.zone.fqdn))
  {
    var fz := Domains.FilteredZones(zones, df);
    var m := Plan(fz, cfg, ch);
    var cs := Creates(m.created);
    assert op in Deletes(m.deleted, lookup) + cs;
    assert op in cs;
    r :| r in m.created && op in CreatesOf(r);
    e :| (e in ch.create || e in ch.updateNew) && r in MapChange(fz, cfg, e);
    var i :| 0 <= i < |CreatesOf(r)| && CreatesOf(r)[i] == op;
    t := r.ep.targets[i];
  }

  /** Every creation call stores one target of a routed change; by
      MapChange, the route is the change itself in the zone of its name or,
      under createPTR, the PTR mirror of an A change in a reverse zone. */
  lemma CreatesSound(zones: seq<Zone>, df: Domains.DomainFilter, cfg: Config, ch: Changes,
                     lookup: Lookup, op: Op)
    requires ValidChanges(cfg, ch)
    requires op in ApplyChanges(zones, df, cfg, ch, lookup) && op.CreateOp?
    ensures exists e, r :: (e in ch.create || e in ch.updateNew) && Routable(cfg, e)
                           && r in MapChange(Domains.FilteredZones(zones, df), cfg, e)
                           && exists t :: t in r.ep.targets
                                          && op == CreateOp(r.zone.fqdn, Codec.ObjectFor(r.ep.recordType, r.ep.name, t, r.zone.fqdn))
  {
    var e, r, t := CreateOrigin(zones, df, cfg, ch, lookup, op);
  }

  /** The routed change a deletion call of ApplyChanges came from. */
  lemma DeleteOrigin(zones: seq<Zone>, df: Domains.DomainFilter, cfg: Config, ch: Changes,
                     lookup: Lookup, op: Op) returns (e: Endpoint, r: Routed)
    requires ValidChanges(cfg, ch)
    requires op in ApplyChanges(zones, df, cfg, ch, lookup) && op.DeleteOp?
    ensures op.ref in lookup(op.kind, op.name, op.target)
    ensures (e in ch.delete || e in ch.updateOld) && Routable(cfg, e)
    ensures r in MapChange(Domains.FilteredZones(zones, df), cfg, e)
    ensures op.zone == r.zone.fqdn && op.kind == Codec.KindOf(r.ep.recordType)
    ensures op.name == r.ep.name && op.target in r.ep.targets
  {
    var fz := Domains.FilteredZones(zones, df);
    var m := Plan(fz, cfg, ch);
    var ds := Deletes(m.deleted, lookup);
    assert op in ds + Creates(m.created);
    assert op in ds;
    r :| r in m.deleted && op.zone == r.zone.fqdn && op.kind == Codec.KindOf(r.ep.recordType)
         && op.name == r.ep.name && op.target in r.ep.targets;
    e :| (e in ch.delete || e in ch.updateOld) && r in MapChange(fz, cfg, e);
  }

  /** Every deletion call removes a reference the lookup found for one
      target of a routed change, in the zone the change was routed to. */
  lemma DeletesSound(zones: seq<Zone>, df: Domains.DomainFilter, cfg: Config, ch: Changes,
                     lookup: Lookup, op: Op)
    requires ValidChanges(cfg, ch)
    requires op in ApplyChanges(zones, df, cfg, ch, lookup) && op.DeleteOp?
    ensures op.ref in lookup(op.kind, op.name, op.target)
    ensures exists e, r :: (e in ch.delete || e in ch.updateOld) && Routable(cfg, e)
                           && r in MapChange(Domains.FilteredZones(zones, df), cfg, e)
                           && op.zone == r.zone.fqdn && op.kind == Codec.KindOf(r.ep.recordType)
                           && op.name == r.ep.name && op.target in r.ep.targets
  {
    var e, r := DeleteOrigin(zones, df, cfg, ch, lookup, op);
  }

  /** A route carries the change itself or, under createPTR, its PTR mirror. */
  lemma RouteOfChange(zones: seq<Zone>, cfg: Config, e: Endpoint, r: Routed)
    requires Routable(cfg, e) && r in MapChange(zones, cfg, e)
    ensures r.ep.name == e.name && r.ep.targets == e.targets
    ensures r.ep.recordType == e.recordType || (cfg.createPTR && e.recordType == A && r.ep.recordType == PTR)
  {
    var rs := MapChange(zones, cfg, e);
    if r != rs[0] {
      assert r == rs[1];
    }
  }

  predicate NoPtrChanges(ch: Changes) {
    (forall e :: e in ch.create ==> e.recordType != PTR)
    && (forall e :: e in ch.updateNew ==> e.recordType != PTR)
    && (forall e :: e in ch.delete ==> e.recordType != PTR)
    && (forall e :: e in ch.updateOld ==> e.recordType != PTR)
  }

  /** Without createPTR no PTR object is created unless a PTR change was
      asked for. */
  lemma NoPtrCreatedWithoutCreatePtr(zones: seq<Zone>, df: Domains.DomainFilter, cfg: Config, ch: Changes,
                                     lookup: Lookup, op: Op)
    requires ValidChanges(cfg, ch) && !cfg.createPTR && NoPtrChanges(ch)
    requires op in ApplyChanges(zones, df, cfg, ch, lookup) && op.CreateOp?
    ensures !op.obj.PtrRecord?
  {
    var fz := Domains.FilteredZones(zones, df);
    var e, r, t := CreateOrigin(zones, df, cfg, ch, lookup, op);
    assert e.recordType != PTR;
    NoPtrRouted(fz, cfg, e, r);
    assert Kind(op.obj) == Codec.KindOf(e.recordType);
  }

  /** Without createPTR a change that is not PTR is routed as itself, so not as PTR. */
  lemma NoPtrRouted(fz: seq<Zone>, cfg: Config, e: Endpoint, r: Routed)
    requires Routable(cfg, e) && r in MapChange(fz, cfg, e)
    requires !cfg.createPTR && e.recordType != PTR
    ensures r.ep.recordType == e.recordType
  {
    RouteOfChange(fz, cfg, e, r);
  }

  /** Without createPTR no PTR object is deleted unless a PTR change was
      asked for. */
  lemma NoPtrDeletedWithoutCreatePtr(zones: seq<Zone>, df: Domains.DomainFilter, cfg: Config, ch: Changes,
                                     lookup: Lookup, op: Op)
    requires ValidChanges(cfg, ch) && !cfg.createPTR && NoPtrChanges(ch)
    requires op in ApplyChanges(zones, df, cfg, ch, lookup) && op.DeleteOp?
    ensures op.kind != RecordPtr
  {
    var fz := Domains.FilteredZones(zones, df);
    var e, r := DeleteOrigin(zones, df, cfg, ch, lookup, op);
    NoPtrDeleteRouted(fz, cfg, ch, e, r, op);
  }

  lemma NoPtrDeleteRouted(fz: seq<Zone>, cfg: Config, ch: Changes, e: Endpoint, r: Routed, op: Op)
    requires !cfg.createPTR && NoPtrChanges(ch) && (e in ch.delete || e in ch.updateOld)
    requires Routable(cfg, e) && r in MapChange(fz, cfg, e)
    requires op.DeleteOp? && op.kind == Codec.KindOf(r.ep.recordType)
    ensures op.kind != RecordPtr
  {
    NoPtrRouted(fz, cfg, e, r);
  }

  // ---- What the test double records ----

  /** What a run of client calls records: the endpoints the double logs as
      created, the request each DeleteObject call makes (one per call; not
      the double's log of deleted endpoints, which depends on the stored
      objects), and the endpoints the double logs as updated. */
  datatype Log = Log(created: seq<Endpoint>, deleted: seq<Reference.DeleteOutcome>, updated: seq<Endpoint>)

  function Then(a: Log, b: Log): Log {
    Log(a.created + b.created, a.deleted + b.deleted, a.updated + b.updated)
  }

  /** The logs one call leaves in the double; a helper of `Run`. */
  function Step(op: Op): Log {
    match op
    case CreateOp(_, o) => Log(Reference.CreateObject(o).logged, [], [])
    case DeleteOp(_, _, _, _, ref) => Log([], [Reference.DeleteObject(ref)], [])
    case UpdateOp(_, o) => Log([], [], Codec.EndpointsOf(o))
  }

  /** The logs a sequence of client calls `ops` leaves, served in order. */
  function Run(ops: seq<Op>): (l: Log)
    ensures |l.deleted| <= |ops|
  {
    if |ops| == 0 then Log([], [], []) else Then(Step(ops[0]), Run(ops[1..]))
  }

  lemma ThenAssoc(a: Log, b: Log, c: Log)
    ensures Then(a, Then(b, c)) == Then(Then(a, b), c)
  {
    assert a.created + (b.created + c.created) == (a.created + b.created) + c.created;
    assert a.deleted + (b.deleted + c.deleted) == (a.deleted + b.deleted) + c.deleted;
    assert a.updated + (b.updated + c.updated) == (a.updated + b.updated) + c.updated;
  }

  lemma {:induction false} RunConcat(a: seq<Op>, b: seq<Op>)
    ensures Run(a + b) == Then(Run(a), Run(b))
    decreases |a|
  {
    if |a| == 0 {
      assert a + b == b;
      var l := Run(b);
      assert Then(Log([], [], []), l) == l by {
        assert [] + l.created == l.created && [] + l.deleted == l.deleted && [] + l.updated == l.updated;
      }
    } else {
      assert (a + b)[0] == a[0];
      assert (a + b)[1..] == a[1..] + b;
      assert Run(a + b) == Then(Step(a[0]), Run(a[1..] + b));
      RunConcat(a[1..], b);
      ThenAssoc(Step(a[0]), Run(a[1..]), Run(b));
    }
  }

  /** The endpoints the double logs for the targets of one change: one
      single-target endpoint per target, in order. */
  function TargetLog(t: RecordType, n: string, ts: seq<string>): (eps: seq<Endpoint>)
    ensures |eps| == |ts|
    ensures forall i :: 0 <= i < |ts| ==> eps[i] == NewEndpoint(n, t, ts[i])
  {
    if |ts| == 0 then [] else [NewEndpoint(n, t, ts[0])] + TargetLog(t, n, ts[1..])
  }

  /** The creation log of a list of routed changes, `TargetLog` change by
      change; a helper of `RunCreates` and `ApplyLog`. */
  function CreatedLog(rs: seq<Routed>): seq<Endpoint> {
    if |rs| == 0 then [] else TargetLog(rs[0].ep.recordType, rs[0].ep.name, rs[0].ep.targets) + CreatedLog(rs[1..])
  }

  lemma {:induction false} RunCreatesOfTargets(zone: string, t: RecordType, n: string, ts: seq<string>)
    ensures Run(CreatesOfTargets(zone, t, n, ts)) == Log(TargetLog(t, n, ts), [], [])
    decreases |ts|
  {
    if |ts| > 0 {
      var ops := CreatesOfTargets(zone, t, n, ts);
      assert ops[1..] == CreatesOfTargets(zone, t, n, ts[1..]);
      RunCreatesOfTargets(zone, t, n, ts[1..]);
      assert Reference.CreateObject(Codec.ObjectFor(t, n, ts[0], zone)).logged == [NewEndpoint(n, t, ts[0])];
    }
  }

  lemma {:induction false} RunCreates(rs: seq<Routed>)
    ensures Run(Creates(rs)) == Log(CreatedLog(rs), [], [])
    decreases |rs|
  {
    if |rs| > 0 {
      RunConcat(CreatesOf(rs[0]), Creates(rs[1..]));
      RunCreatesOfTargets(rs[0].zone.fqdn, rs[0].ep.recordType, rs[0].ep.name, rs[0].ep.targets);
      RunCreates(rs[1..]);
    }
  }

  lemma {:induction false} RunDeletesOnly(ops: seq<Op>)
    requires forall op :: op in ops ==> op.DeleteOp?
    ensures Run(ops).created == [] && Run(ops).updated == []
    ensures forall d :: d in Run(ops).deleted ==> exists op :: op in ops && d == Reference.DeleteObject(op.ref)
    decreases |ops|
  {
    if |ops| > 0 {
      var first := Reference.DeleteObject(ops[0].ref);
      var rest := Run(ops[1..]);
      assert forall op :: op in ops[1..] ==> op in ops;
      RunDeletesOnly(ops[1..]);
      assert Step(ops[0]) == Log([], [first], []);
      assert Run(ops).deleted == [first] + rest.deleted;
      forall d | d in Run(ops).deleted
        ensures exists op :: op in ops && d == Reference.DeleteObject(op.ref)
      {
        if d == first {
          assert ops[0] in ops;
        } else {
          assert d in rest.deleted;
        }
      }
    }
  }

  /** A run of deletion calls logs exactly one DeleteObject outcome per call, in call order. */
  lemma {:induction false} RunDeletes(ops: seq<Op>)
    requires forall op :: op in ops ==> op.DeleteOp?
    ensures |Run(ops).deleted| == |ops|
    ensures forall i :: 0 <= i < |ops| ==> Run(ops).deleted[i] == Reference.DeleteObject(ops[i].ref)
    decreases |ops|
  {
    if |ops| > 0 {
      var tail := ops[1..];
      assert forall op :: op in tail ==> op in ops;
      RunDeletes(tail);
      var rest := Run(tail).deleted;
      var x := Reference.DeleteObject(ops[0].ref);
      assert Step(ops[0]).deleted == [x];
      assert Run(ops).deleted == [x] + rest;
      forall i | 1 <= i < |ops|
        ensures Run(ops).deleted[i] == Reference.DeleteObject(ops[i].ref)
      {
        IndexAfterHead(x, rest, i);
        assert tail[i - 1] == ops[i];
      }
    }
  }

  lemma IndexAfterHead<T>(x: T, rest: seq<T>, i: nat)
    requires 1 <= i <= |rest|
    ensures ([x] + rest)[i] == rest[i - 1]
  {
  }

  /** The calls of a run of ApplyChanges split into its deletions, then its creations. */
  lemma ApplySplit(zones: seq<Zone>, df: Domains.DomainFilter, cfg: Config, ch: Changes, lookup: Lookup)
    requires ValidChanges(cfg, ch) && !cfg.dryRun
    ensures var m := Plan(Domains.FilteredZones(zones, df), cfg, ch);
            var ds := Deletes(m.deleted, lookup);
            ApplyChanges(zones, df, cfg, ch, lookup) == ds + Creates(m.created)
            && Run(ApplyChanges(zones, df, cfg, ch, lookup)) == Log(CreatedLog(m.created), Run(ds).deleted, [])
  {
    var m := Plan(Domains.FilteredZones(zones, df), cfg, ch);
    var ds := Deletes(m.deleted, lookup);
    var cs := Creates(m.created);
    RunConcat(ds, cs);
    RunDeletesOnly(ds);
    RunCreates(m.created);
    assert Then(Run(ds), Run(cs)) == Log(CreatedLog(m.created), Run(ds).deleted, []) by {
      assert [] + CreatedLog(m.created) == CreatedLog(m.created);
      assert Run(ds).deleted + [] == Run(ds).deleted;
    }
  }

  /** What a run of ApplyChanges leaves in the double's logs: nothing under
      dry run; otherwise no update and one created endpoint per target of
      each routed creation, in order. */
  lemma ApplyLog(zones: seq<Zone>, df: Domains.DomainFilter, cfg: Config, ch: Changes, lookup: Lookup)
    requires ValidChanges(cfg, ch)
    ensures var l := Run(ApplyChanges(zones, df, cfg, ch, lookup));
            l.updated == []
            && (cfg.dryRun ==> l == Log([], [], []))
            && (!cfg.dryRun ==> l.created == CreatedLog(Plan(Domains.FilteredZones(zones, df), cfg, ch).created))
  {
    if !cfg.dryRun {
      ApplySplit(zones, df, cfg, ch, lookup);
    }
  }

  /** Each logged DeleteObject outcome comes from a deletion call of the run. */
  lemma ApplyDeletedLog(zones: seq<Zone>, df: Domains.DomainFilter, cfg: Config, ch: Changes, lookup: Lookup)
    requires ValidChanges(cfg, ch)
    ensures forall d :: d in Run(ApplyChanges(zones, df, cfg, ch, lookup)).deleted ==>
              exists op :: op in ApplyChanges(zones, df, cfg, ch, lookup) && op.DeleteOp?
                           && d == Reference.DeleteObject(op.ref)
  {
    if !cfg.dryRun {
      ApplySplit(zones, df, cfg, ch, lookup);
      var m := Plan(Domains.FilteredZones(zones, df), cfg, ch);
      var ds := Deletes(m.deleted, lookup);
      RunDeletesOnly(ds);
      assert forall op :: op in ds ==> op in ds + Creates(m.created);
    }
  }

  /** Outside a dry run, the deletion log of ApplyChanges is exactly the
      outcome of each deletion call of the plan, once each and in call order. */
  lemma ApplyDeletedLogExact(zones: seq<Zone>, df: Domains.DomainFilter, cfg: Config, ch: Changes, lookup: Lookup)
    requires ValidChanges(cfg, ch) && !cfg.dryRun
    ensures var ds := Deletes(Plan(Domains.FilteredZones(zones, df), cfg, ch).deleted, lookup);
            var l := Run(ApplyChanges(zones, df, cfg, ch, lookup));
            |l.deleted| == |ds|
            && forall i :: 0 <= i < |ds| ==> ds[i].DeleteOp? && l.deleted[i] == Reference.DeleteObject(ds[i].ref)
  {
    ApplySplit(zones, df, cfg, ch, lookup);
    var ds := Deletes(Plan(Domains.FilteredZones(zones, df), cfg, ch).deleted, lookup);
    RunDeletesOnly(ds);
    RunDeletes(ds);
  }

  ghost predicate FixtureLookup(lookup: Lookup) {
    forall k, n, t, ref :: ref in lookup(k, n, t) ==> ref == Reference.RefFor(k, n, n)
  }

  predicate PlainNames(es: seq<Endpoint>) {
    forall e :: e in es ==> |e.name| > 0 && '/' !in e.name
  }

  /** One deletion call against fixture references looks up the type and
      name of the change it was routed from. */
  lemma DeleteCallLooksUp(zones: seq<Zone>, df: Domains.DomainFilter, cfg: Config, ch: Changes,
                          lookup: Lookup, op: Op) returns (e: Endpoint)
    requires ValidChanges(cfg, ch) && FixtureLookup(lookup)
    requires PlainNames(ch.delete) && PlainNames(ch.updateOld)
    requires op in ApplyChanges(zones, df, cfg, ch, lookup) && op.DeleteOp?
    ensures e in ch.delete || e in ch.updateOld
    ensures Reference.DeleteObject(op.ref) == Reference.Lookup(Codec.KindOf(e.recordType), e.name)
            || (cfg.createPTR && Reference.DeleteObject(op.ref) == Reference.Lookup(RecordPtr, e.name))
  {
    var fz := Domains.FilteredZones(zones, df);
    var r;
    e, r := DeleteOrigin(zones, df, cfg, ch, lookup, op);
    RouteOfChange(fz, cfg, e, r);
    assert |e.name| > 0 && '/' !in e.name;
    FixtureRefLooksUp(cfg, e, r.ep, op, lookup);
  }

  /** A deletion by a fixture reference for a route of `e` looks up the type
      and name of `e`, or PTR and its name for the mirror. */
  lemma FixtureRefLooksUp(cfg: Config, e: Endpoint, routed: Endpoint, op: Op, lookup: Lookup)
    requires FixtureLookup(lookup) && |e.name| > 0 && '/' !in e.name
    requires routed.name == e.name
    requires routed.recordType == e.recordType || (cfg.createPTR && routed.recordType == PTR)
    requires op.DeleteOp? && op.ref in lookup(op.kind, op.name, op.target)
    requires op.kind == Codec.KindOf(routed.recordType) && op.name == routed.name
    ensures Reference.DeleteObject(op.ref) == Reference.Lookup(Codec.KindOf(e.recordType), e.name)
            || (cfg.createPTR && Reference.DeleteObject(op.ref) == Reference.Lookup(RecordPtr, e.name))
  {
    assert op.ref == Reference.RefFor(op.kind, op.name, op.name);
    Reference.DeleteRecoversRef(op.kind, op.name, op.name);
  }

  /** When the lookup finds the references the fixtures carry, every
      DeleteObject call of ApplyChanges looks up the type and name of a
      change it routed. */
  lemma DeletesLookUpChanges(zones: seq<Zone>, df: Domains.DomainFilter, cfg: Config, ch: Changes,
                             lookup: Lookup)
    requires ValidChanges(cfg, ch) && FixtureLookup(lookup)
    requires PlainNames(ch.delete) && PlainNames(ch.updateOld)
    ensures forall d :: d in Run(ApplyChanges(zones, df, cfg, ch, lookup)).deleted ==>
              exists e :: (e in ch.delete || e in ch.updateOld)
                          && (d == Reference.Lookup(Codec.KindOf(e.recordType), e.name)
                              || (cfg.createPTR && d == Reference.Lookup(RecordPtr, e.name)))
  {
    var ops := ApplyChanges(zones, df, cfg, ch, lookup);
    ApplyDeletedLog(zones, df, cfg, ch, lookup);
    forall d | d in Run(ops).deleted
      ensures exists e :: (e in ch.delete || e in ch.updateOld)
                          && (d == Reference.Lookup(Codec.KindOf(e.recordType), e.name)
                              || (cfg.createPTR && d == Reference.Lookup(RecordPtr, e.name)))
    {
      var op :| op in ops && op.DeleteOp? && d == Reference.DeleteObject(op.ref);
      var e := DeleteCallLooksUp(zones, df, cfg, ch, lookup, op);
    }
  }

  // ---- AdjustEndpoints ----

  /** The provider-specific property that asks for a PTR record next to an
      A record. */
  const PtrFlag: string := "infoblox-ptr-record-exists"

  function AdjustOne(cfg: Config, e: Endpoint): Endpoint {
    if cfg.createPTR && e.recordType == A then e.(providerSpecific := e.providerSpecific[PtrFlag := "true"]) else e
  }

  /** AdjustEndpoints: under createPTR every A record gets the PTR flag set
      to "true" (added, or overwritten when present); nothing else changes. */
  function AdjustEndpoints(cfg: Config, eps: seq<Endpoint>): (r: seq<Endpoint>)
    ensures |r| == |eps|
    ensures forall i :: 0 <= i < |eps| ==>
              r[i].name == eps[i].name && r[i].recordType == eps[i].recordType && r[i].targets == eps[i].targets
    ensures forall i :: 0 <= i < |eps| && cfg.createPTR && eps[i].recordType == A ==>
              PtrFlag in r[i].providerSpecific && r[i].providerSpecific[PtrFlag] == "true"
              && forall key :: key in eps[i].providerSpecific && key != PtrFlag ==>
                                 key in r[i].providerSpecific && r[i].providerSpecific[key] == eps[i].providerSpecific[key]
    ensures forall i :: 0 <= i < |eps| && cfg.createPTR && eps[i].recordType == A ==>
              r[i].providerSpecific.Keys == eps[i].providerSpecific.Keys + {PtrFlag}
    ensures forall i :: 0 <= i < |eps| && !(cfg.createPTR && eps[i].recordType == A) ==> r[i] == eps[i]
  {
    seq(|eps|, i requires 0 <= i < |eps| => AdjustOne(cfg, eps[i]))
  }

  /** Adjusting twice is adjusting once. */
  lemma AdjustIdempotent(cfg: Config, eps: seq<Endpoint>)
    ensures AdjustEndpoints(cfg, AdjustEndpoints(cfg, eps)) == AdjustEndpoints(cfg, eps)
  {
    var once := AdjustEndpoints(cfg, eps);
    var twice := AdjustEndpoints(cfg, once);
    forall i | 0 <= i < |eps| ensures twice[i] == once[i] {
      if cfg.createPTR && eps[i].recordType == A {
        assert once[i].providerSpecific[PtrFlag := "true"] == once[i].providerSpecific;
      }
    }
  }

  /** Without createPTR the records are returned as they are. */
  lemma AdjustWithoutCreatePtr(cfg: Config, eps: seq<Endpoint>)
    requires !cfg.createPTR
    ensures AdjustEndpoints(cfg, eps) == eps
  {
  }

  /** The records of a read, adjusted under createPTR: each A record carries
      exactly the flag, every other record no provider-specific property. */
  lemma AdjustAfterRead(cfg: Config, eps: seq<Endpoint>)
    requires cfg.createPTR
    requires forall e :: e in eps ==> e.providerSpecific == map[]
    ensures forall e :: e in AdjustEndpoints(cfg, eps) ==>
              e.providerSpecific == (if e.recordType == A then map[PtrFlag := "true"] else map[])
  {
    var r := AdjustEndpoints(cfg, eps);
    forall e | e in r
      ensures e.providerSpecific == (if e.recordType == A then map[PtrFlag := "true"] else map[])
    {
      var i :| 0 <= i < |r| && r[i] == e;
      assert eps[i] in eps;
    }
  }

  /** Records() followed by AdjustEndpoints under createPTR: every A record
      read carries exactly the PTR flag, and no other record carries any
      provider-specific property. */
  lemma AdjustedRecords(zones: seq<Zone>, df: Domains.DomainFilter,
                        fetch: (ObjectType, Zone) -> seq<RawObject>, cfg: Config)
    requires cfg.createPTR
    ensures forall e :: e in AdjustEndpoints(cfg, Reader.Records(zones, df, fetch)) ==>
              e.providerSpecific == (if e.recordType == A then map[PtrFlag := "true"] else map[])
  {
    var eps := Reader.Records(zones, df, fetch);
    forall e | e in eps ensures e.providerSpecific == map[] {
      var z :| z in zones && Domains.Match(df, z.fqdn) && e in Reader.ZoneRecords(fetch, z);
    }
    AdjustAfterRead(cfg, eps);
  }
}

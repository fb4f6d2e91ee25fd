/** The in-place filter and rewrite of a trace payload's resource spans. */
module TraceEnrichment {
  import opened Attribution
  import opened Options

  /** What a resource's spans say: a missing resource reads as one without attributes. */
  datatype View = View(attributes: seq<KeyValue>, scopes: seq<seq<Span>>)

  datatype Payload = Empty | AsReceived | Encoded

  predicate IsEBPF(v: View) {
    ResourceAttr(v.attributes, SOURCE) == EBPF
  }

  /** The name a resource gets, if any. */
  function NameFor(v: View, conn: Option<string>, indexes: Indexes): Option<string> {
    if IsEBPF(v) then ResolveEBPFService(v.attributes, v.scopes, indexes) else conn
  }

  /** The resource as it is kept, or None when it is dropped. */
  function Attributed(v: View, conn: Option<string>, indexes: Indexes): Option<View> {
    match NameFor(v, conn, indexes)
    case None => if IsEBPF(v) then None else Some(v)
    case Some(name) => Some(v.(attributes := Forced(v.attributes, name)))
  }

  ghost function Enriched(views: seq<View>, conn: Option<string>, indexes: Indexes): seq<View> {
    if views == [] then []
    else
      var last := Attributed(views[|views| - 1], conn, indexes);
      Enriched(views[..|views| - 1], conn, indexes) + if last == None then [] else [last.value]
  }

  ghost function Names(views: seq<View>, conn: Option<string>, indexes: Indexes): set<string> {
    if views == [] then {}
    else
      var name := NameFor(views[|views| - 1], conn, indexes);
      Names(views[..|views| - 1], conn, indexes) + if name == None then {} else {name.value}
  }

  lemma EnrichedMore(views: seq<View>, n: nat, conn: Option<string>, indexes: Indexes)
    requires n < |views|
    ensures
      var last, name := Attributed(views[n], conn, indexes), NameFor(views[n], conn, indexes);
      Enriched(views[..n + 1], conn, indexes) ==
      Enriched(views[..n], conn, indexes) + (if last == None then [] else [last.value]) &&
      Names(views[..n + 1], conn, indexes) ==
      Names(views[..n], conn, indexes) + if name == None then {} else {name.value}
  {
    assert views[..n + 1][..n] == views[..n];
  }

  lemma {:induction false} EnrichedShorter(views: seq<View>, conn: Option<string>, indexes: Indexes)
    ensures |Enriched(views, conn, indexes)| <= |views|
  {
    if views != [] {
      EnrichedShorter(views[..|views| - 1], conn, indexes);
    }
  }

  // ----- the objects -----

  class ResourceSpans {
    var resource: Resource?
    const scopes: seq<seq<Span>>

    constructor (resource: Resource?, scopes: seq<seq<Span>>)
      ensures this.resource == resource && this.scopes == scopes
    {
      this.resource, this.scopes := resource, scopes;
    }

    ghost function ToView(): View
      reads this, resource
    {
      View(if resource == null then [] else resource.attributes, scopes)
    }

    /** One step of the filter: a missing resource is created, and the name is
        forced.  The flag is set exactly when there is something to re-encode. */
    method Attribute(conn: Option<string>, indexes: Indexes)
      returns (kept: bool, name: Option<string>, changed: bool)
      modifies this, resource
      ensures resource != null && (resource == old(resource) || (old(resource) == null && fresh(resource)))
      ensures name == NameFor(old(ToView()), conn, indexes)
      ensures kept <==> Attributed(old(ToView()), conn, indexes).Some?
      ensures ToView() == if kept then Attributed(old(ToView()), conn, indexes).value else old(ToView())
      ensures changed <==> !kept || ToView() != old(ToView())
    {
      hide ResolveEBPFService, Forced, ResourceAttr;
      if resource == null {
        resource := new Resource();
      }
      name := None;
      if ResourceAttr(resource.attributes, SOURCE) == EBPF {
        name := ResolveEBPFService(resource.attributes, scopes, indexes);
        if name == None {
          return false, None, true;
        }
        changed := resource.ForceServiceName(name.value);
        return true, name, changed;
      }
      changed := false;
      if conn.Some? {
        changed := resource.ForceServiceName(conn.value);
        name := conn;
      }
      return true, name, changed;
    }
  }

  /** As decoded from a payload: no object appears twice. */
  ghost predicate Separate(list: seq<ResourceSpans>)
    reads list
  {
    forall i, j :: 0 <= i < j < |list| ==>
      list[i] != list[j] && (list[i].resource == null || list[i].resource != list[j].resource)
  }

  ghost function Resources(list: seq<ResourceSpans>): set<Resource>
    reads list
  {
    set o | o in list && o.resource != null :: o.resource
  }

  ghost function Views(list: seq<ResourceSpans>): (v: seq<View>)
    reads list, Resources(list)
    ensures |v| == |list|
  {
    seq(|list|, i requires 0 <= i < |list| reads list, Resources(list) => list[i].ToView())
  }

  /** Every resource the list refers to is one of these. */
  ghost predicate Within(list: seq<ResourceSpans>, resources: set<Resource>)
    reads list
  {
    forall i :: 0 <= i < |list| ==> list[i].resource == null || list[i].resource in resources
  }

  ghost predicate Shows(list: seq<ResourceSpans>, resources: set<Resource>, views: seq<View>)
    requires Within(list, resources)
    reads list, resources
  {
    |views| == |list| && forall i :: 0 <= i < |list| ==> list[i].ToView() == views[i]
  }

  /** The kept list is written over the list being read, and is the filter of the
      list as it was received. */
  method Filter(list: array<ResourceSpans>, conn: Option<string>, indexes: Indexes, ghost resources: set<Resource>)
    returns (kept: nat, names: set<string>, changed: bool)
    requires Separate(list[..]) && Within(list[..], resources)
    modifies list, list[..], resources
    ensures kept <= list.Length && Views(list[..kept]) == Enriched(old(Views(list[..])), conn, indexes)
    ensures list[kept..] == old(list[..])[kept..]
    ensures names == Names(old(Views(list[..])), conn, indexes)
    ensures changed <==> Enriched(old(Views(list[..])), conn, indexes) != old(Views(list[..]))
  {
    hide Attributed, NameFor, Separate, Progress, Shows, Within, Views, Enriched, Names, Resources;
    ghost var was, views := list[..], Views(list[..]);
    ghost var reached: set<Resource> := resources;
    ghost var done, now: seq<View> := [], views;
    ghost var from: seq<nat> := [];
    kept, names, changed := 0, {}, false;
    ShowsViews(was, resources);
    NoProgress(views, conn, indexes);
    for i := 0 to list.Length
      invariant kept <= i && forall j :: kept <= j < |was| ==> list[j] == was[j]
      invariant kept == |from| && forall k :: 0 <= k < kept ==> from[k] < i && list[k] == was[from[k]]
      invariant Separate(was) && Within(was, reached) && forall r :: r in reached ==> r in resources || fresh(r)
      invariant Shows(was, reached, now)
      invariant Progress(views, i, now, done, from, names, changed, conn, indexes)
    {
      ProgressMore(views, i, now, done, from, names, changed, conn, indexes);
      var rs := list[i];
      OneWithin(was, reached, i);
      var keep, name, touched := AttributeOne(rs, was, i, now, reached, conn, indexes);
      ghost var resource: Resource := rs.resource;
      reached := reached + {resource};
      if touched {
        changed := true;
      }
      if name.Some? {
        names := names + {name.value};
      }
      now := now[i := if keep then Attributed(views[i], conn, indexes).value else views[i]];
      if keep {
        done, from := done + [now[i]], from + [i];
        list[kept] := rs;
        kept := kept + 1;
      }
    }
    AllProgress(views, now, done, from, names, changed, conn, indexes);
    KeptViews(was, reached, now, list[..kept], from, done);
  }

  lemma OneWithin(list: seq<ResourceSpans>, resources: set<Resource>, i: nat)
    requires i < |list| && Within(list, resources)
    ensures list[i].resource == null || list[i].resource in resources
  {
  }

  lemma ShowsViews(list: seq<ResourceSpans>, resources: set<Resource>)
    requires Within(list, resources)
    ensures Shows(list, resources, Views(list))
  {
  }

  lemma KeptViews(list: seq<ResourceSpans>, resources: set<Resource>, now: seq<View>, kept: seq<ResourceSpans>,
                  from: seq<nat>, done: seq<View>)
    requires Within(list, resources) && Shows(list, resources, now) && |kept| == |from| == |done|
    requires forall k :: 0 <= k < |from| ==> from[k] < |list| && kept[k] == list[from[k]] && done[k] == now[from[k]]
    ensures Views(kept) == done
  {
  }

  /** Attributing one resource leaves the others as they were. */
  method AttributeOne(rs: ResourceSpans, ghost list: seq<ResourceSpans>, ghost i: nat, ghost now: seq<View>,
                      ghost resources: set<Resource>, conn: Option<string>, indexes: Indexes)
    returns (kept: bool, name: Option<string>, changed: bool)
    requires Separate(list) && Within(list, resources) && Shows(list, resources, now) && i < |list| && rs == list[i]
    modifies rs, rs.resource
    ensures rs.resource != null && (rs.resource == old(rs.resource) || fresh(rs.resource))
    ensures Separate(list) && Within(list, resources + {rs.resource})
    ensures name == NameFor(now[i], conn, indexes)
    ensures kept <==> Attributed(now[i], conn, indexes).Some?
    ensures
      var view := if kept then Attributed(now[i], conn, indexes).value else now[i];
      Shows(list, resources + {rs.resource}, now[i := view]) && (changed <==> !kept || view != now[i])
  {
    hide Attributed, NameFor;
    kept, name, changed := rs.Attribute(conn, indexes);
  }

  /** After i resources: now is what each says, and from[k] the place done[k] had. */
  ghost predicate Progress(views: seq<View>, i: nat, now: seq<View>, done: seq<View>, from: seq<nat>,
                           names: set<string>, changed: bool, conn: Option<string>, indexes: Indexes)
  {
    i <= |views| == |now| && now[i..] == views[i..] && done == Enriched(views[..i], conn, indexes) &&
    |from| == |done| && (forall k :: 0 <= k < |from| ==> from[k] < i && done[k] == now[from[k]]) &&
    names == Names(views[..i], conn, indexes) && (changed <==> done != views[..i])
  }

  lemma NoProgress(views: seq<View>, conn: Option<string>, indexes: Indexes)
    ensures Progress(views, 0, views, [], [], {}, false, conn, indexes)
  {
  }

  lemma ProgressMore(views: seq<View>, i: nat, now: seq<View>, done: seq<View>, from: seq<nat>,
                     names: set<string>, changed: bool, conn: Option<string>, indexes: Indexes)
    requires i < |views| && Progress(views, i, now, done, from, names, changed, conn, indexes)
    ensures |now| == |views| && now[i] == views[i]
    ensures
      var r, name := Attributed(views[i], conn, indexes), NameFor(views[i], conn, indexes);
      var known := if name.Some? then names + {name.value} else names;
      match r
      case None => Progress(views, i + 1, now[i := views[i]], done, from, known, true, conn, indexes)
      case Some(v) => Progress(views, i + 1, now[i := v], done + [v], from + [i],
              known, changed || v != views[i], conn, indexes)
  {
    hide Attributed, NameFor, Enriched, Names;
    EnrichedMore(views, i, conn, indexes);
    ChangedMore(views, i, conn, indexes);
    assert now[i..][0] == views[i..][0];
    assert now[i + 1..] == now[i..][1..] && views[i + 1..] == views[i..][1..];
  }

  lemma AllProgress(views: seq<View>, now: seq<View>, done: seq<View>, from: seq<nat>,
                    names: set<string>, changed: bool, conn: Option<string>, indexes: Indexes)
    requires Progress(views, |views|, now, done, from, names, changed, conn, indexes)
    ensures |views| == |now| && done == Enriched(views, conn, indexes) && |from| == |done|
    ensures forall k :: 0 <= k < |from| ==> from[k] < |views| && done[k] == now[from[k]]
    ensures names == Names(views, conn, indexes) && (changed <==> done != views)
  {
    assert views[..|views|] == views;
  }

  /** Nothing changed so far and nothing changes now, or something did. */
  lemma ChangedMore(views: seq<View>, n: nat, conn: Option<string>, indexes: Indexes)
    requires n < |views|
    ensures
      Enriched(views[..n + 1], conn, indexes) == views[..n + 1] <==>
      Enriched(views[..n], conn, indexes) == views[..n] && Attributed(views[n], conn, indexes) == Some(views[n])
  {
    hide Attributed, Enriched, Names;
    EnrichedMore(views, n, conn, indexes);
    EnrichedShorter(views[..n], conn, indexes);
    assert views[..n + 1] == views[..n] + [views[n]];
    SameWithLast(Enriched(views[..n], conn, indexes), views[..n], Attributed(views[n], conn, indexes), views[n]);
  }

  lemma SameWithLast(kept: seq<View>, all: seq<View>, last: Option<View>, v: View)
    requires |kept| <= |all|
    ensures kept + (if last == None then [] else [last.value]) == all + [v] <==> kept == all && last == Some(v)
  {
    var more := kept + if last == None then [] else [last.value];
    if more == all + [v] {
      assert |more| == |all| + 1;
      assert kept == more[..|kept|] && all == (all + [v])[..|all|];
      assert more[|kept|] == last.value && (all + [v])[|all|] == v;
    }
  }

  /** The whole function.  A body that does not decode is passed on untouched, one
      with nothing left is not passed on, and one that says nothing new is passed
      on in its original bytes. */
  method EnrichTraces(list: array<ResourceSpans>, decodes: bool, encodes: bool, conn: Option<string>, indexes: Indexes,
                      ghost resources: set<Resource>)
    returns (payload: Payload, kept: nat, names: set<string>, forward: bool)
    requires Separate(list[..]) && Within(list[..], resources)
    modifies list, list[..], resources
    ensures !decodes ==> payload == AsReceived && names == {} && forward && Views(list[..]) == old(Views(list[..]))
    ensures decodes ==> names == Names(old(Views(list[..])), conn, indexes) && kept <= list.Length &&
                        Views(list[..kept]) == Enriched(old(Views(list[..])), conn, indexes)
    ensures decodes ==> (forward <==> Enriched(old(Views(list[..])), conn, indexes) != [])
    ensures !forward <==> payload == Empty
    ensures payload == AsReceived && decodes && encodes ==>
      Enriched(old(Views(list[..])), conn, indexes) == old(Views(list[..]))
    ensures payload == Encoded ==> encodes && Enriched(old(Views(list[..])), conn, indexes) != old(Views(list[..]))
  {
    hide Enriched, Names, Separate, Within;
    if !decodes {
      return AsReceived, 0, {}, true;
    }
    var changed;
    kept, names, changed := Filter(list, conn, indexes, resources);
    if kept == 0 {
      return Empty, kept, names, false;
    }
    return if changed && encodes then Encoded else AsReceived, kept, names, true;
  }

  // ----- what the filter means -----

  /** What is kept was there, in that order, and nothing else was kept. */
  lemma KeptInOrder(views: seq<View>, conn: Option<string>,
      indexes: Indexes) returns (from: seq<nat>)
    ensures |from| == |Enriched(views, conn, indexes)|
    ensures forall k, m :: 0 <= k < m < |from| ==> from[k] < from[m]
    ensures forall k :: 0 <= k < |from| ==>
      from[k] < |views| && Attributed(views[from[k]], conn, indexes) == Some(Enriched(views, conn, indexes)[k])
    ensures forall i :: 0 <= i < |views| ==> (i in from <==> Attributed(views[i], conn, indexes).Some?)
  {
    from := Places(views, conn, indexes);
    PlacedMean(views, from, Enriched(views, conn, indexes), conn, indexes);
  }

  lemma {:induction false} Places(views: seq<View>, conn: Option<string>, indexes: Indexes) returns (from: seq<nat>)
    ensures Placed(views, from, Enriched(views, conn, indexes), conn, indexes)
  {
    hide Placed, Enriched, Attributed;
    from := [];
    if views == [] {
      NothingPlaced(views, conn, indexes);
    } else {
      var last, shorter := views[|views| - 1], views[..|views| - 1];
      from := Places(shorter, conn, indexes);
      EnrichedLast(views, conn, indexes);
      PlacedMore(shorter, last, from, Enriched(shorter, conn, indexes), conn, indexes);
      assert shorter + [last] == views;
      if Attributed(last, conn, indexes).Some? {
        from := from + [|shorter|];
      }
    }
  }

  lemma EnrichedLast(views: seq<View>, conn: Option<string>, indexes: Indexes)
    requires views != []
    ensures
      var kept, r := Enriched(views[..|views| - 1], conn, indexes), Attributed(views[|views| - 1], conn, indexes);
      Enriched(views, conn, indexes) == if r.Some? then kept + [r.value] else kept
  {
    hide Attributed;
  }

  /** The places, in order, of the resources that are kept, and what they become. */
  ghost predicate Placed(views: seq<View>, from: seq<nat>, kept: seq<View>, conn: Option<string>, indexes: Indexes) {
    && |from| == |kept|
    && (forall k, m :: 0 <= k < m < |from| ==> from[k] < from[m])
    && (forall k :: 0 <= k < |from| ==>
          from[k] < |views| && Attributed(views[from[k]], conn, indexes) == Some(kept[k]))
    && forall i :: 0 <= i < |views| && Attributed(views[i], conn, indexes).Some? ==> i in from
  }

  lemma NothingPlaced(views: seq<View>, conn: Option<string>, indexes: Indexes)
    requires views == []
    ensures Placed(views, [], Enriched(views, conn, indexes), conn, indexes)
  {
  }

  lemma PlacedMean(views: seq<View>, from: seq<nat>, kept: seq<View>, conn: Option<string>, indexes: Indexes)
    requires Placed(views, from, kept, conn, indexes)
    ensures |from| == |kept|
    ensures forall k, m :: 0 <= k < m < |from| ==> from[k] < from[m]
    ensures forall k :: 0 <= k < |from| ==>
      from[k] < |views| && Attributed(views[from[k]], conn, indexes) == Some(kept[k])
    ensures forall i :: 0 <= i < |views| ==> (i in from <==> Attributed(views[i], conn, indexes).Some?)
  {
    hide Attributed;
  }

  lemma PlacedMore(views: seq<View>, v: View, from: seq<nat>, kept: seq<View>, conn: Option<string>,
      indexes: Indexes)
    requires Placed(views, from, kept, conn, indexes)
    ensures
      var r := Attributed(v, conn, indexes);
      if r.Some? then Placed(views + [v], from + [|views|], kept + [r.value], conn, indexes)
      else Placed(views + [v], from, kept, conn, indexes)
  {
    hide Attributed;
    var all, more := views + [v], from + [|views|];
    forall i | 0 <= i < |all| && Attributed(all[i], conn, indexes).Some?
      ensures i in more && (Attributed(v, conn, indexes).None? ==> i in from)
    {
      if i < |views| {
        assert all[i] == views[i];
        var k :| 0 <= k < |from| && from[k] == i;
        assert more[k] == i;
      } else {
        assert more[|from|] == i;
      }
    }
  }

  /** One resource: a sidecar resource bears the name it resolves to and is dropped
      only when it resolves to none; any other bears the connection's name, if
      there is one.  Its spans and its other attributes are as they were. */
  lemma AttributedMeans(v: View, conn: Option<string>, indexes: Indexes)
    ensures
      var r, name := Attributed(v, conn, indexes), NameFor(v, conn, indexes);
      (r == None <==> IsEBPF(v) && ResolveEBPFService(v.attributes, v.scopes, indexes) == None) &&
      (r.Some? ==>
        r.value.scopes == v.scopes && Others(r.value.attributes) == Others(v.attributes) &&
        if name == None then r.value == v && conn == None else Bears(r.value.attributes, name.value))
  {
    var name := NameFor(v, conn, indexes);
    if name.Some? {
      ForcedMeans(v.attributes, name.value);
    }
  }

  /** What marks a resource of the sidecar. */
  ghost predicate Sidecar(v: View) {
    Reads(v.attributes, "everyup.source", "ebpf")
  }

  /** The process a resource says it is of has a name. */
  ghost predicate ProcessKnown(v: View, indexes: Indexes) {
    indexes.pids.Some? && exists id: string, pid: nat ::
      0 < pid <= 0x7FFF_FFFF_FFFF_FFFF && pid in indexes.pids.value &&
      Reads(v.attributes, "service.instance.id", id) && NamesProcess(id, pid)
  }

  lemma SidecarMeans(v: View)
    ensures IsEBPF(v) <==> Sidecar(v)
  {
    ResourceAttrReads(v.attributes, SOURCE, EBPF);
  }

  lemma ProcessKnownMeans(v: View, indexes: Indexes)
    ensures
      var pid := InstancePID(ResourceAttr(v.attributes, INSTANCE));
      ProcessKnown(v, indexes) <==> indexes.pids.Some? && 0 < pid && pid in indexes.pids.value
  {
    hide NamesProcess, InstancePID, Reads;
    var id := ResourceAttr(v.attributes, INSTANCE);
    var pid := InstancePID(id);
    NoPID();
    if 0 < pid {
      InstancePIDIff(id, pid);
      ResourceAttrReads(v.attributes, INSTANCE, id);
    }
    if ProcessKnown(v, indexes) {
      var named: string, n: nat :|
        0 < n <= 0x7FFF_FFFF_FFFF_FFFF && n in indexes.pids.value &&
        Reads(v.attributes, "service.instance.id", named) && NamesProcess(named, n);
      InstancePIDIff(named, n);
      ResourceAttrReads(v.attributes, INSTANCE, named);
    }
  }

  lemma NoPID()
    ensures InstancePID("") == 0
  {
  }

  /** A sidecar resource of a known process bears the name of that process,
      whatever its addresses are. */
  lemma KnownProcessWins(v: View, conn: Option<string>, indexes: Indexes, host: string, pid: nat)
    requires Sidecar(v) && Reads(v.attributes, "service.instance.id", host + ":" + Decimal(pid))
    requires 0 < pid <= 0x7FFF_FFFF_FFFF_FFFF && indexes.pids.Some? && pid in indexes.pids.value
    ensures Attributed(v, conn, indexes).Some?
    ensures Bears(Attributed(v, conn, indexes).value.attributes, indexes.pids.value[pid])
  {
    hide Reads, InstancePID, Bears;
    SidecarMeans(v);
    ResourceAttrReads(v.attributes, INSTANCE, host + ":" + Decimal(pid));
    InstancePIDRoundTrip(host, pid);
    AttributedMeans(v, conn, indexes);
  }

  /** Without one it bears the name of its first known peer. */
  lemma FirstPeerOtherwise(v: View, conn: Option<string>, indexes: Indexes, a: nat, b: nat, c: nat)
    requires Sidecar(v) && !ProcessKnown(v, indexes)
    requires indexes.ips.Some? && FirstPeer(v.scopes, indexes.ips.value, a, b, c)
    ensures Attributed(v, conn, indexes).Some?
    ensures Bears(Attributed(v, conn, indexes).value.attributes,
                  PeerName(v.scopes[a][b].attributes[c], indexes.ips.value))
  {
    hide Sidecar, ProcessKnown, InstancePID, Bears, KnownPeer, PeerName, NoPeers, NoPeer;
    SidecarMeans(v);
    ProcessKnownMeans(v, indexes);
    PeerInScopes(v.scopes, indexes.ips.value, a, b, c);
    AttributedMeans(v, conn, indexes);
  }

  /** And it is dropped exactly when no peer of it is known either. */
  lemma DroppedIff(v: View, conn: Option<string>, indexes: Indexes)
    ensures Attributed(v, conn, indexes) == None <==>
      Sidecar(v) && !ProcessKnown(v, indexes) &&
      (indexes.ips.Some? ==> NoPeersAtAll(v.scopes, indexes.ips.value))
  {
    hide Sidecar, ProcessKnown, InstancePID, NoPeersAtAll;
    SidecarMeans(v);
    ProcessKnownMeans(v, indexes);
    if indexes.ips.Some? {
      PeersKnown(v.scopes, indexes.ips.value);
    }
  }

  lemma PeersKnown(scopes: seq<seq<Span>>, ips: map<string, string>)
    ensures FirstKnown(Addresses(scopes), ips) == None <==> NoPeersAtAll(scopes, ips)
  {
    hide KnownPeer, PeerName, NoPeer;
    if NoPeersAtAll(scopes, ips) {
      assert scopes[..|scopes|] == scopes;
      PeerInScopes(scopes, ips, |scopes|, 0, 0);
    } else {
      var a, b, c := FindPeer(scopes, ips);
      PeerInScopes(scopes, ips, a, b, c);
    }
  }

  lemma FindPeer(scopes: seq<seq<Span>>, ips: map<string, string>) returns (a: nat, b: nat, c: nat)
    requires !NoPeersAtAll(scopes, ips)
    ensures FirstPeer(scopes, ips, a, b, c)
  {
    hide KnownPeer, NoPeers, NoPeer;
    a := FirstScope(scopes, ips);
    b := FirstSpan(scopes[a], ips);
    c := FirstAttribute(scopes[a][b].attributes, ips);
  }

  lemma {:induction false} FirstScope(scopes: seq<seq<Span>>, ips: map<string, string>) returns (a: nat)
    requires !NoPeersAtAll(scopes, ips)
    ensures a < |scopes| && !NoPeers(scopes[a], ips) && NoPeersAtAll(scopes[..a], ips)
    decreases |scopes|
  {
    hide NoPeers;
    a :| a < |scopes| && !NoPeers(scopes[a], ips);
    if !NoPeersAtAll(scopes[..a], ips) {
      a := FirstScope(scopes[..a], ips);
    }
  }

  lemma {:induction false} FirstSpan(spans: seq<Span>, ips: map<string, string>) returns (b: nat)
    requires !NoPeers(spans, ips)
    ensures b < |spans| && !NoPeer(spans[b].attributes, ips) && NoPeers(spans[..b], ips)
    decreases |spans|
  {
    hide NoPeer;
    b :| b < |spans| && !NoPeer(spans[b].attributes, ips);
    if !NoPeers(spans[..b], ips) {
      b := FirstSpan(spans[..b], ips);
    }
  }

  lemma {:induction false} FirstAttribute(attributes: seq<KeyValue>, ips: map<string, string>) returns (c: nat)
    requires !NoPeer(attributes, ips)
    ensures c < |attributes| && KnownPeer(attributes[c], ips) && NoPeer(attributes[..c], ips)
    decreases |attributes|
  {
    hide KnownPeer;
    c :| c < |attributes| && KnownPeer(attributes[c], ips);
    if !NoPeer(attributes[..c], ips) {
      c := FirstAttribute(attributes[..c], ips);
    }
  }

  /** Any other resource is kept, under the connection's name if it has one, and
      no name is reported for it otherwise. */
  lemma OtherNamed(v: View, conn: Option<string>, indexes: Indexes)
    requires !Sidecar(v)
    ensures Attributed(v, conn, indexes).Some? && NameFor(v, conn, indexes) == conn
    ensures
      var kept := Attributed(v, conn, indexes).value;
      if conn == None then kept == v else Bears(kept.attributes, conn.value)
  {
    hide Bears;
    SidecarMeans(v);
    AttributedMeans(v, conn, indexes);
  }

  /** The names reported are those of the resources that were kept. */
  lemma {:induction false} NamesAre(views: seq<View>, conn: Option<string>, indexes: Indexes, name: string)
    ensures name in Names(views, conn, indexes) <==>
      exists i :: 0 <= i < |views| && NameFor(views[i], conn, indexes) == Some(name)
  {
    hide NameFor;
    if views != [] {
      var shorter := views[..|views| - 1];
      NamesAre(shorter, conn, indexes, name);
      assert forall i :: 0 <= i < |shorter| ==> shorter[i] == views[i];
    }
  }

  lemma AttributedAgain(v: View, conn: Option<string>, indexes: Indexes)
    requires Attributed(v, conn, indexes).Some?
    ensures
      var w := Attributed(v, conn, indexes).value;
      Attributed(w, conn, indexes) == Some(w) && NameFor(w, conn, indexes) == NameFor(v, conn, indexes)
  {
    hide Forced, ResourceAttr, Others, Bears, FirstKnown, Addresses, InstancePID;
    var name := NameFor(v, conn, indexes);
    if name.Some? {
      ForcedAttr(v.attributes, name.value, SOURCE);
      ForcedAttr(v.attributes, name.value, INSTANCE);
      ForcedMeans(v.attributes, name.value);
      ForcedMeans(Forced(v.attributes, name.value), name.value);
    }
  }

  /** Filtering what was filtered changes nothing more, and reports the same names. */
  lemma {:induction false} EnrichedTwice(views: seq<View>, conn: Option<string>, indexes: Indexes)
    ensures
      var once := Enriched(views, conn, indexes);
      Enriched(once, conn, indexes) == once && Names(once, conn, indexes) == Names(views, conn, indexes)
  {
    hide Attributed, NameFor, Enriched, Names;
    if views == [] {
      NothingEnriched(views, conn, indexes);
    } else {
      var last, shorter := views[|views| - 1], views[..|views| - 1];
      var before, once := Enriched(shorter, conn, indexes), Enriched(views, conn, indexes);
      EnrichedTwice(shorter, conn, indexes);
      EnrichedLast(views, conn, indexes);
      NamesLast(views, conn, indexes);
      if Attributed(last, conn, indexes).Some? {
        AttributedAgain(last, conn, indexes);
        assert once[..|once| - 1] == before && once[|once| - 1] == Attributed(last, conn, indexes).value;
        EnrichedLast(once, conn, indexes);
        NamesLast(once, conn, indexes);
      } else {
        DroppedUnnamed(last, conn, indexes);
      }
    }
  }

  lemma NothingEnriched(views: seq<View>, conn: Option<string>, indexes: Indexes)
    requires views == []
    ensures Enriched(views, conn, indexes) == views && Names(views, conn, indexes) == {}
  {
  }

  lemma NamesLast(views: seq<View>, conn: Option<string>, indexes: Indexes)
    requires views != []
    ensures
      var names, name := Names(views[..|views| - 1], conn, indexes), NameFor(views[|views| - 1], conn, indexes);
      Names(views, conn, indexes) == if name.Some? then names + {name.value} else names
  {
    hide NameFor;
  }

  lemma DroppedUnnamed(v: View, conn: Option<string>, indexes: Indexes)
    requires Attributed(v, conn, indexes) == None
    ensures NameFor(v, conn, indexes) == None
  {
  }
}

/** Reading across zones and the zone report. */
module ZnsReads {
  import opened Wrappers
  import opened Arithmetic
  import opened ZnsModel
  import opened ZnsInvariant
  import opened ZnsWrites

  // ----- zns_check_zone_read -----------------------------------------------------------------------

  /** The last zone a read touches. */
  function LastZone(s: Zns, slba: nat, nlb: Blocks): nat
    requires s.zoneSize > 0
  {
    (slba + nlb - 1) / s.zoneSize
  }

  lemma ZonesOfRead(s: Zns, slba: nat, nlb: Blocks)
    requires s.zoneSize > 0 && slba + nlb <= Size(s)
    ensures ZoneIdx(s, slba) <= LastZone(s, slba, nlb) < |s.zones|
  {
    DivMonotone(slba, slba + nlb - 1, s.zoneSize);
    DivBelow(slba + nlb - 1, |s.zones|, s.zoneSize);
  }

  /** `end > zns_zone_rd_boundary(ns, zone)`: there is a further zone to read. */
  lemma PastBoundary(s: Zns, slba: nat, nlb: Blocks, z: nat)
    requires s.zoneSize > 0 && Geometry(s) && z < |s.zones|
    ensures slba + nlb > s.zones[z].zslba + s.zoneSize <==> z < LastZone(s, slba, nlb)
  {
    LastBlockIn(slba + nlb - 1, z, s.zoneSize);
    assert s.zones[z].zslba == z * s.zoneSize;
  }

  /** Block b lies after the z-th stretch of n blocks. */
  lemma LastBlockIn(b: nat, z: nat, n: nat)
    requires n > 0
    ensures b >= z * n + n <==> z < b / n
  {
    var l := b / n;
    assert b == l * n + b % n;
    OneZoneOn(z, n);
    if z < l { MulMonotone(z + 1, l, n); } else { MulMonotone(l, z, n); }
  }

  /** No zone the read touches is offline and, unless reading across zones is enabled, there is
      only one. */
  predicate Readable(s: Zns, crossRead: bool, slba: nat, nlb: Blocks)
    requires s.zoneSize > 0 && slba + nlb <= Size(s)
  {
    ZonesOfRead(s, slba, nlb);
    && (forall z :: ZoneIdx(s, slba) <= z <= LastZone(s, slba, nlb) ==> s.zones[z].zs != Offline)
    && (crossRead || ZoneIdx(s, slba) == LastZone(s, slba, nlb))
  }

  /** `zns_check_zone_read`.  It never leaves the zone array; it succeeds exactly if the
      zones it touches can be read. */
  method CheckZoneRead(s: Zns, crossRead: bool, slba: nat, nlb: Blocks) returns (status: Status)
    requires s.zoneSize > 0 && Geometry(s) && slba + nlb <= Size(s)
    ensures ZoneIdx(s, slba) <= LastZone(s, slba, nlb) < |s.zones|
    ensures status == Success <==> Readable(s, crossRead, slba, nlb)
    ensures status != Success ==>
              status == if s.zones[ZoneIdx(s, slba)].zs == Offline || crossRead then ZoneOffline else BoundaryError
  {
    hide Geometry;
    ZonesOfRead(s, slba, nlb);
    var zone := ZoneIdx(s, slba);
    var end := slba + nlb;
    status := StateForRead(s.zones[zone].zs);
    PastBoundary(s, slba, nlb, zone);
    if status == Success && end > s.zones[zone].zslba + s.zoneSize {
      if !crossRead {
        return BoundaryError;
      }
      var more := true;
      while more
        invariant ZoneIdx(s, slba) <= zone <= LastZone(s, slba, nlb)
        invariant more <==> status == Success && zone < LastZone(s, slba, nlb)
        invariant status == StateForRead(s.zones[zone].zs)
        invariant forall z :: ZoneIdx(s, slba) <= z < zone ==> s.zones[z].zs != Offline
        decreases LastZone(s, slba, nlb) - zone
      {
        zone := zone + 1;
        status := StateForRead(s.zones[zone].zs);
        PastBoundary(s, slba, nlb, zone);
        more := status == Success && end > s.zones[zone].zslba + s.zoneSize;
      }
    }
  }

  /** `zns_check_zone_state_for_read`. */
  function StateForRead(zs: ZState): Status {
    if zs == Offline then ZoneOffline else Success
  }

  // ----- zns_zone_mgmt_recv -------------------------------------------------------------------------

  /** `zns_zone_matches_filter`, the filter being the set of states it lets through. */
  predicate Matches(filter: set<ZState>, z: Zone) {
    z.zs in filter
  }

  /** A reported zone; the write pointer of full, read-only and offline zones is invalid. */
  datatype Descriptor = Descriptor(zs: ZState, ext: bool, zcap: nat, zslba: nat, wp: nat, wpValid: bool)

  function Describe(z: Zone): Descriptor {
    Descriptor(z.zs, z.ext, z.zcap, z.zslba, z.wp, z.zs !in {Full, ReadOnly, Offline})
  }

  /** The zones from i on that match, in order. */
  ghost function Matching(zones: seq<Zone>, filter: set<ZState>, i: nat): (r: seq<Descriptor>)
    requires i <= |zones|
    decreases |zones| - i
  {
    if i == |zones| then []
    else (if Matches(filter, zones[i]) then [Describe(zones[i])] else []) + Matching(zones, filter, i + 1)
  }

  /** The indices of the zones from i on that match, in order. */
  ghost function MatchingZones(zones: seq<Zone>, filter: set<ZState>, i: nat): (r: seq<nat>)
    requires i <= |zones|
    decreases |zones| - i
  {
    if i == |zones| then []
    else (if zones[i].zs in filter then [i] else []) + MatchingZones(zones, filter, i + 1)
  }

  /** d describes z as a report does: the write pointer of full, read-only and offline zones
      means nothing. */
  ghost predicate Describes(d: Descriptor, z: Zone) {
    && d.zs == z.zs && d.ext == z.ext && d.zcap == z.zcap && d.zslba == z.zslba && d.wp == z.wp
    && (d.wpValid <==> z.zs == Empty || z.zs == ImpOpen || z.zs == ExpOpen || z.zs == Closed)
  }

  /** The k-th descriptor is that of the k-th zone from i on that matches. */
  ghost predicate AllDescribed(all: seq<Descriptor>, zones: seq<Zone>, idx: seq<nat>) {
    && |all| == |idx|
    && forall k :: 0 <= k < |idx| ==> idx[k] < |zones| && Describes(all[k], zones[idx[k]])
  }

  lemma {:induction false} MatchingDescribed(zones: seq<Zone>, filter: set<ZState>, i: nat)
    requires i <= |zones|
    ensures AllDescribed(Matching(zones, filter, i), zones, MatchingZones(zones, filter, i))
    decreases |zones| - i
  {
    hide AllDescribed, Describe;
    if i == |zones| {
      NoneDescribed(zones);
    } else {
      MatchingDescribed(zones, filter, i + 1);
      OneMoreDescribed(Matching(zones, filter, i + 1), zones, MatchingZones(zones, filter, i + 1), i);
      assert [] + Matching(zones, filter, i + 1) == Matching(zones, filter, i + 1);
      assert [] + MatchingZones(zones, filter, i + 1) == MatchingZones(zones, filter, i + 1);
    }
  }

  lemma NoneDescribed(zones: seq<Zone>)
    ensures AllDescribed([], zones, [])
  {
  }

  lemma OneMoreDescribed(all: seq<Descriptor>, zones: seq<Zone>, idx: seq<nat>, i: nat)
    requires AllDescribed(all, zones, idx) && i < |zones|
    ensures AllDescribed([Describe(zones[i])] + all, zones, [i] + idx)
  {
  }

  /** The matching zones are each named once, in increasing order. */
  lemma {:induction false} MatchingInOrder(zones: seq<Zone>, filter: set<ZState>, i: nat)
    requires i <= |zones|
    ensures var idx := MatchingZones(zones, filter, i);
            && (forall z :: z in idx <==> i <= z < |zones| && zones[z].zs in filter)
            && (forall j, k :: 0 <= j < k < |idx| ==> idx[j] < idx[k])
    decreases |zones| - i
  {
    if i < |zones| {
      MatchingInOrder(zones, filter, i + 1);
      var rest := MatchingZones(zones, filter, i + 1);
      forall k | 0 <= k < |rest| ensures rest[k] > i {
        assert rest[k] in rest;
      }
    }
  }

  function Least(x: nat, y: nat): nat { if x < y then x else y }

  /** Stepping by address or by index, the loops end at the same zone. */
  lemma SameEnd(s: Zns, slba: nat, z: nat)
    requires s.zoneSize > 0
    ensures slba + (z - ZoneIdx(s, slba)) * s.zoneSize < Size(s) <==> z < |s.zones|
  {
    var i, off := ZoneIdx(s, slba), slba % s.zoneSize;
    assert slba == i * s.zoneSize + off;
    assert (z - i) * s.zoneSize == z * s.zoneSize - i * s.zoneSize;
    if z < |s.zones| { MulMonotone(z + 1, |s.zones|, s.zoneSize); } else { MulMonotone(|s.zones|, z, s.zoneSize); }
  }

  /** When the counting loop of `zns_zone_mgmt_recv` ends before the end of the zone array: by
      address, or because a partial report is full. */
  predicate Bounded(s: Zns, capacity: nat, partial: bool, maxZones: nat, slba: nat, matches: nat)
    requires s.zoneSize > 0
  {
    capacity - Size(s) <= slba % s.zoneSize || (partial && matches >= maxZones)
  }

  /** The counting loop of `zns_zone_mgmt_recv`, which steps through addresses up to the
      capacity of the namespace; `inside` is false where it reads a zone after the last one. */
  method CountMatches(s: Zns, capacity: nat, filter: set<ZState>, partial: bool, maxZones: nat, slba: nat)
    returns (inside: bool, nr: nat)
    requires s.zoneSize > 0 && slba < Size(s) <= capacity && ZoneIdx(s, slba) < |s.zones|
    ensures var all := |Matching(s.zones, filter, ZoneIdx(s, slba))|;
            && (inside <==> Bounded(s, capacity, partial, maxZones, slba, all))
            && (inside ==> nr == if partial then Least(all, maxZones) else all)
  {
    nr := 0;
    var lba, zone := slba, ZoneIdx(s, slba);
    ghost var all := |Matching(s.zones, filter, zone)|;
    SameEnd(s, slba, zone);
    EndOfArray(s, slba);
    while lba < capacity
      invariant ZoneIdx(s, slba) <= zone <= |s.zones|
      invariant lba == slba + (zone - ZoneIdx(s, slba)) * s.zoneSize && (lba < Size(s) <==> zone < |s.zones|)
      invariant nr + |Matching(s.zones, filter, zone)| == all
      invariant partial ==> nr <= maxZones
      decreases |s.zones| - zone
    {
      if partial && nr >= maxZones {
        return true, nr;
      }
      if zone >= |s.zones| {
        return false, nr;
      }
      if Matches(filter, s.zones[zone]) {
        nr := nr + 1;
      }
      OneZoneOn(zone - ZoneIdx(s, slba), s.zoneSize);
      zone := zone + 1;
      SameEnd(s, slba, zone);
      lba := lba + s.zoneSize;
    }
    inside := true;
  }

  /** The address that belongs to the end of the array. */
  lemma EndOfArray(s: Zns, slba: nat)
    requires s.zoneSize > 0
    ensures slba + (|s.zones| - ZoneIdx(s, slba)) * s.zoneSize == Size(s) + slba % s.zoneSize
  {
    var i := ZoneIdx(s, slba);
    assert (|s.zones| - i) * s.zoneSize == |s.zones| * s.zoneSize - i * s.zoneSize;
  }

  lemma OneZoneOn(k: int, n: int)
    ensures (k + 1) * n == k * n + n
  {
  }

  /** The loop that fills in descriptors, which steps through the zone array. */
  method EmitMatches(s: Zns, filter: set<ZState>, maxZones: nat, first: nat) returns (descriptors: seq<Descriptor>)
    requires first <= |s.zones|
    ensures var all := Matching(s.zones, filter, first); descriptors == all[..Least(|all|, maxZones)]
  {
    descriptors := [];
    var zone, left := first, maxZones;
    while zone < |s.zones| && left > 0
      invariant first <= zone <= |s.zones| && |descriptors| + left == maxZones
      invariant descriptors + Matching(s.zones, filter, zone) == Matching(s.zones, filter, first)
    {
      if Matches(filter, s.zones[zone]) {
        assert descriptors + ([Describe(s.zones[zone])] + Matching(s.zones, filter, zone + 1))
            == (descriptors + [Describe(s.zones[zone])]) + Matching(s.zones, filter, zone + 1);
        descriptors := descriptors + [Describe(s.zones[zone])];
        left := left - 1;
      }
      zone := zone + 1;
    }
  }

  /** The report: the number of matching zones, capped at the number of descriptors that fit
      if a partial report is asked for, and the first matching zones in order.  None if the
      counting loop leaves the zone array. */
  method Report(s: Zns, capacity: nat, filter: set<ZState>, partial: bool, maxZones: nat, slba: nat)
    returns (report: Option<(nat, seq<Descriptor>)>)
    requires s.zoneSize > 0 && slba < Size(s) <= capacity
    ensures ZoneIdx(s, slba) < |s.zones|
    ensures var idx := MatchingZones(s.zones, filter, ZoneIdx(s, slba));
            && (report.Some? <==> Bounded(s, capacity, partial, maxZones, slba, |idx|))
            && (report.Some? ==>
                  && report.value.0 == (if partial then Least(|idx|, maxZones) else |idx|)
                  && AllDescribed(report.value.1, s.zones, idx[..Least(|idx|, maxZones)]))
  {
    hide Bounded;
    DivBelow(slba, |s.zones|, s.zoneSize);
    MatchingDescribed(s.zones, filter, ZoneIdx(s, slba));
    var inside, nr := CountMatches(s, capacity, filter, partial, maxZones, slba);
    if !inside {
      return None;
    }
    var descriptors := EmitMatches(s, filter, maxZones, ZoneIdx(s, slba));
    report := Some((nr, descriptors));
  }

  /** If the capacity is a multiple of the zone size, the loop always stays inside ... */
  lemma WholeZonesAreBounded(s: Zns, partial: bool, maxZones: nat, slba: nat, matches: nat)
    requires s.zoneSize > 0
    ensures Bounded(s, Size(s), partial, maxZones, slba, matches)
  {
    assert Size(s) - Size(s) == 0;
  }

  /** ... and else a report can leave the array: a complete report of
      one zone of 2 blocks on a namespace of 3, say, but not a partial report with room for
      one descriptor, or one from the second block. */
  lemma OddCapacityOverruns()
    ensures var s, any := Zns([Zone(Empty, false, 2, 0, 0, 0)], 2, 0, [], [], [], [], 0, 0, 0, 0), {Empty};
            var all := |Matching(s.zones, any, 0)|;
            && ZoneIdx(s, 0) == ZoneIdx(s, 1) == 0 && all == 1
            && !Bounded(s, 3, false, 1, 0, all)
            && Bounded(s, 3, true, 1, 0, all) && Bounded(s, 3, false, 1, 1, all)
  {
  }

  /** In fact every complete report from the start of a zone does. */
  lemma CompleteReportOverruns(s: Zns, capacity: nat, i: nat, matches: nat)
    requires s.zoneSize > 0 && Size(s) < capacity && i < |s.zones|
    ensures !Bounded(s, capacity, false, 0, i * s.zoneSize, matches)
  {
    DivModUnique(i, 0, s.zoneSize);
  }
}

/** Several volumes: where the scheduler's next-fit and the node's worst-fit agree, and where not. */
module SchedulerAndNode {
  import opened MapSums
  import opened QuotaPaths
  import opened QuotaProvider
  import opened QuotaManager
  import opened Conservation
  import opened Overbooking
  import opened WorstFitPlacement
  import NodeMatch
  import NodeStatus
  import Sorting
  import HostPathTypes

  /** The disks as a listing yields them, each once, in some order. */
  ghost function Listing(disks: map<Device, Disk>, devs: seq<Device>): seq<Disk>
    requires forall dev :: dev in devs ==> dev in disks
  {
    if devs == [] then [] else Listing(disks, devs[..|devs| - 1]) + [disks[devs[|devs| - 1]]]
  }

  ghost predicate EachOnce(disks: map<Device, Disk>, devs: seq<Device>) {
    && (forall dev :: dev in devs <==> dev in disks)
    && (forall i, j :: 0 <= i < j < |devs| ==> devs[i] != devs[j])
  }

  ghost function FreeOf(disks: map<Device, Disk>, devs: seq<Device>): map<Device, nat> {
    map dev | dev in devs && dev in disks :: disks[dev].allocatable
  }

  lemma {:induction false} ListingMembers(disks: map<Device, Disk>, devs: seq<Device>)
    requires forall dev :: dev in devs ==> dev in disks
    ensures |Listing(disks, devs)| == |devs|
    ensures forall d :: d in Listing(disks, devs) ==> exists dev :: dev in devs && disks[dev] == d
    decreases |devs|
  {
    if devs != [] {
      ListingMembers(disks, devs[..|devs| - 1]);
    }
  }

  lemma InfosSnoc(listing: seq<Disk>, d: Disk)
    ensures NodeStatus.Infos(listing + [d]) == NodeStatus.Infos(listing) + [NodeStatus.ToDiskInfo(d)]
  {
    assert (listing + [d])[..|listing|] == listing;
  }

  lemma TotalSnoc(infos: seq<HostPathTypes.DiskInfo>, d: HostPathTypes.DiskInfo)
    ensures NodeStatus.Total(infos + [d], NodeStatus.Allocatable)
            == NodeStatus.Total(infos, NodeStatus.Allocatable) + d.allocatable
  {
    assert (infos + [d])[..|infos|] == infos;
  }

  lemma {:induction false} ListingTotal(disks: map<Device, Disk>, devs: seq<Device>)
    requires forall dev :: dev in devs ==> dev in disks && disks[dev].allocatable < HostPathTypes.INT64_LIMIT
    requires forall i, j :: 0 <= i < j < |devs| ==> devs[i] != devs[j]
    ensures NodeStatus.Total(NodeStatus.Infos(Listing(disks, devs)), NodeStatus.Allocatable) == Sum(FreeOf(disks, devs))
    decreases |devs|
  {
    if devs == [] {
      assert FreeOf(disks, devs) == map[];
    } else {
      var k := |devs| - 1;
      var listing, d := Listing(disks, devs[..k]), disks[devs[k]];
      ListingTotal(disks, devs[..k]);
      InfosSnoc(listing, d);
      TotalSnoc(NodeStatus.Infos(listing), NodeStatus.ToDiskInfo(d));
      FreeOfOneMore(disks, devs);
    }
  }

  lemma FreeOfOneMore(disks: map<Device, Disk>, devs: seq<Device>)
    requires devs != [] && forall dev :: dev in devs ==> dev in disks
    requires forall i, j :: 0 <= i < j < |devs| ==> devs[i] != devs[j]
    ensures var k := |devs| - 1; Sum(FreeOf(disks, devs)) == Sum(FreeOf(disks, devs[..k])) + disks[devs[k]].allocatable
  {
    var k := |devs| - 1;
    assert devs == devs[..k] + [devs[k]];
    assert devs[k] !in devs[..k];
    assert FreeOf(disks, devs) == FreeOf(disks, devs[..k])[devs[k] := disks[devs[k]].allocatable];
    SumPut(FreeOf(disks, devs[..k]), devs[k], disks[devs[k]].allocatable);
  }

  lemma {:induction false} FreeTotal(infos: seq<HostPathTypes.DiskInfo>)
    ensures HostPathTypes.SumSeq(NodeMatch.Free(infos)) == NodeStatus.Total(infos, NodeStatus.Allocatable)
    decreases |infos|
  {
    if infos != [] {
      var k := |infos| - 1;
      FreeTotal(infos[..k]);
      assert NodeMatch.Free(infos)[..k] == NodeMatch.Free(infos[..k]);
    }
  }

  /** What the scheduler reads. */
  ghost function PublishedFree(disks: map<Device, Disk>, devs: seq<Device>): seq<int>
    requires forall dev :: dev in devs ==> dev in disks
  {
    NodeMatch.Free(NodeStatus.Usage(Listing(disks, devs)).diskStatus)
  }

  lemma PublishedFreeTotal(disks: map<Device, Disk>, devs: seq<Device>)
    requires EachOnce(disks, devs) && forall dev :: dev in disks ==> disks[dev].allocatable < HostPathTypes.INT64_LIMIT
    ensures |PublishedFree(disks, devs)| == |devs|
    ensures HostPathTypes.SumSeq(PublishedFree(disks, devs)) == Sum(FreeOf(disks, devs))
    ensures forall h :: 0 <= h < |devs| ==> 0 <= PublishedFree(disks, devs)[h] < HostPathTypes.INT64_LIMIT
  {
    var listing := Listing(disks, devs);
    var published := NodeStatus.Usage(listing).diskStatus;
    ListingMembers(disks, devs);
    ListingTotal(disks, devs);
    NodeStatus.UsageSize(listing);
    NodeStatus.SortTotal(NodeStatus.Infos(listing), NodeStatus.Allocatable);
    FreeTotal(published);
    forall h | 0 <= h < |published| ensures 0 <= published[h].allocatable < HostPathTypes.INT64_LIMIT {
      NodeStatus.PublishedComesFromListed(listing, h);
      var d :| d in listing && NodeStatus.ToDiskInfo(d) == published[h];
      var dev :| dev in devs && disks[dev] == d;
    }
  }

  lemma OfferedIsLeft(d: Disk, volumes: map<VolumeId, nat>)
    requires DiskLoose(d, volumes) && Sum(volumes) <= d.capacity
    ensures d.capacity <= d.allocatable + Sum(volumes)
  {
  }

  /** What is offered of a disk is at least what it has left. */
  lemma OfferedCovers(m: Manager, devs: seq<Device>)
    requires Loose(m) && Within(m) && EachOnce(m.disks, devs) && forall dev :: dev in m.disks ==> !m.disks[dev].disabled
    ensures |Capacities(m)| == |devs|
    ensures Sum(Capacities(m)) <= Sum(FreeOf(m.disks, devs)) + Sum(GivenAway(m))
  {
    var free := FreeOf(m.disks, devs);
    assert free.Keys == GivenAway(m).Keys == Capacities(m).Keys == m.disks.Keys;
    forall dev | dev in free ensures Capacities(m)[dev] <= free[dev] + GivenAway(m)[dev] {
      assert DiskLoose(m.disks[dev], SizesOn(m.quotas, dev));
      assert Sum(SizesOn(m.quotas, dev)) <= m.disks[dev].capacity;
      OfferedIsLeft(m.disks[dev], SizesOn(m.quotas, dev));
    }
    SumCovered(free, GivenAway(m), Capacities(m));
    DifferentCount(devs, m.disks.Keys);
  }

  lemma OfferedRoom(m: Manager, devs: seq<Device>, total: nat, c: nat)
    requires Loose(m) && Within(m) && EachOnce(m.disks, devs) && forall dev :: dev in m.disks ==> !m.disks[dev].disabled
    requires HasRoomFor(m, total, c)
    ensures 1 <= |Capacities(m)| == |devs|
    ensures total + (|Capacities(m)| - 1) * c <= Sum(FreeOf(m.disks, devs))
  {
    OfferedCovers(m, devs);
    Covered(m, total, c, Sum(FreeOf(m.disks, devs)));
  }

  lemma Covered(m: Manager, total: nat, c: nat, free: nat)
    requires HasRoomFor(m, total, c) && Sum(Capacities(m)) <= free + Sum(GivenAway(m))
    ensures total + (|Capacities(m)| - 1) * c <= free
  {
  }

  lemma {:induction false} DifferentCount(devs: seq<Device>, all: set<Device>)
    requires forall dev :: dev in devs <==> dev in all
    requires forall i, j :: 0 <= i < j < |devs| ==> devs[i] != devs[j]
    ensures |devs| == |all|
    decreases |devs|
  {
    if devs != [] {
      var k := |devs| - 1;
      assert devs == devs[..k] + [devs[k]];
      DifferentCount(devs[..k], all - {devs[k]});
    } else {
      assert all == {};
    }
  }

  /** Where the scheduler and the node surely agree, before and after restarts, with no disk
      disabled and none overbooked: the condition under which the node places everything is
      enough for the scheduler, which reads the published record. */
  lemma BothAccept(m: Manager, steps: seq<Step>, c: nat, requests: seq<int>, devs: seq<Device>)
    requires Loose(m) && Within(m) && PossibleRun(m, steps) && AllPublish(steps, c)
    requires EachOnce(m.disks, devs)
    requires forall dev :: dev in m.disks ==> !m.disks[dev].disabled && m.disks[dev].capacity < HostPathTypes.INT64_LIMIT
    requires |requests| == |steps| && forall i :: 0 <= i < |steps| ==> requests[i] == U64(steps[i].capacity)
    requires HasRoomFor(m, Total(steps), c)
    ensures NeverRefused(m, steps)
    ensures NodeMatch.AllPlaced(requests, PublishedFree(m.disks, devs))
  {
    CapacityBound(m, steps, c);
    OfferedRoom(m, devs, Total(steps), c);
    OfferedBelow(m);
    PublishedFreeTotal(m.disks, devs);
    SchedulerHasSpace(steps, c, requests, PublishedFree(m.disks, devs), |Capacities(m)|);
  }

  lemma SchedulerHasSpace(steps: seq<Step>, c: nat, requests: seq<int>, have: seq<int>, n: nat)
    requires AllPublish(steps, c) && 1 <= |have| == n
    requires |requests| == |steps| && forall i :: 0 <= i < |steps| ==> requests[i] == U64(steps[i].capacity)
    requires forall h :: 0 <= h < |have| ==> 0 <= have[h] < HostPathTypes.INT64_LIMIT
    requires Total(steps) + (n - 1) * c <= HostPathTypes.SumSeq(have)
    ensures NodeMatch.AllPlaced(requests, have)
  {
    RequestTotal(steps, requests);
    forall r | r in requests ensures r <= c {
      var i :| 0 <= i < |requests| && requests[i] == r;
      assert steps[i] in steps;
    }
    NodeMatch.AcceptsSpace(requests, have, c);
  }

  lemma OfferedBelow(m: Manager)
    requires Loose(m) && Within(m) && forall dev :: dev in m.disks ==> m.disks[dev].capacity < HostPathTypes.INT64_LIMIT
    ensures forall dev :: dev in m.disks ==> m.disks[dev].allocatable < HostPathTypes.INT64_LIMIT
  {
    forall dev | dev in m.disks ensures m.disks[dev].allocatable < HostPathTypes.INT64_LIMIT {
      assert DiskLoose(m.disks[dev], SizesOn(m.quotas, dev));
      assert Sum(SizesOn(m.quotas, dev)) <= m.disks[dev].capacity;
    }
  }

  lemma {:induction false} RequestTotal(steps: seq<Step>, requests: seq<int>)
    requires forall s :: s in steps ==> s.PublishStep?
    requires |requests| == |steps| && forall i :: 0 <= i < |steps| ==> requests[i] == U64(steps[i].capacity)
    ensures HostPathTypes.SumSeq(requests) == Total(steps)
    decreases |steps|
  {
    if steps != [] {
      assert steps[0] in steps;
      RequestTotal(steps[1..], requests[1..]);
      HostPathTypes.SumSeqCons(requests[0], requests[1..]);
      assert requests == [requests[0]] + requests[1..];
    }
  }

  /** One worst-fit placement, on the free space alone. */
  ghost predicate Places(free: map<Device, nat>, size: nat, after: map<Device, nat>) {
    exists dev :: dev in free && size <= free[dev] && (forall e :: e in free ==> free[e] <= free[dev])
                  && after == free[dev := free[dev] - size]
  }

  /** A new volume is created by one placement, or leaves the disks as they were. */
  lemma PublishPlaces(m: Manager, s: Step)
    requires Conserved(m) && s.PublishStep? && Possible(m, s) && s.vol !in m.quotas
    ensures var n := Apply(m, s);
            if s.vol in n.quotas then Places(FreeSpace(m.disks), U64(s.capacity), FreeSpace(n.disks))
            else n.disks == m.disks
  {
    var n := Apply(m, s);
    var free, size := FreeSpace(m.disks), U64(s.capacity);
    if s.vol in n.quotas {
      var d := m.disks[s.dev];
      assert DiskConserved(d, SizesOn(m.quotas, s.dev));
      assert U64(d.quotaSize + size) == d.quotaSize + size;
      forall e | e in free ensures free[e] <= d.allocatable {
        assert Eligible(m.disks[e], size) ==> m.disks[e].allocatable <= d.allocatable;
      }
      assert FreeSpace(n.disks) == free[s.dev := free[s.dev] - size];
    }
  }

  lemma PublishAddsOne(m: Manager, s: Step)
    requires s.PublishStep? && Possible(m, s)
    ensures m.quotas.Keys <= Apply(m, s).quotas.Keys <= m.quotas.Keys + {s.vol}
  {
  }

  /** Publishes of different new volumes, of these sizes. */
  ghost predicate PublishNew(m: Manager, steps: seq<Step>, sizes: seq<nat>) {
    && |steps| == |sizes|
    && (forall i :: 0 <= i < |steps| ==> steps[i].PublishStep? && U64(steps[i].capacity) == sizes[i] && steps[i].vol !in m.quotas)
    && (forall i, j :: 0 <= i < j < |steps| ==> steps[i].vol != steps[j].vol)
  }

  ghost predicate AllCreated(m: Manager, steps: seq<Step>)
    requires PossibleRun(m, steps) && forall i :: 0 <= i < |steps| ==> steps[i].PublishStep?
  {
    forall i :: 0 <= i < |steps| ==> steps[i].vol in Run(m, steps).quotas
  }

  lemma {:induction false} OthersAreNotCreated(m: Manager, steps: seq<Step>, vol: VolumeId)
    requires PossibleRun(m, steps) && vol !in m.quotas
    requires forall i :: 0 <= i < |steps| ==> steps[i].PublishStep? && steps[i].vol != vol
    ensures vol !in Run(m, steps).quotas
    decreases |steps|
  {
    if steps != [] {
      PublishAddsOne(m, steps[0]);
      OthersAreNotCreated(Apply(m, steps[0]), steps[1..], vol);
    }
  }

  /** Some sequence of worst-fit placements takes these sizes in order. */
  ghost predicate PlacesAll(free: map<Device, nat>, sizes: seq<nat>)
    decreases |sizes|
  {
    sizes == [] || exists after :: Places(free, sizes[0], after) && PlacesAll(after, sizes[1..])
  }

  /** If a run creates all its volumes, it is such a sequence. */
  lemma {:induction false} CreatedIsPlaced(m: Manager, steps: seq<Step>, sizes: seq<nat>)
    requires Conserved(m) && PossibleRun(m, steps) && PublishNew(m, steps, sizes) && AllCreated(m, steps)
    ensures PlacesAll(FreeSpace(m.disks), sizes)
    decreases |steps|
  {
    if steps != [] {
      var s := steps[0];
      var n := Apply(m, s);
      PublishAddsOne(m, s);
      StepConserves(m, s);
      if s.vol !in n.quotas {
        OthersAreNotCreated(n, steps[1..], s.vol);
      }
      PublishPlaces(m, s);
      CreatedIsPlaced(n, steps[1..], sizes[1..]);
      assert Places(FreeSpace(m.disks), sizes[0], FreeSpace(n.disks));
    }
  }

  /** Whatever of these sizes is placed and whatever fails for another reason, there is room for
      the next one. */
  ghost predicate RoomForAll(free: map<Device, nat>, sizes: seq<nat>)
    decreases |sizes|
  {
    sizes == [] ||
    ((exists dev :: dev in free && sizes[0] <= free[dev])
     && forall after :: TakesAtMost(free, sizes[0], after) ==> RoomForAll(after, sizes[1..]))
  }

  ghost predicate TakesAtMost(free: map<Device, nat>, size: nat, after: map<Device, nat>) {
    after == free || Places(free, size, after)
  }

  lemma TakesOrNot(m: Manager, s: Step)
    requires Conserved(m) && s.PublishStep? && Possible(m, s)
    ensures TakesAtMost(FreeSpace(m.disks), U64(s.capacity), FreeSpace(Apply(m, s).disks))
  {
    PublishTakes(m, s.vol, s.capacity, s.dev, s.o);
    var free, after := FreeSpace(m.disks), FreeSpace(Apply(m, s).disks);
    if after != free {
      PlacesAt(free, s.dev, U64(s.capacity), after);
    }
  }

  lemma PlacesAt(free: map<Device, nat>, dev: Device, size: nat, after: map<Device, nat>)
    requires dev in free && size <= free[dev] && after == free[dev := free[dev] - size]
    requires forall e :: e in free ==> free[e] <= free[dev]
    ensures Places(free, size, after)
  {
  }

  lemma RoomIsFit(disks: map<Device, Disk>, size: nat)
    requires exists dev :: dev in FreeSpace(disks) && size <= FreeSpace(disks)[dev]
    ensures Fits(disks, size)
  {
    var dev :| dev in FreeSpace(disks) && size <= FreeSpace(disks)[dev];
    assert Eligible(disks[dev], size);
  }

  lemma {:induction false} RoomNeverRefuses(m: Manager, steps: seq<Step>, sizes: seq<nat>)
    requires Conserved(m) && PossibleRun(m, steps) && |steps| == |sizes|
    requires forall i :: 0 <= i < |steps| ==> steps[i].PublishStep? && U64(steps[i].capacity) == sizes[i]
    requires RoomForAll(FreeSpace(m.disks), sizes)
    ensures NeverRefused(m, steps)
    decreases |steps|
  {
    if steps != [] {
      var s := steps[0];
      RoomIsFit(m.disks, sizes[0]);
      TakesOrNot(m, s);
      StepConserves(m, s);
      RoomNeverRefuses(Apply(m, s), steps[1..], sizes[1..]);
    }
  }

  /** Two disks with so much free space. */
  ghost predicate Two(free: map<Device, nat>, a: Device, b: Device, x: nat, y: nat) {
    free.Keys == {a, b} && free[a] == x && free[b] == y
  }

  /** On two disks the larger one is taken. */
  lemma PlacesOnLarger(a: Device, b: Device, x: nat, y: nat, free: map<Device, nat>, size: nat, after: map<Device, nat>)
    requires a != b && x != y && Two(free, a, b, x, y) && Places(free, size, after)
    ensures y < x ==> size <= x && Two(after, a, b, x - size, y)
    ensures x < y ==> size <= y && Two(after, a, b, x, y - size)
  {
    var dev :| dev in free && size <= free[dev] && (forall e :: e in free ==> free[e] <= free[dev])
               && after == free[dev := free[dev] - size];
    assert a in free && b in free && dev in {a, b};
    assert after.Keys == free.Keys;
  }

  lemma NoFourPlacements(a: Device, b: Device, k: nat, f0: map<Device, nat>)
    requires a != b && 1 <= k && Two(f0, a, b, 6 * k, 4 * k)
    ensures !PlacesAll(f0, [3 * k, 3 * k, 2 * k, 2 * k])
  {
    assert [3 * k, 3 * k, 2 * k, 2 * k][1..] == [3 * k, 2 * k, 2 * k];
    forall f1 | Places(f0, 3 * k, f1) ensures !PlacesAll(f1, [3 * k, 2 * k, 2 * k]) {
      PlacesOnLarger(a, b, 6 * k, 4 * k, f0, 3 * k, f1);
      NoThreePlacements(a, b, k, f1);
    }
  }

  lemma NoThreePlacements(a: Device, b: Device, k: nat, f1: map<Device, nat>)
    requires a != b && 1 <= k && Two(f1, a, b, 3 * k, 4 * k)
    ensures !PlacesAll(f1, [3 * k, 2 * k, 2 * k])
  {
    assert [3 * k, 2 * k, 2 * k][1..] == [2 * k, 2 * k];
    forall f2 | Places(f1, 3 * k, f2) ensures !PlacesAll(f2, [2 * k, 2 * k]) {
      PlacesOnLarger(a, b, 3 * k, 4 * k, f1, 3 * k, f2);
      NoTwoPlacements(a, b, k, f2);
    }
  }

  lemma NoTwoPlacements(a: Device, b: Device, k: nat, f2: map<Device, nat>)
    requires a != b && 1 <= k && Two(f2, a, b, 3 * k, k)
    ensures !PlacesAll(f2, [2 * k, 2 * k])
  {
    assert [2 * k, 2 * k][1..] == [2 * k];
    forall f3 | Places(f2, 2 * k, f3) ensures !PlacesAll(f3, [2 * k]) {
      PlacesOnLarger(a, b, 3 * k, k, f2, 2 * k, f3);
      TooLargeForAll(f3, 2 * k);
    }
  }

  lemma TooLargeForAll(free: map<Device, nat>, size: nat)
    requires forall dev :: dev in free ==> free[dev] < size
    ensures !PlacesAll(free, [size])
  {
  }

  /** Two enabled disks, the first at least as free as the second. */
  ghost predicate TwoFree(m: Manager, a: Device, b: Device, free: nat, free': nat) {
    && a != b && m.disks.Keys == {a, b} && !m.disks[a].disabled && !m.disks[b].disabled
    && m.disks[a].allocatable == free && m.disks[b].allocatable == free' && free' <= free
  }

  /** What the scheduler reads of these disks. */
  ghost function Published(m: Manager, a: Device, b: Device): seq<int>
    requires {a, b} <= m.disks.Keys
  {
    NodeMatch.Free(NodeStatus.Usage([m.disks[a], m.disks[b]]).diskStatus)
  }

  /** For several volumes the two sides differ. With 6k and 4k bytes free the scheduler reads the
      published record and accepts 3k, 3k, 2k and 2k, while the node, publishing them in that
      order, never creates all four, whatever its choices. */
  lemma SchedulerAcceptsWhatNodeRefuses(m: Manager, a: Device, b: Device, k: nat, steps: seq<Step>)
    requires Conserved(m) && TwoFree(m, a, b, 6 * k, 4 * k) && 1 <= k && 6 * k < HostPathTypes.INT64_LIMIT
    requires PossibleRun(m, steps) && PublishNew(m, steps, [3 * k, 3 * k, 2 * k, 2 * k])
    ensures NodeMatch.AllPlaced([3 * k, 3 * k, 2 * k, 2 * k], Published(m, a, b))
    ensures !AllCreated(m, steps)
  {
    TwoPublished(m, a, b, 6 * k, 4 * k);
    NextFitTakesAll(k);
    if AllCreated(m, steps) {
      CreatedIsPlaced(m, steps, [3 * k, 3 * k, 2 * k, 2 * k]);
      NoFourPlacements(a, b, k, FreeSpace(m.disks));
    }
  }

  /** And the other way round: with 6k and 6k bytes free the scheduler refuses 4k, 3k, 3k and
      2k, while the node, publishing them in that order, always has room. */
  lemma SchedulerRefusesWhatNodeAccepts(m: Manager, a: Device, b: Device, k: nat, steps: seq<Step>)
    requires Conserved(m) && TwoFree(m, a, b, 6 * k, 6 * k) && 1 <= k && 6 * k < HostPathTypes.INT64_LIMIT
    requires PossibleRun(m, steps) && PublishNew(m, steps, [4 * k, 3 * k, 3 * k, 2 * k])
    ensures !NodeMatch.AllPlaced([4 * k, 3 * k, 3 * k, 2 * k], Published(m, a, b))
    ensures NeverRefused(m, steps)
  {
    TwoPublished(m, a, b, 6 * k, 6 * k);
    NextFitLeavesOne(k);
    AlwaysRoom(a, b, k, FreeSpace(m.disks));
    RoomNeverRefuses(m, steps, [4 * k, 3 * k, 3 * k, 2 * k]);
  }

  /** The larger disk is published first; of equal ones, the order does not show. */
  lemma TwoPublished(m: Manager, a: Device, b: Device, free: nat, free': nat)
    requires TwoFree(m, a, b, free, free') && free < HostPathTypes.INT64_LIMIT
    ensures Published(m, a, b) == [free, free']
    ensures Two(FreeSpace(m.disks), a, b, free, free')
  {
    var d, e := m.disks[a], m.disks[b];
    var x, y := NodeStatus.ToDiskInfo(d), NodeStatus.ToDiskInfo(e);
    assert [d, e][..1] == [d] && [d][..0] == [];
    assert NodeStatus.Infos([d]) == [x];
    assert NodeStatus.Infos([d, e]) == [x, y];
    SortTwo(x, y);
  }

  lemma SortTwo(x: HostPathTypes.DiskInfo, y: HostPathTypes.DiskInfo)
    ensures Sorting.Sort([x, y], HostPathTypes.DiskBefore) == if HostPathTypes.DiskBefore(x, y) then [x, y] else [y, x]
  {
    assert [x, y][1..] == [y] && [y][1..] == [] && [x, y][0] == x;
    assert Sorting.Insert(y, [], HostPathTypes.DiskBefore) == [y];
    assert Sorting.Sort([y], HostPathTypes.DiskBefore) == [y];
    assert Sorting.Insert(x, [], HostPathTypes.DiskBefore) == [x];
  }

  lemma SortedAlready(s: seq<int>)
    requires |s| == 4 && s[0] >= s[1] >= s[2] >= s[3]
    ensures Sorting.Sort(s, NodeMatch.Larger) == s
  {
    var s1, s2, s3 := s[1..], s[1..][1..], s[1..][1..][1..];
    assert s3 == [s[3]] && s3[1..] == [];
    assert Sorting.Sort(s3, NodeMatch.Larger) == s3;
    assert s2 == [s[2]] + s3 && Sorting.Sort(s2, NodeMatch.Larger) == s2;
    assert s1 == [s[1]] + s2 && Sorting.Sort(s1, NodeMatch.Larger) == s1;
    assert s == [s[0]] + s1;
  }

  lemma NextFitTakesAll(k: nat)
    requires 1 <= k && 6 * k < HostPathTypes.INT64_LIMIT
    ensures NodeMatch.AllPlaced([3 * k, 3 * k, 2 * k, 2 * k], [6 * k, 4 * k])
  {
    var reqs := [3 * k, 3 * k, 2 * k, 2 * k];
    SortedAlready(reqs);
    PlaceOne(reqs, [0, 2 * k], 1, [0, 0, 1], [0, 0], [0, 0, 1, 1]);
    PlaceOne(reqs, [0, 4 * k], 1, [0, 0], [0, 2 * k], [0, 0, 1]);
    LeaveOne(reqs, [0, 4 * k], 0, [0, 0]);
    PlaceOne(reqs, [3 * k, 4 * k], 0, [0], [0, 4 * k], [0, 0]);
    PlaceOne(reqs, [6 * k, 4 * k], 0, [], [3 * k, 4 * k], [0]);
  }

  lemma AlwaysRoom(a: Device, b: Device, k: nat, f0: map<Device, nat>)
    requires a != b && 1 <= k && Two(f0, a, b, 6 * k, 6 * k)
    ensures RoomForAll(f0, [4 * k, 3 * k, 3 * k, 2 * k])
  {
    var s0 := [4 * k, 3 * k, 3 * k, 2 * k];
    assert s0[1..] == [3 * k, 3 * k, 2 * k] && s0[1..][1..] == [3 * k, 2 * k] && s0[1..][1..][1..] == [2 * k];
    assert s0[1..][1..][1..][1..] == [];
    assert a in f0 && 4 * k <= f0[a];
    forall f1 | TakesAtMost(f0, 4 * k, f1) ensures RoomForAll(f1, s0[1..]) {
      forall f2 | TakesAtMost(f1, 3 * k, f2) ensures RoomForAll(f2, s0[1..][1..]) {
        forall f3 | TakesAtMost(f2, 3 * k, f3) ensures RoomForAll(f3, s0[1..][1..][1..]) {
          RoomInTurn(a, b, k, f0, f1, f2, f3);
        }
        RoomInTurn(a, b, k, f0, f1, f2, f2);
      }
      RoomInTurn(a, b, k, f0, f1, f1, f1);
    }
  }

  lemma RoomInTurn(a: Device, b: Device, k: nat, f0: map<Device, nat>, f1: map<Device, nat>,
                   f2: map<Device, nat>, f3: map<Device, nat>)
    requires a != b && 1 <= k && Two(f0, a, b, 6 * k, 6 * k)
    requires TakesAtMost(f0, 4 * k, f1) && TakesAtMost(f1, 3 * k, f2) && TakesAtMost(f2, 3 * k, f3)
    ensures exists dev :: dev in f1 && 3 * k <= f1[dev]
    ensures exists dev :: dev in f2 && 3 * k <= f2[dev]
    ensures exists dev :: dev in f3 && 2 * k <= f3[dev]
  {
    assert a in f0 && b in f0;
    assert a in f1 && b in f1 && (3 * k <= f1[a] || 3 * k <= f1[b]);
    assert a in f2 && b in f2 && (3 * k <= f2[a] || 3 * k <= f2[b]);
    assert a in f3 && b in f3 && (2 * k <= f3[a] || 2 * k <= f3[b]);
  }

  lemma NextFitLeavesOne(k: nat)
    requires 1 <= k && 6 * k < HostPathTypes.INT64_LIMIT
    ensures !NodeMatch.AllPlaced([4 * k, 3 * k, 3 * k, 2 * k], [6 * k, 6 * k])
  {
    var reqs := [4 * k, 3 * k, 3 * k, 2 * k];
    SortedAlready(reqs);
    LeaveOne(reqs, [2 * k, 0], 1, [0, 1, 1]);
    PlaceOne(reqs, [2 * k, 3 * k], 1, [0, 1], [2 * k, 0], [0, 1, 1]);
    PlaceOne(reqs, [2 * k, 6 * k], 1, [0], [2 * k, 3 * k], [0, 1]);
    LeaveOne(reqs, [2 * k, 6 * k], 0, [0]);
    PlaceOne(reqs, [6 * k, 6 * k], 0, [], [2 * k, 6 * k], [0]);
  }

  lemma LeaveOne(reqs: seq<int>, have: seq<int>, ih: nat, placed: seq<nat>)
    requires |placed| < |reqs| && ih < |have| && have[ih] < reqs[|placed|]
    ensures NodeMatch.Pack(reqs, have, ih, placed) == NodeMatch.Pack(reqs, have, ih + 1, placed)
  {
  }

  lemma PlaceOne(reqs: seq<int>, have: seq<int>, ih: nat, placed: seq<nat>, have': seq<int>, placed': seq<nat>)
    requires |placed| < |reqs| && ih < |have| && 0 <= reqs[|placed|] <= have[ih] < HostPathTypes.INT64_LIMIT
    requires have' == have[ih := have[ih] - reqs[|placed|]] && placed' == placed + [ih]
    ensures NodeMatch.Pack(reqs, have, ih, placed) == NodeMatch.Pack(reqs, have', ih, placed')
  {
    assert have' == have[ih := HostPathTypes.Int64(have[ih] - reqs[|placed|])] by {
      NoWrap(have, ih, reqs[|placed|]);
    }
    PackStep(reqs, have, ih, placed, have', placed');
  }

  lemma NoWrap(have: seq<int>, ih: nat, r: int)
    requires ih < |have| && 0 <= r <= have[ih] < HostPathTypes.INT64_LIMIT
    ensures have[ih := HostPathTypes.Int64(have[ih] - r)] == have[ih := have[ih] - r]
  {
  }

  lemma PackStep(reqs: seq<int>, have: seq<int>, ih: nat, placed: seq<nat>, have': seq<int>, placed': seq<nat>)
    requires |placed| < |reqs| && ih < |have| && reqs[|placed|] <= have[ih]
    requires have' == have[ih := HostPathTypes.Int64(have[ih] - reqs[|placed|])] && placed' == placed + [ih]
    ensures NodeMatch.Pack(reqs, have, ih, placed) == NodeMatch.Pack(reqs, have', ih, placed')
  {
  }
}

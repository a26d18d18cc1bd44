/** What a restart does to the results that rest on exact books: inputs on which they fail. */
module AfterRestart {
  import opened Results
  import opened MapSums
  import opened ProjectIds
  import opened QuotaPaths
  import opened QuotaProvider
  import opened QuotaManager
  import opened Conservation
  import opened Enforcement
  import opened Restart
  import opened Overbooking
  import opened WorstFitPlacement
  import opened SchedulerAndNode
  import HostPathTypes
  import NodeMatch
  import NodeStatus
  import Sorting

  // ---------- the published record ----------

  /** Fill a disk, restart, and expand the volume to the size it has. The disk's free size, and
      the node's with it, falls from all of the capacity to what is left, and nothing is
      published, since `QuotaSize` has not changed. */
  lemma NoOpExpandIsNotPublished(mountPoint: Path, capacity: nat, vol: VolumeId) returns (m: Manager, n: Manager)
    requires CleanMount(mountPoint) && BASIC_BLOCK_SIZE <= capacity < HostPathTypes.INT64_LIMIT
    ensures var step := PublishStep(vol, capacity, "disk", ALL_WELL);
            && PossibleRun(OneDisk(mountPoint, capacity), [step])
            && Enforced(Run(OneDisk(mountPoint, capacity), [step]))
            && m == Restored(Run(OneDisk(mountPoint, capacity), [step]), _ => ALL_WELL)
    ensures vol in m.quotas && Expand(m, vol, m.quotas[vol].quota.hard, ALL_WELL) == (n, true)
    ensures "disk" in m.disks && "disk" in n.disks
    ensures var old', new' := NodeStatus.Usage([m.disks["disk"]]), NodeStatus.Usage([n.disks["disk"]]);
            && old'.allocatable == capacity
            && new'.allocatable == capacity - Blocks(capacity) * BASIC_BLOCK_SIZE
            && NodeStatus.ShouldNodeUpdate(old', new') == Some(false)
  {
    var full := DiskFilled(mountPoint, capacity, vol);
    var o: Path -> Outcome := _ => ALL_WELL;
    m := Restored(full, o);
    RestoredFacts(full, o, "disk");
    OneRestored(full, vol, o);
    RestoredSize(full, vol, o);
    RestoredHard(full, vol, o);
    assert Managed(full, vol);
    n := Expand(m, vol, m.quotas[vol].quota.hard, ALL_WELL).0;
    NoOpExpandComputes(m, n, vol, "disk");
    OneDiskRecord(m.disks["disk"]);
    OneDiskRecord(n.disks["disk"]);
    UnchangedRecord(m.disks["disk"], n.disks["disk"]);
  }

  lemma RestoredHard(full: Manager, vol: VolumeId, o: Path -> Outcome)
    requires Enforced(full) && vol in full.quotas && vol !in full.grown
    ensures RestoredQuota(full, vol, o).quota.hard == Blocks(full.quotas[vol].quota.hard) * BASIC_BLOCK_SIZE
    ensures full.quotas[vol].path in full.provider.cache
  {
    assert Managed(full, vol);
  }

  /** Expanding a volume to its own size recomputes its disk's free size. */
  lemma NoOpExpandComputes(m: Manager, n: Manager, vol: VolumeId, dev: Device)
    requires vol in m.quotas && dev in m.disks && m.quotas[vol].device == dev && m.quotas[vol].path in m.provider.cache
    requires m.disks[dev].quotaSize == m.quotas[vol].quota.hard <= m.disks[dev].capacity < UINT64_COUNT
    requires n == Expand(m, vol, m.quotas[vol].quota.hard, ALL_WELL).0
    ensures Expand(m, vol, m.quotas[vol].quota.hard, ALL_WELL).1
    ensures dev in n.disks
    ensures var d := m.disks[dev]; n.disks[dev] == d.(allocatable := d.capacity - d.quotaSize)
  {
    var d, size := m.disks[dev], m.quotas[vol].quota.hard;
    GrowWrapped(d.quotaSize, size, size);
    assert U64(size) == size;
  }

  lemma OneDiskRecord(d: Disk)
    requires d.quotaSize <= d.capacity < HostPathTypes.INT64_LIMIT && d.allocatable <= d.capacity
    ensures var u := NodeStatus.Usage([d]);
            && u.capacity == d.capacity && u.quotaSize == d.quotaSize && u.allocatable == d.allocatable
            && u.diskStatus == [NodeStatus.ToDiskInfo(d)] && u.used == HostPathTypes.Int64(HostPathTypes.Int64(d.used))
  {
    var x := NodeStatus.ToDiskInfo(d);
    assert [d][..0] == [] && [x][..0] == [];
    assert NodeStatus.Infos([d]) == [x];
    assert [x][1..] == [] && Sorting.Sort([x], HostPathTypes.DiskBefore) == [x];
    forall f ensures NodeStatus.Total([x], f) == NodeStatus.Get(x, f) {
    }
  }

  lemma UnchangedRecord(a: Disk, b: Disk)
    requires a.quotaSize <= a.capacity < HostPathTypes.INT64_LIMIT && a.allocatable <= a.capacity && b.allocatable <= b.capacity
    requires b == a.(allocatable := b.allocatable)
    ensures NodeStatus.ShouldNodeUpdate(NodeStatus.Usage([a]), NodeStatus.Usage([b])) == Some(false)
  {
    OneDiskRecord(a);
    OneDiskRecord(b);
    NodeStatus.FreeSpacePublishedIff(NodeStatus.Usage([a]), NodeStatus.Usage([b]));
  }

  // ---------- the scheduler ----------

  /** A disk that was overbooked after a restart: the node's allocator takes it to have almost
      2^64 bytes, the scheduler reads a negative number and refuses every volume. */
  lemma OverbookedDiskIsRefused(mountPoint: Path, capacity: nat, first: VolumeId, second: VolumeId, size: nat)
      returns (n: Manager)
    requires CleanMount(mountPoint) && BASIC_BLOCK_SIZE <= capacity < HostPathTypes.INT64_LIMIT && first != second
    requires size <= HostPathTypes.INT64_LIMIT
    ensures n.disks.Keys == {"disk"} && first in n.quotas && second in n.quotas
    ensures Fits(n.disks, size)
    ensures !NodeMatch.AllPlaced([size], NodeMatch.Free(NodeStatus.Usage([n.disks["disk"]]).diskStatus))
  {
    var m;
    m, n := FullDiskAcceptsAgain(mountPoint, capacity, first, second);
    assert n.quotas.Keys == {first, second};
    OverbookedKeys(m, n, mountPoint, capacity, first, second);
    assert Eligible(n.disks["disk"], size);
    WrappedIsRefused(n.disks["disk"], size);
  }

  lemma WrappedIsRefused(d: Disk, size: nat)
    requires HostPathTypes.INT64_LIMIT <= d.allocatable < UINT64_COUNT
    ensures !NodeMatch.AllPlaced([size], NodeMatch.Free(NodeStatus.Usage([d]).diskStatus))
  {
    var disks := map["disk" := d];
    assert NodeStatus.ListsDisks(disks, [d]) by {
      assert [d][0] == d && disks["disk"] == d;
    }
    NodeStatus.SchedulerAcceptsIff(disks, [d], size);
  }

  lemma OverbookedKeys(m: Manager, n: Manager, mountPoint: Path, capacity: nat, first: VolumeId, second: VolumeId)
    requires Enforced(m) && m.disks.Keys == {"disk"} && !m.disks["disk"].disabled
    requires var again := PublishStep(second, capacity, "disk", ALL_WELL.(freeId := PROJECT_ID_START + 1));
             Possible(Restored(m, _ => ALL_WELL), again) && n == Apply(Restored(m, _ => ALL_WELL), again)
    ensures n.disks.Keys == {"disk"} && !n.disks["disk"].disabled
  {
  }

  // ---------- placement ----------

  /** Two enabled disks of 10k bytes with 5k on each, both offered whole. */
  ghost predicate TwoReset(m: Manager, a: Device, b: Device, k: nat) {
    && a != b && 1 <= k && 10 * k < UINT64_COUNT && Loose(m) && m.disks.Keys == {a, b}
    && Reset(m, a, k) && Reset(m, b, k)
  }

  ghost predicate Reset(m: Manager, dev: Device, k: nat)
    requires dev in m.disks
  {
    && !m.disks[dev].disabled && m.disks[dev].capacity == m.disks[dev].allocatable == 10 * k
    && m.disks[dev].quotaSize == Sum(SizesOn(m.quotas, dev)) == 5 * k
  }

  /** A restart makes such disks of any that have 5k to be restored. */
  lemma RestartResets(m: Manager, a: Device, b: Device, k: nat, o: Path -> Outcome)
    requires Enforced(m) && Conserved(m) && a != b && m.disks.Keys == {a, b} && 1 <= k
    requires forall dev :: dev in {a, b} ==>
      !m.disks[dev].disabled && m.disks[dev].capacity == 10 * k && Restored(m, o).disks[dev].quotaSize == 5 * k
    ensures TwoReset(Restored(m, o), a, b, k)
  {
    ConservedIsWithin(m);
    StartStaysWithin(m, o);
    RestoredFacts(m, o, a);
    RestoredFacts(m, o, b);
    assert Reset(Restored(m, o), a, k) && Reset(Restored(m, o), b, k);
  }

  lemma ResetIsWithin(m: Manager, a: Device, b: Device, k: nat)
    requires TwoReset(m, a, b, k)
    ensures Within(m)
  {
    forall dev | dev in m.disks ensures Sum(SizesOn(m.quotas, dev)) <= m.disks[dev].capacity {
      assert dev in {a, b};
    }
  }

  /** One volume of size k leaves 4k and 10k free: the disks were level, and the gap is now 6k. */
  lemma GapFailsAfterRestart(m: Manager, a: Device, b: Device, k: nat, s: Step)
    requires TwoReset(m, a, b, k) && s.PublishStep? && Possible(m, s)
    requires U64(s.capacity) == k && BooksOn(m, s, s.dev)
    ensures Level(FreeSpace(m.disks), 0) && !Level(FreeSpace(Apply(m, s).disks), 6 * k - 1)
  {
    ResetIsWithin(m, a, b, k);
    PublishSize(m, s);
    assert s.dev in {a, b} && Reset(m, s.dev, k);
    var drop := PublishDrops(m, s);
    var other := if s.dev == a then b else a;
    var after := FreeSpace(Apply(m, s).disks);
    assert Reset(m, other, k);
    assert s.dev in after && other in after && after[other] == after[s.dev] + 6 * k;
  }

  /** What the run below keeps. */
  ghost predicate TwoOfTen(m: Manager, a: Device, b: Device, k: nat) {
    && a != b && 1 <= k && 10 * k < UINT64_COUNT && Loose(m) && Within(m) && m.disks.Keys == {a, b}
    && OfTen(m, a, k) && OfTen(m, b, k)
  }

  ghost predicate OfTen(m: Manager, dev: Device, k: nat)
    requires dev in m.disks
  {
    && !m.disks[dev].disabled && m.disks[dev].capacity == 10 * k
    && (m.disks[dev].allocatable == 10 * k ==> m.disks[dev].quotaSize <= 5 * k)
  }

  lemma NotOverbookedByK(m: Manager, a: Device, b: Device, k: nat, s: Step)
    requires TwoOfTen(m, a, b, k) && s.PublishStep? && Possible(m, s) && U64(s.capacity) == k
    ensures !Overbooks(m, s)
  {
    PublishSize(m, s);
    if BooksOn(m, s, s.dev) {
      assert s.dev in {a, b} && OfTen(m, s.dev, k);
      assert DiskLoose(m.disks[s.dev], SizesOn(m.quotas, s.dev));
      assert Sum(SizesOn(m.quotas, s.dev)) <= m.disks[s.dev].capacity;
    }
  }

  lemma StaysOfTen(m: Manager, a: Device, b: Device, k: nat, s: Step)
    requires TwoOfTen(m, a, b, k) && s.PublishStep? && Possible(m, s) && U64(s.capacity) == k
    ensures TwoOfTen(Apply(m, s), a, b, k)
  {
    NotOverbookedByK(m, a, b, k, s);
    StepWithinIff(m, s);
    PublishSize(m, s);
    if BooksOn(m, s, s.dev) {
      var drop := PublishDrops(m, s);
      assert s.dev in {a, b};
    }
    assert OfTen(m, a, k) && OfTen(m, b, k);
  }

  lemma FirstIsCreated(m: Manager, steps: seq<Step>, sizes: seq<nat>)
    requires steps != [] && PossibleRun(m, steps) && PublishNew(m, steps, sizes) && AllCreated(m, steps)
    ensures var n := Apply(m, steps[0]);
            && steps[0].PublishStep? && U64(steps[0].capacity) == sizes[0] && steps[0].vol !in m.quotas && steps[0].vol in n.quotas
            && PublishNew(n, steps[1..], sizes[1..]) && AllCreated(n, steps[1..])
  {
    var s := steps[0];
    var n := Apply(m, s);
    PublishAddsOne(m, s);
    if s.vol !in n.quotas {
      OthersAreNotCreated(n, steps[1..], s.vol);
    }
  }

  ghost predicate AllOf(steps: seq<Step>, k: nat) {
    forall s :: s in steps ==> s.PublishStep? && U64(s.capacity) == k
  }

  lemma {:induction false} RunOfTen(m: Manager, a: Device, b: Device, k: nat, steps: seq<Step>)
    requires TwoOfTen(m, a, b, k) && PossibleRun(m, steps) && AllOf(steps, k)
    ensures TwoOfTen(Run(m, steps), a, b, k)
    decreases |steps|
  {
    if steps != [] {
      assert steps[0] in steps;
      StaysOfTen(m, a, b, k, steps[0]);
      RunOfTen(Apply(m, steps[0]), a, b, k, steps[1..]);
    }
  }

  /** A run that creates all its volumes gives their total away. */
  lemma {:induction false} CreatedGives(m: Manager, steps: seq<Step>, sizes: seq<nat>, c: nat)
    requires PossibleRun(m, steps) && PublishNew(m, steps, sizes) && AllCreated(m, steps) && AllPublish(steps, c)
    ensures Sum(GivenAway(Run(m, steps))) == Sum(GivenAway(m)) + Total(steps)
    decreases |steps|
  {
    if steps != [] {
      FirstIsCreated(m, steps, sizes);
      FirstOfAll(steps, c);
      CreatedBooks(m, steps[0]);
      PublishBooks(m, steps[0]);
      CreatedGives(Apply(m, steps[0]), steps[1..], sizes[1..], c);
    }
  }

  lemma CreatedBooks(m: Manager, s: Step)
    requires s.PublishStep? && Possible(m, s) && s.vol !in m.quotas && s.vol in Apply(m, s).quotas
    ensures BooksOn(m, s, s.dev)
  {
  }

  lemma SumOfTwo(sums: map<Device, nat>, a: Device, b: Device)
    requires a != b && sums.Keys == {a, b}
    ensures Sum(sums) == sums[a] + sums[b] && |sums| == 2
  {
    SumTakeOut(sums, a);
    SumTakeOut(sums - {a}, b);
    assert sums - {a} - {b} == map[];
    assert |sums.Keys| == 2;
  }

  lemma TwoOffered(m: Manager, a: Device, b: Device, k: nat)
    requires TwoReset(m, a, b, k)
    ensures |FreeSpace(m.disks)| == 2 && Sum(FreeSpace(m.disks)) == 20 * k
    ensures Sum(GivenAway(m)) == 10 * k && TwoOfTen(m, a, b, k)
  {
    ResetIsWithin(m, a, b, k);
    assert Reset(m, a, k) && Reset(m, b, k);
    SumOfTwo(FreeSpace(m.disks), a, b);
    SumOfTwo(GivenAway(m), a, b);
  }

  /** Of eleven volumes of size k the last is refused, although their total and one more fit
      into the free space that is offered: once ten were created there is no room. */
  lemma CapacityFailsAfterRestart(m: Manager, a: Device, b: Device, k: nat, ten: seq<Step>, sizes: seq<nat>)
    requires TwoReset(m, a, b, k) && PossibleRun(m, ten) && PublishNew(m, ten, sizes) && AllCreated(m, ten)
    requires AllOf(ten, k) && AllPublish(ten, k) && Total(ten) == 10 * k
    ensures |FreeSpace(m.disks)| == 2 && (Total(ten) + k) + (2 - 1) * k <= Sum(FreeSpace(m.disks))
    ensures !Fits(Run(m, ten).disks, k)
  {
    TwoOffered(m, a, b, k);
    GivenLater(m, a, b, k, ten, sizes, Run(m, ten));
    NothingLeft(Run(m, ten), a, b, k);
  }

  lemma GivenLater(m: Manager, a: Device, b: Device, k: nat, steps: seq<Step>, sizes: seq<nat>, n: Manager)
    requires TwoOfTen(m, a, b, k) && PossibleRun(m, steps) && n == Run(m, steps)
    requires PublishNew(m, steps, sizes) && AllCreated(m, steps) && AllOf(steps, k) && AllPublish(steps, k)
    ensures TwoOfTen(n, a, b, k) && Sum(GivenAway(n)) == Sum(GivenAway(m)) + Total(steps)
  {
    RunOfTen(m, a, b, k, steps);
    CreatedGives(m, steps, sizes, k);
  }

  lemma NothingLeft(n: Manager, a: Device, b: Device, k: nat)
    requires TwoOfTen(n, a, b, k) && Sum(GivenAway(n)) == 20 * k
    ensures !Fits(n.disks, k)
  {
    assert OfTen(n, a, k) && OfTen(n, b, k);
    TwoGiven(n, a, b);
    FullOfTen(n, a, k);
    FullOfTen(n, b, k);
    NoneFree(n.disks, k);
  }

  lemma TwoGiven(n: Manager, a: Device, b: Device)
    requires a != b && n.disks.Keys == {a, b} && !n.disks[a].disabled && !n.disks[b].disabled
    ensures Sum(GivenAway(n)) == Sum(SizesOn(n.quotas, a)) + Sum(SizesOn(n.quotas, b))
  {
    SumOfTwo(GivenAway(n), a, b);
  }

  lemma NoneFree(disks: map<Device, Disk>, size: nat)
    requires 1 <= size && forall dev :: dev in disks ==> disks[dev].allocatable == 0
    ensures !Fits(disks, size)
  {
  }

  lemma FullOfTen(n: Manager, dev: Device, k: nat)
    requires Loose(n) && Within(n) && dev in n.disks && OfTen(n, dev, k) && 1 <= k && 10 * k < UINT64_COUNT
    ensures Sum(SizesOn(n.quotas, dev)) <= 10 * k
    ensures Sum(SizesOn(n.quotas, dev)) == 10 * k ==> n.disks[dev].allocatable == 0
  {
    assert DiskLoose(n.disks[dev], SizesOn(n.quotas, dev));
  }
}

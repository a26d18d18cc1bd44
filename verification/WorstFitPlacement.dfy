/** What worst-fit placement guarantees: no early refusal, and disks that stay level. */
module WorstFitPlacement {
  import opened MapSums
  import opened QuotaPaths
  import opened QuotaProvider
  import opened QuotaManager
  import opened Conservation
  import opened Overbooking

  /** The free space of the disks that take new volumes. */
  ghost function FreeSpace(disks: map<Device, Disk>): map<Device, nat> {
    map dev | dev in disks && !disks[dev].disabled :: disks[dev].allocatable
  }

  ghost predicate Level(free: map<Device, nat>, gap: nat) {
    forall a, b :: a in free && b in free ==> free[a] <= free[b] + gap
  }

  ghost predicate AllPublish(steps: seq<Step>, c: nat) {
    forall s :: s in steps ==> s.PublishStep? && U64(s.capacity) <= c
  }

  ghost function Total(steps: seq<Step>): nat
    requires forall s :: s in steps ==> s.PublishStep?
  {
    if steps == [] then 0 else U64(steps[0].capacity) + Total(steps[1..])
  }

  /** A publish takes its size from one fullest-first choice, or takes nothing. */
  lemma PublishTakes(m: Manager, vol: VolumeId, capacity: int, dev: Device, o: Outcome)
    requires Conserved(m) && Possible(m, PublishStep(vol, capacity, dev, o))
    ensures var free, after := FreeSpace(m.disks), FreeSpace(Publish(m, vol, capacity, dev, o).0.disks);
            var size := U64(capacity);
            || after == free
            || (dev in free && size <= free[dev] && after == free[dev := free[dev] - size]
                && forall e :: e in free ==> free[e] <= free[dev])
  {
    var n := Publish(m, vol, capacity, dev, o).0;
    var size := U64(capacity);
    if n.disks != m.disks {
      assert DiskConserved(m.disks[dev], SizesOn(m.quotas, dev));
      var d := m.disks[dev];
      assert U64(d.quotaSize + size) == d.quotaSize + size;
      assert n.disks[dev].allocatable == d.allocatable - size;
      forall e | e in FreeSpace(m.disks) ensures FreeSpace(m.disks)[e] <= d.allocatable {
        assert Eligible(m.disks[e], size) ==> m.disks[e].allocatable <= d.allocatable;
      }
    }
  }

  /** Taking from the largest keeps the gap within the larger of the old gap and the size. */
  lemma TakeKeepsLevel(free: map<Device, nat>, dev: Device, size: nat, gap: nat)
    requires dev in free && size <= free[dev] && size <= gap && Level(free, gap)
    requires forall e :: e in free ==> free[e] <= free[dev]
    ensures Level(free[dev := free[dev] - size], gap)
  {
  }

  // ---------- balance ----------

  /** No call of the run overbooks a disk. */
  ghost predicate RunNeverOverbooks(m: Manager, steps: seq<Step>)
    requires PossibleRun(m, steps)
    decreases |steps|
  {
    steps == [] || (!Overbooks(m, steps[0]) && RunNeverOverbooks(Apply(m, steps[0]), steps[1..]))
  }

  /** An enabled disk on which nothing was booked since the last start has at most `q` on it. */
  ghost predicate UnbookedHave(m: Manager, q: nat) {
    forall dev :: dev in m.disks && !m.disks[dev].disabled && m.disks[dev].allocatable == m.disks[dev].capacity
      ==> m.disks[dev].quotaSize <= q
  }

  /** The first booking on a disk since the last start takes away what lay on it, too. */
  lemma FirstBookingDrops(d: Disk, before: map<VolumeId, nat>, e: Disk, after: map<VolumeId, nat>, size: nat)
    requires DiskLoose(d, before) && Sum(before) <= d.capacity && e.capacity == d.capacity
    requires DiskConserved(e, after) && Sum(after) == Sum(before) + size
    ensures d.allocatable - e.allocatable == if d.allocatable == d.capacity then d.quotaSize + size else size
    ensures e.allocatable == e.capacity ==> e.quotaSize == 0
  {
  }

  lemma PublishSize(m: Manager, s: Step)
    requires s.PublishStep? && Possible(m, s)
    ensures var n := Apply(m, s);
            if BooksOn(m, s, s.dev) then
              && WorstFit(m.disks, U64(s.capacity), s.dev)
              && n.quotas == m.quotas[s.vol := n.quotas[s.vol]] && s.vol !in m.quotas
              && n.quotas[s.vol].device == s.dev && n.quotas[s.vol].quota.hard == U64(s.capacity)
            else n.disks == m.disks && n.quotas == m.quotas
  {
  }

  /** What a publish takes from one disk with the most free space. */
  lemma PublishDrops(m: Manager, s: Step) returns (drop: nat)
    requires Loose(m) && Within(m) && s.PublishStep? && Possible(m, s) && BooksOn(m, s, s.dev) && !Overbooks(m, s)
    ensures var n := Apply(m, s);
            var d := m.disks[s.dev];
            && WorstFit(m.disks, U64(s.capacity), s.dev) && s.dev in n.disks
            && drop == (if d.allocatable == d.capacity then d.quotaSize + U64(s.capacity) else U64(s.capacity))
            && drop <= d.allocatable
            && n.disks == m.disks[s.dev := d.(quotaSize := n.disks[s.dev].quotaSize, allocatable := d.allocatable - drop)]
            && (n.disks[s.dev].allocatable == d.capacity ==> n.disks[s.dev].quotaSize == 0)
  {
    var n := Apply(m, s);
    var d := m.disks[s.dev];
    PublishSize(m, s);
    PutSum(m.quotas, s.vol, n.quotas[s.vol], U64(s.capacity));
    BooksRightIff(m, s, s.dev);
    assert DiskLoose(d, SizesOn(m.quotas, s.dev));
    assert Sum(SizesOn(m.quotas, s.dev)) <= d.capacity;
    OnlyOneDisk(m, s);
    FirstBookingDrops(d, SizesOn(m.quotas, s.dev), n.disks[s.dev], SizesOn(n.quotas, s.dev), U64(s.capacity));
    drop := d.allocatable - n.disks[s.dev].allocatable;
  }

  lemma OnlyOneDisk(m: Manager, s: Step)
    requires s.PublishStep? && Possible(m, s) && BooksOn(m, s, s.dev)
    ensures var n := Apply(m, s);
            && s.dev in m.disks && s.dev in n.disks
            && n.disks == m.disks[s.dev := m.disks[s.dev].(quotaSize := n.disks[s.dev].quotaSize,
                                                           allocatable := n.disks[s.dev].allocatable)]
  {
  }

  lemma StaysLevelOne(m: Manager, s: Step, c: nat, q: nat, gap: nat)
    requires Loose(m) && Within(m) && s.PublishStep? && U64(s.capacity) <= c && Possible(m, s) && !Overbooks(m, s)
    requires UnbookedHave(m, q) && c + q <= gap && Level(FreeSpace(m.disks), gap)
    ensures UnbookedHave(Apply(m, s), q) && Level(FreeSpace(Apply(m, s).disks), gap)
  {
    var free := FreeSpace(m.disks);
    PublishSize(m, s);
    if BooksOn(m, s, s.dev) {
      var drop := PublishDrops(m, s);
      forall e | e in free ensures free[e] <= free[s.dev] {
        assert Eligible(m.disks[e], U64(s.capacity)) ==> m.disks[e].allocatable <= m.disks[s.dev].allocatable;
      }
      TakeKeepsLevel(free, s.dev, drop, gap);
      assert FreeSpace(Apply(m, s).disks) == free[s.dev := free[s.dev] - drop];
    }
  }

  lemma {:induction false} RunStaysLevel(m: Manager, steps: seq<Step>, c: nat, q: nat, gap: nat)
    requires Loose(m) && Within(m) && PossibleRun(m, steps) && AllPublish(steps, c) && RunNeverOverbooks(m, steps)
    requires UnbookedHave(m, q) && c + q <= gap && Level(FreeSpace(m.disks), gap)
    ensures Level(FreeSpace(Run(m, steps).disks), gap)
    decreases |steps|
  {
    if steps != [] {
      assert steps[0] in steps;
      StepWithinIff(m, steps[0]);
      StaysLevelOne(m, steps[0], c, q, gap);
      RunStaysLevel(Apply(m, steps[0]), steps[1..], c, q, gap);
    }
  }

  /** Main result on balance, before and after restarts: over any sequence of volumes of size at
      most `c` that overbooks no disk, the gap between any two enabled disks never exceeds the
      larger of its first value and `c + q`, where `q` is the most that lies on an enabled disk
      on which nothing was booked since the last start. */
  lemma GapBound(m: Manager, steps: seq<Step>, c: nat, q: nat, gap: nat)
    requires Loose(m) && Within(m) && PossibleRun(m, steps) && AllPublish(steps, c) && RunNeverOverbooks(m, steps)
    requires UnbookedHave(m, q) && Level(FreeSpace(m.disks), gap)
    ensures Level(FreeSpace(Run(m, steps).disks), if gap < c + q then c + q else gap)
  {
    RunStaysLevel(m, steps, c, q, if gap < c + q then c + q else gap);
  }

  lemma {:induction false} ExactNeverOverbooks(m: Manager, steps: seq<Step>)
    requires Conserved(m) && PossibleRun(m, steps)
    ensures RunNeverOverbooks(m, steps)
    decreases |steps|
  {
    if steps != [] {
      ConservedIsWithin(m);
      StepConserves(m, steps[0]);
      ConservedIsWithin(Apply(m, steps[0]));
      StepWithinIff(m, steps[0]);
      ExactNeverOverbooks(Apply(m, steps[0]), steps[1..]);
    }
  }

  /** With exact books, the larger of its first value and `c`. */
  lemma ExactGapBound(m: Manager, steps: seq<Step>, c: nat, gap: nat)
    requires Conserved(m) && PossibleRun(m, steps) && AllPublish(steps, c)
    requires Level(FreeSpace(m.disks), gap)
    ensures Level(FreeSpace(Run(m, steps).disks), if gap < c then c else gap)
  {
    ConservedIsWithin(m);
    ExactNeverOverbooks(m, steps);
    forall dev | dev in m.disks && m.disks[dev].allocatable == m.disks[dev].capacity ensures m.disks[dev].quotaSize <= 0 {
      assert DiskConserved(m.disks[dev], SizesOn(m.quotas, dev));
    }
    GapBound(m, steps, c, 0, gap);
  }

  // ---------- capacity ----------

  ghost function Capacities(m: Manager): map<Device, nat> {
    map dev | dev in m.disks && !m.disks[dev].disabled :: m.disks[dev].capacity
  }

  /** What the volumes on each enabled disk were given. */
  ghost function GivenAway(m: Manager): map<Device, nat> {
    map dev | dev in m.disks && !m.disks[dev].disabled :: Sum(SizesOn(m.quotas, dev))
  }

  lemma TooSmallIsFull(d: Disk, volumes: map<VolumeId, nat>, size: nat)
    requires DiskLoose(d, volumes) && d.allocatable < size
    ensures d.capacity < Sum(volumes) + size
  {
  }

  /** If every enabled disk is too small for `size`, they are full together. */
  lemma NoFitMeansFull(m: Manager, size: nat)
    requires Loose(m) && !Fits(m.disks, size)
    ensures Sum(Capacities(m)) + |Capacities(m)| <= Sum(GivenAway(m)) + |Capacities(m)| * size
  {
    forall dev | dev in Capacities(m) ensures Capacities(m)[dev] < GivenAway(m)[dev] + size {
      assert !Eligible(m.disks[dev], size);
      TooSmallIsFull(m.disks[dev], SizesOn(m.quotas, dev), size);
    }
    SumShort(GivenAway(m), Capacities(m), size);
  }

  /** Volumes of this total, and n - 1 more of size `c`, fit on the n enabled disks beside what
      these were given to hold. */
  ghost predicate HasRoomFor(m: Manager, total: nat, c: nat) {
    1 <= |Capacities(m)| && total + (|Capacities(m)| - 1) * c + Sum(GivenAway(m)) <= Sum(Capacities(m))
  }

  lemma RoomForOne(m: Manager, size: nat, c: nat)
    requires Loose(m) && size <= c && HasRoomFor(m, size, c)
    ensures Fits(m.disks, size)
  {
    OneAndReserve(|Capacities(m)|, size, c, Sum(GivenAway(m)), Sum(Capacities(m)));
    if !Fits(m.disks, size) {
      NoFitMeansFull(m, size);
    }
  }

  lemma OneAndReserve(n: nat, size: nat, c: nat, given: nat, capacity: nat)
    requires 1 <= n && size <= c && size + (n - 1) * c + given <= capacity
    ensures given + n * size <= capacity
  {
    TimesMonotone(size, c, n - 1);
    assert n * size == size + (n - 1) * size;
  }

  lemma RoomForRest(m: Manager, n: Manager, size: nat, rest: nat, c: nat)
    requires HasRoomFor(m, size + rest, c)
    requires |Capacities(n)| == |Capacities(m)| && Sum(Capacities(n)) == Sum(Capacities(m))
    requires Sum(GivenAway(n)) <= Sum(GivenAway(m)) + size
    ensures HasRoomFor(m, size, c) && HasRoomFor(n, rest, c)
  {
  }

  lemma SameCapacities(m: Manager, n: Manager)
    requires n.disks.Keys == m.disks.Keys
    requires forall e :: e in m.disks ==>
      n.disks[e].capacity == m.disks[e].capacity && n.disks[e].disabled == m.disks[e].disabled
    ensures Capacities(n) == Capacities(m)
  {
  }

  /** One disk was given `size` more. */
  lemma BookedMore(m: Manager, n: Manager, dev: Device, size: nat)
    requires dev in m.disks && !m.disks[dev].disabled && n.disks.Keys == m.disks.Keys
    requires forall e :: e in m.disks ==> n.disks[e].disabled == m.disks[e].disabled
    requires Sum(SizesOn(n.quotas, dev)) == Sum(SizesOn(m.quotas, dev)) + size
    requires forall e :: e in m.disks && e != dev ==> SizesOn(n.quotas, e) == SizesOn(m.quotas, e)
    ensures Sum(GivenAway(n)) == Sum(GivenAway(m)) + size
  {
    var before, after := GivenAway(m), GivenAway(n);
    assert after.Keys == before.Keys;
    forall e | e in before && e != dev ensures after[e] == before[e] {
    }
    assert after == before[dev := after[dev]];
    SumPut(before, dev, after[dev]);
  }

  lemma PublishBooks(m: Manager, s: Step)
    requires s.PublishStep? && Possible(m, s)
    ensures var n := Apply(m, s);
            && Capacities(n) == Capacities(m)
            && Sum(GivenAway(n)) == Sum(GivenAway(m)) + if BooksOn(m, s, s.dev) then U64(s.capacity) else 0
  {
    var n := Apply(m, s);
    PublishSize(m, s);
    if BooksOn(m, s, s.dev) {
      OnlyOneDisk(m, s);
      PutSum(m.quotas, s.vol, n.quotas[s.vol], U64(s.capacity));
      OthersKeepSizes(m, n, s.vol, n.quotas[s.vol]);
      SameCapacities(m, n);
      BookedMore(m, n, s.dev, U64(s.capacity));
    }
  }

  lemma PublishKeepsRoom(m: Manager, s: Step)
    requires Loose(m) && s.PublishStep? && Possible(m, s)
    ensures var n := Apply(m, s);
            && Loose(n) && |Capacities(n)| == |Capacities(m)| && Sum(Capacities(n)) == Sum(Capacities(m))
            && Sum(GivenAway(n)) <= Sum(GivenAway(m)) + U64(s.capacity)
  {
    StepWithinIff(m, s);
    PublishBooks(m, s);
  }

  lemma FirstOfAll(steps: seq<Step>, c: nat)
    requires steps != [] && AllPublish(steps, c)
    ensures steps[0].PublishStep? && U64(steps[0].capacity) <= c && AllPublish(steps[1..], c)
    ensures Total(steps) == U64(steps[0].capacity) + Total(steps[1..])
  {
    assert steps[0] in steps;
  }

  /** No step of the run is turned away for lack of space. */
  ghost predicate NeverRefused(m: Manager, steps: seq<Step>)
    requires PossibleRun(m, steps) && forall s :: s in steps ==> s.PublishStep?
    decreases |steps|
  {
    steps == [] ||
    (var s := steps[0];
     assert s in steps;
     Fits(m.disks, U64(s.capacity)) && NeverRefused(Apply(m, s), steps[1..]))
  }

  /** Main result on capacity, before and after restarts: volumes of size at most `c` on n
      enabled disks are all placed if their total and n - 1 more of the largest fit beside what
      the disks were given to hold. */
  lemma {:induction false} CapacityBound(m: Manager, steps: seq<Step>, c: nat)
    requires Loose(m) && PossibleRun(m, steps) && AllPublish(steps, c)
    requires HasRoomFor(m, Total(steps), c)
    ensures NeverRefused(m, steps)
    decreases |steps|
  {
    if steps != [] {
      FirstOfAll(steps, c);
      PublishKeepsRoom(m, steps[0]);
      RoomForRest(m, Apply(m, steps[0]), U64(steps[0].capacity), Total(steps[1..]), c);
      RoomForOne(m, U64(steps[0].capacity), c);
      CapacityBound(Apply(m, steps[0]), steps[1..], c);
    }
  }

  lemma FreeIsRest(m: Manager)
    requires Conserved(m)
    ensures |FreeSpace(m.disks)| == |Capacities(m)|
    ensures Sum(FreeSpace(m.disks)) + Sum(GivenAway(m)) == Sum(Capacities(m))
  {
    var free := FreeSpace(m.disks);
    assert free.Keys == Capacities(m).Keys == GivenAway(m).Keys;
    forall dev | dev in free ensures Capacities(m)[dev] == free[dev] + GivenAway(m)[dev] {
      assert DiskConserved(m.disks[dev], SizesOn(m.quotas, dev));
    }
    SumAdd(free, GivenAway(m), Capacities(m));
  }

  /** With exact books, if they fit into the free space. */
  lemma ExactCapacityBound(m: Manager, steps: seq<Step>, c: nat)
    requires Conserved(m) && PossibleRun(m, steps) && AllPublish(steps, c)
    requires 1 <= |FreeSpace(m.disks)|
    requires Total(steps) + (|FreeSpace(m.disks)| - 1) * c <= Sum(FreeSpace(m.disks))
    ensures NeverRefused(m, steps)
  {
    ConservedIsWithin(m);
    FreeIsRest(m);
    CapacityBound(m, steps, c);
  }
}

/** The books over whole histories. A start offers all capacity again, so from then on a call can
    give away more than the disk has: exactly when is said here. */
module Overbooking {
  import opened MapSums
  import opened QuotaPaths
  import opened QuotaProvider
  import opened QuotaManager
  import opened Conservation
  import opened Enforcement
  import opened Restart
  import opened Starts
  import opened Lifetimes

  /** What always holds: `QuotaSize` is the sum in 64 bits, and `AllocatableSize` is all of the
      capacity, as after a start, or was computed from `QuotaSize`. */
  ghost predicate DiskLoose(d: Disk, volumes: map<VolumeId, nat>) {
    && d.capacity < UINT64_COUNT && d.quotaSize == U64(Sum(volumes))
    && (d.allocatable == d.capacity || d.allocatable == U64(d.capacity - d.quotaSize))
  }

  ghost predicate Loose(m: Manager) {
    forall dev {:trigger SizesOn(m.quotas, dev)} :: dev in m.disks ==> DiskLoose(m.disks[dev], SizesOn(m.quotas, dev))
  }

  /** No disk has given away more than it has. */
  ghost predicate Within(m: Manager) {
    forall dev {:trigger SizesOn(m.quotas, dev)} :: dev in m.disks ==> Sum(SizesOn(m.quotas, dev)) <= m.disks[dev].capacity
  }

  /** A call that succeeds and asks for more than `Capacity - QuotaSize` has left: a new volume
      with all of its size, a volume that grows with its growth. */
  ghost predicate Overbooks(m: Manager, s: Step)
    requires Possible(m, s)
  {
    match s
    case PublishStep(vol, capacity, dev, o) =>
      && vol !in m.quotas && Publish(m, vol, capacity, dev, o).1.Ok?
      && m.disks[dev].capacity < m.disks[dev].quotaSize + U64(capacity)
    case ExpandStep(vol, capacity, o) =>
      && Expand(m, vol, capacity, o).1
      && var d, q := m.disks[m.quotas[vol].device], m.quotas[vol];
         d.capacity < d.quotaSize + U64(capacity) - q.quota.hard
    case _ => false
  }

  /** The call changes the books of this disk. */
  ghost predicate BooksOn(m: Manager, s: Step, dev: Device)
    requires Possible(m, s)
  {
    match s
    case PublishStep(vol, capacity, d, o) => vol !in m.quotas && Publish(m, vol, capacity, d, o).1.Ok? && dev == d
    case ExpandStep(vol, capacity, o) => Expand(m, vol, capacity, o).1 && dev == m.quotas[vol].device
    case ReleaseStep(vol, o) => vol in m.quotas && Release(m, vol, o).1 && dev == m.quotas[vol].device
    case _ => false
  }

  /** Whatever is booked, the books come right exactly if the disk has what it gave away. */
  lemma Rebooked(d: Disk, quotaSize: nat, volumes: map<VolumeId, nat>)
    requires d.capacity < UINT64_COUNT && quotaSize == U64(Sum(volumes))
    ensures DiskLoose(WithQuotaSize(d, quotaSize), volumes)
    ensures DiskConserved(WithQuotaSize(d, quotaSize), volumes) <==> Sum(volumes) <= d.capacity
  {
  }

  /** What a call does to the volumes of one disk. */
  ghost predicate Rebooks(m: Manager, n: Manager, dev: Device) {
    && dev in m.disks
    && n.disks == m.disks[dev := WithQuotaSize(m.disks[dev], U64(Sum(SizesOn(n.quotas, dev))))]
    && forall e :: e in m.disks && e != dev ==> SizesOn(n.quotas, e) == SizesOn(m.quotas, e)
  }

  lemma RebooksIff(m: Manager, n: Manager, dev: Device)
    requires Loose(m) && Rebooks(m, n, dev)
    ensures Loose(n)
    ensures DiskConserved(n.disks[dev], SizesOn(n.quotas, dev)) <==> Sum(SizesOn(n.quotas, dev)) <= m.disks[dev].capacity
    ensures Within(m) ==> (Within(n) <==> Sum(SizesOn(n.quotas, dev)) <= m.disks[dev].capacity)
  {
    assert DiskLoose(m.disks[dev], SizesOn(m.quotas, dev));
    Rebooked(m.disks[dev], U64(Sum(SizesOn(n.quotas, dev))), SizesOn(n.quotas, dev));
    forall e | e in n.disks ensures DiskLoose(n.disks[e], SizesOn(n.quotas, e)) {
      assert e != dev ==> DiskLoose(m.disks[e], SizesOn(m.quotas, e));
    }
    if Within(m) && Sum(SizesOn(n.quotas, dev)) <= m.disks[dev].capacity {
      forall e | e in n.disks ensures Sum(SizesOn(n.quotas, e)) <= n.disks[e].capacity {
        assert e != dev ==> Sum(SizesOn(m.quotas, e)) <= m.disks[e].capacity;
      }
    }
  }

  lemma PutSum(quotas: map<VolumeId, PathQuota>, vol: VolumeId, q: PathQuota, growth: nat)
    requires if vol in quotas then quotas[vol].device == q.device && q.quota.hard == quotas[vol].quota.hard + growth
             else q.quota.hard == growth
    ensures Sum(SizesOn(quotas[vol := q], q.device)) == Sum(SizesOn(quotas, q.device)) + growth
    ensures U64(U64(Sum(SizesOn(quotas, q.device))) + growth) == U64(Sum(SizesOn(quotas[vol := q], q.device)))
  {
    SizesOnPut(quotas, vol, q, q.device);
    SumPut(SizesOn(quotas, q.device), vol, q.quota.hard);
    AddWrapped(Sum(SizesOn(quotas, q.device)), growth);
  }

  /** One volume is new or resized. */
  lemma PutRebooks(m: Manager, n: Manager, vol: VolumeId, q: PathQuota, growth: nat)
    requires q.device in m.disks && m.disks[q.device].quotaSize == U64(Sum(SizesOn(m.quotas, q.device)))
    requires n.quotas == m.quotas[vol := q]
    requires if vol in m.quotas then m.quotas[vol].device == q.device && q.quota.hard == m.quotas[vol].quota.hard + growth
             else q.quota.hard == growth
    requires n.disks == m.disks[q.device := WithQuotaSize(m.disks[q.device], U64(m.disks[q.device].quotaSize + growth))]
    ensures Rebooks(m, n, q.device)
    ensures Sum(SizesOn(n.quotas, q.device)) == Sum(SizesOn(m.quotas, q.device)) + growth
  {
    PutSum(m.quotas, vol, q, growth);
    OthersKeepSizes(m, n, vol, q);
  }

  lemma OthersKeepSizes(m: Manager, n: Manager, vol: VolumeId, q: PathQuota)
    requires n.quotas == m.quotas[vol := q] && (vol in m.quotas ==> m.quotas[vol].device == q.device)
    ensures forall e :: e in m.disks && e != q.device ==> SizesOn(n.quotas, e) == SizesOn(m.quotas, e)
  {
    forall e | e in m.disks && e != q.device ensures SizesOn(n.quotas, e) == SizesOn(m.quotas, e) {
      SizesOnPut(m.quotas, vol, q, e);
    }
  }

  lemma TakeWrapped(sum: nat, hard: nat)
    requires hard <= sum
    ensures U64(U64(sum) - hard) == U64(sum - hard)
  {
  }

  lemma GrowWrapped(quotaSize: nat, size: nat, oldSize: nat)
    requires oldSize <= size
    ensures U64(U64(quotaSize + size) - oldSize) == U64(quotaSize + (size - oldSize))
  {
  }

  lemma DropRebooks(m: Manager, n: Manager, vol: VolumeId)
    requires Loose(m) && vol in m.quotas && m.quotas[vol].device in m.disks && n.quotas == m.quotas - {vol}
    requires var q := m.quotas[vol];
             n.disks == m.disks[q.device := WithQuotaSize(m.disks[q.device], U64(m.disks[q.device].quotaSize - q.quota.hard))]
    ensures Rebooks(m, n, m.quotas[vol].device)
    ensures Sum(SizesOn(n.quotas, m.quotas[vol].device)) <= Sum(SizesOn(m.quotas, m.quotas[vol].device))
  {
    var q := m.quotas[vol];
    var on := SizesOn(m.quotas, q.device);
    assert DiskLoose(m.disks[q.device], on);
    SizesOnDrop(m.quotas, vol, q.device);
    SumTakeOut(on, vol);
    TakeWrapped(Sum(on), q.quota.hard);
    forall e | e in m.disks && e != q.device ensures SizesOn(n.quotas, e) == SizesOn(m.quotas, e) {
      SizesOnDrop(m.quotas, vol, e);
    }
  }

  lemma PublishRebooks(m: Manager, s: Step)
    requires Loose(m) && Possible(m, s) && s.PublishStep? && BooksOn(m, s, s.dev)
    ensures Rebooks(m, Apply(m, s), s.dev)
    ensures Within(m) ==> (Sum(SizesOn(Apply(m, s).quotas, s.dev)) <= m.disks[s.dev].capacity <==> !Overbooks(m, s))
  {
    var n := Apply(m, s);
    assert DiskLoose(m.disks[s.dev], SizesOn(m.quotas, s.dev));
    PutRebooks(m, n, s.vol, n.quotas[s.vol], U64(s.capacity));
  }

  lemma ExpandRebooks(m: Manager, s: Step, dev: Device)
    requires Loose(m) && Possible(m, s) && s.ExpandStep? && BooksOn(m, s, dev)
    ensures Rebooks(m, Apply(m, s), dev)
    ensures Within(m) ==> (Sum(SizesOn(Apply(m, s).quotas, dev)) <= m.disks[dev].capacity <==> !Overbooks(m, s))
  {
    var n := Apply(m, s);
    var oldSize := m.quotas[s.vol].quota.hard;
    assert DiskLoose(m.disks[dev], SizesOn(m.quotas, dev));
    GrowWrapped(m.disks[dev].quotaSize, U64(s.capacity), oldSize);
    PutRebooks(m, n, s.vol, n.quotas[s.vol], U64(s.capacity) - oldSize);
  }

  /** How much a call gives away on the disk it books on. */
  lemma CallRebooks(m: Manager, s: Step, dev: Device)
    requires Loose(m) && Possible(m, s) && BooksOn(m, s, dev)
    ensures Rebooks(m, Apply(m, s), dev)
    ensures Within(m) ==> (Sum(SizesOn(Apply(m, s).quotas, dev)) <= m.disks[dev].capacity <==> !Overbooks(m, s))
  {
    match s
    case PublishStep(vol, capacity, d, o) => PublishRebooks(m, s);
    case ExpandStep(vol, capacity, o) => ExpandRebooks(m, s, dev);
    case ReleaseStep(vol, o) => DropRebooks(m, Apply(m, s), vol);
  }

  /** The one condition for publish, expand and release, whether or not a start came before:
      the books of the disk are right after the call exactly if it did not overbook. */
  lemma BooksRightIff(m: Manager, s: Step, dev: Device)
    requires Loose(m) && Within(m) && Possible(m, s) && BooksOn(m, s, dev)
    ensures var n := Apply(m, s);
            && dev in n.disks
            && (DiskConserved(n.disks[dev], SizesOn(n.quotas, dev)) <==> !Overbooks(m, s))
            && Loose(n) && (Within(n) <==> !Overbooks(m, s))
  {
    CallRebooks(m, s, dev);
    RebooksIff(m, Apply(m, s), dev);
  }

  /** Sizes and books are as they were. */
  ghost predicate SameBooking(m: Manager, n: Manager) {
    && n.disks.Keys == m.disks.Keys
    && (forall dev :: dev in m.disks ==>
          n.disks[dev] == m.disks[dev].(used := n.disks[dev].used, disabled := n.disks[dev].disabled))
    && (forall dev :: dev in m.disks ==> SizesOn(n.quotas, dev) == SizesOn(m.quotas, dev))
  }

  lemma RefreshBooksNothing(m: Manager, vol: VolumeId, o: Outcome)
    ensures SameBooking(m, Refresh(m, vol, o).0)
  {
    var n := Refresh(m, vol, o).0;
    forall dev | dev in m.disks ensures SizesOn(n.quotas, dev) == SizesOn(m.quotas, dev) {
    }
  }

  /** Only a disk on which nothing was booked since the last start can be overbooked. */
  lemma OnlyUnbookedIsOverbooked(m: Manager, s: Step, dev: Device)
    requires Loose(m) && Within(m) && Possible(m, s) && BooksOn(m, s, dev) && Overbooks(m, s)
    ensures dev in m.disks && m.disks[dev].allocatable == m.disks[dev].capacity
    ensures !DiskConserved(m.disks[dev], SizesOn(m.quotas, dev))
  {
    CallRebooks(m, s, dev);
    assert DiskLoose(m.disks[dev], SizesOn(m.quotas, dev));
    assert Sum(SizesOn(m.quotas, dev)) <= m.disks[dev].capacity;
  }

  /** A call that books nowhere leaves sizes and books alone. */
  lemma NothingBooked(m: Manager, s: Step)
    requires Possible(m, s) && forall dev :: !BooksOn(m, s, dev)
    ensures !Overbooks(m, s) && SameBooking(m, Apply(m, s))
  {
    match s
    case PublishStep(vol, capacity, d, o) => assert !BooksOn(m, s, d);
    case ExpandStep(vol, capacity, o) =>
      if vol in m.quotas {
        assert !BooksOn(m, s, m.quotas[vol].device);
      }
    case ReleaseStep(vol, o) =>
      if vol in m.quotas {
        assert !BooksOn(m, s, m.quotas[vol].device);
      }
    case RefreshStep(vol, o) => RefreshBooksNothing(m, vol, o);
    case _ =>
  }

  lemma SameBookingKeeps(m: Manager, n: Manager)
    requires Loose(m) && SameBooking(m, n)
    ensures Loose(n) && (Within(m) ==> Within(n))
  {
    forall dev | dev in n.disks ensures DiskLoose(n.disks[dev], SizesOn(n.quotas, dev)) {
      assert DiskLoose(m.disks[dev], SizesOn(m.quotas, dev));
    }
    if Within(m) {
      forall dev | dev in n.disks ensures Sum(SizesOn(n.quotas, dev)) <= n.disks[dev].capacity {
        assert Sum(SizesOn(m.quotas, dev)) <= m.disks[dev].capacity;
      }
    }
  }

  lemma StepWithinIff(m: Manager, s: Step)
    requires Loose(m) && Possible(m, s)
    ensures Loose(Apply(m, s))
    ensures Within(m) ==> (Within(Apply(m, s)) <==> !Overbooks(m, s))
  {
    if dev :| BooksOn(m, s, dev) {
      CallRebooks(m, s, dev);
      RebooksIff(m, Apply(m, s), dev);
    } else {
      NothingBooked(m, s);
      SameBookingKeeps(m, Apply(m, s));
    }
  }

  /** A start gives no more away than was given away before. */
  lemma StartStaysWithin(m: Manager, o: Path -> Outcome)
    requires Enforced(m) && Loose(m)
    ensures Loose(Restored(m, o))
    ensures Within(m) ==> Within(Restored(m, o))
  {
    var n := Restored(m, o);
    forall dev | dev in n.disks
      ensures DiskLoose(n.disks[dev], SizesOn(n.quotas, dev))
      ensures Sum(SizesOn(n.quotas, dev)) <= Sum(SizesOn(m.quotas, dev))
    {
      assert DiskLoose(m.disks[dev], SizesOn(m.quotas, dev));
      RestoredNoMore(m, o, dev);
    }
    if Within(m) {
      forall dev | dev in n.disks ensures Sum(SizesOn(n.quotas, dev)) <= n.disks[dev].capacity {
        assert Sum(SizesOn(m.quotas, dev)) <= m.disks[dev].capacity;
      }
    }
  }

  lemma RestoredNoMore(m: Manager, o: Path -> Outcome, dev: Device)
    requires Enforced(m)
    ensures Sum(SizesOn(Restored(m, o).quotas, dev)) <= Sum(SizesOn(m.quotas, dev))
  {
    var now, before := SizesOn(Restored(m, o).quotas, dev), SizesOn(m.quotas, dev);
    forall v | v in now ensures v in before && now[v] <= before[v] {
      assert Managed(m, v);
    }
    SumMonotone(now, before);
  }

  // ---------- over histories ----------

  ghost predicate EventOverbooks(p: Process, e: Event)
    requires PossibleEvent(p, e)
  {
    e.Call? && p.up && Overbooks(p.m, e.s)
  }

  ghost predicate NeverOverbooks(p: Process, events: seq<Event>)
    requires PossibleHistory(p, events)
    decreases |events|
  {
    events == [] || (!EventOverbooks(p, events[0]) && NeverOverbooks(After(p, events[0]), events[1..]))
  }

  ghost predicate AlwaysWithin(p: Process, events: seq<Event>)
    requires PossibleHistory(p, events)
    decreases |events|
  {
    Within(p.m) && (events == [] || AlwaysWithin(After(p, events[0]), events[1..]))
  }

  lemma EventWithinIff(p: Process, e: Event)
    requires Sound(p) && Loose(p.m) && PossibleEvent(p, e) && Careful(e)
    ensures Sound(After(p, e)) && Loose(After(p, e).m)
    ensures Within(p.m) ==> (Within(After(p, e).m) <==> !EventOverbooks(p, e))
  {
    EventKeepsSound(p, e);
    match e
    case Call(s) =>
      if p.up {
        StepWithinIff(p.m, s);
      }
    case Start(_, o, _) =>
      SoundStart(p, e);
      StartStaysWithin(p.m, o);
  }

  /** Main result on the books: over every history of calls and starts, no disk ever gives away
      more than it has exactly if no call overbooks. */
  lemma {:induction false} HistoryWithinIff(p: Process, events: seq<Event>)
    requires Sound(p) && Loose(p.m) && Within(p.m) && PossibleHistory(p, events)
    requires forall e :: e in events ==> Careful(e)
    ensures AlwaysWithin(p, events) <==> NeverOverbooks(p, events)
    decreases |events|
  {
    if events != [] {
      assert events[0] in events;
      EventWithinIff(p, events[0]);
      if !EventOverbooks(p, events[0]) {
        HistoryWithinIff(After(p, events[0]), events[1..]);
      }
    }
  }

  lemma {:induction false} HistoryStaysWithin(p: Process, events: seq<Event>)
    requires Sound(p) && Loose(p.m) && Within(p.m) && PossibleHistory(p, events) && NeverOverbooks(p, events)
    requires forall e :: e in events ==> Careful(e)
    ensures Sound(History(p, events)) && Loose(History(p, events).m) && Within(History(p, events).m)
    decreases |events|
  {
    if events != [] {
      assert events[0] in events;
      EventWithinIff(p, events[0]);
      HistoryStaysWithin(After(p, events[0]), events[1..]);
    }
  }

  /** And then a disk's books are right exactly if something was booked on it since the last
      start, or nothing is on it. */
  lemma DiskConservedIff(d: Disk, volumes: map<VolumeId, nat>)
    requires DiskLoose(d, volumes) && Sum(volumes) <= d.capacity
    ensures DiskConserved(d, volumes) <==> d.allocatable != d.capacity || Sum(volumes) == 0
  {
  }

  /** So, from empty disks and through any number of starts, what the kernel enforces on a disk
      never adds up to more than the disk, as long as no call overbooks; and every disk's books
      are right that something was booked on since the last start. */
  lemma NeverOversubscribedAcrossStarts(p: Process, events: seq<Event>, dev: Device)
    requires Sound(p) && Conserved(p.m) && PossibleHistory(p, events) && NeverOverbooks(p, events)
    requires forall e :: e in events ==> Careful(e)
    ensures var n := History(p, events).m;
            && Enforced(n)
            && (dev in n.disks ==>
                  && Sum(LimitsOn(n, dev)) <= n.disks[dev].capacity
                  && (DiskConserved(n.disks[dev], SizesOn(n.quotas, dev))
                      <==> n.disks[dev].allocatable != n.disks[dev].capacity || Sum(SizesOn(n.quotas, dev)) == 0))
  {
    ConservedIsWithin(p.m);
    HistoryStaysWithin(p, events);
    var n := History(p, events).m;
    if dev in n.disks {
      assert DiskLoose(n.disks[dev], SizesOn(n.quotas, dev));
      assert Sum(SizesOn(n.quotas, dev)) <= n.disks[dev].capacity;
      DiskConservedIff(n.disks[dev], SizesOn(n.quotas, dev));
      LimitsNoMore(n, dev);
    }
  }

  lemma ConservedIsWithin(m: Manager)
    requires Conserved(m)
    ensures Loose(m) && Within(m)
  {
    forall dev | dev in m.disks ensures DiskLoose(m.disks[dev], SizesOn(m.quotas, dev)) {
      assert DiskConserved(m.disks[dev], SizesOn(m.quotas, dev));
    }
    forall dev | dev in m.disks ensures Sum(SizesOn(m.quotas, dev)) <= m.disks[dev].capacity {
      assert DiskConserved(m.disks[dev], SizesOn(m.quotas, dev));
    }
  }
}

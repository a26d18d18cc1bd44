/** Conservation over every run: what a disk's books say is what its volumes were given. */
module Conservation {
  import opened MapSums
  import opened ProjectIds
  import opened QuotaPaths
  import opened QuotaProvider
  import opened QuotaManager

  /** Stated in unbounded integers, so it also says that no stored value ever wrapped. */
  ghost predicate DiskConserved(d: Disk, volumes: map<VolumeId, nat>) {
    && d.quotaSize == Sum(volumes)
    && d.quotaSize <= d.capacity < UINT64_COUNT
    && d.allocatable == d.capacity - d.quotaSize
  }

  ghost predicate Conserved(m: Manager) {
    forall dev {:trigger SizesOn(m.quotas, dev)} ::
      dev in m.disks ==> DiskConserved(m.disks[dev], SizesOn(m.quotas, dev))
  }

  /** The books after one volume's quota is created or replaced on a disk. */
  lemma PutConserves(m: Manager, vol: VolumeId, q: PathQuota, n: Manager)
    requires Conserved(m) && q.device in m.disks
    requires vol in m.quotas ==> m.quotas[vol].device == q.device
    requires var oldSize := if vol in m.quotas then m.quotas[vol].quota.hard else 0;
             && oldSize <= q.quota.hard
             && q.quota.hard - oldSize <= m.disks[q.device].allocatable
             && n.disks == m.disks[q.device := WithQuotaSize(m.disks[q.device],
                                     m.disks[q.device].quotaSize + q.quota.hard - oldSize)]
    requires n.quotas == m.quotas[vol := q]
    ensures Conserved(n)
  {
    var on := SizesOn(m.quotas, q.device);
    SumPut(on, vol, q.quota.hard);
    forall dev | dev in n.disks ensures DiskConserved(n.disks[dev], SizesOn(n.quotas, dev)) {
      SizesOnPut(m.quotas, vol, q, dev);
      assert DiskConserved(m.disks[dev], SizesOn(m.quotas, dev));
    }
  }

  lemma PublishConserves(m: Manager, vol: VolumeId, capacity: int, dev: Device, o: Outcome)
    requires Conserved(m) && Possible(m, PublishStep(vol, capacity, dev, o))
    ensures Conserved(Publish(m, vol, capacity, dev, o).0)
  {
    var (n, r) := Publish(m, vol, capacity, dev, o);
    if vol !in m.quotas && r.Ok? {
      assert DiskConserved(m.disks[dev], SizesOn(m.quotas, dev));
      PutConserves(m, vol, n.quotas[vol], n);
    }
  }

  /** `QuotaSize + quotaSize` may exceed 64 bits on the way; subtracting the old size brings
      the stored value back. */
  lemma ExpandConserves(m: Manager, vol: VolumeId, capacity: int, o: Outcome)
    requires Conserved(m)
    ensures Conserved(Expand(m, vol, capacity, o).0)
  {
    var (n, ok) := Expand(m, vol, capacity, o);
    if ok {
      var dev := m.quotas[vol].device;
      var d := m.disks[dev];
      var size, oldSize := U64(capacity), m.quotas[vol].quota.hard;
      assert DiskConserved(d, SizesOn(m.quotas, dev));
      assert U64(U64(d.quotaSize + size) - oldSize) == d.quotaSize + size - oldSize;
      PutConserves(m, vol, n.quotas[vol], n);
    }
  }

  lemma ReleaseConserves(m: Manager, vol: VolumeId, o: Outcome)
    requires Conserved(m)
    ensures Conserved(Release(m, vol, o).0)
  {
    var (n, ok) := Release(m, vol, o);
    if ok && vol in m.quotas {
      var q := m.quotas[vol];
      var on := SizesOn(m.quotas, q.device);
      SumTakeOut(on, vol);
      forall dev | dev in n.disks ensures DiskConserved(n.disks[dev], SizesOn(n.quotas, dev)) {
        SizesOnDrop(m.quotas, vol, dev);
        assert DiskConserved(m.disks[dev], SizesOn(m.quotas, dev));
      }
    }
  }

  lemma StepConserves(m: Manager, s: Step)
    requires Conserved(m) && Possible(m, s)
    ensures Conserved(Apply(m, s))
  {
    match s
    case PublishStep(vol, capacity, dev, o) => PublishConserves(m, vol, capacity, dev, o);
    case ExpandStep(vol, capacity, o) => ExpandConserves(m, vol, capacity, o);
    case ReleaseStep(vol, o) => ReleaseConserves(m, vol, o);
    case RefreshStep(vol, o) =>
      var n := Refresh(m, vol, o).0;
      forall dev | dev in n.disks ensures DiskConserved(n.disks[dev], SizesOn(n.quotas, dev)) {
        assert SizesOn(n.quotas, dev) == SizesOn(m.quotas, dev);
      }
    case RefreshDiskStep(dev, used) =>
    case DisableStep(dev, disabled) =>
  }

  /** Main result: with failures anywhere, in every run, the books stay exact. */
  lemma {:induction false} RunConserves(m: Manager, steps: seq<Step>)
    requires Conserved(m) && PossibleRun(m, steps)
    ensures Conserved(Run(m, steps))
    decreases |steps|
  {
    if steps != [] {
      StepConserves(m, steps[0]);
      RunConserves(Apply(m, steps[0]), steps[1..]);
    }
  }

  lemma EmptyConserved(m: Manager)
    requires m.quotas == map[]
    requires forall dev :: dev in m.disks ==> m.disks[dev].capacity < UINT64_COUNT
    requires forall dev :: dev in m.disks ==>
      m.disks[dev].quotaSize == 0 && m.disks[dev].allocatable == m.disks[dev].capacity
    ensures Conserved(m)
  {
    forall dev | dev in m.disks ensures DiskConserved(m.disks[dev], SizesOn(m.quotas, dev)) {
      assert SizesOn(m.quotas, dev) == map[];
    }
  }

  /** A known volume is published again without any effect, whatever size is asked for. */
  lemma RepublishIsIdle(m: Manager, vol: VolumeId, capacity: int, dev: Device, o: Outcome,
                        capacity': int, dev': Device, o': Outcome)
    requires Possible(m, PublishStep(vol, capacity, dev, o))
    requires Publish(m, vol, capacity, dev, o).1.Ok?
    ensures var n := Publish(m, vol, capacity, dev, o).0;
            Publish(n, vol, capacity', dev', o') == (n, Publish(m, vol, capacity, dev, o).1)
  {
  }

  /** Every run, with failures at any system call, also keeps the pool of project ids exact. */
  lemma StepKeepsPool(m: Manager, s: Step)
    requires PoolInvariant(m.provider) && Possible(m, s)
    ensures PoolInvariant(Apply(m, s).provider)
  {
    match s
    case PublishStep(vol, capacity, dev, o) =>
      var size := U64(capacity);
      if vol !in m.quotas && Fits(m.disks, size) {
        var path := QuotaPath(m.disks[dev].mountPoint, vol);
        var k := m.provider.kernel;
        var withDir := if path in k.dirs then k else k.(dirs := k.dirs[path := 0]);
        SetKeepsPool(m.provider.(kernel := withDir), path, dev, size, o);
      }
    case ExpandStep(vol, capacity, o) =>
      if vol in m.quotas {
        SetKeepsPool(m.provider, m.quotas[vol].path, m.quotas[vol].device, U64(capacity), o);
      }
    case ReleaseStep(vol, o) =>
      if vol in m.quotas {
        DeleteKeepsPool(m.provider, m.quotas[vol].path, o);
      }
    case RefreshStep(vol, o) =>
      if vol in m.quotas {
        GetKeepsPool(m.provider, m.quotas[vol].path, m.quotas[vol].device, o);
      }
    case _ =>
  }

  lemma {:induction false} RunKeepsPool(m: Manager, steps: seq<Step>)
    requires PoolInvariant(m.provider) && PossibleRun(m, steps)
    ensures PoolInvariant(Run(m, steps).provider)
    ensures var p := Run(m, steps).provider; Full(p.start, p.num, p.ids) <==> |p.cache| == p.num
    decreases |steps|
  {
    if steps != [] {
      StepKeepsPool(m, steps[0]);
      RunKeepsPool(Apply(m, steps[0]), steps[1..]);
    } else {
      FullExactlyWhenNumCached(m.provider);
    }
  }
}

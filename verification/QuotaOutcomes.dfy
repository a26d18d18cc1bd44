/** When the quota manager's calls succeed, and all that a success changes. */
module QuotaOutcomes {
  import MapSums
  import opened ProjectIds
  import opened QuotaPaths
  import opened QuotaProvider
  import opened QuotaManager
  import opened Conservation
  import opened Enforcement

  /** Nothing but one disk's books differs. */
  ghost predicate OnlyDisk(a: map<Device, Disk>, b: map<Device, Disk>, dev: Device) {
    && b.Keys == a.Keys
    && (forall d :: d in a && d != dev ==> b[d] == a[d])
    && (dev in a ==> b[dev] == a[dev].(quotaSize := b[dev].quotaSize, allocatable := b[dev].allocatable))
  }

  /** A new volume is created exactly if some disk has room, a project id is free and no
      system call fails. It then lies on a worst-fit disk, under an id nobody else has, with
      its whole blocks as the limit. */
  lemma PublishOutcome(m: Manager, vol: VolumeId, capacity: int, dev: Device, o: Outcome)
    requires Enforced(m) && Possible(m, PublishStep(vol, capacity, dev, o)) && vol !in m.quotas
    ensures var (n, r) := Publish(m, vol, capacity, dev, o);
            var size := U64(capacity);
            && (r.Ok? <==> Fits(m.disks, size) && !Full(m.provider.start, m.provider.num, m.provider.ids)
                           && o.mkdir && o.setId && o.setLimit)
            && (r.Ok? ==>
                  && WorstFit(m.disks, size, dev)
                  && r.value == QuotaPath(m.disks[dev].mountPoint, vol)
                  && n.quotas == m.quotas[vol := PathQuota(r.value, dev, Quota(size, size, 0))]
                  && OnlyDisk(m.disks, n.disks, dev)
                  && r.value in n.provider.cache
                  && FreshlyLimited(m, n, r.value, dev, n.provider.cache[r.value], Blocks(size)))
  {
    var size := U64(capacity);
    if Fits(m.disks, size) {
      NewPathIsFree(m, vol, dev);
    }
  }

  /** A project id that was free now belongs to one directory, with a limit; every other
      directory, id and limit is as before. */
  ghost predicate FreshlyLimited(m: Manager, n: Manager, path: Path, dev: Device, id: ProjectId, limit: nat) {
    && id !in m.provider.ids
    && n.provider.ids == m.provider.ids + {id}
    && n.provider.cache == m.provider.cache[path := id]
    && path in n.provider.kernel.dirs && n.provider.kernel.dirs[path] == id
    && n.provider.kernel.dirs.Keys == m.provider.kernel.dirs.Keys + {path}
    && (forall p :: p in m.provider.kernel.dirs && p != path ==> n.provider.kernel.dirs[p] == m.provider.kernel.dirs[p])
    && n.provider.kernel.limits == m.provider.kernel.limits[(dev, id) := limit]
  }

  /** Growing succeeds exactly if the volume is known, does not shrink and the growth fits.
      It changes the books only: the provider finds the path in its cache and returns, so the
      kernel goes on enforcing the size at creation. */
  lemma ExpandOutcome(m: Manager, vol: VolumeId, capacity: int, o: Outcome)
    requires Enforced(m)
    ensures var (n, ok) := Expand(m, vol, capacity, o);
            var size := U64(capacity);
            && n.provider == m.provider
            && (ok <==> vol in m.quotas && m.quotas[vol].quota.hard <= size
                        && m.quotas[vol].device in m.disks
                        && size - m.quotas[vol].quota.hard <= m.disks[m.quotas[vol].device].allocatable)
            && (!ok ==> n == m)
            && (ok ==>
                  && OnlyDisk(m.disks, n.disks, m.quotas[vol].device)
                  && n.quotas == m.quotas[vol := m.quotas[vol].(quota := Quota(size, size, m.quotas[vol].quota.used))])
  {
    if vol in m.quotas {
      assert Managed(m, vol);
    }
  }

  /** A grown volume keeps the limit it had: fewer bytes than are booked for it. Whole
      blocks are missing exactly if its first growth went past its last block. */
  lemma GrownIsNotEnforced(m: Manager, vol: VolumeId, capacity: int, o: Outcome)
    requires Enforced(m) && vol in m.quotas && Expand(m, vol, capacity, o).1
    ensures Managed(m, vol)
    ensures var n := Expand(m, vol, capacity, o).0;
            && Managed(n, vol) && Limit(n, vol) == Limit(m, vol)
            && (m.quotas[vol].quota.hard < U64(capacity) ==> Limit(n, vol) * BASIC_BLOCK_SIZE < n.quotas[vol].quota.hard)
            && (vol !in m.grown ==>
                  (Limit(n, vol) < Blocks(n.quotas[vol].quota.hard) <==> Blocks(m.quotas[vol].quota.hard) < Blocks(U64(capacity))))
  {
    assert Managed(m, vol);
    ExpandEnforces(m, vol, capacity, o);
    ExpandOutcome(m, vol, capacity, o);
    assert Managed(Expand(m, vol, capacity, o).0, vol);
  }

  /** A release that succeeds takes away one volume, its directory and its id, and gives its
      space back to its disk. */
  lemma ReleaseOutcome(m: Manager, vol: VolumeId, o: Outcome)
    requires Enforced(m) && Conserved(m) && vol in m.quotas
    ensures var (n, ok) := Release(m, vol, o);
            var q := m.quotas[vol];
            && (ok <==> o.remove)
            && (ok ==>
                  && n.quotas == m.quotas - {vol}
                  && q.device in m.disks && OnlyDisk(m.disks, n.disks, q.device)
                  && n.disks[q.device].allocatable == m.disks[q.device].allocatable + q.quota.hard
                  && q.path in m.provider.cache
                  && n.provider.ids == m.provider.ids - {m.provider.cache[q.path]}
                  && n.provider.cache == m.provider.cache - {q.path}
                  && n.provider.kernel == m.provider.kernel.(dirs := m.provider.kernel.dirs - {q.path}))
            && (!ok ==> n.quotas == m.quotas && n.disks == m.disks)
  {
    assert Managed(m, vol);
    var q := m.quotas[vol];
    ReleaseConserves(m, vol, o);
    var n := Release(m, vol, o).0;
    if o.remove {
      SizesOnDrop(m.quotas, vol, q.device);
      MapSums.SumTakeOut(SizesOn(m.quotas, q.device), vol);
      assert DiskConserved(m.disks[q.device], SizesOn(m.quotas, q.device));
      assert DiskConserved(n.disks[q.device], SizesOn(n.quotas, q.device));
    }
  }

  /** A volume that is created and then released leaves everything as it was, except for the
      limit that the kernel still holds under the freed id. */
  lemma ReleaseUndoesPublish(m: Manager, vol: VolumeId, capacity: int, dev: Device, o: Outcome, o': Outcome)
    requires Enforced(m) && Conserved(m) && vol !in m.quotas
    requires Possible(m, PublishStep(vol, capacity, dev, o)) && Publish(m, vol, capacity, dev, o).1.Ok?
    requires BASIC_BLOCK_SIZE <= U64(capacity) && o'.remove
    ensures var n := Release(Publish(m, vol, capacity, dev, o).0, vol, o').0;
            n == m.(provider := m.provider.(kernel := m.provider.kernel.(limits := n.provider.kernel.limits)))
  {
    var (p, r) := Publish(m, vol, capacity, dev, o);
    PublishOutcome(m, vol, capacity, dev, o);
    assert Enforced(p) && Conserved(p) by {
      PublishEnforces(m, vol, capacity, dev, o);
      PublishConserves(m, vol, capacity, dev, o);
    }
    ReleaseOutcome(p, vol, o');
    NewPathIsFree(m, vol, dev);
    var n := Release(p, vol, o').0;
    ProviderUndone(m, p, n, r.value, dev, p.provider.cache[r.value], Blocks(U64(capacity)));
    VolumesUndone(m, p, n, vol, p.quotas[vol]);
    ReleaseConserves(p, vol, o');
    SameBooks(m, p, n, vol, dev);
  }

  lemma ProviderUndone(m: Manager, p: Manager, n: Manager, path: Path, dev: Device, id: ProjectId, limit: nat)
    requires FreshlyLimited(m, p, path, dev, id, limit)
    requires path !in m.provider.cache && path !in m.provider.kernel.dirs
    requires n.provider.ids == p.provider.ids - {id} && n.provider.cache == p.provider.cache - {path}
    requires n.provider.kernel.dirs == p.provider.kernel.dirs - {path}
    ensures n.provider.ids == m.provider.ids && n.provider.cache == m.provider.cache
    ensures n.provider.kernel.dirs == m.provider.kernel.dirs
  {
  }

  lemma VolumesUndone(m: Manager, p: Manager, n: Manager, vol: VolumeId, q: PathQuota)
    requires vol !in m.quotas && p.quotas == m.quotas[vol := q] && n.quotas == p.quotas - {vol}
    ensures n.quotas == m.quotas
  {
  }

  lemma SameBooks(m: Manager, p: Manager, n: Manager, vol: VolumeId, dev: Device)
    requires Conserved(m) && Conserved(n) && n.quotas == m.quotas
    requires OnlyDisk(m.disks, p.disks, dev) && OnlyDisk(p.disks, n.disks, dev)
    ensures n.disks == m.disks
  {
    forall d | d in m.disks ensures n.disks[d] == m.disks[d] {
      assert DiskConserved(m.disks[d], SizesOn(m.quotas, d));
      assert DiskConserved(n.disks[d], SizesOn(n.quotas, d));
    }
  }

  // ---------- disabled disks ----------

  /** The volumes on one disk. */
  ghost function VolumesOn(m: Manager, dev: Device): set<VolumeId> {
    set v | v in m.quotas && m.quotas[v].device == dev
  }

  lemma StepKeepsOff(m: Manager, s: Step, dev: Device)
    requires Possible(m, s) && dev in m.disks && m.disks[dev].disabled && s != DisableStep(dev, false)
    ensures var n := Apply(m, s);
            dev in n.disks && n.disks[dev].disabled && VolumesOn(n, dev) <= VolumesOn(m, dev)
  {
  }

  lemma {:induction false} RunKeepsOff(m: Manager, steps: seq<Step>, dev: Device)
    requires PossibleRun(m, steps) && dev in m.disks && m.disks[dev].disabled
    requires DisableStep(dev, false) !in steps
    ensures dev in Run(m, steps).disks && Run(m, steps).disks[dev].disabled
    ensures VolumesOn(Run(m, steps), dev) <= VolumesOn(m, dev)
    decreases |steps|
  {
    if steps != [] {
      assert steps[0] in steps;
      StepKeepsOff(m, steps[0], dev);
      RunKeepsOff(Apply(m, steps[0]), steps[1..], dev);
    }
  }

  /** Once a disk was disabled no volume is created on it, over any run until it is enabled
      again; and from then on it takes volumes. */
  lemma DisabledDiskTakesNothing(m: Manager, dev: Device, steps: seq<Step>, size: nat)
    requires dev in m.disks && PossibleRun(Apply(m, DisableStep(dev, true)), steps)
    requires DisableStep(dev, false) !in steps
    ensures var n := Run(Apply(m, DisableStep(dev, true)), steps);
            && (forall v :: v in n.quotas && n.quotas[v].device == dev ==> v in m.quotas && m.quotas[v].device == dev)
            && (dev in n.disks && size <= n.disks[dev].allocatable ==> Fits(Apply(n, DisableStep(dev, false)).disks, size))
  {
    var start := Apply(m, DisableStep(dev, true));
    RunKeepsOff(start, steps, dev);
    var n := Run(start, steps);
    assert VolumesOn(start, dev) == VolumesOn(m, dev);
    forall v | v in n.quotas && n.quotas[v].device == dev ensures v in m.quotas && m.quotas[v].device == dev {
      assert v in VolumesOn(n, dev);
    }
    if dev in n.disks && size <= n.disks[dev].allocatable {
      assert Eligible(Apply(n, DisableStep(dev, false)).disks[dev], size);
    }
  }
}

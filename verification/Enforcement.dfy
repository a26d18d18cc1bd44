/** What the kernel enforces, against what the manager has recorded. */
module Enforcement {
  import opened MapSums
  import opened ProjectIds
  import opened QuotaPaths
  import opened QuotaProvider
  import opened QuotaManager
  import opened Conservation

  ghost predicate MountsApart(disks: map<Device, Disk>) {
    && (forall d :: d in disks ==> CleanMount(disks[d].mountPoint))
    && (forall d, e :: d in disks && e in disks && disks[d].mountPoint == disks[e].mountPoint ==> d == e)
  }

  ghost predicate SameMounts(a: map<Device, Disk>, b: map<Device, Disk>) {
    a.Keys == b.Keys && forall d :: d in a ==> a[d].mountPoint == b[d].mountPoint
  }

  lemma MountsStayApart(a: map<Device, Disk>, b: map<Device, Disk>)
    requires MountsApart(a) && SameMounts(a, b)
    ensures MountsApart(b)
  {
  }

  /** The limit of a managed volume, in blocks. */
  function Limit(m: Manager, vol: VolumeId): nat
    requires vol in m.quotas && m.quotas[vol].path in m.provider.cache
    requires (m.quotas[vol].device, m.provider.cache[m.quotas[vol].path]) in m.provider.kernel.limits
  {
    m.provider.kernel.limits[(m.quotas[vol].device, m.provider.cache[m.quotas[vol].path])]
  }

  /** A managed volume: its directory is where its id and disk say, carries the cached
      project id, and the kernel holds a limit (zero would mean "none") that does not exceed
      the recorded quota, and equals it in whole blocks unless the volume has grown. */
  ghost predicate Managed(m: Manager, vol: VolumeId)
    requires vol in m.quotas
  {
    var q := m.quotas[vol];
    && q.device in m.disks
    && q.path == QuotaPath(m.disks[q.device].mountPoint, vol)
    && q.path in m.provider.cache
    && q.path in m.provider.kernel.dirs
    && m.provider.kernel.dirs[q.path] == m.provider.cache[q.path]
    && (q.device, m.provider.cache[q.path]) in m.provider.kernel.limits
    && 0 < Limit(m, vol)
    && Limit(m, vol) * BASIC_BLOCK_SIZE <= q.quota.hard < UINT64_COUNT
    && q.quota.soft == q.quota.hard
    && (vol !in m.grown ==> Limit(m, vol) == Blocks(q.quota.hard))
    && (vol in m.grown ==> Limit(m, vol) * BASIC_BLOCK_SIZE < q.quota.hard)
  }

  ghost predicate Owned(m: Manager, path: Path) {
    exists vol :: vol in m.quotas && m.quotas[vol].path == path
  }

  ghost predicate Enforced(m: Manager) {
    && PoolInvariant(m.provider)
    && MountsApart(m.disks)
    && (forall vol {:trigger Managed(m, vol)} :: vol in m.quotas ==> Managed(m, vol))
    && (forall path {:trigger Owned(m, path)} :: path in m.provider.cache ==> Owned(m, path))
    && (forall path :: path in m.provider.kernel.dirs ==> path in m.provider.cache)
    && m.grown <= m.quotas.Keys
  }

  lemma PathsApart(m: Manager, a: VolumeId, b: VolumeId)
    requires Enforced(m) && a in m.quotas && b in m.quotas
    requires m.quotas[a].path == m.quotas[b].path
    ensures a == b
  {
    assert Managed(m, a) && Managed(m, b);
    QuotaPathInjective(m.disks[m.quotas[a].device].mountPoint, a, m.disks[m.quotas[b].device].mountPoint, b);
  }

  /** Two managed volumes never share a project id. */
  lemma ProjectIdsApart(m: Manager, a: VolumeId, b: VolumeId)
    requires Enforced(m) && a in m.quotas && b in m.quotas && a != b
    ensures Managed(m, a) && Managed(m, b)
    ensures m.provider.cache[m.quotas[a].path] != m.provider.cache[m.quotas[b].path]
  {
    assert Managed(m, a) && Managed(m, b);
    if m.quotas[a].path == m.quotas[b].path {
      PathsApart(m, a, b);
    }
  }

  /** A volume that is not yet known has no leftover directory or cached id anywhere. */
  lemma NewPathIsFree(m: Manager, vol: VolumeId, dev: Device)
    requires Enforced(m) && vol !in m.quotas && dev in m.disks
    ensures QuotaPath(m.disks[dev].mountPoint, vol) !in m.provider.cache
    ensures QuotaPath(m.disks[dev].mountPoint, vol) !in m.provider.kernel.dirs
  {
    var path := QuotaPath(m.disks[dev].mountPoint, vol);
    if path in m.provider.cache {
      assert Owned(m, path);
      var other :| other in m.quotas && m.quotas[other].path == path;
      assert Managed(m, other);
      QuotaPathInjective(m.disks[dev].mountPoint, vol, m.disks[m.quotas[other].device].mountPoint, other);
    }
  }

  /** A publish that fails leaves no trace - no directory, no id, no booking - exactly if it
      made no directory or can remove it again. */
  lemma FailedPublishIsUndoneIff(m: Manager, vol: VolumeId, capacity: int, dev: Device, o: Outcome)
    requires Enforced(m) && Possible(m, PublishStep(vol, capacity, dev, o))
    requires Publish(m, vol, capacity, dev, o).1.Err?
    ensures Publish(m, vol, capacity, dev, o).0 == m <==> o.remove || !o.mkdir || !Fits(m.disks, U64(capacity))
  {
    if Fits(m.disks, U64(capacity)) {
      NewPathIsFree(m, vol, dev);
      var path := QuotaPath(m.disks[dev].mountPoint, vol);
      PutAndRemove(m.provider.kernel.dirs, path, o.freeId);
    }
  }

  lemma PutAndRemove(dirs: map<Path, ProjectId>, path: Path, id: ProjectId)
    requires path !in dirs
    ensures var made: map<Path, ProjectId> := dirs[path := 0];
            && made - {path} == dirs
            && made[path := id] == dirs[path := id]
            && made[path := id] - {path} == dirs
  {
  }

  /** Whatever keeps a volume's record, its cache entry, its directory and its limit keeps
      it managed. */
  lemma StillManaged(m: Manager, n: Manager, vol: VolumeId)
    requires vol in m.quotas && Managed(m, vol) && SameMounts(m.disks, n.disks)
    requires vol in n.quotas && n.quotas[vol] == m.quotas[vol]
    requires var path := m.quotas[vol].path;
             && path in n.provider.cache && n.provider.cache[path] == m.provider.cache[path]
             && path in n.provider.kernel.dirs && n.provider.kernel.dirs[path] == m.provider.kernel.dirs[path]
             && var key := (m.quotas[vol].device, m.provider.cache[path]);
                key in n.provider.kernel.limits && n.provider.kernel.limits[key] == m.provider.kernel.limits[key]
    requires vol in m.grown <==> vol in n.grown
    ensures Managed(n, vol)
  {
  }

  lemma StillOwned(m: Manager, n: Manager, path: Path)
    requires Owned(m, path)
    requires forall v :: v in m.quotas && m.quotas[v].path == path ==> v in n.quotas && n.quotas[v].path == path
    ensures Owned(n, path)
  {
  }

  /** One volume is added, under a fresh path and a fresh id. */
  ghost predicate Added(m: Manager, n: Manager, vol: VolumeId, dev: Device, id: ProjectId, size: nat) {
    && vol !in m.quotas && dev in m.disks
    && BASIC_BLOCK_SIZE <= size < UINT64_COUNT
    && id !in m.provider.ids && SameMounts(m.disks, n.disks) && n.grown == m.grown
    && var path := QuotaPath(m.disks[dev].mountPoint, vol);
       && path !in m.provider.cache && path !in m.provider.kernel.dirs
       && n.provider.cache == m.provider.cache[path := id]
       && n.provider.kernel.dirs == m.provider.kernel.dirs[path := id]
       && n.provider.kernel.limits == m.provider.kernel.limits[(dev, id) := Blocks(size)]
       && n.quotas == m.quotas[vol := PathQuota(path, dev, Quota(size, size, 0))]
  }

  lemma AddedManaged(m: Manager, n: Manager, vol: VolumeId, dev: Device, id: ProjectId, size: nat, v: VolumeId)
    requires Enforced(m) && Added(m, n, vol, dev, id, size) && v in n.quotas
    ensures Managed(n, v)
  {
    if v != vol {
      assert Managed(m, v);
      StillManaged(m, n, v);
    }
  }

  lemma AddedOwners(m: Manager, n: Manager, vol: VolumeId, dev: Device, id: ProjectId, size: nat)
    requires Enforced(m) && Added(m, n, vol, dev, id, size)
    ensures forall p :: p in n.provider.cache ==> Owned(n, p)
  {
    forall p | p in n.provider.cache ensures Owned(n, p) {
      if p in m.provider.cache {
        assert Owned(m, p);
        StillOwned(m, n, p);
      } else {
        assert n.quotas[vol].path == p;
      }
    }
  }

  lemma AddEnforces(m: Manager, n: Manager, vol: VolumeId, dev: Device, id: ProjectId, size: nat)
    requires Enforced(m) && Added(m, n, vol, dev, id, size) && PoolInvariant(n.provider)
    ensures Enforced(n)
  {
    MountsStayApart(m.disks, n.disks);
    AddedOwners(m, n, vol, dev, id, size);
    forall v | v in n.quotas ensures Managed(n, v) {
      AddedManaged(m, n, vol, dev, id, size, v);
    }
  }

  lemma PublishEnforces(m: Manager, vol: VolumeId, capacity: int, dev: Device, o: Outcome)
    requires Enforced(m) && Possible(m, PublishStep(vol, capacity, dev, o))
    requires o.remove || Publish(m, vol, capacity, dev, o).1.Ok?
    requires BASIC_BLOCK_SIZE <= U64(capacity)
    ensures Enforced(Publish(m, vol, capacity, dev, o).0)
  {
    var (n, r) := Publish(m, vol, capacity, dev, o);
    if r.Err? {
      FailedPublishIsUndoneIff(m, vol, capacity, dev, o);
    } else if vol !in m.quotas {
      NewPathIsFree(m, vol, dev);
      assert PoolInvariant(n.provider) by {
        StepKeepsPool(m, PublishStep(vol, capacity, dev, o));
      }
      assert o.freeId !in m.provider.ids;
      PutAndRemove(m.provider.kernel.dirs, r.value, o.freeId);
      AddEnforces(m, n, vol, dev, o.freeId, U64(capacity));
    }
  }

  /** A new volume of less than one block is given a limit of zero blocks, which to the kernel
      means no limit at all. */
  lemma NewVolumeEnforcedIff(m: Manager, vol: VolumeId, capacity: int, dev: Device, o: Outcome)
    requires Enforced(m) && Possible(m, PublishStep(vol, capacity, dev, o))
    requires vol !in m.quotas && Publish(m, vol, capacity, dev, o).1.Ok?
    ensures Enforced(Publish(m, vol, capacity, dev, o).0) <==> BASIC_BLOCK_SIZE <= U64(capacity)
  {
    var n := Publish(m, vol, capacity, dev, o).0;
    if BASIC_BLOCK_SIZE <= U64(capacity) {
      PublishEnforces(m, vol, capacity, dev, o);
    } else {
      NewPathIsFree(m, vol, dev);
      assert Blocks(U64(capacity)) == 0;
      assert !Managed(n, vol);
    }
  }

  /** One volume is dropped, with its cache entry, its id and its directory. */
  ghost predicate Dropped(m: Manager, n: Manager, vol: VolumeId) {
    && vol in m.quotas && SameMounts(m.disks, n.disks) && n.grown == m.grown - {vol}
    && n.quotas == m.quotas - {vol}
    && var path := m.quotas[vol].path;
       && n.provider.cache == m.provider.cache - {path}
       && n.provider.kernel.dirs == m.provider.kernel.dirs - {path}
       && n.provider.kernel.limits == m.provider.kernel.limits
  }

  lemma DroppedManaged(m: Manager, n: Manager, vol: VolumeId, v: VolumeId)
    requires Enforced(m) && Dropped(m, n, vol) && v in n.quotas
    ensures Managed(n, v)
  {
    assert Managed(m, v);
    if m.quotas[v].path == m.quotas[vol].path {
      PathsApart(m, v, vol);
    }
    StillManaged(m, n, v);
  }

  lemma DroppedOwners(m: Manager, n: Manager, vol: VolumeId)
    requires Enforced(m) && Dropped(m, n, vol)
    ensures forall p :: p in n.provider.cache ==> Owned(n, p)
  {
    forall p | p in n.provider.cache ensures Owned(n, p) {
      assert Owned(m, p);
      StillOwned(m, n, p);
    }
  }

  lemma DropEnforces(m: Manager, n: Manager, vol: VolumeId)
    requires Enforced(m) && Dropped(m, n, vol) && PoolInvariant(n.provider)
    ensures Enforced(n)
  {
    MountsStayApart(m.disks, n.disks);
    DroppedOwners(m, n, vol);
    forall v | v in n.quotas ensures Managed(n, v) {
      DroppedManaged(m, n, vol, v);
    }
  }

  lemma ReleaseEnforces(m: Manager, vol: VolumeId, o: Outcome)
    requires Enforced(m) && o.remove
    ensures Enforced(Release(m, vol, o).0)
    ensures Release(m, vol, o).1
  {
    if vol in m.quotas {
      assert Managed(m, vol);
      assert PoolInvariant(Release(m, vol, o).0.provider) by {
        StepKeepsPool(m, ReleaseStep(vol, o));
      }
      DropEnforces(m, Release(m, vol, o).0, vol);
    }
  }

  /** Removal is exactly what the invariant rests on: when it fails, the manager has already
      given the id back while it still lists the volume. */
  lemma ReleaseEnforcesIff(m: Manager, vol: VolumeId, o: Outcome)
    requires Enforced(m) && vol in m.quotas
    ensures Enforced(Release(m, vol, o).0) <==> o.remove
  {
    assert Managed(m, vol);
    if o.remove {
      ReleaseEnforces(m, vol, o);
    } else {
      var n := Release(m, vol, o).0;
      assert vol in n.quotas && !Managed(n, vol);
    }
  }

  /** Then the pool may hand out the id that the directory still carries. If it does, the next
      volume and the one that could not be removed carry one project id, and on one disk the
      new limit is the limit of both. */
  lemma FailedRemovalSharesAnId(m: Manager, vol: VolumeId, o: Outcome,
                                other: VolumeId, capacity: int, dev: Device, o': Outcome)
    requires Enforced(m) && vol in m.quotas && !o.remove && other !in m.quotas
    requires WorstFit(m.disks, U64(capacity), dev) && o'.mkdir && o'.setId && o'.setLimit
    ensures Managed(m, vol)
    ensures var id := m.provider.cache[m.quotas[vol].path];
            var freed := Release(m, vol, o).0;
            var choice := o'.(freeId := id);
            && Possible(freed, PublishStep(other, capacity, dev, choice))
            && var (n, r) := Publish(freed, other, capacity, dev, choice);
               && r.Ok? && vol in n.quotas && other in n.quotas && n.quotas[vol].path != r.value
               && n.provider.kernel.dirs[n.quotas[vol].path] == n.provider.kernel.dirs[r.value] == id
               && (dev == m.quotas[vol].device ==>
                     n.provider.kernel.limits[(n.quotas[vol].device, id)] == Blocks(U64(capacity)))
  {
    assert Managed(m, vol);
    NewPathIsFree(m, other, dev);
    var freed := Release(m, vol, o).0;
    var id := m.provider.cache[m.quotas[vol].path];
    assert InRange(m.provider.start, m.provider.num, id) && id !in freed.provider.ids;
    assert Fits(freed.disks, U64(capacity));
  }

  /** What a call that changes one volume's figures does, its provider state untouched. */
  ghost predicate Resized(m: Manager, n: Manager, vol: VolumeId, q: Quota) {
    && vol in m.quotas && SameMounts(m.disks, n.disks)
    && m.quotas[vol].quota.hard <= q.hard == q.soft < UINT64_COUNT
    && n.provider == m.provider
    && n.quotas == m.quotas[vol := m.quotas[vol].(quota := q)]
    && n.grown == if m.quotas[vol].quota.hard < q.hard then m.grown + {vol} else m.grown
  }

  lemma ResizedManaged(m: Manager, n: Manager, vol: VolumeId, q: Quota, v: VolumeId)
    requires Resized(m, n, vol, q) && v in m.quotas && Managed(m, v)
    ensures Managed(n, v)
  {
    if v != vol {
      StillManaged(m, n, v);
    }
  }

  lemma ResizedOwners(m: Manager, n: Manager, vol: VolumeId, q: Quota)
    requires Resized(m, n, vol, q)
    requires forall p :: p in m.provider.cache ==> Owned(m, p)
    ensures forall p :: p in n.provider.cache ==> Owned(n, p)
  {
    forall p | p in n.provider.cache ensures Owned(n, p) {
      assert Owned(m, p);
      var v :| v in m.quotas && m.quotas[v].path == p;
      assert n.quotas[v] == if v == vol then m.quotas[vol].(quota := q) else m.quotas[v];
    }
  }

  lemma ResizeEnforces(m: Manager, n: Manager, vol: VolumeId, q: Quota)
    requires Enforced(m) && Resized(m, n, vol, q)
    ensures Enforced(n)
  {
    MountsStayApart(m.disks, n.disks);
    ResizedOwners(m, n, vol, q);
    forall v | v in n.quotas ensures Managed(n, v) {
      ResizedManaged(m, n, vol, q, v);
    }
  }

  lemma ExpandEnforces(m: Manager, vol: VolumeId, capacity: int, o: Outcome)
    requires Enforced(m)
    ensures Enforced(Expand(m, vol, capacity, o).0)
  {
    var (n, ok) := Expand(m, vol, capacity, o);
    if vol in m.quotas {
      assert Managed(m, vol);
      if ok {
        ResizeEnforces(m, n, vol, n.quotas[vol].quota);
      }
    }
  }

  lemma RefreshEnforces(m: Manager, vol: VolumeId, o: Outcome)
    requires Enforced(m)
    ensures Enforced(Refresh(m, vol, o).0)
  {
    var (n, ok) := Refresh(m, vol, o);
    if vol in m.quotas {
      assert Managed(m, vol);
      if ok {
        ResizeEnforces(m, n, vol, n.quotas[vol].quota);
      }
    }
  }

  /** The steps of the claim: new volumes of at least one block, directories that can be
      removed. Every other system call may still fail. */
  predicate Removable(s: Step) {
    match s
    case PublishStep(_, capacity, _, o) => o.remove && BASIC_BLOCK_SIZE <= U64(capacity)
    case ReleaseStep(_, o) => o.remove
    case _ => true
  }

  lemma StepEnforces(m: Manager, s: Step)
    requires Enforced(m) && Possible(m, s) && Removable(s)
    ensures Enforced(Apply(m, s))
  {
    match s
    case PublishStep(vol, capacity, dev, o) => PublishEnforces(m, vol, capacity, dev, o);
    case ExpandStep(vol, capacity, o) => ExpandEnforces(m, vol, capacity, o);
    case ReleaseStep(vol, o) => ReleaseEnforces(m, vol, o);
    case RefreshStep(vol, o) => RefreshEnforces(m, vol, o);
    case RefreshDiskStep(dev, used) => BooksOnly(m, Apply(m, s));
    case DisableStep(dev, disabled) => BooksOnly(m, Apply(m, s));
  }

  lemma BooksOnly(m: Manager, n: Manager)
    requires Enforced(m) && SameMounts(m.disks, n.disks) && n == m.(disks := n.disks)
    ensures Enforced(n)
  {
    forall v | v in n.quotas ensures Managed(n, v) {
      StillManaged(m, n, v);
    }
    forall path | path in n.provider.cache ensures Owned(n, path) {
      assert Owned(m, path);
      StillOwned(m, n, path);
    }
  }

  lemma {:induction false} RunEnforces(m: Manager, steps: seq<Step>)
    requires Enforced(m) && PossibleRun(m, steps)
    requires forall s :: s in steps ==> Removable(s)
    ensures Enforced(Run(m, steps))
    decreases |steps|
  {
    if steps != [] {
      StepEnforces(m, steps[0]);
      RunEnforces(Apply(m, steps[0]), steps[1..]);
    }
  }

  /** The bytes the kernel lets each volume of one disk use. */
  ghost function LimitsOn(m: Manager, dev: Device): map<VolumeId, nat>
    requires Enforced(m)
  {
    map v | v in m.quotas && m.quotas[v].device == dev :: LimitBytes(m, v)
  }

  ghost function LimitBytes(m: Manager, vol: VolumeId): nat
    requires Enforced(m) && vol in m.quotas
  {
    assert Managed(m, vol);
    Limit(m, vol) * BASIC_BLOCK_SIZE
  }

  lemma LimitsNoMore(m: Manager, dev: Device)
    requires Enforced(m)
    ensures Sum(LimitsOn(m, dev)) <= Sum(SizesOn(m.quotas, dev))
  {
    var limits, sizes := LimitsOn(m, dev), SizesOn(m.quotas, dev);
    assert limits.Keys == sizes.Keys;
    forall v | v in limits ensures limits[v] <= sizes[v] {
      assert Managed(m, v);
    }
    SumMonotone(limits, sizes);
  }

  lemma LimitsFit(m: Manager, dev: Device)
    requires Enforced(m) && Conserved(m) && dev in m.disks
    ensures Sum(LimitsOn(m, dev)) <= m.disks[dev].capacity
  {
    LimitsNoMore(m, dev);
    assert DiskConserved(m.disks[dev], SizesOn(m.quotas, dev));
  }

  /** Main result: starting with empty disks, what the kernel enforces on a disk never adds
      up to more than the disk, and no two volumes share a limit. */
  lemma NeverOversubscribed(m: Manager, steps: seq<Step>, dev: Device)
    requires Enforced(m) && Conserved(m) && PossibleRun(m, steps)
    requires forall s :: s in steps ==> Removable(s)
    ensures var n := Run(m, steps);
            && Enforced(n)
            && (dev in n.disks ==> Sum(LimitsOn(n, dev)) <= n.disks[dev].capacity)
            && (forall a, b :: a in n.quotas && b in n.quotas && a != b ==>
                 Managed(n, a) && Managed(n, b)
                 && n.provider.cache[n.quotas[a].path] != n.provider.cache[n.quotas[b].path])
  {
    RunEnforces(m, steps);
    RunConserves(m, steps);
    var n := Run(m, steps);
    if dev in n.disks {
      LimitsFit(n, dev);
    }
    forall a, b | a in n.quotas && b in n.quotas && a != b
      ensures Managed(n, a) && Managed(n, b)
              && n.provider.cache[n.quotas[a].path] != n.provider.cache[n.quotas[b].path]
    {
      ProjectIdsApart(n, a, b);
    }
  }

  /** Empty disks satisfy everything the run starts from. */
  lemma EmptyEnforced(m: Manager)
    requires MountsApart(m.disks) && m.quotas == map[] && m.grown == {}
    requires m.provider.ids == {} && m.provider.cache == map[] && m.provider.kernel.dirs == map[]
    ensures Enforced(m)
  {
    assert m.provider.cache.Values == {};
  }
}

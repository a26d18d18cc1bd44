/** The quota manager itself: the object whose methods the step functions describe. */
module XfsQuotaManager {
  import opened Results
  import opened Sorting
  import opened ProjectIds
  import opened QuotaPaths
  import opened QuotaProvider
  import opened QuotaManager
  import opened Restart

  datatype SortItem = SortItem(device: Device, mountPoint: Path, availableSize: nat)

  /** Reverse order by allocatable size. */
  predicate MoreAvailable(a: SortItem, b: SortItem) {
    a.availableSize >= b.availableSize
  }

  function Reported(d: Disk, dev: Device, usage: map<Device, Option<nat>>): Disk {
    if dev in usage && usage[dev].Some? then d.(used := usage[dev].value) else d
  }

  ghost function ReportAll(disks: map<Device, Disk>, done: set<Device>, usage: map<Device, Option<nat>>): map<Device, Disk> {
    map d | d in disks :: if d in done then Reported(disks[d], d, usage) else disks[d]
  }

  ghost function OnlyDone(disks: map<Device, Disk>, done: set<Device>): map<Device, Disk> {
    map d | d in disks && d in done :: disks[d]
  }

  lemma AllDone(disks: map<Device, Disk>, done: set<Device>)
    requires done <= disks.Keys && disks.Keys - done == {}
    ensures done == disks.Keys && OnlyDone(disks, done) == disks
  {
    forall d | d in disks ensures d in done {
      assert d !in disks.Keys - done;
    }
  }

  /** What a listing of the disks does, field by field. */
  lemma ReportAllFields(disks: map<Device, Disk>, done: set<Device>, usage: map<Device, Option<nat>>)
    ensures var now := ReportAll(disks, done, usage);
            && now.Keys == disks.Keys
            && forall d :: d in disks ==>
                 && now[d].mountPoint == disks[d].mountPoint && now[d].capacity == disks[d].capacity
                 && now[d].quotaSize == disks[d].quotaSize && now[d].allocatable == disks[d].allocatable
                 && now[d].disabled == disks[d].disabled
                 && now[d].used == if d in done && d in usage && usage[d].Some? then usage[d].value else disks[d].used
  {
  }

  ghost predicate AllReported(done: set<Device>, usage: map<Device, Option<nat>>) {
    forall d :: d in done && d in usage ==> usage[d].Some?
  }

  lemma ReportOneMore(disks: map<Device, Disk>, done: set<Device>, usage: map<Device, Option<nat>>, d: Device)
    requires d in disks && d !in done
    ensures var now := ReportAll(disks, done, usage);
            && now.Keys == disks.Keys && now[d] == disks[d]
            && ReportAll(disks, done + {d}, usage) == now[d := Reported(now[d], d, usage)]
            && ReportAll(OnlyDone(disks, done + {d}), done + {d}, usage)
               == ReportAll(OnlyDone(disks, done), done, usage)[d := Reported(now[d], d, usage)]
  {
  }

  /** A listing of the disks is a run of refresh steps, so whatever every run keeps, it keeps. */
  lemma {:induction false} ReportAllIsRun(m: Manager, done: set<Device>, usage: map<Device, Option<nat>>) returns (steps: seq<Step>)
    requires done <= m.disks.Keys
    ensures forall s :: s in steps ==> s.RefreshDiskStep?
    ensures PossibleRun(m, steps) && Run(m, steps) == m.(disks := ReportAll(m.disks, done, usage))
    decreases done
  {
    steps := [];
    if done == {} {
      assert ReportAll(m.disks, {}, usage) == m.disks;
    } else {
      var d :| d in done;
      var rest := done - {d};
      steps := ReportAllIsRun(m, rest, usage);
      ReportOneMore(m.disks, rest, usage, d);
      assert rest + {d} == done;
      var now := ReportAll(m.disks, rest, usage);
      if d in usage && usage[d].Some? {
        RunOneMore(m, steps, RefreshDiskStep(d, usage[d].value));
        steps := steps + [RefreshDiskStep(d, usage[d].value)];
      } else {
        assert now[d := now[d]] == now;
      }
    }
  }

  /** What a sort item says about its disk. */
  predicate ItemOf(i: SortItem, disks: map<Device, Disk>, size: nat) {
    && i.device in disks && Eligible(disks[i.device], size)
    && i.availableSize == disks[i.device].allocatable && i.mountPoint == disks[i.device].mountPoint
  }

  /** The first of the sorted items is a worst-fit disk. */
  lemma FirstIsWorstFit(available: seq<SortItem>, disks: map<Device, Disk>, size: nat)
    requires |available| > 0 && forall i :: i in available ==> ItemOf(i, disks, size)
    requires forall dev :: dev in disks && Eligible(disks[dev], size) ==>
      SortItem(dev, disks[dev].mountPoint, disks[dev].allocatable) in available
    ensures |Sort(available, MoreAvailable)| > 0
    ensures var first := Sort(available, MoreAvailable)[0];
            ItemOf(first, disks, size) && WorstFit(disks, size, first.device)
  {
    var sorted := Sort(available, MoreAvailable);
    SortSorts(available, MoreAvailable);
    assert forall i :: i in multiset(available) <==> i in multiset(sorted);
    var first := sorted[0];
    assert first in multiset(sorted);
    assert first in available;
    forall dev | dev in disks && Eligible(disks[dev], size)
      ensures disks[dev].allocatable <= disks[first.device].allocatable
    {
      var item := SortItem(dev, disks[dev].mountPoint, disks[dev].allocatable);
      assert item in multiset(sorted);
      var j :| 0 <= j < |sorted| && sorted[j] == item;
      assert j == 0 || MoreAvailable(sorted[0], sorted[j]);
    }
  }

  function WithUsed(q: PathQuota, used: nat): PathQuota {
    PathQuota(q.path, q.device, Quota(q.quota.hard, q.quota.soft, used))
  }

  /** Reading the limit fails, it is not there, or the path has no id yet that it could be
      read under. */
  predicate CannotRead(q: PathQuota, cache: map<Path, ProjectId>, limits: map<(Device, ProjectId), nat>, o: Outcome) {
    !o.getLimit || q.path !in cache || (q.device, cache[q.path]) !in limits
  }

  /** The stale ones of the records gone through have the usage that was read. */
  ghost predicate Refreshed(before: map<VolumeId, PathQuota>, now: map<VolumeId, PathQuota>, gone: set<VolumeId>,
                            o: VolumeId -> Outcome, stale: VolumeId -> bool)
  {
    && now.Keys == before.Keys
    && forall v {:trigger RefreshedAt(before, now, gone, o, stale, v)} :: v in before ==>
         RefreshedAt(before, now, gone, o, stale, v)
  }

  ghost predicate RefreshedAt(before: map<VolumeId, PathQuota>, now: map<VolumeId, PathQuota>, gone: set<VolumeId>,
                              o: VolumeId -> Outcome, stale: VolumeId -> bool, v: VolumeId)
    requires v in before && now.Keys == before.Keys
  {
    now[v] == if v in gone && stale(v) then WithUsed(before[v], o(v).used) else before[v]
  }

  lemma RefreshedStep(before: map<VolumeId, PathQuota>, was: map<VolumeId, PathQuota>, now: map<VolumeId, PathQuota>,
                      gone: set<VolumeId>, v: VolumeId, o: VolumeId -> Outcome, stale: VolumeId -> bool)
    requires Refreshed(before, was, gone, o, stale) && v in before && v !in gone
    requires now == if stale(v) then was[v := WithUsed(was[v], o(v).used)] else was
    ensures Refreshed(before, now, gone + {v}, o, stale)
  {
    forall w | w in before ensures RefreshedAt(before, now, gone + {v}, o, stale, w) {
      assert RefreshedAt(before, was, gone, o, stale, w);
    }
  }

  lemma NotYetRefreshed(before: map<VolumeId, PathQuota>, now: map<VolumeId, PathQuota>, gone: set<VolumeId>,
                        o: VolumeId -> Outcome, stale: VolumeId -> bool, v: VolumeId)
    requires Refreshed(before, now, gone, o, stale) && v in before && v !in gone
    ensures now[v] == before[v]
  {
    assert RefreshedAt(before, now, gone, o, stale, v);
  }

  /** The copies made so far. */
  ghost predicate Copies(infos: map<VolumeId, PathQuota>, quotas: map<VolumeId, PathQuota>) {
    infos.Keys <= quotas.Keys && forall v {:trigger quotas[v]} :: v in infos ==> infos[v] == quotas[v]
  }

  lemma CopyStep(infos: map<VolumeId, PathQuota>, was: map<VolumeId, PathQuota>, now: map<VolumeId, PathQuota>, v: VolumeId)
    requires Copies(infos, was) && v in was && v !in infos && v in now && now == was[v := now[v]]
    ensures Copies(infos[v := now[v]], now) && infos[v := now[v]].Keys == infos.Keys + {v}
  {
  }

  lemma AllCopied(infos: map<VolumeId, PathQuota>, quotas: map<VolumeId, PathQuota>)
    requires Copies(infos, quotas) && infos.Keys == quotas.Keys
    ensures infos == quotas
  {
  }

  ghost predicate SomeUnread(before: map<VolumeId, PathQuota>, cache: map<Path, ProjectId>,
                             limits: map<(Device, ProjectId), nat>, o: VolumeId -> Outcome, stale: VolumeId -> bool)
  {
    exists v :: v in before && stale(v) && CannotRead(before[v], cache, limits, o(v))
  }

  ghost predicate AllRead(before: map<VolumeId, PathQuota>, gone: set<VolumeId>, cache: map<Path, ProjectId>,
                          limits: map<(Device, ProjectId), nat>, o: VolumeId -> Outcome, stale: VolumeId -> bool)
  {
    forall v :: v in gone && v in before && stale(v) && before[v].path in cache ==> !CannotRead(before[v], cache, limits, o(v))
  }

  lemma AllReadStep(before: map<VolumeId, PathQuota>, gone: set<VolumeId>, cache: map<Path, ProjectId>,
                    limits: map<(Device, ProjectId), nat>, o: VolumeId -> Outcome, stale: VolumeId -> bool, v: VolumeId)
    requires AllRead(before, gone, cache, limits, o, stale) && v in before
    requires stale(v) && before[v].path in cache ==> !CannotRead(before[v], cache, limits, o(v))
    ensures AllRead(before, gone + {v}, cache, limits, o, stale)
  {
  }

  /** Whether a record can be read does not change while the cache only grows. */
  lemma SameReading(q: PathQuota, before: map<Path, ProjectId>, now: map<Path, ProjectId>,
                    limits: map<(Device, ProjectId), nat>, o: Outcome)
    requires KeepsCache(before, now)
    ensures q.path in before ==> (CannotRead(q, before, limits, o) <==> CannotRead(q, now, limits, o))
    ensures q.path !in before ==> CannotRead(q, before, limits, o)
  {
  }

  lemma RefreshedFields(before: map<VolumeId, PathQuota>, now: map<VolumeId, PathQuota>,
                        o: VolumeId -> Outcome, stale: VolumeId -> bool)
    requires Refreshed(before, now, before.Keys, o, stale)
    ensures forall v :: v in before ==>
      && now[v].path == before[v].path && now[v].device == before[v].device
      && now[v].quota.hard == before[v].quota.hard && now[v].quota.soft == before[v].quota.soft
      && now[v].quota.used == if stale(v) then o(v).used else before[v].quota.used
  {
    forall v | v in before ensures now[v] == if stale(v) then WithUsed(before[v], o(v).used) else before[v] {
      assert RefreshedAt(before, now, before.Keys, o, stale, v);
    }
  }

  ghost predicate KeepsCache(before: map<Path, ProjectId>, now: map<Path, ProjectId>) {
    forall path :: path in before ==> path in now && now[path] == before[path]
  }

  /** Where a listing of the volumes stands: `infos` are the copies made, `rest` what is still to
      come, `done` the records that were refreshed. */
  ghost predicate Listing(before: Manager, now: Manager, infos: map<VolumeId, PathQuota>, rest: set<VolumeId>,
                          done: seq<VolumeId>, o: VolumeId -> Outcome, stale: VolumeId -> bool)
  {
    && rest == now.quotas.Keys - infos.Keys
    && Refreshed(before.quotas, now.quotas, infos.Keys, o, stale) && Copies(infos, now.quotas)
    && (forall v :: v in done <==> v in infos && stale(v))
    && KeepsCache(before.provider.cache, now.provider.cache) && now.provider.kernel == before.provider.kernel
    && AllRead(before.quotas, infos.Keys, before.provider.cache, before.provider.kernel.limits, o, stale)
    && RefreshAll(before, done, o) == (now, true)
  }

  /** What looking at one record does. */
  ghost predicate Visited(was: Manager, now: Manager, v: VolumeId, isStale: bool, o: Outcome, ok: bool)
    requires v in was.quotas
  {
    var unread := CannotRead(was.quotas[v], was.provider.cache, was.provider.kernel.limits, o);
    && (now, ok) == (if isStale then Refresh(was, v, o) else (was, true))
    && (ok ==> now.quotas == if isStale then was.quotas[v := WithUsed(was.quotas[v], o.used)] else was.quotas)
    && (!ok ==> unread && now.quotas == was.quotas)
    && (ok && isStale && was.quotas[v].path in was.provider.cache ==> !unread)
    && KeepsCache(was.provider.cache, now.provider.cache) && now.provider.kernel == was.provider.kernel
  }

  lemma ListingStarts(m: Manager, o: VolumeId -> Outcome, stale: VolumeId -> bool)
    ensures Listing(m, m, map[], m.quotas.Keys, [], o, stale)
  {
    forall v | v in m.quotas ensures RefreshedAt(m.quotas, m.quotas, {}, o, stale, v) {
    }
  }

  lemma ListingStep(before: Manager, was: Manager, now: Manager, infos: map<VolumeId, PathQuota>, rest: set<VolumeId>,
                    done: seq<VolumeId>, o: VolumeId -> Outcome, stale: VolumeId -> bool, v: VolumeId)
    requires Listing(before, was, infos, rest, done, o, stale) && v in rest
    requires Visited(was, now, v, stale(v), o(v), true)
    ensures v in now.quotas
    ensures Listing(before, now, infos[v := now.quotas[v]], rest - {v}, if stale(v) then done + [v] else done, o, stale)
  {
    NotYetRefreshed(before.quotas, was.quotas, infos.Keys, o, stale, v);
    SameReading(was.quotas[v], before.provider.cache, was.provider.cache, was.provider.kernel.limits, o(v));
    RefreshedStep(before.quotas, was.quotas, now.quotas, infos.Keys, v, o, stale);
    AllReadStep(before.quotas, infos.Keys, before.provider.cache, before.provider.kernel.limits, o, stale, v);
    CopyStep(infos, was.quotas, now.quotas, v);
    RefreshAllSnoc(before, was, now, done, o, stale, v);
  }

  lemma RefreshAllSnoc(before: Manager, was: Manager, now: Manager, done: seq<VolumeId>,
                       o: VolumeId -> Outcome, stale: VolumeId -> bool, v: VolumeId)
    requires RefreshAll(before, done, o) == (was, true)
    requires (now, true) == (if stale(v) then Refresh(was, v, o(v)) else (was, true))
    ensures RefreshAll(before, if stale(v) then done + [v] else done, o) == (now, true)
  {
    assert (done + [v])[..|done|] == done;
  }

  /** A listing that was gone through. */
  lemma ListingEnds(before: Manager, now: Manager, infos: map<VolumeId, PathQuota>, done: seq<VolumeId>,
                    o: VolumeId -> Outcome, stale: VolumeId -> bool)
    requires Listing(before, now, infos, {}, done, o, stale)
    ensures RefreshAll(before, done, o) == (now, true)
    ensures infos == now.quotas && now.quotas.Keys == before.quotas.Keys
    ensures forall v :: v in before.quotas ==>
      && infos[v].path == before.quotas[v].path && infos[v].device == before.quotas[v].device
      && infos[v].quota.hard == before.quotas[v].quota.hard && infos[v].quota.soft == before.quotas[v].quota.soft
      && infos[v].quota.used == if stale(v) then o(v).used else before.quotas[v].quota.used
    ensures forall v :: v in done <==> v in before.quotas && stale(v)
    ensures AllRead(before.quotas, before.quotas.Keys, before.provider.cache, before.provider.kernel.limits, o, stale)
  {
    forall v | v in now.quotas ensures v in infos {
      assert v !in now.quotas.Keys - infos.Keys;
    }
    assert infos.Keys == now.quotas.Keys;
    AllCopied(infos, now.quotas);
    RefreshedFields(before.quotas, now.quotas, o, stale);
  }

  /** A listing that stops at a record that cannot be read. */
  lemma ListingFails(before: Manager, was: Manager, now: Manager, infos: map<VolumeId, PathQuota>, rest: set<VolumeId>,
                     done: seq<VolumeId>, o: VolumeId -> Outcome, stale: VolumeId -> bool, v: VolumeId)
    requires Listing(before, was, infos, rest, done, o, stale) && v in rest
    requires Visited(was, now, v, stale(v), o(v), false)
    ensures RefreshAll(before, done + [v], o) == (now, false) && now.quotas.Keys == before.quotas.Keys
    ensures SomeUnread(before.quotas, before.provider.cache, before.provider.kernel.limits, o, stale)
  {
    NotYetRefreshed(before.quotas, was.quotas, infos.Keys, o, stale, v);
    SameReading(was.quotas[v], before.provider.cache, was.provider.cache, was.provider.kernel.limits, o(v));
    assert (done + [v])[..|done|] == done;
    assert CannotRead(before.quotas[v], before.provider.cache, before.provider.kernel.limits, o(v));
  }

  class XFSQuotaManager {
    var diskQuotaInfos: map<Device, Disk>
    var quotas: map<VolumeId, PathQuota>
    const quotaProvider: QuotaVolumeProvider
    ghost var grown: set<VolumeId>

    ghost predicate Valid()
      reads this, quotaProvider, quotaProvider.projectIdAllocator
    {
      quotaProvider.Valid()
    }

    ghost function Value(): Manager
      reads this, quotaProvider, quotaProvider.projectIdAllocator, quotaProvider.kernel
    {
      Manager(diskQuotaInfos, quotas, quotaProvider.Value(), grown)
    }

    ghost function Footprint(): set<object> {
      {this, quotaProvider, quotaProvider.projectIdAllocator, quotaProvider.kernel}
    }

    /** A new process over an existing kernel; the disks are those found at the mount points. */
    constructor (start: nat, num: nat, kernel: KernelState, disks: map<Device, Disk>)
      requires start + num <= UINT32_COUNT
      ensures Valid() && fresh(Footprint() - {kernel}) && quotaProvider.kernel == kernel
      ensures Value() == Manager(map dev | dev in disks :: LoadDisk(disks[dev]), map[],
                                 Provider(start, num, {}, map[], kernel.Value()), {})
    {
      diskQuotaInfos := map dev | dev in disks :: LoadDisk(disks[dev]);
      quotas, grown := map[], {};
      quotaProvider := new QuotaVolumeProvider(start, num, kernel);
    }

    /** Collects the eligible disks in whatever order the map yields them, sorts them by free
        space and makes the directory on the first. */
    method AllocateNewQuotaDir(volId: VolumeId, hardQuota: nat, o: Outcome) returns (r: Result<(Device, Path)>, ghost best: Device)
      requires Valid()
      modifies quotaProvider.kernel
      ensures Valid()
      ensures Fits(diskQuotaInfos, hardQuota) ==> WorstFit(diskQuotaInfos, hardQuota, best)
      ensures !Fits(diskQuotaInfos, hardQuota) ==> r.Err? && Value() == old(Value())
      ensures Fits(diskQuotaInfos, hardQuota) ==>
                var path := QuotaPath(diskQuotaInfos[best].mountPoint, volId);
                var k := old(quotaProvider.kernel.Value());
                && r == (if path in k.dirs || o.mkdir then Ok((best, path)) else Err)
                && quotaProvider.kernel.Value() == if path in k.dirs || !o.mkdir then k else k.(dirs := k.dirs[path := 0])
    {
      var available: seq<SortItem> := [];
      var rest := diskQuotaInfos.Keys;
      while rest != {}
        invariant rest <= diskQuotaInfos.Keys
        invariant forall i :: i in available ==> ItemOf(i, diskQuotaInfos, hardQuota)
        invariant forall dev :: dev in diskQuotaInfos && dev !in rest && Eligible(diskQuotaInfos[dev], hardQuota) ==>
          SortItem(dev, diskQuotaInfos[dev].mountPoint, diskQuotaInfos[dev].allocatable) in available
        decreases |rest|
      {
        var dev :| dev in rest;
        rest := rest - {dev};
        var disk := diskQuotaInfos[dev];
        if disk.disabled || disk.allocatable < hardQuota {
          continue;
        }
        available := available + [SortItem(dev, disk.mountPoint, disk.allocatable)];
      }
      if |available| == 0 {
        best := "";
        return Err, best;
      }
      FirstIsWorstFit(available, diskQuotaInfos, hardQuota);
      var first := Sort(available, MoreAvailable)[0];
      best := first.device;
      var quotaPath := QuotaPath(first.mountPoint, volId);
      var made := quotaProvider.kernel.MkDir(quotaPath, o);
      return if made then Ok((first.device, quotaPath)) else Err, best;
    }

    /** Finds the volume or creates it. `dev` and `id` are the disk and the project id that
        were picked. */
    method GetVolumeQuotaPath(volId: VolumeId, capacity: int, o: Outcome)
      returns (r: Result<Path>, ghost dev: Device, ghost id: ProjectId)
      requires Valid()
      modifies Footprint()
      ensures Valid()
      ensures Possible(old(Value()), PublishStep(volId, capacity, dev, o.(freeId := id)))
      ensures (Value(), r) == Publish(old(Value()), volId, capacity, dev, o.(freeId := id))
    {
      dev := "";
      id := PossibleId(quotaProvider.Value(), o);
      if volId in quotas {
        return Ok(quotas[volId].path), dev, id;
      }
      var quotaSize := U64(capacity);
      var a;
      a, dev := AllocateNewQuotaDir(volId, quotaSize, o);
      if a.Err? {
        return Err, dev, id;
      }
      var (deviceName, quotaPath) := a.value;
      r, id := CreateQuota(volId, deviceName, quotaPath, quotaSize, o);
    }

    method CreateQuota(volId: VolumeId, dev: Device, quotaPath: Path, quotaSize: nat, o: Outcome)
      returns (r: Result<Path>, ghost id: ProjectId)
      requires Valid() && dev in diskQuotaInfos
      modifies Footprint()
      ensures Valid()
      ensures ValidChoice(old(quotaProvider.Value()), o.(freeId := id))
      ensures (Value(), r) == Create(old(Value()), volId, dev, quotaPath, quotaSize, o.(freeId := id))
    {
      var ok;
      ok, id := quotaProvider.SetProjectQuota(quotaPath, dev, quotaSize, o);
      if !ok {
        var _ := quotaProvider.kernel.RemoveAll(quotaPath, o);
        return Err, id;
      }
      quotas := quotas[volId := PathQuota(quotaPath, dev, Quota(quotaSize, quotaSize, 0))];
      BookQuota(dev, U64(diskQuotaInfos[dev].quotaSize + quotaSize));
      return Ok(quotaPath), id;
    }

    method BookQuota(dev: Device, quotaSize: nat)
      requires dev in diskQuotaInfos
      modifies this`diskQuotaInfos
      ensures diskQuotaInfos == old(diskQuotaInfos)[dev := WithQuotaSize(old(diskQuotaInfos)[dev], quotaSize)]
    {
      var disk := diskQuotaInfos[dev].(quotaSize := quotaSize);
      disk := disk.(allocatable := U64(disk.capacity - disk.quotaSize));
      diskQuotaInfos := diskQuotaInfos[dev := disk];
    }

    method ExpandVolume(volId: VolumeId, capacity: int, o: Outcome) returns (ok: bool, ghost id: ProjectId)
      requires Valid()
      modifies Footprint()
      ensures Valid()
      ensures Possible(old(Value()), ExpandStep(volId, capacity, o.(freeId := id)))
      ensures (Value(), ok) == Expand(old(Value()), volId, capacity, o.(freeId := id))
    {
      id := PossibleId(quotaProvider.Value(), o);
      if volId !in quotas || quotas[volId].device !in diskQuotaInfos {
        return false, id;
      }
      var quotaInfo := quotas[volId];
      var diskInfo := diskQuotaInfos[quotaInfo.device];
      var oldSize, quotaSize := quotaInfo.quota.hard, U64(capacity);
      if oldSize > quotaSize || diskInfo.allocatable < quotaSize - oldSize {
        return false, id;
      }
      ok, id := quotaProvider.SetProjectQuota(quotaInfo.path, quotaInfo.device, quotaSize, o);
      if !ok {
        return false, id;
      }
      BookQuota(quotaInfo.device, U64(U64(diskInfo.quotaSize + quotaSize) - oldSize));
      quotas := quotas[volId := quotaInfo.(quota := Quota(quotaSize, quotaSize, quotaInfo.quota.used))];
      grown := if oldSize < quotaSize then grown + {volId} else grown;
      return true, id;
    }

    method ReleaseVolumePath(volId: VolumeId, o: Outcome) returns (ok: bool)
      requires Valid()
      modifies Footprint()
      ensures Valid()
      ensures (Value(), ok) == Release(old(Value()), volId, o)
    {
      if volId in quotas {
        var quotaInfo := quotas[volId];
        if quotaInfo.device !in diskQuotaInfos {
          return false;
        }
        ok := quotaProvider.DeleteProjectQuota(quotaInfo.path, o);
        if !ok {
          return false;
        }
        quotas := quotas - {volId};
        grown := grown - {volId};
        BookQuota(quotaInfo.device, U64(diskQuotaInfos[quotaInfo.device].quotaSize - quotaInfo.quota.hard));
      }
      return true;
    }

    method SetQuotaDiskDisabledState(mountPoint: Path, disabled: bool, xattrOk: bool) returns (ok: bool, ghost dev: Device)
      modifies this`diskQuotaInfos
      ensures ok ==> dev in old(diskQuotaInfos) && old(diskQuotaInfos)[dev].mountPoint == mountPoint
      ensures ok <==> xattrOk && exists d :: d in old(diskQuotaInfos) && old(diskQuotaInfos)[d].mountPoint == mountPoint
      ensures ok ==> diskQuotaInfos.Keys == old(diskQuotaInfos).Keys && diskQuotaInfos[dev].disabled == disabled
      ensures ok ==> forall d :: d in diskQuotaInfos ==>
        && (d != dev ==> diskQuotaInfos[d] == old(diskQuotaInfos)[d])
        && diskQuotaInfos[d].mountPoint == old(diskQuotaInfos)[d].mountPoint
        && diskQuotaInfos[d].capacity == old(diskQuotaInfos)[d].capacity
        && diskQuotaInfos[d].used == old(diskQuotaInfos)[d].used
        && diskQuotaInfos[d].quotaSize == old(diskQuotaInfos)[d].quotaSize
        && diskQuotaInfos[d].allocatable == old(diskQuotaInfos)[d].allocatable
      ensures !ok ==> diskQuotaInfos == old(diskQuotaInfos)
      ensures Value() == if ok then SetDisabled(old(Value()), dev, disabled) else old(Value())
    {
      dev := "";
      var rest := diskQuotaInfos.Keys;
      while rest != {}
        invariant rest <= diskQuotaInfos.Keys && diskQuotaInfos == old(diskQuotaInfos)
        invariant forall d :: d in diskQuotaInfos && d !in rest ==> diskQuotaInfos[d].mountPoint != mountPoint
        decreases |rest|
      {
        var d :| d in rest;
        rest := rest - {d};
        if diskQuotaInfos[d].mountPoint == mountPoint {
          if !xattrOk {
            return false, dev;
          }
          dev := d;
          diskQuotaInfos := diskQuotaInfos[d := diskQuotaInfos[d].(disabled := disabled)];
          return true, dev;
        }
      }
      return false, dev;
    }

    method RefreshUsage(volId: VolumeId, isStale: bool, o: Outcome) returns (ok: bool)
      requires Valid() && volId in quotas
      modifies this`quotas, quotaProvider, quotaProvider.projectIdAllocator
      ensures Valid()
      ensures Visited(old(Value()), Value(), volId, isStale, o, ok)
    {
      if isStale {
        var quotaInfo := quotas[volId];
        var quota := quotaProvider.GetProjectQuota(quotaInfo.path, quotaInfo.device, o);
        if quota.None? {
          return false;
        }
        quotas := quotas[volId := quotaInfo.(quota := quotaInfo.quota.(used := quota.value.used))];
      }
      return true;
    }

    /** Every stale record is refreshed, in whatever order the map yields them; `done` are those
        that were. On success the copy returned is the whole table. */
    method ListPathQuotaInfos(o: VolumeId -> Outcome, stale: VolumeId -> bool)
      returns (ok: bool, infos: map<VolumeId, PathQuota>, ghost done: seq<VolumeId>)
      requires Valid()
      modifies this`quotas, quotaProvider, quotaProvider.projectIdAllocator
      ensures Valid()
      ensures (Value(), ok) == RefreshAll(old(Value()), done, o)
      ensures ok ==> infos == quotas
      ensures quotas.Keys == old(quotas).Keys
      // the stale records get the usage that was read, the others keep theirs
      ensures ok ==> forall v :: v in old(quotas) ==>
        && infos[v].path == old(quotas)[v].path && infos[v].device == old(quotas)[v].device
        && infos[v].quota.hard == old(quotas)[v].quota.hard && infos[v].quota.soft == old(quotas)[v].quota.soft
        && infos[v].quota.used == if stale(v) then o(v).used else old(quotas)[v].quota.used
      ensures ok ==> forall v :: v in done <==> v in old(quotas) && stale(v)
      // it fails exactly because a stale record could not be read
      ensures !ok ==> SomeUnread(old(quotas), old(quotaProvider.quotaPathAndId), old(quotaProvider.kernel.limits), o, stale)
      ensures ok ==> AllRead(old(quotas), old(quotas).Keys, old(quotaProvider.quotaPathAndId), old(quotaProvider.kernel.limits), o, stale)
    {
      ghost var before := Value();
      done, infos := [], map[];
      ListingStarts(before, o, stale);
      var rest := quotas.Keys;
      while rest != {}
        invariant Valid() && rest <= quotas.Keys
        invariant Listing(before, Value(), infos, rest, done, o, stale)
        decreases |rest|
      {
        var v :| v in rest;
        ghost var was := Value();
        var refreshed := RefreshUsage(v, stale(v), o(v));
        if !refreshed {
          ListingFails(before, was, Value(), infos, rest, done, o, stale, v);
          return false, infos, done + [v];
        }
        ListingStep(before, was, Value(), infos, rest, done, o, stale, v);
        rest, infos, done := rest - {v}, infos[v := quotas[v]], if stale(v) then done + [v] else done;
      }
      ListingEnds(before, Value(), infos, done, o, stale);
      ok := true;
    }

    /** Likewise for the disks: `usage` has the stale ones, with what the file system reports
        for each if it answers. `done` are the disks that were gone through. */
    method ListQuotaDiskInfos(usage: map<Device, Option<nat>>)
      returns (ok: bool, infos: map<Device, Disk>, ghost done: set<Device>)
      modifies this`diskQuotaInfos
      ensures diskQuotaInfos == ReportAll(old(diskQuotaInfos), done, usage)
      ensures ok ==> infos == diskQuotaInfos && done == infos.Keys
      ensures ok <==> AllReported(done, usage) && done == old(diskQuotaInfos).Keys
      // the disks that were read get the usage that was reported, and nothing else changes
      ensures diskQuotaInfos.Keys == old(diskQuotaInfos).Keys
      ensures forall d :: d in diskQuotaInfos ==>
        && diskQuotaInfos[d].mountPoint == old(diskQuotaInfos)[d].mountPoint
        && diskQuotaInfos[d].capacity == old(diskQuotaInfos)[d].capacity
        && diskQuotaInfos[d].quotaSize == old(diskQuotaInfos)[d].quotaSize
        && diskQuotaInfos[d].allocatable == old(diskQuotaInfos)[d].allocatable
        && diskQuotaInfos[d].disabled == old(diskQuotaInfos)[d].disabled
        && (ok ==> diskQuotaInfos[d].used
                   == if d in usage && usage[d].Some? then usage[d].value else old(diskQuotaInfos)[d].used)
      ensures ok <==> forall d :: d in old(diskQuotaInfos) && d in usage ==> usage[d].Some?
    {
      ghost var before := diskQuotaInfos;
      infos, done := map[], {};
      var rest := diskQuotaInfos.Keys;
      while rest != {}
        invariant diskQuotaInfos == ReportAll(before, done, usage)
        invariant rest == before.Keys - done && done <= before.Keys
        invariant infos == ReportAll(OnlyDone(before, done), done, usage)
        invariant AllReported(done, usage)
        decreases |rest|
      {
        var d :| d in rest;
        if d in usage && usage[d].None? {
          ReportAllFields(before, done, usage);
          return false, infos, done;
        }
        ReportOneMore(before, done, usage, d);
        rest, done := rest - {d}, done + {d};
        var disk := Reported(diskQuotaInfos[d], d, usage);
        diskQuotaInfos, infos := diskQuotaInfos[d := disk], infos[d := disk];
      }
      AllDone(before, done);
      ReportAllFields(before, done, usage);
      return true, infos, done;
    }

    method RestoreDir(dev: Device, path: Path, o: Outcome) returns (ok: bool)
      requires Valid() && dev in diskQuotaInfos
      modifies this, quotaProvider, quotaProvider.projectIdAllocator
      ensures Valid()
      ensures (Value(), ok) == RestoreOne(old(Value()), Found(dev, path), o)
    {
      match ParseVolume(path) {
        case OutOfRange =>
          return false;
        case Volume(volId) =>
          var quota := quotaProvider.GetProjectQuota(path, dev, o);
          if quota.None? {
            return false;
          }
          var disk := diskQuotaInfos[dev];
          diskQuotaInfos := diskQuotaInfos[dev := disk.(quotaSize := U64(disk.quotaSize + quota.value.hard))];
          quotas := quotas[volId := PathQuota(path, dev, quota.value)];
          return true;
      }
    }

    /** The directories of one disk. `before` and `found` say what was done so far. */
    method RestoreDisk(dev: Device, o: Path -> Outcome, readable: Device -> bool, ghost before: Manager,
                       ghost found: seq<Found>, ghost devices: set<Device>)
      returns (ok: bool, ghost found': seq<Found>)
      requires Valid() && dev in devices
      requires Visiting(before, Value(), found, devices, {}, "", o, readable)
      modifies this, quotaProvider, quotaProvider.projectIdAllocator
      ensures Valid()
      ensures forall f :: f in found' ==> f.dev in before.disks
      ensures (Value(), ok) == RestoreAll(before, found', o)
      ensures ok ==> Visiting(before, Value(), found', devices - {dev}, {}, "", o, readable)
    {
      found' := found;
      var mountPoint := diskQuotaInfos[dev].mountPoint;
      var paths := if readable(dev) then set p | p in quotaProvider.kernel.dirs && IsSubDir(p, mountPoint) else {};
      OpenDisk(before, Value(), found, devices, paths, dev, o, readable);
      while paths != {}
        invariant Valid()
        invariant Visiting(before, Value(), found', devices - {dev}, paths, dev, o, readable)
        decreases |paths|
      {
        var path :| path in paths;
        ghost var here := Value();
        RestoreOneMore(before, found', Found(dev, path), o);
        var restored := RestoreDir(dev, path, o(path));
        if !restored {
          return false, found' + [Found(dev, path)];
        }
        VisitOne(before, here, found', devices - {dev}, paths, dev, path, o, readable);
        paths := paths - {path};
        found' := found' + [Found(dev, path)];
      }
      CloseDisk(before, Value(), found', devices - {dev}, dev, o, readable);
      return true, found';
    }

    /** The second half of `restoreQuotaInfo`: disks in any order, and on each disk its
        sub-directories in any order. `found` is the order that was taken. A mount point that
        cannot be read looks empty. */
    method RestoreQuotaInfo(o: Path -> Outcome, readable: Device -> bool) returns (ok: bool, ghost found: seq<Found>)
      requires Valid()
      modifies this, quotaProvider, quotaProvider.projectIdAllocator
      ensures Valid()
      ensures forall f :: f in found ==> f.dev in old(diskQuotaInfos)
      ensures (Value(), ok) == RestoreAll(old(Value()), found, o)
      ensures ok ==> Lists(ReadableDisks(old(diskQuotaInfos), readable), old(quotaProvider.kernel.dirs), found)
    {
      ghost var before := Value();
      found := [];
      var devices := diskQuotaInfos.Keys;
      while devices != {}
        invariant Valid() && Visiting(before, Value(), found, devices, {}, "", o, readable)
        decreases |devices|
      {
        var dev :| dev in devices;
        var restored;
        restored, found := RestoreDisk(dev, o, readable, before, found, devices);
        if !restored {
          return false, found;
        }
        devices := devices - {dev};
      }
      AllVisited(before, Value(), found, o, readable);
      return true, found;
    }
  }

  /** Where the restore loops stand: `found` was processed, and what is still to come is every
      directory of the `devices` left and the `paths` left on `dev`. */
  ghost predicate Visiting(before: Manager, now: Manager, found: seq<Found>, devices: set<Device>,
                           paths: set<Path>, dev: Device, o: Path -> Outcome, readable: Device -> bool)
  {
    && devices <= before.disks.Keys && (paths == {} || dev !in devices)
    && (forall f :: f in found ==> f.dev in before.disks)
    && RestoreAll(before, found, o) == (now, true)
    && SameFiles(before, now)
    && Covers(before, found, devices, paths, dev, readable)
  }

  ghost predicate SameFiles(before: Manager, now: Manager) {
    && now.provider.kernel == before.provider.kernel
    && now.disks.Keys == before.disks.Keys
    && forall d :: d in before.disks ==> now.disks[d].mountPoint == before.disks[d].mountPoint
  }

  ghost predicate IsFound(m: Manager, f: Found, readable: Device -> bool) {
    readable(f.dev) && f.dev in m.disks && f.path in m.provider.kernel.dirs && IsSubDir(f.path, m.disks[f.dev].mountPoint)
  }

  predicate Pending(f: Found, devices: set<Device>, paths: set<Path>, dev: Device) {
    f.dev in devices || (f.dev == dev && f.path in paths)
  }

  ghost predicate Covers(m: Manager, found: seq<Found>, devices: set<Device>, paths: set<Path>, dev: Device,
                         readable: Device -> bool)
  {
    && (forall f :: f in found ==> IsFound(m, f, readable) && !Pending(f, devices, paths, dev))
    && (forall i, j :: 0 <= i < j < |found| ==> found[i] != found[j])
    && (forall p :: p in paths ==> IsFound(m, Found(dev, p), readable))
    && (forall f {:trigger IsFound(m, f, readable)} :: IsFound(m, f, readable) ==> f in found || Pending(f, devices, paths, dev))
  }

  lemma OpenDisk(before: Manager, now: Manager, found: seq<Found>, devices: set<Device>,
                 paths: set<Path>, dev: Device, o: Path -> Outcome, readable: Device -> bool)
    requires Visiting(before, now, found, devices, {}, "", o, readable) && dev in devices
    requires forall p :: p in paths <==> readable(dev) && p in now.provider.kernel.dirs && IsSubDir(p, now.disks[dev].mountPoint)
    ensures Visiting(before, now, found, devices - {dev}, paths, dev, o, readable)
  {
    forall f | IsFound(before, f, readable) ensures f in found || Pending(f, devices - {dev}, paths, dev) {
      assert f in found || Pending(f, devices, {}, "");
    }
    forall f | f in found ensures !Pending(f, devices - {dev}, paths, dev) {
      assert !Pending(f, devices, {}, "");
    }
  }

  lemma CloseDisk(before: Manager, now: Manager, found: seq<Found>, devices: set<Device>, dev: Device,
                  o: Path -> Outcome, readable: Device -> bool)
    requires Visiting(before, now, found, devices, {}, dev, o, readable)
    ensures Visiting(before, now, found, devices, {}, "", o, readable)
  {
    forall f | IsFound(before, f, readable) ensures f in found || Pending(f, devices, {}, "") {
      assert f in found || Pending(f, devices, {}, dev);
    }
    forall f | f in found ensures !Pending(f, devices, {}, "") {
      assert !Pending(f, devices, {}, dev);
    }
  }

  lemma AllVisited(before: Manager, now: Manager, found: seq<Found>, o: Path -> Outcome, readable: Device -> bool)
    requires Visiting(before, now, found, {}, {}, "", o, readable)
    ensures Lists(ReadableDisks(before.disks, readable), before.provider.kernel.dirs, found)
  {
    forall dev, path | dev in ReadableDisks(before.disks, readable) && path in before.provider.kernel.dirs
                       && IsSubDir(path, before.disks[dev].mountPoint)
      ensures Found(dev, path) in found
    {
      assert IsFound(before, Found(dev, path), readable);
    }
  }

  lemma VisitOne(before: Manager, here: Manager, found: seq<Found>, devices: set<Device>,
                 paths: set<Path>, dev: Device, path: Path, o: Path -> Outcome, readable: Device -> bool)
    requires Visiting(before, here, found, devices, paths, dev, o, readable) && path in paths && dev in before.disks
    requires RestoreOne(here, Found(dev, path), o(path)).1
    ensures Visiting(before, RestoreOne(here, Found(dev, path), o(path)).0, found + [Found(dev, path)],
                     devices, paths - {path}, dev, o, readable)
  {
    RestoreOneMore(before, found, Found(dev, path), o);
    CoverOne(before, found, devices, paths, dev, path, readable);
    SameFilesAfter(here, Found(dev, path), o(path));
  }

  lemma CoverOne(m: Manager, found: seq<Found>, devices: set<Device>, paths: set<Path>, dev: Device, path: Path,
                 readable: Device -> bool)
    requires Covers(m, found, devices, paths, dev, readable) && path in paths && dev !in devices
    ensures Covers(m, found + [Found(dev, path)], devices, paths - {path}, dev, readable)
  {
    var f := Found(dev, path);
    assert Pending(f, devices, paths, dev) && IsFound(m, f, readable);
    forall g | IsFound(m, g, readable) ensures g in found + [f] || Pending(g, devices, paths - {path}, dev) {
      assert g in found || Pending(g, devices, paths, dev);
    }
  }

  lemma SameFilesAfter(m: Manager, f: Found, o: Outcome)
    requires f.dev in m.disks
    ensures SameFiles(m, RestoreOne(m, f, o).0)
  {
  }

  lemma RestoreOneMore(m: Manager, found: seq<Found>, f: Found, o: Path -> Outcome)
    requires forall g :: g in found ==> g.dev in m.disks
    requires f.dev in m.disks && RestoreAll(m, found, o).1
    ensures forall g :: g in found + [f] ==> g.dev in m.disks
    ensures RestoreAll(m, found + [f], o) == RestoreOne(RestoreAll(m, found, o).0, f, o(f.path))
  {
    assert (found + [f])[..|found + [f]| - 1] == found;
  }
}

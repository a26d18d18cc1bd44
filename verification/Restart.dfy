/** Restart: `restoreQuotaInfo` over the directories, ids and limits that a run left behind. */
module Restart {
  import opened Results
  import opened MapSums
  import opened ProjectIds
  import opened QuotaPaths
  import opened QuotaProvider
  import opened QuotaManager
  import opened Conservation
  import opened Enforcement

  datatype Found = Found(dev: Device, path: Path)

  /** A new process: the disks are loaded with nothing booked and everything allocatable. */
  function LoadDisk(d: Disk): Disk {
    d.(quotaSize := 0, allocatable := d.capacity)
  }

  function Fresh(m: Manager): Manager {
    Manager(map dev | dev in m.disks :: LoadDisk(m.disks[dev]), map[],
            Provider(m.provider.start, m.provider.num, {}, map[], m.provider.kernel), {})
  }

  /** One directory: its size is added to `QuotaSize`; `AllocatableSize` is left alone. */
  function RestoreOne(m: Manager, f: Found, o: Outcome): (Manager, bool)
    requires f.dev in m.disks
  {
    match ParseVolume(f.path)
    case OutOfRange => (m, false)
    case Volume(vol) =>
      var (p, r) := GetQuota(m.provider, f.path, f.dev, o);
      if r.None? then (m.(provider := p), false)
      else
        var d := m.disks[f.dev];
        (Manager(m.disks[f.dev := d.(quotaSize := U64(d.quotaSize + r.value.hard))],
                 m.quotas[vol := PathQuota(f.path, f.dev, r.value)], p, m.grown), true)
  }

  function RestoreAll(m: Manager, found: seq<Found>, o: Path -> Outcome): (r: (Manager, bool))
    requires forall f :: f in found ==> f.dev in m.disks
    ensures r.0.disks.Keys == m.disks.Keys
    decreases |found|
  {
    if found == [] then (m, true)
    else
      var (n, ok) := RestoreAll(m, found[..|found| - 1], o);
      if !ok then (n, false)
      else RestoreOne(n, found[|found| - 1], o(found[|found| - 1].path))
  }

  lemma RestoreAllLast(m: Manager, found: seq<Found>, o: Path -> Outcome)
    requires found != [] && forall f :: f in found ==> f.dev in m.disks
    requires RestoreAll(m, found, o).1
    ensures var before, f := found[..|found| - 1], found[|found| - 1];
            && RestoreAll(m, before, o).1 && f.dev in m.disks
            && RestoreAll(m, found, o) == RestoreOne(RestoreAll(m, before, o).0, f, o(f.path))
  {
    assert found[|found| - 1] in found;
  }

  /** `found` enumerates, in some order, the directories directly below the mount points. */
  ghost predicate Lists(disks: map<Device, Disk>, dirs: map<Path, ProjectId>, found: seq<Found>) {
    && (forall f :: f in found ==> f.dev in disks && f.path in dirs && IsSubDir(f.path, disks[f.dev].mountPoint))
    && (forall i, j :: 0 <= i < j < |found| ==> found[i] != found[j])
    && (forall dev, path :: dev in disks && path in dirs && IsSubDir(path, disks[dev].mountPoint)
          ==> Found(dev, path) in found)
  }

  /** The disks whose mount point can be read. `GetSubDirs` hides the error of the others, and
      the restart goes on without them. */
  function ReadableDisks(disks: map<Device, Disk>, readable: Device -> bool): map<Device, Disk> {
    map dev | dev in disks && readable(dev) :: disks[dev]
  }

  // ---------- what a restart should give, said without any order ----------

  ghost function RestoredQuota(m: Manager, vol: VolumeId, o: Path -> Outcome): PathQuota
    requires Enforced(m) && vol in m.quotas
  {
    assert Managed(m, vol);
    var q := m.quotas[vol];
    var bytes := Limit(m, vol) * BASIC_BLOCK_SIZE;
    PathQuota(q.path, q.device, Quota(bytes, bytes, o(q.path).used))
  }

  ghost function RestoredQuotas(m: Manager, vols: set<VolumeId>, o: Path -> Outcome): map<VolumeId, PathQuota>
    requires Enforced(m) && vols <= m.quotas.Keys
  {
    map v | v in vols :: RestoredQuota(m, v, o)
  }

  ghost function RestoredDisk(d: Disk, quotas: map<VolumeId, PathQuota>, dev: Device): Disk {
    d.(quotaSize := U64(Sum(SizesOn(quotas, dev))), allocatable := d.capacity)
  }

  /** Every volume with its path, disk and kernel limit, every disk with the 64-bit sum of
      these, the same id cache and pool, and all capacity allocatable. */
  ghost function Restored(m: Manager, o: Path -> Outcome): Manager
    requires Enforced(m)
  {
    var quotas := RestoredQuotas(m, m.quotas.Keys, o);
    Manager(map dev | dev in m.disks :: RestoredDisk(m.disks[dev], quotas, dev), quotas, m.provider, {})
  }

  // ---------- the loop ----------

  ghost function VolumesAt(m: Manager, found: seq<Found>): set<VolumeId> {
    set v | v in m.quotas && Found(m.quotas[v].device, m.quotas[v].path) in found
  }

  ghost predicate BooksAre(loaded: map<Device, Disk>, disks: map<Device, Disk>, quotas: map<VolumeId, PathQuota>) {
    && disks.Keys == loaded.Keys
    && forall dev {:trigger BookIs(loaded, disks, quotas, dev)} ::
         dev in loaded ==> BookIs(loaded, disks, quotas, dev)
  }

  ghost predicate BookIs(loaded: map<Device, Disk>, disks: map<Device, Disk>,
                         quotas: map<VolumeId, PathQuota>, dev: Device)
    requires dev in loaded && disks.Keys == loaded.Keys
  {
    disks[dev] == RestoredDisk(loaded[dev], quotas, dev)
  }

  ghost predicate CacheIs(m: Manager, p: Provider, vols: set<VolumeId>)
    requires vols <= m.quotas.Keys
  {
    && p.start == m.provider.start && p.num == m.provider.num && p.kernel == m.provider.kernel
    && PoolInvariant(p)
    && (forall v :: v in vols ==> m.quotas[v].path in p.cache)
    && (forall path :: path in p.cache ==> CachedAsBefore(m, p, vols, path))
  }

  ghost predicate CachedAsBefore(m: Manager, p: Provider, vols: set<VolumeId>, path: Path)
    requires vols <= m.quotas.Keys && path in p.cache
  {
    && path in m.provider.cache && p.cache[path] == m.provider.cache[path]
    && exists v :: v in vols && m.quotas[v].path == path
  }

  ghost predicate SoFar(m: Manager, n: Manager, vols: set<VolumeId>, o: Path -> Outcome)
    requires Enforced(m) && vols <= m.quotas.Keys
  {
    Holds(m, n, vols, RestoredQuotas(m, vols, o))
  }

  ghost predicate Holds(m: Manager, n: Manager, vols: set<VolumeId>, quotas: map<VolumeId, PathQuota>)
    requires vols <= m.quotas.Keys
  {
    && n.quotas == quotas
    && n.grown == {}
    && BooksAre(m.disks, n.disks, n.quotas)
    && CacheIs(m, n.provider, vols)
  }

  /** The directory at hand belongs to exactly one managed volume, on exactly this disk. */
  lemma FoundVolume(m: Manager, f: Found) returns (vol: VolumeId)
    requires Enforced(m) && f.dev in m.disks && f.path in m.provider.kernel.dirs
    requires IsSubDir(f.path, m.disks[f.dev].mountPoint)
    requires forall v :: v in m.quotas ==> '/' !in v
    ensures vol in m.quotas && f == Found(m.quotas[vol].device, m.quotas[vol].path)
    ensures Managed(m, vol) && ParseVolume(f.path) == Volume(vol)
  {
    assert Owned(m, f.path);
    vol :| vol in m.quotas && m.quotas[vol].path == f.path;
    assert Managed(m, vol);
    var mount := m.disks[m.quotas[vol].device].mountPoint;
    QuotaPathSubDir(mount, vol, m.disks[f.dev].mountPoint);
    ParseQuotaPath(mount, vol);
  }

  /** Reading the quota of a directory not yet cached re-creates its cache entry. */
  lemma RereadsQuota(m: Manager, p: Provider, vols: set<VolumeId>, vol: VolumeId, o: Path -> Outcome)
    requires Enforced(m) && vols <= m.quotas.Keys && CacheIs(m, p, vols)
    requires vol in m.quotas && vol !in vols
    requires var out := o(m.quotas[vol].path); out.getId && out.getLimit
    ensures var q := m.quotas[vol];
            var (next, r) := GetQuota(p, q.path, q.device, o(q.path));
            && r == Some(RestoredQuota(m, vol, o).quota)
            && CacheIs(m, next, vols + {vol})
  {
    var q := m.quotas[vol];
    assert Managed(m, vol);
    if q.path in p.cache {
      assert CachedAsBefore(m, p, vols, q.path);
      var v :| v in vols && m.quotas[v].path == q.path;
      PathsApart(m, v, vol);
    }
    IdIsFree(m, p, vols, q.path);
    var next := GetQuota(p, q.path, q.device, o(q.path)).0;
    GetKeepsPool(p, q.path, q.device, o(q.path));
    forall path | path in next.cache ensures CachedAsBefore(m, next, vols + {vol}, path) {
      if path in p.cache {
        assert CachedAsBefore(m, p, vols, path);
        var v :| v in vols && m.quotas[v].path == path;
        assert v in vols + {vol};
      } else {
        assert vol in vols + {vol} && m.quotas[vol].path == path;
      }
    }
  }

  lemma IdIsFree(m: Manager, p: Provider, vols: set<VolumeId>, path: Path)
    requires PoolInvariant(m.provider) && vols <= m.quotas.Keys && CacheIs(m, p, vols)
    requires path in m.provider.cache && path !in p.cache
    ensures InRange(p.start, p.num, m.provider.cache[path])
    ensures m.provider.cache[path] !in p.ids
  {
    forall other | other in p.cache ensures p.cache[other] != m.provider.cache[path] {
      assert CachedAsBefore(m, p, vols, other);
    }
    assert m.provider.cache[path] !in p.cache.Values;
  }

  /** The books of every disk after one more volume. */
  lemma BooksOneMore(loaded: map<Device, Disk>, disks: map<Device, Disk>, quotas: map<VolumeId, PathQuota>,
                     vol: VolumeId, q: PathQuota)
    requires BooksAre(loaded, disks, quotas) && vol !in quotas && q.device in loaded
    ensures var d := disks[q.device];
            BooksAre(loaded, disks[q.device := d.(quotaSize := U64(d.quotaSize + q.quota.hard))], quotas[vol := q])
  {
    var d := disks[q.device];
    var next := disks[q.device := d.(quotaSize := U64(d.quotaSize + q.quota.hard))];
    BookOneMore(loaded, disks, quotas, vol, q);
    forall dev | dev in loaded ensures BookIs(loaded, next, quotas[vol := q], dev) {
      assert BookIs(loaded, disks, quotas, dev);
      SizesOnPut(quotas, vol, q, dev);
    }
  }

  lemma BookOneMore(loaded: map<Device, Disk>, disks: map<Device, Disk>, quotas: map<VolumeId, PathQuota>,
                    vol: VolumeId, q: PathQuota)
    requires BooksAre(loaded, disks, quotas) && vol !in quotas && q.device in loaded
    ensures U64(disks[q.device].quotaSize + q.quota.hard) == U64(Sum(SizesOn(quotas[vol := q], q.device)))
  {
    assert BookIs(loaded, disks, quotas, q.device);
    SizesOnPut(quotas, vol, q, q.device);
    SumPut(SizesOn(quotas, q.device), vol, q.quota.hard);
    AddWrapped(Sum(SizesOn(quotas, q.device)), q.quota.hard);
  }

  lemma AddWrapped(a: nat, b: nat)
    ensures U64(U64(a) + b) == U64(b + a)
  {
  }

  lemma RestoreStep(m: Manager, n: Manager, vols: set<VolumeId>, vol: VolumeId, o: Path -> Outcome)
    requires Enforced(m) && vols <= m.quotas.Keys && SoFar(m, n, vols, o)
    requires vol in m.quotas && vol !in vols && m.quotas[vol].device in m.disks
    requires ParseVolume(m.quotas[vol].path) == Volume(vol)
    requires var out := o(m.quotas[vol].path); out.getId && out.getLimit
    ensures var q := m.quotas[vol];
            var (next, ok) := RestoreOne(n, Found(q.device, q.path), o(q.path));
            ok && SoFar(m, next, vols + {vol}, o)
  {
    var q := RestoredQuota(m, vol, o);
    var p := GetQuota(n.provider, q.path, q.device, o(q.path)).0;
    RereadsQuota(m, n.provider, vols, vol, o);
    RestoreOneBooks(n, vol, q, p, o(q.path));
    BookedSoFar(m, n, vols, vol, p, o);
  }

  lemma RestoreOneBooks(n: Manager, vol: VolumeId, q: PathQuota, p: Provider, o: Outcome)
    requires q.device in n.disks && ParseVolume(q.path) == Volume(vol)
    requires GetQuota(n.provider, q.path, q.device, o) == (p, Some(q.quota))
    ensures RestoreOne(n, Found(q.device, q.path), o) == (Booked(n, vol, q, p), true)
  {
  }

  lemma BookedSoFar(m: Manager, n: Manager, vols: set<VolumeId>, vol: VolumeId, p: Provider, o: Path -> Outcome)
    requires Enforced(m) && vols <= m.quotas.Keys && SoFar(m, n, vols, o)
    requires vol in m.quotas && vol !in vols && m.quotas[vol].device in m.disks
    requires CacheIs(m, p, vols + {vol})
    ensures SoFar(m, Booked(n, vol, RestoredQuota(m, vol, o), p), vols + {vol}, o)
  {
    var q := RestoredQuota(m, vol, o);
    RestoredQuotasPut(m, vols, vol, o);
    BookedHolds(m, n, vols, vol, q, p);
  }

  lemma BookedHolds(m: Manager, n: Manager, vols: set<VolumeId>, vol: VolumeId, q: PathQuota, p: Provider)
    requires vols + {vol} <= m.quotas.Keys && Holds(m, n, vols, n.quotas)
    requires vol !in n.quotas && q.device in m.disks && CacheIs(m, p, vols + {vol})
    ensures Holds(m, Booked(n, vol, q, p), vols + {vol}, n.quotas[vol := q])
  {
    BooksOneMore(m.disks, n.disks, n.quotas, vol, q);
  }

  lemma RestoredQuotasPut(m: Manager, vols: set<VolumeId>, vol: VolumeId, o: Path -> Outcome)
    requires Enforced(m) && vols <= m.quotas.Keys && vol in m.quotas
    ensures RestoredQuotas(m, vols + {vol}, o) == RestoredQuotas(m, vols, o)[vol := RestoredQuota(m, vol, o)]
  {
  }

  function Booked(n: Manager, vol: VolumeId, q: PathQuota, p: Provider): Manager
    requires q.device in n.disks
  {
    var d := n.disks[q.device];
    Manager(n.disks[q.device := d.(quotaSize := U64(d.quotaSize + q.quota.hard))], n.quotas[vol := q], p, n.grown)
  }

  lemma {:induction false} RestorePrefix(m: Manager, found: seq<Found>, o: Path -> Outcome)
    requires Enforced(m)
    requires forall v :: v in m.quotas ==> '/' !in v
    requires forall path :: path in m.provider.kernel.dirs ==> o(path).getId && o(path).getLimit
    requires forall f :: f in found ==>
      f.dev in m.disks && f.path in m.provider.kernel.dirs && IsSubDir(f.path, m.disks[f.dev].mountPoint)
    requires forall i, j :: 0 <= i < j < |found| ==> found[i] != found[j]
    ensures RestoreAll(Fresh(m), found, o).1
    ensures SoFar(m, RestoreAll(Fresh(m), found, o).0, VolumesAt(m, found), o)
    decreases |found|
  {
    if found == [] {
      FreshSoFar(m, o);
      assert VolumesAt(m, found) == {};
    } else {
      var k := |found| - 1;
      RestorePrefix(m, found[..k], o);
      var vol := FoundVolume(m, found[k]);
      assert found[k] !in found[..k];
      var vols := VolumesAt(m, found[..k]);
      VolumesOneMore(m, found, vol);
      RestoreStep(m, RestoreAll(Fresh(m), found[..k], o).0, vols, vol, o);
    }
  }

  lemma VolumesOneMore(m: Manager, found: seq<Found>, vol: VolumeId)
    requires Enforced(m) && found != [] && vol in m.quotas
    requires found[|found| - 1] == Found(m.quotas[vol].device, m.quotas[vol].path)
    requires found[|found| - 1] !in found[..|found| - 1]
    ensures vol !in VolumesAt(m, found[..|found| - 1])
    ensures VolumesAt(m, found) == VolumesAt(m, found[..|found| - 1]) + {vol}
  {
    assert found == found[..|found| - 1] + [found[|found| - 1]];
    forall v | v in VolumesAt(m, found) && v !in VolumesAt(m, found[..|found| - 1]) ensures v == vol {
      assert m.quotas[v].path == m.quotas[vol].path;
      PathsApart(m, v, vol);
    }
  }

  lemma FreshSoFar(m: Manager, o: Path -> Outcome)
    requires Enforced(m)
    ensures SoFar(m, Fresh(m), {}, o)
  {
    var n := Fresh(m);
    assert n.quotas == RestoredQuotas(m, {}, o);
    assert n.disks.Keys == m.disks.Keys;
    forall dev | dev in m.disks ensures BookIs(m.disks, n.disks, n.quotas, dev) {
      assert SizesOn(n.quotas, dev) == map[];
    }
    assert n.provider.cache.Values == {};
  }

  /** Main result: in any order of enumeration the restart ends in the one state described
      by `Restored`, whose provider - id cache, pool and kernel - is the old one exactly. */
  lemma RestartRefines(m: Manager, found: seq<Found>, o: Path -> Outcome)
    requires Enforced(m)
    requires forall v :: v in m.quotas ==> '/' !in v
    requires forall path :: path in m.provider.kernel.dirs ==> o(path).getId && o(path).getLimit
    requires Lists(m.disks, m.provider.kernel.dirs, found)
    ensures RestoreAll(Fresh(m), found, o) == (Restored(m, o), true)
  {
    RestorePrefix(m, found, o);
    AllListed(m, found);
    AllRestored(m, RestoreAll(Fresh(m), found, o).0, o);
  }

  lemma AllListed(m: Manager, found: seq<Found>)
    requires Enforced(m) && Lists(m.disks, m.provider.kernel.dirs, found)
    requires forall v :: v in m.quotas ==> '/' !in v
    ensures VolumesAt(m, found) == m.quotas.Keys
  {
    forall v | v in m.quotas ensures v in VolumesAt(m, found) {
      assert Managed(m, v);
      QuotaPathSubDir(m.disks[m.quotas[v].device].mountPoint, v, m.disks[m.quotas[v].device].mountPoint);
    }
  }

  /** When some mount points cannot be read, the restart succeeds all the same: it restores
      exactly the volumes on the others. So it loses volumes exactly if one lies on a disk that
      cannot be read. */
  lemma UnreadableDisksAreForgotten(m: Manager, found: seq<Found>, o: Path -> Outcome, readable: Device -> bool)
    requires Enforced(m)
    requires forall v :: v in m.quotas ==> '/' !in v
    requires forall path :: path in m.provider.kernel.dirs ==> o(path).getId && o(path).getLimit
    requires Lists(ReadableDisks(m.disks, readable), m.provider.kernel.dirs, found)
    ensures var vols := set v | v in m.quotas && readable(m.quotas[v].device);
            var (n, ok) := RestoreAll(Fresh(m), found, o);
            && ok && n.quotas == RestoredQuotas(m, vols, o)
            && (n.quotas.Keys == m.quotas.Keys <==> forall v :: v in m.quotas ==> readable(m.quotas[v].device))
  {
    RestorePrefix(m, found, o);
    ReadableListed(m, found, readable);
    RestoredKeysIff(m, readable, o);
  }

  lemma RestoredKeysIff(m: Manager, readable: Device -> bool, o: Path -> Outcome)
    requires Enforced(m)
    ensures var vols := set v | v in m.quotas && readable(m.quotas[v].device);
            RestoredQuotas(m, vols, o).Keys == m.quotas.Keys <==> forall v :: v in m.quotas ==> readable(m.quotas[v].device)
  {
  }

  lemma ReadableListed(m: Manager, found: seq<Found>, readable: Device -> bool)
    requires Enforced(m) && Lists(ReadableDisks(m.disks, readable), m.provider.kernel.dirs, found)
    requires forall v :: v in m.quotas ==> '/' !in v
    ensures VolumesAt(m, found) == set v | v in m.quotas && readable(m.quotas[v].device)
  {
    forall v | v in m.quotas && readable(m.quotas[v].device) ensures v in VolumesAt(m, found) {
      assert Managed(m, v);
      QuotaPathSubDir(m.disks[m.quotas[v].device].mountPoint, v, m.disks[m.quotas[v].device].mountPoint);
    }
  }

  lemma AllRestored(m: Manager, n: Manager, o: Path -> Outcome)
    requires Enforced(m) && SoFar(m, n, m.quotas.Keys, o)
    ensures n == Restored(m, o)
  {
    SameProvider(m, n.provider);
    var disks := Restored(m, o).disks;
    assert n.disks == disks by {
      forall dev | dev in m.disks ensures n.disks[dev] == disks[dev] {
        assert BookIs(m.disks, n.disks, n.quotas, dev);
      }
    }
  }

  lemma SameProvider(m: Manager, p: Provider)
    requires Enforced(m) && CacheIs(m, p, m.quotas.Keys)
    ensures p == m.provider
  {
    forall path | path in m.provider.cache ensures path in p.cache {
      assert Owned(m, path);
    }
    forall path | path in p.cache ensures path in m.provider.cache && p.cache[path] == m.provider.cache[path] {
      assert CachedAsBefore(m, p, m.quotas.Keys, path);
    }
    assert p.cache == m.provider.cache;
  }

  lemma RestoredFits(m: Manager, quotas: map<VolumeId, PathQuota>, vols: set<VolumeId>, o: Path -> Outcome, dev: Device)
    requires Enforced(m) && Conserved(m) && vols <= m.quotas.Keys && dev in m.disks
    requires quotas == RestoredQuotas(m, vols, o)
    ensures Sum(SizesOn(quotas, dev)) <= m.disks[dev].quotaSize <= m.disks[dev].capacity < UINT64_COUNT
  {
    var now, before := SizesOn(quotas, dev), SizesOn(m.quotas, dev);
    forall v | v in now ensures v in before && now[v] <= before[v] {
      assert Managed(m, v);
    }
    SumMonotone(now, before);
    assert DiskConserved(m.disks[dev], before);
  }

  /** Size by size: a restart gives back the recorded quota exactly to the volumes that have
      not grown and whose size is whole blocks; every other volume comes back smaller. */
  lemma RestoredSize(m: Manager, vol: VolumeId, o: Path -> Outcome)
    requires Enforced(m) && vol in m.quotas
    ensures var q, r := m.quotas[vol], RestoredQuota(m, vol, o);
            && r.path == q.path && r.device == q.device
            && r.quota.hard <= q.quota.hard
            && (r.quota.hard == q.quota.hard <==> vol !in m.grown && q.quota.hard % BASIC_BLOCK_SIZE == 0)
  {
    assert Managed(m, vol);
  }

  /** Disk by disk: `QuotaSize` comes back as it was exactly if no volume on the disk has grown
      and their sizes are whole blocks. */
  lemma RestoredTotalsIff(m: Manager, o: Path -> Outcome, dev: Device)
    requires Enforced(m) && Conserved(m) && dev in m.disks
    ensures Restored(m, o).disks[dev].quotaSize == m.disks[dev].quotaSize
            <==> forall v :: v in m.quotas && m.quotas[v].device == dev ==>
                   v !in m.grown && m.quotas[v].quota.hard % BASIC_BLOCK_SIZE == 0
  {
    var now, before := SizesOn(Restored(m, o).quotas, dev), SizesOn(m.quotas, dev);
    forall v | v in m.quotas
      ensures v in now <==> v in before
      ensures v in now ==> now[v] <= before[v]
      ensures v in now ==> (now[v] == before[v] <==> v !in m.grown && m.quotas[v].quota.hard % BASIC_BLOCK_SIZE == 0)
    {
      RestoredSize(m, v, o);
    }
    RestoredFacts(m, o, dev);
    SumEqualIff(now, before);
    assert DiskConserved(m.disks[dev], before);
  }

  // ---------- what a restart does not give back ----------

  /** The books are right after a restart only if there was nothing to restore, because
      every disk comes back with all of its capacity allocatable. */
  lemma RestartConservedIff(m: Manager, o: Path -> Outcome)
    requires Enforced(m)
    requires forall dev :: dev in m.disks ==> m.disks[dev].capacity < UINT64_COUNT
    ensures Conserved(Restored(m, o)) <==> m.quotas == map[]
  {
    var n := Restored(m, o);
    if m.quotas == map[] {
      forall dev | dev in n.disks ensures DiskConserved(n.disks[dev], SizesOn(n.quotas, dev)) {
        assert SizesOn(n.quotas, dev) == map[];
      }
    } else {
      var v :| v in m.quotas;
      assert Managed(m, v);
      var dev := m.quotas[v].device;
      var sizes := SizesOn(n.quotas, dev);
      SumTakeOut(sizes, v);
      assert sizes[v] > 0;
      assert !DiskConserved(n.disks[dev], sizes);
    }
  }

  lemma RestoredFacts(m: Manager, o: Path -> Outcome, dev: Device)
    requires Enforced(m) && Conserved(m) && dev in m.disks
    ensures var n := Restored(m, o);
            && n.provider == m.provider && n.quotas.Keys == m.quotas.Keys && dev in n.disks
            && n.disks[dev].mountPoint == m.disks[dev].mountPoint
            && n.disks[dev].quotaSize == Sum(SizesOn(n.quotas, dev)) <= m.disks[dev].capacity
            && n.disks[dev].allocatable == n.disks[dev].capacity == m.disks[dev].capacity < UINT64_COUNT
  {
    RestoredFits(m, Restored(m, o).quotas, m.quotas.Keys, o, dev);
  }

  /** A new volume on a restored disk: the disk's books are right again exactly if the volume
      fits beside those that were restored. If it does not, it is accepted all the same, and
      `AllocatableSize` wraps below zero. */
  lemma PublishAfterRestartIff(m: Manager, o: Path -> Outcome, vol: VolumeId, dev: Device, size: nat, out: Outcome)
    requires Enforced(m) && Conserved(m) && vol !in m.quotas
    requires WorstFit(Restored(m, o).disks, size, dev)
    requires ValidChoice(m.provider, out) && !Full(m.provider.start, m.provider.num, m.provider.ids)
    requires out.mkdir && out.setId && out.setLimit
    ensures var r := Restored(m, o);
            var n := Publish(r, vol, size, dev, out).0;
            var room := m.disks[dev].capacity - r.disks[dev].quotaSize;
            && vol in n.quotas && dev in n.disks
            && (DiskConserved(n.disks[dev], SizesOn(n.quotas, dev)) <==> size <= room)
            && n.disks[dev].allocatable == if size <= room then room - size else UINT64_COUNT + room - size
  {
    var r := Restored(m, o);
    RestoredFacts(m, o, dev);
    NewPathIsFree(m, vol, dev);
    PublishOnto(r, vol, dev, size, out);
  }

  lemma PublishOnto(n: Manager, vol: VolumeId, dev: Device, size: nat, out: Outcome)
    requires vol !in n.quotas && WorstFit(n.disks, size, dev)
    requires !Full(n.provider.start, n.provider.num, n.provider.ids)
    requires QuotaPath(n.disks[dev].mountPoint, vol) !in n.provider.cache
    requires out.mkdir && out.setId && out.setLimit
    requires n.disks[dev].allocatable == n.disks[dev].capacity < UINT64_COUNT
    requires n.disks[dev].quotaSize == Sum(SizesOn(n.quotas, dev)) <= n.disks[dev].capacity
    ensures var done := Publish(n, vol, size, dev, out).0;
            var room := n.disks[dev].capacity - n.disks[dev].quotaSize;
            && vol in done.quotas && dev in done.disks
            && (DiskConserved(done.disks[dev], SizesOn(done.quotas, dev)) <==> size <= room)
            && done.disks[dev].allocatable == if size <= room then room - size else UINT64_COUNT + room - size
  {
    PublishSucceeds(n, vol, dev, size, out);
    BookedOnto(n, Publish(n, vol, size, dev, out).0, vol, dev, size,
               PathQuota(QuotaPath(n.disks[dev].mountPoint, vol), dev, Quota(size, size, 0)));
  }

  lemma BookedOnto(n: Manager, done: Manager, vol: VolumeId, dev: Device, size: nat, q: PathQuota)
    requires vol !in n.quotas && dev in n.disks && size <= n.disks[dev].capacity < UINT64_COUNT
    requires n.disks[dev].quotaSize == Sum(SizesOn(n.quotas, dev)) <= n.disks[dev].capacity
    requires q.device == dev && q.quota.hard == size && done.quotas == n.quotas[vol := q]
    requires done.disks == n.disks[dev := WithQuotaSize(n.disks[dev], U64(n.disks[dev].quotaSize + size))]
    ensures var room := n.disks[dev].capacity - n.disks[dev].quotaSize;
            && (DiskConserved(done.disks[dev], SizesOn(done.quotas, dev)) <==> size <= room)
            && done.disks[dev].allocatable == if size <= room then room - size else UINT64_COUNT + room - size
  {
    BookedBeside(n.disks[dev], n.quotas, vol, size, q);
  }

  lemma BookedBeside(d: Disk, quotas: map<VolumeId, PathQuota>, vol: VolumeId, size: nat, q: PathQuota)
    requires vol !in quotas && q.quota.hard == size <= d.capacity < UINT64_COUNT
    requires d.quotaSize == Sum(SizesOn(quotas, q.device)) <= d.capacity
    ensures var booked := WithQuotaSize(d, U64(d.quotaSize + size));
            && (DiskConserved(booked, SizesOn(quotas[vol := q], q.device)) <==> size <= d.capacity - d.quotaSize)
            && booked.allocatable == if size <= d.capacity - d.quotaSize then d.capacity - d.quotaSize - size
                                     else UINT64_COUNT + d.capacity - d.quotaSize - size
  {
    SizesOnPut(quotas, vol, q, q.device);
    SumPut(SizesOn(quotas, q.device), vol, size);
    BookedOn(d, size);
  }

  lemma PublishSucceeds(n: Manager, vol: VolumeId, dev: Device, size: nat, out: Outcome)
    requires vol !in n.quotas && WorstFit(n.disks, size, dev) && size < UINT64_COUNT
    requires !Full(n.provider.start, n.provider.num, n.provider.ids)
    requires QuotaPath(n.disks[dev].mountPoint, vol) !in n.provider.cache
    requires out.mkdir && out.setId && out.setLimit
    ensures var d := n.disks[dev];
            var done := Publish(n, vol, size, dev, out).0;
            && Publish(n, vol, size, dev, out).1.Ok?
            && done.disks == n.disks[dev := WithQuotaSize(d, U64(d.quotaSize + size))]
            && done.quotas == n.quotas[vol := PathQuota(QuotaPath(d.mountPoint, vol), dev, Quota(size, size, 0))]
  {
    assert Fits(n.disks, size);
  }

  lemma BookedOn(d: Disk, size: nat)
    requires d.quotaSize <= d.capacity < UINT64_COUNT && size <= d.capacity
    ensures U64(size) == size
    ensures var booked := WithQuotaSize(d, U64(d.quotaSize + size));
            if size <= d.capacity - d.quotaSize then
              booked.quotaSize == d.quotaSize + size && booked.allocatable == d.capacity - d.quotaSize - size
            else booked.allocatable == UINT64_COUNT + d.capacity - d.quotaSize - size
  {
    if d.quotaSize + size < UINT64_COUNT {
      assert U64(d.quotaSize + size) == d.quotaSize + size;
    } else {
      assert U64(d.quotaSize + size) == d.quotaSize + size - UINT64_COUNT;
    }
  }

  // ---------- that it happens ----------

  const PROJECT_ID_START := 1000000
  const PROJECT_ID_NUM := 5000

  const ALL_WELL := Outcome(true, true, true, true, true, true, PROJECT_ID_START, 0)

  /** One empty disk and the code's range of project ids. */
  function OneDisk(mountPoint: Path, capacity: nat): Manager {
    Manager(map["disk" := Disk(mountPoint, capacity, 0, 0, capacity, false)], map[],
            Provider(PROJECT_ID_START, PROJECT_ID_NUM, {}, map[], Kernel(map[], map[])), {})
  }

  lemma OneDiskStarts(mountPoint: Path, capacity: nat)
    requires CleanMount(mountPoint) && capacity < UINT64_COUNT
    ensures Enforced(OneDisk(mountPoint, capacity)) && Conserved(OneDisk(mountPoint, capacity))
  {
    EmptyEnforced(OneDisk(mountPoint, capacity));
    EmptyConserved(OneDisk(mountPoint, capacity));
  }

  lemma DiskFilled(mountPoint: Path, capacity: nat, vol: VolumeId) returns (m: Manager)
    requires CleanMount(mountPoint) && BASIC_BLOCK_SIZE <= capacity < UINT64_COUNT
    ensures var step := PublishStep(vol, capacity, "disk", ALL_WELL);
            PossibleRun(OneDisk(mountPoint, capacity), [step]) && m == Run(OneDisk(mountPoint, capacity), [step])
    ensures Enforced(m) && Conserved(m) && m.quotas.Keys == {vol} && m.quotas[vol].device == "disk"
    ensures m.disks.Keys == {"disk"} && m.disks["disk"].capacity == capacity && !m.disks["disk"].disabled
    ensures m.provider.start == PROJECT_ID_START && m.provider.num == PROJECT_ID_NUM && m.provider.ids == {PROJECT_ID_START}
    ensures m.quotas[vol].quota.hard == capacity && m.grown == {}
  {
    var start := OneDisk(mountPoint, capacity);
    var step := PublishStep(vol, capacity, "disk", ALL_WELL);
    OneDiskStarts(mountPoint, capacity);
    assert InRange(PROJECT_ID_START, PROJECT_ID_NUM, PROJECT_ID_START);
    assert WorstFit(start.disks, capacity, "disk");
    PublishSucceeds(start, vol, "disk", capacity, ALL_WELL);
    m := Apply(start, step);
    StepEnforces(start, step);
    StepConserves(start, step);
    assert [step][1..] == [];
    assert PossibleRun(m, []) && Run(m, []) == m;
  }

  /** Fill a disk with one volume, restart, and publish a second volume of the same size: it
      is accepted, and the disk then seems to have almost 2^64 bytes to give. */
  lemma FullDiskAcceptsAgain(mountPoint: Path, capacity: nat, first: VolumeId, second: VolumeId)
      returns (m: Manager, n: Manager)
    requires CleanMount(mountPoint) && BASIC_BLOCK_SIZE <= capacity < UINT64_COUNT && first != second
    ensures var step := PublishStep(first, capacity, "disk", ALL_WELL);
            PossibleRun(OneDisk(mountPoint, capacity), [step]) && m == Run(OneDisk(mountPoint, capacity), [step])
    ensures var again := PublishStep(second, capacity, "disk", ALL_WELL.(freeId := PROJECT_ID_START + 1));
            Enforced(m) && Possible(Restored(m, _ => ALL_WELL), again) && n == Apply(Restored(m, _ => ALL_WELL), again)
    ensures m.disks.Keys == {"disk"} && !m.disks["disk"].disabled
    ensures n.quotas.Keys == {first, second} && "disk" in n.disks && !Conserved(n)
    ensures n.disks["disk"].allocatable == UINT64_COUNT - Blocks(capacity) * BASIC_BLOCK_SIZE
  {
    m := DiskFilled(mountPoint, capacity, first);
    var o: Path -> Outcome := _ => ALL_WELL;
    var r := Restored(m, o);
    var out := ALL_WELL.(freeId := PROJECT_ID_START + 1);
    RestoredFacts(m, o, "disk");
    OneRestored(m, first, o);
    assert InRange(PROJECT_ID_START, PROJECT_ID_NUM, out.freeId) && out.freeId !in m.provider.ids;
    assert WorstFit(r.disks, capacity, "disk");
    NewPathIsFree(m, second, "disk");
    PublishSucceeds(r, second, "disk", capacity, out);
    PublishAfterRestartIff(m, o, second, "disk", capacity, out);
    n := Apply(r, PublishStep(second, capacity, "disk", out));
    assert !DiskConserved(n.disks["disk"], SizesOn(n.quotas, "disk"));
  }

  lemma OneRestored(m: Manager, vol: VolumeId, o: Path -> Outcome)
    requires Enforced(m) && Conserved(m) && m.quotas.Keys == {vol} && vol !in m.grown
    requires m.quotas[vol].device in m.disks
    ensures Restored(m, o).disks[m.quotas[vol].device].quotaSize == Blocks(m.quotas[vol].quota.hard) * BASIC_BLOCK_SIZE
  {
    var dev := m.quotas[vol].device;
    var sizes := SizesOn(Restored(m, o).quotas, dev);
    assert Managed(m, vol);
    RestoredFacts(m, o, dev);
    assert sizes.Keys == {vol};
    SumTakeOut(sizes, vol);
    assert sizes - {vol} == map[];
  }
}

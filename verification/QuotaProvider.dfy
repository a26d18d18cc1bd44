/** The XFS project-quota provider: quotaProvider/quota_xfs.go over quota_common_linux.go.

    The kernel and the file system are two maps: which directory carries which project id,
    and which limit a device enforces for a project id, in 512-byte blocks. Every system
    call may fail; whether it does is a field of `Outcome`, chosen by the environment. */
module QuotaProvider {
  import opened Results
  import opened ProjectIds
  import opened QuotaPaths

  type Device = string

  const UINT64_COUNT := 0x1_0000_0000_0000_0000
  const BASIC_BLOCK_SIZE := 512

  /** Go's conversion to and arithmetic in `uint64`. */
  function U64(x: int): (r: nat)
    ensures r < UINT64_COUNT
    ensures 0 <= x < UINT64_COUNT ==> r == x
  {
    x % UINT64_COUNT
  }

  datatype Quota = Quota(hard: nat, soft: nat, used: nat)

  datatype Kernel = Kernel(dirs: map<Path, ProjectId>, limits: map<(Device, ProjectId), nat>)

  /** Provider state: the id pool, the cache from path to project id, and the kernel below. */
  datatype Provider = Provider(start: nat, num: nat, ids: set<ProjectId>,
                               cache: map<Path, ProjectId>, kernel: Kernel)

  /** What the environment decides during one call: which system calls succeed, which free
      id the pool hands out, and how many bytes the kernel reports as used. */
  datatype Outcome = Outcome(mkdir: bool, setId: bool, setLimit: bool, getId: bool,
                             getLimit: bool, remove: bool, freeId: ProjectId, used: nat)

  ghost predicate ValidChoice(p: Provider, o: Outcome) {
    !Full(p.start, p.num, p.ids) ==> InRange(p.start, p.num, o.freeId) && o.freeId !in p.ids
  }

  lemma PossibleId(p: Provider, o: Outcome) returns (id: ProjectId)
    ensures ValidChoice(p, o.(freeId := id))
  {
    if choice: ProjectId :| InRange(p.start, p.num, choice) && choice !in p.ids {
      id := choice;
    } else {
      id := 0;
    }
  }

  function Blocks(bytes: nat): nat {
    bytes / BASIC_BLOCK_SIZE
  }

  function KernelQuota(k: Kernel, dev: Device, id: ProjectId, o: Outcome): Option<Quota> {
    if o.getLimit && (dev, id) in k.limits then
      var bytes := U64(k.limits[(dev, id)] * BASIC_BLOCK_SIZE);
      Some(Quota(bytes, bytes, o.used))
    else None
  }

  function GetQuota(p: Provider, path: Path, dev: Device, o: Outcome): (Provider, Option<Quota>) {
    if path in p.cache then (p, KernelQuota(p.kernel, dev, p.cache[path], o))
    else if !o.getId || path !in p.kernel.dirs then (p, None)
    else
      var id := p.kernel.dirs[path];
      if !InRange(p.start, p.num, id) || id in p.ids then (p, None)
      else (p.(ids := p.ids + {id}, cache := p.cache[path := id]),
            KernelQuota(p.kernel, dev, id, o))
  }

  ghost function SetQuota(p: Provider, path: Path, dev: Device, hard: nat, o: Outcome): (Provider, bool) {
    if path in p.cache then (p, true)
    else if Full(p.start, p.num, p.ids) || !o.setId || path !in p.kernel.dirs then (p, false)
    else
      var k := p.kernel.(dirs := p.kernel.dirs[path := o.freeId]);
      if !o.setLimit then (p.(kernel := k), false)
      else (Provider(p.start, p.num, p.ids + {o.freeId}, p.cache[path := o.freeId],
                     k.(limits := k.limits[(dev, o.freeId) := Blocks(hard)])), true)
  }

  function RemoveDir(p: Provider, path: Path, o: Outcome): (Provider, bool) {
    if path !in p.kernel.dirs then (p, true)
    else if o.remove then (p.(kernel := p.kernel.(dirs := p.kernel.dirs - {path})), true)
    else (p, false)
  }

  function DeleteQuota(p: Provider, path: Path, o: Outcome): (Provider, bool) {
    if path in p.cache then
      RemoveDir(p.(ids := p.ids - {p.cache[path]}, cache := p.cache - {path}), path, o)
    else RemoveDir(p, path, o)
  }

  /** Ids are neither leaked nor shared: the allocated set is exactly the image of the cache,
      within the range, and the cache is injective. */
  ghost predicate PoolInvariant(p: Provider) {
    && p.ids == p.cache.Values
    && (forall path :: path in p.cache ==> InRange(p.start, p.num, p.cache[path]))
    && (forall a, b :: a in p.cache && b in p.cache && p.cache[a] == p.cache[b] ==> a == b)
  }

  lemma GetKeepsPool(p: Provider, path: Path, dev: Device, o: Outcome)
    requires PoolInvariant(p)
    ensures PoolInvariant(GetQuota(p, path, dev, o).0)
  {
    CachePut(p.cache, path, GetQuota(p, path, dev, o).0);
  }

  lemma SetKeepsPool(p: Provider, path: Path, dev: Device, hard: nat, o: Outcome)
    requires PoolInvariant(p) && ValidChoice(p, o)
    ensures PoolInvariant(SetQuota(p, path, dev, hard, o).0)
  {
    CachePut(p.cache, path, SetQuota(p, path, dev, hard, o).0);
  }

  lemma CachePut(cache: map<Path, ProjectId>, path: Path, q: Provider)
    ensures path !in cache && path in q.cache && q.cache == cache[path := q.cache[path]]
            ==> q.cache.Values == cache.Values + {q.cache[path]}
  {
    if path !in cache && path in q.cache && q.cache == cache[path := q.cache[path]] {
      forall v | v in cache.Values ensures v in q.cache.Values {
        var k :| k in cache && cache[k] == v;
        assert k in q.cache && q.cache[k] == v;
      }
    }
  }

  /** Deleting frees the path's own id and no other, whether or not the directory goes. */
  lemma DeleteKeepsPool(p: Provider, path: Path, o: Outcome)
    requires PoolInvariant(p)
    ensures PoolInvariant(DeleteQuota(p, path, o).0)
    ensures var q := DeleteQuota(p, path, o).0;
            q.ids <= p.ids && p.ids - q.ids == if path in p.cache then {p.cache[path]} else {}
  {
    var q := DeleteQuota(p, path, o).0;
    if path in p.cache {
      assert q.cache == p.cache - {path};
      forall v | v in p.ids - {p.cache[path]} ensures v in q.cache.Values {
        var k :| k in p.cache && p.cache[k] == v;
        assert k in q.cache && q.cache[k] == v;
      }
    }
  }

  /** Under the invariant the pool reports full exactly when `num` paths are cached. */
  lemma FullExactlyWhenNumCached(p: Provider)
    requires PoolInvariant(p)
    ensures |p.cache| <= p.num
    ensures Full(p.start, p.num, p.ids) <==> |p.cache| == p.num
  {
    InjectiveSize(p.cache);
    FullCount(p.start, p.num, p.ids);
  }

  lemma {:induction false} InjectiveSize(m: map<Path, ProjectId>)
    requires forall a, b :: a in m && b in m && m[a] == m[b] ==> a == b
    ensures |m.Values| == |m|
    decreases |m|
  {
    if m != map[] {
      var k :| k in m;
      var rest := m - {k};
      InjectiveSize(rest);
      assert |rest| == |m| - 1 by { assert rest.Keys == m.Keys - {k}; }
      forall v | v in m.Values - {m[k]} ensures v in rest.Values {
        var j :| j in m && m[j] == v;
        assert j in rest && rest[j] == v;
      }
      assert rest.Values == m.Values - {m[k]};
    } else {
      assert m.Values == {};
    }
  }

  /** The kernel, as the provider sees it through system calls. */
  class KernelState {
    var dirs: map<Path, ProjectId>
    var limits: map<(Device, ProjectId), nat>

    constructor (k: Kernel)
      ensures Value() == k
    {
      dirs, limits := k.dirs, k.limits;
    }

    function Value(): Kernel
      reads this
    {
      Kernel(dirs, limits)
    }

    method MkDir(path: Path, o: Outcome) returns (ok: bool)
      modifies this
      ensures ok == (path in old(dirs) || o.mkdir)
      ensures Value() == if ok && path !in old(dirs) then Kernel(old(dirs)[path := 0], old(limits)) else old(Value())
    {
      if path in dirs {
        return true;
      }
      if o.mkdir {
        dirs := dirs[path := 0];
      }
      return o.mkdir;
    }

    method GetProjectId(path: Path, o: Outcome) returns (r: Option<ProjectId>)
      ensures r == if o.getId && path in dirs then Some(dirs[path]) else None
    {
      return if o.getId && path in dirs then Some(dirs[path]) else None;
    }

    method SetProjectId(path: Path, id: ProjectId, o: Outcome) returns (ok: bool)
      modifies this
      ensures ok == (o.setId && path in old(dirs))
      ensures Value() == if ok then Kernel(old(dirs)[path := id], old(limits)) else old(Value())
    {
      ok := o.setId && path in dirs;
      if ok {
        dirs := dirs[path := id];
      }
    }

    /** Limits are stored in whole 512-byte blocks: the remainder is dropped. */
    method SetProjectLimit(dev: Device, id: ProjectId, hard: nat, o: Outcome) returns (ok: bool)
      modifies this
      ensures ok == o.setLimit
      ensures Value() == if ok then Kernel(old(dirs), old(limits)[(dev, id) := Blocks(hard)]) else old(Value())
    {
      ok := o.setLimit;
      if ok {
        limits := limits[(dev, id) := hard / BASIC_BLOCK_SIZE];
      }
    }

    method RemoveAll(path: Path, o: Outcome) returns (ok: bool)
      modifies this
      ensures ok == (path !in old(dirs) || o.remove)
      ensures Value() == if path in old(dirs) && o.remove then Kernel(old(dirs) - {path}, old(limits)) else old(Value())
    {
      if path !in dirs {
        return true;
      }
      if o.remove {
        dirs := dirs - {path};
      }
      return o.remove;
    }
  }

  class QuotaVolumeProvider {
    const projectIdAllocator: ProjectIDAllocator
    const kernel: KernelState
    var quotaPathAndId: map<Path, ProjectId>

    ghost predicate Valid()
      reads this, projectIdAllocator
    {
      projectIdAllocator.Valid()
    }

    ghost function Value(): Provider
      reads this, projectIdAllocator, kernel
    {
      Provider(projectIdAllocator.start, projectIdAllocator.num, projectIdAllocator.Ids(),
               quotaPathAndId, kernel.Value())
    }

    constructor (startId: nat, idNumber: nat, kernel: KernelState)
      requires startId + idNumber <= UINT32_COUNT
      ensures Valid() && fresh(projectIdAllocator) && this.kernel == kernel
      ensures Value() == Provider(startId, idNumber, {}, map[], kernel.Value())
    {
      projectIdAllocator := new ProjectIDAllocator(startId, idNumber);
      this.kernel := kernel;
      quotaPathAndId := map[];
    }

    method GetProjectQuota(quotaPath: Path, dev: Device, o: Outcome) returns (r: Option<Quota>)
      requires Valid()
      modifies this, projectIdAllocator
      ensures Valid()
      ensures (Value(), r) == GetQuota(old(Value()), quotaPath, dev, o)
    {
      if quotaPath in quotaPathAndId {
        return KernelQuota(kernel.Value(), dev, quotaPathAndId[quotaPath], o);
      }
      var id := kernel.GetProjectId(quotaPath, o);
      if id.None? {
        return None;
      }
      var taken := projectIdAllocator.Allocate(id.value);
      if !taken {
        return None;
      }
      quotaPathAndId := quotaPathAndId[quotaPath := id.value];
      return KernelQuota(kernel.Value(), dev, id.value, o);
    }

    /** `id` is the free project id the pool picked, if it picked one. The last block is the
        deferred rollback: it runs on every failure after the allocation. */
    method SetProjectQuota(quotaPath: Path, dev: Device, hardQuota: nat, o: Outcome)
      returns (ok: bool, ghost id: ProjectId)
      requires Valid()
      modifies this, projectIdAllocator, kernel
      ensures Valid()
      ensures ValidChoice(old(Value()), o.(freeId := id))
      ensures (Value(), ok) == SetQuota(old(Value()), quotaPath, dev, hardQuota, o.(freeId := id))
    {
      ghost var p := Value();
      id := PossibleId(p, o);
      if quotaPath in quotaPathAndId {
        return true, id;
      }
      var picked := projectIdAllocator.AllocateNext();
      if picked.None? {
        return false, id;
      }
      id := picked.value;
      ok := kernel.SetProjectId(quotaPath, picked.value, o);
      if ok {
        ok := kernel.SetProjectLimit(dev, picked.value, hardQuota, o);
        if ok {
          quotaPathAndId := quotaPathAndId[quotaPath := picked.value];
        }
      }
      if !ok {
        projectIdAllocator.Release(picked.value);
        quotaPathAndId := quotaPathAndId - {quotaPath};
        assert projectIdAllocator.Ids() == p.ids;
        assert quotaPathAndId == p.cache;
      }
    }

    method DeleteProjectQuota(quotaPath: Path, o: Outcome) returns (ok: bool)
      requires Valid()
      modifies this, projectIdAllocator, kernel
      ensures Valid()
      ensures (Value(), ok) == DeleteQuota(old(Value()), quotaPath, o)
    {
      if quotaPath in quotaPathAndId {
        projectIdAllocator.Release(quotaPathAndId[quotaPath]);
        quotaPathAndId := quotaPathAndId - {quotaPath};
      }
      ok := kernel.RemoveAll(quotaPath, o);
    }
  }
}

/** When a start succeeds, and what it then finds, whatever the runs before it left behind. */
module Starts {
  import opened Results
  import opened MapSums
  import opened ProjectIds
  import opened QuotaPaths
  import opened QuotaProvider
  import opened QuotaManager
  import opened Enforcement
  import opened Restart

  /** What a start needs of one directory: a name that can be parsed, system calls that
      succeed, a project id in range, and a limit under it. */
  ghost predicate Restorable(m: Manager, f: Found, o: Outcome) {
    && ParseVolume(f.path).Volume? && o.getId && o.getLimit
    && f.path in m.provider.kernel.dirs
    && InRange(m.provider.start, m.provider.num, m.provider.kernel.dirs[f.path])
    && (f.dev, m.provider.kernel.dirs[f.path]) in m.provider.kernel.limits
  }

  ghost predicate SharesId(m: Manager, a: Path, b: Path) {
    && a in m.provider.kernel.dirs && b in m.provider.kernel.dirs
    && m.provider.kernel.dirs[a] == m.provider.kernel.dirs[b]
  }

  ghost predicate AllRestorable(m: Manager, found: seq<Found>, o: Path -> Outcome) {
    && (forall f :: f in found ==> Restorable(m, f, o(f.path)))
    && (forall i, j :: 0 <= i < j < |found| ==> !SharesId(m, found[i].path, found[j].path))
  }

  ghost predicate PathsDiffer(found: seq<Found>) {
    forall i, j :: 0 <= i < j < |found| ==> found[i].path != found[j].path
  }

  function PathsOf(found: seq<Found>): set<Path> {
    set f | f in found :: f.path
  }

  /** After some directories the cache holds their ids, and the pool exactly these. */
  ghost predicate TakenUp(m: Manager, p: Provider, found: seq<Found>) {
    && p.start == m.provider.start && p.num == m.provider.num && p.kernel == m.provider.kernel
    && p.cache.Keys == PathsOf(found) && p.ids == p.cache.Values
    && (forall path :: path in p.cache ==> path in m.provider.kernel.dirs && p.cache[path] == m.provider.kernel.dirs[path])
  }

  lemma PathsOfOneMore(found: seq<Found>, f: Found)
    ensures PathsOf(found + [f]) == PathsOf(found) + {f.path}
  {
  }

  lemma IdIsTakenIff(m: Manager, p: Provider, found: seq<Found>, f: Found)
    requires TakenUp(m, p, found) && f.path in m.provider.kernel.dirs
    ensures m.provider.kernel.dirs[f.path] in p.ids <==> exists i :: 0 <= i < |found| && SharesId(m, found[i].path, f.path)
  {
    var id := m.provider.kernel.dirs[f.path];
    if id in p.ids {
      var path :| path in p.cache && p.cache[path] == id;
      assert path in PathsOf(found);
      var i :| 0 <= i < |found| && found[i].path == path;
      assert SharesId(m, found[i].path, f.path);
    }
    if i :| 0 <= i < |found| && SharesId(m, found[i].path, f.path) {
      assert found[i] in found && found[i].path in p.cache;
    }
  }

  /** One more directory is taken up exactly if it is restorable and its id not yet taken. */
  lemma RestoreOneIff(m: Manager, n: Manager, found: seq<Found>, f: Found, o: Outcome)
    requires TakenUp(m, n.provider, found) && f.dev in n.disks && f.path !in PathsOf(found)
    ensures RestoreOne(n, f, o).1 <==>
      Restorable(m, f, o) && forall i :: 0 <= i < |found| ==> !SharesId(m, found[i].path, f.path)
    ensures RestoreOne(n, f, o).1 ==> TakenUp(m, RestoreOne(n, f, o).0.provider, found + [f])
  {
    assert f.path !in n.provider.cache;
    PathsOfOneMore(found, f);
    if f.path in m.provider.kernel.dirs {
      IdIsTakenIff(m, n.provider, found, f);
      CachePut(n.provider.cache, f.path, GetQuota(n.provider, f.path, f.dev, o).0);
    }
  }

  lemma OneMoreRestorable(m: Manager, found: seq<Found>, o: Path -> Outcome)
    requires found != []
    ensures var k := |found| - 1;
            AllRestorable(m, found, o) <==>
              && AllRestorable(m, found[..k], o) && Restorable(m, found[k], o(found[k].path))
              && forall i :: 0 <= i < k ==> !SharesId(m, found[..k][i].path, found[k].path)
  {
    var k := |found| - 1;
    assert found == found[..k] + [found[k]];
    assert found[k] in found;
  }

  /** Exactly when the restore loop comes to its end, in any state whatever. */
  lemma {:induction false} RestoreSucceedsIff(m: Manager, found: seq<Found>, o: Path -> Outcome)
    requires forall f :: f in found ==> f.dev in m.disks
    requires PathsDiffer(found)
    ensures RestoreAll(Fresh(m), found, o).1 <==> AllRestorable(m, found, o)
    ensures RestoreAll(Fresh(m), found, o).1 ==> TakenUp(m, RestoreAll(Fresh(m), found, o).0.provider, found)
    decreases |found|
  {
    if found != [] {
      var k := |found| - 1;
      RestoreSucceedsIff(m, found[..k], o);
      OneMoreRestorable(m, found, o);
      var (n, ok) := RestoreAll(Fresh(m), found[..k], o);
      if ok {
        assert found[k] in found && found[k].path !in PathsOf(found[..k]);
        RestoreOneIff(m, n, found[..k], found[k], o(found[k].path));
        assert found == found[..k] + [found[k]];
      }
    } else {
      NothingTaken(m);
    }
  }

  lemma NothingTaken(m: Manager)
    ensures TakenUp(m, Fresh(m).provider, [])
  {
    assert PathsOf([]) == {};
    assert Fresh(m).provider.cache.Values == {};
  }

  // ---------- in no order ----------

  ghost predicate Listed(m: Manager, f: Found) {
    f.dev in m.disks && f.path in m.provider.kernel.dirs && IsSubDir(f.path, m.disks[f.dev].mountPoint)
  }

  /** A start can succeed exactly in these states, if the system calls do. */
  ghost predicate Startable(m: Manager) {
    && (forall f :: Listed(m, f) ==> Restorable(m, f, ALL_WELL))
    && (forall f, g :: Listed(m, f) && Listed(m, g) && f.path != g.path ==> !SharesId(m, f.path, g.path))
  }

  ghost predicate Answers(m: Manager, o: Path -> Outcome) {
    forall f :: Listed(m, f) ==> o(f.path).getId && o(f.path).getLimit
  }

  /** A directory lies directly below one mount point only. */
  lemma OneParent(path: Path, a: Path, b: Path)
    requires IsSubDir(path, a) && IsSubDir(path, b)
    ensures a == b
  {
    var x, y := |a|, |b|;
    assert forall i :: x < i < |path| ==> path[i] == path[x + 1..][i - x - 1];
    assert forall i :: y < i < |path| ==> path[i] == path[y + 1..][i - y - 1];
    assert x == y;
  }

  lemma ListedPathsDiffer(m: Manager, found: seq<Found>)
    requires MountsApart(m.disks) && Lists(m.disks, m.provider.kernel.dirs, found)
    ensures PathsDiffer(found)
  {
    forall i, j | 0 <= i < j < |found| ensures found[i].path != found[j].path {
      assert found[i] in found && found[j] in found;
      if found[i].path == found[j].path {
        OneParent(found[i].path, m.disks[found[i].dev].mountPoint, m.disks[found[j].dev].mountPoint);
      }
    }
  }

  lemma ListedIff(m: Manager, found: seq<Found>, f: Found)
    requires Lists(m.disks, m.provider.kernel.dirs, found)
    ensures f in found <==> Listed(m, f)
  {
  }

  lemma RestorableIsStartable(m: Manager, found: seq<Found>, o: Path -> Outcome)
    requires Lists(m.disks, m.provider.kernel.dirs, found) && AllRestorable(m, found, o)
    ensures Startable(m) && Answers(m, o)
  {
    forall f | Listed(m, f) ensures Restorable(m, f, o(f.path)) {
      ListedIff(m, found, f);
    }
    forall f, g | Listed(m, f) && Listed(m, g) && f.path != g.path ensures !SharesId(m, f.path, g.path) {
      ListedIff(m, found, f);
      ListedIff(m, found, g);
      var i :| 0 <= i < |found| && found[i] == f;
      var j :| 0 <= j < |found| && found[j] == g;
      assert if i < j then !SharesId(m, found[i].path, found[j].path) else !SharesId(m, found[j].path, found[i].path);
    }
  }

  lemma StartableIsRestorable(m: Manager, found: seq<Found>, o: Path -> Outcome)
    requires Lists(m.disks, m.provider.kernel.dirs, found) && PathsDiffer(found) && Startable(m) && Answers(m, o)
    ensures AllRestorable(m, found, o)
  {
    forall f | f in found ensures Restorable(m, f, o(f.path)) {
      ListedIff(m, found, f);
      assert Restorable(m, f, ALL_WELL);
    }
    forall i, j | 0 <= i < j < |found| ensures !SharesId(m, found[i].path, found[j].path) {
      ListedIff(m, found, found[i]);
      ListedIff(m, found, found[j]);
    }
  }

  /** Main result on starting: in every state, and in any order of enumeration, a start succeeds
      exactly if the system calls do, every directory is restorable and no two share an id. */
  lemma StartSucceedsIff(m: Manager, found: seq<Found>, o: Path -> Outcome)
    requires MountsApart(m.disks) && Lists(m.disks, m.provider.kernel.dirs, found)
    ensures RestoreAll(Fresh(m), found, o).1 <==> Startable(m) && Answers(m, o)
  {
    ListedPathsDiffer(m, found);
    RestoreSucceedsIff(m, found, o);
    if AllRestorable(m, found, o) {
      RestorableIsStartable(m, found, o);
    }
    if Startable(m) && Answers(m, o) {
      StartableIsRestorable(m, found, o);
    }
  }

  // ---------- what a start finds ----------

  function VolumeOf(f: Found): VolumeId {
    var v := ParseVolume(f.path);
    if v.Volume? then v.vol else ""
  }

  function BytesOf(m: Manager, f: Found): nat {
    if f.path in m.provider.kernel.dirs && (f.dev, m.provider.kernel.dirs[f.path]) in m.provider.kernel.limits then
      U64(m.provider.kernel.limits[(f.dev, m.provider.kernel.dirs[f.path])] * BASIC_BLOCK_SIZE)
    else 0
  }

  function RecordOf(m: Manager, f: Found, o: Outcome): PathQuota {
    PathQuota(f.path, f.dev, Quota(BytesOf(m, f), BytesOf(m, f), o.used))
  }

  ghost function BytesOn(m: Manager, found: seq<Found>, dev: Device): map<Path, nat> {
    map path | path in PathsOf(found) && Found(dev, path) in found :: BytesOf(m, Found(dev, path))
  }

  /** Of two directories with one volume the later one counts. */
  ghost predicate IsLast(found: seq<Found>, i: nat)
    requires i < |found|
  {
    forall j :: i < j < |found| ==> VolumeOf(found[j]) != VolumeOf(found[i])
  }

  ghost function VolumesOf(found: seq<Found>): set<VolumeId> {
    set f | f in found :: VolumeOf(f)
  }

  ghost predicate RecordsAre(m: Manager, found: seq<Found>, o: Path -> Outcome, quotas: map<VolumeId, PathQuota>) {
    && quotas.Keys == VolumesOf(found)
    && forall i {:trigger RecordIs(m, found, o, quotas, i)} :: 0 <= i < |found| ==> RecordIs(m, found, o, quotas, i)
  }

  ghost predicate RecordIs(m: Manager, found: seq<Found>, o: Path -> Outcome, quotas: map<VolumeId, PathQuota>, i: nat)
    requires i < |found|
  {
    var f := found[i];
    IsLast(found, i) ==> VolumeOf(f) in quotas && quotas[VolumeOf(f)] == RecordOf(m, f, o(f.path))
  }

  ghost predicate DisksAre(m: Manager, found: seq<Found>, disks: map<Device, Disk>) {
    && disks.Keys == m.disks.Keys
    && forall dev {:trigger DiskIs(m, found, disks, dev)} :: dev in m.disks ==> DiskIs(m, found, disks, dev)
  }

  ghost predicate DiskIs(m: Manager, found: seq<Found>, disks: map<Device, Disk>, dev: Device)
    requires dev in m.disks && disks.Keys == m.disks.Keys
  {
    disks[dev] == m.disks[dev].(quotaSize := U64(Sum(BytesOn(m, found, dev))), allocatable := m.disks[dev].capacity)
  }

  lemma StillLast(found: seq<Found>, f: Found, i: nat)
    requires i < |found| && IsLast(found + [f], i)
    ensures IsLast(found, i) && VolumeOf(f) != VolumeOf(found[i])
  {
    var next := found + [f];
    assert next[|found|] == f && next[i] == found[i];
    forall j | i < j < |found| ensures VolumeOf(found[j]) != VolumeOf(found[i]) {
      assert next[j] == found[j];
    }
  }

  lemma VolumesOfOneMore(found: seq<Found>, f: Found)
    ensures VolumesOf(found + [f]) == VolumesOf(found) + {VolumeOf(f)}
  {
    assert forall g :: g in found + [f] <==> g in found || g == f;
  }

  lemma RecordsOneMore(m: Manager, found: seq<Found>, f: Found, o: Path -> Outcome, quotas: map<VolumeId, PathQuota>,
                       now: map<VolumeId, PathQuota>)
    requires RecordsAre(m, found, o, quotas) && now == quotas[VolumeOf(f) := RecordOf(m, f, o(f.path))]
    ensures RecordsAre(m, found + [f], o, now)
  {
    var next := found + [f];
    VolumesOfOneMore(found, f);
    forall i | 0 <= i < |next| ensures RecordIs(m, next, o, now, i) {
      if i < |found| && IsLast(next, i) {
        StillLast(found, f, i);
        assert RecordIs(m, found, o, quotas, i);
      }
    }
  }

  lemma BytesOneMore(m: Manager, found: seq<Found>, f: Found, dev: Device)
    requires f.path !in PathsOf(found)
    ensures BytesOn(m, found + [f], dev) == if dev == f.dev then BytesOn(m, found, dev)[f.path := BytesOf(m, f)] else BytesOn(m, found, dev)
    ensures f.path !in BytesOn(m, found, dev)
  {
    PathsOfOneMore(found, f);
    assert forall g :: g in found + [f] <==> g in found || g == f;
    forall path | Found(dev, path) in found ensures path != f.path {
      assert Found(dev, path).path in PathsOf(found);
    }
  }

  lemma BytesTotal(m: Manager, found: seq<Found>, f: Found)
    requires f.path !in PathsOf(found)
    ensures Sum(BytesOn(m, found + [f], f.dev)) == Sum(BytesOn(m, found, f.dev)) + BytesOf(m, f)
  {
    BytesOneMore(m, found, f, f.dev);
    SumPut(BytesOn(m, found, f.dev), f.path, BytesOf(m, f));
  }

  lemma DisksOneMore(m: Manager, found: seq<Found>, f: Found, disks: map<Device, Disk>, now: map<Device, Disk>)
    requires DisksAre(m, found, disks) && f.dev in m.disks && f.path !in PathsOf(found)
    requires now == disks[f.dev := disks[f.dev].(quotaSize := U64(disks[f.dev].quotaSize + BytesOf(m, f)))]
    ensures DisksAre(m, found + [f], now)
  {
    BytesTotal(m, found, f);
    AddWrapped(Sum(BytesOn(m, found, f.dev)), BytesOf(m, f));
    assert DiskIs(m, found, disks, f.dev);
    forall dev | dev in m.disks ensures DiskIs(m, found + [f], now, dev) {
      if dev != f.dev {
        assert DiskIs(m, found, disks, dev);
        BytesOneMore(m, found, f, dev);
      }
    }
  }

  /** The state after a start that succeeds, said without the loop. */
  ghost predicate Rebuilt(m: Manager, found: seq<Found>, o: Path -> Outcome, n: Manager) {
    && TakenUp(m, n.provider, found) && RecordsAre(m, found, o, n.quotas) && DisksAre(m, found, n.disks) && n.grown == {}
  }

  lemma RestoreOneBooked(n: Manager, p: Manager, f: Found, o: Outcome)
    requires f.dev in n.disks && f.path !in n.provider.cache && n.provider.kernel == p.provider.kernel
    requires RestoreOne(n, f, o).1
    ensures var d := n.disks[f.dev];
            var r := RestoreOne(n, f, o).0;
            && r.disks == n.disks[f.dev := d.(quotaSize := U64(d.quotaSize + BytesOf(p, f)))]
            && r.quotas == n.quotas[VolumeOf(f) := RecordOf(p, f, o)] && r.grown == n.grown
  {
  }

  lemma TakenOneMore(m: Manager, n: Manager, found: seq<Found>, f: Found, o: Outcome)
    requires TakenUp(m, n.provider, found) && f.dev in n.disks && f.path !in PathsOf(found)
    requires RestoreOne(n, f, o).1
    ensures TakenUp(m, RestoreOne(n, f, o).0.provider, found + [f])
  {
    RestoreOneIff(m, n, found, f, o);
  }

  lemma BookedOneMore(m: Manager, n: Manager, found: seq<Found>, f: Found, o: Path -> Outcome)
    requires RecordsAre(m, found, o, n.quotas) && DisksAre(m, found, n.disks)
    requires f.dev in m.disks && f.path !in PathsOf(found)
    requires f.path !in n.provider.cache && n.provider.kernel == m.provider.kernel
    requires RestoreOne(n, f, o(f.path)).1
    ensures var r := RestoreOne(n, f, o(f.path)).0;
            RecordsAre(m, found + [f], o, r.quotas) && DisksAre(m, found + [f], r.disks) && r.grown == n.grown
  {
    RestoreOneBooked(n, m, f, o(f.path));
    var r := RestoreOne(n, f, o(f.path)).0;
    RecordsOneMore(m, found, f, o, n.quotas, r.quotas);
    DisksOneMore(m, found, f, n.disks, r.disks);
  }

  lemma FoundOneMore(m: Manager, n: Manager, found: seq<Found>, f: Found, o: Path -> Outcome)
    requires Rebuilt(m, found, o, n) && f.dev in m.disks && f.path !in PathsOf(found)
    requires RestoreOne(n, f, o(f.path)).1
    ensures Rebuilt(m, found + [f], o, RestoreOne(n, f, o(f.path)).0)
  {
    TakenOneMore(m, n, found, f, o(f.path));
    BookedOneMore(m, n, found, f, o);
  }

  lemma LastPathIsNew(found: seq<Found>)
    requires found != [] && PathsDiffer(found)
    ensures var before, f := found[..|found| - 1], found[|found| - 1];
            found == before + [f] && f.path !in PathsOf(before) && PathsDiffer(before)
  {
  }

  /** What a start that succeeds finds, in any state whatever: each directory's volume with its
      limit, each disk with the sum of its directories' limits, their ids in cache and pool. */
  lemma {:induction false} StartFinds(m: Manager, found: seq<Found>, o: Path -> Outcome)
    requires forall f :: f in found ==> f.dev in m.disks
    requires PathsDiffer(found) && RestoreAll(Fresh(m), found, o).1
    ensures Rebuilt(m, found, o, RestoreAll(Fresh(m), found, o).0)
    decreases |found|
  {
    if found == [] {
      NothingFound(m, o);
    } else {
      var before, f := found[..|found| - 1], found[|found| - 1];
      LastPathIsNew(found);
      RestoreAllLast(Fresh(m), found, o);
      StartFinds(m, before, o);
      FoundOneMore(m, RestoreAll(Fresh(m), before, o).0, before, f, o);
    }
  }

  lemma NothingFound(m: Manager, o: Path -> Outcome)
    ensures Rebuilt(m, [], o, Fresh(m))
  {
    NothingTaken(m);
    forall dev | dev in m.disks ensures DiskIs(m, [], Fresh(m).disks, dev) {
      assert BytesOn(m, [], dev) == map[];
    }
  }

  // ---------- after runs ----------

  lemma StepKeepsMounts(m: Manager, s: Step)
    requires Possible(m, s)
    ensures SameMounts(m.disks, Apply(m, s).disks)
  {
  }

  lemma {:induction false} RunKeepsMounts(m: Manager, steps: seq<Step>)
    requires MountsApart(m.disks) && PossibleRun(m, steps)
    ensures MountsApart(Run(m, steps).disks)
    decreases |steps|
  {
    if steps != [] {
      StepKeepsMounts(m, steps[0]);
      MountsStayApart(m.disks, Apply(m, steps[0]).disks);
      RunKeepsMounts(Apply(m, steps[0]), steps[1..]);
    }
  }

  /** Where nothing failed to be removed, a start depends on the system calls alone. */
  lemma EnforcedIsStartable(m: Manager)
    requires Enforced(m) && forall v :: v in m.quotas ==> '/' !in v
    ensures Startable(m)
  {
    forall f | Listed(m, f) ensures Restorable(m, f, ALL_WELL) {
      var vol := FoundVolume(m, f);
      assert Managed(m, vol);
    }
    forall f, g | Listed(m, f) && Listed(m, g) && f.path != g.path ensures !SharesId(m, f.path, g.path) {
      assert f.path in m.provider.cache && g.path in m.provider.cache;
      var v := FoundVolume(m, f);
      var w := FoundVolume(m, g);
      assert Managed(m, v) && Managed(m, w);
    }
  }

  /** Restart after every run, whatever fails in it: when a start succeeds, and what it finds.
      After a run in which every directory could be removed it is the state `Restored`. */
  lemma RestartAfterRun(m: Manager, steps: seq<Step>, found: seq<Found>, o: Path -> Outcome)
    requires MountsApart(m.disks) && PossibleRun(m, steps)
    requires Lists(Run(m, steps).disks, Run(m, steps).provider.kernel.dirs, found)
    ensures var n := Run(m, steps);
            var (r, ok) := RestoreAll(Fresh(n), found, o);
            && (ok <==> Startable(n) && Answers(n, o))
            && (ok ==> Rebuilt(n, found, o, r))
            && (Enforced(m) && (forall s :: s in steps ==> Removable(s)) && (forall v :: v in n.quotas ==> '/' !in v) ==>
                  Enforced(n) && (ok <==> Answers(n, o)) && (ok ==> r == Restored(n, o)))
  {
    var n := Run(m, steps);
    RunKeepsMounts(m, steps);
    StartSucceedsIff(n, found, o);
    ListedPathsDiffer(n, found);
    if RestoreAll(Fresh(n), found, o).1 {
      StartFinds(n, found, o);
    }
    if Enforced(m) && (forall s :: s in steps ==> Removable(s)) && forall v :: v in n.quotas ==> '/' !in v {
      RunEnforces(m, steps);
      EnforcedStart(n, found, o);
    }
  }

  lemma EnforcedStart(n: Manager, found: seq<Found>, o: Path -> Outcome)
    requires Enforced(n) && Lists(n.disks, n.provider.kernel.dirs, found) && forall v :: v in n.quotas ==> '/' !in v
    ensures RestoreAll(Fresh(n), found, o).1 <==> Answers(n, o)
    ensures Answers(n, o) ==> RestoreAll(Fresh(n), found, o) == (Restored(n, o), true)
  {
    EnforcedIsStartable(n);
    StartSucceedsIff(n, found, o);
    if Answers(n, o) {
      forall path | path in n.provider.kernel.dirs ensures o(path).getId && o(path).getLimit {
        DirectoryIsListed(n, path);
      }
      RestartRefines(n, found, o);
    }
  }

  lemma DirectoryIsListed(n: Manager, path: Path)
    requires Enforced(n) && path in n.provider.kernel.dirs && forall v :: v in n.quotas ==> '/' !in v
    ensures exists dev :: Listed(n, Found(dev, path))
  {
    assert Owned(n, path);
    var v :| v in n.quotas && n.quotas[v].path == path;
    assert Managed(n, v);
    QuotaPathSubDir(n.disks[n.quotas[v].device].mountPoint, v, n.disks[n.quotas[v].device].mountPoint);
    assert Listed(n, Found(n.quotas[v].device, path));
  }

  // ---------- which failures keep a node from starting ----------

  /** The project id that a failed publish leaves on the directory it could not remove: the id
      it had allocated, if it came so far, and none otherwise. */
  ghost function LeftoverId(m: Manager, o: Outcome): ProjectId {
    if o.setId && !Full(m.provider.start, m.provider.num, m.provider.ids) then o.freeId else 0
  }

  /** One directory more, with this id, and nothing else. */
  ghost predicate LeftOver(m: Manager, n: Manager, dev: Device, path: Path, id: ProjectId) {
    n == m.(provider := m.provider.(kernel := m.provider.kernel.(dirs := m.provider.kernel.dirs[path := id])))
    && dev in m.disks && path !in m.provider.kernel.dirs
  }

  lemma FailedPublishLeavesOver(m: Manager, vol: VolumeId, capacity: int, dev: Device, o: Outcome)
    requires Enforced(m) && Possible(m, PublishStep(vol, capacity, dev, o)) && Fits(m.disks, U64(capacity))
    requires Publish(m, vol, capacity, dev, o).1.Err? && o.mkdir && !o.remove
    ensures dev in m.disks
    ensures LeftOver(m, Publish(m, vol, capacity, dev, o).0, dev, QuotaPath(m.disks[dev].mountPoint, vol), LeftoverId(m, o))
  {
    NewPathIsFree(m, vol, dev);
    PutAndRemove(m.provider.kernel.dirs, QuotaPath(m.disks[dev].mountPoint, vol), o.freeId);
  }

  ghost predicate UsableId(m: Manager, dev: Device, id: ProjectId) {
    InRange(m.provider.start, m.provider.num, id) && id !in m.provider.ids && (dev, id) in m.provider.kernel.limits
  }

  lemma LeftoverListed(m: Manager, n: Manager, dev: Device, vol: VolumeId, id: ProjectId, f: Found)
    requires MountsApart(m.disks) && dev in m.disks && '/' !in vol
    requires LeftOver(m, n, dev, QuotaPath(m.disks[dev].mountPoint, vol), id)
    ensures Listed(n, f) <==> Listed(m, f) || f == Found(dev, QuotaPath(m.disks[dev].mountPoint, vol))
  {
    if f.dev in m.disks {
      QuotaPathSubDir(m.disks[dev].mountPoint, vol, m.disks[f.dev].mountPoint);
    }
  }

  /** An id is allocated exactly if a listed directory carries it. */
  lemma AllocatedIffListed(m: Manager, id: ProjectId)
    requires Enforced(m) && forall v :: v in m.quotas ==> '/' !in v
    ensures id in m.provider.ids <==> exists f :: Listed(m, f) && m.provider.kernel.dirs[f.path] == id
  {
    if id in m.provider.ids {
      var path :| path in m.provider.cache && m.provider.cache[path] == id;
      assert Owned(m, path);
      var v :| v in m.quotas && m.quotas[v].path == path;
      assert Managed(m, v);
      DirectoryIsListed(m, path);
    }
    if f :| Listed(m, f) && m.provider.kernel.dirs[f.path] == id {
      var v := FoundVolume(m, f);
      assert m.provider.cache[f.path] == id;
    }
  }

  lemma LeftoverStartsIff(m: Manager, n: Manager, dev: Device, vol: VolumeId, id: ProjectId)
    requires Enforced(m) && (forall v :: v in m.quotas ==> '/' !in v) && dev in m.disks && '/' !in vol
    requires LeftOver(m, n, dev, QuotaPath(m.disks[dev].mountPoint, vol), id)
    ensures Startable(n) <==> UsableId(m, dev, id)
  {
    var path := QuotaPath(m.disks[dev].mountPoint, vol);
    var left := Found(dev, path);
    ParseQuotaPath(m.disks[dev].mountPoint, vol);
    EnforcedIsStartable(m);
    AllocatedIffListed(m, id);
    LeftoverListed(m, n, dev, vol, id, left);
    if UsableId(m, dev, id) {
      LeftoverUsable(m, n, dev, vol, id);
    }
    if Startable(n) {
      assert Restorable(n, left, ALL_WELL);
      forall f | Listed(m, f) ensures m.provider.kernel.dirs[f.path] != id {
        LeftoverListed(m, n, dev, vol, id, f);
        assert !SharesId(n, f.path, left.path);
      }
    }
  }

  lemma LeftoverUsable(m: Manager, n: Manager, dev: Device, vol: VolumeId, id: ProjectId)
    requires Enforced(m) && (forall v :: v in m.quotas ==> '/' !in v) && dev in m.disks && '/' !in vol
    requires LeftOver(m, n, dev, QuotaPath(m.disks[dev].mountPoint, vol), id) && UsableId(m, dev, id)
    ensures Startable(n)
  {
    var path := QuotaPath(m.disks[dev].mountPoint, vol);
    ParseQuotaPath(m.disks[dev].mountPoint, vol);
    EnforcedIsStartable(m);
    AllocatedIffListed(m, id);
    forall f | Listed(n, f) ensures Restorable(n, f, ALL_WELL) {
      LeftoverListed(m, n, dev, vol, id, f);
      assert Listed(m, f) ==> Restorable(m, f, ALL_WELL);
    }
    forall f, g | Listed(n, f) && Listed(n, g) && f.path != g.path ensures !SharesId(n, f.path, g.path) {
      LeftoverListed(m, n, dev, vol, id, f);
      LeftoverListed(m, n, dev, vol, id, g);
      assert Listed(m, f) && Listed(m, g) ==> !SharesId(m, f.path, g.path);
    }
  }

  /** Exactly when a publish that failed, and could not remove its directory again, lets the
      node start: if the id it left on the directory is one that the pool can take up, and the
      kernel has some limit under it. */
  lemma FailedPublishStartsIff(m: Manager, vol: VolumeId, capacity: int, dev: Device, o: Outcome)
    requires Enforced(m) && (forall v :: v in m.quotas ==> '/' !in v) && '/' !in vol
    requires Possible(m, PublishStep(vol, capacity, dev, o)) && Fits(m.disks, U64(capacity))
    requires Publish(m, vol, capacity, dev, o).1.Err? && o.mkdir && !o.remove
    ensures Startable(Publish(m, vol, capacity, dev, o).0) <==> UsableId(m, dev, LeftoverId(m, o))
  {
    FailedPublishLeavesOver(m, vol, capacity, dev, o);
    LeftoverStartsIff(m, Publish(m, vol, capacity, dev, o).0, dev, vol, LeftoverId(m, o));
  }

  /** A run that ends there: the first publish cannot set the project id, nor remove the
      directory it made. The node never starts again, in whatever order the directories are
      listed and whatever the system calls do. */
  lemma NeverStartsAgain(mountPoint: Path, capacity: nat, vol: VolumeId) returns (m: Manager)
    requires CleanMount(mountPoint) && 1 <= capacity < UINT64_COUNT && '/' !in vol
    ensures var step := PublishStep(vol, capacity, "disk", ALL_WELL.(setId := false, remove := false));
            PossibleRun(OneDisk(mountPoint, capacity), [step]) && m == Run(OneDisk(mountPoint, capacity), [step])
    ensures Lists(m.disks, m.provider.kernel.dirs, [Found("disk", QuotaPath(mountPoint, vol))])
    ensures forall found, o :: Lists(m.disks, m.provider.kernel.dirs, found) ==> !RestoreAll(Fresh(m), found, o).1
  {
    var start := OneDisk(mountPoint, capacity);
    var o := ALL_WELL.(setId := false, remove := false);
    var step := PublishStep(vol, capacity, "disk", o);
    OneDiskStarts(mountPoint, capacity);
    assert InRange(PROJECT_ID_START, PROJECT_ID_NUM, PROJECT_ID_START);
    assert WorstFit(start.disks, capacity, "disk");
    m := Apply(start, step);
    FailedPublishLeavesOver(start, vol, capacity, "disk", o);
    FailedPublishStartsIff(start, vol, capacity, "disk", o);
    assert [step][1..] == [];
    assert PossibleRun(m, []) && Run(m, []) == m;
    LeftoverIsListed(m, mountPoint, vol);
    forall found, o: Path -> Outcome | Lists(m.disks, m.provider.kernel.dirs, found) ensures !RestoreAll(Fresh(m), found, o).1 {
      StartSucceedsIff(m, found, o);
    }
  }

  /** There is a listing: the one directory. */
  lemma LeftoverIsListed(m: Manager, mountPoint: Path, vol: VolumeId)
    requires m.disks.Keys == {"disk"} && m.disks["disk"].mountPoint == mountPoint && '/' !in vol
    requires m.provider.kernel.dirs.Keys == {QuotaPath(mountPoint, vol)}
    ensures Lists(m.disks, m.provider.kernel.dirs, [Found("disk", QuotaPath(mountPoint, vol))])
  {
    var f := Found("disk", QuotaPath(mountPoint, vol));
    QuotaPathSubDir(mountPoint, vol, mountPoint);
    assert [f][0] == f;
  }

  /** Two directories with one id keep the node from starting. After a directory could not be
      removed and its id went to another volume, that is the case. */
  lemma SharedIdNeverStarts(m: Manager, vol: VolumeId, o: Outcome, other: VolumeId, capacity: int, dev: Device, o': Outcome)
    requires Enforced(m) && vol in m.quotas && !o.remove && other !in m.quotas
    requires '/' !in vol && '/' !in other
    requires WorstFit(m.disks, U64(capacity), dev) && o'.mkdir && o'.setId && o'.setLimit
    ensures Managed(m, vol)
    ensures var choice := o'.(freeId := m.provider.cache[m.quotas[vol].path]);
            var freed := Release(m, vol, o).0;
            && Possible(freed, PublishStep(other, capacity, dev, choice))
            && !Startable(Publish(freed, other, capacity, dev, choice).0)
  {
    FailedRemovalSharesAnId(m, vol, o, other, capacity, dev, o');
    assert Managed(m, vol);
    var choice := o'.(freeId := m.provider.cache[m.quotas[vol].path]);
    var step := PublishStep(other, capacity, dev, choice);
    var freed := Release(m, vol, o).0;
    var n := Apply(freed, step);
    StepKeepsMounts(freed, step);
    var first, second := Found(m.quotas[vol].device, n.quotas[vol].path), Found(dev, n.quotas[other].path);
    QuotaPathSubDir(m.disks[first.dev].mountPoint, vol, m.disks[first.dev].mountPoint);
    QuotaPathSubDir(m.disks[dev].mountPoint, other, m.disks[dev].mountPoint);
    assert Listed(n, first) && Listed(n, second) && SharesId(n, first.path, second.path);
  }

  /** Until then a restart mends it: the volume whose directory could not be removed is found
      again, with its id. */
  lemma RestartMendsFailedRelease(m: Manager, vol: VolumeId, o: Outcome, found: seq<Found>, o': Path -> Outcome)
    requires Enforced(m) && vol in m.quotas && !o.remove && forall v :: v in m.quotas ==> '/' !in v
    requires Lists(m.disks, m.provider.kernel.dirs, found) && Answers(m, o')
    ensures Fresh(Release(m, vol, o).0) == Fresh(m)
    ensures RestoreAll(Fresh(Release(m, vol, o).0), found, o') == (Restored(m, o'), true)
  {
    assert Managed(m, vol);
    EnforcedStart(m, found, o');
  }
}

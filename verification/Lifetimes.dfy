/** Whole histories: calls of the quota manager, and starts of its process that may fail. */
module Lifetimes {
  import opened MapSums
  import opened ProjectIds
  import opened QuotaPaths
  import opened QuotaProvider
  import opened QuotaManager
  import opened Conservation
  import opened Enforcement
  import opened QuotaOutcomes
  import opened Restart
  import opened Starts

  /** The quota manager's process. When a start fails, every later call is refused until one
      succeeds; `m` is then what the last process that ran left behind. */
  datatype Process = Process(m: Manager, up: bool)

  /** A start lists the directories of the disks that can be read. */
  datatype Event = Call(s: Step) | Start(found: seq<Found>, o: Path -> Outcome, readable: Device -> bool)

  ghost predicate PossibleEvent(p: Process, e: Event) {
    match e
    case Call(s) => p.up ==> Possible(p.m, s)
    case Start(found, _, readable) => Lists(ReadableDisks(p.m.disks, readable), p.m.provider.kernel.dirs, found)
  }

  ghost function After(p: Process, e: Event): Process
    requires PossibleEvent(p, e)
  {
    match e
    case Call(s) => if p.up then Process(Apply(p.m, s), true) else p
    case Start(found, o, _) =>
      var (n, ok) := RestoreAll(Fresh(p.m), found, o);
      if ok then Process(n, true) else Process(p.m, false)
  }

  ghost predicate PossibleHistory(p: Process, events: seq<Event>)
    decreases |events|
  {
    events == [] || (PossibleEvent(p, events[0]) && PossibleHistory(After(p, events[0]), events[1..]))
  }

  ghost function History(p: Process, events: seq<Event>): Process
    requires PossibleHistory(p, events)
    decreases |events|
  {
    if events == [] then p else History(After(p, events[0]), events[1..])
  }

  // ---------- what holds whatever fails ----------

  lemma {:induction false} RestoreKeepsPool(m: Manager, found: seq<Found>, o: Path -> Outcome)
    requires forall f :: f in found ==> f.dev in m.disks
    ensures PoolInvariant(RestoreAll(Fresh(m), found, o).0.provider)
    decreases |found|
  {
    if found == [] {
      assert Fresh(m).provider.cache.Values == {};
    } else {
      var k := |found| - 1;
      RestoreKeepsPool(m, found[..k], o);
      assert found[k] in found;
      var n := RestoreAll(Fresh(m), found[..k], o).0;
      GetKeepsPool(n.provider, found[k].path, found[k].dev, o(found[k].path));
    }
  }

  /** In every history, whatever fails in it and however many starts fail, the ids a process
      holds are the image of an injective cache, within the range. */
  lemma {:induction false} HistoryKeepsPool(p: Process, events: seq<Event>)
    requires PoolInvariant(p.m.provider) && PossibleHistory(p, events)
    ensures PoolInvariant(History(p, events).m.provider)
    decreases |events|
  {
    if events != [] {
      match events[0] {
        case Call(s) =>
          if p.up {
            StepKeepsPool(p.m, s);
          }
        case Start(found, o, _) =>
          RestoreKeepsPool(p.m, found, o);
      }
      HistoryKeepsPool(After(p, events[0]), events[1..]);
    }
  }

  /** Once a start can no longer succeed, nothing changes any more, as long as every mount point
      can be read: calls are refused and starts fail. */
  lemma {:induction false} DownForGood(p: Process, events: seq<Event>)
    requires !p.up && MountsApart(p.m.disks) && !Startable(p.m) && PossibleHistory(p, events)
    requires forall e :: e in events ==> ReadsAll(e)
    ensures History(p, events) == p
    decreases |events|
  {
    if events != [] {
      var e := events[0];
      assert e in events;
      if e.Start? {
        AllReadable(p.m.disks, e.readable);
        StartSucceedsIff(p.m, e.found, e.o);
      }
      DownForGood(p, events[1..]);
    }
  }

  ghost predicate ReadsAll(e: Event) {
    e.Start? ==> forall dev :: e.readable(dev)
  }

  lemma AllReadable(disks: map<Device, Disk>, readable: Device -> bool)
    requires forall dev :: readable(dev)
    ensures ReadableDisks(disks, readable) == disks
  {
  }

  // ---------- what holds where directories can be removed and read ----------

  /** System calls may fail, and starts with them, but every directory can be removed and every
      mount point be read, and new volumes have at least one block and no slash in their id. */
  ghost predicate Careful(e: Event) {
    match e
    case Call(s) => Removable(s) && (s.PublishStep? ==> '/' !in s.vol)
    case Start(_, _, readable) => forall dev :: readable(dev)
  }

  ghost predicate NoSlashes(vols: set<VolumeId>) {
    forall v :: v in vols ==> '/' !in v
  }

  lemma RestoredEnforced(m: Manager, o: Path -> Outcome)
    requires Enforced(m)
    ensures Enforced(Restored(m, o))
  {
    var n := Restored(m, o);
    forall v | v in n.quotas ensures Managed(n, v) {
      assert Managed(m, v);
    }
    forall path | path in n.provider.cache ensures Owned(n, path) {
      assert Owned(m, path);
      var v :| v in m.quotas && m.quotas[v].path == path;
      assert n.quotas[v].path == path;
    }
  }

  ghost predicate Sound(p: Process) {
    Enforced(p.m) && NoSlashes(p.m.quotas.Keys)
  }

  /** A start succeeds exactly if the system calls do, and ends in the state `Restored`. */
  lemma SoundStart(p: Process, e: Event)
    requires Sound(p) && e.Start? && PossibleEvent(p, e) && Careful(e)
    ensures After(p, e) == if Answers(p.m, e.o) then Process(Restored(p.m, e.o), true) else Process(p.m, false)
  {
    AllReadable(p.m.disks, e.readable);
    EnforcedStart(p.m, e.found, e.o);
  }

  lemma EventKeepsSound(p: Process, e: Event)
    requires Sound(p) && PossibleEvent(p, e) && Careful(e)
    ensures Sound(After(p, e))
  {
    match e
    case Call(s) =>
      if p.up {
        StepEnforces(p.m, s);
      }
    case Start(_, o, _) =>
      SoundStart(p, e);
      RestoredEnforced(p.m, o);
  }

  /** Main result over whole histories: through any number of starts, failed ones among them,
      in any order of enumeration, every managed directory has its own project id and a limit of
      at most the recorded quota, and the pool of ids is exact. */
  lemma {:induction false} HistoryEnforces(p: Process, events: seq<Event>)
    requires Sound(p) && PossibleHistory(p, events) && forall e :: e in events ==> Careful(e)
    ensures Sound(History(p, events))
    decreases |events|
  {
    if events != [] {
      EventKeepsSound(p, events[0]);
      HistoryEnforces(After(p, events[0]), events[1..]);
    }
  }

  // ---------- a start that could not read every mount point ----------

  lemma ReadablePathsDiffer(m: Manager, found: seq<Found>, readable: Device -> bool)
    requires MountsApart(m.disks) && Lists(ReadableDisks(m.disks, readable), m.provider.kernel.dirs, found)
    ensures PathsDiffer(found)
  {
    ListedPathsDiffer(m.(disks := ReadableDisks(m.disks, readable)), found);
  }

  /** A directory on a disk that cannot be read is found nowhere. */
  lemma UnreadableNotFound(m: Manager, found: seq<Found>, readable: Device -> bool, vol: VolumeId)
    requires Enforced(m) && NoSlashes(m.quotas.Keys)
    requires Lists(ReadableDisks(m.disks, readable), m.provider.kernel.dirs, found)
    requires vol in m.quotas && !readable(m.quotas[vol].device)
    ensures m.quotas[vol].path !in PathsOf(found)
  {
    if m.quotas[vol].path in PathsOf(found) {
      var f :| f in found && f.path == m.quotas[vol].path;
      var v := FoundVolume(m, f);
      PathsApart(m, v, vol);
    }
  }

  lemma ReadsEverything(m: Manager, found: seq<Found>, readable: Device -> bool)
    requires Enforced(m) && NoSlashes(m.quotas.Keys)
    requires Lists(ReadableDisks(m.disks, readable), m.provider.kernel.dirs, found)
    requires forall v :: v in m.quotas ==> readable(m.quotas[v].device)
    ensures Lists(m.disks, m.provider.kernel.dirs, found)
  {
    forall dev, path | dev in m.disks && path in m.provider.kernel.dirs && IsSubDir(path, m.disks[dev].mountPoint)
      ensures Found(dev, path) in found
    {
      var v := FoundVolume(m, Found(dev, path));
    }
  }

  /** Exactly when such a start leaves every directory managed: if nothing lay on a disk that
      could not be read. */
  lemma PartialStartEnforcedIff(m: Manager, found: seq<Found>, o: Path -> Outcome, readable: Device -> bool)
    requires Enforced(m) && NoSlashes(m.quotas.Keys)
    requires forall path :: path in m.provider.kernel.dirs ==> o(path).getId && o(path).getLimit
    requires Lists(ReadableDisks(m.disks, readable), m.provider.kernel.dirs, found)
    ensures RestoreAll(Fresh(m), found, o).1
    ensures Enforced(RestoreAll(Fresh(m), found, o).0) <==> forall v :: v in m.quotas ==> readable(m.quotas[v].device)
  {
    UnreadableDisksAreForgotten(m, found, o, readable);
    if v :| v in m.quotas && !readable(m.quotas[v].device) {
      ForgottenIsUnmanaged(m, found, o, readable, v);
    } else {
      ReadsEverything(m, found, readable);
      RestartRefines(m, found, o);
      RestoredEnforced(m, o);
    }
  }

  ghost predicate Forgotten(m: Manager, n: Manager, vol: VolumeId)
    requires vol in m.quotas && Managed(m, vol)
  {
    var path := m.quotas[vol].path;
    && n.provider.kernel == m.provider.kernel && n.provider.start == m.provider.start && n.provider.num == m.provider.num
    && path in n.provider.kernel.dirs && path !in n.provider.cache && m.provider.cache[path] !in n.provider.ids
  }

  lemma NotTakenIsForgotten(m: Manager, n: Manager, found: seq<Found>, vol: VolumeId)
    requires Enforced(m) && vol in m.quotas && TakenUp(m, n.provider, found) && m.quotas[vol].path !in PathsOf(found)
    ensures Managed(m, vol) && Forgotten(m, n, vol)
  {
    assert Managed(m, vol);
    var id := m.provider.cache[m.quotas[vol].path];
    forall path | path in n.provider.cache ensures n.provider.cache[path] != id {
      DirectoryIsCached(m, path);
    }
  }

  lemma DirectoryIsCached(m: Manager, path: Path)
    requires Enforced(m) && path in m.provider.kernel.dirs
    ensures path in m.provider.cache && m.provider.cache[path] == m.provider.kernel.dirs[path]
  {
    assert Owned(m, path);
    var v :| v in m.quotas && m.quotas[v].path == path;
    assert Managed(m, v);
  }

  /** A forgotten directory stays where it is, and its id is free again. */
  lemma ForgottenIsUnmanaged(m: Manager, found: seq<Found>, o: Path -> Outcome, readable: Device -> bool, vol: VolumeId)
    requires Enforced(m) && NoSlashes(m.quotas.Keys)
    requires Lists(ReadableDisks(m.disks, readable), m.provider.kernel.dirs, found) && RestoreAll(Fresh(m), found, o).1
    requires vol in m.quotas && !readable(m.quotas[vol].device)
    ensures var n := RestoreAll(Fresh(m), found, o).0;
            Managed(m, vol) && Forgotten(m, n, vol) && !Enforced(n)
  {
    ReadablePathsDiffer(m, found, readable);
    RestoreSucceedsIff(m, found, o);
    UnreadableNotFound(m, found, readable, vol);
    NotTakenIsForgotten(m, RestoreAll(Fresh(m), found, o).0, found, vol);
  }

  lemma StartKeepsMounts(m: Manager, found: seq<Found>, o: Path -> Outcome, readable: Device -> bool)
    requires MountsApart(m.disks) && Lists(ReadableDisks(m.disks, readable), m.provider.kernel.dirs, found)
    requires RestoreAll(Fresh(m), found, o).1
    ensures var n := RestoreAll(Fresh(m), found, o).0;
            SameMounts(m.disks, n.disks) && n.provider.cache.Keys <= m.provider.kernel.dirs.Keys
  {
    ReadablePathsDiffer(m, found, readable);
    StartFinds(m, found, o);
    var n := RestoreAll(Fresh(m), found, o).0;
    forall dev | dev in m.disks ensures n.disks[dev].mountPoint == m.disks[dev].mountPoint {
      assert DiskIs(m, found, n.disks, dev);
    }
  }

  /** So a later publish may be given it, and then no start that can read every mount point
      succeeds any more. */
  lemma ForgottenIdIsShared(m: Manager, found: seq<Found>, o: Path -> Outcome, readable: Device -> bool, vol: VolumeId,
                            other: VolumeId, capacity: int, dev: Device, o': Outcome)
    requires Enforced(m) && NoSlashes(m.quotas.Keys)
    requires Lists(ReadableDisks(m.disks, readable), m.provider.kernel.dirs, found) && RestoreAll(Fresh(m), found, o).1
    requires vol in m.quotas && !readable(m.quotas[vol].device)
    requires other !in m.quotas && other !in RestoreAll(Fresh(m), found, o).0.quotas && '/' !in other
    requires WorstFit(RestoreAll(Fresh(m), found, o).0.disks, U64(capacity), dev) && o'.mkdir && o'.setId && o'.setLimit
    ensures Managed(m, vol)
    ensures var n := RestoreAll(Fresh(m), found, o).0;
            var choice := o'.(freeId := m.provider.cache[m.quotas[vol].path]);
            var (p, r) := Publish(n, other, capacity, dev, choice);
            && Possible(n, PublishStep(other, capacity, dev, choice)) && r.Ok? && r.value != m.quotas[vol].path
            && SharesId(p, r.value, m.quotas[vol].path) && !Startable(p)
  {
    var n := RestoreAll(Fresh(m), found, o).0;
    ForgottenIsUnmanaged(m, found, o, readable, vol);
    StartKeepsMounts(m, found, o, readable);
    NewPathIsFree(m, other, dev);
    GivenTheForgottenId(m, n, vol, other, capacity, dev, o');
  }

  lemma GivenTheForgottenId(m: Manager, n: Manager, vol: VolumeId, other: VolumeId, capacity: int, dev: Device, o: Outcome)
    requires Enforced(m) && NoSlashes(m.quotas.Keys) && vol in m.quotas && Managed(m, vol) && SameMounts(m.disks, n.disks)
    requires Forgotten(m, n, vol)
    requires other !in n.quotas && '/' !in other && WorstFit(n.disks, U64(capacity), dev)
    requires var path := QuotaPath(n.disks[dev].mountPoint, other);
             path !in n.provider.kernel.dirs && path !in n.provider.cache
    requires o.mkdir && o.setId && o.setLimit
    ensures var choice := o.(freeId := m.provider.cache[m.quotas[vol].path]);
            var (p, r) := Publish(n, other, capacity, dev, choice);
            && Possible(n, PublishStep(other, capacity, dev, choice)) && r.Ok? && r.value != m.quotas[vol].path
            && SharesId(p, r.value, m.quotas[vol].path) && !Startable(p)
  {
    var id := m.provider.cache[m.quotas[vol].path];
    assert InRange(m.provider.start, m.provider.num, id);
    assert Fits(n.disks, U64(capacity));
    var (p, r) := Publish(n, other, capacity, dev, o.(freeId := id));
    var first, second := Found(m.quotas[vol].device, m.quotas[vol].path), Found(dev, r.value);
    QuotaPathSubDir(m.disks[first.dev].mountPoint, vol, m.disks[first.dev].mountPoint);
    QuotaPathSubDir(n.disks[dev].mountPoint, other, n.disks[dev].mountPoint);
    assert Listed(p, first) && Listed(p, second) && SharesId(p, first.path, second.path);
  }

  // ---------- what a restart may cost ----------

  lemma RestoredLimits(m: Manager, o: Path -> Outcome, dev: Device)
    requires Enforced(m)
    ensures Enforced(Restored(m, o))
    ensures LimitsOn(Restored(m, o), dev) == SizesOn(Restored(m, o).quotas, dev)
  {
    RestoredEnforced(m, o);
    var r := Restored(m, o);
    forall v | v in LimitsOn(r, dev) ensures LimitsOn(r, dev)[v] == SizesOn(r.quotas, dev)[v] {
      assert Managed(m, v) && Managed(r, v);
    }
  }

  /** The first volume after a restart may oversubscribe what the kernel enforces: exactly if
      its whole blocks do not fit beside the restored volumes. */
  lemma OversubscribedAfterRestartIff(m: Manager, o: Path -> Outcome, vol: VolumeId, dev: Device, size: nat, out: Outcome)
    requires Enforced(m) && Conserved(m) && vol !in m.quotas
    requires WorstFit(Restored(m, o).disks, size, dev) && BASIC_BLOCK_SIZE <= size
    requires ValidChoice(m.provider, out) && !Full(m.provider.start, m.provider.num, m.provider.ids)
    requires out.mkdir && out.setId && out.setLimit
    ensures var r := Restored(m, o);
            var n := Publish(r, vol, size, dev, out).0;
            && Enforced(n) && dev in n.disks
            && (Sum(LimitsOn(n, dev)) <= n.disks[dev].capacity
                <==> Blocks(size) * BASIC_BLOCK_SIZE <= m.disks[dev].capacity - r.disks[dev].quotaSize)
  {
    var r := Restored(m, o);
    RestoredFacts(m, o, dev);
    RestoredLimits(m, o, dev);
    NewPathIsFree(m, vol, dev);
    PublishSucceeds(r, vol, dev, size, out);
    PublishEnforces(r, vol, size, dev, out);
    OneMoreLimit(r, vol, size, dev, out);
    SumPut(LimitsOn(r, dev), vol, Blocks(size) * BASIC_BLOCK_SIZE);
  }

  lemma OneMoreLimit(r: Manager, vol: VolumeId, size: nat, dev: Device, out: Outcome)
    requires Enforced(r) && vol !in r.quotas && WorstFit(r.disks, size, dev) && size < UINT64_COUNT
    requires Possible(r, PublishStep(vol, size, dev, out)) && Publish(r, vol, size, dev, out).1.Ok?
    requires Enforced(Publish(r, vol, size, dev, out).0)
    ensures LimitsOn(Publish(r, vol, size, dev, out).0, dev)
            == LimitsOn(r, dev)[vol := Blocks(size) * BASIC_BLOCK_SIZE]
  {
    var n := Publish(r, vol, size, dev, out).0;
    PublishOutcome(r, vol, size, dev, out);
    assert n.quotas.Keys == r.quotas.Keys + {vol};
    forall v | v in n.quotas ensures LimitBytes(n, v) == if v == vol then Blocks(size) * BASIC_BLOCK_SIZE else LimitBytes(r, v) {
      LimitAfter(r, n, vol, n.quotas[vol].path, dev, n.provider.cache[n.quotas[vol].path], Blocks(size), v);
    }
  }

  lemma LimitAfter(r: Manager, n: Manager, vol: VolumeId, path: Path, dev: Device, id: nat, limit: nat, v: VolumeId)
    requires Enforced(r) && Enforced(n) && FreshlyLimited(r, n, path, dev, id, limit)
    requires vol !in r.quotas && vol in n.quotas && n.quotas == r.quotas[vol := n.quotas[vol]]
    requires n.quotas[vol].path == path && n.quotas[vol].device == dev && v in n.quotas
    ensures v != vol ==> v in r.quotas
    ensures LimitBytes(n, v) == if v == vol then limit * BASIC_BLOCK_SIZE else LimitBytes(r, v)
  {
    assert Managed(n, v) && Managed(n, vol);
    if v != vol {
      assert Managed(r, v);
      ProjectIdsApart(n, v, vol);
    }
  }

  // ---------- which volumes a restart can find ----------

  /** Every directory parses to one of these volumes, and every record is of one of them. */
  ghost predicate OnlyOf(m: Manager, vols: set<VolumeId>) {
    && m.quotas.Keys <= vols
    && (forall dev :: dev in m.disks ==> CleanMount(m.disks[dev].mountPoint))
    && (forall path :: path in m.provider.kernel.dirs ==> OfOne(path, vols))
  }

  ghost predicate OfOne(path: Path, vols: set<VolumeId>) {
    ParseVolume(path).Volume? && ParseVolume(path).vol in vols
  }

  lemma CreateDirs(m: Manager, vol: VolumeId, dev: Device, path: Path, size: nat, o: Outcome)
    requires dev in m.disks
    ensures var n := Create(m, vol, dev, path, size, o).0;
            && n.provider.kernel.dirs.Keys <= m.provider.kernel.dirs.Keys
            && n.quotas.Keys <= m.quotas.Keys + {vol} && SameMounts(m.disks, n.disks)
  {
  }

  lemma PublishKeepsOnly(m: Manager, vol: VolumeId, capacity: int, dev: Device, o: Outcome, vols: set<VolumeId>)
    requires OnlyOf(m, vols) && Possible(m, PublishStep(vol, capacity, dev, o))
    ensures OnlyOf(Publish(m, vol, capacity, dev, o).0, vols + {vol})
  {
    var size := U64(capacity);
    if vol !in m.quotas && Fits(m.disks, size) {
      var path := QuotaPath(m.disks[dev].mountPoint, vol);
      ParseQuotaPath(m.disks[dev].mountPoint, vol);
      var k := m.provider.kernel;
      var withDir := if path in k.dirs then k else k.(dirs := k.dirs[path := 0]);
      CreateDirs(m.(provider := m.provider.(kernel := withDir)), vol, dev, path, size, o);
    }
  }

  /** No other call makes a directory or a record. */
  lemma OthersAddNothing(m: Manager, s: Step)
    requires Possible(m, s) && !s.PublishStep?
    ensures var n := Apply(m, s);
            && n.provider.kernel.dirs.Keys <= m.provider.kernel.dirs.Keys
            && n.quotas.Keys <= m.quotas.Keys && SameMounts(m.disks, n.disks)
  {
  }

  /** Whatever fails, a call leaves directories of the volumes there were, and of the one it
      was asked to publish. */
  lemma StepKeepsOnly(m: Manager, s: Step, vols: set<VolumeId>)
    requires OnlyOf(m, vols) && Possible(m, s)
    ensures OnlyOf(Apply(m, s), if s.PublishStep? then vols + {s.vol} else vols)
  {
    if s.PublishStep? {
      PublishKeepsOnly(m, s.vol, s.capacity, s.dev, s.o, vols);
    } else {
      OthersAddNothing(m, s);
    }
  }

  /** A restart, whether or not it comes to its end, finds volumes that were once published. */
  lemma {:induction false} RestartKeepsOnly(m: Manager, found: seq<Found>, o: Path -> Outcome, vols: set<VolumeId>)
    requires OnlyOf(m, vols)
    requires forall f :: f in found ==> f.dev in m.disks && f.path in m.provider.kernel.dirs
    ensures OnlyOf(RestoreAll(Fresh(m), found, o).0, vols)
    decreases |found|
  {
    if found != [] {
      var k := |found| - 1;
      RestartKeepsOnly(m, found[..k], o, vols);
      assert found[k] in found && OfOne(found[k].path, vols);
      RestoreOneKeepsOnly(RestoreAll(Fresh(m), found[..k], o).0, found[k], o(found[k].path), vols);
    } else {
      assert Fresh(m).disks.Keys == m.disks.Keys;
    }
  }

  lemma RestoreOneKeepsOnly(m: Manager, f: Found, o: Outcome, vols: set<VolumeId>)
    requires OnlyOf(m, vols) && f.dev in m.disks && OfOne(f.path, vols)
    ensures OnlyOf(RestoreOne(m, f, o).0, vols)
  {
    assert GetQuota(m.provider, f.path, f.dev, o).0.kernel == m.provider.kernel;
  }

  /** The volumes that some call of the history was asked to publish. */
  ghost function PublishedIn(events: seq<Event>): set<VolumeId> {
    set e | e in events && e.Call? && e.s.PublishStep? :: e.s.vol
  }

  lemma EventKeepsOnly(p: Process, e: Event, vols: set<VolumeId>)
    requires OnlyOf(p.m, vols) && PossibleEvent(p, e)
    ensures OnlyOf(After(p, e).m, vols + PublishedIn([e]))
  {
    match e
    case Call(s) =>
      if p.up {
        StepKeepsOnly(p.m, s, vols);
        OnlyOfMore(After(p, e).m, if s.PublishStep? then vols + {s.vol} else vols, vols + PublishedIn([e]));
      } else {
        OnlyOfMore(p.m, vols, vols + PublishedIn([e]));
      }
    case Start(found, o, _) =>
      RestartKeepsOnly(p.m, found, o, vols);
      OnlyOfMore(After(p, e).m, vols, vols + PublishedIn([e]));
  }

  lemma OnlyOfMore(m: Manager, vols: set<VolumeId>, more: set<VolumeId>)
    requires OnlyOf(m, vols) && vols <= more
    ensures OnlyOf(m, more)
  {
  }

  /** In every history, whatever fails in it, directories and records are of volumes that were
      to be published, or of those there were in the beginning. */
  lemma {:induction false} HistoryKeepsOnly(p: Process, events: seq<Event>, vols: set<VolumeId>)
    requires OnlyOf(p.m, vols) && PossibleHistory(p, events)
    ensures OnlyOf(History(p, events).m, vols + PublishedIn(events))
    decreases |events|
  {
    if events == [] {
      OnlyOfMore(p.m, vols, vols + PublishedIn(events));
    } else {
      EventKeepsOnly(p, events[0], vols);
      HistoryKeepsOnly(After(p, events[0]), events[1..], vols + PublishedIn([events[0]]));
      assert events == [events[0]] + events[1..];
      assert vols + PublishedIn([events[0]]) + PublishedIn(events[1..]) == vols + PublishedIn(events);
    }
  }
}

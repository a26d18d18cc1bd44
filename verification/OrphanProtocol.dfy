/** The protocol between the controller, the node and the orphan cleaner: controllerserver.go,
    nodeserver.go and syncworker.go over the metastore and the quota manager.

    Each step is what one party does atomically: one request to the API server, or one call
    under the quota manager's mutex. */
module OrphanProtocol {
  import opened QuotaPaths
  import opened MetaStore
  import QuotaProvider
  import QuotaManager
  import Enforcement
  import Restart
  import Lifetimes

  /** Where the cleaner stands in its pass. `listed` is its snapshot of the quota table, `todo`
      the volumes it still has to release, `next` the ones whose release failed. */
  datatype Cleaner =
    | Idle
    | Retrying(listed: set<VolumeId>, todo: set<VolumeId>, next: set<VolumeId>)
    | Releasing(todo: set<VolumeId>, next: set<VolumeId>)

  /** `everAdded`, `created`, `deleting` and `publishing` are history: the volumes that were
      ever in the metastore, whose creation was acknowledged, whose deletion has begun, and
      whose publish has begun. */
  datatype State = State(store: Store, quotas: set<VolumeId>, cleaner: Cleaner,
                         shouldDelete: set<VolumeId>, everAdded: set<VolumeId>,
                         created: set<VolumeId>, deleting: set<VolumeId>, publishing: set<VolumeId>)

  datatype Event =
    | CreateRead(client: nat, vol: VolumeId)
    | DeleteRead(client: nat, vol: VolumeId)
    | Write(client: nat, answered: bool)
    | GiveUp(client: nat)
    | BeginPublish(vol: VolumeId)
    | Publish(vol: VolumeId, ok: bool)
    | Unpublish(vol: VolumeId, ok: bool)
    | BeginPass(listOk: bool)
    | Retry(vol: VolumeId, ok: bool, again: bool)
    | ReadMeta(ok: bool)
    | ReleaseOrphan(vol: VolumeId, ok: bool)
    | EndPass
    | RestartNode(found: set<VolumeId>)

  /** The assumptions on the callers are two: no create of an id reads the metastore once a
      delete of it has begun, and a publish begins after a create was acknowledged. A list can
      hold an id more than once, so after a release the same id may come again. A restart
      finds any volumes whose publish once began, those included whose release failed. */
  ghost predicate Possible(s: State, e: Event) {
    match e
    case CreateRead(c, v) => c !in s.store.clients && v !in s.deleting
    case DeleteRead(c, _) => c !in s.store.clients
    case Write(c, _) => c in s.store.clients
    case GiveUp(c) => c in s.store.clients
    case BeginPublish(v) => v in s.created
    case Publish(v, _) => v in s.publishing
    case Unpublish(_, _) => true
    case BeginPass(_) => s.cleaner.Idle?
    case Retry(v, _, _) => s.cleaner.Retrying? && v in s.cleaner.todo
    case ReadMeta(_) => s.cleaner.Retrying? && s.cleaner.todo == {}
    case ReleaseOrphan(v, _) => s.cleaner.Releasing? && v in s.cleaner.todo
    case EndPass => s.cleaner.Releasing? && s.cleaner.todo == {}
    case RestartNode(found) => found <= s.publishing
  }

  ghost function AfterWrite(s: State, c: nat, answered: bool): State
    requires c in s.store.clients
  {
    var op := s.store.clients[c].op;
    var store := MetaStore.Next(s.store, UpdateStep(c));
    if op.Add? && Accepted(s.store, c) then
      s.(store := store, everAdded := s.everAdded + {op.vol},
         created := if answered then s.created + {op.vol} else s.created)
    else s.(store := store)
  }

  function Drop(vols: set<VolumeId>, v: VolumeId, ok: bool): set<VolumeId> {
    if ok then vols - {v} else vols
  }

  function Keep(next: set<VolumeId>, v: VolumeId, ok: bool): set<VolumeId> {
    if ok then next else next + {v}
  }

  ghost function Next(s: State, e: Event): State
    requires Possible(s, e)
  {
    match e
    case CreateRead(c, v) => s.(store := MetaStore.Next(s.store, GetStep(c, Add(v))))
    case DeleteRead(c, v) =>
      s.(store := MetaStore.Next(s.store, GetStep(c, Unset(v))), deleting := s.deleting + {v})
    case Write(c, answered) => AfterWrite(s, c, answered)
    case GiveUp(c) => s.(store := MetaStore.Next(s.store, AbandonStep(c)))
    case BeginPublish(v) => s.(publishing := s.publishing + {v})
    case Publish(v, ok) => s.(quotas := if ok then s.quotas + {v} else s.quotas)
    case Unpublish(v, ok) => s.(quotas := Drop(s.quotas, v, ok))
    case BeginPass(listOk) => s.(cleaner := Retrying(if listOk then s.quotas else {}, s.shouldDelete, {}))
    case Retry(v, ok, again) =>
      s.(quotas := Drop(s.quotas, v, ok),
         cleaner := Retrying(s.cleaner.listed, if again then s.cleaner.todo else s.cleaner.todo - {v}, Keep(s.cleaner.next, v, ok)))
    case ReadMeta(ok) =>
      s.(cleaner := if ok then Releasing(s.cleaner.listed - s.store.server.data, s.cleaner.next) else Idle)
    case ReleaseOrphan(v, ok) =>
      s.(quotas := Drop(s.quotas, v, ok),
         cleaner := Releasing(s.cleaner.todo - {v}, Keep(s.cleaner.next, v, ok)))
    case EndPass => s.(cleaner := Idle, shouldDelete := s.cleaner.next)
    case RestartNode(found) => s.(quotas := found, cleaner := Idle, shouldDelete := {})
  }

  ghost predicate PossibleRun(s: State, events: seq<Event>)
    decreases |events|
  {
    events == [] || (Possible(s, events[0]) && PossibleRun(Next(s, events[0]), events[1..]))
  }

  ghost function Run(s: State, events: seq<Event>): State
    requires PossibleRun(s, events)
    decreases |events|
  {
    if events == [] then s else Run(Next(s, events[0]), events[1..])
  }

  const START := State(Store(ConfigMap(0, {}), map[], []), {}, Idle, {}, {}, {}, {}, {})

  /** The volumes that were in the metastore and no longer are. */
  function Gone(s: State): set<VolumeId> {
    s.everAdded - s.store.server.data
  }

  ghost predicate CleanerKnows(s: State) {
    match s.cleaner
    case Idle => true
    case Retrying(listed, todo, next) => listed <= s.everAdded && todo <= Gone(s) && next <= Gone(s)
    case Releasing(todo, next) => todo <= Gone(s) && next <= Gone(s)
  }

  /** A client that would add a volume that is gone holds a copy that is out of date. */
  predicate CannotRevive(client: Client, s: State) {
    client.op.Add? && client.op.vol in Gone(s) ==> client.got.version < s.store.server.version
  }

  ghost predicate Invariant(s: State) {
    && Consistent(s.store)
    && s.store.server.data <= s.everAdded
    && s.quotas <= s.everAdded && s.publishing <= s.everAdded && s.created <= s.everAdded
    && Gone(s) <= s.deleting
    && s.shouldDelete <= Gone(s)
    && CleanerKnows(s)
    && (forall c :: c in s.store.clients ==> CannotRevive(s.store.clients[c], s))
    && (forall c :: c in s.store.clients && s.store.clients[c].op.Unset? ==> s.store.clients[c].op.vol in s.deleting)
  }

  /** What is gone stays gone, whatever is written. */
  lemma WriteKeepsGone(s: State, c: nat, answered: bool)
    requires Invariant(s) && c in s.store.clients
    ensures Gone(s) <= Gone(AfterWrite(s, c, answered))
    ensures Gone(AfterWrite(s, c, answered)) <= s.deleting
    ensures AfterWrite(s, c, answered).store.server.data <= AfterWrite(s, c, answered).everAdded
  {
    var client := s.store.clients[c];
    assert CopyOf(client.got, s.store.server) && CannotRevive(client, s);
  }

  lemma WriteKeepsInvariant(s: State, c: nat, answered: bool)
    requires Invariant(s) && c in s.store.clients
    ensures Invariant(AfterWrite(s, c, answered))
  {
    var n := AfterWrite(s, c, answered);
    WriteKeepsGone(s, c, answered);
    StepStaysConsistent(s.store, UpdateStep(c));
    forall d | d in n.store.clients ensures CannotRevive(n.store.clients[d], n) {
      assert CopyOf(s.store.clients[d].got, s.store.server) && CannotRevive(s.store.clients[d], s);
      if n.store.server.version == s.store.server.version {
        assert n.store.server.data == s.store.server.data;
      }
    }
  }

  lemma StepKeepsInvariant(s: State, e: Event)
    requires Invariant(s) && Possible(s, e)
    ensures Invariant(Next(s, e))
    ensures Gone(s) <= Gone(Next(s, e))
  {
    match e
    case CreateRead(c, v) => StepStaysConsistent(s.store, GetStep(c, Add(v)));
    case DeleteRead(c, v) => StepStaysConsistent(s.store, GetStep(c, Unset(v)));
    case Write(c, answered) =>
      WriteKeepsGone(s, c, answered);
      WriteKeepsInvariant(s, c, answered);
    case GiveUp(c) => StepStaysConsistent(s.store, AbandonStep(c));
    case _ =>
  }

  lemma {:induction false} RunKeepsInvariant(s: State, events: seq<Event>)
    requires Invariant(s) && PossibleRun(s, events)
    ensures Invariant(Run(s, events))
    ensures Gone(s) <= Gone(Run(s, events))
    decreases |events|
  {
    if events != [] {
      StepKeepsInvariant(s, events[0]);
      RunKeepsInvariant(Next(s, events[0]), events[1..]);
    }
  }

  predicate CleanerReleases(e: Event, vol: VolumeId) {
    (e.Retry? || e.ReleaseOrphan?) && e.vol == vol
  }

  /** Main result: in every interleaving, a volume that the cleaner releases, in the pass that
      found it or in any later retry, is not in the metastore and never will be again. */
  lemma NeverReleasesALiveVolume(events: seq<Event>, e: Event, vol: VolumeId, later: seq<Event>)
    requires PossibleRun(START, events) && Possible(Run(START, events), e)
    requires CleanerReleases(e, vol)
    requires PossibleRun(Run(START, events), later)
    ensures vol !in Run(START, events).store.server.data
    ensures vol !in Run(Run(START, events), later).store.server.data
  {
    RunKeepsInvariant(START, events);
    RunKeepsInvariant(Run(START, events), later);
  }

  /** The order of the two snapshots carries the proof: a cleaner that read the metastore
      first and listed the quotas afterwards would find this live volume among its orphans. */
  lemma MetaFirstWouldReleaseALiveVolume(vol: VolumeId)
    ensures var events := [CreateRead(0, vol), Write(0, true), BeginPublish(vol), Publish(vol, true)];
            && PossibleRun(START, events)
            && vol in Run(START, events).quotas - START.store.server.data
            && vol in Run(START, events).store.server.data
  {
    var s1 := Next(START, CreateRead(0, vol));
    var s2 := Next(s1, Write(0, true));
    assert s2.store.server.data == {vol} && vol in s2.created;
    var s3 := Next(s2, BeginPublish(vol));
    var s4 := Next(s3, Publish(vol, true));
    var e1, e2, e3, e4 := CreateRead(0, vol), Write(0, true), BeginPublish(vol), Publish(vol, true);
    assert PossibleRun(s4, []) && Run(s4, []) == s4;
    assert [e4][1..] == [];
    assert PossibleRun(s3, [e4]) && Run(s3, [e4]) == s4;
    assert [e3, e4][1..] == [e4];
    assert PossibleRun(s2, [e3, e4]) && Run(s2, [e3, e4]) == s4;
    assert [e2, e3, e4][1..] == [e3, e4];
    assert PossibleRun(s1, [e2, e3, e4]) && Run(s1, [e2, e3, e4]) == s4;
    assert [e1, e2, e3, e4][1..] == [e2, e3, e4];
  }

  /** A created volume stays in the metastore as long as nobody begins to delete it. */
  lemma CreatedStaysUntilDeleted(events: seq<Event>, vol: VolumeId)
    requires PossibleRun(START, events)
    ensures var s := Run(START, events);
            vol in s.created && vol !in s.deleting ==> vol in s.store.server.data
  {
    RunKeepsInvariant(START, events);
  }

  // ---------- the quota manager behind the set of volumes ----------

  /** The calls of the quota manager move its set of volumes as the protocol's steps do. */
  lemma ManagerRefinesQuotas(m: QuotaManager.Manager, vol: VolumeId, capacity: int,
                             dev: QuotaProvider.Device, o: QuotaProvider.Outcome)
    requires QuotaManager.Possible(m, QuotaManager.PublishStep(vol, capacity, dev, o))
    ensures var (n, r) := QuotaManager.Publish(m, vol, capacity, dev, o);
            n.quotas.Keys == if r.Ok? then m.quotas.Keys + {vol} else m.quotas.Keys
    ensures var (n, ok) := QuotaManager.Release(m, vol, o);
            n.quotas.Keys == Drop(m.quotas.Keys, vol, ok)
    ensures QuotaManager.Expand(m, vol, capacity, o).0.quotas.Keys == m.quotas.Keys
    ensures QuotaManager.Refresh(m, vol, o).0.quotas.Keys == m.quotas.Keys
  {
  }

  /** Why a restart finds only volumes whose publish once began: the manager's calls keep that
      every directory belongs to one, whatever fails, and `restoreQuotaInfo`, whether or not it
      comes to its end, restores from the directories alone. */
  lemma RestartFindsOnlyPublished(m: QuotaManager.Manager, s: QuotaManager.Step, published: set<VolumeId>,
                                  found: seq<Restart.Found>, o: Path -> QuotaProvider.Outcome)
    requires Lifetimes.OnlyOf(m, published) && QuotaManager.Possible(m, s)
    requires s.PublishStep? ==> s.vol in published
    ensures var n := QuotaManager.Apply(m, s);
            && Lifetimes.OnlyOf(n, published)
            && ((forall f :: f in found ==> f.dev in n.disks && f.path in n.provider.kernel.dirs) ==>
                  var (r, _) := Restart.RestoreAll(Restart.Fresh(n), found, o);
                  Lifetimes.OnlyOf(r, published) && r.quotas.Keys <= published)
  {
    Lifetimes.StepKeepsOnly(m, s, published);
    assert s.PublishStep? ==> published + {s.vol} == published;
    var n := QuotaManager.Apply(m, s);
    if forall f :: f in found ==> f.dev in n.disks && f.path in n.provider.kernel.dirs {
      Lifetimes.RestartKeepsOnly(n, found, o, published);
    }
  }

  /** With every directory managed and readable it finds exactly the volumes there were. */
  lemma RestartKeepsVolumes(m: QuotaManager.Manager, found: seq<Restart.Found>, o: Path -> QuotaProvider.Outcome)
    requires Enforcement.Enforced(m) && Restart.Lists(m.disks, m.provider.kernel.dirs, found)
    requires forall v :: v in m.quotas ==> '/' !in v
    requires forall path :: path in m.provider.kernel.dirs ==> o(path).getId && o(path).getLimit
    ensures Restart.RestoreAll(Restart.Fresh(m), found, o).0.quotas.Keys == m.quotas.Keys
  {
    Restart.RestartRefines(m, found, o);
  }
}

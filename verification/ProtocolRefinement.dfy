/** The quota manager and the sync worker are parties of the protocol: what they do, the protocol
    does. */
module ProtocolRefinement {
  import opened Results
  import opened QuotaPaths
  import QuotaProvider
  import QuotaManager
  import Restart
  import Lifetimes
  import SyncWorker
  import opened MetaStore
  import opened OrphanProtocol

  lemma {:induction false} RunAppend(s: State, a: seq<Event>, b: seq<Event>)
    requires OrphanProtocol.PossibleRun(s, a) && OrphanProtocol.PossibleRun(OrphanProtocol.Run(s, a), b)
    ensures OrphanProtocol.PossibleRun(s, a + b)
    ensures OrphanProtocol.Run(s, a + b) == OrphanProtocol.Run(OrphanProtocol.Run(s, a), b)
    decreases |a|
  {
    if a == [] {
      assert a + b == b;
    } else {
      assert (a + b)[1..] == a[1..] + b;
      RunAppend(OrphanProtocol.Next(s, a[0]), a[1..], b);
    }
  }

  lemma RunOne(s: State, e: Event)
    requires OrphanProtocol.Possible(s, e)
    ensures OrphanProtocol.PossibleRun(s, [e]) && OrphanProtocol.Run(s, [e]) == OrphanProtocol.Next(s, e)
  {
    assert [e][1..] == [];
  }

  // ---------- all parties together ----------

  /** What happens on the node and around it, in any order: calls and starts of the quota
      manager, the cleaner's releases (each a call of the manager), and the steps of everybody
      else: clients of the metastore, publishes that begin, the cleaner's other steps. */
  datatype JointEvent =
    | Node(call: Lifetimes.Event)
    | Clean(release: Event, o: QuotaProvider.Outcome)
    | Party(step: Event)

  predicate IsRelease(e: Event) {
    e.Retry? || e.ReleaseOrphan?
  }

  /** The steps that leave the quota manager alone. */
  predicate IsParty(e: Event) {
    !IsRelease(e) && !e.Publish? && !e.Unpublish? && !e.RestartNode?
  }

  /** Whether a release succeeds is what the manager says; while its process is down it refuses. */
  ghost predicate Released(p: Lifetimes.Process, vol: VolumeId, o: QuotaProvider.Outcome) {
    p.up && QuotaManager.Release(p.m, vol, o).1
  }

  ghost predicate JointPossible(p: Lifetimes.Process, s: State, j: JointEvent) {
    match j
    case Node(e) =>
      Lifetimes.PossibleEvent(p, e) && (e.Call? && e.s.PublishStep? ==> e.s.vol in s.publishing)
    case Clean(e, o) => IsRelease(e) && OrphanProtocol.Possible(s, e) && (e.ok <==> Released(p, e.vol, o))
    case Party(e) => IsParty(e) && OrphanProtocol.Possible(s, e)
  }

  /** The state of the manager, and that of everybody else; `quotas` is read off the manager. A
      start is one of the whole process, so the cleaner forgets, too. */
  ghost function JointNext(p: Lifetimes.Process, s: State, j: JointEvent): (Lifetimes.Process, State)
    requires JointPossible(p, s, j)
  {
    match j
    case Node(e) =>
      var n := Lifetimes.After(p, e);
      (n, if e.Start? then s.(quotas := Known(n), cleaner := Idle, shouldDelete := {}) else s.(quotas := Known(n)))
    case Clean(e, o) =>
      var n := if p.up then Lifetimes.Process(QuotaManager.Release(p.m, e.vol, o).0, true) else p;
      (n, OrphanProtocol.Next(s, e).(quotas := Known(n)))
    case Party(e) => (p, OrphanProtocol.Next(s, e))
  }

  ghost predicate JointPossibleRun(p: Lifetimes.Process, s: State, js: seq<JointEvent>)
    decreases |js|
  {
    js == [] || (JointPossible(p, s, js[0])
                 && JointPossibleRun(JointNext(p, s, js[0]).0, JointNext(p, s, js[0]).1, js[1..]))
  }

  ghost function JointRun(p: Lifetimes.Process, s: State, js: seq<JointEvent>): (Lifetimes.Process, State)
    requires JointPossibleRun(p, s, js)
    decreases |js|
  {
    if js == [] then (p, s) else JointRun(JointNext(p, s, js[0]).0, JointNext(p, s, js[0]).1, js[1..])
  }

  /** The protocol's quotas are the manager's, and what lies on the disks was published. */
  ghost predicate Joined(p: Lifetimes.Process, s: State) {
    s.quotas == Known(p) && Lifetimes.OnlyOf(p.m, s.publishing)
  }

  /** The protocol's event for what happens; a call that changes no volume is none. */
  ghost function EventOf(p: Lifetimes.Process, s: State, j: JointEvent): seq<Event>
    requires JointPossible(p, s, j)
  {
    match j
    case Node(e) =>
      if e.Start? then [RestartNode(Known(Lifetimes.After(p, e)))]
      else if !p.up then []
      else
        (match e.s
         case PublishStep(vol, capacity, dev, o) => [Publish(vol, QuotaManager.Publish(p.m, vol, capacity, dev, o).1.Ok?)]
         case ReleaseStep(vol, o) => [Unpublish(vol, QuotaManager.Release(p.m, vol, o).1)]
         case _ => [])
    case Clean(e, _) => [e]
    case Party(e) => [e]
  }

  lemma NodeIsProtocolStep(p: Lifetimes.Process, s: State, j: JointEvent)
    requires Joined(p, s) && j.Node? && JointPossible(p, s, j)
    ensures OrphanProtocol.PossibleRun(s, EventOf(p, s, j))
    ensures OrphanProtocol.Run(s, EventOf(p, s, j)) == JointNext(p, s, j).1
    ensures Joined(JointNext(p, s, j).0, JointNext(p, s, j).1)
  {
    var e := j.call;
    if e.Start? {
      Lifetimes.RestartKeepsOnly(p.m, e.found, e.o, s.publishing);
      RunOne(s, RestartNode(Known(Lifetimes.After(p, e))));
    } else if p.up {
      CallIsProtocolStep(p, s, e.s);
    } else {
      assert s.(quotas := Known(p)) == s;
    }
  }

  lemma CallIsProtocolStep(p: Lifetimes.Process, s: State, step: QuotaManager.Step)
    requires Joined(p, s) && p.up && QuotaManager.Possible(p.m, step) && (step.PublishStep? ==> step.vol in s.publishing)
    ensures var j := Node(Lifetimes.Call(step));
            var n := QuotaManager.Apply(p.m, step);
            && JointPossible(p, s, j)
            && OrphanProtocol.PossibleRun(s, EventOf(p, s, j))
            && OrphanProtocol.Run(s, EventOf(p, s, j)) == s.(quotas := n.quotas.Keys)
            && Lifetimes.OnlyOf(n, s.publishing)
  {
    Lifetimes.StepKeepsOnly(p.m, step, s.publishing);
    match step
    case PublishStep(vol, capacity, dev, o) =>
      ManagerRefinesQuotas(p.m, vol, capacity, dev, o);
      assert s.publishing + {vol} == s.publishing;
      RunOne(s, Publish(vol, QuotaManager.Publish(p.m, vol, capacity, dev, o).1.Ok?));
    case ReleaseStep(vol, o) =>
      ReleaseKeys(p.m, vol, o);
      RunOne(s, Unpublish(vol, QuotaManager.Release(p.m, vol, o).1));
    case _ =>
      SameKeys(p.m, step);
  }

  lemma CleanIsProtocolStep(p: Lifetimes.Process, s: State, j: JointEvent)
    requires Joined(p, s) && j.Clean? && JointPossible(p, s, j)
    ensures OrphanProtocol.PossibleRun(s, EventOf(p, s, j))
    ensures OrphanProtocol.Run(s, EventOf(p, s, j)) == JointNext(p, s, j).1
    ensures Joined(JointNext(p, s, j).0, JointNext(p, s, j).1)
  {
    RunOne(s, j.release);
    if p.up {
      ReleaseKeys(p.m, j.release.vol, j.o);
      Lifetimes.StepKeepsOnly(p.m, QuotaManager.ReleaseStep(j.release.vol, j.o), s.publishing);
    }
  }

  lemma PartyIsProtocolStep(p: Lifetimes.Process, s: State, j: JointEvent)
    requires Joined(p, s) && j.Party? && JointPossible(p, s, j)
    ensures OrphanProtocol.PossibleRun(s, EventOf(p, s, j))
    ensures OrphanProtocol.Run(s, EventOf(p, s, j)) == JointNext(p, s, j).1
    ensures Joined(JointNext(p, s, j).0, JointNext(p, s, j).1)
  {
    RunOne(s, j.step);
    Lifetimes.OnlyOfMore(p.m, s.publishing, OrphanProtocol.Next(s, j.step).publishing);
  }

  lemma JointIsProtocolStep(p: Lifetimes.Process, s: State, j: JointEvent)
    requires Joined(p, s) && JointPossible(p, s, j)
    ensures OrphanProtocol.PossibleRun(s, EventOf(p, s, j))
    ensures OrphanProtocol.Run(s, EventOf(p, s, j)) == JointNext(p, s, j).1
    ensures Joined(JointNext(p, s, j).0, JointNext(p, s, j).1)
  {
    match j
    case Node(_) => NodeIsProtocolStep(p, s, j);
    case Clean(_, _) => CleanIsProtocolStep(p, s, j);
    case Party(_) => PartyIsProtocolStep(p, s, j);
  }

  /** Main result: every interleaving of the quota manager's calls and starts, whatever fails in
      them, with the cleaner's passes and everybody else's steps is a run of the protocol. */
  lemma {:induction false} JointIsProtocolRun(p: Lifetimes.Process, s: State, js: seq<JointEvent>) returns (events: seq<Event>)
    requires Joined(p, s) && JointPossibleRun(p, s, js)
    ensures OrphanProtocol.PossibleRun(s, events) && OrphanProtocol.Run(s, events) == JointRun(p, s, js).1
    ensures Joined(JointRun(p, s, js).0, JointRun(p, s, js).1)
    decreases |js|
  {
    if js == [] {
      events := [];
    } else {
      var (n, t) := JointNext(p, s, js[0]);
      JointIsProtocolStep(p, s, js[0]);
      var rest := JointIsProtocolRun(n, t, js[1..]);
      events := EventOf(p, s, js[0]) + rest;
      RunAppend(s, EventOf(p, s, js[0]), rest);
    }
  }

  /** So the cleaner's calls of the manager are safe: from empty disks, in every interleaving, a
      volume that it asks the manager to release is not in the metastore, and never is again. */
  lemma CleanerCallsAreSafe(p: Lifetimes.Process, js: seq<JointEvent>, j: JointEvent, later: seq<JointEvent>)
    requires p.m.quotas == map[] && p.m.provider.kernel.dirs == map[]
    requires forall dev :: dev in p.m.disks ==> CleanMount(p.m.disks[dev].mountPoint)
    requires JointPossibleRun(p, OrphanProtocol.START, js)
    requires var (n, s) := JointRun(p, OrphanProtocol.START, js); j.Clean? && JointPossible(n, s, j) && JointPossibleRun(n, s, later)
    ensures var (n, s) := JointRun(p, OrphanProtocol.START, js);
            && j.release.vol !in s.store.server.data
            && j.release.vol !in JointRun(n, s, later).1.store.server.data
  {
    EmptyJoined(p);
    var events := JointIsProtocolRun(p, OrphanProtocol.START, js);
    var (n, s) := JointRun(p, OrphanProtocol.START, js);
    var more := JointIsProtocolRun(n, s, later);
    NeverReleasesALiveVolume(events, j.release, j.release.vol, more);
  }

  lemma EmptyJoined(p: Lifetimes.Process)
    requires p.m.quotas == map[] && p.m.provider.kernel.dirs == map[]
    requires forall dev :: dev in p.m.disks ==> CleanMount(p.m.disks[dev].mountPoint)
    ensures Joined(p, OrphanProtocol.START)
  {
  }

  // ---------- the quota manager ----------

  /** The volumes the quota manager answers for; none while its process is down. */
  function Known(p: Lifetimes.Process): set<VolumeId> {
    if p.up then p.m.quotas.Keys else {}
  }

  /** Nobody else is at work, and what lies on the disks was published. */
  ghost predicate Matches(p: Lifetimes.Process, s: State) {
    && s.quotas == Known(p) && Lifetimes.OnlyOf(p.m, s.publishing)
    && s.store.clients == map[] && s.deleting == {}
  }

  /** A volume is created, and its publish begins. */
  lemma CreateAndPublish(s: State, vol: VolumeId, ok: bool) returns (events: seq<Event>)
    requires s.store.clients == map[] && s.deleting == {}
    ensures OrphanProtocol.PossibleRun(s, events)
    ensures var t := OrphanProtocol.Run(s, events);
            && t.quotas == (if ok then s.quotas + {vol} else s.quotas) && t.publishing == s.publishing + {vol}
            && t.store.clients == map[] && t.deleting == {}
  {
    var s1 := OrphanProtocol.Next(s, CreateRead(0, vol));
    assert s1.store.clients == map[0 := Client(Add(vol), s.store.server)];
    RunOne(s, CreateRead(0, vol));
    var s2 := OrphanProtocol.Next(s1, Write(0, true));
    assert Accepted(s1.store, 0);
    assert s2.store.clients == map[] && vol in s2.created;
    RunOne(s1, Write(0, true));
    RunOne(s2, BeginPublish(vol));
    var s3 := OrphanProtocol.Next(s2, BeginPublish(vol));
    RunOne(s3, Publish(vol, ok));
    RunAppend(s, [CreateRead(0, vol)], [Write(0, true)]);
    RunAppend(s, [CreateRead(0, vol)] + [Write(0, true)], [BeginPublish(vol)]);
    events := [CreateRead(0, vol)] + [Write(0, true)] + [BeginPublish(vol)] + [Publish(vol, ok)];
    RunAppend(s, [CreateRead(0, vol)] + [Write(0, true)] + [BeginPublish(vol)], [Publish(vol, ok)]);
  }

  lemma CallIsProtocolRun(p: Lifetimes.Process, step: QuotaManager.Step, s: State) returns (events: seq<Event>)
    requires Matches(p, s) && p.up && QuotaManager.Possible(p.m, step)
    ensures OrphanProtocol.PossibleRun(s, events)
    ensures Matches(Lifetimes.Process(QuotaManager.Apply(p.m, step), true), OrphanProtocol.Run(s, events))
  {
    Lifetimes.StepKeepsOnly(p.m, step, s.publishing);
    match step
    case PublishStep(vol, capacity, dev, o) =>
      ManagerRefinesQuotas(p.m, vol, capacity, dev, o);
      events := CreateAndPublish(s, vol, QuotaManager.Publish(p.m, vol, capacity, dev, o).1.Ok?);
    case ReleaseStep(vol, o) =>
      ReleaseKeys(p.m, vol, o);
      events := [Unpublish(vol, QuotaManager.Release(p.m, vol, o).1)];
      RunOne(s, events[0]);
    case _ =>
      SameKeys(p.m, step);
      events := [];
  }

  lemma ReleaseKeys(m: QuotaManager.Manager, vol: VolumeId, o: QuotaProvider.Outcome)
    ensures var (n, ok) := QuotaManager.Release(m, vol, o); n.quotas.Keys == Drop(m.quotas.Keys, vol, ok)
  {
  }

  lemma SameKeys(m: QuotaManager.Manager, step: QuotaManager.Step)
    requires QuotaManager.Possible(m, step) && !step.PublishStep? && !step.ReleaseStep?
    ensures QuotaManager.Apply(m, step).quotas.Keys == m.quotas.Keys
  {
  }

  lemma StartIsProtocolRun(p: Lifetimes.Process, e: Lifetimes.Event, s: State) returns (events: seq<Event>)
    requires Matches(p, s) && e.Start? && Lifetimes.PossibleEvent(p, e)
    ensures OrphanProtocol.PossibleRun(s, events)
    ensures Matches(Lifetimes.After(p, e), OrphanProtocol.Run(s, events))
  {
    Lifetimes.RestartKeepsOnly(p.m, e.found, e.o, s.publishing);
    events := [RestartNode(Known(Lifetimes.After(p, e)))];
    RunOne(s, events[0]);
  }

  /** Main result: every history of the quota manager, whatever fails in it, is what a run of
      the protocol does to its set of volumes. */
  lemma {:induction false} HistoryIsProtocolRun(p: Lifetimes.Process, history: seq<Lifetimes.Event>, s: State)
      returns (events: seq<Event>)
    requires Matches(p, s) && Lifetimes.PossibleHistory(p, history)
    ensures OrphanProtocol.PossibleRun(s, events)
    ensures Matches(Lifetimes.History(p, history), OrphanProtocol.Run(s, events))
    decreases |history|
  {
    if history == [] {
      events := [];
    } else {
      var e := history[0];
      var first: seq<Event> := [];
      if e.Start? {
        first := StartIsProtocolRun(p, e, s);
      } else if p.up {
        first := CallIsProtocolRun(p, e.s, s);
      }
      var rest := HistoryIsProtocolRun(Lifetimes.After(p, e), history[1..], OrphanProtocol.Run(s, first));
      RunAppend(s, first, rest);
      events := first + rest;
    }
  }

  // ---------- the sync worker ----------

  ghost function Elements(ids: seq<VolumeId>): set<VolumeId> {
    set v | v in ids
  }

  /** The retry loop is a run of retries. */
  lemma {:induction false} RetriesAreProtocolRun(s: State, ids: seq<VolumeId>, n: nat, succeeds: nat -> bool)
      returns (events: seq<Event>)
    requires n <= |ids| && s.cleaner.Retrying? && s.cleaner.todo == Elements(ids) && s.cleaner.next == {}
    ensures OrphanProtocol.PossibleRun(s, events)
    ensures var (left, failed) := SyncWorker.ReleaseEach(s.quotas, ids[..n], succeeds);
            OrphanProtocol.Run(s, events)
            == s.(quotas := left, cleaner := Retrying(s.cleaner.listed, Elements(ids[n..]), Elements(failed)))
    decreases n
  {
    if n == 0 {
      events := [];
      assert ids[0..] == ids && ids[..0] == [];
      assert Elements([]) == {};
    } else {
      var before := RetriesAreProtocolRun(s, ids, n - 1, succeeds);
      var t := OrphanProtocol.Run(s, before);
      var vol := ids[n - 1];
      var e := Retry(vol, succeeds(n - 1), vol in ids[n..]);
      assert ids[n - 1..] == [vol] + ids[n..];
      assert ids[..n][..n - 1] == ids[..n - 1];
      RunOne(t, e);
      RunAppend(s, before, [e]);
      events := before + [e];
      var failed := SyncWorker.ReleaseEach(s.quotas, ids[..n - 1], succeeds).1;
      assert Elements(failed + [vol]) == Elements(failed) + {vol};
      assert (if vol in ids[n..] then Elements(ids[n - 1..]) else Elements(ids[n - 1..]) - {vol}) == Elements(ids[n..]);
    }
  }

  ghost predicate AllDifferent(ids: seq<VolumeId>) {
    forall i, j :: 0 <= i < j < |ids| ==> ids[i] != ids[j]
  }

  /** The main loop is a run of releases of orphans. */
  lemma {:induction false} OrphansAreProtocolRun(s: State, listed: seq<VolumeId>, meta: set<VolumeId>, n: nat,
                                                 succeeds: nat -> bool)
      returns (events: seq<Event>)
    requires n <= |listed| && AllDifferent(listed)
    requires s.cleaner.Releasing? && s.cleaner.todo == Elements(listed) - meta
    ensures OrphanProtocol.PossibleRun(s, events)
    ensures var (left, failed) := SyncWorker.ReleaseOrphans(s.quotas, listed[..n], meta, succeeds);
            OrphanProtocol.Run(s, events)
            == s.(quotas := left, cleaner := Releasing(Elements(listed[n..]) - meta, s.cleaner.next + Elements(failed)))
    decreases n
  {
    if n == 0 {
      events := [];
      assert listed[0..] == listed && listed[..0] == [];
      assert s.cleaner.next + Elements([]) == s.cleaner.next;
    } else {
      var before := OrphansAreProtocolRun(s, listed, meta, n - 1, succeeds);
      var t := OrphanProtocol.Run(s, before);
      var vol := listed[n - 1];
      var failed := SyncWorker.ReleaseOrphans(s.quotas, listed[..n - 1], meta, succeeds).1;
      assert listed[..n][..n - 1] == listed[..n - 1];
      RestOfList(listed, meta, n);
      if vol in meta {
        events := before;
      } else {
        OneMoreFailed(s.cleaner.next, failed, vol);
        var e := ReleaseOrphan(vol, succeeds(n - 1));
        RunOne(t, e);
        RunAppend(s, before, [e]);
        events := before + [e];
      }
    }
  }

  lemma RestOfList(listed: seq<VolumeId>, meta: set<VolumeId>, n: nat)
    requires 1 <= n <= |listed| && AllDifferent(listed)
    ensures Elements(listed[n - 1..]) - meta - {listed[n - 1]} == Elements(listed[n..]) - meta
    ensures listed[n - 1] in meta ==> Elements(listed[n - 1..]) - meta == Elements(listed[n..]) - meta
    ensures listed[n - 1] !in meta ==> listed[n - 1] in Elements(listed[n - 1..]) - meta
  {
    assert listed[n - 1..] == [listed[n - 1]] + listed[n..];
    assert listed[n - 1] !in listed[n..];
  }

  lemma OneMoreFailed(next: set<VolumeId>, failed: seq<VolumeId>, vol: VolumeId)
    ensures next + Elements(failed) + {vol} == next + Elements(failed + [vol])
  {
  }

  /** One pass of the sync worker is a run of the cleaner's events: list, retry, read the
      metastore, release, keep what failed. If the listing fails, nothing is listed; if the
      metastore cannot be read, the pass ends there and keeps its old list. */
  lemma PassIsProtocolRun(s: State, shouldDelete: seq<VolumeId>, listed: seq<VolumeId>, listOk: bool, metaOk: bool,
                          retries: nat -> bool, releases: nat -> bool) returns (events: seq<Event>)
    requires s.cleaner.Idle? && s.shouldDelete == Elements(shouldDelete)
    requires AllDifferent(listed) && Elements(listed) == if listOk then s.quotas else {}
    ensures OrphanProtocol.PossibleRun(s, events)
    ensures var (left, failed) := SyncWorker.ReleaseEach(s.quotas, shouldDelete, retries);
            OrphanProtocol.Run(s, events)
            == if !metaOk then s.(quotas := left)
               else
                 var (left', failed') := SyncWorker.ReleaseOrphans(left, listed, s.store.server.data, releases);
                 s.(quotas := left', shouldDelete := Elements(failed + failed'))
  {
    var s1 := OrphanProtocol.Next(s, BeginPass(listOk));
    RunOne(s, BeginPass(listOk));
    var retried := RetriesAreProtocolRun(s1, shouldDelete, |shouldDelete|, retries);
    assert shouldDelete[..|shouldDelete|] == shouldDelete && shouldDelete[|shouldDelete|..] == [];
    RunAppend(s, [BeginPass(listOk)], retried);
    var s2 := OrphanProtocol.Run(s1, retried);
    var s3 := OrphanProtocol.Next(s2, ReadMeta(metaOk));
    RunOne(s2, ReadMeta(metaOk));
    RunAppend(s, [BeginPass(listOk)] + retried, [ReadMeta(metaOk)]);
    events := [BeginPass(listOk)] + retried + [ReadMeta(metaOk)];
    if metaOk {
      var rest := ReleasesAndEnd(s3, listed, releases);
      RunAppend(s, events, rest);
      events := events + rest;
    }
  }

  lemma ReleasesAndEnd(s: State, listed: seq<VolumeId>, releases: nat -> bool) returns (events: seq<Event>)
    requires s.cleaner.Releasing? && AllDifferent(listed) && s.cleaner.todo == Elements(listed) - s.store.server.data
    ensures OrphanProtocol.PossibleRun(s, events)
    ensures var (left, failed) := SyncWorker.ReleaseOrphans(s.quotas, listed, s.store.server.data, releases);
            OrphanProtocol.Run(s, events)
            == s.(quotas := left, cleaner := Idle, shouldDelete := s.cleaner.next + Elements(failed))
  {
    var released := OrphansAreProtocolRun(s, listed, s.store.server.data, |listed|, releases);
    assert listed[..|listed|] == listed && listed[|listed|..] == [];
    var t := OrphanProtocol.Run(s, released);
    RunOne(t, EndPass);
    events := released + [EndPass];
    RunAppend(s, released, [EndPass]);
  }
}

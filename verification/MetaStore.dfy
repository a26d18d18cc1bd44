/** The metastore: hostpath/metestore.go, one ConfigMap whose keys are the volumes that exist.

    The API server accepts an update only if it carries the version it holds (Kubernetes API
    conventions, section "Concurrency Control and Consistency"), and gives an update that
    changes nothing no new version. */
module MetaStore {
  import opened Results
  import opened QuotaPaths

  datatype ConfigMap = ConfigMap(version: nat, data: set<VolumeId>)

  datatype Operation = Add(vol: VolumeId) | Unset(vol: VolumeId)

  function Edit(data: set<VolumeId>, op: Operation): set<VolumeId> {
    match op
    case Add(v) => data + {v}
    case Unset(v) => data - {v}
  }

  function Accept(server: ConfigMap, data: set<VolumeId>): ConfigMap {
    if data == server.data then server else ConfigMap(server.version + 1, data)
  }

  /** Operations one after another, in the order given. */
  function Replay(log: seq<Operation>): set<VolumeId> {
    if log == [] then {} else Edit(Replay(log[..|log| - 1]), log[|log| - 1])
  }

  lemma ReplaySnoc(log: seq<Operation>, op: Operation)
    ensures Replay(log + [op]) == Edit(Replay(log), op)
  {
    assert (log + [op])[..|log|] == log;
  }

  // ---------- any number of clients ----------

  /** A client between its get and its update: what it will do, and the copy it got. */
  datatype Client = Client(op: Operation, got: ConfigMap)

  datatype Store = Store(server: ConfigMap, clients: map<nat, Client>, log: seq<Operation>)

  datatype Step = GetStep(client: nat, op: Operation) | UpdateStep(client: nat) | AbandonStep(client: nat)

  ghost predicate Possible(s: Store, step: Step) {
    match step
    case GetStep(c, _) => c !in s.clients
    case UpdateStep(c) => c in s.clients
    case AbandonStep(c) => c in s.clients
  }

  predicate Accepted(s: Store, c: nat)
    requires c in s.clients
  {
    s.clients[c].got.version == s.server.version
  }

  /** An update writes the client's whole edited copy; a stale one is refused. `log` records
      the accepted ones. A client may also give up after its get. */
  ghost function Next(s: Store, step: Step): Store
    requires Possible(s, step)
  {
    match step
    case GetStep(c, op) => s.(clients := s.clients[c := Client(op, s.server)])
    case UpdateStep(c) =>
      var client := s.clients[c];
      if Accepted(s, c) then
        Store(Accept(s.server, Edit(client.got.data, client.op)), s.clients - {c}, s.log + [client.op])
      else s.(clients := s.clients - {c})
    case AbandonStep(c) => s.(clients := s.clients - {c})
  }

  ghost predicate PossibleRun(s: Store, steps: seq<Step>)
    decreases |steps|
  {
    steps == [] || (Possible(s, steps[0]) && PossibleRun(Next(s, steps[0]), steps[1..]))
  }

  ghost function Run(s: Store, steps: seq<Step>): Store
    requires PossibleRun(s, steps)
    decreases |steps|
  {
    if steps == [] then s else Run(Next(s, steps[0]), steps[1..])
  }

  /** No client holds a copy newer than the server, and a copy of the same version is the same. */
  ghost predicate Consistent(s: Store) {
    && s.server.data == Replay(s.log)
    && forall c :: c in s.clients ==> CopyOf(s.clients[c].got, s.server)
  }

  predicate CopyOf(got: ConfigMap, server: ConfigMap) {
    got.version <= server.version && (got.version == server.version ==> got.data == server.data)
  }

  lemma StepStaysConsistent(s: Store, step: Step)
    requires Consistent(s) && Possible(s, step)
    ensures Consistent(Next(s, step))
  {
    if step.UpdateStep? && Accepted(s, step.client) {
      ReplaySnoc(s.log, s.clients[step.client].op);
    }
  }

  /** Main result: no update is lost. In every interleaving of any number of clients the
      stored set is the accepted operations applied one after another. */
  lemma {:induction false} NoLostUpdates(s: Store, steps: seq<Step>)
    requires Consistent(s) && PossibleRun(s, steps)
    ensures Consistent(Run(s, steps))
    ensures Run(s, steps).server.data == Replay(Run(s, steps).log)
    ensures s.log <= Run(s, steps).log
    decreases |steps|
  {
    if steps != [] {
      StepStaysConsistent(s, steps[0]);
      NoLostUpdates(Next(s, steps[0]), steps[1..]);
    }
  }

  /** So a created volume is present until its own deletion: it is in the stored set exactly
      if it was added and not unset since. */
  lemma {:induction false} PresentUntilUnset(log: seq<Operation>, vol: VolumeId)
    ensures vol in Replay(log)
            <==> exists i :: 0 <= i < |log| && log[i] == Add(vol) && Unset(vol) !in log[i..]
    decreases |log|
  {
    if log != [] {
      var k := |log| - 1;
      PresentUntilUnset(log[..k], vol);
      if vol in Replay(log) {
        if log[k] == Add(vol) {
          assert log[k..] == [Add(vol)];
        } else {
          var i :| 0 <= i < k && log[..k][i] == Add(vol) && Unset(vol) !in log[..k][i..];
          assert log[i..] == log[..k][i..] + [log[k]];
          assert log[i] == Add(vol) && Unset(vol) !in log[i..];
        }
      }
      forall i | 0 <= i < |log| && log[i] == Add(vol) && Unset(vol) !in log[i..] ensures vol in Replay(log) {
        assert log[i..][k - i] == log[k];
        if i < k {
          assert log[i..] == log[..k][i..] + [log[k]];
          assert log[..k][i] == Add(vol) && Unset(vol) !in log[..k][i..];
        }
      }
    }
  }

  // ---------- the code ----------

  /** The API server's side, with the operations it has accepted. */
  class ApiServer {
    var cm: ConfigMap
    ghost var log: seq<Operation>

    ghost predicate Valid()
      reads this
    {
      cm.data == Replay(log)
    }

    constructor ()
      ensures Valid() && cm == ConfigMap(0, {}) && log == []
    {
      cm, log := ConfigMap(0, {}), [];
    }

    method Get() returns (copy: ConfigMap)
      ensures copy == cm
    {
      return cm;
    }

    /** `stored` says whether the update took effect; the caller learns only `ok`. */
    method Update(copy: ConfigMap, reply: Reply, ghost op: Operation) returns (ok: bool, ghost stored: bool)
      requires Valid()
      requires copy.version == cm.version ==> copy.data == Edit(cm.data, op)
      modifies this
      ensures Valid()
      ensures stored <==> copy.version == old(cm).version && !reply.NotDelivered?
      ensures ok <==> stored && reply.Answered?
      ensures cm == if stored then Accept(old(cm), copy.data) else old(cm)
      ensures log == if stored then old(log) + [op] else old(log)
    {
      if reply.NotDelivered? || copy.version != cm.version {
        return false, false;
      }
      cm := Accept(cm, copy.data);
      Record(op);
      return reply.Answered?, true;
    }

    ghost method Record(op: Operation)
      requires cm.data == Edit(Replay(log), op)
      modifies this`log
      ensures Valid() && log == old(log) + [op]
    {
      ReplaySnoc(log, op);
      log := log + [op];
    }

    /** What other clients get accepted in the meantime. */
    method Interfere(others: seq<Operation>)
      requires Valid()
      modifies this
      ensures Valid()
      ensures log == old(log) + others && old(cm).version <= cm.version
      ensures cm.version == old(cm).version ==> cm.data == old(cm).data
      ensures others == [] ==> cm == old(cm)
    {
      if others != [] {
        AcceptOne(others[0]);
        Interfere(others[1..]);
        assert others == [others[0]] + others[1..];
      }
    }

    method AcceptOne(op: Operation)
      requires Valid()
      modifies this
      ensures Valid()
      ensures log == old(log) + [op] && cm == Accept(old(cm), Edit(old(cm).data, op))
    {
      ReplaySnoc(log, op);
      cm := Accept(cm, Edit(cm.data, op));
      log := log + [op];
    }
  }

  class ConfigMapMetaStore {
    const client: ApiServer

    constructor (client: ApiServer)
      ensures this.client == client
    {
      this.client := client;
    }

    /** `getOk` is whether the read succeeds. A nil map is an empty one. */
    method ListMetaInfos(getOk: bool) returns (ok: bool, data: set<VolumeId>)
      ensures ok == getOk
      ensures ok ==> data == client.cm.data
    {
      if !getOk {
        return false, {};
      }
      var cm := client.Get();
      return true, cm.data;
    }

    /** Whatever others do between the get and the update, the log gains their operations and
        then this one, if it is stored; and it is not if they changed anything. What is
        acknowledged is stored. */
    method AddMetaInfo(vol: VolumeId, getOk: bool, others: seq<Operation>, reply: Reply)
      returns (ok: bool, ghost stored: bool)
      requires client.Valid()
      modifies client
      ensures client.Valid()
      ensures client.log == old(client.log) + if !getOk then [] else if stored then others + [Add(vol)] else others
      ensures ok <==> stored && reply.Answered?
      ensures stored ==> vol in client.cm.data
      ensures stored ==> Replay(old(client.log) + others) == Replay(old(client.log))
      ensures others == [] ==> (stored <==> getOk && !reply.NotDelivered?)
      ensures others == [] && vol in old(client.cm.data) ==> client.cm == old(client.cm)
    {
      if !getOk {
        return false, false;
      }
      var cm := client.Get();
      cm := cm.(data := cm.data + {vol});
      client.Interfere(others);
      ok, stored := client.Update(cm, reply, Add(vol));
    }

    method UnsetMetaInfo(vol: VolumeId, getOk: bool, others: seq<Operation>, reply: Reply)
      returns (ok: bool, ghost stored: bool)
      requires client.Valid()
      modifies client
      ensures client.Valid()
      ensures client.log == old(client.log) + if !getOk then [] else if stored then others + [Unset(vol)] else others
      ensures ok <==> stored && reply.Answered?
      ensures stored ==> vol !in client.cm.data
      ensures stored ==> Replay(old(client.log) + others) == Replay(old(client.log))
      ensures others == [] ==> (stored <==> getOk && !reply.NotDelivered?)
      ensures others == [] && vol !in old(client.cm.data) ==> client.cm == old(client.cm)
    {
      if !getOk {
        return false, false;
      }
      var cm := client.Get();
      cm := cm.(data := cm.data - {vol});
      client.Interfere(others);
      ok, stored := client.Update(cm, reply, Unset(vol));
    }
  }
}

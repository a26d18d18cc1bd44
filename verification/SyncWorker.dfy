/** The sync worker: hostpath/syncworker.go. */
module SyncWorker {
  import opened Results
  import opened HostPathTypes
  import opened QuotaPaths
  import opened QuotaManager
  import opened NodeStatus

  datatype VolumeInfo = VolumeInfo(vol: VolumeId, info: PathQuota)

  predicate ListedOnce(infos: seq<VolumeInfo>, i: nat)
    requires i < |infos|
  {
    forall j :: 0 <= j < |infos| && j != i ==> infos[j].vol != infos[i].vol
  }

  /** The volume looks as it did when it was last published. */
  predicate LooksAs(cache: map<VolumeId, PathQuota>, item: VolumeInfo) {
    item.vol in cache && cache[item.vol].path == item.info.path
    && cache[item.vol].quota.hard == item.info.quota.hard && cache[item.vol].quota.used == item.info.quota.used
  }

  /** What is published about a volume. */
  datatype Annotation = Annotation(nodeName: string, path: Path, used: nat)

  function Describe(nodeName: string, q: PathQuota): Annotation {
    Annotation(nodeName, q.path, q.quota.used)
  }

  /** The reference: a loop that publishes every known volume unconditionally. */
  function PublishAll(published: map<VolumeId, Annotation>, infos: seq<VolumeInfo>, known: set<VolumeId>,
                      nodeName: string): map<VolumeId, Annotation>
  {
    if infos == [] then published
    else
      var last := infos[|infos| - 1];
      var before := PublishAll(published, infos[..|infos| - 1], known, nodeName);
      if last.vol in known then before[last.vol := Describe(nodeName, last.info)] else before
  }

  /** The cache holds what was last published, save of volumes whose last update took effect
      unanswered. */
  ghost predicate AllRemembered(cache: map<VolumeId, PathQuota>, infos: seq<VolumeInfo>, known: set<VolumeId>) {
    forall i {:trigger ListedOnce(infos, i)} :: 0 <= i < |infos| && infos[i].vol in known && ListedOnce(infos, i) ==>
      LooksAs(cache, infos[i])
  }

  lemma RememberedStep(was: map<VolumeId, PathQuota>, now: map<VolumeId, PathQuota>, infos: seq<VolumeInfo>,
                       item: VolumeInfo, known: set<VolumeId>)
    requires AllRemembered(was, infos, known) && (now == was || now == was[item.vol := item.info])
    requires item.vol in known ==> LooksAs(now, item)
    ensures AllRemembered(now, infos + [item], known)
  {
    var next := infos + [item];
    forall i | 0 <= i < |next| && next[i].vol in known && ListedOnce(next, i) ensures LooksAs(now, next[i]) {
      if i < |infos| {
        assert next[|infos|] == item && next[i] == infos[i];
        forall j | 0 <= j < |infos| && j != i ensures infos[j].vol != infos[i].vol {
          assert next[j] == infos[j];
        }
        assert ListedOnce(infos, i);
      }
    }
  }

  /** Volumes that are not listed, or not known, have the annotation they had. */
  ghost predicate OthersKept(now: map<VolumeId, Annotation>, before: map<VolumeId, Annotation>,
                             infos: seq<VolumeInfo>, known: set<VolumeId>)
  {
    forall v :: v !in known || (forall item :: item in infos ==> item.vol != v) ==>
      (v in now <==> v in before) && (v in now ==> now[v] == before[v])
  }

  lemma OthersKeptStep(was: map<VolumeId, Annotation>, now: map<VolumeId, Annotation>, before: map<VolumeId, Annotation>,
                       infos: seq<VolumeInfo>, item: VolumeInfo, known: set<VolumeId>)
    requires OthersKept(was, before, infos, known)
    requires now == was || (item.vol in known && item.vol in now && now == was[item.vol := now[item.vol]])
    ensures OthersKept(now, before, infos + [item], known)
  {
    assert item in infos + [item];
    assert forall other :: other in infos ==> other in infos + [item];
  }

  lemma {:induction false} PublishAllFields(published: map<VolumeId, Annotation>, infos: seq<VolumeInfo>, known: set<VolumeId>,
                                            nodeName: string, i: nat)
    requires i < |infos| && infos[i].vol in known && ListedOnce(infos, i)
    ensures var all := PublishAll(published, infos, known, nodeName);
            && infos[i].vol in all && all[infos[i].vol].nodeName == nodeName
            && all[infos[i].vol].path == infos[i].info.path && all[infos[i].vol].used == infos[i].info.quota.used
    decreases |infos|
  {
    var k := |infos| - 1;
    if i < k {
      assert ListedOnce(infos[..k], i);
      PublishAllFields(published, infos[..k], known, nodeName, i);
      assert infos[k].vol != infos[i].vol;
    }
  }

  ghost predicate CacheAgrees(cache: map<VolumeId, PathQuota>, published: map<VolumeId, Annotation>, nodeName: string,
                              unanswered: set<VolumeId>)
  {
    forall v :: v in cache && v !in unanswered ==> v in published && published[v] == Describe(nodeName, cache[v])
  }

  ghost predicate AgreeOutside(a: map<VolumeId, Annotation>, b: map<VolumeId, Annotation>, vols: set<VolumeId>) {
    forall v :: v !in vols ==> (v in a <==> v in b) && (v in a ==> a[v] == b[v])
  }

  /** Releasing a list of volumes one after another: what is left, and the failures in order. */
  function ReleaseEach(vols: set<VolumeId>, ids: seq<VolumeId>, succeeds: nat -> bool): (set<VolumeId>, seq<VolumeId>) {
    if ids == [] then (vols, [])
    else
      var k := |ids| - 1;
      var (left, failed) := ReleaseEach(vols, ids[..k], succeeds);
      if succeeds(k) then (left - {ids[k]}, failed) else (left, failed + [ids[k]])
  }

  /** The same, of the listed volumes that are not in the metastore. */
  function ReleaseOrphans(vols: set<VolumeId>, listed: seq<VolumeId>, meta: set<VolumeId>, succeeds: nat -> bool)
      : (set<VolumeId>, seq<VolumeId>)
  {
    if listed == [] then (vols, [])
    else
      var k := |listed| - 1;
      var (left, failed) := ReleaseOrphans(vols, listed[..k], meta, succeeds);
      if listed[k] in meta then (left, failed)
      else if succeeds(k) then (left - {listed[k]}, failed)
      else (left, failed + [listed[k]])
  }

  /** The quota manager as the worker uses it: the volumes it has, its disks' disabled flags. */
  class QuotaTable {
    var vols: set<VolumeId>
    var disabled: map<Path, bool>

    constructor (vols: set<VolumeId>, disabled: map<Path, bool>)
      ensures this.vols == vols && this.disabled == disabled
    {
      this.vols, this.disabled := vols, disabled;
    }

    method ReleaseVolumePath(vol: VolumeId, succeeds: bool) returns (ok: bool)
      modifies this`vols
      ensures ok == succeeds
      ensures vols == if ok then old(vols) - {vol} else old(vols)
    {
      if succeeds {
        vols := vols - {vol};
      }
      return succeeds;
    }

    method SetQuotaDiskDisabledState(mountPoint: Path, state: bool, succeeds: bool) returns (ok: bool)
      modifies this`disabled
      ensures ok == succeeds
      ensures disabled == if ok then old(disabled)[mountPoint := state] else old(disabled)
    {
      if succeeds {
        disabled := disabled[mountPoint := state];
      }
      return succeeds;
    }
  }

  /** The published records. */
  class HostPathApi {
    var annotations: map<VolumeId, Annotation>
    var nodeRecord: NodeUsageInfo

    constructor (annotations: map<VolumeId, Annotation>, nodeRecord: NodeUsageInfo)
      ensures this.annotations == annotations && this.nodeRecord == nodeRecord
    {
      this.annotations, this.nodeRecord := annotations, nodeRecord;
    }

    method UpdateHostPathPVUsageInfo(vol: VolumeId, a: Annotation, reply: Reply) returns (ok: bool)
      modifies this`annotations
      ensures ok <==> reply.Answered?
      ensures annotations == if reply.NotDelivered? then old(annotations) else old(annotations)[vol := a]
    {
      if !reply.NotDelivered? {
        annotations := annotations[vol := a];
      }
      return reply.Answered?;
    }

    method UpdateNodeHostPathPVUsageInfo(u: NodeUsageInfo, reply: Reply) returns (ok: bool)
      modifies this`nodeRecord
      ensures ok <==> reply.Answered?
      ensures nodeRecord == if reply.NotDelivered? then old(nodeRecord) else u
    {
      if !reply.NotDelivered? {
        nodeRecord := u;
      }
      return reply.Answered?;
    }
  }

  class SyncWorker {
    const nodeName: string
    const quotaMng: QuotaTable
    const hpClient: HostPathApi
    var shouldDeleteVolIds: seq<VolumeId>
    var lastSyncQuotaInfoCache: map<VolumeId, PathQuota>
    var lastNodeUsageInfo: NodeUsageInfo
    // history: what was published last took effect unanswered, of which volumes and of the node
    ghost var unansweredVols: set<VolumeId>
    ghost var unansweredNode: bool

    constructor (nodeName: string, quotaMng: QuotaTable, hpClient: HostPathApi)
      ensures this.nodeName == nodeName && this.quotaMng == quotaMng && this.hpClient == hpClient
      ensures shouldDeleteVolIds == [] && CacheValid() && RecordValid() && unansweredVols == {}
      ensures NodeRecords() == Started(hpClient.nodeRecord)
    {
      this.nodeName, this.quotaMng, this.hpClient := nodeName, quotaMng, hpClient;
      shouldDeleteVolIds, lastSyncQuotaInfoCache, lastNodeUsageInfo := [], map[], EMPTY_USAGE;
      unansweredVols, unansweredNode := {}, false;
    }

    // ---------- orphans ----------

    /** `retries(i)` and `releases(i)` say whether the i-th release of the retry loop and of the
        main loop succeeds (an id can be on the list twice); `metaInfos` is what the metastore
        read gives. `released` collects the successful releases. */
    method CleanOrphanQuotaPath(quotaInfos: seq<VolumeId>, metaInfos: Option<set<VolumeId>>,
                                retries: nat -> bool, releases: nat -> bool)
      returns (ok: bool, ghost released: set<VolumeId>)
      modifies this`shouldDeleteVolIds, quotaMng`vols
      ensures ok <==> metaInfos.Some?
      ensures quotaMng.vols == old(quotaMng.vols) - released
      ensures var (left, failed) := ReleaseEach(old(quotaMng.vols), old(shouldDeleteVolIds), retries);
              if !ok then quotaMng.vols == left
              else var (left', failed') := ReleaseOrphans(left, quotaInfos, metaInfos.value, releases);
                   quotaMng.vols == left' && shouldDeleteVolIds == failed + failed'
      // a failed read keeps the whole list, and only listed volumes were retried
      ensures !ok ==> shouldDeleteVolIds == old(shouldDeleteVolIds) && forall v :: v in released ==> v in old(shouldDeleteVolIds)
      // nothing else than orphans is touched
      ensures ok ==> forall v :: v in released || v in shouldDeleteVolIds ==>
        v in old(shouldDeleteVolIds) || (v in quotaInfos && v !in metaInfos.value)
      // no orphan is forgotten
      ensures ok ==> forall v :: v in quotaInfos && v !in metaInfos.value ==> v in released || v in shouldDeleteVolIds
      ensures ok ==> forall v :: v in old(shouldDeleteVolIds) ==> v in released || v in shouldDeleteVolIds
      // if everything succeeds and the listing was complete, only volumes of the metastore remain
      ensures ok && (forall i :: retries(i) && releases(i)) ==> shouldDeleteVolIds == []
      ensures ok && (forall i :: retries(i) && releases(i)) && (forall v :: v in old(quotaMng.vols) ==> v in quotaInfos) ==>
        quotaMng.vols <= metaInfos.value
    {
      released := {};
      var nextLoop: seq<VolumeId> := [];
      for i := 0 to |shouldDeleteVolIds|
        invariant shouldDeleteVolIds == old(shouldDeleteVolIds) && quotaMng.vols == old(quotaMng.vols) - released
        invariant forall v :: v in released || v in nextLoop ==> v in shouldDeleteVolIds
        invariant forall v :: v in shouldDeleteVolIds[..i] ==> v in released || v in nextLoop
        invariant (forall i :: retries(i) && releases(i)) ==> nextLoop == []
        invariant (quotaMng.vols, nextLoop) == ReleaseEach(old(quotaMng.vols), shouldDeleteVolIds[..i], retries)
      {
        assert shouldDeleteVolIds[..i + 1][..i] == shouldDeleteVolIds[..i];
        var volId := shouldDeleteVolIds[i];
        var done := quotaMng.ReleaseVolumePath(volId, retries(i));
        if done {
          released := released + {volId};
        } else {
          nextLoop := nextLoop + [volId];
        }
      }
      assert shouldDeleteVolIds[..|shouldDeleteVolIds|] == shouldDeleteVolIds;
      if metaInfos.None? {
        return false, released;
      }
      ghost var left, failed := quotaMng.vols, nextLoop;
      ghost var failed': seq<VolumeId> := [];
      for i := 0 to |quotaInfos|
        invariant shouldDeleteVolIds == old(shouldDeleteVolIds) && quotaMng.vols == old(quotaMng.vols) - released
        invariant forall v :: v in released || v in nextLoop ==>
          v in shouldDeleteVolIds || (v in quotaInfos && v !in metaInfos.value)
        invariant forall v :: v in shouldDeleteVolIds ==> v in released || v in nextLoop
        invariant forall v :: v in quotaInfos[..i] && v !in metaInfos.value ==> v in released || v in nextLoop
        invariant (forall i :: retries(i) && releases(i)) ==> nextLoop == []
        invariant nextLoop == failed + failed'
        invariant (quotaMng.vols, failed') == ReleaseOrphans(left, quotaInfos[..i], metaInfos.value, releases)
      {
        assert quotaInfos[..i + 1][..i] == quotaInfos[..i];
        var volId := quotaInfos[i];
        if volId in metaInfos.value {
          continue;
        }
        var done := quotaMng.ReleaseVolumePath(volId, releases(i));
        if done {
          released := released + {volId};
        } else {
          nextLoop := nextLoop + [volId];
          failed' := failed' + [volId];
        }
      }
      assert quotaInfos[..|quotaInfos|] == quotaInfos;
      shouldDeleteVolIds := nextLoop;
      return true, released;
    }

    // ---------- volume usage ----------

    ghost predicate CacheValid()
      reads this, hpClient
    {
      CacheAgrees(lastSyncQuotaInfoCache, hpClient.annotations, nodeName, unansweredVols)
    }

    predicate ShouldUpdate(vol: VolumeId, q: PathQuota)
      reads this
    {
      vol !in lastSyncQuotaInfoCache ||
      (var last := lastSyncQuotaInfoCache[vol];
       q.path != last.path || q.quota.hard != last.quota.hard || q.quota.used != last.quota.used)
    }

    /** Volumes that look as they did last time are skipped, yet after `n` of them the published
        annotations are those of the loop that skips none, save of volumes whose last update
        took effect unanswered. The loop stops at the first update that is not acknowledged. */
    method SyncQuotaPathUsage(quotaInfos: seq<VolumeInfo>, known: set<VolumeId>, replies: VolumeId -> Reply)
      returns (ok: bool, ghost n: nat)
      requires CacheValid()
      modifies this`lastSyncQuotaInfoCache, this`unansweredVols, hpClient`annotations
      ensures CacheValid()
      ensures n <= |quotaInfos| && (ok <==> n == |quotaInfos|)
      ensures AgreeOutside(hpClient.annotations, PublishAll(old(hpClient.annotations), quotaInfos[..n], known, nodeName),
                           unansweredVols)
      // what is published, field by field
      ensures forall i :: 0 <= i < n && quotaInfos[i].vol in known && quotaInfos[i].vol !in unansweredVols
                          && ListedOnce(quotaInfos[..n], i) ==>
                var item := quotaInfos[i];
                && item.vol in hpClient.annotations
                && hpClient.annotations[item.vol].nodeName == nodeName
                && hpClient.annotations[item.vol].path == item.info.path
                && hpClient.annotations[item.vol].used == item.info.quota.used
      // and remembered
      ensures AllRemembered(lastSyncQuotaInfoCache, quotaInfos[..n], known)
      // other volumes, and unknown ones, keep their annotation
      ensures OthersKept(hpClient.annotations, old(hpClient.annotations), if ok then quotaInfos else quotaInfos[..n + 1], known)
      // nothing is sent for volumes that look as they did
      ensures (forall item :: item in quotaInfos ==> LooksAs(old(lastSyncQuotaInfoCache), item)) ==>
                ok && hpClient.annotations == old(hpClient.annotations) && lastSyncQuotaInfoCache == old(lastSyncQuotaInfoCache)
      ensures ok ==> unansweredVols <= old(unansweredVols)
      ensures !ok ==> var vol := quotaInfos[n].vol;
                      && !replies(vol).Answered?
                      && unansweredVols <= if replies(vol).AnswerLost? then old(unansweredVols) + {vol} else old(unansweredVols)
    {
      for i := 0 to |quotaInfos|
        invariant CacheValid() && unansweredVols <= old(unansweredVols)
        invariant AgreeOutside(hpClient.annotations, PublishAll(old(hpClient.annotations), quotaInfos[..i], known, nodeName),
                               unansweredVols)
        invariant AllRemembered(lastSyncQuotaInfoCache, quotaInfos[..i], known)
        invariant OthersKept(hpClient.annotations, old(hpClient.annotations), quotaInfos[..i], known)
        invariant (forall item :: item in quotaInfos ==> LooksAs(old(lastSyncQuotaInfoCache), item)) ==>
                    hpClient.annotations == old(hpClient.annotations) && lastSyncQuotaInfoCache == old(lastSyncQuotaInfoCache)
      {
        var item := quotaInfos[i];
        assert item in quotaInfos && quotaInfos[..i + 1] == quotaInfos[..i] + [item];
        ghost var cache, annotations := lastSyncQuotaInfoCache, hpClient.annotations;
        var done := SyncOne(item, item.vol in known, replies(item.vol));
        OthersKeptStep(annotations, hpClient.annotations, old(hpClient.annotations), quotaInfos[..i], item, known);
        if !done {
          FieldsPublished(old(hpClient.annotations), quotaInfos[..i], known);
          return false, i;
        }
        AgreeStep(annotations, hpClient.annotations, old(hpClient.annotations), quotaInfos[..i], item, known, unansweredVols);
        RememberedStep(cache, lastSyncQuotaInfoCache, quotaInfos[..i], item, known);
      }
      assert quotaInfos[..|quotaInfos|] == quotaInfos;
      FieldsPublished(old(hpClient.annotations), quotaInfos, known);
      return true, |quotaInfos|;
    }

    /** One volume: skipped if it looks as it did, or if it is not known. */
    method SyncOne(item: VolumeInfo, isKnown: bool, reply: Reply) returns (ok: bool)
      requires CacheValid()
      modifies this`lastSyncQuotaInfoCache, this`unansweredVols, hpClient`annotations
      ensures CacheValid()
      ensures LooksAs(old(lastSyncQuotaInfoCache), item) || !isKnown ==>
        && ok && hpClient.annotations == old(hpClient.annotations)
        && lastSyncQuotaInfoCache == old(lastSyncQuotaInfoCache) && unansweredVols == old(unansweredVols)
      ensures !LooksAs(old(lastSyncQuotaInfoCache), item) && isKnown ==>
        && (ok <==> reply.Answered?)
        && hpClient.annotations
           == (if reply.NotDelivered? then old(hpClient.annotations)
               else old(hpClient.annotations)[item.vol := Annotation(nodeName, item.info.path, item.info.quota.used)])
        && lastSyncQuotaInfoCache
           == (if ok then old(lastSyncQuotaInfoCache)[item.vol := item.info] else old(lastSyncQuotaInfoCache))
        && unansweredVols
           == (match reply
               case Answered => old(unansweredVols) - {item.vol}
               case NotDelivered => old(unansweredVols)
               case AnswerLost => old(unansweredVols) + {item.vol})
    {
      if ShouldUpdate(item.vol, item.info) {
        if !isKnown {
          return true;
        }
        ok := hpClient.UpdateHostPathPVUsageInfo(item.vol, Describe(nodeName, item.info), reply);
        if reply.AnswerLost? {
          unansweredVols := unansweredVols + {item.vol};
        }
        if !ok {
          return false;
        }
        lastSyncQuotaInfoCache := lastSyncQuotaInfoCache[item.vol := item.info];
        unansweredVols := unansweredVols - {item.vol};
      }
      return true;
    }

    /** After one volume was skipped or acknowledged, the annotations still agree. */
    lemma AgreeStep(was: map<VolumeId, Annotation>, now: map<VolumeId, Annotation>, before: map<VolumeId, Annotation>,
                    infos: seq<VolumeInfo>, item: VolumeInfo, known: set<VolumeId>, unanswered: set<VolumeId>)
      requires AgreeOutside(was, PublishAll(before, infos, known, nodeName), unanswered + {item.vol})
      requires item.vol !in known ==> now == was
      requires item.vol in known ==> now == was || now == was[item.vol := Describe(nodeName, item.info)]
      requires item.vol in known && item.vol !in unanswered ==> item.vol in now && now[item.vol] == Describe(nodeName, item.info)
      requires item.vol !in known && item.vol !in unanswered ==> AgreeOutside(was, PublishAll(before, infos, known, nodeName), unanswered)
      ensures AgreeOutside(now, PublishAll(before, infos + [item], known, nodeName), unanswered)
    {
      assert (infos + [item])[..|infos|] == infos;
    }

    /** The annotations of volumes listed once are what was listed, where they agree with the
        unconditional loop. */
    lemma FieldsPublished(before: map<VolumeId, Annotation>, infos: seq<VolumeInfo>, known: set<VolumeId>)
      requires AgreeOutside(hpClient.annotations, PublishAll(before, infos, known, nodeName), unansweredVols)
      ensures forall i :: 0 <= i < |infos| && infos[i].vol in known && infos[i].vol !in unansweredVols && ListedOnce(infos, i) ==>
                && infos[i].vol in hpClient.annotations
                && hpClient.annotations[infos[i].vol].nodeName == nodeName
                && hpClient.annotations[infos[i].vol].path == infos[i].info.path
                && hpClient.annotations[infos[i].vol].used == infos[i].info.quota.used
    {
      forall i | 0 <= i < |infos| && infos[i].vol in known && infos[i].vol !in unansweredVols && ListedOnce(infos, i)
        ensures && infos[i].vol in hpClient.annotations
                && hpClient.annotations[infos[i].vol].nodeName == nodeName
                && hpClient.annotations[infos[i].vol].path == infos[i].info.path
                && hpClient.annotations[infos[i].vol].used == infos[i].info.quota.used
      {
        PublishAllFields(before, infos, known, nodeName, i);
      }
    }

    // ---------- the node record ----------

    ghost predicate RecordValid()
      reads this, hpClient
    {
      RecordsAgree(NodeRecords())
    }

    ghost function NodeRecords(): NodeState
      reads this, hpClient
    {
      NodeState(lastNodeUsageInfo, hpClient.nodeRecord, unansweredNode)
    }

    method NodeChanged(u: NodeUsageInfo) returns (r: Option<bool>)
      ensures r == ShouldNodeUpdate(lastNodeUsageInfo, u)
    {
      var last := lastNodeUsageInfo;
      if last.capacity != u.capacity || last.quotaSize != u.quotaSize
         || RoundOffBytes(last.used) != RoundOffBytes(u.used) {
        return Some(true);
      }
      for index := 0 to |last.diskStatus|
        invariant DisksChanged(last.diskStatus, u.diskStatus, 0) == DisksChanged(last.diskStatus, u.diskStatus, index)
      {
        if index >= |u.diskStatus| {
          return None;
        }
        var disk := last.diskStatus[index];
        if disk.mountPoint != u.diskStatus[index].mountPoint
           || RoundOffBytes(disk.used) != RoundOffBytes(u.diskStatus[index].used)
           || disk.allocatable != disk.allocatable {
          return Some(true);
        }
      }
      return Some(false);
    }

    /** Brings the disks' disabled flags in line with the node's annotation, then publishes the
        record if it changed. The record is built from the flags as they were listed. */
    method SyncNodeQuotaStatus(diskInfo: seq<Disk>, disableDisks: Option<set<Path>>, flagOk: bool, reply: Reply)
      returns (r: SyncResult)
      requires RecordValid()
      modifies this`lastNodeUsageInfo, this`unansweredNode, hpClient`nodeRecord, quotaMng`disabled
      ensures RecordValid()
      ensures disableDisks.None? ==>
        r == Failed && NodeRecords() == old(NodeRecords()) && quotaMng.disabled == old(quotaMng.disabled)
      ensures disableDisks.Some? ==> (NodeRecords(), r) == SyncNode(old(NodeRecords()), diskInfo, reply)
      // after a successful sync the remembered record is close to the present
      ensures r == Failed ==> lastNodeUsageInfo == old(lastNodeUsageInfo)
      ensures r == IndexOutOfRange ==> |diskInfo| < |old(lastNodeUsageInfo).diskStatus|
      ensures r == Synced ==> UpToDate(lastNodeUsageInfo, Usage(diskInfo))
      ensures r == Synced && Usage(diskInfo).capacity != 0 ==> (hpClient.nodeRecord == lastNodeUsageInfo <==> !unansweredNode)
      // the flags follow the annotation
      ensures disableDisks.Some? && flagOk && FlagsListed(old(quotaMng.disabled), diskInfo) ==>
        forall d :: d in diskInfo ==>
          d.mountPoint in quotaMng.disabled && (quotaMng.disabled[d.mountPoint] <==> d.mountPoint in disableDisks.value)
      ensures !flagOk ==> quotaMng.disabled == old(quotaMng.disabled)
      ensures FlagsListed(old(quotaMng.disabled), diskInfo) ==>
        forall p :: p in old(quotaMng.disabled) && (forall d :: d in diskInfo ==> d.mountPoint != p) ==>
          p in quotaMng.disabled && quotaMng.disabled[p] == old(quotaMng.disabled)[p]
    {
      if disableDisks.None? {
        return Failed;
      }
      SyncFlags(diskInfo, disableDisks.value, flagOk);
      if FlagsListed(old(quotaMng.disabled), diskInfo) {
        SetFlagsFollow(old(quotaMng.disabled), diskInfo, disableDisks.value);
      }
      r := PublishNode(diskInfo, reply);
    }

    method SyncFlags(diskInfo: seq<Disk>, disableDisks: set<Path>, flagOk: bool)
      modifies quotaMng`disabled
      ensures quotaMng.disabled == if flagOk then SetFlags(old(quotaMng.disabled), diskInfo, disableDisks) else old(quotaMng.disabled)
    {
      for i := 0 to |diskInfo|
        invariant quotaMng.disabled == if flagOk then SetFlags(old(quotaMng.disabled), diskInfo[..i], disableDisks) else old(quotaMng.disabled)
      {
        var disk := diskInfo[i];
        assert diskInfo[..i + 1][..i] == diskInfo[..i];
        if disk.mountPoint in disableDisks {
          if !disk.disabled {
            var _ := quotaMng.SetQuotaDiskDisabledState(disk.mountPoint, true, flagOk);
          }
        } else {
          if disk.disabled {
            var _ := quotaMng.SetQuotaDiskDisabledState(disk.mountPoint, false, flagOk);
          }
        }
      }
      assert diskInfo[..|diskInfo|] == diskInfo;
    }

    method PublishNode(diskInfo: seq<Disk>, reply: Reply) returns (r: SyncResult)
      requires RecordValid()
      modifies this`lastNodeUsageInfo, this`unansweredNode, hpClient`nodeRecord
      ensures RecordValid()
      ensures (NodeRecords(), r) == SyncNode(old(NodeRecords()), diskInfo, reply)
      ensures r == Failed ==> lastNodeUsageInfo == old(lastNodeUsageInfo)
      ensures r == IndexOutOfRange ==> |diskInfo| < |old(lastNodeUsageInfo).diskStatus|
      ensures r == Synced ==> UpToDate(lastNodeUsageInfo, Usage(diskInfo))
      ensures r == Synced && Usage(diskInfo).capacity != 0 ==> (hpClient.nodeRecord == lastNodeUsageInfo <==> !unansweredNode)
    {
      SyncFacts(NodeRecords(), diskInfo, reply);
      r := UpdateNode(diskInfo, reply);
    }

    method UpdateNode(diskInfo: seq<Disk>, reply: Reply) returns (r: SyncResult)
      modifies this`lastNodeUsageInfo, this`unansweredNode, hpClient`nodeRecord
      ensures (NodeRecords(), r) == SyncNode(old(NodeRecords()), diskInfo, reply)
    {
      var nodeDiskInfo := BuildUsage(diskInfo);
      var changed := NodeChanged(nodeDiskInfo);
      if changed.None? {
        return IndexOutOfRange;
      }
      if changed.value {
        var done := hpClient.UpdateNodeHostPathPVUsageInfo(nodeDiskInfo, reply);
        if !reply.NotDelivered? {
          unansweredNode := !done;
        }
        if !done {
          return Failed;
        }
        lastNodeUsageInfo := nodeDiskInfo;
      }
      return Synced;
    }
  }

  /** The quota manager's flags are the ones in the listing, one per mount point. */
  ghost predicate FlagsListed(disabled: map<Path, bool>, disks: seq<Disk>) {
    && (forall d :: d in disks ==> d.mountPoint in disabled && disabled[d.mountPoint] == d.disabled)
    && (forall i, j :: 0 <= i < j < |disks| ==> disks[i].mountPoint != disks[j].mountPoint)
  }

  ghost function SetFlags(disabled: map<Path, bool>, disks: seq<Disk>, wanted: set<Path>): map<Path, bool> {
    if disks == [] then disabled
    else
      var d := disks[|disks| - 1];
      var before := SetFlags(disabled, disks[..|disks| - 1], wanted);
      if d.disabled == (d.mountPoint in wanted) then before else before[d.mountPoint := d.mountPoint in wanted]
  }

  lemma {:induction false} SetFlagsFollow(disabled: map<Path, bool>, disks: seq<Disk>, wanted: set<Path>)
    requires FlagsListed(disabled, disks)
    ensures var now := SetFlags(disabled, disks, wanted);
            && (forall d :: d in disks ==> d.mountPoint in now && (now[d.mountPoint] <==> d.mountPoint in wanted))
            && (forall p :: p in disabled && (forall d :: d in disks ==> d.mountPoint != p) ==> p in now && now[p] == disabled[p])
    decreases |disks|
  {
    if disks != [] {
      var k := |disks| - 1;
      SetFlagsFollow(disabled, disks[..k], wanted);
      assert disks == disks[..k] + [disks[k]];
      assert forall d :: d in disks[..k] ==> d.mountPoint != disks[k].mountPoint;
    }
  }
}

/** The quota manager's state and what each of its calls does to it:
    quota-manager/quotamanager_xfs.go over the provider.

    Every call runs under the manager's mutex, so a call is one step. */
module QuotaManager {
  import opened Results
  import opened QuotaPaths
  import opened QuotaProvider

  datatype Disk = Disk(mountPoint: Path, capacity: nat, used: nat, quotaSize: nat,
                       allocatable: nat, disabled: bool)

  datatype PathQuota = PathQuota(path: Path, device: Device, quota: Quota)

  /** `grown` is history: the volumes enlarged since they were created. */
  datatype Manager = Manager(disks: map<Device, Disk>, quotas: map<VolumeId, PathQuota>,
                             provider: Provider, grown: set<VolumeId>)

  // ---------- disk selection ----------

  predicate Eligible(d: Disk, size: nat) {
    !d.disabled && size <= d.allocatable
  }

  ghost predicate Fits(disks: map<Device, Disk>, size: nat) {
    exists dev :: dev in disks && Eligible(disks[dev], size)
  }

  /** An eligible disk with the most allocatable space; ties may go either way. */
  ghost predicate WorstFit(disks: map<Device, Disk>, size: nat, dev: Device) {
    && dev in disks && Eligible(disks[dev], size)
    && forall e :: e in disks && Eligible(disks[e], size) ==> disks[e].allocatable <= disks[dev].allocatable
  }

  // ---------- the calls ----------

  function WithQuotaSize(d: Disk, quotaSize: nat): Disk {
    d.(quotaSize := quotaSize, allocatable := U64(d.capacity - quotaSize))
  }

  ghost function Publish(m: Manager, vol: VolumeId, capacity: int, dev: Device, o: Outcome): (Manager, Result<Path>)
    requires vol !in m.quotas && Fits(m.disks, U64(capacity)) ==> dev in m.disks
  {
    var size := U64(capacity);
    if vol in m.quotas then (m, Ok(m.quotas[vol].path))
    else if !Fits(m.disks, size) then (m, Err)
    else
      var d := m.disks[dev];
      var path := QuotaPath(d.mountPoint, vol);
      var k := m.provider.kernel;
      if path !in k.dirs && !o.mkdir then (m, Err)
      else
        var withDir := if path in k.dirs then k else k.(dirs := k.dirs[path := 0]);
        Create(m.(provider := m.provider.(kernel := withDir)), vol, dev, path, size, o)
  }

  /** The rest of a publish, once the directory is there; a failure removes it again. */
  ghost function Create(m: Manager, vol: VolumeId, dev: Device, path: Path, size: nat, o: Outcome): (Manager, Result<Path>)
    requires dev in m.disks
  {
    var (p, ok) := SetQuota(m.provider, path, dev, size, o);
    if !ok then (m.(provider := RemoveDir(p, path, o).0), Err)
    else
      var d := m.disks[dev];
      (Manager(m.disks[dev := WithQuotaSize(d, U64(d.quotaSize + size))],
               m.quotas[vol := PathQuota(path, dev, Quota(size, size, 0))], p, m.grown), Ok(path))
  }

  ghost function Expand(m: Manager, vol: VolumeId, capacity: int, o: Outcome): (Manager, bool) {
    var size := U64(capacity);
    if vol !in m.quotas || m.quotas[vol].device !in m.disks then (m, false)
    else
      var q := m.quotas[vol];
      var d := m.disks[q.device];
      var oldSize := q.quota.hard;
      if oldSize > size || d.allocatable < size - oldSize then (m, false)
      else
        var (p, ok) := SetQuota(m.provider, q.path, q.device, size, o);
        if !ok then (m.(provider := p), false)
        else (Manager(m.disks[q.device := WithQuotaSize(d, U64(U64(d.quotaSize + size) - oldSize))],
                      m.quotas[vol := q.(quota := Quota(size, size, q.quota.used))], p,
                      if oldSize < size then m.grown + {vol} else m.grown), true)
  }

  function Release(m: Manager, vol: VolumeId, o: Outcome): (Manager, bool) {
    if vol !in m.quotas then (m, true)
    else if m.quotas[vol].device !in m.disks then (m, false)
    else
      var q := m.quotas[vol];
      var d := m.disks[q.device];
      var (p, ok) := DeleteQuota(m.provider, q.path, o);
      if !ok then (m.(provider := p), false)
      else (Manager(m.disks[q.device := WithQuotaSize(d, U64(d.quotaSize - q.quota.hard))],
                    m.quotas - {vol}, p, m.grown - {vol}), true)
  }

  /** Listing the quota paths refreshes stale usage figures one volume at a time. */
  function Refresh(m: Manager, vol: VolumeId, o: Outcome): (Manager, bool) {
    if vol !in m.quotas then (m, false)
    else
      var q := m.quotas[vol];
      var (p, r) := GetQuota(m.provider, q.path, q.device, o);
      if r.None? then (m.(provider := p), false)
      else (m.(provider := p, quotas := m.quotas[vol := q.(quota := q.quota.(used := r.value.used))]), true)
  }

  /** The volumes of one listing, in the order they were refreshed; it stops at a failure. */
  function RefreshAll(m: Manager, vols: seq<VolumeId>, o: VolumeId -> Outcome): (Manager, bool)
    decreases |vols|
  {
    if vols == [] then (m, true)
    else
      var last := vols[|vols| - 1];
      var (n, ok) := RefreshAll(m, vols[..|vols| - 1], o);
      if ok then Refresh(n, last, o(last)) else (n, false)
  }

  function RefreshDisk(m: Manager, dev: Device, used: nat): Manager {
    if dev in m.disks then m.(disks := m.disks[dev := m.disks[dev].(used := used)]) else m
  }

  function SetDisabled(m: Manager, dev: Device, disabled: bool): Manager {
    if dev in m.disks then m.(disks := m.disks[dev := m.disks[dev].(disabled := disabled)]) else m
  }

  // ---------- runs ----------

  datatype Step =
    | PublishStep(vol: VolumeId, capacity: int, dev: Device, o: Outcome)
    | ExpandStep(vol: VolumeId, capacity: int, o: Outcome)
    | ReleaseStep(vol: VolumeId, o: Outcome)
    | RefreshStep(vol: VolumeId, o: Outcome)
    | RefreshDiskStep(dev: Device, used: nat)
    | DisableStep(dev: Device, disabled: bool)

  /** The environment's choices are possible ones: a free id, and a worst-fit disk. */
  ghost predicate Possible(m: Manager, s: Step) {
    match s
    case PublishStep(vol, capacity, dev, o) =>
      && ValidChoice(m.provider, o)
      && (vol !in m.quotas && Fits(m.disks, U64(capacity)) ==> WorstFit(m.disks, U64(capacity), dev))
    case ExpandStep(_, _, o) => ValidChoice(m.provider, o)
    case _ => true
  }

  ghost function Apply(m: Manager, s: Step): Manager
    requires Possible(m, s)
  {
    match s
    case PublishStep(vol, capacity, dev, o) => Publish(m, vol, capacity, dev, o).0
    case ExpandStep(vol, capacity, o) => Expand(m, vol, capacity, o).0
    case ReleaseStep(vol, o) => Release(m, vol, o).0
    case RefreshStep(vol, o) => Refresh(m, vol, o).0
    case RefreshDiskStep(dev, used) => RefreshDisk(m, dev, used)
    case DisableStep(dev, disabled) => SetDisabled(m, dev, disabled)
  }

  ghost predicate PossibleRun(m: Manager, steps: seq<Step>)
    decreases |steps|
  {
    steps == [] || (Possible(m, steps[0]) && PossibleRun(Apply(m, steps[0]), steps[1..]))
  }

  ghost function Run(m: Manager, steps: seq<Step>): Manager
    requires PossibleRun(m, steps)
    decreases |steps|
  {
    if steps == [] then m else Run(Apply(m, steps[0]), steps[1..])
  }

  // ---------- totals ----------

  ghost function SizesOn(quotas: map<VolumeId, PathQuota>, dev: Device): map<VolumeId, nat> {
    map v | v in quotas && quotas[v].device == dev :: quotas[v].quota.hard
  }

  lemma SizesOnPut(quotas: map<VolumeId, PathQuota>, vol: VolumeId, q: PathQuota, dev: Device)
    requires vol in quotas ==> quotas[vol].device == q.device
    ensures SizesOn(quotas[vol := q], dev)
            == if dev == q.device then SizesOn(quotas, dev)[vol := q.quota.hard] else SizesOn(quotas, dev)
  {
  }

  lemma SizesOnDrop(quotas: map<VolumeId, PathQuota>, vol: VolumeId, dev: Device)
    requires vol in quotas
    ensures SizesOn(quotas - {vol}, dev)
            == if dev == quotas[vol].device then SizesOn(quotas, dev) - {vol} else SizesOn(quotas, dev)
  {
  }

  lemma {:induction false} RunOneMore(m: Manager, steps: seq<Step>, s: Step)
    requires PossibleRun(m, steps) && Possible(Run(m, steps), s)
    ensures PossibleRun(m, steps + [s]) && Run(m, steps + [s]) == Apply(Run(m, steps), s)
    decreases |steps|
  {
    if steps == [] {
      assert (steps + [s])[1..] == [];
    } else {
      assert (steps + [s])[1..] == steps[1..] + [s];
      RunOneMore(Apply(m, steps[0]), steps[1..], s);
    }
  }

  /** A listing is a run of refresh steps, so whatever every run keeps, a listing keeps. */
  lemma {:induction false} RefreshAllIsRun(m: Manager, vols: seq<VolumeId>, o: VolumeId -> Outcome) returns (steps: seq<Step>)
    ensures forall s :: s in steps ==> s.RefreshStep?
    ensures PossibleRun(m, steps) && Run(m, steps) == RefreshAll(m, vols, o).0
    decreases |vols|
  {
    if vols == [] {
      steps := [];
    } else {
      var last := vols[|vols| - 1];
      steps := RefreshAllIsRun(m, vols[..|vols| - 1], o);
      if RefreshAll(m, vols[..|vols| - 1], o).1 {
        RunOneMore(m, steps, RefreshStep(last, o(last)));
        steps := steps + [RefreshStep(last, o(last))];
      }
    }
  }
}

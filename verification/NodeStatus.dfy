/** What a node publishes about its disks, and when: syncworker.go with `RoundOffBytes` of
    pkg/util/util.go. */
module NodeStatus {
  import opened Results
  import opened Sorting
  import opened HostPathTypes
  import opened QuotaProvider
  import opened QuotaManager
  import opened Conservation
  import opened NodeMatch

  const MIB := 1024 * 1024
  const GIB := 1024 * MIB

  function CeilDiv(a: int, b: int): int
    requires 0 < b
  {
    (a + b - 1) / b
  }

  /** Whole MiB below one GiB, whole GiB from there on. */
  function RoundOffBytes(bytes: int): int {
    if bytes < GIB then CeilDiv(bytes, MIB) * MIB else CeilDiv(bytes, GIB) * GIB
  }

  lemma RoundOffAbove(b: nat)
    ensures b <= RoundOffBytes(b) < b + if b < GIB then MIB else GIB
  {
  }

  /** The rounded size is whole MiB below one GiB, and whole GiB from there on. */
  lemma RoundOffIsWhole(b: int)
    ensures b < GIB ==> RoundOffBytes(b) % MIB == 0
    ensures GIB <= b ==> RoundOffBytes(b) % GIB == 0
  {
  }

  lemma RoundOffMonotone(a: nat, b: nat)
    requires a <= b
    ensures RoundOffBytes(a) <= RoundOffBytes(b)
  {
  }

  lemma RoundOffIdempotent(b: nat)
    ensures RoundOffBytes(RoundOffBytes(b)) == RoundOffBytes(b)
  {
  }

  /** Every size but zero is rounded up to at least one MiB. */
  lemma RoundOffAtLeastMiBIff(b: nat)
    ensures RoundOffBytes(b) >= MIB <==> b > 0
    ensures RoundOffBytes(0) == 0
  {
  }

  predicate Near(a: int, b: int) {
    a - b < GIB && b - a < GIB
  }

  lemma SameRoundingIsNear(a: int, b: int)
    requires RoundOffBytes(a) == RoundOffBytes(b)
    ensures Near(a, b)
  {
  }

  // ---------- building the record ----------

  function ToDiskInfo(d: Disk): DiskInfo {
    DiskInfo(d.mountPoint, Int64(d.capacity), Int64(d.quotaSize), Int64(d.used), Int64(d.allocatable), d.disabled)
  }

  function Infos(disks: seq<Disk>): (infos: seq<DiskInfo>)
    ensures |infos| == |disks|
  {
    if disks == [] then [] else Infos(disks[..|disks| - 1]) + [ToDiskInfo(disks[|disks| - 1])]
  }

  lemma {:induction false} InfosAt(disks: seq<Disk>, i: nat)
    requires i < |disks|
    ensures Infos(disks)[i] == ToDiskInfo(disks[i])
    decreases |disks|
  {
    if i < |disks| - 1 {
      InfosAt(disks[..|disks| - 1], i);
    }
  }

  datatype Field = Capacity | QuotaSize | Used | Allocatable

  function Get(info: DiskInfo, f: Field): int {
    match f
    case Capacity => info.capacity
    case QuotaSize => info.quotaSize
    case Used => info.used
    case Allocatable => info.allocatable
  }

  /** The sum of one field over the disks. */
  function Total(infos: seq<DiskInfo>, f: Field): int {
    if infos == [] then 0 else Total(infos[..|infos| - 1], f) + Get(infos[|infos| - 1], f)
  }

  /** Totals are sums in 64 bits; the disks are sorted for the scheduler. */
  function Usage(disks: seq<Disk>): NodeUsageInfo {
    var infos := Infos(disks);
    var capacity, used := Int64(Total(infos, Capacity)), Int64(Total(infos, Used));
    NodeUsageInfo(capacity, Int64(Total(infos, QuotaSize)), used, Int64(capacity - used),
                  Int64(Total(infos, Allocatable)), Sort(infos, DiskBefore))
  }

  /** The record while it is being built: 64-bit sums so far, the disks in reading order. */
  function Summary(infos: seq<DiskInfo>): NodeUsageInfo {
    NodeUsageInfo(Int64(Total(infos, Capacity)), Int64(Total(infos, QuotaSize)), Int64(Total(infos, Used)), 0,
                  Int64(Total(infos, Allocatable)), infos)
  }

  lemma TotalSnoc(infos: seq<DiskInfo>, info: DiskInfo, f: Field)
    ensures Int64(Int64(Total(infos, f)) + Get(info, f)) == Int64(Total(infos + [info], f))
  {
    assert (infos + [info])[..|infos|] == infos;
    Int64Add(Total(infos, f), Get(info, f));
  }

  lemma SummarySnoc(infos: seq<DiskInfo>, info: DiskInfo)
    ensures var u := Summary(infos);
            Summary(infos + [info])
            == NodeUsageInfo(Int64(u.capacity + info.capacity), Int64(u.quotaSize + info.quotaSize),
                             Int64(u.used + info.used), 0, Int64(u.allocatable + info.allocatable), infos + [info])
  {
    TotalSnoc(infos, info, Capacity);
    TotalSnoc(infos, info, QuotaSize);
    TotalSnoc(infos, info, Used);
    TotalSnoc(infos, info, Allocatable);
  }

  method BuildUsage(disks: seq<Disk>) returns (u: NodeUsageInfo)
    ensures u == Usage(disks)
  {
    u := EMPTY_USAGE;
    for i := 0 to |disks|
      invariant u == Summary(Infos(disks[..i]))
    {
      var info := ToDiskInfo(disks[i]);
      assert disks[..i + 1][..i] == disks[..i];
      SummarySnoc(u.diskStatus, info);
      u := NodeUsageInfo(Int64(u.capacity + info.capacity), Int64(u.quotaSize + info.quotaSize),
                         Int64(u.used + info.used), 0, Int64(u.allocatable + info.allocatable),
                         u.diskStatus + [info]);
    }
    assert disks[..|disks|] == disks;
    u := u.(availableSize := Int64(u.capacity - u.used), diskStatus := Sort(u.diskStatus, DiskBefore));
  }

  lemma DiskBeforeIsPreorder()
    ensures TotalPreorder(DiskBefore)
  {
    forall x, y ensures DiskBefore(x, y) || DiskBefore(y, x) {
      StringLeqTotal(x.mountPoint, y.mountPoint);
    }
    forall x, y, z | DiskBefore(x, y) && DiskBefore(y, z) ensures DiskBefore(x, z) {
      if x.allocatable == z.allocatable {
        StringLeqTransitive(x.mountPoint, y.mountPoint, z.mountPoint);
      }
    }
  }

  lemma {:induction false} TotalCons(x: DiskInfo, s: seq<DiskInfo>, f: Field)
    ensures Total([x] + s, f) == Get(x, f) + Total(s, f)
    decreases |s|
  {
    if s != [] {
      var t := s[..|s| - 1];
      TotalCons(x, t, f);
      assert ([x] + s)[..|s|] == [x] + t;
    } else {
      assert [x] + s == [x] && [x][..0] == [];
    }
  }

  lemma {:induction false} InsertTotal(x: DiskInfo, s: seq<DiskInfo>, f: Field)
    ensures Total(Insert(x, s, DiskBefore), f) == Get(x, f) + Total(s, f)
    decreases |s|
  {
    if s == [] || DiskBefore(x, s[0]) {
      TotalCons(x, s, f);
    } else {
      InsertTotal(x, s[1..], f);
      TotalCons(s[0], Insert(x, s[1..], DiskBefore), f);
      TotalCons(s[0], s[1..], f);
      assert s == [s[0]] + s[1..];
    }
  }

  lemma {:induction false} SortTotal(s: seq<DiskInfo>, f: Field)
    ensures Total(Sort(s, DiskBefore), f) == Total(s, f)
    decreases |s|
  {
    if s != [] {
      SortTotal(s[1..], f);
      InsertTotal(s[0], Sort(s[1..], DiskBefore), f);
      TotalCons(s[0], s[1..], f);
      assert s == [s[0]] + s[1..];
    }
  }

  /** The published totals are the sums over the published disks. */
  lemma PublishedTotals(disks: seq<Disk>)
    ensures var u := Usage(disks);
            && u.capacity == Int64(Total(u.diskStatus, Capacity))
            && u.quotaSize == Int64(Total(u.diskStatus, QuotaSize))
            && u.used == Int64(Total(u.diskStatus, Used))
            && u.allocatable == Int64(Total(u.diskStatus, Allocatable))
  {
    var infos := Infos(disks);
    SortTotal(infos, Capacity);
    SortTotal(infos, QuotaSize);
    SortTotal(infos, Used);
    SortTotal(infos, Allocatable);
  }

  lemma PublishedDisks(disks: seq<Disk>)
    ensures multiset(Usage(disks).diskStatus) == multiset(Infos(disks))
    ensures SortedBy(Usage(disks).diskStatus, DiskBefore)
  {
    DiskBeforeIsPreorder();
    SortSorts(Infos(disks), DiskBefore);
  }

  // ---------- the record, field by field ----------

  /** What a disk is published as. */
  ghost predicate PublishedAs(d: Disk, info: DiskInfo) {
    && info.mountPoint == d.mountPoint && info.disabled == d.disabled
    && info.capacity == Int64(d.capacity) && info.quotaSize == Int64(d.quotaSize)
    && info.used == Int64(d.used) && info.allocatable == Int64(d.allocatable)
  }

  lemma {:induction false} InfosPublishedAs(listing: seq<Disk>)
    ensures forall i :: 0 <= i < |listing| ==> PublishedAs(listing[i], Infos(listing)[i])
    decreases |listing|
  {
    if listing != [] {
      var k := |listing| - 1;
      InfosPublishedAs(listing[..k]);
      assert forall i :: 0 <= i < k ==> listing[..k][i] == listing[i];
    }
  }

  ghost function SumOf(listing: seq<Disk>, size: Disk -> nat): nat {
    if listing == [] then 0 else SumOf(listing[..|listing| - 1], size) + size(listing[|listing| - 1])
  }

  lemma {:induction false} TotalIsSum(listing: seq<Disk>, f: Field, size: Disk -> nat)
    requires forall d: Disk :: Get(ToDiskInfo(d), f) == Int64(size(d))
    ensures Int64(Total(Infos(listing), f)) == Int64(SumOf(listing, size))
    decreases |listing|
  {
    if listing != [] {
      var k := |listing| - 1;
      TotalIsSum(listing[..k], f, size);
      assert Infos(listing)[..k] == Infos(listing[..k]);
      BothWrap(Total(Infos(listing[..k]), f), SumOf(listing[..k], size), size(listing[k]));
    }
  }

  lemma BothWrap(a: int, b: int, c: int)
    requires Int64(a) == Int64(b)
    ensures Int64(a + Int64(c)) == Int64(b + c)
  {
  }

  /** The totals in terms of the listing, in 64 bits, and what is available. */
  lemma UsageTotals(listing: seq<Disk>)
    ensures Usage(listing).capacity == Int64(SumOf(listing, (d: Disk) => d.capacity))
    ensures Usage(listing).quotaSize == Int64(SumOf(listing, (d: Disk) => d.quotaSize))
    ensures Usage(listing).used == Int64(SumOf(listing, (d: Disk) => d.used))
    ensures Usage(listing).allocatable == Int64(SumOf(listing, (d: Disk) => d.allocatable))
    ensures Usage(listing).availableSize == Int64(Usage(listing).capacity - Usage(listing).used)
  {
    TotalIsSum(listing, Capacity, (d: Disk) => d.capacity);
    TotalIsSum(listing, QuotaSize, (d: Disk) => d.quotaSize);
    TotalIsSum(listing, Used, (d: Disk) => d.used);
    TotalIsSum(listing, Allocatable, (d: Disk) => d.allocatable);
  }

  /** The entries in terms of the listing: one for each disk, the freest first and then by mount
      point. */
  lemma UsageDisks(listing: seq<Disk>)
    ensures multiset(Usage(listing).diskStatus) == multiset(Infos(listing)) && |Infos(listing)| == |listing|
    ensures forall i :: 0 <= i < |listing| ==> PublishedAs(listing[i], Infos(listing)[i])
    ensures var disks := Usage(listing).diskStatus;
            forall i, j :: 0 <= i < j < |disks| ==>
              || disks[i].allocatable > disks[j].allocatable
              || (disks[i].allocatable == disks[j].allocatable && StringLeq(disks[i].mountPoint, disks[j].mountPoint))
  {
    PublishedDisks(listing);
    InfosPublishedAs(listing);
    InOrder(Usage(listing).diskStatus);
  }

  lemma InOrder(disks: seq<DiskInfo>)
    requires SortedBy(disks, DiskBefore)
    ensures forall i, j :: 0 <= i < j < |disks| ==>
      || disks[i].allocatable > disks[j].allocatable
      || (disks[i].allocatable == disks[j].allocatable && StringLeq(disks[i].mountPoint, disks[j].mountPoint))
  {
    forall i, j | 0 <= i < j < |disks| ensures DiskBefore(disks[i], disks[j]) {
    }
  }

  /** The record does not depend on the order in which the disk map was read, as long as
      mount points differ. */
  lemma OrderDoesNotMatter(a: seq<Disk>, b: seq<Disk>)
    requires multiset(Infos(a)) == multiset(Infos(b))
    requires forall x, y :: x in Infos(a) && y in Infos(a) && x.mountPoint == y.mountPoint ==> x == y
    ensures Usage(a) == Usage(b)
  {
    PublishedDisks(a);
    PublishedDisks(b);
    NoTies(Infos(a), Usage(a).diskStatus);
    SortedUnique(Usage(a).diskStatus, Usage(b).diskStatus, DiskBefore);
    DisksDecide(a, b);
  }

  lemma DisksDecide(a: seq<Disk>, b: seq<Disk>)
    requires Usage(a).diskStatus == Usage(b).diskStatus
    ensures Usage(a) == Usage(b)
  {
    PublishedTotals(a);
    PublishedTotals(b);
  }

  lemma NoTies(infos: seq<DiskInfo>, s: seq<DiskInfo>)
    requires multiset(infos) == multiset(s)
    requires forall x, y :: x in infos && y in infos && x.mountPoint == y.mountPoint ==> x == y
    ensures forall x, y :: x in s && y in s && DiskBefore(x, y) && DiskBefore(y, x) ==> x == y
  {
    forall x, y | x in s && y in s && DiskBefore(x, y) && DiskBefore(y, x) ensures x == y {
      assert x in multiset(s) && y in multiset(s);
      assert x in infos && y in infos;
      StringLeqTotal(x.mountPoint, y.mountPoint);
    }
  }

  /** Every disk's free size is what its capacity leaves after its quota. */
  ghost predicate ExactBooks(infos: seq<DiskInfo>) {
    forall d :: d in infos ==> d.allocatable == d.capacity - d.quotaSize
  }

  lemma {:induction false} TotalOfRests(infos: seq<DiskInfo>)
    requires ExactBooks(infos)
    ensures Total(infos, Allocatable) == Total(infos, Capacity) - Total(infos, QuotaSize)
    decreases |infos|
  {
    if infos != [] {
      var k := |infos| - 1;
      TotalOfRests(infos[..k]);
      assert infos[k] in infos;
    }
  }

  ghost predicate ListsDisks(disks: map<Device, Disk>, listing: seq<Disk>) {
    && (forall dev :: dev in disks ==> disks[dev] in listing)
    && (forall d :: d in listing ==> exists dev :: dev in disks && disks[dev] == d)
  }

  lemma ListedBooks(m: Manager, listing: seq<Disk>, disk: Disk)
    requires Conserved(m) && ListsDisks(m.disks, listing) && disk in listing
    requires forall dev :: dev in m.disks ==> m.disks[dev].capacity < INT64_LIMIT
    ensures var d := ToDiskInfo(disk); d.allocatable == d.capacity - d.quotaSize
  {
    var dev :| dev in m.disks && m.disks[dev] == disk;
    assert DiskConserved(m.disks[dev], SizesOn(m.quotas, dev));
  }

  lemma PublishedBooks(m: Manager, listing: seq<Disk>)
    requires Conserved(m) && ListsDisks(m.disks, listing)
    requires forall dev :: dev in m.disks ==> m.disks[dev].capacity < INT64_LIMIT
    ensures ExactBooks(Usage(listing).diskStatus)
  {
    var published := Usage(listing).diskStatus;
    forall d | d in published ensures d.allocatable == d.capacity - d.quotaSize {
      var h :| 0 <= h < |published| && published[h] == d;
      PublishedComesFromListed(listing, h);
      var disk :| disk in listing && ToDiskInfo(disk) == d;
      ListedBooks(m, listing, disk);
    }
  }

  /** What the manager's books say is what is published: each disk, and the node, has
      `Allocatable` = `Capacity` - `QuotaSize`. */
  lemma AllocatableIsTheRest(m: Manager, listing: seq<Disk>)
    requires Conserved(m) && ListsDisks(m.disks, listing)
    requires forall dev :: dev in m.disks ==> m.disks[dev].capacity < INT64_LIMIT
    ensures Consistent(Usage(listing))
    ensures forall d :: d in Usage(listing).diskStatus ==> d.allocatable == d.capacity - d.quotaSize
    ensures Usage(listing).allocatable == Int64(Usage(listing).capacity - Usage(listing).quotaSize)
  {
    var published := Usage(listing).diskStatus;
    PublishedBooks(m, listing);
    PublishedTotals(listing);
    TotalOfRests(published);
    Int64Sub(Total(published, Capacity), Total(published, QuotaSize));
  }

  lemma Int64Sub(a: int, b: int)
    ensures Int64(Int64(a) - Int64(b)) == Int64(a - b)
  {
  }

  // ---------- the scheduler against the node ----------

  lemma PublishedComesFromListed(listing: seq<Disk>, h: nat)
    requires h < |Usage(listing).diskStatus|
    ensures exists d :: d in listing && ToDiskInfo(d) == Usage(listing).diskStatus[h]
  {
    PublishedDisks(listing);
    var s, infos := Usage(listing).diskStatus, Infos(listing);
    assert s[h] in multiset(s);
    assert s[h] in infos;
    var i :| 0 <= i < |infos| && infos[i] == s[h];
    InfosAt(listing, i);
    assert listing[i] in listing;
  }

  lemma ListedIsPublished(listing: seq<Disk>, d: Disk)
    requires d in listing
    ensures ToDiskInfo(d) in Usage(listing).diskStatus
  {
    PublishedDisks(listing);
    var i :| 0 <= i < |listing| && listing[i] == d;
    InfosAt(listing, i);
    assert Infos(listing)[i] in multiset(Usage(listing).diskStatus);
  }

  /** Some disk's free size is published as at least `size`: one below 2^63, since a larger one
      is published as a negative number. */
  ghost predicate OffersSpace(disks: map<Device, Disk>, size: nat) {
    exists dev :: dev in disks && size <= disks[dev].allocatable < INT64_LIMIT
  }

  lemma PublishedAsNegative(d: Disk, size: nat)
    requires d.allocatable < UINT64_COUNT
    ensures size <= ToDiskInfo(d).allocatable <==> size <= d.allocatable < INT64_LIMIT
  {
  }

  lemma PublishedFree(listing: seq<Disk>, r: nat)
    requires forall d :: d in listing ==> d.allocatable < UINT64_COUNT
    ensures (exists h :: 0 <= h < |Free(Usage(listing).diskStatus)| && r <= Free(Usage(listing).diskStatus)[h])
            <==> exists d :: d in listing && r <= d.allocatable < INT64_LIMIT
  {
    var s := Usage(listing).diskStatus;
    var free := Free(s);
    if h :| 0 <= h < |free| && r <= free[h] {
      PublishedComesFromListed(listing, h);
      var d :| d in listing && ToDiskInfo(d) == s[h];
      PublishedAsNegative(d, r);
    }
    if d :| d in listing && r <= d.allocatable < INT64_LIMIT {
      ListedIsPublished(listing, d);
      var h :| 0 <= h < |s| && s[h] == ToDiskInfo(d);
      PublishedAsNegative(d, r);
      assert r <= free[h];
    }
  }

  /** Exactly when the scheduler says yes to one volume, whatever the books. */
  lemma SchedulerAcceptsIff(disks: map<Device, Disk>, listing: seq<Disk>, size: nat)
    requires ListsDisks(disks, listing)
    requires forall dev :: dev in disks ==> disks[dev].allocatable < UINT64_COUNT
    ensures AllPlaced([size], Free(Usage(listing).diskStatus)) <==> OffersSpace(disks, size)
  {
    forall d | d in listing ensures d.allocatable < UINT64_COUNT {
      var dev :| dev in disks && disks[dev] == d;
    }
    SingleRequest(size, Free(Usage(listing).diskStatus));
    PublishedFree(listing, size);
    if d :| d in listing && size <= d.allocatable < INT64_LIMIT {
      var dev :| dev in disks && disks[dev] == d;
    }
    if dev :| dev in disks && size <= disks[dev].allocatable < INT64_LIMIT {
      assert disks[dev] in listing;
    }
  }

  ghost predicate DisabledDiskOffers(disks: map<Device, Disk>, size: nat) {
    exists dev :: dev in disks && disks[dev].disabled && size <= disks[dev].allocatable < INT64_LIMIT
  }

  ghost predicate WrappedDiskFits(disks: map<Device, Disk>, size: nat) {
    exists dev :: dev in disks && Eligible(disks[dev], size) && INT64_LIMIT <= disks[dev].allocatable
  }

  /** The two ways in which the scheduler and the node differ for one volume, and no other: the
      scheduler counts disabled disks, and it does not see a free size of 2^63 and more. */
  lemma SchedulerAgreesWithNode(disks: map<Device, Disk>, listing: seq<Disk>, size: nat)
    requires ListsDisks(disks, listing)
    requires forall dev :: dev in disks ==> disks[dev].allocatable < UINT64_COUNT
    ensures var accepts := AllPlaced([size], Free(Usage(listing).diskStatus));
            && (accepts && !Fits(disks, size) <==> DisabledDiskOffers(disks, size) && !Fits(disks, size))
            && (!accepts && Fits(disks, size) <==> WrappedDiskFits(disks, size) && !OffersSpace(disks, size))
            && ((forall dev :: dev in disks ==> disks[dev].allocatable < INT64_LIMIT) ==>
                  (accepts <==> Fits(disks, size) || DisabledDiskOffers(disks, size)))
  {
    SchedulerAcceptsIff(disks, listing, size);
    if dev :| dev in disks && size <= disks[dev].allocatable < INT64_LIMIT {
      assert Eligible(disks[dev], size) || disks[dev].disabled;
    }
    if dev :| dev in disks && Eligible(disks[dev], size) {
      assert disks[dev].allocatable < INT64_LIMIT ==> OffersSpace(disks, size);
    }
  }

  /** With no disk disabled they agree exactly if, when an enabled disk with a free size of 2^63
      and more could take the volume, another one offers the space, too. */
  lemma NoneDisabledAgree(disks: map<Device, Disk>, listing: seq<Disk>, size: nat)
    requires ListsDisks(disks, listing)
    requires forall dev :: dev in disks ==> disks[dev].allocatable < UINT64_COUNT && !disks[dev].disabled
    ensures (AllPlaced([size], Free(Usage(listing).diskStatus)) <==> Fits(disks, size))
            <==> (WrappedDiskFits(disks, size) ==> OffersSpace(disks, size))
    ensures (forall dev :: dev in disks ==> disks[dev].allocatable < INT64_LIMIT) ==>
              (AllPlaced([size], Free(Usage(listing).diskStatus)) <==> Fits(disks, size))
  {
    SchedulerAgreesWithNode(disks, listing, size);
    assert !DisabledDiskOffers(disks, size);
  }

  // ---------- when the record is published ----------

  /** Compares disk by disk; `None` is an index out of range in the new list. The code also
      compares `Allocatable` of the old disk with itself, which never differs. */
  function DisksChanged(old': seq<DiskInfo>, new': seq<DiskInfo>, index: nat): Option<bool>
    requires index <= |old'|
    decreases |old'| - index
  {
    if index == |old'| then Some(false)
    else if index >= |new'| then None
    else if old'[index].mountPoint != new'[index].mountPoint
            || RoundOffBytes(old'[index].used) != RoundOffBytes(new'[index].used)
            || old'[index].allocatable != old'[index].allocatable then Some(true)
    else DisksChanged(old', new', index + 1)
  }

  function ShouldNodeUpdate(old': NodeUsageInfo, new': NodeUsageInfo): Option<bool> {
    if old'.capacity != new'.capacity || old'.quotaSize != new'.quotaSize
       || RoundOffBytes(old'.used) != RoundOffBytes(new'.used) then Some(true)
    else DisksChanged(old'.diskStatus, new'.diskStatus, 0)
  }

  /** What a record that was not replaced still guarantees. */
  predicate UpToDate(old': NodeUsageInfo, new': NodeUsageInfo) {
    && old'.capacity == new'.capacity && old'.quotaSize == new'.quotaSize && Near(old'.used, new'.used)
    && |old'.diskStatus| <= |new'.diskStatus|
    && forall i :: 0 <= i < |old'.diskStatus| ==>
         && old'.diskStatus[i].mountPoint == new'.diskStatus[i].mountPoint
         && Near(old'.diskStatus[i].used, new'.diskStatus[i].used)
  }

  lemma {:induction false} UnchangedDisksNear(old': seq<DiskInfo>, new': seq<DiskInfo>, index: nat)
    requires index <= |old'| && DisksChanged(old', new', index) == Some(false)
    ensures index < |old'| ==> |old'| <= |new'|
    ensures forall i :: index <= i < |old'| ==>
      old'[i].mountPoint == new'[i].mountPoint && Near(old'[i].used, new'[i].used)
    decreases |old'| - index
  {
    if index < |old'| {
      UnchangedDisksNear(old', new', index + 1);
      SameRoundingIsNear(old'[index].used, new'[index].used);
    }
  }

  /** Main result on staleness: a record is left in place only while its totals are exact and
      its usage figures are within one GiB. */
  lemma SkippedUpdateIsUpToDate(old': NodeUsageInfo, new': NodeUsageInfo)
    requires ShouldNodeUpdate(old', new') == Some(false)
    ensures UpToDate(old', new')
  {
    SameRoundingIsNear(old'.used, new'.used);
    UnchangedDisksNear(old'.diskStatus, new'.diskStatus, 0);
  }

  /** The comparison is in range whenever the new record has at least as many disks, in
      particular for a fixed disk set and after a start with the empty record. */
  lemma {:induction false} ComparisonInRange(old': seq<DiskInfo>, new': seq<DiskInfo>, index: nat)
    requires index <= |old'| <= |new'|
    ensures DisksChanged(old', new', index).Some?
    decreases |old'| - index
  {
    if index < |old'| {
      ComparisonInRange(old', new', index + 1);
    }
  }

  // ---------- over any number of syncs ----------

  datatype SyncResult = Synced | Failed | IndexOutOfRange

  /** The record the worker remembers and the one that is published. `unanswered` is history:
      the last update that took effect was one whose answer got lost. */
  datatype NodeState = NodeState(remembered: NodeUsageInfo, published: NodeUsageInfo, unanswered: bool)

  datatype NodeEvent = Sync(listing: seq<Disk>, reply: Reply) | RestartWorker

  function SyncNode(s: NodeState, listing: seq<Disk>, reply: Reply): (NodeState, SyncResult) {
    var u := Usage(listing);
    var changed := ShouldNodeUpdate(s.remembered, u);
    if changed == None then (s, IndexOutOfRange)
    else if !changed.value then (s, Synced)
    else
      match reply
      case Answered => (NodeState(u, u, false), Synced)
      case NotDelivered => (s, Failed)
      case AnswerLost => (NodeState(s.remembered, u, true), Failed)
  }

  function AfterEvents(s: NodeState, events: seq<NodeEvent>): NodeState
    decreases |events|
  {
    if events == [] then s
    else
      var before := AfterEvents(s, events[..|events| - 1]);
      match events[|events| - 1]
      case Sync(listing, reply) => SyncNode(before, listing, reply).0
      case RestartWorker => before.(remembered := EMPTY_USAGE)
  }

  /** A worker that has just started. */
  function Started(published: NodeUsageInfo): NodeState {
    NodeState(EMPTY_USAGE, published, false)
  }

  /** Nothing is remembered, or a record of all the `n` disks, and then it is the published one
      exactly if no update took effect unanswered after it. */
  predicate Remembers(s: NodeState, n: nat) {
    s.remembered == EMPTY_USAGE
    || (|s.remembered.diskStatus| == n && (s.remembered == s.published <==> !s.unanswered))
  }

  lemma UsageSize(disks: seq<Disk>)
    ensures |Usage(disks).diskStatus| == |disks|
  {
    PublishedDisks(disks);
    assert |multiset(Usage(disks).diskStatus)| == |multiset(Infos(disks))|;
  }

  lemma AlikeIsUnchanged(u: NodeUsageInfo)
    ensures ShouldNodeUpdate(u, u) == Some(false)
  {
    SameDisksUnchanged(u.diskStatus, u.diskStatus, 0);
  }

  /** A listing of the node's `n` disks, or none because it failed. */
  predicate ListsOrFails(listing: seq<Disk>, n: nat) {
    |listing| == n || listing == []
  }

  lemma SyncRemembers(s: NodeState, listing: seq<Disk>, reply: Reply, n: nat)
    requires Remembers(s, n) && ListsOrFails(listing, n)
    ensures Remembers(SyncNode(s, listing, reply).0, n)
  {
    UsageSize(listing);
    EmptyUsage();
    AlikeIsUnchanged(Usage(listing));
  }

  /** The remembered record is the published one exactly if the last update that took effect was
      acknowledged, unless nothing was remembered yet. */
  predicate RecordsAgree(s: NodeState) {
    s.remembered == EMPTY_USAGE || (s.remembered == s.published <==> !s.unanswered)
  }

  /** What every single sync ensures, however many disks there are. */
  lemma SyncFacts(s: NodeState, listing: seq<Disk>, reply: Reply)
    requires RecordsAgree(s)
    ensures var (t, r) := SyncNode(s, listing, reply);
            && RecordsAgree(t)
            && (r == Failed ==> t.remembered == s.remembered)
            && (r == IndexOutOfRange ==> |listing| < |s.remembered.diskStatus|)
            && (r == Synced ==> UpToDate(t.remembered, Usage(listing)))
            && (r == Synced && Usage(listing).capacity != 0 ==> (t.published == t.remembered <==> !t.unanswered))
  {
    var u := Usage(listing);
    UsageSize(listing);
    AlikeIsUnchanged(u);
    if |s.remembered.diskStatus| <= |u.diskStatus| {
      ComparisonInRange(s.remembered.diskStatus, u.diskStatus, 0);
    }
    if ShouldNodeUpdate(s.remembered, u) == Some(false) {
      SkippedUpdateIsUpToDate(s.remembered, u);
    }
    AlikeIsUpToDate(u);
  }

  lemma AlikeIsUpToDate(u: NodeUsageInfo)
    ensures UpToDate(u, u)
  {
  }

  lemma {:induction false} AfterEventsRemembers(published: NodeUsageInfo, events: seq<NodeEvent>, n: nat)
    requires forall e :: e in events && e.Sync? ==> ListsOrFails(e.listing, n)
    ensures Remembers(AfterEvents(Started(published), events), n)
    decreases |events|
  {
    if events != [] {
      AfterEventsRemembers(published, events[..|events| - 1], n);
      var e := events[|events| - 1];
      if e.Sync? {
        assert e in events;
        SyncRemembers(AfterEvents(Started(published), events[..|events| - 1]), e.listing, e.reply, n);
      }
    }
  }

  /** Main result on staleness over every run: with a fixed number of disks, whatever was
      published before, whichever listings failed, whichever updates failed or took effect
      unanswered, and however often the worker was restarted, the comparison of listed disks stays
      in range, and after each sync of theirs that succeeds the remembered record has exact totals
      and usage within one GiB, in total and for every disk. It is the published record exactly if
      no update took effect unanswered since the last acknowledged one. (Of a node without any
      capacity nothing need be published.) */
  lemma SyncedIsUpToDate(published: NodeUsageInfo, events: seq<NodeEvent>, listing: seq<Disk>, reply: Reply)
    requires forall e :: e in events && e.Sync? ==> ListsOrFails(e.listing, |listing|)
    ensures var u := Usage(listing);
            var (s, r) := SyncNode(AfterEvents(Started(published), events), listing, reply);
            && r != IndexOutOfRange
            && (r == Synced ==> UpToDate(s.remembered, u))
            && (r == Synced && u.capacity != 0 ==>
                  && |s.remembered.diskStatus| == |u.diskStatus|
                  && (s.published == s.remembered <==> !s.unanswered))
  {
    AfterEventsRemembers(published, events, |listing|);
    SyncedFrom(AfterEvents(Started(published), events), listing, reply);
  }

  lemma SyncedFrom(s: NodeState, listing: seq<Disk>, reply: Reply)
    requires Remembers(s, |listing|)
    ensures var u := Usage(listing);
            var (t, r) := SyncNode(s, listing, reply);
            && r != IndexOutOfRange
            && (r == Synced ==> UpToDate(t.remembered, u))
            && (r == Synced && u.capacity != 0 ==>
                  |t.remembered.diskStatus| == |u.diskStatus| && (t.published == t.remembered <==> !t.unanswered))
  {
    var u := Usage(listing);
    UsageSize(listing);
    SyncRemembers(s, listing, reply, |listing|);
    ComparisonInRange(s.remembered.diskStatus, u.diskStatus, 0);
    if ShouldNodeUpdate(s.remembered, u) == Some(false) {
      SkippedUpdateIsUpToDate(s.remembered, u);
    }
  }

  /** When the disks cannot be listed, an empty list is handed in. Exactly what follows: a record
      that shows nothing is left as it is, one that shows nothing but disks is indexed out of
      range, and any other is replaced by the empty record. */
  lemma EmptyListing(s: NodeState, reply: Reply)
    ensures var old' := s.remembered;
            var nothing := old'.capacity == 0 && old'.quotaSize == 0 && RoundOffBytes(old'.used) == 0;
            var (t, r) := SyncNode(s, [], reply);
            && (nothing && old'.diskStatus == [] ==> t == s && r == Synced)
            && (nothing && old'.diskStatus != [] ==> t == s && r == IndexOutOfRange)
            && (!nothing ==> t.published == (if reply.NotDelivered? then s.published else EMPTY_USAGE)
                             && (r == Synced <==> reply.Answered?))
  {
    EmptyUsage();
  }

  lemma EmptyUsage()
    ensures Usage([]) == EMPTY_USAGE
  {
    assert Infos([]) == [];
  }

  /** So a worker whose disks are listed once and then no more withdraws the node's record, and
      one whose disks were never listed leaves the old record in place and says it succeeded. */
  lemma UnlistedDisks(published: NodeUsageInfo, listing: seq<Disk>, reply: Reply)
    requires Usage(listing).capacity != 0
    ensures var first := SyncNode(Started(published), listing, Answered);
            && first.1 == Synced && first.0.published == Usage(listing)
            && SyncNode(first.0, [], Answered) == (Started(EMPTY_USAGE), Synced)
    ensures SyncNode(Started(published), [], reply) == (Started(published), Synced)
  {
    EmptyUsage();
    EmptyListing(Started(published), reply);
  }

  /** Nor does it ever replace it, as long as they are not listed. */
  lemma {:induction false} NeverListed(published: NodeUsageInfo, events: seq<NodeEvent>)
    requires forall e :: e in events && e.Sync? ==> e.listing == []
    ensures AfterEvents(Started(published), events) == Started(published)
    decreases |events|
  {
    if events != [] {
      NeverListed(published, events[..|events| - 1]);
      var e := events[|events| - 1];
      assert e in events;
      if e.Sync? {
        EmptyListing(Started(published), e.reply);
      }
    }
  }

  /** What a lost answer may cost: publish a record, lose the answer to the next, and go back to
      the first. The sync succeeds, and the published usage is wrong by `k` GiB. */
  lemma LostAnswerIsStale(k: nat)
    requires 1 <= k && k * GIB < INT64_LIMIT
    ensures var idle := [Disk("/a", k * GIB, 0, 0, k * GIB, false)];
            var busy := [Disk("/a", k * GIB, k * GIB, 0, k * GIB, false)];
            var events := [Sync(idle, Answered), Sync(busy, AnswerLost)];
            var (s, r) := SyncNode(AfterEvents(Started(EMPTY_USAGE), events), idle, Answered);
            && r == Synced && s.unanswered
            && s.published.used - Usage(idle).used == k * GIB && !UpToDate(s.published, Usage(idle))
  {
    var idle := [Disk("/a", k * GIB, 0, 0, k * GIB, false)];
    var busy := [Disk("/a", k * GIB, k * GIB, 0, k * GIB, false)];
    var first, second := Sync(idle, Answered), Sync(busy, AnswerLost);
    OneDiskUsage(idle[0]);
    OneDiskUsage(busy[0]);
    AlikeIsUnchanged(Usage(idle));
    GibNotRoundedAway(k);
    var start := Started(EMPTY_USAGE);
    assert [first][..0] == [] && [first, second][..1] == [first];
    assert AfterEvents(start, [first]) == NodeState(Usage(idle), Usage(idle), false);
    assert AfterEvents(start, [first, second]) == NodeState(Usage(idle), Usage(busy), true);
  }

  lemma GibNotRoundedAway(k: nat)
    requires 1 <= k
    ensures RoundOffBytes(k * GIB) != RoundOffBytes(0) && k * GIB >= GIB
  {
  }

  lemma OneDiskUsage(d: Disk)
    requires d.capacity < INT64_LIMIT && d.used < INT64_LIMIT
    ensures Usage([d]).capacity == d.capacity && Usage([d]).used == d.used
  {
    var x := ToDiskInfo(d);
    assert [d][..0] == [] && [x][..0] == [];
    assert Infos([d]) == [x];
    assert Total([x], Capacity) == x.capacity && Total([x], Used) == x.used;
  }

  // ---------- what the comparison does not see ----------

  /** Equal up to the fields that the comparison reads: the free sizes, quotas and disabled
      flags of single disks are not among them. */
  predicate LooksAlike(a: seq<DiskInfo>, b: seq<DiskInfo>) {
    |a| == |b| && forall i :: 0 <= i < |a| ==> a[i].mountPoint == b[i].mountPoint && a[i].used == b[i].used
  }

  lemma {:induction false} BlindToFreeSpace(old': seq<DiskInfo>, a: seq<DiskInfo>, b: seq<DiskInfo>, index: nat)
    requires index <= |old'| && LooksAlike(a, b)
    ensures DisksChanged(old', a, index) == DisksChanged(old', b, index)
    decreases |old'| - index
  {
    if index < |old'| {
      BlindToFreeSpace(old', a, b, index + 1);
    }
  }

  /** The totals are the 64-bit sums over the disks, and every disk's books are exact. */
  ghost predicate Consistent(u: NodeUsageInfo) {
    && u.capacity == Int64(Total(u.diskStatus, Capacity))
    && u.quotaSize == Int64(Total(u.diskStatus, QuotaSize))
    && u.allocatable == Int64(Total(u.diskStatus, Allocatable))
    && ExactBooks(u.diskStatus)
  }

  /** The same disks in the same order, with capacities and rounded usage as before. */
  predicate OnlyFreeSpaceChanged(old': NodeUsageInfo, new': NodeUsageInfo) {
    && RoundOffBytes(old'.used) == RoundOffBytes(new'.used)
    && |old'.diskStatus| == |new'.diskStatus|
    && forall i :: 0 <= i < |old'.diskStatus| ==> SameDisk(old'.diskStatus[i], new'.diskStatus[i])
  }

  predicate SameDisk(a: DiskInfo, b: DiskInfo) {
    a.mountPoint == b.mountPoint && a.capacity == b.capacity && RoundOffBytes(a.used) == RoundOffBytes(b.used)
  }

  lemma {:induction false} SameDisksUnchanged(a: seq<DiskInfo>, b: seq<DiskInfo>, index: nat)
    requires index <= |a| == |b|
    requires forall i :: 0 <= i < |a| ==> SameDisk(a[i], b[i])
    ensures DisksChanged(a, b, index) == Some(false)
    decreases |a| - index
  {
    if index < |a| {
      assert SameDisk(a[index], b[index]);
      SameDisksUnchanged(a, b, index + 1);
    }
  }

  lemma {:induction false} SameCapacity(a: seq<DiskInfo>, b: seq<DiskInfo>)
    requires |a| == |b|
    requires forall i :: 0 <= i < |a| ==> SameDisk(a[i], b[i])
    ensures Total(a, Capacity) == Total(b, Capacity)
    decreases |a|
  {
    if a != [] {
      var k := |a| - 1;
      SameCapacity(a[..k], b[..k]);
      assert SameDisk(a[k], b[k]);
    }
  }

  lemma SameAfterWrap(c: int, a: int, b: int)
    ensures Int64(c - a) == Int64(c - b) <==> Int64(a) == Int64(b)
  {
  }

  /** Exactly when a change of free space is published, whatever the books: if the node's total
      `QuotaSize` changes with it. */
  lemma FreeSpacePublishedIff(old': NodeUsageInfo, new': NodeUsageInfo)
    requires OnlyFreeSpaceChanged(old', new') && old'.capacity == new'.capacity
    ensures ShouldNodeUpdate(old', new') == Some(old'.quotaSize != new'.quotaSize)
  {
    SameDisksUnchanged(old'.diskStatus, new'.diskStatus, 0);
  }

  lemma QuotaShowsInFree(a: seq<DiskInfo>, b: seq<DiskInfo>)
    requires ExactBooks(a) && ExactBooks(b) && Total(a, Capacity) == Total(b, Capacity)
    ensures Int64(Total(a, QuotaSize)) == Int64(Total(b, QuotaSize))
            <==> Int64(Total(a, Allocatable)) == Int64(Total(b, Allocatable))
  {
    TotalOfRests(a);
    TotalOfRests(b);
    SameAfterWrap(Total(a, Capacity), Total(a, QuotaSize), Total(b, QuotaSize));
  }

  /** Where the books are exact, that is the total of the free sizes. */
  lemma ExactFreeSpacePublishedIff(old': NodeUsageInfo, new': NodeUsageInfo)
    requires Consistent(old') && Consistent(new') && OnlyFreeSpaceChanged(old', new')
    ensures old'.quotaSize != new'.quotaSize <==> old'.allocatable != new'.allocatable
    ensures ShouldNodeUpdate(old', new') == Some(old'.allocatable != new'.allocatable)
  {
    SameCapacity(old'.diskStatus, new'.diskStatus);
    FreeSpacePublishedIff(old', new');
    QuotaShowsInFree(old'.diskStatus, new'.diskStatus);
  }

  predicate SameFree(a: seq<DiskInfo>, b: seq<DiskInfo>) {
    |a| == |b| && forall i :: 0 <= i < |a| ==> a[i].allocatable == b[i].allocatable
  }

  /** So after a sync the published free sizes are the current ones exactly if the total
      `QuotaSize` has changed or no disk's free size has. */
  lemma FreeSpaceIsCurrentIff(old': NodeUsageInfo, new': NodeUsageInfo)
    requires OnlyFreeSpaceChanged(old', new') && old'.capacity == new'.capacity
    ensures var published := if ShouldNodeUpdate(old', new') == Some(true) then new' else old';
            SameFree(published.diskStatus, new'.diskStatus)
            <==> old'.quotaSize != new'.quotaSize || SameFree(old'.diskStatus, new'.diskStatus)
  {
    FreeSpacePublishedIff(old', new');
  }

  lemma {:induction false} OneDiskDiffers(a: seq<DiskInfo>, b: seq<DiskInfo>, i: nat)
    requires i < |a| == |b|
    requires forall j :: 0 <= j < |a| && j != i ==> a[j].allocatable == b[j].allocatable
    ensures Total(b, Allocatable) - Total(a, Allocatable) == b[i].allocatable - a[i].allocatable
    decreases |a|
  {
    var k := |a| - 1;
    if i < k {
      OneDiskDiffers(a[..k], b[..k], i);
    } else {
      SameFreeTotal(a[..k], b[..k]);
    }
  }

  lemma {:induction false} SameFreeTotal(a: seq<DiskInfo>, b: seq<DiskInfo>)
    requires SameFree(a, b)
    ensures Total(a, Allocatable) == Total(b, Allocatable)
    decreases |a|
  {
    if a != [] {
      SameFreeTotal(a[..|a| - 1], b[..|a| - 1]);
    }
  }

  /** Where the books are exact, a change on a single disk is always published. */
  lemma OneDiskIsPublished(old': NodeUsageInfo, new': NodeUsageInfo, i: nat)
    requires Consistent(old') && Consistent(new') && OnlyFreeSpaceChanged(old', new') && i < |old'.diskStatus|
    requires forall j :: 0 <= j < |old'.diskStatus| && j != i ==>
      old'.diskStatus[j].allocatable == new'.diskStatus[j].allocatable
    requires 0 < new'.diskStatus[i].allocatable - old'.diskStatus[i].allocatable < INT64_COUNT
             || 0 < old'.diskStatus[i].allocatable - new'.diskStatus[i].allocatable < INT64_COUNT
    ensures ShouldNodeUpdate(old', new') == Some(true)
  {
    ExactFreeSpacePublishedIff(old', new');
    OneDiskDiffers(old'.diskStatus, new'.diskStatus, i);
    SmallStepsShow(Total(old'.diskStatus, Allocatable), Total(new'.diskStatus, Allocatable));
  }

  lemma SmallStepsShow(a: int, b: int)
    requires 0 < b - a < INT64_COUNT || 0 < a - b < INT64_COUNT
    ensures Int64(a) != Int64(b)
  {
  }

  predicate StaleBy(old': seq<DiskInfo>, new': seq<DiskInfo>, i: nat, k: int) {
    i < |old'| && i < |new'| && old'[i].mountPoint == new'[i].mountPoint
    && new'[i].allocatable - old'[i].allocatable == k
  }

  /** The published free size of a disk can be wrong by any amount: move `k` bytes of quota
      from the second disk to the first, and the total stays, and nothing is published. */
  lemma FreeSpaceCanBeStale(k: nat)
    requires 4 * k + 2 < INT64_LIMIT
    ensures var c := 2 * k + 1;
            var old' := Usage([Disk("/a", c, 0, 0, c, false), Disk("/b", c, 0, c, 0, false)]);
            var new' := Usage([Disk("/a", c, 0, k, c - k, false), Disk("/b", c, 0, c - k, k, false)]);
            ShouldNodeUpdate(old', new') == Some(false) && StaleBy(old'.diskStatus, new'.diskStatus, 1, k)
  {
    var c := 2 * k + 1;
    TwoDisks(Disk("/a", c, 0, 0, c, false), Disk("/b", c, 0, c, 0, false));
    TwoDisks(Disk("/a", c, 0, k, c - k, false), Disk("/b", c, 0, c - k, k, false));
    TwoAlike(ToDiskInfo(Disk("/a", c, 0, 0, c, false)), ToDiskInfo(Disk("/b", c, 0, c, 0, false)),
             ToDiskInfo(Disk("/a", c, 0, k, c - k, false)), ToDiskInfo(Disk("/b", c, 0, c - k, k, false)));
  }

  lemma TwoAlike(a: DiskInfo, b: DiskInfo, a': DiskInfo, b': DiskInfo)
    requires LooksAlike([a, b], [a', b'])
    ensures DisksChanged([a, b], [a', b'], 0) == Some(false)
  {
    assert [a, b][0] == a && [a', b'][0] == a' && [a, b][1] == b && [a', b'][1] == b';
    assert DisksChanged([a, b], [a', b'], 2) == Some(false);
    assert DisksChanged([a, b], [a', b'], 1) == Some(false);
  }

  lemma TwoDisks(a: Disk, b: Disk)
    requires a.allocatable > b.allocatable && a.used == b.used == 0
    requires a.capacity + b.capacity < INT64_LIMIT && a.allocatable <= a.capacity && b.allocatable <= b.capacity
    requires a.quotaSize <= a.capacity && b.quotaSize <= b.capacity
    ensures var u := Usage([a, b]);
            && u.capacity == a.capacity + b.capacity && u.quotaSize == a.quotaSize + b.quotaSize && u.used == 0
            && |u.diskStatus| == 2 && u.diskStatus == [ToDiskInfo(a), ToDiskInfo(b)]
  {
    var x, y := ToDiskInfo(a), ToDiskInfo(b);
    assert [a, b][..1] == [a] && [a][..0] == [];
    assert Infos([a]) == [x];
    assert Infos([a, b]) == [x, y];
    assert [x, y][..1] == [x] && [x][..0] == [];
    forall f ensures Total([x, y], f) == Get(x, f) + Get(y, f) {
      assert Total([x], f) == Get(x, f);
    }
    assert [x, y][1..] == [y] && [y][1..] == [];
    assert Sort([y], DiskBefore) == [y];
    assert Sort([x, y], DiskBefore) == [x, y];
  }
}

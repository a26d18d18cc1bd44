/** The scheduler's disk-pressure test: predicate/hostpathpv_disk_pressure.go. */
module NodeMatch {
  import opened Results
  import opened Sorting
  import opened HostPathTypes

  /** Next-fit over the requests in the order given: `placed` holds the disk of each request
      placed so far, `left` what is left of every disk. */
  datatype Packing = Packing(left: seq<int>, placed: seq<nat>)

  function Pack(reqs: seq<int>, have: seq<int>, ih: nat, placed: seq<nat>): (p: Packing)
    requires |placed| <= |reqs| && ih <= |have|
    ensures |p.left| == |have| && |p.placed| <= |reqs|
    decreases |reqs| - |placed| + |have| - ih
  {
    if |placed| == |reqs| || ih == |have| then Packing(have, placed)
    else
      var r := reqs[|placed|];
      if r <= have[ih] then Pack(reqs, have[ih := Int64(have[ih] - r)], ih, placed + [ih])
      else Pack(reqs, have, ih + 1, placed)
  }

  predicate Larger(a: int, b: int) {
    a >= b
  }

  function Fitted(requests: seq<int>, have: seq<int>): Packing {
    Pack(Sort(requests, Larger), have, 0, [])
  }

  ghost predicate AllPlaced(requests: seq<int>, have: seq<int>) {
    |Fitted(requests, have).placed| == |Sort(requests, Larger)|
  }

  /** What the placed requests take from disk `h`. */
  ghost function Taken(reqs: seq<int>, placed: seq<nat>, h: nat): int
    requires |placed| <= |reqs|
    decreases |placed|
  {
    if placed == [] then 0
    else
      var last := |placed| - 1;
      Taken(reqs, placed[..last], h) + if placed[last] == h then reqs[last] else 0
  }

  lemma TakenSnoc(reqs: seq<int>, placed: seq<nat>, ih: nat, h: nat)
    requires |placed| < |reqs|
    ensures Taken(reqs, placed + [ih], h)
            == Taken(reqs, placed, h) + if ih == h then reqs[|placed|] else 0
  {
    assert (placed + [ih])[..|placed|] == placed;
  }

  lemma {:induction false} TakenAtLeast(reqs: seq<int>, placed: seq<nat>, h: nat)
    requires |placed| <= |reqs| && forall i :: 0 <= i < |reqs| ==> 0 <= reqs[i]
    ensures 0 <= Taken(reqs, placed, h)
    ensures forall j :: 0 <= j < |placed| && placed[j] == h ==> reqs[j] <= Taken(reqs, placed, h)
    ensures h !in placed ==> Taken(reqs, placed, h) == 0
    decreases |placed|
  {
    if placed != [] {
      var last := |placed| - 1;
      TakenAtLeast(reqs, placed[..last], h);
      assert placed == placed[..last] + [placed[last]];
    }
  }

  /** Requests and free sizes as an `int64` can hold them, requests not negative. */
  ghost predicate Sizes(reqs: seq<int>, orig: seq<int>) {
    && (forall i :: 0 <= i < |reqs| ==> 0 <= reqs[i])
    && (forall h :: 0 <= h < |orig| ==> -INT64_LIMIT <= orig[h] < INT64_LIMIT)
  }

  /** `left` is exactly what remains of `orig`, and no disk went below zero. */
  ghost predicate Exact(reqs: seq<int>, orig: seq<int>, left: seq<int>, placed: seq<nat>)
    requires |placed| <= |reqs|
  {
    && |left| == |orig|
    && (forall i :: 0 <= i < |placed| ==> placed[i] < |orig|)
    && forall h :: 0 <= h < |orig| ==>
         left[h] == orig[h] - Taken(reqs, placed, h) && (h in placed ==> 0 <= left[h])
  }

  lemma ExactStep(reqs: seq<int>, orig: seq<int>, have: seq<int>, ih: nat, placed: seq<nat>)
    requires Sizes(reqs, orig) && |placed| < |reqs| && ih < |have|
    requires Exact(reqs, orig, have, placed) && reqs[|placed|] <= have[ih]
    ensures Exact(reqs, orig, have[ih := Int64(have[ih] - reqs[|placed|])], placed + [ih])
  {
    TakenAtLeast(reqs, placed, ih);
    assert Int64(have[ih] - reqs[|placed|]) == have[ih] - reqs[|placed|];
    forall h | 0 <= h < |orig|
      ensures Taken(reqs, placed + [ih], h) == Taken(reqs, placed, h) + if ih == h then reqs[|placed|] else 0
    {
      TakenSnoc(reqs, placed, ih, h);
    }
  }

  lemma {:induction false} PackExact(reqs: seq<int>, orig: seq<int>, have: seq<int>, ih: nat, placed: seq<nat>)
    requires Sizes(reqs, orig) && |placed| <= |reqs| && ih <= |have|
    requires Exact(reqs, orig, have, placed)
    ensures var p := Pack(reqs, have, ih, placed); Exact(reqs, orig, p.left, p.placed)
    decreases |reqs| - |placed| + |have| - ih
  {
    if |placed| < |reqs| && ih < |have| {
      var r := reqs[|placed|];
      if r <= have[ih] {
        ExactStep(reqs, orig, have, ih, placed);
        PackExact(reqs, orig, have[ih := Int64(have[ih] - r)], ih, placed + [ih]);
      } else {
        PackExact(reqs, orig, have, ih + 1, placed);
      }
    }
  }

  /** Soundness: when every request is placed, each has one disk, every disk's share is within
      what it had, and what is left is the difference. */
  lemma PackSound(reqs: seq<int>, orig: seq<int>)
    requires Sizes(reqs, orig)
    ensures var p := Pack(reqs, orig, 0, []);
            && (forall i :: 0 <= i < |p.placed| ==> p.placed[i] < |orig|)
            && (forall h :: 0 <= h < |orig| ==>
                  && p.left[h] == orig[h] - Taken(reqs, p.placed, h)
                  && (h in p.placed ==> Taken(reqs, p.placed, h) <= orig[h])
                  && (0 <= orig[h] ==> 0 <= p.left[h]))
  {
    PackExact(reqs, orig, orig, 0, []);
    var p := Pack(reqs, orig, 0, []);
    forall h | 0 <= h < |orig| ensures h !in p.placed ==> Taken(reqs, p.placed, h) == 0 {
      TakenAtLeast(reqs, p.placed, h);
    }
  }

  /** The same for the call: a true answer is an assignment of every request. */
  lemma AcceptedFits(requests: seq<int>, have: seq<int>) returns (reqs: seq<int>, placed: seq<nat>)
    requires Sizes(requests, have) && AllPlaced(requests, have)
    ensures multiset(reqs) == multiset(requests) && |placed| == |reqs|
    ensures forall i :: 0 <= i < |placed| ==> placed[i] < |have|
    ensures forall h :: 0 <= h < |have| && h in placed ==> Taken(reqs, placed, h) <= have[h]
  {
    LargerIsPreorder();
    SortSorts(requests, Larger);
    reqs, placed := Sort(requests, Larger), Fitted(requests, have).placed;
    forall i | 0 <= i < |reqs| ensures 0 <= reqs[i] {
      assert reqs[i] in multiset(reqs);
      assert reqs[i] in requests;
    }
    PackSound(reqs, have);
  }

  // ---------- the half-full guarantee ----------

  /** A disk that was left behind: nothing went on it, because a request exceeded it, or more
      than half of it is filled. */
  ghost predicate LeftBehind(reqs: seq<int>, orig: seq<int>, placed: seq<nat>, h: nat)
    requires |placed| <= |reqs| && h < |orig|
  {
    || (h !in placed && exists k :: 0 <= k < |reqs| && orig[h] < reqs[k])
    || 2 * Taken(reqs, placed, h) > orig[h]
  }

  lemma LeaveDisk(reqs: seq<int>, orig: seq<int>, have: seq<int>, ih: nat, placed: seq<nat>)
    requires Sizes(reqs, orig) && SortedBy(reqs, Larger) && |placed| < |reqs| && ih < |have|
    requires Exact(reqs, orig, have, placed) && have[ih] < reqs[|placed|]
    ensures LeftBehind(reqs, orig, placed, ih)
  {
    TakenAtLeast(reqs, placed, ih);
    if ih in placed {
      var j :| 0 <= j < |placed| && placed[j] == ih;
      assert Larger(reqs[j], reqs[|placed|]);
    }
  }

  /** Placing on a later disk does not touch a disk left behind. */
  lemma StaysBehind(reqs: seq<int>, orig: seq<int>, placed: seq<nat>, ih: nat, h: nat)
    requires |placed| < |reqs| && h < |orig| && h != ih && LeftBehind(reqs, orig, placed, h)
    ensures LeftBehind(reqs, orig, placed + [ih], h)
  {
    TakenSnoc(reqs, placed, ih, h);
  }

  lemma {:induction false} PackLeavesBehind(reqs: seq<int>, orig: seq<int>, have: seq<int>, ih: nat, placed: seq<nat>)
    requires Sizes(reqs, orig) && SortedBy(reqs, Larger) && |placed| <= |reqs| && ih <= |have|
    requires Exact(reqs, orig, have, placed)
    requires forall h :: 0 <= h < ih ==> LeftBehind(reqs, orig, placed, h)
    ensures var p := Pack(reqs, have, ih, placed);
            |p.placed| < |reqs| ==> forall h :: 0 <= h < |orig| ==> LeftBehind(reqs, orig, p.placed, h)
    decreases |reqs| - |placed| + |have| - ih
  {
    if |placed| < |reqs| && ih < |have| {
      var r := reqs[|placed|];
      if r <= have[ih] {
        ExactStep(reqs, orig, have, ih, placed);
        forall h | 0 <= h < ih ensures LeftBehind(reqs, orig, placed + [ih], h) {
          StaysBehind(reqs, orig, placed, ih, h);
        }
        PackLeavesBehind(reqs, orig, have[ih := Int64(have[ih] - r)], ih, placed + [ih]);
      } else {
        LeaveDisk(reqs, orig, have, ih, placed);
        PackLeavesBehind(reqs, orig, have, ih + 1, placed);
      }
    }
  }

  /** Main result on refusal: a refused node has no disk that is both usable for every
      request and no more than half filled. */
  lemma HalfFull(reqs: seq<int>, orig: seq<int>)
    requires Sizes(reqs, orig) && SortedBy(reqs, Larger)
    requires |Pack(reqs, orig, 0, []).placed| < |reqs|
    ensures forall h :: 0 <= h < |orig| ==> LeftBehind(reqs, orig, Pack(reqs, orig, 0, []).placed, h)
  {
    PackLeavesBehind(reqs, orig, orig, 0, []);
  }

  ghost function TakenUpTo(reqs: seq<int>, placed: seq<nat>, n: nat): int
    requires |placed| <= |reqs|
  {
    if n == 0 then 0 else TakenUpTo(reqs, placed, n - 1) + Taken(reqs, placed, n - 1)
  }

  lemma {:induction false} TakenUpToSnoc(reqs: seq<int>, placed: seq<nat>, ih: nat, n: nat)
    requires |placed| < |reqs|
    ensures TakenUpTo(reqs, placed + [ih], n) == TakenUpTo(reqs, placed, n) + if ih < n then reqs[|placed|] else 0
  {
    if n > 0 {
      TakenUpToSnoc(reqs, placed, ih, n - 1);
      TakenSnoc(reqs, placed, ih, n - 1);
    }
  }

  lemma {:induction false} NothingTaken(reqs: seq<int>, n: nat)
    ensures TakenUpTo(reqs, [], n) == 0
  {
    if n > 0 {
      NothingTaken(reqs, n - 1);
    }
  }

  /** Every placed request is taken from exactly one disk. */
  lemma {:induction false} TakenInAll(reqs: seq<int>, placed: seq<nat>, n: nat)
    requires |placed| <= |reqs| && forall i :: 0 <= i < |placed| ==> placed[i] < n
    ensures TakenUpTo(reqs, placed, n) == SumSeq(reqs[..|placed|])
    decreases |placed|
  {
    if placed == [] {
      NothingTaken(reqs, n);
    } else {
      var last := |placed| - 1;
      TakenInAll(reqs, placed[..last], n);
      TakenUpToSnoc(reqs, placed[..last], placed[last], n);
      assert placed == placed[..last] + [placed[last]];
      assert reqs[..|placed|][..last] == reqs[..last];
    }
  }

  lemma {:induction false} PrefixSum(reqs: seq<int>, k: nat)
    requires k <= |reqs| && forall i :: 0 <= i < |reqs| ==> 0 <= reqs[i]
    ensures SumSeq(reqs[..k]) <= SumSeq(reqs)
    decreases |reqs|
  {
    if k < |reqs| {
      PrefixSum(reqs[..|reqs| - 1], k);
      assert reqs[..|reqs| - 1][..k] == reqs[..k];
    } else {
      assert reqs[..k] == reqs;
    }
  }

  lemma {:induction false} MoreThanHalf(reqs: seq<int>, orig: seq<int>, placed: seq<nat>, n: nat)
    requires |placed| <= |reqs| && n <= |orig|
    requires forall h :: 0 <= h < n ==> orig[h] < 2 * Taken(reqs, placed, h)
    ensures n == 0 || SumSeq(orig[..n]) < 2 * TakenUpTo(reqs, placed, n)
    ensures n == 0 ==> SumSeq(orig[..n]) == 0
  {
    if n > 0 {
      MoreThanHalf(reqs, orig, placed, n - 1);
      assert orig[..n][..n - 1] == orig[..n - 1];
    }
  }

  /** Main result on acceptance: if every disk can hold the largest request and the requests
      are not all zero and at most half of the free space in total, the node is accepted. */
  lemma HalfIsEnough(reqs: seq<int>, orig: seq<int>)
    requires Sizes(reqs, orig) && SortedBy(reqs, Larger)
    requires forall i, h :: 0 <= i < |reqs| && 0 <= h < |orig| ==> reqs[i] <= orig[h]
    requires 0 < SumSeq(reqs) && 2 * SumSeq(reqs) <= SumSeq(orig)
    ensures |Pack(reqs, orig, 0, []).placed| == |reqs|
  {
    var placed := Pack(reqs, orig, 0, []).placed;
    assert orig[..|orig|] == orig;
    if |placed| < |reqs| {
      HalfFull(reqs, orig);
      forall h | 0 <= h < |orig| ensures orig[h] < 2 * Taken(reqs, placed, h) {
        assert LeftBehind(reqs, orig, placed, h);
      }
      assert forall i :: 0 <= i < |placed| ==> placed[i] < |orig| by {
        PackSound(reqs, orig);
      }
      TakenInAll(reqs, placed, |orig|);
      PrefixSum(reqs, |placed|);
      MoreThanHalf(reqs, orig, placed, |orig|);
    }
  }

  // ---------- the same bound as on the node ----------

  /** Each of the first `n` disks has less than `c` left. */
  ghost predicate NearlyFull(reqs: seq<int>, orig: seq<int>, placed: seq<nat>, n: nat, c: int)
    requires |placed| <= |reqs| && n <= |orig|
  {
    forall h :: 0 <= h < n ==> orig[h] < Taken(reqs, placed, h) + c
  }

  /** The last disk has no room for the request that is left over. */
  ghost predicate LastRefuses(reqs: seq<int>, orig: seq<int>, placed: seq<nat>)
    requires |placed| < |reqs| && |orig| > 0
  {
    orig[|orig| - 1] < Taken(reqs, placed, |orig| - 1) + reqs[|placed|]
  }

  lemma {:induction false} PackFills(reqs: seq<int>, orig: seq<int>, have: seq<int>, ih: nat, placed: seq<nat>, c: int)
    requires Sizes(reqs, orig) && |placed| <= |reqs| && ih <= |have| && |orig| > 0
    requires Exact(reqs, orig, have, placed)
    requires forall i :: 0 <= i < |reqs| ==> reqs[i] <= c
    requires NearlyFull(reqs, orig, placed, ih, c)
    requires ih == |have| && |placed| < |reqs| ==> LastRefuses(reqs, orig, placed)
    ensures var p := Pack(reqs, have, ih, placed);
            |p.placed| < |reqs| ==> NearlyFull(reqs, orig, p.placed, |orig|, c) && LastRefuses(reqs, orig, p.placed)
    decreases |reqs| - |placed| + |have| - ih
  {
    if |placed| < |reqs| && ih < |have| {
      var r := reqs[|placed|];
      if r <= have[ih] {
        ExactStep(reqs, orig, have, ih, placed);
        forall h | 0 <= h < ih ensures orig[h] < Taken(reqs, placed + [ih], h) + c {
          TakenSnoc(reqs, placed, ih, h);
        }
        PackFills(reqs, orig, have[ih := Int64(have[ih] - r)], ih, placed + [ih], c);
      } else {
        PackFills(reqs, orig, have, ih + 1, placed, c);
      }
    }
  }

  lemma {:induction false} NearlyFullTotal(reqs: seq<int>, orig: seq<int>, placed: seq<nat>, n: nat, c: int)
    requires |placed| <= |reqs| && n <= |orig| && NearlyFull(reqs, orig, placed, n, c)
    ensures SumSeq(orig[..n]) <= TakenUpTo(reqs, placed, n) + n * c
  {
    if n > 0 {
      NearlyFullTotal(reqs, orig, placed, n - 1, c);
      assert orig[..n][..n - 1] == orig[..n - 1];
      assert n * c == (n - 1) * c + c;
    }
  }

  lemma PrefixAndNext(reqs: seq<int>, k: nat)
    requires k < |reqs| && forall i :: 0 <= i < |reqs| ==> 0 <= reqs[i]
    ensures SumSeq(reqs[..k]) + reqs[k] <= SumSeq(reqs)
  {
    PrefixSum(reqs, k + 1);
    assert reqs[..k + 1][..k] == reqs[..k];
  }

  lemma PackRefused(reqs: seq<int>, orig: seq<int>, placed: seq<nat>, c: int)
    requires Sizes(reqs, orig) && |orig| > 0 && |placed| < |reqs|
    requires forall i :: 0 <= i < |placed| ==> placed[i] < |orig|
    requires NearlyFull(reqs, orig, placed, |orig|, c) && LastRefuses(reqs, orig, placed)
    ensures SumSeq(orig) < SumSeq(reqs) + (|orig| - 1) * c
  {
    var last := |orig| - 1;
    NearlyFullTotal(reqs, orig, placed, last, c);
    TakenInAll(reqs, placed, |orig|);
    PrefixAndNext(reqs, |placed|);
    assert orig[..|orig|] == orig;
  }

  /** Main result on space: requests of at most `c` are all placed on n disks if their total
      and n - 1 more of the largest fit into the free space. */
  lemma AcceptsSpace(requests: seq<int>, have: seq<int>, c: int)
    requires Sizes(requests, have) && |have| > 0
    requires forall r :: r in requests ==> r <= c
    requires SumSeq(requests) + (|have| - 1) * c <= SumSeq(have)
    ensures AllPlaced(requests, have)
  {
    SortedRequests(requests);
    var reqs := Sort(requests, Larger);
    forall i | 0 <= i < |reqs| ensures 0 <= reqs[i] <= c {
      assert reqs[i] in requests;
    }
    var placed := Pack(reqs, have, 0, []).placed;
    PackFills(reqs, have, have, 0, [], c);
    if |placed| < |reqs| {
      PackSound(reqs, have);
      PackRefused(reqs, have, placed, c);
    }
  }

  lemma SortedRequests(requests: seq<int>)
    ensures var reqs := Sort(requests, Larger);
            && SortedBy(reqs, Larger) && SumSeq(reqs) == SumSeq(requests)
            && forall i :: 0 <= i < |reqs| ==> reqs[i] in requests
  {
    var reqs := Sort(requests, Larger);
    LargerIsPreorder();
    SortSorts(requests, Larger);
    SortSum(requests);
    forall i | 0 <= i < |reqs| ensures reqs[i] in requests {
      assert reqs[i] in multiset(reqs);
    }
  }

  lemma LargerIsPreorder()
    ensures TotalPreorder(Larger)
  {
  }

  lemma {:induction false} InsertSum(x: int, s: seq<int>)
    ensures SumSeq(Insert(x, s, Larger)) == x + SumSeq(s)
    decreases |s|
  {
    if s == [] || Larger(x, s[0]) {
      SumSeqCons(x, s);
    } else {
      InsertSum(x, s[1..]);
      SumSeqCons(s[0], Insert(x, s[1..], Larger));
      SumSeqCons(s[0], s[1..]);
      assert s == [s[0]] + s[1..];
    }
  }

  lemma {:induction false} SortSum(s: seq<int>)
    ensures SumSeq(Sort(s, Larger)) == SumSeq(s)
    decreases |s|
  {
    if s != [] {
      SortSum(s[1..]);
      InsertSum(s[0], Sort(s[1..], Larger));
      SumSeqCons(s[0], s[1..]);
      assert s == [s[0]] + s[1..];
    }
  }

  /** The same for the call itself, whose requests arrive in any order. */
  lemma AcceptsHalf(requests: seq<int>, have: seq<int>)
    requires Sizes(requests, have)
    requires forall r, h :: r in requests && h in have ==> r <= h
    requires 0 < SumSeq(requests) && 2 * SumSeq(requests) <= SumSeq(have)
    ensures AllPlaced(requests, have)
  {
    SortedRequests(requests);
    var reqs := Sort(requests, Larger);
    forall i, h | 0 <= i < |reqs| && 0 <= h < |have| ensures reqs[i] <= have[h] {
      assert reqs[i] in requests && have[h] in have;
    }
    HalfIsEnough(reqs, have);
  }

  /** For one request the test is exactly "some disk is large enough". */
  lemma {:induction false} PackOne(r: int, have: seq<int>, ih: nat)
    requires ih <= |have|
    ensures |Pack([r], have, ih, []).placed| == 1 <==> exists h :: ih <= h < |have| && r <= have[h]
    decreases |have| - ih
  {
    if ih < |have| && r > have[ih] {
      PackOne(r, have, ih + 1);
    }
  }

  lemma SingleRequest(r: int, have: seq<int>)
    ensures AllPlaced([r], have) <==> exists h :: 0 <= h < |have| && r <= have[h]
  {
    assert Sort([r], Larger) == [r] by { assert [r][1..] == []; }
    PackOne(r, have, 0);
  }

  // ---------- the code ----------

  ghost function Free(disks: seq<DiskInfo>): (have: seq<int>)
    ensures |have| == |disks| && forall i :: 0 <= i < |disks| ==> have[i] == disks[i].allocatable
  {
    seq(|disks|, i requires 0 <= i < |disks| => disks[i].allocatable)
  }

  method SortRequests(requestList: array<int>)
    modifies requestList
    ensures requestList[..] == Sort(old(requestList[..]), Larger)
  {
    LargerIsPreorder();
    SortSorts(requestList[..], Larger);
    var sorted := Sort(requestList[..], Larger);
    var n := requestList.Length;
    for i := 0 to n
      invariant requestList[..i] == sorted[..i]
    {
      requestList[i] := sorted[i];
    }
    assert requestList[..n] == requestList[..];
  }

  /** Sorts the requests in place, then walks both lists with two indices; the free sizes are
      used up in place. `Disabled` is not looked at. */
  method CanNodeMatch(requestList: array<int>, haveNow: array<DiskInfo>) returns (ok: bool)
    modifies requestList, haveNow
    ensures requestList[..] == Sort(old(requestList[..]), Larger)
    ensures ok <==> AllPlaced(old(requestList[..]), Free(old(haveNow[..])))
    ensures Free(haveNow[..]) == Fitted(old(requestList[..]), Free(old(haveNow[..]))).left
    ensures forall h :: 0 <= h < haveNow.Length ==>
      haveNow[h] == old(haveNow[h]).(allocatable := haveNow[h].allocatable)
  {
    SortRequests(requestList);
    ghost var fitted := Pack(requestList[..], Free(haveNow[..]), 0, []);
    ghost var placed: seq<nat> := [];
    var ir, ih := 0, 0;
    while true
      invariant 0 <= ir == |placed| <= requestList.Length && 0 <= ih <= haveNow.Length
      invariant requestList[..] == Sort(old(requestList[..]), Larger)
      invariant Pack(requestList[..], Free(haveNow[..]), ih, placed) == fitted
      invariant forall h :: 0 <= h < haveNow.Length ==>
        haveNow[h] == old(haveNow[h]).(allocatable := haveNow[h].allocatable)
      decreases requestList.Length - ir + haveNow.Length - ih
    {
      if ir >= requestList.Length || ih >= haveNow.Length {
        break;
      }
      if requestList[ir] <= haveNow[ih].allocatable {
        ghost var before := Free(haveNow[..]);
        haveNow[ih] := haveNow[ih].(allocatable := Int64(haveNow[ih].allocatable - requestList[ir]));
        assert Free(haveNow[..]) == before[ih := Int64(before[ih] - requestList[ir])];
        placed := placed + [ih];
        ir := ir + 1;
      } else {
        ih := ih + 1;
      }
    }
    return ir >= requestList.Length;
  }

  /** A pod volume, as far as the filter reads it. */
  datatype Volume = NotAClaim | Claim(pv: Option<PersistentVolume>)

  datatype PersistentVolume = PersistentVolume(hostPath: bool, bindNode: string, capacity: int)

  /** A volume that does not rule the node out. */
  predicate Admits(v: Volume, isHostPathNode: bool, nodeName: string) {
    v.NotAClaim? || (v.pv.Some? && (!v.pv.value.hostPath ||
      (isHostPathNode && (v.pv.value.bindNode == "" || v.pv.value.bindNode == nodeName))))
  }

  function NewRequests(volumes: seq<Volume>): seq<int> {
    if volumes == [] then []
    else
      var v := volumes[|volumes| - 1];
      NewRequests(volumes[..|volumes| - 1])
      + if v.Claim? && v.pv.Some? && v.pv.value.hostPath && v.pv.value.bindNode == "" then [v.pv.value.capacity] else []
  }

  /** A node passes if no volume rules it out and either nothing new is asked for (the total
      is zero in 64 bits) or everything new can be packed. */
  ghost predicate Passes(volumes: seq<Volume>, isHostPathNode: bool, nodeName: string, free: seq<int>) {
    && (forall v :: v in volumes ==> Admits(v, isHostPathNode, nodeName))
    && (Int64(SumSeq(NewRequests(volumes))) == 0 || AllPlaced(NewRequests(volumes), free))
  }

  // ---------- what that means for the volumes ----------

  /** A host-path claim that is bound to no node yet. */
  ghost predicate IsNew(v: Volume) {
    v.Claim? && v.pv.Some? && v.pv.value.hostPath && v.pv.value.bindNode == ""
  }

  /** What all new claims ask for. */
  ghost function AskedFor(volumes: seq<Volume>): int {
    if volumes == [] then 0
    else
      var v := volumes[|volumes| - 1];
      AskedFor(volumes[..|volumes| - 1]) + if IsNew(v) then v.pv.value.capacity else 0
  }

  /** What disk `h` gives to the new claims that are assigned to it. */
  ghost function GivenBy(volumes: seq<Volume>, assign: seq<int>, h: int): int
    requires |assign| == |volumes|
  {
    if volumes == [] then 0
    else
      var k := |volumes| - 1;
      GivenBy(volumes[..k], assign[..k], h)
      + if IsNew(volumes[k]) && assign[k] == h then volumes[k].pv.value.capacity else 0
  }

  /** Every new claim has one disk, and no disk gives more than it has. */
  ghost predicate IsAssignment(volumes: seq<Volume>, assign: seq<int>, free: seq<int>) {
    && |assign| == |volumes|
    && (forall i :: 0 <= i < |volumes| && IsNew(volumes[i]) ==>
          0 <= assign[i] < |free| && GivenBy(volumes, assign, assign[i]) <= free[assign[i]])
  }

  ghost predicate SizesFit(volumes: seq<Volume>, free: seq<int>) {
    && (forall v :: v in volumes && IsNew(v) ==> 0 <= v.pv.value.capacity)
    && (forall h :: 0 <= h < |free| ==> -INT64_LIMIT <= free[h] < INT64_LIMIT)
  }

  lemma RequestsSnoc(volumes: seq<Volume>)
    requires volumes != []
    ensures var k := |volumes| - 1;
            NewRequests(volumes) == NewRequests(volumes[..k]) + if IsNew(volumes[k]) then [volumes[k].pv.value.capacity] else []
  {
  }

  lemma {:induction false} AskedIsRequested(volumes: seq<Volume>)
    ensures SumSeq(NewRequests(volumes)) == AskedFor(volumes)
    decreases |volumes|
  {
    if volumes != [] {
      var k := |volumes| - 1;
      AskedIsRequested(volumes[..k]);
      RequestsSnoc(volumes);
      if IsNew(volumes[k]) {
        SumSeqSnoc(NewRequests(volumes[..k]), volumes[k].pv.value.capacity);
      } else {
        assert NewRequests(volumes) == NewRequests(volumes[..k]);
      }
    }
  }

  lemma {:induction false} RequestsNotNegative(volumes: seq<Volume>)
    requires forall v :: v in volumes && IsNew(v) ==> 0 <= v.pv.value.capacity
    ensures forall r :: r in NewRequests(volumes) ==> 0 <= r
    decreases |volumes|
  {
    if volumes != [] {
      var k := |volumes| - 1;
      assert volumes[k] in volumes;
      RequestsNotNegative(volumes[..k]);
      RequestsSnoc(volumes);
    }
  }

  lemma {:induction false} TakenPrefix(reqs: seq<int>, more: seq<int>, placed: seq<nat>, h: nat)
    requires |placed| <= |reqs|
    ensures Taken(reqs + more, placed, h) == Taken(reqs, placed, h)
    decreases |placed|
  {
    if placed != [] {
      TakenPrefix(reqs, more, placed[..|placed| - 1], h);
    }
  }

  function Without<T>(s: seq<T>, j: nat): seq<T>
    requires j < |s|
  {
    s[..j] + s[j + 1..]
  }

  lemma {:induction false} TakenWithout(reqs: seq<int>, placed: seq<nat>, j: nat, h: nat)
    requires |placed| == |reqs| && j < |reqs|
    ensures Taken(reqs, placed, h) == Taken(Without(reqs, j), Without(placed, j), h) + if placed[j] == h then reqs[j] else 0
    decreases |reqs|
  {
    var last := |reqs| - 1;
    assert reqs == reqs[..last] + [reqs[last]];
    TakenPrefix(reqs[..last], [reqs[last]], placed[..last], h);
    if j == last {
      assert Without(reqs, j) == reqs[..last] && Without(placed, j) == placed[..last];
    } else {
      TakenWithout(reqs[..last], placed[..last], j, h);
      var rs, ps := Without(reqs[..last], j), Without(placed[..last], j);
      assert Without(reqs, j) == rs + [reqs[last]] && Without(placed, j) == ps + [placed[last]];
      TakenPrefix(rs, [reqs[last]], ps, h);
      assert (ps + [placed[last]])[..|ps|] == ps;
    }
  }

  lemma WithoutOne(s: seq<int>, j: nat)
    requires j < |s|
    ensures multiset(Without(s, j)) == multiset(s) - multiset{s[j]}
  {
    assert s == s[..j] + [s[j]] + s[j + 1..];
  }

  lemma LastIsIn(reqs: seq<int>, list: seq<int>) returns (j: nat)
    requires list != [] && multiset(reqs) == multiset(list)
    ensures j < |reqs| && reqs[j] == list[|list| - 1]
    ensures multiset(Without(reqs, j)) == multiset(list[..|list| - 1])
  {
    var k := |list| - 1;
    assert list == list[..k] + [list[k]];
    assert list[k] in multiset(reqs);
    j :| 0 <= j < |reqs| && reqs[j] == list[k];
    WithoutOne(reqs, j);
  }

  lemma TakenOnceMore(reqs: seq<int>, placed: seq<nat>, j: nat, list: seq<int>, before: seq<nat>, h: nat)
    requires |placed| == |reqs| && j < |reqs| && list != [] && reqs[j] == list[|list| - 1] && |before| == |list| - 1
    requires Taken(list[..|list| - 1], before, h) == Taken(Without(reqs, j), Without(placed, j), h)
    ensures Taken(list, before + [placed[j]], h) == Taken(reqs, placed, h)
  {
    var k := |list| - 1;
    TakenWithout(reqs, placed, j, h);
    assert list == list[..k] + [list[k]];
    TakenPrefix(list[..k], [list[k]], before, h);
    assert (before + [placed[j]])[..k] == before;
  }

  /** A placement of the requests in one order is one in any order. */
  lemma {:induction false} Reordered(reqs: seq<int>, placed: seq<nat>, list: seq<int>) returns (again: seq<nat>)
    requires multiset(reqs) == multiset(list) && |placed| == |reqs|
    ensures |again| == |list| && forall p :: p in again ==> p in placed
    ensures forall h: nat :: Taken(list, again, h) == Taken(reqs, placed, h)
    decreases |list|
  {
    if list == [] {
      again := [];
      assert |multiset(reqs)| == 0;
    } else {
      var j := LastIsIn(reqs, list);
      var before := Reordered(Without(reqs, j), Without(placed, j), list[..|list| - 1]);
      again := before + [placed[j]];
      forall h: nat ensures Taken(list, again, h) == Taken(reqs, placed, h) {
        TakenOnceMore(reqs, placed, j, list, before, h);
      }
    }
  }

  /** A placement of the requests is an assignment of the volumes they came from. */
  lemma {:induction false} Spread(volumes: seq<Volume>, placed: seq<nat>) returns (assign: seq<int>)
    requires |placed| == |NewRequests(volumes)|
    ensures |assign| == |volumes|
    ensures forall i :: 0 <= i < |volumes| && IsNew(volumes[i]) ==> 0 <= assign[i] && assign[i] in placed
    ensures forall h: nat :: GivenBy(volumes, assign, h) == Taken(NewRequests(volumes), placed, h)
    decreases |volumes|
  {
    if volumes == [] {
      assign := [];
    } else {
      var k := |volumes| - 1;
      var reqs := NewRequests(volumes[..k]);
      if IsNew(volumes[k]) {
        var c := volumes[k].pv.value.capacity;
        assert NewRequests(volumes) == reqs + [c];
        var before := Spread(volumes[..k], placed[..|reqs|]);
        assign := before + [placed[|reqs|]];
        assert assign[..k] == before;
        forall h: nat ensures GivenBy(volumes, assign, h) == Taken(NewRequests(volumes), placed, h) {
          TakenPrefix(reqs, [c], placed[..|reqs|], h);
        }
      } else {
        assert NewRequests(volumes) == reqs;
        var before := Spread(volumes[..k], placed);
        assign := before + [-1];
        assert assign[..k] == before;
      }
    }
  }

  /** A node that passes has an assignment of the new claims to its disks, unless what they ask
      for comes to zero in 64 bits. */
  lemma PassesIsAssigned(volumes: seq<Volume>, isHostPathNode: bool, nodeName: string, free: seq<int>)
    requires Passes(volumes, isHostPathNode, nodeName, free) && SizesFit(volumes, free) && Int64(AskedFor(volumes)) != 0
    ensures exists assign :: IsAssignment(volumes, assign, free)
  {
    var list := NewRequests(volumes);
    AskedIsRequested(volumes);
    RequestsNotNegative(volumes);
    forall i | 0 <= i < |list| ensures 0 <= list[i] {
      assert list[i] in list;
    }
    var reqs, placed := AcceptedFits(list, free);
    var again := Reordered(reqs, placed, list);
    var assign := Spread(volumes, again);
    assert IsAssignment(volumes, assign, free);
  }

  lemma {:induction false} NewRequestsAppend(a: seq<Volume>, b: seq<Volume>)
    ensures NewRequests(a + b) == NewRequests(a) + NewRequests(b)
    decreases |b|
  {
    if b == [] {
      assert a + b == a;
    } else {
      var k := |b| - 1;
      NewRequestsAppend(a, b[..k]);
      assert (a + b)[..|a + b| - 1] == a + b[..k];
    }
  }

  /** Volumes that are no claims or no host-path claims, and claims bound to this node, wherever
      they stand, do not change the answer. */
  lemma IgnoresOthers(a: seq<Volume>, v: Volume, b: seq<Volume>, isHostPathNode: bool, nodeName: string, free: seq<int>)
    requires || v.NotAClaim?
             || (v.pv.Some? && !v.pv.value.hostPath)
             || (v.pv.Some? && isHostPathNode && nodeName != "" && v.pv.value.bindNode == nodeName)
    ensures Passes(a + [v] + b, isHostPathNode, nodeName, free) <==> Passes(a + b, isHostPathNode, nodeName, free)
  {
    var with, without := a + [v] + b, a + b;
    NewRequestsAppend(a + [v], b);
    NewRequestsAppend(a, [v]);
    NewRequestsAppend(a, b);
    RequestsSnoc([v]);
    assert [v][..0] == [];
    assert NewRequests(with) == NewRequests(without);
    assert Admits(v, isHostPathNode, nodeName);
    assert forall w :: w in with <==> w == v || w in without;
  }

  /** One new claim passes exactly if the node is one for it and some disk has the space. */
  lemma OneNewClaim(capacity: int, isHostPathNode: bool, nodeName: string, free: seq<int>)
    ensures Passes([Claim(Some(PersistentVolume(true, "", capacity)))], isHostPathNode, nodeName, free)
            <==> isHostPathNode && (Int64(capacity) == 0 || exists h :: 0 <= h < |free| && capacity <= free[h])
  {
    var v := Claim(Some(PersistentVolume(true, "", capacity)));
    assert [v][..0] == [] && NewRequests([v]) == [capacity];
    SumSeqSnoc([], capacity);
    assert [] + [capacity] == [capacity];
    SingleRequest(capacity, free);
    assert v in [v];
  }

  method FilterNode(volumes: seq<Volume>, isHostPathNode: bool, nodeName: string, diskStatus: array<DiskInfo>)
    returns (ok: bool)
    modifies diskStatus
    ensures ok <==> Passes(volumes, isHostPathNode, nodeName, Free(old(diskStatus[..])))
    // every new claim has a disk with space for all that is assigned to it
    ensures ok && SizesFit(volumes, Free(old(diskStatus[..]))) && Int64(AskedFor(volumes)) != 0 ==>
      exists assign :: IsAssignment(volumes, assign, Free(old(diskStatus[..])))
    // a claim without a volume, a host-path claim on another kind of node, a claim bound elsewhere
    ensures (exists v :: v in volumes && v.Claim? && v.pv.None?) ==> !ok
    ensures !isHostPathNode && (exists v :: v in volumes && v.Claim? && v.pv.Some? && v.pv.value.hostPath) ==> !ok
    ensures (exists v :: v in volumes && v.Claim? && v.pv.Some? && v.pv.value.hostPath
                         && v.pv.value.bindNode != "" && v.pv.value.bindNode != nodeName) ==> !ok
    // nothing else rules a node out on which nothing new is asked for
    ensures isHostPathNode
            && (forall v :: v in volumes ==> v.NotAClaim? || (v.pv.Some? && (!v.pv.value.hostPath || (nodeName != "" && v.pv.value.bindNode == nodeName))))
            ==> ok
  {
    ok := Filter(volumes, isHostPathNode, nodeName, diskStatus);
    var free := Free(old(diskStatus[..]));
    if ok && SizesFit(volumes, free) && Int64(AskedFor(volumes)) != 0 {
      PassesIsAssigned(volumes, isHostPathNode, nodeName, free);
    }
    NothingNew(volumes, nodeName);
  }

  lemma {:induction false} NothingNew(volumes: seq<Volume>, nodeName: string)
    ensures (forall v :: v in volumes ==>
               v.NotAClaim? || (v.pv.Some? && (!v.pv.value.hostPath || (nodeName != "" && v.pv.value.bindNode == nodeName))))
            ==> NewRequests(volumes) == []
    decreases |volumes|
  {
    if volumes != [] {
      var k := |volumes| - 1;
      NothingNew(volumes[..k], nodeName);
      assert volumes == volumes[..k] + [volumes[k]];
      assert volumes[k] in volumes;
    }
  }

  /** The loop: gathers the requests, then packs them. */
  method Filter(volumes: seq<Volume>, isHostPathNode: bool, nodeName: string, diskStatus: array<DiskInfo>)
    returns (ok: bool)
    modifies diskStatus
    ensures ok <==> Passes(volumes, isHostPathNode, nodeName, Free(old(diskStatus[..])))
  {
    var size, list: seq<int> := 0, [];
    for i := 0 to |volumes|
      invariant forall v :: v in volumes[..i] ==> Admits(v, isHostPathNode, nodeName)
      invariant list == NewRequests(volumes[..i])
      invariant size == Int64(SumSeq(list))
      invariant diskStatus[..] == old(diskStatus[..])
    {
      var v := volumes[i];
      assert volumes[..i + 1] == volumes[..i] + [v];
      assert volumes[..i + 1][..i] == volumes[..i];
      if v.NotAClaim? {
        continue;
      }
      if v.pv.None? {
        assert !Admits(v, isHostPathNode, nodeName);
        return false;
      }
      var pv := v.pv.value;
      if !pv.hostPath {
        continue;
      }
      if !isHostPathNode {
        assert !Admits(v, isHostPathNode, nodeName);
        return false;
      }
      if |pv.bindNode| > 0 {
        if pv.bindNode != nodeName {
          assert !Admits(v, isHostPathNode, nodeName);
          return false;
        }
        continue;
      }
      SumSeqSnoc(list, pv.capacity);
      Int64Add(SumSeq(list), pv.capacity);
      list := list + [pv.capacity];
      size := Int64(size + pv.capacity);
    }
    assert volumes[..|volumes|] == volumes;
    if size == 0 || |list| == 0 {
      return true;
    }
    var requests := new int[|list|](i requires 0 <= i < |list| => list[i]);
    assert requests[..] == list;
    ok := CanNodeMatch(requests, diskStatus);
  }

  lemma Int64Add(a: int, b: int)
    ensures Int64(Int64(a) + b) == Int64(a + b)
  {
  }
}

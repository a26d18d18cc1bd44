/** The published records: pkg/hostpathclient/types.go. */
module HostPathTypes {

  const INT64_COUNT := 0x1_0000_0000_0000_0000
  const INT64_LIMIT := 0x8000_0000_0000_0000

  /** Go's conversion to and arithmetic in `int64`. */
  function Int64(x: int): (r: int)
    ensures -INT64_LIMIT <= r < INT64_LIMIT
    ensures -INT64_LIMIT <= x < INT64_LIMIT ==> r == x
  {
    (x + INT64_LIMIT) % INT64_COUNT - INT64_LIMIT
  }

  datatype DiskInfo = DiskInfo(mountPoint: string, capacity: int, quotaSize: int, used: int,
                               allocatable: int, disabled: bool)

  datatype NodeUsageInfo = NodeUsageInfo(capacity: int, quotaSize: int, used: int,
                                         availableSize: int, allocatable: int, diskStatus: seq<DiskInfo>)

  const EMPTY_USAGE := NodeUsageInfo(0, 0, 0, 0, 0, [])

  /** Byte-wise order of strings, as Go's `<=`. */
  predicate StringLeq(a: string, b: string) {
    a == "" || (b != "" && (a[0] < b[0] || (a[0] == b[0] && StringLeq(a[1..], b[1..]))))
  }

  /** Reverse order by allocatable size, then by mount point. */
  predicate DiskBefore(a: DiskInfo, b: DiskInfo) {
    a.allocatable > b.allocatable || (a.allocatable == b.allocatable && StringLeq(a.mountPoint, b.mountPoint))
  }

  lemma {:induction false} StringLeqTotal(a: string, b: string)
    ensures StringLeq(a, b) || StringLeq(b, a)
    ensures StringLeq(a, b) && StringLeq(b, a) ==> a == b
  {
    if a != "" && b != "" && a[0] == b[0] {
      StringLeqTotal(a[1..], b[1..]);
      assert a == [a[0]] + a[1..] && b == [b[0]] + b[1..];
    }
  }

  /** The order, without recursion: a prefix comes first, otherwise the first byte in which the
      two differ decides. */
  lemma {:induction false} StringLeqIff(a: string, b: string)
    ensures StringLeq(a, b) <==> a <= b || exists i :: 0 <= i < |a| && i < |b| && a[..i] == b[..i] && a[i] < b[i]
  {
    if a != "" && b != "" && a[0] == b[0] {
      var s, t := a[1..], b[1..];
      StringLeqIff(s, t);
      assert a == [a[0]] + s && b == [b[0]] + t;
      assert a <= b <==> s <= t;
      if i :| 0 <= i < |s| && i < |t| && s[..i] == t[..i] && s[i] < t[i] {
        assert a[..i + 1] == [a[0]] + s[..i] && b[..i + 1] == [b[0]] + t[..i];
        assert a[i + 1] < b[i + 1];
      }
      if i :| 0 <= i < |a| && i < |b| && a[..i] == b[..i] && a[i] < b[i] {
        assert i > 0;
        assert s[..i - 1] == a[..i][1..] && t[..i - 1] == b[..i][1..];
        assert s[i - 1] < t[i - 1];
      }
    } else if a != "" && b != "" {
      forall i | 0 < i < |a| && i < |b| ensures a[..i] != b[..i] {
        assert a[..i][0] != b[..i][0];
      }
      if a[0] < b[0] {
        assert a[..0] == b[..0];
      }
    }
  }

  lemma {:induction false} StringLeqTransitive(a: string, b: string, c: string)
    requires StringLeq(a, b) && StringLeq(b, c)
    ensures StringLeq(a, c)
  {
    if a != "" && a[0] == b[0] == c[0] {
      StringLeqTransitive(a[1..], b[1..], c[1..]);
    }
  }

  function SumSeq(s: seq<int>): int {
    if s == [] then 0 else SumSeq(s[..|s| - 1]) + s[|s| - 1]
  }

  lemma SumSeqSnoc(s: seq<int>, x: int)
    ensures SumSeq(s + [x]) == SumSeq(s) + x
  {
    assert (s + [x])[..|s|] == s;
  }

  lemma {:induction false} SumSeqCons(x: int, s: seq<int>)
    ensures SumSeq([x] + s) == x + SumSeq(s)
    decreases |s|
  {
    if s == [] {
      assert SumSeq([x]) == SumSeq([]) + x by { SumSeqSnoc([], x); assert [] + [x] == [x]; }
      assert [x] + s == [x];
    } else {
      var t := s[..|s| - 1];
      SumSeqCons(x, t);
      assert [x] + s == ([x] + t) + [s[|s| - 1]];
      SumSeqSnoc([x] + t, s[|s| - 1]);
    }
  }
}

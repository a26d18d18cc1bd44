/** The project-id pool: quotaProvider/projidallocator.go.

    The allocation map of the Kubernetes library is a set of taken offsets: `AllocateNext`
    may pick any free one, and releasing a free one does nothing. */
module ProjectIds {
  import opened Results

  type ProjectId = nat

  const UINT32_COUNT := 0x1_0000_0000

  predicate InRange(start: nat, num: nat, id: ProjectId) {
    start <= id < start + num
  }

  ghost predicate Full(start: nat, num: nat, ids: set<ProjectId>) {
    forall id: ProjectId :: InRange(start, num, id) ==> id in ids
  }

  /** Why `num` ids in range are all the ids: a full pool holds exactly `num` of them. */
  lemma FullCount(start: nat, num: nat, ids: set<ProjectId>)
    requires forall id: ProjectId :: id in ids ==> InRange(start, num, id)
    ensures |ids| <= num
    ensures Full(start, num, ids) <==> |ids| == num
  {
    var all := Range(start, num);
    RangeSize(start, num);
    SubsetSize(ids, all);
    if |ids| == num {
      forall id: ProjectId | InRange(start, num, id) ensures id in ids {
        if id !in ids {
          SubsetSize(ids, all - {id});
        }
      }
    }
    if Full(start, num, ids) {
      assert ids == all;
    }
  }

  ghost function Range(start: nat, num: nat): (ids: set<ProjectId>)
    ensures forall id: ProjectId :: id in ids <==> InRange(start, num, id)
    decreases num
  {
    if num == 0 then {} else Range(start, num - 1) + {start + num - 1}
  }

  lemma {:induction false} RangeSize(start: nat, num: nat)
    ensures |Range(start, num)| == num
    decreases num
  {
    if num > 0 {
      RangeSize(start, num - 1);
      assert start + num - 1 !in Range(start, num - 1);
    }
  }

  lemma {:induction false} SubsetSize<T>(a: set<T>, b: set<T>)
    requires a <= b
    ensures |a| <= |b|
    decreases |a|
  {
    if a != {} {
      var x :| x in a;
      SubsetSize(a - {x}, b - {x});
    }
  }

  class ProjectIDAllocator {
    const start: nat
    const num: nat
    var taken: set<nat>

    ghost predicate Valid()
      reads this
    {
      start + num <= UINT32_COUNT && forall o :: o in taken ==> o < num
    }

    ghost function Ids(): (ids: set<ProjectId>)
      reads this
      ensures forall id: ProjectId :: id in ids <==> start <= id && id - start in taken
    {
      set o | o in taken :: start + o
    }

    constructor (start: nat, num: nat)
      requires start + num <= UINT32_COUNT
      ensures Valid() && Ids() == {}
      ensures this.start == start && this.num == num
    {
      this.start, this.num := start, num;
      taken := {};
    }

    function Contains(id: ProjectId): (bool, nat) {
      if start <= id < start + num then (true, id - start) else (false, 0)
    }

    method Allocate(id: ProjectId) returns (ok: bool)
      requires Valid()
      modifies this
      ensures Valid()
      ensures ok <==> InRange(start, num, id) && id !in old(Ids())
      ensures Ids() == if ok then old(Ids()) + {id} else old(Ids())
    {
      var (inside, offset) := Contains(id);
      if !inside || offset in taken {
        assert inside ==> start + offset in Ids();
        return false;
      }
      taken := taken + {offset};
      return true;
    }

    method AllocateNext() returns (r: Option<ProjectId>)
      requires Valid()
      modifies this
      ensures Valid()
      ensures r.None? <==> Full(start, num, old(Ids()))
      ensures r.Some? ==> InRange(start, num, r.value) && r.value !in old(Ids())
      ensures Ids() == if r.Some? then old(Ids()) + {r.value} else old(Ids())
    {
      if free: nat :| free < num && free !in taken {
        assert InRange(start, num, start + free) && start + free !in Ids();
        taken := taken + {free};
        r := Some(start + free);
      } else {
        forall id: ProjectId | InRange(start, num, id) ensures id in Ids() {
          var offset: nat := id - start;
          assert offset < num;
        }
        r := None;
      }
    }

    /** Out-of-range ids are ignored, and so are ids that are not allocated. */
    method Release(id: ProjectId)
      requires Valid()
      modifies this
      ensures Valid()
      ensures Ids() == old(Ids()) - {id}
    {
      var (inside, offset) := Contains(id);
      if inside {
        taken := taken - {offset};
      }
    }

    method Has(id: ProjectId) returns (r: bool)
      requires Valid()
      ensures r <==> id in Ids()
    {
      var (inside, offset) := Contains(id);
      return inside && offset in taken;
    }
  }
}

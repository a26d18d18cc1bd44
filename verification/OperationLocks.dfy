/** The operation lock: pkg/util/idlocker.go. */
module OperationLocks {

  datatype Operation = Create | Delete | Clone | Restore | Expand | Unsupported(name: string)

  const OPERATIONS: set<Operation> := {Create, Delete, Clone, Restore, Expand}

  /** The outer map always has the five operations; the inner ones count holders by id. */
  type Locks = l: map<Operation, map<string, int>> | l.Keys == OPERATIONS
    witness map[Create := map[], Delete := map[], Clone := map[], Restore := map[], Expand := map[]]

  const NO_LOCKS: Locks := map[Create := map[], Delete := map[], Clone := map[], Restore := map[], Expand := map[]]

  /** The operations that an operation is tested against. The relation is not symmetric:
      expand is tested against create, but create is not tested against expand, and neither
      delete nor expand is tested against itself. */
  function Blockers(op: Operation): set<Operation> {
    match op
    case Create => {Delete}
    case Clone => {Delete, Expand}
    case Delete => {Expand, Clone, Create, Restore}
    case Restore => {Delete}
    case Expand => {Delete, Clone, Create}
    case Unsupported(_) => {}
  }

  predicate Single(op: Operation) {
    op.Delete? || op.Expand?
  }

  function Present(l: Locks, id: string): set<Operation> {
    set op | op in OPERATIONS && id in l[op]
  }

  function Count(l: Locks, op: Operation, id: string): int
    requires op in OPERATIONS
  {
    if id in l[op] then l[op][id] else 0
  }

  predicate Granted(l: Locks, op: Operation, id: string) {
    op in OPERATIONS && Blockers(op) !! Present(l, id)
  }

  function Acquire(l: Locks, op: Operation, id: string): Locks {
    if !Granted(l, op, id) then l
    else l[op := l[op][id := if Single(op) then 1 else Count(l, op, id) + 1]]
  }

  function Release(l: Locks, op: Operation, id: string): Locks {
    if op !in OPERATIONS || id !in l[op] then l
    else if l[op][id] == 1 then l[op := l[op] - {id}]
    else l[op := l[op][id := l[op][id] - 1]]
  }

  // ---------- compatibility, over every interleaving ----------

  /** What may stand together under one id. */
  predicate Compatible(present: set<Operation>) {
    && present <= OPERATIONS
    && (Delete in present ==> present == {Delete})
    && !(Clone in present && Expand in present)
  }

  ghost predicate Safe(l: Locks) {
    && (forall op, id :: op in OPERATIONS && id in l[op] ==> 1 <= l[op][id])
    && (forall id :: Compatible(Present(l, id)))
  }

  /** Callers are balanced: they release only what they were granted. `held` is the grants
      that are out. */
  datatype State = State(locks: Locks, held: multiset<(Operation, string)>)

  datatype Step = AcquireStep(op: Operation, id: string) | ReleaseStep(op: Operation, id: string)

  ghost predicate Possible(s: State, step: Step) {
    step.ReleaseStep? ==> (step.op, step.id) in s.held
  }

  ghost function Next(s: State, step: Step): State
    requires Possible(s, step)
  {
    match step
    case AcquireStep(op, id) =>
      State(Acquire(s.locks, op, id), if Granted(s.locks, op, id) then s.held + multiset{(op, id)} else s.held)
    case ReleaseStep(op, id) => State(Release(s.locks, op, id), s.held - multiset{(op, id)})
  }

  ghost predicate PossibleRun(s: State, steps: seq<Step>)
    decreases |steps|
  {
    steps == [] || (Possible(s, steps[0]) && PossibleRun(Next(s, steps[0]), steps[1..]))
  }

  ghost function Run(s: State, steps: seq<Step>): State
    requires PossibleRun(s, steps)
    decreases |steps|
  {
    if steps == [] then s else Run(Next(s, steps[0]), steps[1..])
  }

  /** Create, clone and restore entries count their holders exactly. A delete or expand
      entry stands for at least one holder. */
  ghost predicate Counted(s: State) {
    && (forall op, id :: (op, id) in s.held ==> op in OPERATIONS)
    && (forall op, id :: op in OPERATIONS && !Single(op) ==> Count(s.locks, op, id) == s.held[(op, id)])
    && (forall op, id :: op in OPERATIONS && Single(op) && id in s.locks[op] ==>
          s.locks[op][id] == 1 && (op, id) in s.held)
  }

  const START := State(NO_LOCKS, multiset{})

  lemma PresentAfterAcquire(l: Locks, op: Operation, id: string, other: string)
    ensures Present(Acquire(l, op, id), other)
            == if Granted(l, op, id) && other == id then Present(l, id) + {op} else Present(l, other)
  {
  }

  lemma PresentAfterRelease(l: Locks, op: Operation, id: string, other: string)
    ensures Present(Release(l, op, id), other) <= Present(l, other)
    ensures other != id ==> Present(Release(l, op, id), other) == Present(l, other)
  {
  }

  lemma StepStaysSafe(s: State, step: Step)
    requires Safe(s.locks) && Possible(s, step)
    ensures Safe(Next(s, step).locks)
  {
    forall id ensures Compatible(Present(Next(s, step).locks, id)) {
      assert Compatible(Present(s.locks, id));
      if step.AcquireStep? {
        PresentAfterAcquire(s.locks, step.op, step.id, id);
      } else {
        PresentAfterRelease(s.locks, step.op, step.id, id);
      }
    }
  }

  lemma CountAfterAcquire(l: Locks, op: Operation, id: string, op': Operation, id': string)
    requires op' in OPERATIONS
    ensures Count(Acquire(l, op, id), op', id')
            == if !Granted(l, op, id) || (op', id') != (op, id) then Count(l, op', id')
               else if Single(op) then 1 else Count(l, op, id) + 1
    ensures id' in Acquire(l, op, id)[op'] <==> id' in l[op'] || (Granted(l, op, id) && (op', id') == (op, id))
  {
  }

  lemma CountAfterRelease(l: Locks, op: Operation, id: string, op': Operation, id': string)
    requires op in OPERATIONS && op' in OPERATIONS
    ensures Count(Release(l, op, id), op', id')
            == if (op', id') == (op, id) && id in l[op] then Count(l, op, id) - 1 else Count(l, op', id')
    ensures id' in Release(l, op, id)[op'] <==> id' in l[op'] && !((op', id') == (op, id) && l[op][id] == 1)
  {
  }

  lemma StepStaysCounted(s: State, step: Step)
    requires Counted(s) && Safe(s.locks) && Possible(s, step)
    ensures Counted(Next(s, step))
  {
    var n := Next(s, step);
    forall op, id | op in OPERATIONS
      ensures !Single(op) ==> Count(n.locks, op, id) == n.held[(op, id)]
      ensures Single(op) && id in n.locks[op] ==> n.locks[op][id] == 1 && (op, id) in n.held
    {
      if step.AcquireStep? {
        CountAfterAcquire(s.locks, step.op, step.id, op, id);
      } else {
        CountAfterRelease(s.locks, step.op, step.id, op, id);
      }
    }
  }

  /** Main result: in every interleaving of balanced callers the entries stay compatible,
      the counters stay at least 1, and the shared ones count the current holders. */
  lemma {:induction false} RunStaysSafe(s: State, steps: seq<Step>)
    requires Safe(s.locks) && Counted(s) && PossibleRun(s, steps)
    ensures Safe(Run(s, steps).locks) && Counted(Run(s, steps))
    decreases |steps|
  {
    if steps != [] {
      StepStaysSafe(s, steps[0]);
      StepStaysCounted(s, steps[0]);
      RunStaysSafe(Next(s, steps[0]), steps[1..]);
    }
  }

  lemma StartIsSafe()
    ensures Safe(START.locks) && Counted(START)
  {
    forall id ensures Present(NO_LOCKS, id) == {} {
    }
  }

  /** Delete is refused until the last creator, cloner and restorer has released. */
  lemma DeleteWaits(s: State, id: string)
    requires Counted(s) && Granted(s.locks, Delete, id)
    ensures s.held[(Create, id)] == s.held[(Clone, id)] == s.held[(Restore, id)] == 0
  {
    assert forall op :: op in {Create, Clone, Restore} ==> op !in Present(s.locks, id);
    assert Count(s.locks, Create, id) == Count(s.locks, Clone, id) == Count(s.locks, Restore, id) == 0;
  }

  // ---------- exactly which entries can stand together ----------

  ghost function AcquireAll(l: Locks, ops: seq<Operation>, id: string): Locks {
    if ops == [] then l else AcquireAll(Acquire(l, ops[0], id), ops[1..], id)
  }

  function Chosen(op: Operation, present: set<Operation>): seq<Operation> {
    if op in present then [op] else []
  }

  /** Any compatible set is reached; expand comes first, since create does not look for it. */
  function OrderOf(present: set<Operation>): seq<Operation> {
    Chosen(Delete, present) + (Chosen(Expand, present) + (Chosen(Create, present)
    + (Chosen(Clone, present) + (Chosen(Restore, present) + []))))
  }

  lemma AcquireChosen(l: Locks, op: Operation, present: set<Operation>, rest: seq<Operation>, id: string)
    requires op in present ==> Granted(l, op, id)
    ensures var next := if op in present then Acquire(l, op, id) else l;
            && AcquireAll(l, Chosen(op, present) + rest, id) == AcquireAll(next, rest, id)
            && Present(next, id) == Present(l, id) + (present * {op})
  {
    if op in present {
      assert (Chosen(op, present) + rest)[1..] == rest;
      PresentAfterAcquire(l, op, id, id);
    } else {
      assert Chosen(op, present) + rest == rest;
    }
  }

  lemma FirstThree(present: set<Operation>, rest: seq<Operation>, id: string) returns (l: Locks)
    requires Compatible(present)
    ensures AcquireAll(NO_LOCKS, Chosen(Delete, present) + (Chosen(Expand, present) + (Chosen(Create, present) + rest)), id)
            == AcquireAll(l, rest, id)
    ensures Present(l, id) == present * {Delete, Expand, Create}
  {
    assert Present(NO_LOCKS, id) == {};
    var create := Chosen(Create, present) + rest;
    AcquireChosen(NO_LOCKS, Delete, present, Chosen(Expand, present) + create, id);
    l := if Delete in present then Acquire(NO_LOCKS, Delete, id) else NO_LOCKS;
    AcquireChosen(l, Expand, present, create, id);
    l := if Expand in present then Acquire(l, Expand, id) else l;
    AcquireChosen(l, Create, present, rest, id);
    l := if Create in present then Acquire(l, Create, id) else l;
  }

  lemma LastTwo(l: Locks, present: set<Operation>, id: string)
    requires Compatible(present) && Present(l, id) == present * {Delete, Expand, Create}
    ensures Present(AcquireAll(l, Chosen(Clone, present) + (Chosen(Restore, present) + []), id), id) == present
  {
    AcquireChosen(l, Clone, present, Chosen(Restore, present) + [], id);
    var l' := if Clone in present then Acquire(l, Clone, id) else l;
    AcquireChosen(l', Restore, present, [], id);
  }

  lemma EveryCompatibleSetIsReached(present: set<Operation>, id: string)
    requires Compatible(present)
    ensures Present(AcquireAll(NO_LOCKS, OrderOf(present), id), id) == present
  {
    var rest := Chosen(Clone, present) + (Chosen(Restore, present) + []);
    var l := FirstThree(present, rest, id);
    LastTwo(l, present, id);
  }

  /** Create and expand come to stand together in one way only: a create is granted while an
      expand stands. */
  lemma CreateBesideExpandIff(s: State, step: Step, id: string)
    requires Possible(s, step) && !({Create, Expand} <= Present(s.locks, id))
    ensures {Create, Expand} <= Present(Next(s, step).locks, id)
            <==> step == AcquireStep(Create, id) && Expand in Present(s.locks, id) && Delete !in Present(s.locks, id)
  {
    if step.AcquireStep? {
      PresentAfterAcquire(s.locks, step.op, step.id, id);
    } else {
      PresentAfterRelease(s.locks, step.op, step.id, id);
    }
  }

  // ---------- where counting fails ----------

  /** The entry of an operation counts its holders. */
  ghost predicate Exact(s: State, op: Operation, id: string)
    requires op in OPERATIONS
  {
    Count(s.locks, op, id) == s.held[(op, id)]
  }

  /** A second delete or expand of one id: it sets the counter to 1 instead of raising it. */
  ghost predicate Uncounted(s: State, step: Step) {
    && step.AcquireStep? && Single(step.op) && Granted(s.locks, step.op, step.id)
    && (step.op, step.id) in s.held
  }

  ghost predicate AllExact(s: State) {
    && (forall op, id :: (op, id) in s.held ==> op in OPERATIONS)
    && (forall op, id :: op in OPERATIONS ==> Exact(s, op, id))
  }

  lemma OneStepExact(s: State, step: Step, op: Operation, id: string)
    requires AllExact(s) && Possible(s, step) && op in OPERATIONS
    ensures (op, id) != (step.op, step.id) ==> Exact(Next(s, step), op, id)
    ensures (op, id) == (step.op, step.id) ==> (Exact(Next(s, step), op, id) <==> !Uncounted(s, step))
  {
    assert Exact(s, op, id);
    if step.AcquireStep? {
      CountAfterAcquire(s.locks, step.op, step.id, op, id);
    } else {
      CountAfterRelease(s.locks, step.op, step.id, op, id);
    }
  }

  /** A step keeps every count exact exactly if it is not an uncounted grant. */
  lemma StaysExactIff(s: State, step: Step)
    requires AllExact(s) && Possible(s, step)
    ensures AllExact(Next(s, step)) <==> !Uncounted(s, step)
  {
    forall op, id | op in OPERATIONS && (!Uncounted(s, step) || (op, id) != (step.op, step.id))
      ensures Exact(Next(s, step), op, id)
    {
      OneStepExact(s, step, op, id);
    }
    if Uncounted(s, step) {
      OneStepExact(s, step, step.op, step.id);
    }
  }

  ghost predicate NeverUncounted(s: State, steps: seq<Step>)
    requires PossibleRun(s, steps)
    decreases |steps|
  {
    steps == [] || (!Uncounted(s, steps[0]) && NeverUncounted(Next(s, steps[0]), steps[1..]))
  }

  lemma {:induction false} RunStaysExact(s: State, steps: seq<Step>)
    requires AllExact(s) && PossibleRun(s, steps) && NeverUncounted(s, steps)
    ensures AllExact(Run(s, steps))
    decreases |steps|
  {
    if steps != [] {
      StaysExactIff(s, steps[0]);
      RunStaysExact(Next(s, steps[0]), steps[1..]);
    }
  }

  /** With exact counts of at least 1, an entry stands exactly while somebody holds it. */
  lemma PresentIffHeld(s: State, op: Operation, id: string)
    requires AllExact(s) && Safe(s.locks) && op in OPERATIONS
    ensures op in Present(s.locks, id) <==> s.held[(op, id)] > 0
  {
    assert Exact(s, op, id);
  }

  lemma StartIsExact()
    ensures AllExact(START)
  {
  }

  /** Over every run without an uncounted grant, a delete is granted exactly if nobody holds
      a create, clone, restore or expand. */
  lemma DeleteGrantedIff(steps: seq<Step>, id: string)
    requires PossibleRun(START, steps) && NeverUncounted(START, steps)
    ensures var s := Run(START, steps);
            Granted(s.locks, Delete, id)
            <==> s.held[(Create, id)] == s.held[(Clone, id)] == s.held[(Restore, id)] == s.held[(Expand, id)] == 0
  {
    StartIsExact();
    StartIsSafe();
    RunStaysExact(START, steps);
    RunStaysSafe(START, steps);
    NobodyPresent(Run(START, steps), id);
  }

  lemma NobodyPresent(s: State, id: string)
    requires AllExact(s) && Safe(s.locks)
    ensures Granted(s.locks, Delete, id)
            <==> s.held[(Create, id)] == s.held[(Clone, id)] == s.held[(Restore, id)] == s.held[(Expand, id)] == 0
  {
    PresentIffHeld(s, Create, id);
    PresentIffHeld(s, Clone, id);
    PresentIffHeld(s, Restore, id);
    PresentIffHeld(s, Expand, id);
    assert Granted(s.locks, Delete, id) <==> Present(s.locks, id) <= {Delete};
  }

  /** After two expands the first release takes the entry away, and a delete is granted while
      the other expand is still running. */
  lemma TwoExpandsLetDeleteIn(id: string)
    ensures var steps := [AcquireStep(Expand, id), AcquireStep(Expand, id), ReleaseStep(Expand, id)];
            && PossibleRun(START, steps)
            && Granted(Run(START, steps).locks, Delete, id)
            && (Expand, id) in Run(START, steps).held
  {
    var a, r := AcquireStep(Expand, id), ReleaseStep(Expand, id);
    ExpandOnce(id);
    ExpandAgain(id);
    RunThree(START, a, a, r);
  }

  function OneExpand(id: string): Locks {
    NO_LOCKS[Expand := map[id := 1]]
  }

  lemma ExpandOnce(id: string)
    ensures Next(START, AcquireStep(Expand, id)) == State(OneExpand(id), multiset{(Expand, id)})
    ensures Present(NO_LOCKS, id) == {}
  {
  }

  lemma ExpandAgain(id: string)
    ensures var s1, s2 := State(OneExpand(id), multiset{(Expand, id)}), State(OneExpand(id), multiset{(Expand, id), (Expand, id)});
            && Next(s1, AcquireStep(Expand, id)) == s2
            && Next(s2, ReleaseStep(Expand, id)) == State(NO_LOCKS, multiset{(Expand, id)})
  {
    var once := OneExpand(id);
    assert Present(once, id) == {Expand};
    assert once[Expand][id := 1] == once[Expand];
    assert once[Expand] - {id} == map[];
  }

  lemma RunThree(s: State, a: Step, b: Step, c: Step)
    requires Possible(s, a) && Possible(Next(s, a), b) && Possible(Next(Next(s, a), b), c)
    ensures PossibleRun(s, [a, b, c]) && Run(s, [a, b, c]) == Next(Next(Next(s, a), b), c)
  {
    assert [a, b, c][1..] == [b, c] && [b, c][1..] == [c] && [c][1..] == [];
    var s3 := Next(Next(Next(s, a), b), c);
    assert PossibleRun(s3, []) && Run(s3, []) == s3;
    assert PossibleRun(Next(Next(s, a), b), [c]) && Run(Next(Next(s, a), b), [c]) == s3;
    assert PossibleRun(Next(s, a), [b, c]) && Run(Next(s, a), [b, c]) == s3;
  }

  // ---------- the code ----------

  /** The tests as the code makes them. */
  lemma GrantedIff(l: Locks, id: string)
    ensures Granted(l, Create, id) <==> id !in l[Delete]
    ensures Granted(l, Clone, id) <==> id !in l[Delete] && id !in l[Expand]
    ensures Granted(l, Delete, id) <==> id !in l[Expand] && id !in l[Clone] && id !in l[Create] && id !in l[Restore]
    ensures Granted(l, Restore, id) <==> id !in l[Delete]
    ensures Granted(l, Expand, id) <==> id !in l[Delete] && id !in l[Clone] && id !in l[Create]
  {
    forall op | op in OPERATIONS ensures op in Present(l, id) <==> id in l[op] {
    }
  }

  class OperationLock {
    var locks: Locks

    constructor ()
      ensures locks == NO_LOCKS
    {
      locks := NO_LOCKS;
    }

    method TryAcquire(op: Operation, volumeID: string) returns (ok: bool)
      modifies this
      ensures ok <==> Granted(old(locks), op, volumeID)
      ensures locks == Acquire(old(locks), op, volumeID)
    {
      GrantedIff(locks, volumeID);
      match op {
        case Create =>
          if volumeID in locks[Delete] {
            return false;
          }
          var val := if volumeID in locks[Create] then locks[Create][volumeID] else 0;
          Set(Create, volumeID, val + 1);
        case Clone =>
          if volumeID in locks[Delete] {
            return false;
          }
          if volumeID in locks[Expand] {
            return false;
          }
          var val := if volumeID in locks[Clone] then locks[Clone][volumeID] else 0;
          Set(Clone, volumeID, val + 1);
        case Delete =>
          if volumeID in locks[Expand] {
            return false;
          }
          if volumeID in locks[Clone] {
            return false;
          }
          if volumeID in locks[Create] {
            return false;
          }
          if volumeID in locks[Restore] {
            return false;
          }
          Set(Delete, volumeID, 1);
        case Restore =>
          if volumeID in locks[Delete] {
            return false;
          }
          var val := if volumeID in locks[Restore] then locks[Restore][volumeID] else 0;
          Set(Restore, volumeID, val + 1);
        case Expand =>
          if volumeID in locks[Delete] {
            return false;
          }
          if volumeID in locks[Clone] {
            return false;
          }
          if volumeID in locks[Create] {
            return false;
          }
          Set(Expand, volumeID, 1);
        case Unsupported(_) =>
          return false;
      }
      return true;
    }

    method Set(op: Operation, volumeID: string, val: int)
      requires op in OPERATIONS
      modifies this
      ensures locks == old(locks)[op := old(locks)[op][volumeID := val]]
    {
      locks := locks[op := locks[op][volumeID := val]];
    }

    method ReleaseLock(op: Operation, volumeID: string)
      modifies this
      ensures locks == Release(old(locks), op, volumeID)
    {
      if op in OPERATIONS && volumeID in locks[op] {
        var val := locks[op][volumeID];
        locks := locks[op := locks[op][volumeID := val - 1]];
        if locks[op][volumeID] == 0 {
          assert locks[op] - {volumeID} == old(locks)[op] - {volumeID};
          locks := locks[op := locks[op] - {volumeID}];
        }
      }
    }
  }
}

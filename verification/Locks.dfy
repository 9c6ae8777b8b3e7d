/** The advisory file locks of the program and the order in which they are taken. */
module Locks {
  datatype Lock = Images | Manifest | Allocator | Deployment

  /** The fixed order: caches first, then the allocator, then the deployment. */
  function Rank(lock: Lock): nat
  {
    match lock
    case Images => 0
    case Manifest => 0
    case Allocator => 1
    case Deployment => 2
  }

  datatype Action = Acquire(lock: Lock, shared: bool) | Release(lock: Lock)

  type Program = seq<Action>

  /** The locks held, each shared or not. */
  type Held = map<Lock, bool>

  function After(held: Held, action: Action): Held
  {
    match action
    case Acquire(lock, shared) => held[lock := shared]
    case Release(lock) => map l | l in held && l != lock :: held[l]
  }

  /** Every lock is taken above all the locks already held, only held locks are released, and none is left. */
  predicate Disciplined(held: Held, program: Program)
    decreases |program|
  {
    if program == [] then held == map[]
    else
      && (match program[0]
          case Acquire(lock, _) => forall other :: other in held ==> Rank(other) < Rank(lock)
          case Release(lock) => lock in held)
      && Disciplined(After(held, program[0]), program[1..])
  }

  // ---------------------------------------------------------------- the operations

  function Exclusive(lock: Lock): Program { [Acquire(lock, false), Release(lock)] }

  /** Pulling an image; recovering a damaged cache file also takes the allocator lock. */
  function PullImage(recovery: bool): Program
  {
    [Acquire(Images, false)] + (if recovery then Exclusive(Allocator) else []) + [Release(Images)]
  }

  /** Pruning resolves its references under the allocator lock, and deletes under the images lock. */
  function Prune(apply: bool): Program
  {
    if apply then [Acquire(Images, false)] + Exclusive(Allocator) + [Release(Images)] else Exclusive(Allocator)
  }

  /** Sections under the deployment lock, one after another. */
  function Sections(n: nat): Program
  {
    if n == 0 then [] else Exclusive(Deployment) + Sections(n - 1)
  }

  function Pulls(recoveries: seq<bool>): Program
  {
    if recoveries == [] then [] else PullImage(recoveries[0]) + Pulls(recoveries[1..])
  }

  /** Bringing a deployment up: status sections of interrupted nodes and then images first; then, under the allocator
      lock, the key section, the controller and any later sections under the deployment lock. */
  function Up(statuses: nat, recoveries: seq<bool>, sections: nat): Program
  {
    Sections(statuses) + Pulls(recoveries) + [Acquire(Allocator, false)] + Sections(sections) + [Release(Allocator)]
  }

  /** Starting nodes that exist takes no allocator lock: status sections, and the start section. */
  function Start(statuses: nat): Program
  {
    Sections(statuses) + Exclusive(Deployment)
  }

  datatype Operation =
    | PullOperation(recovery: bool) | ImportOperation | PruneOperation(apply: bool) | CatalogOperation
    | UpOperation(statuses: nat, recoveries: seq<bool>, sections: nat)
    | RecreateOperation(statuses: nat, recoveries: seq<bool>, sections: nat)
    | StartOperation(statuses: nat) | DeploymentOperation | SnapshotOperation

  function ProgramOf(operation: Operation): Program
  {
    match operation
    case PullOperation(recovery) => PullImage(recovery)
    case ImportOperation => Exclusive(Images)
    case PruneOperation(apply) => Prune(apply)
    case CatalogOperation => Exclusive(Manifest)
    case UpOperation(statuses, recoveries, sections) => Up(statuses, recoveries, sections)
    case RecreateOperation(statuses, recoveries, sections) => Exclusive(Deployment) + Up(statuses, recoveries, sections)
    case StartOperation(statuses) => Start(statuses)
    case DeploymentOperation => Exclusive(Deployment)
    case SnapshotOperation => [Acquire(Deployment, true), Release(Deployment)]
  }

  lemma {:induction false} DisciplinedAppend(held: Held, first: Program, second: Program)
    requires Disciplined(held, first) && Disciplined(map[], second)
    ensures Disciplined(held, first + second)
    decreases |first|
  {
    if first == [] {
      assert first + second == second;
    } else {
      assert (first + second)[0] == first[0] && (first + second)[1..] == first[1..] + second;
      DisciplinedAppend(After(held, first[0]), first[1..], second);
    }
  }

  lemma ExclusiveIsDisciplined(lock: Lock)
    ensures Disciplined(map[], Exclusive(lock))
  {
    var program := Exclusive(lock);
    assert program[1..] == [Release(lock)] && [Release(lock)][1..] == [];
    assert After(map[lock := false], Release(lock)) == map[];
  }

  /** Wrapping a program of higher locks into one lower lock. */
  lemma {:induction false} WrappedIsDisciplined(outer: Lock, held: Held, inner: Program)
    requires Disciplined(held, inner) && outer !in held
    requires forall i :: 0 <= i < |inner| ==> Rank(outer) < Rank(inner[i].lock)
    ensures Disciplined(held[outer := false], inner + [Release(outer)])
    decreases |inner|
  {
    var wrapped := inner + [Release(outer)];
    if inner == [] {
      assert wrapped[1..] == [];
      assert After(map[outer := false], Release(outer)) == map[];
    } else {
      var action, next := inner[0], After(held, inner[0]);
      assert wrapped[0] == action && wrapped[1..] == inner[1..] + [Release(outer)];
      assert outer != action.lock;
      assert After(held[outer := false], action) == next[outer := false];
      WrappedIsDisciplined(outer, next, inner[1..]);
    }
  }

  lemma NestedIsDisciplined(outer: Lock, inner: Program)
    requires Disciplined(map[], inner) && forall i :: 0 <= i < |inner| ==> Rank(outer) < Rank(inner[i].lock)
    ensures Disciplined(map[], [Acquire(outer, false)] + inner + [Release(outer)])
  {
    var program := [Acquire(outer, false)] + inner + [Release(outer)];
    assert program[1..] == inner + [Release(outer)];
    WrappedIsDisciplined(outer, map[], inner);
  }

  lemma {:induction false} SectionsAreDisciplined(n: nat)
    ensures Disciplined(map[], Sections(n)) && forall i :: 0 <= i < |Sections(n)| ==> Sections(n)[i].lock == Deployment
  {
    if n > 0 {
      SectionsAreDisciplined(n - 1);
      ExclusiveIsDisciplined(Deployment);
      DisciplinedAppend(map[], Exclusive(Deployment), Sections(n - 1));
    }
  }

  lemma PullIsDisciplined(recovery: bool)
    ensures Disciplined(map[], PullImage(recovery))
  {
    if recovery {
      ExclusiveIsDisciplined(Allocator);
      NestedIsDisciplined(Images, Exclusive(Allocator));
    } else {
      NestedIsDisciplined(Images, []);
    }
  }

  lemma {:induction false} PullsAreDisciplined(recoveries: seq<bool>)
    ensures Disciplined(map[], Pulls(recoveries))
  {
    if recoveries != [] {
      PullIsDisciplined(recoveries[0]);
      PullsAreDisciplined(recoveries[1..]);
      DisciplinedAppend(map[], PullImage(recoveries[0]), Pulls(recoveries[1..]));
    }
  }

  lemma UpIsDisciplined(statuses: nat, recoveries: seq<bool>, sections: nat)
    ensures Disciplined(map[], Up(statuses, recoveries, sections))
  {
    SectionsAreDisciplined(statuses);
    PullsAreDisciplined(recoveries);
    SectionsAreDisciplined(sections);
    NestedIsDisciplined(Allocator, Sections(sections));
    var locked := [Acquire(Allocator, false)] + Sections(sections) + [Release(Allocator)];
    DisciplinedAppend(map[], Pulls(recoveries), locked);
    DisciplinedAppend(map[], Sections(statuses), Pulls(recoveries) + locked);
    assert Up(statuses, recoveries, sections) == Sections(statuses) + (Pulls(recoveries) + locked);
  }

  lemma StartIsDisciplined(statuses: nat)
    ensures Disciplined(map[], Start(statuses))
  {
    SectionsAreDisciplined(statuses);
    ExclusiveIsDisciplined(Deployment);
    DisciplinedAppend(map[], Sections(statuses), Exclusive(Deployment));
  }

  /** Every operation takes its locks in rising order, never one that it holds, and releases them all. */
  lemma OperationsAreDisciplined(operation: Operation)
    ensures Disciplined(map[], ProgramOf(operation))
  {
    match operation
    case PullOperation(recovery) => PullIsDisciplined(recovery);
    case ImportOperation => ExclusiveIsDisciplined(Images);
    case PruneOperation(apply) =>
      ExclusiveIsDisciplined(Allocator);
      NestedIsDisciplined(Images, Exclusive(Allocator));
    case CatalogOperation => ExclusiveIsDisciplined(Manifest);
    case UpOperation(statuses, recoveries, sections) => UpIsDisciplined(statuses, recoveries, sections);
    case RecreateOperation(statuses, recoveries, sections) =>
      ExclusiveIsDisciplined(Deployment);
      UpIsDisciplined(statuses, recoveries, sections);
      DisciplinedAppend(map[], Exclusive(Deployment), Up(statuses, recoveries, sections));
    case StartOperation(statuses) => StartIsDisciplined(statuses);
    case DeploymentOperation => ExclusiveIsDisciplined(Deployment);
    case SnapshotOperation =>
      var program := [Acquire(Deployment, true), Release(Deployment)];
      assert program[1..] == [Release(Deployment)] && [Release(Deployment)][1..] == [];
      assert After(map[Deployment := true], Release(Deployment)) == map[];
  }

  // ---------------------------------------------------------------- processes

  // Any number of processes run any of the operations; a process that waits may give up or die at any time, which
  // releases its locks.

  /** A process with what it still has to do and what it holds. */
  datatype Process = Process(todo: Program, held: Held)

  type System = seq<Process>

  function Started(operations: seq<Operation>): System
  {
    seq(|operations|, i requires 0 <= i < |operations| => Process(ProgramOf(operations[i]), map[]))
  }

  /** Process j keeps a lock of this kind from being taken. */
  predicate Blocks(system: System, j: nat, lock: Lock, shared: bool)
    requires j < |system|
  {
    lock in system[j].held && !(shared && system[j].held[lock])
  }

  predicate Waits(system: System, i: nat, j: nat)
  {
    && i < |system| && j < |system| && i != j && system[i].todo != [] && system[i].todo[0].Acquire?
    && Blocks(system, j, system[i].todo[0].lock, system[i].todo[0].shared)
  }

  predicate CanStep(system: System, i: nat)
  {
    i < |system| && system[i].todo != [] && forall j: nat :: j < |system| ==> !Waits(system, i, j)
  }

  datatype Event = Advance(i: nat) | GiveUp(i: nat)

  function Step(system: System, event: Event): System
  {
    match event
    case Advance(i) =>
      if CanStep(system, i)
      then system[i := Process(system[i].todo[1..], After(system[i].held, system[i].todo[0]))]
      else system
    case GiveUp(i) => if i < |system| then system[i := Process([], map[])] else system
  }

  function Run(system: System, events: seq<Event>): System
    decreases |events|
  {
    if events == [] then system else Run(Step(system, events[0]), events[1..])
  }

  /** Every process is disciplined from where it stands, and no two hold a lock unless both share it. */
  ghost predicate Orderly(system: System)
  {
    && (forall i :: 0 <= i < |system| ==> Disciplined(system[i].held, system[i].todo))
    && forall i, j, lock :: 0 <= i < j < |system| && lock in system[i].held && lock in system[j].held ==>
         system[i].held[lock] && system[j].held[lock]
  }

  lemma StepKeepsOrderly(system: System, event: Event)
    requires Orderly(system)
    ensures Orderly(Step(system, event))
  {
    var after := Step(system, event);
    if event.Advance? && CanStep(system, event.i) {
      var i := event.i;
      var action := system[i].todo[0];
      forall j, lock | 0 <= j < |system| && j != i && lock in after[i].held && lock in after[j].held
        ensures after[i].held[lock] && after[j].held[lock]
      {
        if action.Acquire? && action.lock == lock {
          assert !Waits(system, i, j);
        } else {
          assert lock in system[i].held && lock in system[j].held;
        }
      }
    }
  }

  lemma StartIsOrderly(operations: seq<Operation>)
    ensures Orderly(Started(operations))
  {
    forall i | 0 <= i < |operations|
      ensures Disciplined(map[], ProgramOf(operations[i]))
    {
      OperationsAreDisciplined(operations[i]);
    }
  }

  /** Whoever waits for a waiting process waits for a lower lock than it. */
  lemma WaitingRises(system: System, i: nat, j: nat, k: nat)
    requires Orderly(system) && Waits(system, i, j) && Waits(system, j, k)
    ensures Rank(system[i].todo[0].lock) < Rank(system[j].todo[0].lock)
  {
  }

  /** Each process of the cycle waits for the next one, and the last for the first. */
  predicate WaitCycle(system: System, cycle: seq<nat>)
  {
    && cycle != []
    && forall k :: 0 <= k < |cycle| ==> Waits(system, cycle[k], cycle[if k + 1 < |cycle| then k + 1 else 0])
  }

  /** The rank of the lock that a waiting process wants. */
  function Wanted(system: System, i: nat): nat
  {
    if i < |system| && system[i].todo != [] then Rank(system[i].todo[0].lock) else 0
  }

  lemma {:induction false} RanksRise(system: System, cycle: seq<nat>, n: nat)
    requires Orderly(system) && WaitCycle(system, cycle) && n < |cycle|
    ensures Wanted(system, cycle[0]) + n <= Wanted(system, cycle[n])
  {
    if n > 0 {
      RanksRise(system, cycle, n - 1);
      assert Waits(system, cycle[n - 1], cycle[if n - 1 + 1 < |cycle| then n - 1 + 1 else 0]);
      assert Waits(system, cycle[n], cycle[if n + 1 < |cycle| then n + 1 else 0]);
      WaitingRises(system, cycle[n - 1], cycle[n], cycle[if n + 1 < |cycle| then n + 1 else 0]);
    }
  }

  lemma NoWaitCycle(system: System, cycle: seq<nat>)
    requires Orderly(system)
    ensures !WaitCycle(system, cycle)
  {
    if WaitCycle(system, cycle) {
      var n := |cycle| - 1;
      RanksRise(system, cycle, n);
      assert Waits(system, cycle[n], cycle[if n + 1 < |cycle| then n + 1 else 0]);
      assert Waits(system, cycle[0], cycle[if 0 + 1 < |cycle| then 0 + 1 else 0]);
      WaitingRises(system, cycle[n], cycle[0], cycle[if 0 + 1 < |cycle| then 0 + 1 else 0]);
    }
  }

  /** Unless every process is done, one of them can take its next step. */
  lemma {:induction false} SomeoneCanStep(system: System, i: nat) returns (free: nat)
    requires Orderly(system) && i < |system| && system[i].todo != []
    ensures CanStep(system, free)
    decreases 3 - if system[i].todo[0].Acquire? then Rank(system[i].todo[0].lock) else 2
  {
    if CanStep(system, i) {
      free := i;
    } else {
      var j: nat :| j < |system| && Waits(system, i, j);
      assert system[j].todo != [];
      if CanStep(system, j) {
        free := j;
      } else {
        var k: nat :| k < |system| && Waits(system, j, k);
        WaitingRises(system, i, j, k);
        free := SomeoneCanStep(system, j);
      }
    }
  }

  /** Any number of processes running the operations, with give-ups and crashes anywhere, never reach a wait cycle;
      some unfinished process can always go on; and an exclusive lock has one holder. */
  lemma {:induction false} RunsNeverDeadlock(system: System, events: seq<Event>)
    requires Orderly(system)
    ensures var now := Run(system, events);
            && Orderly(now)
            && (forall cycle :: !WaitCycle(now, cycle))
            && ((exists i :: 0 <= i < |now| && now[i].todo != []) ==> exists free: nat :: CanStep(now, free))
    decreases |events|
  {
    if events == [] {
      forall cycle
        ensures !WaitCycle(system, cycle)
      {
        NoWaitCycle(system, cycle);
      }
      if i :| 0 <= i < |system| && system[i].todo != [] {
        var free := SomeoneCanStep(system, i);
      }
    } else {
      StepKeepsOrderly(system, events[0]);
      RunsNeverDeadlock(Step(system, events[0]), events[1..]);
    }
  }

  lemma OperationsNeverDeadlock(operations: seq<Operation>, events: seq<Event>)
    ensures var now := Run(Started(operations), events);
            && (forall cycle :: !WaitCycle(now, cycle))
            && ((exists i :: 0 <= i < |now| && now[i].todo != []) ==> exists free: nat :: CanStep(now, free))
  {
    StartIsOrderly(operations);
    RunsNeverDeadlock(Started(operations), events);
  }

  // ---------------------------------------------------------------- lock tokens

  /** The lock table of the kernel: who holds each file, and whether shared. */
  class Table {
    var holders: map<string, map<nat, bool>>

    constructor ()
      ensures Valid() && holders == map[]
    {
      holders := map[];
    }

    ghost predicate Valid()
      reads this
    {
      forall path, a, b :: path in holders && a in holders[path] && b in holders[path] && a != b ==> holders[path][a] && holders[path][b]
    }

    function Holders(path: string): map<nat, bool>
      reads this
    {
      if path in holders then holders[path] else map[]
    }

    /** One non-blocking attempt. */
    method TryLock(path: string, owner: nat, shared: bool) returns (ok: bool)
      requires Valid() && owner !in Holders(path)
      modifies this
      ensures Valid()
      ensures ok == forall other :: other in old(Holders(path)) ==> shared && old(Holders(path))[other]
      ensures holders == if ok then old(holders)[path := old(Holders(path))[owner := shared]] else old(holders)
    {
      var current := Holders(path);
      ok := forall other :: other in current ==> shared && current[other];
      if ok {
        var updated: map<nat, bool> := current[owner := shared];
        holders := holders[path := updated];
      }
    }

    method Unlock(path: string, owner: nat)
      requires Valid()
      modifies this
      ensures Valid() && forall other :: Holders(other) == if other == path then old(Holders(path)) - {owner} else old(Holders(other))
    {
      holders := holders[path := Holders(path) - {owner}];
    }
  }

  /** The token of an acquired lock; a released token has no handle. */
  class Token {
    const path: string
    const shared: bool
    const owner: nat
    const table: Table
    var live: bool

    /** A live token's lock is in the table. */
    ghost predicate Valid()
      reads this, table
    {
      table.Valid() && (live ==> owner in table.Holders(path) && table.Holders(path)[owner] == shared)
    }

    /** The token of a lock that the table has just granted. */
    constructor (table: Table, path: string, owner: nat, shared: bool)
      requires table.Valid() && owner in table.Holders(path) && table.Holders(path)[owner] == shared
      ensures Valid() && live && this.table == table && this.path == path && this.owner == owner && this.shared == shared
    {
      this.table, this.path, this.owner, this.shared, live := table, path, owner, shared, true;
    }

    /** Acceptance means that the token's owner, and nobody else, holds exactly this lock now. */
    method ValidateExclusive(required: string) returns (ok: bool)
      requires Valid()
      ensures ok == (live && !shared && required != "" && path == required)
      ensures ok ==> table.Holders(required) == map[owner := false]
    {
      ok := live && !shared && required != "" && path == required;
      if ok {
        assert forall other :: other in table.Holders(path) ==> other == owner;
      }
    }

    /** Releasing twice is harmless. */
    method Release()
      requires Valid()
      modifies this`live, table
      ensures Valid() && !live
      ensures table.Holders(path) == if old(live) then old(table.Holders(path)) - {owner} else old(table.Holders(path))
    {
      if live {
        table.Unlock(path, owner);
        live := false;
      }
    }
  }
}

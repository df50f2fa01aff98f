/** What the locks of the database are for: the data that the operations touch between their locks
    (src/database/Database.hpp, DBElement.hpp, DBView.hpp). */
module Sharing {
  import opened LockOrder

  /** The indexers, the array of elements with its size, the list of free indices, and the data of an element. */
  datatype Shared = Indexers | Slots | FreeList | Content(index: nat)

  /** A lock that is taken or dropped, or a place that is read or written; `bare` where the code has no lock for it. */
  datatype Step = Locking(act: Act) | Touch(what: Shared, write: bool, bare: bool)

  function KeyOf(what: Shared): Lock {
    match what
    case Indexers => Indexer
    case Slots => Data
    case FreeList => Free
    case Content(i) => Element(i)
  }

  function Read(what: Shared): Step {
    Touch(what, false, false)
  }

  function Write(what: Shared): Step {
    Touch(what, true, false)
  }

  // ---------------------------------------------------------------- the operations, step by step

  function Guarded(locks: set<Lock>, inner: seq<Step>): seq<Step> {
    [Locking(Acquire(locks))] + inner + [Locking(Release(locks))]
  }

  /** DBElement::unlock: data is moved to a new place, and the update callback tells the indexers. */
  function UnlockSteps(i: nat, hasData: bool): seq<Step> {
    [Read(Content(i))]
    + (if hasData then [Write(Content(i))] + Guarded({Indexer}, [Read(Content(i)), Write(Indexers)]) else [])
    + [Locking(Release({Element(i)}))]
  }

  function Validation(i: nat): seq<Step> {
    Guarded({Indexer}, [Read(Content(i)), Read(Indexers)])
  }

  function AfterLock(i: nat, finding: Finding): seq<Step> {
    match finding
    case Gone(refilled) => UnlockSteps(i, refilled)
    case Stale => Validation(i) + UnlockSteps(i, true)
    case Kept => Validation(i)
  }

  function VisitSteps(i: nat, finding: Finding): seq<Step> {
    [Locking(Acquire({Element(i)})), Read(Content(i))] + AfterLock(i, finding)
  }

  function VisitsSteps(found: seq<(nat, Finding)>): seq<Step> {
    if found == [] then [] else VisitSteps(found[0].0, found[0].1) + VisitsSteps(found[1..])
  }

  /** getIndexListUnlocked asks elements whether they have data, without their locks. */
  function Looks(looked: seq<nat>): seq<Step> {
    if looked == [] then [] else [Touch(Content(looked[0]), false, true)] + Looks(looked[1..])
  }

  /** What an operation does; `looked` is the elements that a query looks at before it locks those it has found. */
  function Steps(op: Operation, looked: seq<nat>): seq<Step> {
    match op
    case Insert(i) =>
      Guarded({Data, Free}, [Write(FreeList), Write(Slots)])
      + ([Touch(Content(i), true, true)]
         + (Guarded({Indexer}, [Touch(Content(i), false, true), Write(Indexers)]) + [Locking(Acquire({Element(i)}))]))
    case Count => Guarded({Data, Free}, [Read(Slots), Read(FreeList)])
    case Get(found) => Guarded({Indexer, Data}, [Read(Indexers), Read(Slots)] + Looks(looked)) + VisitsSteps(found)
    case ReleaseView(i, hasData) => UnlockSteps(i, hasData)
    case Remove(i, refilled) =>
      Guarded({Indexer}, [Read(Content(i)), Write(Indexers)])
      + ([Write(Content(i))]
         + (Guarded({Free}, [Write(FreeList)]) + ([Write(Content(i))] + UnlockSteps(i, refilled))))
  }

  /** The locking alone. */
  function Erase(steps: seq<Step>): seq<Act> {
    if steps == [] then [] else (if steps[0].Locking? then [steps[0].act] else []) + Erase(steps[1..])
  }

  lemma {:induction false} EraseJoins(a: seq<Step>, b: seq<Step>)
    ensures Erase(a + b) == Erase(a) + Erase(b)
    decreases |a|
  {
    if a == [] {
      assert a + b == b;
    } else {
      var h := if a[0].Locking? then [a[0].act] else [];
      assert (a + b)[1..] == a[1..] + b && (a + b)[0] == a[0];
      EraseJoins(a[1..], b);
      assert h + (Erase(a[1..]) + Erase(b)) == h + Erase(a[1..]) + Erase(b);
    }
  }

  lemma {:induction false} EraseTouches(steps: seq<Step>)
    requires forall x <- steps :: x.Touch?
    ensures Erase(steps) == []
    decreases |steps|
  {
    if steps != [] {
      assert steps[0] in steps;
      EraseTouches(steps[1..]);
    }
  }

  lemma EraseGuarded(locks: set<Lock>, inner: seq<Step>)
    requires forall x <- inner :: x.Touch?
    ensures Erase(Guarded(locks, inner)) == Guard(locks)
  {
    var (a, r) := ([Locking(Acquire(locks))], [Locking(Release(locks))]);
    EraseTouches(inner);
    EraseJoins(a + inner, r);
    EraseJoins(a, inner);
    assert a[1..] == [] && r[1..] == [];
  }

  lemma EraseOne(x: Step)
    ensures Erase([x]) == if x.Locking? then [x.act] else []
  {
    assert [x][1..] == [];
  }

  lemma ErasesUnlock(i: nat, hasData: bool)
    ensures Erase(UnlockSteps(i, hasData)) == Unlock(i, hasData)
  {
    hide Erase, Guard, Guarded;
    var g := Guarded({Indexer}, [Read(Content(i)), Write(Indexers)]);
    var r := [Locking(Release({Element(i)}))];
    var m := if hasData then [Write(Content(i))] + g else [];
    EraseGuarded({Indexer}, [Read(Content(i)), Write(Indexers)]);
    EraseOne(Read(Content(i)));
    EraseOne(Write(Content(i)));
    EraseOne(Locking(Release({Element(i)})));
    EraseJoins([Write(Content(i))], g);
    EraseTouches([]);
    EraseJoins([Read(Content(i))] + m, r);
    EraseJoins([Read(Content(i))], m);
  }

  lemma ErasesVisit(i: nat, finding: Finding)
    ensures Erase(VisitSteps(i, finding)) == Visit(i, finding)
  {
    hide Erase, Guard, Guarded, UnlockSteps, Unlock;
    var v := Validation(i);
    EraseGuarded({Indexer}, [Read(Content(i)), Read(Indexers)]);
    EraseOne(Locking(Acquire({Element(i)})));
    EraseOne(Read(Content(i)));
    EraseJoins([Locking(Acquire({Element(i)}))], [Read(Content(i))]);
    var start := [Locking(Acquire({Element(i)})), Read(Content(i))];
    assert start == [Locking(Acquire({Element(i)}))] + [Read(Content(i))];
    match finding
    case Gone(refilled) =>
      ErasesUnlock(i, refilled);
      EraseJoins(start, UnlockSteps(i, refilled));
    case Stale =>
      ErasesUnlock(i, true);
      EraseJoins(v, UnlockSteps(i, true));
      EraseJoins(start, v + UnlockSteps(i, true));
    case Kept => EraseJoins(start, v);
  }

  lemma {:induction false} ErasesVisits(found: seq<(nat, Finding)>)
    ensures Erase(VisitsSteps(found)) == Visits(found)
    decreases |found|
  {
    hide VisitSteps, Visit;
    if found != [] {
      ErasesVisit(found[0].0, found[0].1);
      ErasesVisits(found[1..]);
      EraseJoins(VisitSteps(found[0].0, found[0].1), VisitsSteps(found[1..]));
    }
  }

  lemma {:induction false} LooksTouch(looked: seq<nat>)
    ensures forall x <- Looks(looked) :: x.Touch? && x.bare && x.what.Content? && !x.write
    decreases |looked|
  {
    if looked != [] {
      LooksTouch(looked[1..]);
    }
  }

  /** Without what they touch, the operations take the locks that the lock order is about. */
  lemma ErasesTo(op: Operation, looked: seq<nat>)
    ensures Erase(Steps(op, looked)) == Acts(op)
  {
    hide Erase, Guard, Guarded, UnlockSteps, Unlock, VisitsSteps, Visits;
    match op
    case Insert(i) =>
      var (a, b) := ([Write(FreeList), Write(Slots)], [Touch(Content(i), false, true), Write(Indexers)]);
      var (w, l) := (Touch(Content(i), true, true), Locking(Acquire({Element(i)})));
      EraseGuarded({Data, Free}, a);
      EraseGuarded({Indexer}, b);
      EraseOne(w);
      EraseOne(l);
      EraseJoins(Guarded({Indexer}, b), [l]);
      EraseJoins([w], Guarded({Indexer}, b) + [l]);
      EraseJoins(Guarded({Data, Free}, a), [w] + (Guarded({Indexer}, b) + [l]));
      assert Acts(op) == Guard({Data, Free}) + ([] + (Guard({Indexer}) + [l.act]));
    case Count => EraseGuarded({Data, Free}, [Read(Slots), Read(FreeList)]);
    case Get(found) =>
      LooksTouch(looked);
      var inner := [Read(Indexers), Read(Slots)] + Looks(looked);
      EraseGuarded({Indexer, Data}, inner);
      ErasesVisits(found);
      EraseJoins(Guarded({Indexer, Data}, inner), VisitsSteps(found));
    case ReleaseView(i, hasData) => ErasesUnlock(i, hasData);
    case Remove(i, refilled) =>
      var (g, f, w) := ([Read(Content(i)), Write(Indexers)], [Write(FreeList)], Write(Content(i)));
      var last := [w] + UnlockSteps(i, refilled);
      EraseGuarded({Indexer}, g);
      EraseGuarded({Free}, f);
      EraseOne(w);
      ErasesUnlock(i, refilled);
      EraseJoins([w], UnlockSteps(i, refilled));
      EraseJoins(Guarded({Free}, f), last);
      EraseJoins([w], Guarded({Free}, f) + last);
      EraseJoins(Guarded({Indexer}, g), [w] + (Guarded({Free}, f) + last));
      assert Acts(op) == Guard({Indexer}) + ([] + (Guard({Free}) + ([] + Unlock(i, refilled))));
  }

  // ---------------------------------------------------------------- what is touched under which lock

  /** Done from `held` on, the steps touch everything under its lock, besides bare touches of the data of an element,
      and leave only views. */
  ghost predicate Protected(held: set<Lock>, steps: seq<Step>)
    decreases |steps|
  {
    if steps == [] then OnlyViews(held)
    else
      match steps[0]
      case Locking(Acquire(locks)) => Protected(held + locks, steps[1..])
      case Locking(Release(locks)) => Protected(held - locks, steps[1..])
      case Touch(what, _, bare) => (if bare then what.Content? else KeyOf(what) in held) && Protected(held, steps[1..])
  }

  lemma {:induction false} TouchesProtect(held: set<Lock>, inner: seq<Step>, rest: seq<Step>)
    requires forall x <- inner :: x.Touch? && (if x.bare then x.what.Content? else KeyOf(x.what) in held)
    requires Protected(held, rest)
    ensures Protected(held, inner + rest)
    decreases |inner|
  {
    if inner == [] {
      assert inner + rest == rest;
    } else {
      assert inner[0] in inner && (inner + rest)[1..] == inner[1..] + rest;
      TouchesProtect(held, inner[1..], rest);
    }
  }

  lemma GuardedProtects(held: set<Lock>, locks: set<Lock>, inner: seq<Step>, rest: seq<Step>)
    requires held !! locks && Protected(held, rest)
    requires forall x <- inner :: x.Touch? && (if x.bare then x.what.Content? else KeyOf(x.what) in held + locks)
    ensures Protected(held, Guarded(locks, inner) + rest)
  {
    var drop := [Locking(Release(locks))] + rest;
    assert held + locks - locks == held && drop[1..] == rest;
    TouchesProtect(held + locks, inner, drop);
    var all := [Locking(Acquire(locks))] + (inner + drop);
    assert all[1..] == inner + drop;
    assert Guarded(locks, inner) + rest == all;
  }

  lemma DropProtects(held: set<Lock>, locks: set<Lock>, rest: seq<Step>)
    requires Protected(held - locks, rest)
    ensures Protected(held, [Locking(Release(locks))] + rest)
  {
    assert ([Locking(Release(locks))] + rest)[1..] == rest;
  }

  lemma UnlockProtects(held: set<Lock>, i: nat, hasData: bool, rest: seq<Step>)
    requires OnlyViews(held) && Element(i) in held && Protected(held - {Element(i)}, rest)
    ensures Protected(held, UnlockSteps(i, hasData) + rest)
  {
    hide Guarded, Protected;
    var drop := [Locking(Release({Element(i)}))] + rest;
    DropProtects(held, {Element(i)}, rest);
    var inner := [Read(Content(i)), Write(Indexers)];
    var m := if hasData then [Write(Content(i))] + Guarded({Indexer}, inner) else [];
    if hasData {
      GuardedProtects(held, {Indexer}, inner, drop);
      TouchesProtect(held, [Write(Content(i))], Guarded({Indexer}, inner) + drop);
      assert m + drop == [Write(Content(i))] + (Guarded({Indexer}, inner) + drop);
    } else {
      assert m + drop == drop;
    }
    TouchesProtect(held, [Read(Content(i))], m + drop);
    assert UnlockSteps(i, hasData) + rest == [Read(Content(i))] + (m + drop);
  }

  lemma VisitProtects(held: set<Lock>, i: nat, finding: Finding, rest: seq<Step>)
    requires OnlyViews(held)
    requires Protected(held - {Element(i)}, rest) && Protected(held + {Element(i)}, rest)
    ensures Protected(held, VisitSteps(i, finding) + rest)
  {
    hide Guarded, UnlockSteps, Protected;
    var (locked, inner) := (held + {Element(i)}, [Read(Content(i)), Read(Indexers)]);
    assert locked - {Element(i)} == held - {Element(i)};
    match finding {
      case Gone(refilled) => UnlockProtects(locked, i, refilled, rest);
      case Stale =>
        UnlockProtects(locked, i, true, rest);
        GuardedProtects(locked, {Indexer}, inner, UnlockSteps(i, true) + rest);
        assert Validation(i) + UnlockSteps(i, true) + rest == Validation(i) + (UnlockSteps(i, true) + rest);
      case Kept =>
        assert locked == held + {Element(i)};
        GuardedProtects(locked, {Indexer}, inner, rest);
    }
    var tail := AfterLock(i, finding);
    TouchesProtect(locked, [Read(Content(i))], tail + rest);
    LockProtects(held, {Element(i)}, [Read(Content(i))] + (tail + rest));
    assert VisitSteps(i, finding) + rest == [Locking(Acquire({Element(i)}))] + ([Read(Content(i))] + (tail + rest));
  }

  lemma LockProtects(held: set<Lock>, locks: set<Lock>, rest: seq<Step>)
    requires Protected(held + locks, rest)
    ensures Protected(held, [Locking(Acquire(locks))] + rest)
  {
    assert ([Locking(Acquire(locks))] + rest)[1..] == rest;
  }

  lemma {:induction false} VisitsProtect(held: set<Lock>, found: seq<(nat, Finding)>)
    requires OnlyViews(held)
    ensures Protected(held, VisitsSteps(found))
    decreases |found|
  {
    hide VisitSteps, Protected;
    if found == [] {
      NothingTouched(held);
    } else {
      var i := found[0].0;
      var rest := found[1..];
      VisitsProtect(held - {Element(i)}, rest);
      VisitsProtect(held + {Element(i)}, rest);
      VisitProtects(held, i, found[0].1, VisitsSteps(rest));
    }
  }

  lemma NothingTouched(held: set<Lock>)
    requires OnlyViews(held)
    ensures Protected(held, [])
  {
  }

  /** Every operation, whatever views its caller holds, touches the indexers, the array and the free list under their
      locks only, and the data of an element under its lock besides where it is bare. */
  lemma OperationsProtect(held: set<Lock>, op: Operation, looked: seq<nat>)
    requires OnlyViews(held) && MayEnter(false, held, op)
    ensures Protected(held, Steps(op, looked))
  {
    hide Protected, Guarded, UnlockSteps, VisitsSteps;
    NothingTouched(held);
    match op
    case Insert(i) =>
      var (a, b) := ([Write(FreeList), Write(Slots)], [Touch(Content(i), false, true), Write(Indexers)]);
      var (w, l) := (Touch(Content(i), true, true), [Locking(Acquire({Element(i)}))]);
      NothingTouched(held + {Element(i)});
      LockProtects(held, {Element(i)}, []);
      assert l + [] == l;
      GuardedProtects(held, {Indexer}, b, l);
      TouchesProtect(held, [w], Guarded({Indexer}, b) + l);
      GuardedProtects(held, {Data, Free}, a, [w] + (Guarded({Indexer}, b) + l));
    case Count =>
      GuardedProtects(held, {Data, Free}, [Read(Slots), Read(FreeList)], []);
      assert Steps(op, looked) + [] == Steps(op, looked);
    case Get(found) =>
      LooksTouch(looked);
      VisitsProtect(held, found);
      GuardedProtects(held, {Indexer, Data}, [Read(Indexers), Read(Slots)] + Looks(looked), VisitsSteps(found));
    case ReleaseView(i, hasData) => LastUnlock(held, i, hasData);
    case Remove(i, refilled) =>
      var (g, f, w) := ([Read(Content(i)), Write(Indexers)], [Write(FreeList)], [Write(Content(i))]);
      LastUnlock(held, i, refilled);
      TouchesProtect(held, w, UnlockSteps(i, refilled));
      GuardedProtects(held, {Free}, f, w + UnlockSteps(i, refilled));
      TouchesProtect(held, w, Guarded({Free}, f) + (w + UnlockSteps(i, refilled)));
      GuardedProtects(held, {Indexer}, g, w + (Guarded({Free}, f) + (w + UnlockSteps(i, refilled))));
  }

  lemma LastUnlock(held: set<Lock>, i: nat, hasData: bool)
    requires OnlyViews(held) && Element(i) in held
    ensures Protected(held, UnlockSteps(i, hasData))
  {
    NothingTouched(held - {Element(i)});
    UnlockProtects(held, i, hasData, []);
    assert UnlockSteps(i, hasData) + [] == UnlockSteps(i, hasData);
  }

  // ---------------------------------------------------------------- interleavings

  /** The locks a thread holds, and the steps of its operation that are still to come. */
  datatype Worker = Worker(held: set<Lock>, todo: seq<Step>)

  ghost predicate HeldElsewhere(s: seq<Worker>, t: nat, l: Lock) {
    exists u | 0 <= u < |s| && u != t :: l in s[u].held
  }

  predicate BeginsAt(s: seq<Worker>, s': seq<Worker>, t: nat, op: Operation, looked: seq<nat>) {
    && t < |s| && s[t].todo == [] && MayEnter(false, s[t].held, op)
    && s' == s[t := Worker(s[t].held, Steps(op, looked))]
  }

  /** A lock is waited for; a touch just happens. */
  ghost predicate Advances(s: seq<Worker>, s': seq<Worker>, t: nat) {
    && t < |s| && s[t].todo != []
    && match s[t].todo[0]
       case Locking(Acquire(locks)) =>
         && (forall l <- locks :: l !in s[t].held && !HeldElsewhere(s, t, l))
         && s' == s[t := Worker(s[t].held + locks, s[t].todo[1..])]
       case Locking(Release(locks)) => s' == s[t := Worker(s[t].held - locks, s[t].todo[1..])]
       case Touch(_, _, _) => s' == s[t := Worker(s[t].held, s[t].todo[1..])]
  }

  ghost predicate Turns(s: seq<Worker>, s': seq<Worker>) {
    (exists t, op, looked :: BeginsAt(s, s', t, op, looked)) || (exists t :: Advances(s, s', t))
  }

  ghost predicate IsHistory(run: seq<seq<Worker>>) {
    && run != [] && (forall t | 0 <= t < |run[0]| :: run[0][t] == Worker({}, []))
    && forall k | 0 <= k < |run| - 1 :: Turns(run[k], run[k + 1])
  }

  ghost predicate CanCome(s: seq<Worker>) {
    exists run :: IsHistory(run) && run[|run| - 1] == s
  }

  /** Two threads are about to touch the same thing, and one of them writes. */
  predicate Races(s: seq<Worker>, t: nat, u: nat) {
    && t < |s| && u < |s| && t != u && s[t].todo != [] && s[u].todo != []
    && s[t].todo[0].Touch? && s[u].todo[0].Touch? && s[t].todo[0].what == s[u].todo[0].what
    && (s[t].todo[0].write || s[u].todo[0].write)
  }

  ghost predicate Separate(s: seq<Worker>) {
    && (forall t | 0 <= t < |s| :: Protected(s[t].held, s[t].todo))
    && (forall t, u | 0 <= t < u < |s| :: s[t].held !! s[u].held)
  }

  lemma BeginSeparate(s: seq<Worker>, s': seq<Worker>, t: nat, op: Operation, looked: seq<nat>)
    requires Separate(s) && BeginsAt(s, s', t, op, looked)
    ensures Separate(s')
  {
    hide Steps, OnlyViews, MayEnter;
    assert Protected(s[t].held, []);
    OperationsProtect(s[t].held, op, looked);
  }

  lemma AdvanceSeparate(s: seq<Worker>, s': seq<Worker>, t: nat)
    requires Separate(s) && Advances(s, s', t)
    ensures Separate(s')
  {
    forall u | 0 <= u < |s| && u != t
      ensures s[u].held !! s'[t].held
    {
      assert s[u].held !! s[t].held;
      assert forall l <- s[u].held :: HeldElsewhere(s, t, l);
    }
  }

  lemma {:induction false} HistorySeparate(run: seq<seq<Worker>>, k: nat)
    requires IsHistory(run) && k < |run|
    ensures Separate(run[k])
    decreases k
  {
    hide Separate;
    if k == 0 {
      StartSeparate(run[0]);
    } else {
      HistorySeparate(run, k - 1);
      assert Turns(run[k - 1], run[k - 1 + 1]);
      TurnSeparate(run[k - 1], run[k]);
    }
  }

  lemma TurnSeparate(s: seq<Worker>, s': seq<Worker>)
    requires Separate(s) && Turns(s, s')
    ensures Separate(s')
  {
    hide Separate;
    if t, op, looked :| BeginsAt(s, s', t, op, looked) {
      BeginSeparate(s, s', t, op, looked);
    } else {
      var t :| Advances(s, s', t);
      AdvanceSeparate(s, s', t);
    }
  }

  lemma StartSeparate(s: seq<Worker>)
    requires forall t | 0 <= t < |s| :: s[t] == Worker({}, [])
    ensures Separate(s)
  {
  }

  /** In no interleaving, whatever views the callers hold, do two threads touch the indexers, the array of elements or
      the free list at the same time with one of them writing; and the data of an element only where one of the two has
      no lock for it: in an insert before it has locked the element, or in a query before it has. */
  lemma RacesAreBare(s: seq<Worker>, t: nat, u: nat)
    requires CanCome(s) && Races(s, t, u)
    ensures s[t].todo[0].what.Content?
    ensures s[t].todo[0].bare || s[u].todo[0].bare
  {
    var run :| IsHistory(run) && run[|run| - 1] == s;
    HistorySeparate(run, |run| - 1);
    assert Protected(s[t].held, s[t].todo) && Protected(s[u].held, s[u].todo);
    assert if t < u then s[t].held !! s[u].held else s[u].held !! s[t].held;
  }

  // ---------------------------------------------------------------- the races that there are

  lemma CanGoOn(s: seq<Worker>, s': seq<Worker>)
    requires CanCome(s) && Turns(s, s')
    ensures CanCome(s')
  {
    var run :| IsHistory(run) && run[|run| - 1] == s;
    var more := run + [s'];
    forall k | 0 <= k < |more| - 1
      ensures Turns(more[k], more[k + 1])
    {
      if k < |run| - 1 {
        assert Turns(run[k], run[k + 1]);
      }
    }
    assert IsHistory(more) && more[|more| - 1] == s';
  }

  /** A thread of two that is not hindered can run on while the other does nothing. */
  lemma {:induction false} WorksOn(s: seq<Worker>, t: nat, steps: seq<Step>, rest: seq<Step>)
    requires CanCome(s) && |s| == 2 && t < 2 && s[t].todo == steps + rest
    requires Unhindered(s[t].held, s[1 - t].held, Erase(steps))
    ensures CanCome(s[t := Worker(After(s[t].held, Erase(steps)), rest)])
    decreases |steps|
  {
    hide CanCome;
    if steps == [] {
      assert steps + rest == rest;
      assert s[t := s[t]] == s;
    } else {
      var x := steps[0];
      assert (steps + rest)[1..] == steps[1..] + rest;
      var held := match x
        case Locking(Acquire(locks)) => s[t].held + locks
        case Locking(Release(locks)) => s[t].held - locks
        case Touch(_, _, _) => s[t].held;
      assert x.Locking? ==> Erase(steps)[0] == x.act && Erase(steps)[1..] == Erase(steps[1..]);
      assert x.Touch? ==> Erase(steps) == Erase(steps[1..]);
      var s' := s[t := Worker(held, steps[1..] + rest)];
      assert x.Locking? ==> forall l <- x.act.locks | HeldElsewhere(s, t, l) :: l in s[1 - t].held;
      assert Advances(s, s', t);
      CanGoOn(s, s');
      WorksOn(s', t, steps[1..], rest);
      var end := Worker(After(held, Erase(steps[1..])), rest);
      assert s'[t := end] == s[t := end];
    }
  }

  lemma CallsTo(s: seq<Worker>, t: nat, op: Operation, looked: seq<nat>, steps: seq<Step>, rest: seq<Step>)
    requires CanCome(s) && |s| == 2 && t < 2 && s[t].todo == [] && MayEnter(false, s[t].held, op)
    requires Steps(op, looked) == steps + rest && Unhindered(s[t].held, s[1 - t].held, Erase(steps))
    ensures CanCome(s[t := Worker(After(s[t].held, Erase(steps)), rest)])
  {
    hide CanCome, Steps, After, Unhindered, Erase;
    var s' := s[t := Worker(s[t].held, Steps(op, looked))];
    assert BeginsAt(s, s', t, op, looked);
    CanGoOn(s, s');
    WorksOn(s', t, steps, rest);
    var end := Worker(After(s[t].held, Erase(steps)), rest);
    assert s'[t := end] == s[t := end];
  }

  lemma TwoStart(s: seq<Worker>)
    requires s == [Worker({}, []), Worker({}, [])]
    ensures CanCome(s)
  {
    assert IsHistory([s]) && [s][|[s]| - 1] == s;
  }

  /** A thread that has inserted element 0 keeps the view, and the other one does nothing. */
  lemma Inserted() returns (s: seq<Worker>)
    ensures CanCome(s) && s == [Worker({Element(0)}, []), Worker({}, [])]
  {
    hide CanCome, Steps, Unhindered, After;
    s := [Worker({}, []), Worker({}, [])];
    TwoStart(s);
    ErasesTo(Insert(0), []);
    InsertRuns({}, 0);
    assert Steps(Insert(0), []) + [] == Steps(Insert(0), []);
    CallsTo(s, 0, Insert(0), [], Steps(Insert(0), []), []);
    s := s[0 := Worker({Element(0)}, [])];
  }

  /** What a removal does before it writes the data for the last time, the slot being free already. */
  function RemovalUpTo(i: nat): seq<Step> {
    Guarded({Indexer}, [Read(Content(i)), Write(Indexers)])
    + ([Write(Content(i))] + Guarded({Free}, [Write(FreeList)]))
  }

  lemma RemovalRuns(i: nat, others: set<Lock>)
    requires others == {}
    ensures Unhindered({Element(i)}, others, Erase(RemovalUpTo(i)))
    ensures After({Element(i)}, Erase(RemovalUpTo(i))) == {Element(i)}
  {
    hide Guarded, Erase;
    EraseGuarded({Indexer}, [Read(Content(i)), Write(Indexers)]);
    EraseGuarded({Free}, [Write(FreeList)]);
    EraseOne(Write(Content(i)));
    EraseJoins([Write(Content(i))], Guarded({Free}, [Write(FreeList)]));
    EraseJoins(Guarded({Indexer}, [Read(Content(i)), Write(Indexers)]),
               [Write(Content(i))] + Guarded({Free}, [Write(FreeList)]));
    assert Guard({Free}) + [] == Guard({Free}) && [] + Guard({Free}) == Guard({Free});
    AfterGuard({Element(i)}, others, {Free}, []);
    AfterGuard({Element(i)}, others, {Indexer}, Guard({Free}));
  }

  /** The free index is handed out again before the removal is over: its last write of the data can meet the insert that
      sets the data of the same element, and wipe it out. */
  lemma LostInsert() returns (s: seq<Worker>)
    ensures CanCome(s) && Races(s, 0, 1)
    ensures s[0].todo[0] == Write(Content(0)) && s[1].todo[0] == Touch(Content(0), true, true)
  {
    hide CanCome, Unhindered, After, Guarded, Erase, UnlockSteps;
    s := Inserted();
    RemovalRuns(0, {});
    var rest := [Write(Content(0))] + UnlockSteps(0, false);
    assert Steps(Remove(0, false), []) == RemovalUpTo(0) + rest;
    CallsTo(s, 0, Remove(0, false), [], RemovalUpTo(0), rest);
    s := s[0 := Worker({Element(0)}, rest)];
    var (a, b) := ([Write(FreeList), Write(Slots)], [Touch(Content(0), false, true), Write(Indexers)]);
    var more := [Touch(Content(0), true, true)] + (Guarded({Indexer}, b) + [Locking(Acquire({Element(0)}))]);
    EraseGuarded({Data, Free}, a);
    AfterGuard({}, {Element(0)}, {Data, Free}, []);
    NoActs({}, {Element(0)});
    assert Guard({Data, Free}) + [] == Guard({Data, Free});
    CallsTo(s, 1, Insert(0), [], Guarded({Data, Free}, a), more);
    s := s[1 := Worker({}, more)];
  }

  lemma NoActs(held: set<Lock>, others: set<Lock>)
    ensures After(held, []) == held && Unhindered(held, others, [])
  {
  }

  /** A query asks an element whether it has data while a removal, or the release of a view, changes that. */
  lemma UnlockedLook() returns (s: seq<Worker>)
    ensures CanCome(s) && Races(s, 0, 1)
    ensures s[0].todo[0] == Write(Content(0)) && s[1].todo[0] == Touch(Content(0), false, true)
  {
    hide CanCome, Unhindered, After, Guarded, Erase, UnlockSteps;
    s := Inserted();
    RemovalRuns(0, {});
    var rest := [Write(Content(0))] + UnlockSteps(0, false);
    assert Steps(Remove(0, false), []) == RemovalUpTo(0) + rest;
    CallsTo(s, 0, Remove(0, false), [], RemovalUpTo(0), rest);
    s := s[0 := Worker({Element(0)}, rest)];
    QueryLooks();
    var start := [Locking(Acquire({Indexer, Data})), Read(Indexers), Read(Slots)];
    var more := [Touch(Content(0), false, true), Locking(Release({Indexer, Data}))];
    CallsTo(s, 1, Get([]), [0], start, more);
    s := s[1 := Worker({Indexer, Data}, more)];
  }

  lemma QueryLooks()
    ensures var start := [Locking(Acquire({Indexer, Data})), Read(Indexers), Read(Slots)];
            && Steps(Get([]), [0])
               == start + [Touch(Content(0), false, true), Locking(Release({Indexer, Data}))]
            && Unhindered({}, {Element(0)}, Erase(start)) && After({}, Erase(start)) == {Indexer, Data}
  {
    var start := [Locking(Acquire({Indexer, Data})), Read(Indexers), Read(Slots)];
    assert start[1..][1..][1..] == [];
    assert Erase(start) == [Acquire({Indexer, Data})] && Erase(start)[1..] == [];
    assert Looks([0]) == [Touch(Content(0), false, true)] + Looks([0][1..]);
    assert {} + {Indexer, Data} == {Indexer, Data};
  }
}

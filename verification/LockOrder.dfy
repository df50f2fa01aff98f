/** The locks of the database (src/database/Database.hpp, DBElement.hpp, DBView.hpp): every interleaving of threads
    that take and drop them as the operations do. */
module LockOrder {

  /** The mutex of an element, and the three of the database. */
  datatype Lock = Element(index: nat) | Indexer | Data | Free

  /** A guard that takes all its locks or waits holding none of them, as std::scoped_lock does, or a release. */
  datatype Act = Acquire(locks: set<Lock>) | Release(locks: set<Lock>)

  /** The locks a thread holds, and what the operation it is in has still to do; between operations it may hold
      views, which are element locks. */
  datatype Thread = Thread(held: set<Lock>, todo: seq<Act>)

  type State = seq<Thread>

  // ---------------------------------------------------------------- the order

  /** element 0 < element 1 < ... < indexer < data < free indices. */
  predicate Less(a: Lock, b: Lock) {
    match (a, b)
    case (Element(i), Element(j)) => i < j
    case (Element(_), _) => true
    case (_, Element(_)) => false
    case (Indexer, _) => !b.Indexer?
    case (Data, _) => b.Free?
    case (Free, _) => false
  }

  lemma LessIsAnOrder(a: Lock, b: Lock, c: Lock)
    ensures !Less(a, a)
    ensures Less(a, b) && Less(b, c) ==> Less(a, c)
    ensures a == b || Less(a, b) || Less(b, a)
  {
  }

  predicate AllLess(a: set<Lock>, b: set<Lock>) {
    forall x, y | x in a && y in b :: Less(x, y)
  }

  /** Done from `held` on, the acts take locks in ascending order only and drop only what is held. */
  predicate Respects(held: set<Lock>, acts: seq<Act>)
    decreases |acts|
  {
    if acts == [] then forall l <- held :: l.Element?
    else
      match acts[0]
      case Acquire(locks) => AllLess(held, locks) && Respects(held + locks, acts[1..])
      case Release(locks) => locks <= held && Respects(held - locks, acts[1..])
  }

  // ---------------------------------------------------------------- the operations

  /** What get finds when it has locked an element: no data any more, data that no indexer stands by any more, or a
      view that it keeps. An insert sets data without the element's lock, so data may be back when an element that was
      without data is unlocked; `refilled` says so. */
  datatype Finding = Gone(refilled: bool) | Stale | Kept

  datatype Operation =
    | Insert(index: nat)
    | Count
    | Get(found: seq<(nat, Finding)>)
    | ReleaseView(view: nat, hasData: bool)
    | Remove(view: nat, refilled: bool)

  /** A lock taken and dropped at once. */
  function Guard(locks: set<Lock>): seq<Act> {
    [Acquire(locks), Release(locks)]
  }

  /** DBElement::unlock: the update callback takes the indexer lock if there is data. */
  function Unlock(index: nat, hasData: bool): seq<Act> {
    (if hasData then Guard({Indexer}) else []) + [Release({Element(index)})]
  }

  function Visit(index: nat, finding: Finding): seq<Act> {
    [Acquire({Element(index)})]
    + match finding
      case Gone(refilled) => Unlock(index, refilled)
      case Stale => Guard({Indexer}) + Unlock(index, true)
      case Kept => Guard({Indexer})
  }

  function Visits(found: seq<(nat, Finding)>): seq<Act> {
    if found == [] then [] else Visit(found[0].0, found[0].1) + Visits(found[1..])
  }

  function Acts(op: Operation): seq<Act> {
    match op
    case Insert(i) => Guard({Data, Free}) + Guard({Indexer}) + [Acquire({Element(i)})]
    case Count => Guard({Data, Free})
    case Get(found) => Guard({Indexer, Data}) + Visits(found)
    case ReleaseView(i, hasData) => Unlock(i, hasData)
    case Remove(i, refilled) => Guard({Indexer}) + Guard({Free}) + Unlock(i, refilled)
  }

  /** Index lists are sorted and without duplicates. */
  predicate Ascending(found: seq<(nat, Finding)>) {
    forall i, j | 0 <= i < j < |found| :: found[i].0 < found[j].0
  }

  /** When an operation can be called; `polite` callers hold no view, or only views on elements below those that
      they come to lock, when they insert or query. */
  predicate MayEnter(polite: bool, held: set<Lock>, op: Operation) {
    match op
    case Insert(i) => polite ==> AllBelow(held, i)
    case Count => true
    case Get(found) => Ascending(found) && (polite ==> forall k | 0 <= k < |found| :: AllBelow(held, found[k].0))
    case ReleaseView(i, _) => Element(i) in held
    case Remove(i, _) => Element(i) in held
  }

  predicate AllBelow(held: set<Lock>, index: nat) {
    forall l <- held :: Less(l, Element(index))
  }

  /** Who holds no view may call anything that needs none. */
  lemma NoViewsMayEnter(op: Operation)
    requires op.Insert? || op.Count? || (op.Get? && Ascending(op.found))
    ensures MayEnter(true, {}, op)
  {
  }

  // ---------------------------------------------------------------- interleavings

  ghost predicate HeldByOther(s: State, t: nat, l: Lock) {
    exists u | 0 <= u < |s| && u != t :: l in s[u].held
  }

  /** A thread between operations calls one. */
  predicate Begins(polite: bool, s: State, s': State, t: nat, op: Operation) {
    && t < |s| && s[t].todo == [] && MayEnter(polite, s[t].held, op)
    && s' == s[t := Thread(s[t].held, Acts(op))]
  }

  /** A thread does its next act; it waits as long as another thread, or itself, has a lock that it takes. */
  ghost predicate Does(s: State, s': State, t: nat) {
    && t < |s| && s[t].todo != []
    && match s[t].todo[0]
       case Acquire(locks) =>
         && (forall l <- locks :: l !in s[t].held && !HeldByOther(s, t, l))
         && s' == s[t := Thread(s[t].held + locks, s[t].todo[1..])]
       case Release(locks) => s' == s[t := Thread(s[t].held - locks, s[t].todo[1..])]
  }

  ghost predicate Next(polite: bool, s: State, s': State) {
    (exists t, op :: Begins(polite, s, s', t, op)) || (exists t :: Does(s, s', t))
  }

  predicate Init(s: State) {
    forall t | 0 <= t < |s| :: s[t] == Thread({}, [])
  }

  ghost predicate IsRun(polite: bool, run: seq<State>) {
    run != [] && Init(run[0]) && forall k | 0 <= k < |run| - 1 :: Next(polite, run[k], run[k + 1])
  }

  ghost predicate Reachable(polite: bool, s: State) {
    exists run :: IsRun(polite, run) && run[|run| - 1] == s
  }

  /** Thread t waits for a lock that thread u has. */
  predicate WaitsFor(s: State, t: nat, u: nat, l: Lock) {
    && t < |s| && u < |s| && s[t].todo != [] && s[t].todo[0].Acquire?
    && l in s[t].todo[0].locks && l in s[u].held
  }

  /** A circle: every thread of the set waits for a thread of the set. */
  ghost predicate Deadlocked(s: State, circle: set<nat>) {
    circle != {} && forall t <- circle :: exists u, l :: u in circle && WaitsFor(s, t, u, l)
  }

  // ---------------------------------------------------------------- every operation respects the order

  ghost predicate OnlyViews(held: set<Lock>) {
    forall l <- held :: l.Element?
  }

  lemma LessIsApart(a: set<Lock>, b: set<Lock>)
    requires AllLess(a, b)
    ensures a !! b
  {
    forall x | x in a
      ensures x !in b
    {
      assert x in b ==> Less(x, x);
    }
  }

  lemma GuardRespects(held: set<Lock>, locks: set<Lock>, rest: seq<Act>)
    requires AllLess(held, locks) && Respects(held, rest)
    ensures Respects(held, Guard(locks) + rest)
  {
    var acts := Guard(locks) + rest;
    assert acts[1..][1..] == rest;
    LessIsApart(held, locks);
    assert held + locks - locks == held;
  }

  lemma ViewsBelow(held: set<Lock>, locks: set<Lock>)
    requires OnlyViews(held) && forall l <- locks :: !l.Element?
    ensures AllLess(held, locks)
  {
  }

  lemma AcquireRespects(held: set<Lock>, locks: set<Lock>, rest: seq<Act>)
    requires AllLess(held, locks) && Respects(held + locks, rest)
    ensures Respects(held, [Acquire(locks)] + rest)
  {
    assert ([Acquire(locks)] + rest)[1..] == rest;
  }

  lemma ReleaseRespects(held: set<Lock>, locks: set<Lock>, rest: seq<Act>)
    requires held !! locks && Respects(held, rest)
    ensures Respects(held + locks, [Release(locks)] + rest)
  {
    assert ([Release(locks)] + rest)[1..] == rest;
    assert held + locks - locks == held;
  }

  lemma UnlockRespects(held: set<Lock>, i: nat, hasData: bool, rest: seq<Act>)
    requires OnlyViews(held) && Element(i) !in held && Respects(held, rest)
    ensures Respects(held + {Element(i)}, Unlock(i, hasData) + rest)
  {
    hide Less, Respects, Guard;
    var e := {Element(i)};
    var drop := [Release(e)] + rest;
    ReleaseRespects(held, e, rest);
    if hasData {
      ViewsBelow(held + e, {Indexer});
      GuardRespects(held + e, {Indexer}, drop);
      assert Unlock(i, hasData) + rest == Guard({Indexer}) + drop;
    } else {
      assert Unlock(i, hasData) + rest == drop;
    }
  }

  lemma VisitRespects(held: set<Lock>, i: nat, finding: Finding, tail: seq<Act>)
    requires OnlyViews(held) && AllBelow(held, i)
    requires Respects(held, tail) && Respects(held + {Element(i)}, tail)
    ensures Respects(held, Visit(i, finding) + tail)
  {
    hide Less, Respects, Guard, Unlock;
    var e := {Element(i)};
    ViewsBelow(held + e, {Indexer});
    assert AllLess(held, e);
    LessIsApart(held, e);
    match finding
    case Gone(refilled) =>
      UnlockRespects(held, i, refilled, tail);
      AcquireRespects(held, e, Unlock(i, refilled) + tail);
      assert Visit(i, finding) + tail == [Acquire(e)] + (Unlock(i, refilled) + tail);
    case Stale =>
      UnlockRespects(held, i, true, tail);
      GuardRespects(held + e, {Indexer}, Unlock(i, true) + tail);
      AcquireRespects(held, e, Guard({Indexer}) + (Unlock(i, true) + tail));
      assert Visit(i, finding) + tail == [Acquire(e)] + (Guard({Indexer}) + (Unlock(i, true) + tail));
    case Kept =>
      GuardRespects(held + e, {Indexer}, tail);
      AcquireRespects(held, e, Guard({Indexer}) + tail);
      assert Visit(i, finding) + tail == [Acquire(e)] + (Guard({Indexer}) + tail);
  }

  /** What follows the visits is respected from any views that they may leave. */
  lemma {:induction false} VisitsRespect(held: set<Lock>, found: seq<(nat, Finding)>)
    requires OnlyViews(held) && Ascending(found)
    requires forall k | 0 <= k < |found| :: AllBelow(held, found[k].0)
    ensures Respects(held, Visits(found))
    decreases |found|
  {
    hide Visit;
    if found != [] {
      VisitsRespect(held, found[1..]);
      VisitsRespect(held + {Element(found[0].0)}, found[1..]);
      VisitRespects(held, found[0].0, found[0].1, Visits(found[1..]));
    }
  }

  /** Entered as it may be, every operation takes its locks in ascending order. */
  lemma OperationsRespect(held: set<Lock>, op: Operation)
    requires OnlyViews(held) && MayEnter(true, held, op)
    ensures Respects(held, Acts(op))
  {
    match op
    case Insert(i) =>
      var last := [Acquire({Element(i)})];
      assert Respects(held, last) by {
        assert last[1..] == [];
      }
      ViewsBelow(held, {Indexer});
      ViewsBelow(held, {Data, Free});
      GuardRespects(held, {Indexer}, last);
      GuardRespects(held, {Data, Free}, Guard({Indexer}) + last);
      assert Acts(op) == Guard({Data, Free}) + (Guard({Indexer}) + last);
    case Count =>
      ViewsBelow(held, {Data, Free});
      GuardRespects(held, {Data, Free}, []);
      assert Acts(op) == Guard({Data, Free}) + [];
    case Get(found) =>
      ViewsBelow(held, {Indexer, Data});
      VisitsRespect(held, found);
      GuardRespects(held, {Indexer, Data}, Visits(found));
    case ReleaseView(i, hasData) => DropRespects(held, i, hasData);
    case Remove(i, refilled) =>
      DropRespects(held, i, refilled);
      ViewsBelow(held, {Indexer});
      ViewsBelow(held, {Free});
      GuardRespects(held, {Free}, Unlock(i, refilled));
      GuardRespects(held, {Indexer}, Guard({Free}) + Unlock(i, refilled));
      assert Acts(op) == Guard({Indexer}) + (Guard({Free}) + Unlock(i, refilled));
  }

  lemma DropRespects(held: set<Lock>, i: nat, hasData: bool)
    requires OnlyViews(held) && Element(i) in held
    ensures Respects(held, Unlock(i, hasData))
  {
    var others := held - {Element(i)};
    assert others + {Element(i)} == held;
    UnlockRespects(others, i, hasData, []);
    assert Unlock(i, hasData) + [] == Unlock(i, hasData);
  }

  // ---------------------------------------------------------------- what every step keeps

  /** Every thread respects the order, and no lock is held twice. */
  ghost predicate Inv(s: State) {
    && (forall t | 0 <= t < |s| :: Respects(s[t].held, s[t].todo))
    && (forall t, u | 0 <= t < u < |s| :: s[t].held !! s[u].held)
  }

  lemma BeginKeeps(s: State, s': State, t: nat, op: Operation)
    requires Inv(s) && Begins(true, s, s', t, op)
    ensures Inv(s')
  {
    OperationsRespect(s[t].held, op);
  }

  lemma StepKeeps(s: State, s': State, t: nat)
    requires Inv(s) && Does(s, s', t)
    ensures Inv(s')
  {
    forall u | 0 <= u < |s| && u != t
      ensures s[u].held !! s'[t].held
    {
      assert s[u].held !! s[t].held;
      assert forall l <- s[u].held :: HeldByOther(s, t, l);
    }
  }

  lemma InvKept(s: State, s': State)
    requires Inv(s) && Next(true, s, s')
    ensures Inv(s')
  {
    if t, op :| Begins(true, s, s', t, op) {
      BeginKeeps(s, s', t, op);
    } else {
      var t :| Does(s, s', t);
      StepKeeps(s, s', t);
    }
  }

  lemma {:induction false} InvHolds(run: seq<State>, k: nat)
    requires IsRun(true, run) && k < |run|
    ensures Inv(run[k])
    decreases k
  {
    if k > 0 {
      InvHolds(run, k - 1);
      assert Next(true, run[k - 1], run[k - 1 + 1]);
      InvKept(run[k - 1], run[k]);
    }
  }

  // ---------------------------------------------------------------- no circle

  /** A thread that waits has only locks below the one it waits for. */
  lemma WaiterIsBelow(s: State, t: nat, u: nat, l: Lock)
    requires Inv(s) && WaitsFor(s, t, u, l)
    ensures t != u && forall h <- s[t].held :: Less(h, l)
  {
    assert l in s[t].held ==> Less(l, l);
  }

  lemma {:induction false} HighestLock(locks: set<Lock>) returns (m: Lock)
    requires locks != {}
    ensures m in locks && forall l <- locks :: !Less(m, l)
    decreases |locks|
  {
    hide Less;
    var first :| first in locks;
    LessIsAnOrder(first, first, first);
    m := first;
    if locks != {first} {
      var second := HighestLock(locks - {first});
      if Less(first, second) {
        m := second;
      }
      LessIsAnOrder(first, second, first);
      forall l | l in locks
        ensures !Less(m, l)
      {
        LessIsAnOrder(second, first, l);
      }
    }
  }

  /** A lock that a thread of a circle waits for and another thread of the circle has. */
  ghost function Wanted(s: State, circle: set<nat>, t: nat): (l: Lock)
    requires Deadlocked(s, circle) && t in circle
    ensures exists u :: u in circle && WaitsFor(s, t, u, l)
  {
    var u, l :| u in circle && WaitsFor(s, t, u, l);
    l
  }

  ghost function AllWanted(s: State, circle: set<nat>): set<Lock>
    requires Deadlocked(s, circle)
  {
    set t | t in circle :: Wanted(s, circle, t)
  }

  /** Following the circle leads to a higher lock. */
  lemma NextInCircle(s: State, circle: set<nat>, t: nat) returns (u: nat)
    requires Inv(s) && Deadlocked(s, circle) && t in circle
    ensures u in circle && Less(Wanted(s, circle, t), Wanted(s, circle, u))
  {
    hide Less, Inv;
    var l := Wanted(s, circle, t);
    u :| u in circle && WaitsFor(s, t, u, l);
    var v :| v in circle && WaitsFor(s, u, v, Wanted(s, circle, u));
    WaiterIsBelow(s, u, v, Wanted(s, circle, u));
  }

  lemma WantedByOne(s: State, circle: set<nat>, m: Lock) returns (t: nat)
    requires Deadlocked(s, circle) && m in AllWanted(s, circle)
    ensures t in circle && Wanted(s, circle, t) == m
  {
    hide Deadlocked, Wanted, WaitsFor;
    t :| t in circle && Wanted(s, circle, t) == m;
  }

  lemma SomeWanted(s: State, circle: set<nat>)
    requires Deadlocked(s, circle)
    ensures AllWanted(s, circle) != {}
    ensures forall t <- circle :: Wanted(s, circle, t) in AllWanted(s, circle)
  {
    hide WaitsFor;
    var t :| t in circle;
    assert Wanted(s, circle, t) in AllWanted(s, circle);
  }

  lemma NoCircle(s: State, circle: set<nat>)
    requires Inv(s)
    ensures !Deadlocked(s, circle)
  {
    hide Less, Inv, Deadlocked, Wanted, WaitsFor, AllWanted;
    if Deadlocked(s, circle) {
      SomeWanted(s, circle);
      var m := HighestLock(AllWanted(s, circle));
      var t := WantedByOne(s, circle, m);
      var u := NextInCircle(s, circle, t);
      assert false;
    }
  }

  /** In no interleaving of threads that insert and query holding no view, or only views below the elements that they
      come to lock, is there ever a deadlock, and no lock is ever held by two threads. */
  lemma NoDeadlock(s: State)
    requires Reachable(true, s)
    ensures forall circle :: !Deadlocked(s, circle)
    ensures forall t, u | 0 <= t < u < |s| :: s[t].held !! s[u].held
  {
    var run :| IsRun(true, run) && run[|run| - 1] == s;
    InvHolds(run, |run| - 1);
    forall circle
      ensures !Deadlocked(s, circle)
    {
      NoCircle(s, circle);
    }
  }

  // ---------------------------------------------------------------- why callers must let go of their views

  lemma ReachNext(polite: bool, s: State, s': State)
    requires Reachable(polite, s) && Next(polite, s, s')
    ensures Reachable(polite, s')
  {
    var run :| IsRun(polite, run) && run[|run| - 1] == s;
    var more := run + [s'];
    forall k | 0 <= k < |more| - 1
      ensures Next(polite, more[k], more[k + 1])
    {
      if k < |run| - 1 {
        assert Next(polite, run[k], run[k + 1]);
      }
    }
    assert IsRun(polite, more) && more[|more| - 1] == s';
  }

  function After(held: set<Lock>, acts: seq<Act>): set<Lock>
    decreases |acts|
  {
    if acts == [] then held
    else After(if acts[0].Acquire? then held + acts[0].locks else held - acts[0].locks, acts[1..])
  }

  /** No act of these has to wait for a lock of `others`, or for one taken before. */
  predicate Unhindered(held: set<Lock>, others: set<Lock>, acts: seq<Act>)
    decreases |acts|
  {
    acts == [] ||
    match acts[0]
    case Acquire(locks) => locks !! held && locks !! others && Unhindered(held + locks, others, acts[1..])
    case Release(locks) => Unhindered(held - locks, others, acts[1..])
  }

  /** A thread of two that is not hindered can run on while the other does nothing. */
  lemma {:induction false} RunsOn(polite: bool, s: State, t: nat, acts: seq<Act>, rest: seq<Act>)
    requires Reachable(polite, s) && |s| == 2 && t < 2 && s[t].todo == acts + rest
    requires Unhindered(s[t].held, s[1 - t].held, acts)
    ensures Reachable(polite, s[t := Thread(After(s[t].held, acts), rest)])
    decreases |acts|
  {
    hide Reachable;
    if acts == [] {
      assert acts + rest == rest;
      assert s[t := s[t]] == s;
    } else {
      var a := acts[0];
      assert (acts + rest)[1..] == acts[1..] + rest;
      var held := if a.Acquire? then s[t].held + a.locks else s[t].held - a.locks;
      var s' := s[t := Thread(held, acts[1..] + rest)];
      assert forall l <- a.locks | HeldByOther(s, t, l) :: l in s[1 - t].held;
      assert Does(s, s', t);
      ReachNext(polite, s, s');
      RunsOn(polite, s', t, acts[1..], rest);
      assert s'[t := Thread(After(held, acts[1..]), rest)] == s[t := Thread(After(held, acts[1..]), rest)];
    }
  }

  lemma Calls(polite: bool, s: State, t: nat, op: Operation, acts: seq<Act>, rest: seq<Act>)
    requires Reachable(polite, s) && |s| == 2 && t < 2 && s[t].todo == [] && MayEnter(polite, s[t].held, op)
    requires Acts(op) == acts + rest && Unhindered(s[t].held, s[1 - t].held, acts)
    ensures Reachable(polite, s[t := Thread(After(s[t].held, acts), rest)])
  {
    hide Reachable, Acts, After, Unhindered;
    var s' := s[t := Thread(s[t].held, Acts(op))];
    assert Begins(polite, s, s', t, op);
    ReachNext(polite, s, s');
    RunsOn(polite, s', t, acts, rest);
    assert s'[t := Thread(After(s[t].held, acts), rest)] == s[t := Thread(After(s[t].held, acts), rest)];
  }

  lemma AfterGuard(held: set<Lock>, others: set<Lock>, locks: set<Lock>, rest: seq<Act>)
    requires held !! locks && others !! locks
    ensures After(held, Guard(locks) + rest) == After(held, rest)
    ensures Unhindered(held, others, Guard(locks) + rest) == Unhindered(held, others, rest)
  {
    var acts := Guard(locks) + rest;
    assert acts[1..][1..] == rest;
    assert held + locks - locks == held;
  }

  lemma InsertRuns(others: set<Lock>, i: nat)
    requires OnlyViews(others) && Element(i) !in others
    ensures Unhindered({}, others, Acts(Insert(i))) && After({}, Acts(Insert(i))) == {Element(i)}
  {
    var last := [Acquire({Element(i)})];
    assert last[1..] == [];
    AfterGuard({}, others, {Indexer}, last);
    AfterGuard({}, others, {Data, Free}, Guard({Indexer}) + last);
    assert Acts(Insert(i)) == Guard({Data, Free}) + (Guard({Indexer}) + last);
  }

  lemma GetStarts(held: set<Lock>, others: set<Lock>)
    requires OnlyViews(held) && OnlyViews(others)
    ensures Unhindered(held, others, Guard({Indexer, Data})) && After(held, Guard({Indexer, Data})) == held
  {
    AfterGuard(held, others, {Indexer, Data}, []);
    assert Guard({Indexer, Data}) + [] == Guard({Indexer, Data});
  }

  /** Two threads that keep the views on what they inserted, and then query each other's elements, can end up
      waiting for each other for ever. */
  lemma ViewHoldersDeadlock() returns (s: State)
    ensures Reachable(false, s) && Deadlocked(s, {0, 1})
  {
    hide Reachable, Unhindered, After;
    s := [Thread({}, []), Thread({}, [])];
    assert Reachable(false, s) by {
      StartIsReachable(false, s);
    }
    var (e0, e1) := (Element(0), Element(1));
    InsertRuns({}, 1);
    assert Acts(Insert(1)) + [] == Acts(Insert(1));
    Calls(false, s, 0, Insert(1), Acts(Insert(1)), []);
    s := s[0 := Thread({e1}, [])];
    InsertRuns({e1}, 0);
    assert Acts(Insert(0)) + [] == Acts(Insert(0));
    Calls(false, s, 1, Insert(0), Acts(Insert(0)), []);
    s := s[1 := Thread({e0}, [])];
    var (f0, f1) := ([(0, Kept)], [(1, Kept)]);
    GetStarts({e1}, {e0});
    Calls(false, s, 0, Get(f0), Guard({Indexer, Data}), Visits(f0));
    s := s[0 := Thread({e1}, Visits(f0))];
    GetStarts({e0}, {e1});
    Calls(false, s, 1, Get(f1), Guard({Indexer, Data}), Visits(f1));
    s := s[1 := Thread({e0}, Visits(f1))];
    assert Visits(f0)[0] == Acquire({e0}) && Visits(f1)[0] == Acquire({e1});
    assert WaitsFor(s, 0, 1, e0) && WaitsFor(s, 1, 0, e1);
  }

  lemma StartIsReachable(polite: bool, s: State)
    requires Init(s)
    ensures Reachable(polite, s)
  {
    assert IsRun(polite, [s]) && [s][|[s]| - 1] == s;
  }
}

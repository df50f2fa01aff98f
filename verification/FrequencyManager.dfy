/** When a vehicle sends a CAM (src/cam/VehicleFrequencyManager.cpp), polled by the dissemination loop
    (src/cam/CABasicService.cpp:77-98); the rules are those of section 6.1.3 of ETSI EN 302 637-2. */
module FrequencyManager {

  const T_GEN_CAM_MIN := 100
  const T_GEN_CAM_MAX := 1000
  const T_GEN_CAM_LFC := 500
  const N_GEN_CAM_MAX := 3

  const TWO_64 := 0x1_0000_0000_0000_0000

  /** A clock reading in milliseconds, an unsigned long long. */
  type Clock = x: int | 0 <= x < TWO_64

  type Int = x: int | -0x8000_0000 <= x < 0x8000_0000

  /** Unsigned 64-bit subtraction. */
  function Since(now: Clock, then': Clock): Clock {
    (now - then') % TWO_64
  }

  /** Conversion of an unsigned long long, or of an overflowing sum, to an int. */
  function Narrow(v: int): Int {
    (v + 0x8000_0000) % 0x1_0000_0000 - 0x8000_0000
  }

  /** Conversion of an int to an unsigned long long. */
  function Widen(v: Int): Clock {
    if v < 0 then v + TWO_64 else v
  }

  /** The condition that triggers a CAM: changed dynamics, or the period gone by. */
  datatype Trigger = NoCam | Condition1 | Condition2

  /** The fields of the manager that do not concern positions and speeds. */
  datatype Timing = Timing(tGenCAM: Int, nGenCAM: Int, lastTimestamp: Clock, lastLFCTimestamp: Clock)

  const START := Timing(T_GEN_CAM_MAX, 0, 0, 0)

  function Triggered(s: Timing, now: Clock, changed: bool): Trigger {
    var timeDif := Since(now, s.lastTimestamp);
    if timeDif < T_GEN_CAM_MIN then NoCam
    else if changed then Condition1
    else if timeDif >= Widen(s.tGenCAM) then Condition2
    else NoCam
  }

  function AfterTrigger(s: Timing, now: Clock, changed: bool): Timing {
    match Triggered(s, now, changed)
    case NoCam => s
    case Condition1 => s.(nGenCAM := 1, tGenCAM := Narrow(Since(now, s.lastTimestamp)))
    case Condition2 =>
      var n := Narrow(s.nGenCAM + 1);
      s.(nGenCAM := n, tGenCAM := if n >= N_GEN_CAM_MAX then T_GEN_CAM_MAX else s.tGenCAM)
  }

  function LfcDue(s: Timing, now: Clock): bool {
    Since(now, s.lastLFCTimestamp) >= T_GEN_CAM_LFC
  }

  function AfterNotify(s: Timing, now: Clock, lfc: bool): Timing {
    s.(lastTimestamp := now, lastLFCTimestamp := if lfc then now else s.lastLFCTimestamp)
  }

  // ---------------------------------------------------------------- the dynamics

  /** Heading in tenths of a degree, speed in hundredths of a metre per second, and the position, as a CAM has them. */
  datatype Dynamics = Dynamics(heading: int, speed: int, latitude: int, longitude: int)

  function Absolute(x: real): (r: real)
    ensures r >= 0.0
  {
    if x < 0.0 then -x else x
  }

  /** The dynamics of a CAM and those of the last one: four degrees, half a metre per second, or four metres apart. */
  predicate Changed(last: Dynamics, cam: Dynamics, distance: real) {
    || Absolute(last.heading as real / 10.0 - cam.heading as real / 10.0) >= 4.0
    || Absolute(last.speed as real / 100.0 - cam.speed as real / 100.0) >= 0.5
    || distance >= 4.0
  }

  /** How far two headings are apart on the circle, in tenths of a degree. */
  function Turned(a: int, b: int): int {
    var d := if a < b then b - a else a - b;
    if d <= 1800 then d else 3600 - d
  }

  /** Headings are compared as numbers, not on the circle: with nothing else changed, condition 1 sees a change that is
      less than four degrees exactly if north lies between the two headings. */
  lemma ChangedExactly(last: Dynamics, cam: Dynamics, distance: real)
    requires 0 <= last.heading < 3600 && 0 <= cam.heading < 3600
    requires -50 < last.speed - cam.speed < 50 && distance < 4.0
    ensures Changed(last, cam, distance) <==> -40 >= last.heading - cam.heading || last.heading - cam.heading >= 40
    ensures Turned(last.heading, cam.heading) >= 40 ==> Changed(last, cam, distance)
    ensures Changed(last, cam, distance) && Turned(last.heading, cam.heading) < 40
            <==> last.heading - cam.heading > 3560 || cam.heading - last.heading > 3560
  {
    Scaled(last.heading, cam.heading, 10, 40);
    Scaled(last.speed, cam.speed, 100, 50);
  }

  /** From the speed alone, with the same heading and nearly the same place: half a metre per second counts. */
  lemma SpeedCounts(last: Dynamics, cam: Dynamics, distance: real)
    requires last.heading == cam.heading && distance < 4.0
    ensures Changed(last, cam, distance) <==> last.speed - cam.speed >= 50 || cam.speed - last.speed >= 50
  {
    Scaled(last.speed, cam.speed, 100, 50);
  }

  lemma Scaled(a: int, b: int, unit: int, n: int)
    requires unit > 0 && n > 0
    ensures Absolute(a as real / unit as real - b as real / unit as real) >= n as real / unit as real
            <==> a - b >= n || b - a >= n
  {
    var (u, d) := (unit as real, (a - b) as real);
    assert a as real / u - b as real / u == d / u;
    Quotients(d, n as real, u);
    Quotients(-d, n as real, u);
  }

  lemma Quotients(x: real, y: real, u: real)
    requires u > 0.0
    ensures x / u >= y / u <==> x >= y
    ensures -(x / u) == -x / u
    ensures x >= 0.0 <==> x / u >= 0.0
  {
    assert x / u * u == x && y / u * u == y;
  }

  // ---------------------------------------------------------------- the manager

  class VehicleFrequencyManager {
    var tGenCAM: Int
    var nGenCAM: Int
    var lastTimestamp: Clock
    var lastLFCTimestamp: Clock
    var lastHeading: int
    var lastSpeed: int
    var lastLatitude: int
    var lastLongitude: int

    function LastDynamics(): Dynamics
      reads this
    {
      Dynamics(lastHeading, lastSpeed, lastLatitude, lastLongitude)
    }

    function Abs(): Timing
      reads this
    {
      Timing(tGenCAM, nGenCAM, lastTimestamp, lastLFCTimestamp)
    }

    constructor ()
      ensures Abs() == START && LastDynamics() == Dynamics(0, 0, 0, 0)
    {
      tGenCAM, nGenCAM, lastTimestamp, lastLFCTimestamp := T_GEN_CAM_MAX, 0, 0, 0;
      lastHeading, lastSpeed, lastLatitude, lastLongitude := 0, 0, 0, 0;
    }

    /** generateCAM; `distance` is how far the position of the CAM is from the last one. */
    method GenerateCAM(now: Clock, cam: Dynamics, distance: real) returns (generate: bool, ghost why: Trigger)
      modifies this`tGenCAM, this`nGenCAM
      ensures var changed := Changed(old(LastDynamics()), cam, distance);
              && why == Triggered(old(Abs()), now, changed) && generate == !why.NoCam?
              && Abs() == AfterTrigger(old(Abs()), now, changed)
    {
      var timeDif := Since(now, lastTimestamp);
      if timeDif >= T_GEN_CAM_MIN {
        var speedDif := Absolute(lastSpeed as real / 100.0 - cam.speed as real / 100.0);
        var headingDif := Absolute(lastHeading as real / 10.0 - cam.heading as real / 10.0);
        if headingDif >= 4.0 || speedDif >= 0.5 || distance >= 4.0 {
          nGenCAM := 1;
          tGenCAM := Narrow(timeDif);
          return true, Condition1;
        } else if timeDif >= Widen(tGenCAM) {
          nGenCAM := Narrow(nGenCAM + 1);
          if nGenCAM >= N_GEN_CAM_MAX {
            tGenCAM := T_GEN_CAM_MAX;
          }
          return true, Condition2;
        }
      }
      return false, NoCam;
    }

    method IncludeLFC(now: Clock) returns (due: bool)
      ensures due == LfcDue(Abs(), now)
    {
      due := Since(now, lastLFCTimestamp) >= T_GEN_CAM_LFC;
    }

    method NotifyCAMGeneration(now: Clock, lfc: bool, cam: Dynamics)
      modifies this`lastTimestamp, this`lastLFCTimestamp
      modifies this`lastHeading, this`lastSpeed, this`lastLatitude, this`lastLongitude
      ensures Abs() == AfterNotify(old(Abs()), now, lfc) && LastDynamics() == cam
    {
      lastTimestamp := now;
      lastHeading, lastSpeed, lastLatitude, lastLongitude := cam.heading, cam.speed, cam.latitude, cam.longitude;
      if lfc {
        lastLFCTimestamp := lastTimestamp;
      }
    }

    /** One turn of disseminationTask, which reads the clock anew for each call. That the dynamics have changed means
        since the last CAM that was sent. */
    method Turn(p: Poll, cam: Dynamics, distance: real) returns (send: bool, lfc: bool, ghost sent: seq<Sent>)
      requires p.changed == Changed(LastDynamics(), cam, distance)
      modifies this
      ensures LastDynamics() == if send then cam else old(LastDynamics())
      ensures Abs() == AfterPoll(old(Abs()), p) && sent == PollSends(old(Abs()), p)
      ensures send == (sent != []) && (send ==> lfc == sent[0].lfc)
    {
      ghost var s := Abs();
      lfc := false;
      ghost var why;
      send, why := GenerateCAM(p.asked, cam, distance);
      if send {
        var due := IncludeLFC(p.lfcAsked);
        lfc := p.hasLFC && due;
        NotifyCAMGeneration(p.notified, lfc, cam);
      }
      sent := PollSends(s, p);
    }
  }

  // ---------------------------------------------------------------- runs of the loop

  /** A turn of the loop: its three clock readings, whether the dynamics have changed, and whether the CAM of this
      station has a low frequency container at all. */
  datatype Poll = Poll(asked: Clock, lfcAsked: Clock, notified: Clock, changed: bool, hasLFC: bool)

  /** A CAM: when it was asked for and notified, whether it carries the container, and why it was triggered: the
      condition, the time since the last CAM, and T_GenCAM and N_GenCAM as they were. */
  datatype Sent = Sent(asked: Clock, at: Clock, lfc: bool, why: Trigger, gap: Clock, period: Int, count: Int)

  function PollSends(s: Timing, p: Poll): seq<Sent> {
    var why := Triggered(s, p.asked, p.changed);
    if why.NoCam? then []
    else [Sent(p.asked, p.notified, p.hasLFC && LfcDue(s, p.lfcAsked), why, Since(p.asked, s.lastTimestamp),
               s.tGenCAM, s.nGenCAM)]
  }

  function AfterPoll(s: Timing, p: Poll): Timing {
    var sent := PollSends(s, p);
    if sent == [] then s else AfterNotify(AfterTrigger(s, p.asked, p.changed), p.notified, sent[0].lfc)
  }

  function Final(s: Timing, polls: seq<Poll>): Timing {
    if polls == [] then s else AfterPoll(Final(s, polls[..|polls| - 1]), polls[|polls| - 1])
  }

  function Log(s: Timing, polls: seq<Poll>): seq<Sent> {
    if polls == [] then []
    else Log(s, polls[..|polls| - 1]) + PollSends(Final(s, polls[..|polls| - 1]), polls[|polls| - 1])
  }

  /** The clock does not go back. */
  predicate Monotone(s: Timing, polls: seq<Poll>) {
    && s.lastLFCTimestamp <= s.lastTimestamp
    && (polls != [] ==> s.lastTimestamp <= polls[0].asked)
    && (forall p <- polls :: p.asked <= p.lfcAsked <= p.notified)
    && (forall k | 0 <= k < |polls| - 1 :: polls[k].notified <= polls[k + 1].asked)
  }

  // ---------------------------------------------------------------- what the log says of the next CAM

  function NextPeriod(e: Sent): Int {
    if e.why.Condition1? then Narrow(e.gap)
    else if Narrow(e.count + 1) >= N_GEN_CAM_MAX then T_GEN_CAM_MAX
    else e.period
  }

  function NextCount(e: Sent): Int {
    if e.why.Condition1? then 1 else Narrow(e.count + 1)
  }

  /** The CAM after e: its period and count are what e left, it comes at least T_GenCAM_Min later, and without
      changed dynamics at least a period later. */
  predicate Chained(e: Sent, next: Sent) {
    && next.period == NextPeriod(e) && next.count == NextCount(e)
    && next.asked >= e.at && next.gap == next.asked - e.at
    && next.gap >= T_GEN_CAM_MIN
    && (next.why.Condition2? ==> next.gap >= Widen(next.period))
  }

  /** The state f agrees with the last CAM of the log, whose CAMs are chained; `latest` is the last clock reading. */
  predicate AgreesWith(s: Timing, f: Timing, log: seq<Sent>, latest: Clock) {
    && (if log == [] then f == s
        else f.tGenCAM == NextPeriod(log[|log| - 1]) && f.nGenCAM == NextCount(log[|log| - 1])
             && f.lastTimestamp == log[|log| - 1].at)
    && f.lastLFCTimestamp <= f.lastTimestamp <= latest
    && (forall k | 0 <= k < |log| - 1 :: Chained(log[k], log[k + 1]))
    && (forall e <- log :: !e.why.NoCam?)
  }

  function Latest(s: Timing, polls: seq<Poll>): Clock {
    if polls == [] then s.lastTimestamp else polls[|polls| - 1].notified
  }

  predicate Agrees(s: Timing, polls: seq<Poll>) {
    AgreesWith(s, Final(s, polls), Log(s, polls), Latest(s, polls))
  }

  lemma MonotonePrefix(s: Timing, polls: seq<Poll>)
    requires Monotone(s, polls) && polls != []
    ensures Monotone(s, polls[..|polls| - 1])
    ensures var (p, n) := (polls[|polls| - 1], |polls| - 1);
            && p.asked <= p.lfcAsked <= p.notified
            && (if n == 0 then s.lastTimestamp else polls[n - 1].notified) <= p.asked
  {
    var n := |polls| - 1;
    assert polls[n] in polls;
    assert forall p <- polls[..n] :: p in polls;
    if n > 0 {
      assert polls[n - 1].notified <= polls[n - 1 + 1].asked;
    }
  }

  /** One poll with a clock that has not gone back. A CAM is by condition 1 if and only if the dynamics have changed and
      T_GenCAM_Min has gone by, and by condition 2 if and only if they have not, and T_GenCAM, as it is compared, and
      T_GenCAM_Min have gone by. It carries the container, if there is one, if and only if T_GenCAM_LFC has gone by. */
  lemma PollEffect(f: Timing, p: Poll)
    requires f.lastLFCTimestamp <= f.lastTimestamp <= p.asked <= p.lfcAsked <= p.notified
    ensures var (sent, g, dif) := (PollSends(f, p), AfterPoll(f, p), p.asked - f.lastTimestamp);
            && (sent != [] <==> dif >= T_GEN_CAM_MIN && (p.changed || dif >= Widen(f.tGenCAM)))
            && if sent == [] then g == f
            else
              var e := sent[0];
              && sent == [e] && e.why == (if p.changed then Condition1 else Condition2)
              && e.asked == p.asked && e.at == p.notified
              && e.period == f.tGenCAM && e.count == f.nGenCAM && e.gap == dif
              && (e.lfc <==> p.hasLFC && p.lfcAsked - f.lastLFCTimestamp >= T_GEN_CAM_LFC)
              && g == Timing(NextPeriod(e), NextCount(e), p.notified, if e.lfc then p.notified else f.lastLFCTimestamp)
  {
    hide Narrow, Widen;
    SinceIs(p.asked, f.lastTimestamp);
    SinceIs(p.lfcAsked, f.lastLFCTimestamp);
  }

  lemma SinceIs(now: Clock, then': Clock)
    requires then' <= now
    ensures Since(now, then') == now - then'
  {
  }

  lemma LastPoll(s: Timing, polls: seq<Poll>)
    requires polls != []
    ensures var (init, p) := (polls[..|polls| - 1], polls[|polls| - 1]);
            && Log(s, polls) == Log(s, init) + PollSends(Final(s, init), p)
            && Final(s, polls) == AfterPoll(Final(s, init), p)
  {
  }

  lemma ChainGrows(log: seq<Sent>, e: Sent)
    requires forall k | 0 <= k < |log| - 1 :: Chained(log[k], log[k + 1])
    requires log != [] ==> Chained(log[|log| - 1], e)
    ensures forall k | 0 <= k < |log + [e]| - 1 :: Chained((log + [e])[k], (log + [e])[k + 1])
  {
    hide Chained;
    var more := log + [e];
    forall k | 0 <= k < |more| - 1
      ensures Chained(more[k], more[k + 1])
    {
      if k < |log| - 1 {
        assert Chained(log[k], log[k + 1]);
      }
    }
  }

  /** One poll keeps the agreement. */
  lemma PollAgrees(s: Timing, f: Timing, log: seq<Sent>, latest: Clock, p: Poll)
    requires AgreesWith(s, f, log, latest) && latest <= p.asked <= p.lfcAsked <= p.notified
    ensures AgreesWith(s, AfterPoll(f, p), log + PollSends(f, p), p.notified)
  {
    hide NextPeriod, NextCount, Widen, PollSends, AfterPoll;
    PollEffect(f, p);
    if PollSends(f, p) != [] {
      var e := PollSends(f, p)[0];
      ChainGrows(log, e);
      assert (log + [e])[|log|] == e;
    } else {
      assert log + [] == log;
    }
  }

  lemma {:induction false} AgreesAlways(s: Timing, polls: seq<Poll>)
    requires Monotone(s, polls)
    ensures Agrees(s, polls)
    decreases |polls|
  {
    hide AgreesWith, PollSends, AfterPoll, Final, Log, Monotone;
    if polls == [] {
      NothingYet(s, polls);
    } else {
      var n := |polls| - 1;
      MonotonePrefix(s, polls);
      AgreesAlways(s, polls[..n]);
      LastPoll(s, polls);
      PollAgrees(s, Final(s, polls[..n]), Log(s, polls[..n]), Latest(s, polls[..n]), polls[n]);
    }
  }

  lemma NothingYet(s: Timing, polls: seq<Poll>)
    requires Monotone(s, polls) && polls == []
    ensures Agrees(s, polls)
  {
  }

  /** In every run with a monotone clock, consecutive CAMs are at least T_GenCAM_Min apart. */
  lemma CamsAreApart(s: Timing, polls: seq<Poll>, k: nat)
    requires Monotone(s, polls) && k + 1 < |Log(s, polls)|
    ensures var log := Log(s, polls); log[k + 1].asked >= log[k].at + T_GEN_CAM_MIN
  {
    AgreesAlways(s, polls);
    assert Chained(Log(s, polls)[k], Log(s, polls)[k + 1]);
  }

  /** No container before `last` is less than T_GenCAM_LFC older than the next one. */
  ghost predicate LfcApart(log: seq<Sent>, last: Clock) {
    && (forall i, j | 0 <= i < j < |log| && log[i].lfc && log[j].lfc :: log[j].at >= log[i].at + T_GEN_CAM_LFC)
    && (forall i | 0 <= i < |log| && log[i].lfc :: log[i].at <= last)
  }

  lemma LfcApartGrows(log: seq<Sent>, last: Clock, e: Sent)
    requires LfcApart(log, last) && (e.lfc ==> e.at >= last + T_GEN_CAM_LFC)
    ensures LfcApart(log + [e], if e.lfc then e.at else last)
  {
  }

  /** CAMs that carry the low frequency container are at least T_GenCAM_LFC apart. */
  lemma {:induction false} LfcsAreApart(s: Timing, polls: seq<Poll>)
    requires Monotone(s, polls)
    ensures LfcApart(Log(s, polls), Final(s, polls).lastLFCTimestamp)
    decreases |polls|
  {
    hide NextPeriod, NextCount, Widen, PollSends, AfterPoll, Final, Log, Monotone, LfcApart;
    if polls == [] {
      NoLfcYet(s, polls);
    } else {
      var n := |polls| - 1;
      MonotonePrefix(s, polls);
      AgreesAlways(s, polls[..n]);
      LfcsAreApart(s, polls[..n]);
      LastPoll(s, polls);
      var (f, log) := (Final(s, polls[..n]), Log(s, polls[..n]));
      PollEffect(f, polls[n]);
      if PollSends(f, polls[n]) != [] {
        LfcApartGrows(log, f.lastLFCTimestamp, PollSends(f, polls[n])[0]);
      } else {
        assert log + [] == log;
      }
    }
  }

  lemma NoLfcYet(s: Timing, polls: seq<Poll>)
    requires polls == []
    ensures LfcApart(Log(s, polls), Final(s, polls).lastLFCTimestamp)
  {
  }

  /** Once three CAMs have come by condition 2 alone, T_GenCAM is T_GenCAM_Max. */
  lemma {:induction false} ThreeMeansMax(s: Timing, polls: seq<Poll>)
    requires s.nGenCAM >= N_GEN_CAM_MAX ==> s.tGenCAM == T_GEN_CAM_MAX
    ensures var f := Final(s, polls); f.nGenCAM >= N_GEN_CAM_MAX ==> f.tGenCAM == T_GEN_CAM_MAX
    decreases |polls|
  {
    if polls != [] {
      ThreeMeansMax(s, polls[..|polls| - 1]);
    }
  }

  /** A CAM by condition 1 shortens T_GenCAM to the time since the CAM before it, for exactly two CAMs by condition
      2; the third one waits for T_GenCAM_Max again, unless condition 1 comes in between. */
  lemma TwoShortPeriods(s: Timing, polls: seq<Poll>, k: nat)
    requires Monotone(s, polls) && k < |Log(s, polls)| && Log(s, polls)[k].why.Condition1?
    ensures var log := Log(s, polls);
            var short := Narrow(log[k].gap);
            && (k + 1 < |log| ==> log[k + 1].period == short)
            && (k + 2 < |log| && log[k + 1].why.Condition2? ==> log[k + 2].period == short)
            && (k + 3 < |log| && log[k + 1].why.Condition2? && log[k + 2].why.Condition2?
                ==> log[k + 3].period == T_GEN_CAM_MAX)
            && (forall j | k < j < |log| && log[j].why.Condition2? :: log[j].gap >= Widen(log[j].period))
  {
    hide Widen;
    AgreesAlways(s, polls);
    var log := Log(s, polls);
    forall j | k < j < |log|
      ensures Chained(log[j - 1], log[j])
    {
      assert Chained(log[j - 1], log[j - 1 + 1]);
    }
    assert k + 1 < |log| ==> Chained(log[k], log[k + 1]);
    assert k + 2 < |log| ==> Chained(log[k + 1], log[k + 2]);
    assert k + 3 < |log| ==> Chained(log[k + 2], log[k + 3]);
  }

  // ---------------------------------------------------------------- after changed dynamics, with none since

  lemma {:induction false} RunJoins(s: Timing, a: seq<Poll>, b: seq<Poll>)
    ensures Log(s, a + b) == Log(s, a) + Log(Final(s, a), b)
    ensures Final(s, a + b) == Final(Final(s, a), b)
    decreases |b|
  {
    hide PollSends, AfterPoll;
    if b == [] {
      assert a + b == a;
    } else {
      var n := |b| - 1;
      RunJoins(s, a, b[..n]);
      assert (a + b)[..|a + b| - 1] == a + b[..n];
      LastPoll(s, a + b);
      LastPoll(Final(s, a), b);
    }
  }

  lemma {:induction false} MonotoneRest(s: Timing, a: seq<Poll>, b: seq<Poll>)
    requires Monotone(s, a + b)
    ensures Monotone(s, a) && Monotone(Final(s, a), b)
    decreases |b|
  {
    hide Final, Log;
    if b == [] {
      assert a + b == a;
      AgreesAlways(s, a);
    } else {
      var n := |b| - 1;
      assert (a + b)[..|a + b| - 1] == a + b[..n];
      MonotonePrefix(s, a + b);
      MonotoneRest(s, a, b[..n]);
      AgreesAlways(s, a);
      MonotoneJoins(s, a, b);
    }
  }

  lemma MonotoneJoins(s: Timing, a: seq<Poll>, b: seq<Poll>)
    requires Monotone(s, a + b) && b != [] && Agrees(s, a)
    ensures Monotone(Final(s, a), b)
  {
    hide Final, Log;
    var t := a + b;
    assert forall k | 0 <= k < |b| :: b[k] == t[|a| + k] && t[|a| + k] in t;
    assert a != [] ==> t[|a| - 1] == a[|a| - 1];
    forall k | 0 <= k < |b| - 1
      ensures b[k].notified <= b[k + 1].asked
    {
      assert t[|a| + k].notified <= t[|a| + k + 1].asked;
    }
    if a != [] {
      assert t[|a| - 1].notified <= t[|a| - 1 + 1].asked;
    }
  }

  predicate Quiet(polls: seq<Poll>) {
    forall p <- polls :: !p.changed
  }

  /** What the j-th CAM after one by condition 1 finds as its period, as long as the dynamics do not change. */
  function QuietPeriod(short: Int, j: nat): Int {
    if j < 2 then short else T_GEN_CAM_MAX
  }

  /** The state after m CAMs since then. */
  predicate QuietState(f: Timing, short: Int, m: nat) {
    f.tGenCAM == QuietPeriod(short, m) && (m < 2 ==> f.nGenCAM == 1 + m)
  }

  lemma QuietPoll(f: Timing, p: Poll, short: Int, m: nat)
    requires QuietState(f, short, m) && !p.changed
    requires f.lastLFCTimestamp <= f.lastTimestamp <= p.asked <= p.lfcAsked <= p.notified
    ensures PollSends(f, p) != [] <==> p.asked - f.lastTimestamp >= DueAfter(QuietPeriod(short, m))
    ensures QuietState(AfterPoll(f, p), short, m + |PollSends(f, p)|)
    ensures forall e <- PollSends(f, p) :: e.why.Condition2? && e.period == QuietPeriod(short, m)
  {
    hide Widen, PollSends, AfterPoll;
    PollEffect(f, p);
    SmallCounts();
  }

  lemma SmallCounts()
    ensures Narrow(2) == 2 && Narrow(3) == 3
  {
  }

  /** From a CAM by condition 1 on, without changed dynamics: two CAMs at the shortened period, and T_GenCAM_Max for all
      CAMs after them. */
  lemma {:induction false} QuietRun(f: Timing, polls: seq<Poll>, short: Int)
    requires QuietState(f, short, 0) && Monotone(f, polls) && Quiet(polls)
    ensures QuietState(Final(f, polls), short, |Log(f, polls)|)
    ensures forall j | 0 <= j < |Log(f, polls)| ::
              Log(f, polls)[j].why.Condition2? && Log(f, polls)[j].period == QuietPeriod(short, j)
    decreases |polls|
  {
    hide PollSends, AfterPoll, Final, Log, QuietState, Monotone, QuietPeriod;
    if polls == [] {
      NothingSent(f);
    } else {
      var n := |polls| - 1;
      var init := polls[..n];
      assert forall p <- init :: p in polls;
      MonotonePrefix(f, polls);
      QuietRun(f, init, short);
      AgreesAlways(f, init);
      LastPoll(f, polls);
      assert polls[n] in polls;
      QuietPoll(Final(f, init), polls[n], short, |Log(f, init)|);
      AtMostOneCam(Final(f, init), polls[n]);
    }
  }

  lemma NothingSent(f: Timing)
    ensures Log(f, []) == [] && Final(f, []) == f
  {
  }

  lemma AtMostOneCam(f: Timing, p: Poll)
    ensures |PollSends(f, p)| <= 1
  {
  }

  /** In every run: after a CAM by condition 1 at a gap g, if no later poll has changed dynamics, the next two CAMs are
      by condition 2 at the period that g is narrowed to, and every later one is at T_GenCAM_Max. */
  lemma ShortThenMax(s: Timing, before: seq<Poll>, p: Poll, after: seq<Poll>)
    requires Monotone(s, before + [p] + after) && p.changed && Quiet(after)
    requires p.asked - Final(s, before).lastTimestamp >= T_GEN_CAM_MIN
    ensures var (log, k) := (Log(s, before + [p] + after), |Log(s, before)|);
            && k < |log| && log[k].why.Condition1?
            && log[k].gap == p.asked - Final(s, before).lastTimestamp
            && forall j | k < j < |log| ::
                 log[j].why.Condition2? && log[j].period == if j <= k + 2 then Narrow(log[k].gap) else T_GEN_CAM_MAX
  {
    hide PollSends, AfterPoll, Final, Log, Monotone, Narrow;
    FirstOfQuiet(s, before, p, after);
    var (f, g) := (Final(s, before), Final(s, before + [p]));
    var (e, log) := (PollSends(f, p)[0], Log(g, after));
    QuietRun(g, after, Narrow(e.gap));
    RunJoins(s, before + [p], after);
    var k := |Log(s, before)|;
    forall j | k < j < |Log(s, before + [p] + after)|
      ensures Log(s, before + [p] + after)[j] == log[j - k - 1]
    {
    }
  }

  lemma FirstOfQuiet(s: Timing, before: seq<Poll>, p: Poll, after: seq<Poll>)
    requires Monotone(s, before + [p] + after) && p.changed
    requires p.asked - Final(s, before).lastTimestamp >= T_GEN_CAM_MIN
    ensures var (f, g) := (Final(s, before), Final(s, before + [p]));
            && |PollSends(f, p)| == 1 && Log(s, before + [p]) == Log(s, before) + PollSends(f, p)
            && PollSends(f, p)[0].why.Condition1? && PollSends(f, p)[0].gap == p.asked - f.lastTimestamp
            && QuietState(g, Narrow(PollSends(f, p)[0].gap), 0) && Monotone(g, after)
  {
    hide PollSends, AfterPoll, Final, Log, Narrow;
    MonotoneRest(s, before + [p], after);
    MonotoneRest(s, before, [p]);
    assert p in [p];
    var all := before + [p];
    assert all[..|all| - 1] == before && all[|all| - 1] == p;
    LastPoll(s, all);
    PollEffect(Final(s, before), p);
  }

  /** And each of those CAMs is sent by the first poll at which it is due. */
  lemma QuietSends(s: Timing, before: seq<Poll>, p: Poll, after: seq<Poll>, next: Poll)
    requires Monotone(s, before + [p] + after + [next]) && p.changed && Quiet(after) && !next.changed
    requires p.asked - Final(s, before).lastTimestamp >= T_GEN_CAM_MIN
    ensures var (f, m) := (Final(s, before + [p] + after), |Log(s, before + [p] + after)| - |Log(s, before)| - 1);
            var short := Narrow(p.asked - Final(s, before).lastTimestamp);
            && m >= 0
            && (PollSends(f, next) != [] <==> next.asked - f.lastTimestamp >= DueAfter(QuietPeriod(short, m)))
  {
    hide PollSends, AfterPoll, Final, Log, Narrow, DueAfter;
    var run := before + [p] + after;
    MonotoneRest(s, run, [next]);
    assert next in [next];
    FirstOfQuiet(s, before, p, after);
    var g := Final(s, before + [p]);
    var short := Narrow(p.asked - Final(s, before).lastTimestamp);
    QuietRun(g, after, short);
    RunJoins(s, before + [p], after);
    QuietPoll(Final(s, run), next, short, |Log(g, after)|);
  }

  // ---------------------------------------------------------------- how late a CAM can be

  predicate Close(polls: seq<Poll>, d: nat) {
    forall k | 0 <= k < |polls| - 1 :: polls[k + 1].asked - polls[k].asked <= d
  }

  /** The time from which a poll triggers a CAM even with unchanged dynamics: the period as the unsigned number
      that it is compared as, but not before T_GenCAM_Min. */
  function DueAfter(period: Int): nat {
    if Widen(period) < T_GEN_CAM_MIN then T_GEN_CAM_MIN else Widen(period)
  }

  /** Just after a poll no CAM is due. */
  lemma NotLateAfterPoll(s: Timing, polls: seq<Poll>)
    requires Monotone(s, polls) && polls != []
    ensures var f := Final(s, polls); polls[|polls| - 1].asked < f.lastTimestamp + DueAfter(f.tGenCAM)
  {
    hide NextPeriod, NextCount, PollSends, AfterPoll, Widen;
    var n := |polls| - 1;
    MonotonePrefix(s, polls);
    AgreesAlways(s, polls[..n]);
    PollEffect(Final(s, polls[..n]), polls[n]);
  }

  /** In every run with polls at most d apart, every CAM after the first comes less than d after it was due. */
  lemma {:induction false} CamsAreInTime(s: Timing, polls: seq<Poll>, d: nat)
    requires Monotone(s, polls) && Close(polls, d)
    ensures var log := Log(s, polls);
            forall k | 0 < k < |log| :: log[k].gap < DueAfter(log[k].period) + d
    decreases |polls|
  {
    hide NextPeriod, NextCount, DueAfter, PollSends, AfterPoll, Final, Monotone;
    if polls != [] {
      var n := |polls| - 1;
      MonotonePrefix(s, polls);
      AgreesAlways(s, polls[..n]);
      CamsAreInTime(s, polls[..n], d);
      LastPoll(s, polls);
      var (f, log) := (Final(s, polls[..n]), Log(s, polls[..n]));
      PollEffect(f, polls[n]);
      if n > 0 {
        NotLateAfterPoll(s, polls[..n]);
        assert polls[n - 1 + 1].asked - polls[n - 1].asked <= d;
      }
      var more := Log(s, polls);
      forall k | 0 < k < |more|
        ensures more[k].gap < DueAfter(more[k].period) + d
      {
        if k < |log| {
          assert more[k] == log[k];
        } else {
          assert more[k] == PollSends(f, polls[n])[0];
        }
      }
    }
  }

  // ---------------------------------------------------------------- when T_GenCAM + d is a bound

  /** Every CAM after the first that found the period `period` came within the period plus d. */
  ghost predicate WithinPeriod(polls: seq<Poll>, period: Int, d: nat) {
    var log := Log(START, polls);
    forall k | 0 < k < |log| && log[k].period == period :: log[k].gap <= period + d
  }

  /** For every period and every spacing of polls up to 2^63: no CAM in any run of a new manager exceeds T_GenCAM + d
      if and only if the period is not below T_GenCAM_Min - 1. Only a narrowing conversion makes it smaller. */
  lemma WithinPeriodExactly(period: Int, d: nat)
    requires 1 <= d < TWO_64 / 2
    ensures (forall polls | Monotone(START, polls) && Close(polls, d) :: WithinPeriod(polls, period, d))
            <==> period >= T_GEN_CAM_MIN - 1
  {
    if period >= T_GEN_CAM_MIN - 1 {
      forall polls | Monotone(START, polls) && Close(polls, d)
        ensures WithinPeriod(polls, period, d)
      {
        CamsAreInTime(START, polls, d);
      }
    } else {
      LateRun(period, d);
    }
  }

  /** A first CAM at a clock reading that is narrowed to `period`. */
  function FirstAt(period: Int): Clock {
    0x1_0000_0000 + if period < 0 then period + 0x1_0000_0000 else period
  }

  function PollAt(at: Clock, changed: bool): Poll {
    Poll(at, at, at, changed, false)
  }

  /** The first CAM, and then n polls with unchanged dynamics, one each millisecond. */
  function Ticks(a: Clock, n: nat): seq<Poll>
    requires a + n < TWO_64
  {
    [PollAt(a, true)] + seq(n, i requires 0 <= i < n => PollAt(a + 1 + i, false))
  }

  lemma FirstPeriod(period: Int)
    ensures Narrow(FirstAt(period)) == period && T_GEN_CAM_MIN <= FirstAt(period)
    ensures FirstAt(period) + T_GEN_CAM_MIN < TWO_64 / 2
  {
  }

  lemma FirstTick(period: Int)
    ensures var (a, polls) := (FirstAt(period), Ticks(FirstAt(period), 0));
            && |Log(START, polls)| == 1
            && Final(START, polls) == Timing(period, 1, a, 0)
  {
    var (a, polls) := (FirstAt(period), Ticks(FirstAt(period), 0));
    FirstPeriod(period);
    assert polls == [PollAt(a, true)] && polls[..0] == [];
    LastPoll(START, polls);
    PollEffect(START, polls[0]);
  }

  /** Before T_GenCAM_Min has gone by, unchanged polls send nothing. */
  lemma {:induction false} TicksSendNothing(period: Int, n: nat)
    requires n < T_GEN_CAM_MIN
    ensures FirstAt(period) + n < TWO_64
    ensures var (a, polls) := (FirstAt(period), Ticks(FirstAt(period), n));
            && |Log(START, polls)| == 1
            && Final(START, polls) == Timing(period, 1, a, 0)
    decreases n
  {
    hide Narrow, Widen, PollSends, AfterPoll, FirstAt, Log, Final;
    FirstPeriod(period);
    if n == 0 {
      FirstTick(period);
    } else {
      TicksSendNothing(period, n - 1);
      var polls := Ticks(FirstAt(period), n);
      assert polls[n] == PollAt(FirstAt(period) + n, false);
      assert polls[..n] == Ticks(FirstAt(period), n - 1);
      LastPoll(START, polls);
      PollEffect(Final(START, polls[..n]), polls[n]);
      TickTooEarly(Final(START, polls[..n]), polls[n]);
    }
  }

  lemma TickTooEarly(f: Timing, p: Poll)
    requires f.lastTimestamp <= p.asked < f.lastTimestamp + T_GEN_CAM_MIN
    ensures PollSends(f, p) == [] && AfterPoll(f, p) == f
  {
    hide Since;
    SinceIs(p.asked, f.lastTimestamp);
  }

  /** A period below T_GenCAM_Min - 1 is exceeded: polls up to 99 ms after the first CAM send nothing, and the next
      one comes d later. */
  lemma LateRun(period: Int, d: nat)
    requires 1 <= d < TWO_64 / 2 && period < T_GEN_CAM_MIN - 1
    ensures exists polls :: Monotone(START, polls) && Close(polls, d) && !WithinPeriod(polls, period, d)
  {
    hide Narrow, Widen, PollSends, AfterPoll, FirstAt, Log, Final;
    FirstPeriod(period);
    var (a, n) := (FirstAt(period), T_GEN_CAM_MIN - 1);
    TicksSendNothing(period, n);
    var ticks := Ticks(a, n);
    var p := PollAt(a + n + d, true);
    var polls := ticks + [p];
    assert polls[..n + 1] == ticks;
    LastPoll(START, polls);
    var f := Final(START, ticks);
    PollEffect(f, p);
    LateSends(f, p);
    var log := Log(START, polls);
    assert |log| == 2 && log[1].gap == n + d && log[1].period == period;
    assert !WithinPeriod(polls, period, d);
    forall k | 0 <= k <= n
      ensures polls[k] == PollAt(a + k, k == 0)
    {
      assert ticks[k] == PollAt(a + k, k == 0);
    }
  }

  lemma LateSends(f: Timing, p: Poll)
    requires p.changed && p.asked >= f.lastTimestamp + T_GEN_CAM_MIN
    ensures PollSends(f, p) != []
  {
    hide Since;
    SinceIs(p.asked, f.lastTimestamp);
  }

  // ---------------------------------------------------------------- what the narrowing makes of T_GenCAM

  /** After a CAM by condition 1, for every time since the CAM before it: T_GenCAM is what the standard allows,
      T_GenCAM_Min to T_GenCAM_Max, exactly if that time modulo 2^32 is, and negative exactly from 2^31 on. */
  lemma PeriodAfterCondition1(e: Sent)
    requires e.why.Condition1?
    ensures T_GEN_CAM_MIN <= NextPeriod(e) <= T_GEN_CAM_MAX
            <==> T_GEN_CAM_MIN <= e.gap % 0x1_0000_0000 <= T_GEN_CAM_MAX
    ensures NextPeriod(e) < 0 <==> e.gap % 0x1_0000_0000 >= 0x8000_0000
  {
    hide Narrow;
    NarrowIs(e.gap);
  }

  /** The low 32 bits, read as a number with a sign. */
  lemma NarrowIs(v: int)
    ensures var low := v % 0x1_0000_0000;
            Narrow(v) == if low < 0x8000_0000 then low else low - 0x1_0000_0000
  {
    var k, low := v / 0x1_0000_0000, v % 0x1_0000_0000;
    var w := v + 0x8000_0000;
    if low < 0x8000_0000 {
      Remainder(w, k, low + 0x8000_0000);
    } else {
      Remainder(w, k + 1, low - 0x8000_0000);
    }
  }

  lemma Remainder(w: int, k: int, rest: nat)
    requires w == 0x1_0000_0000 * k + rest && rest < 0x1_0000_0000
    ensures w % 0x1_0000_0000 == rest
  {
  }

  /** The first CAM of a new manager is measured from time 0: with changed dynamics it leaves T_GenCAM negative for
      exactly the clock readings that are 2^31 or more modulo 2^32, every other 25 days. */
  lemma FirstCamCanStarve(p: Poll)
    requires p.asked >= T_GEN_CAM_MIN && p.changed
    ensures AfterPoll(START, p).tGenCAM < 0 <==> p.asked % 0x1_0000_0000 >= 0x8000_0000
  {
    hide Narrow;
    NarrowIs(p.asked);
  }

  /** A period made negative by the narrowing is compared as a number near 2^64: with unchanged dynamics no poll
      triggers a CAM for as long as the clock stays below 2^63. */
  lemma NegativePeriodStarves(s: Timing, polls: seq<Poll>)
    requires s.tGenCAM < 0 && Monotone(s, polls)
    requires forall p <- polls :: !p.changed && p.asked < TWO_64 / 2
    ensures Log(s, polls) == [] && Final(s, polls) == s
  {
    hide PollSends, AfterPoll, NextPeriod, NextCount;
    if polls != [] {
      var n := |polls| - 1;
      MonotonePrefix(s, polls);
      assert forall p <- polls[..n] :: p in polls;
      AgreesAlways(s, polls[..n]);
      NegativePeriodStarves(s, polls[..n]);
      assert polls[n] in polls;
      StarvedPoll(s, polls[n]);
    }
  }

  lemma StarvedPoll(s: Timing, p: Poll)
    requires s.tGenCAM < 0 && s.lastTimestamp <= p.asked < TWO_64 / 2 && !p.changed
    ensures PollSends(s, p) == [] && AfterPoll(s, p) == s
  {
    hide Since;
    SinceIs(p.asked, s.lastTimestamp);
  }
}

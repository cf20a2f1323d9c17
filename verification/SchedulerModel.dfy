/** The round-robin scheduler of kernel/system/process.c on values: the ring of processes, read from
    the running one on. */
module SchedulerModel {
  import opened Arithmetic

  /** The idle process, created first at boot, never sleeps and never exits. */
  const IDLE: nat := 0

  datatype Proc = Proc(id: nat, dead: bool, wakeAt: nat)

  datatype State = State(ring: seq<Proc>, ticks: nat)

  // ---------------------------------------------------------------- operations

  /** PROCESS_PUSH: a new process is inserted behind the head. */
  function Push(ring: seq<Proc>, p: Proc): seq<Proc> {
    if ring == [] then [p] else [ring[0], p] + ring[1..]
  }

  function Alive(ring: seq<Proc>): (r: seq<Proc>)
    ensures |r| <= |ring|
  {
    if ring == [] then []
    else if ring[0].dead then Alive(ring[1..])
    else [ring[0]] + Alive(ring[1..])
  }

  /** process_reap: the dead processes behind the head are removed; a lone dead process empties the ring. */
  function Reap(ring: seq<Proc>): seq<Proc> {
    if |ring| <= 1 then Alive(ring) else [ring[0]] + Alive(ring[1..])
  }

  predicate Awake(p: Proc, ticks: nat) {
    p.wakeAt <= ticks
  }

  /** How far the head moves: at least one place, and past sleeping processes. At most one turn. */
  function Skip(ring: seq<Proc>, ticks: nat, k: nat): (n: nat)
    requires 1 <= k <= |ring|
    ensures k <= n <= |ring|
    ensures forall i :: k <= i < n ==> !Awake(ring[i], ticks)
    ensures n < |ring| ==> Awake(ring[n], ticks)
    decreases |ring| - k
  {
    if k == |ring| || Awake(ring[k], ticks) then k else Skip(ring, ticks, k + 1)
  }

  function Rotate(ring: seq<Proc>, k: nat): seq<Proc>
    requires k <= |ring|
  {
    ring[k..] + ring[..k]
  }

  /** process_schedule: reap, then move the head on. */
  function Schedule(ring: seq<Proc>, ticks: nat): seq<Proc> {
    var r := Reap(ring);
    if r == [] then r else Rotate(r, Skip(r, ticks, 1))
  }

  datatype Op = Create(proc: Proc) | Tick | Yield | Sleep(ms: nat) | Exit

  function Step(s: State, op: Op): State
    requires s.ring != []
  {
    match op
    case Create(p) => s.(ring := Push(s.ring, p))
    case Tick => s.(ticks := s.ticks + 1)
    case Yield => s.(ring := Schedule(s.ring, s.ticks))
    case Sleep(ms) => s.(ring := Schedule(s.ring[0 := s.ring[0].(wakeAt := (s.ticks + ms) % WORD)], s.ticks))
    case Exit => s.(ring := Schedule(s.ring[0 := s.ring[0].(dead := true)], s.ticks))
  }

  // ---------------------------------------------------------------- the invariant

  ghost predicate Distinct(ring: seq<Proc>) {
    forall i, j :: 0 <= i < j < |ring| ==> ring[i].id != ring[j].id
  }

  ghost predicate HasIdle(ring: seq<Proc>) {
    exists i :: 0 <= i < |ring| && ring[i] == Proc(IDLE, false, 0)
  }

  /** The ring holds distinct processes, the idle process among them, and the running one is alive. */
  ghost predicate Inv(s: State) {
    && s.ring != [] && Distinct(s.ring) && HasIdle(s.ring) && !s.ring[0].dead
  }

  /** New processes have a new id and are ready; the idle process neither sleeps nor exits. */
  predicate Legal(s: State, op: Op) {
    match op
    case Create(p) => !p.dead && p.wakeAt == 0 && forall i :: 0 <= i < |s.ring| ==> s.ring[i].id != p.id
    case Tick => true
    case Yield => true
    case Sleep(_) => s.ring != [] && s.ring[0].id != IDLE
    case Exit => s.ring != [] && s.ring[0].id != IDLE
  }

  // ---------------------------------------------------------------- reaping

  lemma DistinctTail(ring: seq<Proc>)
    requires ring != [] && Distinct(ring)
    ensures Distinct(ring[1..]) && forall p :: p in ring[1..] ==> p.id != ring[0].id
  {
    forall i, j | 0 <= i < j < |ring| - 1 ensures ring[1..][i].id != ring[1..][j].id {
      assert ring[1..][i] == ring[i + 1] && ring[1..][j] == ring[j + 1];
    }
  }

  lemma DistinctCons(p: Proc, rest: seq<Proc>)
    requires Distinct(rest) && forall q :: q in rest ==> q.id != p.id
    ensures Distinct([p] + rest)
  {
    var r := [p] + rest;
    forall i, j | 0 <= i < j < |r| ensures r[i].id != r[j].id {
      assert r[j] == rest[j - 1] && r[j] in rest;
    }
  }

  /** Reaping keeps exactly the live processes. */
  lemma {:induction false} AliveKeeps(ring: seq<Proc>)
    ensures forall p :: p in Alive(ring) <==> p in ring && !p.dead
    ensures Distinct(ring) ==> Distinct(Alive(ring))
  {
    if ring == [] {
    } else {
      AliveKeeps(ring[1..]);
      assert ring == [ring[0]] + ring[1..];
      if Distinct(ring) {
        DistinctTail(ring);
        if !ring[0].dead {
          DistinctCons(ring[0], Alive(ring[1..]));
        }
      }
    }
  }

  /** A live process at distance `d` is, after reaping, at a distance of at most `d`. */
  lemma {:induction false} AlivePosition(ring: seq<Proc>, d: nat) returns (d': nat)
    requires d < |ring| && !ring[d].dead
    ensures d' <= d && d' < |Alive(ring)| && Alive(ring)[d'] == ring[d]
  {
    if d == 0 {
      d' := 0;
    } else {
      var e := AlivePosition(ring[1..], d - 1);
      d' := if ring[0].dead then e else e + 1;
    }
  }

  /** Reaping keeps the order. */
  lemma {:induction false} AliveOrder(ring: seq<Proc>, i: nat, j: nat) returns (i': nat, j': nat)
    requires i < j < |ring| && !ring[i].dead && !ring[j].dead
    ensures i' < j' < |Alive(ring)| && Alive(ring)[i'] == ring[i] && Alive(ring)[j'] == ring[j]
  {
    if i == 0 {
      var e := AlivePosition(ring[1..], j - 1);
      i', j' := 0, e + 1;
    } else {
      var a, b := AliveOrder(ring[1..], i - 1, j - 1);
      i', j' := if ring[0].dead then a else a + 1, if ring[0].dead then b else b + 1;
    }
  }

  /** Reaping empties the ring exactly if it is a lone dead process; otherwise the head stays, dead or not. */
  lemma ReapEmpties(ring: seq<Proc>)
    requires ring != []
    ensures Reap(ring) == [] <==> |ring| == 1 && ring[0].dead
    ensures Reap(ring) != [] ==> Reap(ring)[0] == ring[0]
  {
    assert |ring| == 1 ==> Alive(ring[1..]) == [];
  }

  /** After reaping, the head is where it was and everything behind it is alive. */
  lemma ReapCorrect(ring: seq<Proc>)
    requires |ring| >= 1 && Distinct(ring) && HasIdle(ring)
    ensures var r := Reap(ring);
            && r != [] && r[0] == ring[0] && Distinct(r) && HasIdle(r)
            && (forall i :: 1 <= i < |r| ==> !r[i].dead)
            && (forall p :: p in r <==> p in ring && (!p.dead || p == ring[0]))
  {
    var r := Reap(ring);
    var idle := Proc(IDLE, false, 0);
    assert idle in ring;
    if |ring| == 1 {
      assert Alive(ring[1..]) == [] && Alive(ring) == ring;
    } else {
      hide Alive;
      AliveKeeps(ring[1..]);
      DistinctTail(ring);
      DistinctCons(ring[0], Alive(ring[1..]));
      assert ring == [ring[0]] + ring[1..];
      assert idle in r;
      forall k | 1 <= k < |r| ensures !r[k].dead {
        assert r[k] in Alive(ring[1..]);
      }
    }
  }

  // ---------------------------------------------------------------- scheduling

  lemma {:induction false} DistinctRotate(ring: seq<Proc>, k: nat)
    requires Distinct(ring) && k <= |ring|
    ensures Distinct(Rotate(ring, k)) && forall p :: p in Rotate(ring, k) <==> p in ring
  {
    var r := Rotate(ring, k);
    forall i | 0 <= i < |r| ensures r[i] == ring[if i < |ring| - k then i + k else i - (|ring| - k)] {
    }
    assert ring == ring[..k] + ring[k..];
  }

  /** The search for an awake process ends before it comes back to the head. */
  lemma SkipFinds(ring: seq<Proc>, ticks: nat, d: nat)
    requires 1 <= d < |ring| && Awake(ring[d], ticks)
    ensures Skip(ring, ticks, 1) <= d
  {
  }

  /** After reaping, some process is awake, so that the search for one comes to an end. */
  ghost predicate SearchEnds(ring: seq<Proc>, ticks: nat) {
    exists i :: 0 <= i < |Reap(ring)| && Awake(Reap(ring)[i], ticks)
  }

  /** The search of a ring ends, at the latest with the head after a full turn, exactly if some process is awake. */
  lemma SearchExact(ring: seq<Proc>, ticks: nat)
    requires ring != []
    ensures (Skip(ring, ticks, 1) == |ring| ==> Awake(ring[0], ticks))
            <==> exists i :: 0 <= i < |ring| && Awake(ring[i], ticks)
  {
    if i :| 0 <= i < |ring| && Awake(ring[i], ticks) {
      if i > 0 {
        SkipFinds(ring, ticks, i);
      }
    }
  }

  /** With the idle process in the ring it always does. */
  lemma IdleEndsSearch(ring: seq<Proc>, ticks: nat)
    requires ring != [] && Distinct(ring) && HasIdle(ring)
    ensures SearchEnds(ring, ticks)
  {
    hide Reap;
    ReapCorrect(ring);
    var i :| 0 <= i < |Reap(ring)| && Reap(ring)[i] == Proc(IDLE, false, 0);
    assert Awake(Reap(ring)[i], ticks);
  }

  /** The scheduler ends the reaping and the search with a live process that is awake, whatever the
      state of the previous one. */
  lemma ScheduleCorrect(ring: seq<Proc>, ticks: nat)
    requires ring != [] && Distinct(ring) && HasIdle(ring)
    ensures var r := Schedule(ring, ticks);
            && r != [] && Distinct(r) && HasIdle(r)
            && !r[0].dead && Awake(r[0], ticks)
            && (forall p :: p in r <==> p in ring && (!p.dead || p == ring[0]))
  {
    var r := Reap(ring);
    ReapCorrect(ring);
    hide Reap;
    var n := Skip(r, ticks, 1);
    var i :| 0 <= i < |r| && r[i] == Proc(IDLE, false, 0);
    if i > 0 {
      SkipFinds(r, ticks, i);
    }
    DistinctRotate(r, n);
    var t := Rotate(r, n);
    assert t[0] == if n < |r| then r[n] else r[0];
    assert r[i] in t;
  }

  lemma SameId(ring: seq<Proc>, p: Proc, q: Proc)
    requires Distinct(ring) && p in ring && q in ring && p.id == q.id
    ensures p == q
  {
  }

  /** Changing a field of the running process keeps the ring. */
  lemma MarkHead(ring: seq<Proc>, p: Proc)
    requires ring != [] && Distinct(ring) && HasIdle(ring) && p.id == ring[0].id && p.id != IDLE
    ensures Distinct(ring[0 := p]) && HasIdle(ring[0 := p])
  {
    var i :| 0 <= i < |ring| && ring[i] == Proc(IDLE, false, 0);
    assert ring[0 := p][i] == ring[i];
  }

  /** In every legal step that schedules, the search for an awake process ends. */
  lemma LegalEndsSearch(s: State, op: Op)
    requires Inv(s) && Legal(s, op)
    ensures op.Yield? ==> SearchEnds(s.ring, s.ticks)
    ensures op.Sleep? ==> SearchEnds(s.ring[0 := s.ring[0].(wakeAt := (s.ticks + op.ms) % WORD)], s.ticks)
    ensures op.Exit? ==> SearchEnds(s.ring[0 := s.ring[0].(dead := true)], s.ticks)
  {
    hide SearchEnds, Distinct, HasIdle;
    match op
    case Yield => IdleEndsSearch(s.ring, s.ticks);
    case Sleep(ms) =>
      var p := s.ring[0].(wakeAt := (s.ticks + ms) % WORD);
      MarkHead(s.ring, p);
      IdleEndsSearch(s.ring[0 := p], s.ticks);
    case Exit =>
      var p := s.ring[0].(dead := true);
      MarkHead(s.ring, p);
      IdleEndsSearch(s.ring[0 := p], s.ticks);
    case _ =>
  }

  lemma PushCorrect(ring: seq<Proc>, p: Proc)
    requires ring != [] && Distinct(ring) && HasIdle(ring) && forall i :: 0 <= i < |ring| ==> ring[i].id != p.id
    ensures Distinct(Push(ring, p)) && HasIdle(Push(ring, p)) && Push(ring, p)[0] == ring[0]
  {
    var r := Push(ring, p);
    forall i | 0 <= i < |r| ensures r[i] == if i == 0 then ring[0] else if i == 1 then p else ring[i - 1] {
    }
    var i :| 0 <= i < |ring| && ring[i] == Proc(IDLE, false, 0);
    assert r[if i == 0 then 0 else i + 1] == ring[i];
  }

  /** Every step keeps the ring of distinct processes with a live head; a step that schedules makes a
      process run that is awake. */
  lemma StepCorrect(s: State, op: Op)
    requires Inv(s) && Legal(s, op)
    ensures Inv(Step(s, op))
    ensures op.Yield? || op.Sleep? || op.Exit? ==> Awake(Step(s, op).ring[0], s.ticks)
  {
    hide Schedule, Push, Distinct, HasIdle;
    match op
    case Create(p) => PushCorrect(s.ring, p);
    case Tick =>
    case Yield => ScheduleCorrect(s.ring, s.ticks);
    case Sleep(ms) =>
      var p := s.ring[0].(wakeAt := (s.ticks + ms) % WORD);
      MarkHead(s.ring, p);
      ScheduleCorrect(s.ring[0 := p], s.ticks);
    case Exit =>
      var p := s.ring[0].(dead := true);
      MarkHead(s.ring, p);
      ScheduleCorrect(s.ring[0 := p], s.ticks);
  }

  // ---------------------------------------------------------------- bounded waiting

  /** The process at distance `d` behind the head is alive and awake. */
  predicate Waits(s: State, id: nat, d: nat) {
    d < |s.ring| && s.ring[d].id == id && !s.ring[d].dead && Awake(s.ring[d], s.ticks)
  }

  /** Scheduling brings a waiting process nearer to the head, and never passes it. */
  lemma ScheduleNearer(ring: seq<Proc>, ticks: nat, d: nat) returns (d': nat)
    requires 1 <= d < |ring| && !ring[d].dead && Awake(ring[d], ticks)
    ensures d' < d && d' < |Schedule(ring, ticks)| && Schedule(ring, ticks)[d'] == ring[d]
  {
    var e := AlivePosition(ring[1..], d - 1);
    var r := Reap(ring);
    assert r[e + 1] == ring[d];
    SkipFinds(r, ticks, e + 1);
    var n := Skip(r, ticks, 1);
    d' := e + 1 - n;
    assert Rotate(r, n)[d'] == r[e + 1];
  }

  lemma StepNearer(s: State, op: Op, id: nat, d: nat) returns (d': nat)
    requires Inv(s) && Legal(s, op) && Waits(s, id, d) && d >= 1
    ensures Waits(Step(s, op), id, d')
    ensures d' <= match op { case Create(_) => d + 1 case Tick => d case _ => d - 1 }
  {
    hide Schedule, Distinct, HasIdle;
    match op
    case Create(p) =>
      d' := d + 1;
      assert Push(s.ring, p)[d + 1] == s.ring[d];
    case Tick => d' := d;
    case Yield => d' := ScheduleNearer(s.ring, s.ticks, d);
    case Sleep(ms) =>
      d' := ScheduleNearer(s.ring[0 := s.ring[0].(wakeAt := (s.ticks + ms) % WORD)], s.ticks, d);
    case Exit =>
      d' := ScheduleNearer(s.ring[0 := s.ring[0].(dead := true)], s.ticks, d);
  }

  function Run(s: State, ops: seq<Op>): State
    requires LegalRun(s, ops)
    decreases |ops|
  {
    if ops == [] then s else Run(Step(s, ops[0]), ops[1..])
  }

  predicate LegalRun(s: State, ops: seq<Op>)
    decreases |ops|
  {
    ops == [] || (s.ring != [] && Legal(s, ops[0]) && LegalRun(Step(s, ops[0]), ops[1..]))
  }

  function Pushes(ops: seq<Op>): nat {
    if ops == [] then 0 else (if ops[0].Create? then 1 else 0) + Pushes(ops[1..])
  }

  function Schedules(ops: seq<Op>): nat {
    if ops == [] then 0 else (if ops[0].Create? || ops[0].Tick? then 0 else 1) + Schedules(ops[1..])
  }

  lemma {:induction false} RunCorrect(s: State, ops: seq<Op>)
    requires Inv(s) && LegalRun(s, ops)
    ensures Inv(Run(s, ops))
    decreases |ops|
  {
    if ops == [] {
    } else {
      StepCorrect(s, ops[0]);
      RunCorrect(Step(s, ops[0]), ops[1..]);
    }
  }

  /** Some prefix of the run makes process `id` the running one. */
  ghost predicate RunsIn(s: State, ops: seq<Op>, id: nat)
    requires LegalRun(s, ops)
    decreases |ops|
  {
    (s.ring != [] && s.ring[0].id == id) || (ops != [] && RunsIn(Step(s, ops[0]), ops[1..], id))
  }

  /** A process that is alive and awake at distance `d` runs after at most `d` schedules, one more for
      every process that is created in between. */
  lemma {:induction false} BoundedWaiting(s: State, ops: seq<Op>, id: nat, d: nat)
    requires Inv(s) && LegalRun(s, ops) && Waits(s, id, d)
    requires Schedules(ops) >= d + Pushes(ops)
    ensures RunsIn(s, ops, id)
    decreases |ops|
  {
    if d == 0 {
    } else {
      var d' := StepNearer(s, ops[0], id, d);
      StepCorrect(s, ops[0]);
      BoundedWaiting(Step(s, ops[0]), ops[1..], id, d');
    }
  }

  // ---------------------------------------------------------------- time and sleep

  function Ticks(ops: seq<Op>): nat {
    if ops == [] then 0 else (if ops[0].Tick? then 1 else 0) + Ticks(ops[1..])
  }

  /** The clock counts the ticks and nothing else. */
  lemma {:induction false} RunTicks(s: State, ops: seq<Op>)
    requires LegalRun(s, ops)
    ensures Run(s, ops).ticks == s.ticks + Ticks(ops)
    decreases |ops|
  {
    if ops == [] {
    } else {
      RunTicks(Step(s, ops[0]), ops[1..]);
    }
  }

  /** Process `id` is in the ring, alive, to be woken at tick `until`, and not running before. */
  ghost predicate Asleep(s: State, id: nat, until: nat) {
    && (exists i :: 0 <= i < |s.ring| && s.ring[i].id == id)
    && (forall i :: 0 <= i < |s.ring| && s.ring[i].id == id ==> !s.ring[i].dead && s.ring[i].wakeAt == until)
    && (s.ring != [] && s.ticks < until ==> s.ring[0].id != id)
  }

  /** A schedule keeps a live process behind the head, and runs no process that sleeps. */
  lemma ScheduleSleeper(ring: seq<Proc>, ticks: nat, id: nat, until: nat)
    requires ring != [] && Distinct(ring) && HasIdle(ring)
    requires exists i :: 0 <= i < |ring| && ring[i].id == id
    requires forall i :: 0 <= i < |ring| && ring[i].id == id ==> !ring[i].dead && ring[i].wakeAt == until
    ensures Asleep(State(Schedule(ring, ticks), ticks), id, until)
  {
    hide Schedule, Distinct, HasIdle;
    ScheduleCorrect(ring, ticks);
    var r := Schedule(ring, ticks);
    var i :| 0 <= i < |ring| && ring[i].id == id;
    assert ring[i] in ring && ring[i] in r;
    forall j | 0 <= j < |r| && r[j].id == id ensures !r[j].dead && r[j].wakeAt == until {
      assert r[j] in r && r[j] in ring;
    }
  }

  /** Going to sleep for `ms` sets the wake time to now and `ms` exactly if the sum is a 64-bit number. */
  lemma SleepSets(s: State, ms: nat)
    requires Inv(s) && s.ring[0].id != IDLE
    ensures Asleep(Step(s, Sleep(ms)), s.ring[0].id, s.ticks + ms) <==> s.ticks + ms < WORD
    ensures Asleep(Step(s, Sleep(ms)), s.ring[0].id, (s.ticks + ms) % WORD)
  {
    hide Schedule;
    var p := s.ring[0].(wakeAt := (s.ticks + ms) % WORD);
    var ring := s.ring[0 := p];
    MarkHead(s.ring, p);
    forall i | 0 <= i < |ring| && ring[i].id == p.id ensures ring[i] == p {
      assert ring[i] in ring && ring[0] in ring;
      SameId(ring, ring[i], ring[0]);
    }
    assert ring[0].id == p.id;
    ScheduleSleeper(ring, s.ticks, p.id, (s.ticks + ms) % WORD);
  }

  /** A sum that wraps around to zero: the process is awake at once, although it asked for more than no time. */
  lemma SleepWraps(s: State) returns (d: nat)
    requires Inv(s) && s.ring[0].id != IDLE && s.ticks < WORD
    ensures Waits(Step(s, Sleep(WORD - s.ticks)), s.ring[0].id, d)
  {
    hide Step, Asleep;
    SleepSets(s, WORD - s.ticks);
    d := SleeperWaits(Step(s, Sleep(WORD - s.ticks)), s.ring[0].id, 0);
  }

  /** No step before the wake time runs the sleeper or takes it out of the ring. */
  lemma AsleepStep(s: State, op: Op, id: nat, until: nat)
    requires Inv(s) && Legal(s, op) && Asleep(s, id, until) && s.ticks < until
    ensures Asleep(Step(s, op), id, until)
  {
    hide Schedule, Distinct, HasIdle;
    match op
    case Create(p) =>
      var r := Push(s.ring, p);
      assert forall i :: 0 <= i < |r| ==> r[i] == if i == 0 then s.ring[0] else if i == 1 then p else s.ring[i - 1];
      var i :| 0 <= i < |s.ring| && s.ring[i].id == id;
      assert r[i + 1].id == id;
    case Tick =>
    case Yield => ScheduleSleeper(s.ring, s.ticks, id, until);
    case Sleep(ms) =>
      var p := s.ring[0].(wakeAt := (s.ticks + ms) % WORD);
      MarkHead(s.ring, p);
      HeadChanged(s.ring, s.ring[0 := p], id);
      ScheduleSleeper(s.ring[0 := p], s.ticks, id, until);
    case Exit =>
      var p := s.ring[0].(dead := true);
      MarkHead(s.ring, p);
      HeadChanged(s.ring, s.ring[0 := p], id);
      ScheduleSleeper(s.ring[0 := p], s.ticks, id, until);
  }

  lemma HeadChanged(ring: seq<Proc>, ring': seq<Proc>, id: nat)
    requires ring != [] && |ring'| == |ring| && ring' == ring[0 := ring'[0]] && ring'[0].id == ring[0].id
    requires exists i :: 0 <= i < |ring| && ring[i].id == id
    ensures exists i :: 0 <= i < |ring'| && ring'[i].id == id
  {
    var i :| 0 <= i < |ring| && ring[i].id == id;
    assert ring'[i].id == id;
  }

  lemma {:induction false} AsleepRun(s: State, ops: seq<Op>, id: nat, until: nat)
    requires Inv(s) && LegalRun(s, ops) && Asleep(s, id, until) && s.ticks + Ticks(ops) < until
    ensures Asleep(Run(s, ops), id, until)
    decreases |ops|
  {
    hide Inv, Asleep, Schedule, Push;
    if ops == [] {
      assert Run(s, ops) == s;
    } else {
      StepCorrect(s, ops[0]);
      AsleepStep(s, ops[0], id, until);
      AsleepRun(Step(s, ops[0]), ops[1..], id, until);
    }
  }

  /** Whatever is created, yielded, slept and exited meanwhile, a process that sleeps for `ms` is not run before `ms`
      ticks have passed, and is not lost. */
  lemma SleeperStays(s: State, ms: nat, ops: seq<Op>)
    requires Inv(s) && s.ring[0].id != IDLE && s.ticks + ms < WORD
    requires LegalRun(Step(s, Sleep(ms)), ops) && Ticks(ops) < ms
    ensures var r := Run(Step(s, Sleep(ms)), ops);
      Asleep(r, s.ring[0].id, s.ticks + ms) && r.ring != [] && r.ring[0].id != s.ring[0].id
  {
    hide Distinct, HasIdle, Asleep, Schedule;
    StepCorrect(s, Sleep(ms));
    SleepSets(s, ms);
    var s1 := Step(s, Sleep(ms));
    AsleepRun(s1, ops, s.ring[0].id, s.ticks + ms);
    RunTicks(s1, ops);
    RunCorrect(s1, ops);
    AsleepHead(Run(s1, ops), s.ring[0].id, s.ticks + ms);
  }

  lemma AsleepHead(s: State, id: nat, until: nat)
    requires Inv(s) && Asleep(s, id, until) && s.ticks < until
    ensures s.ring != [] && s.ring[0].id != id
  {
  }

  /** With the last of these ticks it waits for the processor, and then it runs after at most one turn of the ring, one
      schedule more for every process created. */
  lemma SleeperRuns(s: State, ms: nat, before: seq<Op>, after: seq<Op>)
    requires Inv(s) && s.ring[0].id != IDLE && s.ticks + ms < WORD
    requires LegalRun(Step(s, Sleep(ms)), before) && Ticks(before) + 1 == ms
    requires LegalRun(Run(Step(s, Sleep(ms)), before), [Tick] + after)
    requires Schedules(after) + 1 >= |Run(Step(s, Sleep(ms)), before).ring| + Pushes(after)
    ensures RunsIn(Run(Step(s, Sleep(ms)), before), [Tick] + after, s.ring[0].id)
  {
    hide Distinct, HasIdle, Asleep, Schedule;
    SleeperStays(s, ms, before);
    StepCorrect(s, Sleep(ms));
    var s1 := Run(Step(s, Sleep(ms)), before);
    RunCorrect(Step(s, Sleep(ms)), before);
    RunTicks(Step(s, Sleep(ms)), before);
    AsleepStep(s1, Tick, s.ring[0].id, s.ticks + ms);
    StepCorrect(s1, Tick);
    var s2 := Step(s1, Tick);
    assert ([Tick] + after)[1..] == after;
    var d := SleeperWaits(s2, s.ring[0].id, s.ticks + ms);
    BoundedWaiting(s2, after, s.ring[0].id, d);
  }

  lemma SleeperWaits(s: State, id: nat, until: nat) returns (d: nat)
    requires Asleep(s, id, until) && until <= s.ticks
    ensures Waits(s, id, d)
  {
    d :| d < |s.ring| && s.ring[d].id == id;
  }

  // ---------------------------------------------------------------- exited processes

  /** A process with this id is dead and not running, if there is one. */
  ghost predicate Dying(s: State, id: nat) {
    forall i :: 0 <= i < |s.ring| && s.ring[i].id == id ==> i > 0 && s.ring[i].dead
  }

  ghost predicate Gone(s: State, id: nat) {
    forall i :: 0 <= i < |s.ring| ==> s.ring[i].id != id
  }

  predicate Reuses(op: Op, id: nat) {
    op.Create? && op.proc.id == id
  }

  /** A process that exits is dead and no longer running. */
  lemma ExitDies(s: State)
    requires Inv(s) && s.ring[0].id != IDLE
    ensures Dying(Step(s, Exit), s.ring[0].id)
  {
    hide Schedule;
    var dying := s.ring[0].(dead := true);
    var ring0 := s.ring[0 := dying];
    MarkHead(s.ring, dying);
    ScheduleCorrect(ring0, s.ticks);
    var r := Step(s, Exit).ring;
    forall i | 0 <= i < |r| && r[i].id == dying.id ensures i > 0 && r[i].dead {
      assert r[i] in r && ring0[0] in ring0;
      SameId(ring0, r[i], dying);
    }
  }

  /** A schedule with a head of another id reaps it. */
  lemma ScheduleReaps(ring: seq<Proc>, ticks: nat, id: nat)
    requires ring != [] && Distinct(ring) && HasIdle(ring)
    requires forall i :: 0 <= i < |ring| && ring[i].id == id ==> i > 0 && ring[i].dead
    ensures forall i :: 0 <= i < |Schedule(ring, ticks)| ==> Schedule(ring, ticks)[i].id != id
  {
    hide Schedule;
    ScheduleCorrect(ring, ticks);
    var r := Schedule(ring, ticks);
    forall i | 0 <= i < |r| ensures r[i].id != id {
      assert r[i] in r;
      var j :| 0 <= j < |ring| && ring[j] == r[i];
    }
  }

  lemma DyingStep(s: State, op: Op, id: nat)
    requires Inv(s) && Legal(s, op) && Dying(s, id) && !Reuses(op, id)
    ensures Dying(Step(s, op), id)
    ensures !op.Create? && !op.Tick? ==> Gone(Step(s, op), id)
    ensures Gone(s, id) ==> Gone(Step(s, op), id)
  {
    hide Schedule, Distinct, HasIdle;
    match op
    case Create(p) =>
      var r := Push(s.ring, p);
      assert forall i :: 0 <= i < |r| ==> r[i] == if i == 0 then s.ring[0] else if i == 1 then p else s.ring[i - 1];
    case Tick =>
    case Yield => ScheduleReaps(s.ring, s.ticks, id);
    case Sleep(ms) =>
      var p := s.ring[0].(wakeAt := (s.ticks + ms) % WORD);
      MarkHead(s.ring, p);
      ScheduleReaps(s.ring[0 := p], s.ticks, id);
    case Exit =>
      var p := s.ring[0].(dead := true);
      MarkHead(s.ring, p);
      ScheduleReaps(s.ring[0 := p], s.ticks, id);
  }

  lemma {:induction false} DyingRun(s: State, ops: seq<Op>, id: nat)
    requires Inv(s) && LegalRun(s, ops) && Dying(s, id) && forall op :: op in ops ==> !Reuses(op, id)
    ensures Schedules(ops) > 0 || Gone(s, id) ==> Gone(Run(s, ops), id)
    decreases |ops|
  {
    hide Step, Inv, Dying;
    if ops == [] {
      assert Run(s, ops) == s;
    } else {
      StepCorrect(s, ops[0]);
      DyingStep(s, ops[0], id);
      DyingRun(Step(s, ops[0]), ops[1..], id);
    }
  }

  /** Whatever is created and however the clock ticks in between, after the next scheduling step of any kind an exited
      process is gone, and it stays gone as long as its id is not given to a new process. */
  lemma ExitedIsReaped(s: State, ops: seq<Op>)
    requires Inv(s) && s.ring[0].id != IDLE && LegalRun(Step(s, Exit), ops) && Schedules(ops) > 0
    requires forall op :: op in ops ==> !Reuses(op, s.ring[0].id)
    ensures Gone(Run(Step(s, Exit), ops), s.ring[0].id)
  {
    StepCorrect(s, Exit);
    ExitDies(s);
    DyingRun(Step(s, Exit), ops, s.ring[0].id);
  }
}

/** The round-robin scheduler of kernel/sys/sched.c. */
module Sched {
  import opened Words

  const SLOTS := 256
  const QUANTUM := 20
  const TURN := 21

  // ---------- the scheduler on values ----------

  /** How many tasks there are, which is current (the slot count while there is none), and what its quantum has left. */
  datatype SchedState = SchedState(tasks: nat, current: nat, quantum: nat)

  /** Tasks fill a prefix of the table, and the current one, if any, is among them. */
  predicate Ready(s: SchedState) {
    && 0 < s.tasks <= SLOTS && s.quantum <= QUANTUM
    && (s.current < s.tasks || (s.current == SLOTS && s.quantum == 0))
  }

  /** The slot after the current one if it holds a task, else the first. */
  function NextIndex(s: SchedState): nat {
    if s.current + 1 < s.tasks then s.current + 1 else 0
  }

  /** `sched_schedule`: one timer tick. */
  function Tick(s: SchedState): SchedState {
    if s.quantum > 0 then s.(quantum := s.quantum - 1)
    else s.(current := NextIndex(s), quantum := QUANTUM)
  }

  /** `sched_new_task` as far as the table goes: a full table takes no more. */
  function Spawn(s: SchedState): SchedState {
    if s.tasks < SLOTS then s.(tasks := s.tasks + 1) else s
  }

  datatype Event = Timer | NewTask

  function Step(s: SchedState, e: Event): SchedState {
    match e
    case Timer => Tick(s)
    case NewTask => Spawn(s)
  }

  function Run(s: SchedState, events: seq<Event>): SchedState
    decreases |events|
  {
    if events == [] then s else Run(Step(s, events[0]), events[1..])
  }

  function Ticks(events: seq<Event>): nat {
    if events == [] then 0 else (if events[0] == Timer then 1 else 0) + Ticks(events[1..])
  }

  // ---------- exact fairness ----------

  function TickMany(s: SchedState, t: nat): SchedState {
    if t == 0 then s else Tick(TickMany(s, t - 1))
  }

  /** The state before the first tick, with n tasks in the table. */
  function Start(n: nat): SchedState { SchedState(n, SLOTS, 0) }

  /** One tick from place m of turn q. */
  lemma TickWithin(n: nat, q: nat, m: nat)
    requires 0 < n && m <= QUANTUM
    ensures Tick(SchedState(n, q % n, QUANTUM - m)) ==
      if m == QUANTUM then SchedState(n, (q + 1) % n, QUANTUM) else SchedState(n, q % n, QUANTUM - (m + 1))
  {
    NextTurn(q, n);
  }

  lemma {:induction false} ClosedFormFrom(n: nat, r: nat)
    requires 0 < n <= SLOTS
    ensures TickMany(Start(n), r + 1) == SchedState(n, r / TURN % n, QUANTUM - r % TURN)
  {
    if r == 0 {
      assert TickMany(Start(n), 0) == Start(n);
    } else {
      var p := r - 1;
      ClosedFormFrom(n, p);
      TickWithin(n, p / TURN, p % TURN);
      NextTick(p);
    }
  }

  /** With n tasks fixed, who runs after t ticks, and for how long still, is a closed form. */
  lemma ClosedForm(n: nat, t: nat)
    requires 0 < n <= 256 && 1 <= t
    ensures TickMany(Start(n), t) == SchedState(n, (t - 1) / 21 % n, 20 - (t - 1) % 21)
  {
    ClosedFormFrom(n, t - 1);
  }

  /** The turn and the place within it, one tick later. */
  lemma NextTick(r: nat)
    ensures (r + 1) / TURN == if r % TURN == QUANTUM then r / TURN + 1 else r / TURN
    ensures (r + 1) % TURN == if r % TURN == QUANTUM then 0 else r % TURN + 1
  {
  }

  lemma NextTurn(q: nat, n: nat)
    requires 0 < n
    ensures (q + 1) % n == if q % n + 1 < n then q % n + 1 else 0
  {
    var k := q / n;
    assert q == k * n + q % n;
    if q % n + 1 < n {
      DivisionIs(q + 1, n, k, q % n + 1);
    } else {
      assert q + 1 == (k + 1) * n;
      DivisionIs(q + 1, n, k + 1, 0);
    }
  }

  // ---------- bounded waiting ----------

  /** Switches still to be made, at most, before the switch to slot j: once around the whole table. */
  function Hops(s: SchedState, j: nat): nat
    requires j < SLOTS
  {
    if s.current == SLOTS then j
    else if s.current < j then j - s.current - 1
    else if s.current < SLOTS then SLOTS - 1 - s.current + j else 0
  }

  /** Ticks that may still pass before the tick that switches to slot j. */
  function Wait(s: SchedState, j: nat): nat
    requires j < SLOTS
  {
    s.quantum + TURN * Hops(s, j)
  }

  lemma WaitBound(s: SchedState, j: nat)
    requires Ready(s) && j < SLOTS
    ensures Wait(s, j) < SLOTS * TURN
  {
    assert Hops(s, j) <= SLOTS - 1;
  }

  /** A tick either switches to slot j or brings that switch nearer. */
  lemma TickApproaches(s: SchedState, j: nat)
    requires Ready(s) && j < s.tasks
    ensures Ready(Tick(s))
    ensures Wait(Tick(s), j) < Wait(s, j) || (Tick(s).current == j && Tick(s).quantum == QUANTUM)
  {
  }

  /** A new task delays nobody beyond the bound. */
  lemma SpawnKeepsWait(s: SchedState, j: nat)
    requires Ready(s) && j < s.tasks
    ensures Ready(Spawn(s)) && j < Spawn(s).tasks && Wait(Spawn(s), j) == Wait(s, j)
  {
  }

  /** Slot j is switched to at some tick of the run. */
  ghost predicate Served(s: SchedState, events: seq<Event>, j: nat) {
    exists i :: 0 <= i < |events| && events[i] == Timer
      && Run(s, events[..i]).quantum == 0 && Run(s, events[..i + 1]).current == j
  }

  lemma {:induction false} RunKeepsReady(s: SchedState, events: seq<Event>)
    requires Ready(s)
    ensures Ready(Run(s, events)) && s.tasks <= Run(s, events).tasks
    decreases |events|
  {
    if events != [] {
      RunKeepsReady(Step(s, events[0]), events[1..]);
    }
  }

  lemma ServedLater(s: SchedState, events: seq<Event>, j: nat)
    requires events != [] && Served(Step(s, events[0]), events[1..], j)
    ensures Served(s, events, j)
  {
    var t, rest := Step(s, events[0]), events[1..];
    var i :| 0 <= i < |rest| && rest[i] == Timer && Run(t, rest[..i]).quantum == 0
      && Run(t, rest[..i + 1]).current == j;
    assert events[..i + 1][1..] == rest[..i] && events[..i + 2][1..] == rest[..i + 1];
    assert events[i + 1] == rest[i] && Run(s, events[..i + 1]).quantum == 0 && Run(s, events[..i + 2]).current == j;
  }

  lemma {:induction false} ServedWithin(s: SchedState, events: seq<Event>, j: nat)
    requires Ready(s) && j < s.tasks && Wait(s, j) < Ticks(events)
    ensures Served(s, events, j)
    decreases |events|
  {
    if events != [] {
      var t := Step(s, events[0]);
      if events[0] == Timer {
        TickApproaches(s, j);
        if s.quantum == 0 && t.current == j {
          assert events[..0] == [] && events[..1] == [events[0]];
          assert Run(s, events[..1]) == Run(t, []);
          assert Run(s, events[..0]).quantum == 0 && Run(s, events[..0 + 1]).current == j;
          return;
        }
      } else {
        SpawnKeepsWait(s, j);
      }
      ServedWithin(t, events[1..], j);
      ServedLater(s, events, j);
    }
  }

  /**
   * Bounded waiting: from any reachable state, whatever tasks are created meanwhile, every task in the table is
   * switched to within 256 turns of 21 ticks.
   */
  lemma BoundedWaiting(s: SchedState, events: seq<Event>, j: nat)
    requires Ready(s) && j < s.tasks && 256 * 21 <= Ticks(events)
    ensures Served(s, events, j)
  {
    WaitBound(s, j);
    ServedWithin(s, events, j);
  }

  /** The bound is met: once its turn is over, the current task of a full table waits for all the other 255 turns. */
  lemma BoundIsTight(s: SchedState, t: nat)
    requires s == SchedState(256, s.current, 20) && s.current < 256 && 21 <= t < 256 * 21
    ensures TickMany(s, t).current != s.current
    ensures TickMany(s, 256 * 21) == s
  {
    FullRound(s, t);
    FullRound(s, SLOTS * TURN);
    NoReturn(s.current, t / TURN);
  }

  /** Ticks from the start of a turn in a full table. */
  lemma {:induction false} FullRound(s: SchedState, t: nat)
    requires s == SchedState(SLOTS, s.current, QUANTUM) && s.current < SLOTS
    ensures TickMany(s, t) == SchedState(SLOTS, (s.current + t / TURN) % SLOTS, QUANTUM - t % TURN)
  {
    if t > 0 {
      FullRound(s, t - 1);
      var r := t - 1;
      NextTick(r);
      NextTurn(s.current + r / TURN, SLOTS);
    }
  }

  lemma NoReturn(c: nat, q: nat)
    requires c < SLOTS && 0 < q < SLOTS
    ensures (c + q) % SLOTS != c
  {
  }

  // ---------- the scheduler in memory ----------

  class Task {
    const pid: Word
    const quantum: Word

    constructor (pid: Word, quantum: Word)
      ensures this.pid == pid && this.quantum == quantum
    {
      this.pid, this.quantum := pid, quantum;
    }
  }

  class Scheduler {
    /** `sched_tasks`. */
    const tasks: array<Task?>
    /** `current_task`. */
    var current: Task?
    /** `sched_quantum` and `sched_pid`. */
    var quantum: nat
    var pid: Word
    /** How many slots are taken, and the slot of the current task. */
    ghost var count: nat
    ghost var index: nat

    ghost function State(): SchedState
      reads this
    {
      SchedState(count, index, quantum)
    }

    /** The table is a prefix of distinct tasks, every one with a quantum of 20, followed by nulls. */
    ghost predicate Valid()
      reads this, tasks
    {
      && tasks.Length == SLOTS && count <= SLOTS && quantum <= QUANTUM
      && (forall i :: 0 <= i < count ==> tasks[i] != null && tasks[i].quantum == QUANTUM)
      && (forall i :: count <= i < SLOTS ==> tasks[i] == null)
      && (forall i, j :: 0 <= i < j < count ==> tasks[i] != tasks[j])
      && (if current == null then index == SLOTS && quantum == 0 else index < count && tasks[index] == current)
    }

    /** `sched_install`: an empty table that receives the idle task. */
    constructor ()
      ensures Valid() && fresh(tasks) && State() == Start(1) && tasks[0].pid == 0 && pid == 0
    {
      tasks := new Task?[SLOTS](_ => null);
      current, quantum, pid := null, 0, 0;
      count, index := 0, SLOTS;
      new;
      var idle := NewTask(true);
    }

    /** `sched_new_task`: a full table refuses the task, which has its pid all the same. */
    method NewTask(isIdle: bool) returns (r: Task?)
      requires Valid()
      modifies this`count, this`pid, tasks
      ensures Valid() && State() == Spawn(old(State()))
      ensures r == null <==> old(count) == SLOTS
      ensures r != null ==> fresh(r) && tasks[old(count)] == r && r.pid == if isIdle then 0 else old(pid)
      ensures pid == if isIdle then old(pid) else Wrap32(old(pid) + 1)
      ensures forall i :: 0 <= i < SLOTS && i != old(count) ==> tasks[i] == old(tasks[i])
    {
      var task := new Task(if isIdle then 0 else pid, QUANTUM);
      if !isIdle {
        pid := Wrap32(pid + 1);
      }
      for i := 0 to SLOTS
        invariant i <= count && Valid() && count == old(count)
        invariant forall j :: 0 <= j < SLOTS ==> tasks[j] == old(tasks[j])
      {
        if tasks[i] == null {
          tasks[i] := task;
          count := count + 1;
          return task;
        }
      }
      return null;
    }

    /** `sched_get_next_task`. */
    method GetNextTask() returns (r: Task?)
      requires Valid() && 0 < count
      ensures r == tasks[NextIndex(State())]
    {
      for i := 0 to SLOTS - 1
        invariant forall j :: 0 <= j < i ==> !(tasks[j] == current && tasks[j + 1] != null)
      {
        if tasks[i] == current && tasks[i + 1] != null {
          return tasks[i + 1];
        }
      }
      return tasks[0];
    }

    /** `sched_schedule`, without the register context and the timer hardware. */
    method Schedule()
      requires Valid() && 0 < count
      modifies this`current, this`quantum, this`index
      ensures Valid() && State() == Tick(old(State())) && current == (if index == SLOTS then null else tasks[index])
    {
      if quantum > 0 {
        quantum := quantum - 1;
        return;
      }
      ghost var next := NextIndex(State());
      current := GetNextTask();
      index := next;
      quantum := current.quantum;
    }
  }
}

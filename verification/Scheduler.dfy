/** The sixteen-slot round-robin scheduler of Ass3/schedule.c: timer ticks, sleep,
    clone and exit. Slot 0 is the swapper, which runs when nothing else can. */
module Scheduler {

  const SLOTS := 16
  const U32 := 0x1_0000_0000

  type Slot = i: int | 0 <= i < 16

  datatype State = UNUSED | NEW | READY | RUNNING | WAITING | EXITING

  /** ticks holds each slot's u32 ticks_to_sleep; halted is set by the shutdown call,
      which does not come back. */
  datatype Table = Table(state: seq<State>, ticks: seq<int>, cur: int, halted: bool)

  predicate Formed(s: Table) {
    && |s.state| == SLOTS && |s.ticks| == SLOTS && 0 <= s.cur < SLOTS
    && forall i :: 0 <= i < SLOTS ==> 0 <= s.ticks[i] < U32
  }

  // ---------- the steps ----------

  function Dec(c: int): int {
    (c - 1) % U32
  }

  /** Every counter goes down by one; a counter that reaches one makes its slot ready. */
  function Age(s: Table): (r: Table)
    requires Formed(s)
    ensures Formed(r) && r.cur == s.cur && r.halted == s.halted
    ensures forall i :: 0 <= i < SLOTS ==>
      r.ticks[i] == Dec(s.ticks[i]) && r.state[i] == if Dec(s.ticks[i]) == 1 then READY else s.state[i]
  {
    s.(ticks := seq(SLOTS, i requires 0 <= i < SLOTS => Dec(s.ticks[i])),
       state := seq(SLOTS, i requires 0 <= i < SLOTS => if Dec(s.ticks[i]) == 1 then READY else s.state[i]))
  }

  predicate AnyIn(state: seq<State>, lo: nat, x: State)
    requires |state| == SLOTS
  {
    exists i :: lo <= i < SLOTS && state[i] == x
  }

  /** The first ready slot i, i + 1, ... places after cur, passing over the swapper;
      -1 if the fifteen places hold none. */
  function NextFrom(state: seq<State>, cur: int, i: int): (r: int)
    requires |state| == SLOTS && 1 <= i <= SLOTS
    ensures r == -1 || 1 <= r < SLOTS
    decreases SLOTS - i
  {
    if i == SLOTS then -1
    else
      var j := (cur + i) % SLOTS;
      if j != 0 && state[j] == READY then j else NextFrom(state, cur, i + 1)
  }

  lemma NextPlace(state: seq<State>, cur: int, i: int)
    requires |state| == SLOTS && 1 <= i <= SLOTS
    ensures NextFrom(state, cur, i) ==
      if i == SLOTS then -1
      else if (cur + i) % SLOTS != 0 && state[(cur + i) % SLOTS] == READY then (cur + i) % SLOTS
      else NextFrom(state, cur, i + 1)
  {
  }

  function Next(state: seq<State>, cur: int): (r: int)
    requires |state| == SLOTS
    ensures r == -1 || 1 <= r < SLOTS
  {
    NextFrom(state, cur, 1)
  }

  /** Where sleep and exit go: the next ready slot, or the swapper. */
  function Target(state: seq<State>, cur: int): (r: int)
    requires |state| == SLOTS
    ensures 0 <= r < SLOTS
  {
    if Next(state, cur) == -1 then 0 else Next(state, cur)
  }

  function Tick(s: Table): Table
    requires Formed(s)
  {
    var a := Age(s);
    var next := Next(a.state, s.cur);
    if next == -1 then
      if !AnyIn(a.state, 0, WAITING) && s.cur == 0 then a.(halted := true) else a
    else
      a.(ticks := a.ticks[next := 0], state := a.state[s.cur := READY][next := RUNNING], cur := next)
  }

  function Sleep(s: Table, n: nat): Table
    requires Formed(s)
  {
    var next := Target(s.state, s.cur);
    s.(ticks := s.ticks[s.cur := (n + 1) % U32], state := s.state[s.cur := WAITING][next := RUNNING], cur := next)
  }

  predicate AllUnused(state: seq<State>)
    requires |state| == SLOTS
  {
    forall i :: 1 <= i < SLOTS ==> state[i] == UNUSED
  }

  function Exit(s: Table): Table
    requires Formed(s)
  {
    if s.cur == 0 then s.(halted := true)
    else
      var state := s.state[s.cur := UNUSED];
      var next := Target(state, s.cur);
      if AllUnused(state) then s.(state := state, halted := true)
      else s.(state := state[next := RUNNING], cur := next)
  }

  /** slot is the unused one the context allocator hands out. */
  function Clone(s: Table, slot: Slot): Table
    requires Formed(s)
  {
    s.(ticks := s.ticks[slot := s.ticks[s.cur]], state := s.state[slot := READY])
  }

  // ---------- choosing the next slot ----------

  /** How far round the ring b is from a. */
  function Dist(a: int, b: int): int {
    (b - a) % SLOTS
  }

  lemma PlaceAt(cur: int, i: int)
    requires 0 <= cur < SLOTS && 1 <= i < SLOTS
    ensures var j := (cur + i) % SLOTS; 0 <= j < SLOTS && j != cur && Dist(cur, j) == i
  {
  }

  lemma DistPlace(cur: int, p: int)
    requires 0 <= cur < SLOTS && 0 <= p < SLOTS && p != cur
    ensures 1 <= Dist(cur, p) < SLOTS && (cur + Dist(cur, p)) % SLOTS == p
  {
  }

  ghost predicate Candidate(state: seq<State>, cur: int, p: int)
    requires |state| == SLOTS
  {
    1 <= p < SLOTS && p != cur && state[p] == READY
  }

  /** From place i on: the nearest candidate, or -1 if there is none. */
  lemma {:induction false} NextFromNearest(state: seq<State>, cur: int, i: int)
    requires |state| == SLOTS && 0 <= cur < SLOTS && 1 <= i <= SLOTS
    ensures var r := NextFrom(state, cur, i);
      && (r == -1 || (Candidate(state, cur, r) && Dist(cur, r) >= i))
      && forall p :: Candidate(state, cur, p) && Dist(cur, p) >= i ==> r != -1 && Dist(cur, r) <= Dist(cur, p)
    decreases SLOTS - i
  {
    if i < SLOTS {
      PlaceAt(cur, i);
      NextFromNearest(state, cur, i + 1);
      forall p | Candidate(state, cur, p) && Dist(cur, p) == i ensures p == (cur + i) % SLOTS {
        DistPlace(cur, p);
      }
    }
  }

  /** The slot chosen is the nearest ready one after the current; -1 only if no
      process is ready. The swapper is never chosen this way. */
  lemma NextNearest(state: seq<State>, cur: int)
    requires |state| == SLOTS && 0 <= cur < SLOTS
    ensures var r := Next(state, cur);
      && (r == -1 || Candidate(state, cur, r))
      && forall p :: Candidate(state, cur, p) ==> r != -1 && Dist(cur, r) <= Dist(cur, p)
  {
    NextFromNearest(state, cur, 1);
    forall p | Candidate(state, cur, p) ensures Dist(cur, p) >= 1 {
      DistPlace(cur, p);
    }
  }

  // ---------- runs ----------

  datatype Op = TickOp | SleepOp(n: nat) | ExitOp | CloneOp(slot: Slot)

  function Step(s: Table, op: Op): Table
    requires Formed(s)
  {
    match op
    case TickOp => Tick(s)
    case SleepOp(n) => Sleep(s, n)
    case ExitOp => Exit(s)
    case CloneOp(slot) => Clone(s, slot)
  }

  /** System calls come from processes, not the swapper; a clone gets an unused slot;
      nothing follows the shutdown. */
  predicate Legal(s: Table, op: Op)
    requires Formed(s)
  {
    && !s.halted
    && (op.TickOp? || s.cur != 0)
    && (op.SleepOp? ==> op.n < U32)
    && (op.CloneOp? ==> op.slot != 0 && s.state[op.slot] == UNUSED)
  }

  lemma StepFormed(s: Table, op: Op)
    requires Formed(s) && Legal(s, op)
    ensures Formed(Step(s, op))
  {
  }

  function Weight(op: Op): nat {
    if op.TickOp? then 1 else 0
  }

  // ---------- the invariant ----------

  /** A counter nobody has set since it passed zero, t ticks into the run. */
  predicate Low(c: int, t: nat) {
    0 <= c <= 1 || U32 - t <= c < U32
  }

  /** Exactly one slot is running and it is the current one; the swapper runs only
      when no process is ready; no counter but a sleeper's is about to reach one. */
  ghost predicate Inv(s: Table, t: nat) {
    && Formed(s) && !s.halted
    && (forall i :: 0 <= i < SLOTS ==> (s.state[i] == RUNNING <==> i == s.cur))
    && (forall i :: 0 <= i < SLOTS ==> s.state[i] in {UNUSED, READY, RUNNING, WAITING})
    && s.state[0] in {READY, RUNNING}
    && (s.cur == 0 ==> forall i :: 1 <= i < SLOTS ==> s.state[i] != READY)
    && (forall i :: 0 <= i < SLOTS && s.state[i] != WAITING ==> Low(s.ticks[i], t))
  }

  /** No process can ever run again. */
  ghost predicate Over(s: Table) {
    |s.state| == SLOTS && forall i :: 1 <= i < SLOTS ==> s.state[i] == UNUSED
  }

  ghost predicate Sound(s: Table, t: nat) {
    Inv(s, t) || (s.halted && Over(s))
  }

  /** Before the wrap a tick wakes sleepers at the end of their sleep, and no other slot. */
  lemma AgeWakes(s: Table, t: nat)
    requires Inv(s, t) && t <= U32 - 3
    ensures var a := Age(s);
      && (forall i :: 0 <= i < SLOTS ==>
           a.state[i] == if s.state[i] == WAITING && s.ticks[i] == 2 then READY else s.state[i])
      && (forall i :: 0 <= i < SLOTS && a.state[i] != WAITING ==> Low(a.ticks[i], t + 1))
  {
    var a := Age(s);
    forall i | 0 <= i < SLOTS
      ensures a.state[i] == if s.state[i] == WAITING && s.ticks[i] == 2 then READY else s.state[i]
      ensures a.state[i] != WAITING ==> Low(a.ticks[i], t + 1)
    {
      DecIs(s.ticks[i]);
    }
  }

  lemma DecIs(c: int)
    requires 0 <= c < U32
    ensures Dec(c) == if c == 0 then U32 - 1 else c - 1
  {
  }

  /** A switch from the running slot, which becomes x, to the slot to. */
  lemma Switched(s: Table, t: nat, state: seq<State>, ticks: seq<int>, to: int, x: State, s': Table)
    requires Formed(s) && |state| == SLOTS && |ticks| == SLOTS && 0 <= to < SLOTS && to != s.cur
    requires forall i :: 0 <= i < SLOTS ==> state[i] == RUNNING ==> i == s.cur
    requires forall i :: 0 <= i < SLOTS ==> state[i] in {UNUSED, READY, RUNNING, WAITING}
    requires state[0] in {READY, RUNNING}
    requires s.cur == 0 ==> x == READY
    requires x in {UNUSED, READY, WAITING}
    requires forall i :: 0 <= i < SLOTS ==> 0 <= ticks[i] < U32
    requires forall i :: 0 <= i < SLOTS && state[s.cur := x][i] != WAITING ==> Low(ticks[i], t)
    requires state[to] == READY
    requires to == 0 ==> x != READY && forall i :: 1 <= i < SLOTS && i != s.cur ==> state[i] != READY
    requires s' == Table(state[s.cur := x][to := RUNNING], ticks, to, s.halted) && !s.halted
    ensures Inv(s', t)
  {
  }

  lemma TickKeeps(s: Table, t: nat)
    requires Inv(s, t) && t <= U32 - 3
    ensures Sound(Tick(s), t + 1)
  {
    AgeWakes(s, t);
    var a := Age(s);
    NextNearest(a.state, s.cur);
    var next := Next(a.state, s.cur);
    if next == -1 {
      forall i | 1 <= i < SLOTS && s.cur == 0 ensures a.state[i] != READY {
        assert !Candidate(a.state, s.cur, i);
      }
      hide Next, Age, Low;
    } else {
      hide Next, Age, NextFrom;
      assert Candidate(a.state, s.cur, next);
      Switched(s, t + 1, a.state, a.ticks[next := 0], next, READY, Tick(s));
    }
  }

  lemma TargetReady(state: seq<State>, cur: int)
    requires |state| == SLOTS && 1 <= cur < SLOTS
    ensures var to := Target(state, cur);
      && to != cur && (to != 0 ==> state[to] == READY)
      && (to == 0 ==> forall i :: 1 <= i < SLOTS && i != cur ==> state[i] != READY)
  {
    NextNearest(state, cur);
    hide Next;
    assert forall i :: 1 <= i < SLOTS && i != cur && state[i] == READY ==> Candidate(state, cur, i);
  }

  lemma SleepKeeps(s: Table, t: nat, n: nat)
    requires Inv(s, t) && s.cur != 0
    ensures Inv(Sleep(s, n), t)
  {
    TargetReady(s.state, s.cur);
    hide Target;
    Switched(s, t, s.state, s.ticks[s.cur := (n + 1) % U32], Target(s.state, s.cur), WAITING, Sleep(s, n));
  }

  lemma ExitKeeps(s: Table, t: nat)
    requires Inv(s, t) && s.cur != 0
    ensures Sound(Exit(s), t)
  {
    var state := s.state[s.cur := UNUSED];
    TargetReady(state, s.cur);
    hide Target;
    if !AllUnused(state) {
      Switched(s, t, state, s.ticks, Target(state, s.cur), UNUSED, Exit(s));
    }
  }

  lemma CloneKeeps(s: Table, t: nat, slot: Slot)
    requires Inv(s, t) && s.cur != 0 && slot != 0 && s.state[slot] == UNUSED
    ensures Inv(Clone(s, slot), t)
  {
  }

  lemma StepKeeps(s: Table, t: nat, op: Op)
    requires Inv(s, t) && Legal(s, op) && t + Weight(op) <= U32 - 2
    ensures Sound(Step(s, op), t + Weight(op))
  {
    hide Inv, Over, Tick, Sleep, Exit, Clone;
    match op
    case TickOp => TickKeeps(s, t);
    case SleepOp(n) => SleepKeeps(s, t, n);
    case ExitOp => ExitKeeps(s, t);
    case CloneOp(slot) => CloneKeeps(s, t, slot);
  }

  function Run(s: Table, ops: seq<Op>): (r: Table)
    requires Formed(s) && RunLegal(s, ops)
    ensures Formed(r)
    decreases |ops|
  {
    if |ops| == 0 then s
    else
      StepFormed(s, ops[0]);
      Run(Step(s, ops[0]), ops[1..])
  }

  predicate RunLegal(s: Table, ops: seq<Op>)
    requires Formed(s)
    decreases |ops|
  {
    |ops| == 0 ||
    (Legal(s, ops[0]) && (StepFormed(s, ops[0]); RunLegal(Step(s, ops[0]), ops[1..])))
  }

  /** How many timer ticks a run holds. */
  function Ticks(ops: seq<Op>): nat {
    if |ops| == 0 then 0 else Weight(ops[0]) + Ticks(ops[1..])
  }

  /** The run ends sound, t ticks having passed before it. */
  ghost predicate EndsSound(s: Table, t: nat, ops: seq<Op>)
    requires Formed(s) && RunLegal(s, ops)
  {
    Sound(Run(s, ops), t + Ticks(ops))
  }

  lemma EndsAsRest(s: Table, t: nat, ops: seq<Op>)
    requires Formed(s) && RunLegal(s, ops) && |ops| > 0
    ensures Legal(s, ops[0]) && Formed(Step(s, ops[0])) && RunLegal(Step(s, ops[0]), ops[1..])
    ensures Ticks(ops) == Weight(ops[0]) + Ticks(ops[1..])
    ensures EndsSound(Step(s, ops[0]), t + Weight(ops[0]), ops[1..]) ==> EndsSound(s, t, ops)
  {
    FirstStep(s, ops);
    hide Sound, Step, Legal, Run, RunLegal, Formed;
  }

  lemma HaltedSound(s: Table, t: nat, ops: seq<Op>)
    requires Sound(s, t) && !Inv(s, t) && Formed(s) && RunLegal(s, ops)
    ensures EndsSound(s, t, ops)
  {
    HaltedEnds(s, ops);
    NoStep(s, ops);
  }

  /** Every run of up to 2^32 - 2 ticks: one slot is running and it is the current
      one, until the shutdown, which comes only when every process has gone. */
  lemma {:induction false} RunKeeps(s: Table, t: nat, ops: seq<Op>)
    requires Inv(s, t) && RunLegal(s, ops) && t + Ticks(ops) <= U32 - 2
    ensures EndsSound(s, t, ops)
    decreases |ops|
  {
    assert Formed(s);
    if |ops| == 0 {
      NoStep(s, ops);
    } else {
      hide Inv, Sound, Step, Legal, Formed, RunLegal, Run, Ticks, EndsSound, Weight;
      EndsAsRest(s, t, ops);
      StepKeeps(s, t, ops[0]);
      var s1 := Step(s, ops[0]);
      if Inv(s1, t + Weight(ops[0])) {
        RunKeeps(s1, t + Weight(ops[0]), ops[1..]);
      } else {
        HaltedSound(s1, t + Weight(ops[0]), ops[1..]);
      }
    }
  }

  lemma FirstStep(s: Table, ops: seq<Op>)
    requires Formed(s) && RunLegal(s, ops) && |ops| > 0
    ensures Legal(s, ops[0]) && Formed(Step(s, ops[0])) && RunLegal(Step(s, ops[0]), ops[1..])
    ensures Run(s, ops) == Run(Step(s, ops[0]), ops[1..]) && Ticks(ops) == Weight(ops[0]) + Ticks(ops[1..])
  {
    hide Step, Legal;
    StepFormed(s, ops[0]);
  }

  lemma NoStep(s: Table, ops: seq<Op>)
    requires Formed(s) && RunLegal(s, ops) && |ops| == 0
    ensures Run(s, ops) == s && Ticks(ops) == 0
  {
  }

  lemma HaltedEnds(s: Table, ops: seq<Op>)
    requires Formed(s) && s.halted && RunLegal(s, ops)
    ensures |ops| == 0
  {
  }

  /** The table at boot: process 1 running, the swapper ready, nothing else. */
  function Boot(): (s: Table)
    ensures Formed(s) && Inv(s, 0)
  {
    Table([READY, RUNNING] + seq(14, _ => UNUSED), seq(SLOTS, _ => 0), 1, false)
  }

  // ---------- sleeping, and being unused ----------

  /** How many ticks a counter takes to come down to one, past zero if it must. */
  function WakeIn(c: int): int {
    if c <= 1 then c + U32 - 1 else c - 1
  }

  /** The tick on which a sleep of n ends: its counter starts at n + 1 in 32 bits. */
  function WakeTick(n: nat): int {
    WakeIn((n + 1) % U32)
  }

  /** A slot, asleep or unused, k ticks after its counter was c. */
  predicate Dormant(s: Table, p: Slot, x: State, c: int, k: nat)
    requires Formed(s)
  {
    (x == WAITING || x == UNUSED) && s.state[p] == x && p != s.cur && s.ticks[p] == (c - k) % U32
  }

  lemma CounterAt(c: int, k: nat)
    requires 0 <= c < U32 && k < WakeIn(c)
    ensures Dec((c - k) % U32) == (c - (k + 1)) % U32
    ensures Dec((c - k) % U32) == 1 <==> k + 1 == WakeIn(c)
  {
  }

  /** p is not current, and is asleep or unused. */
  predicate Idle(s: Table, p: Slot)
    requires Formed(s)
  {
    p != 0 && p != s.cur && s.state[p] in {WAITING, UNUSED}
  }

  lemma TickLeaves(s: Table, p: Slot)
    requires Formed(s) && Idle(s, p)
    ensures Formed(Tick(s))
    ensures Dec(s.ticks[p]) == 1 ==> Tick(s).state[p] in {READY, RUNNING}
    ensures Dec(s.ticks[p]) != 1 ==>
      Tick(s).state[p] == s.state[p] && Tick(s).ticks[p] == Dec(s.ticks[p]) && Tick(s).cur != p
  {
    StepFormedTick(s);
    NextNearest(Age(s).state, s.cur);
    hide Next, Dec, Dist;
  }

  lemma CallLeaves(s: Table, op: Op, p: Slot)
    requires Formed(s) && Idle(s, p) && Legal(s, op) && op != TickOp && op != CloneOp(p)
    ensures Formed(Step(s, op))
    ensures Step(s, op).state[p] == s.state[p] && Step(s, op).ticks[p] == s.ticks[p] && Step(s, op).cur != p
  {
    StepFormed(s, op);
    NextNearest(s.state, s.cur);
    NextNearest(s.state[s.cur := UNUSED], s.cur);
    hide Next, Dist, Formed;
  }

  /** Nothing but a tick touches a sleeper, or an unused slot that is not cloned; and
      a tick wakes it exactly when its counter comes down to one. */
  lemma StepDormant(s: Table, op: Op, p: Slot, x: State, c: int, k: nat)
    requires Formed(s) && Legal(s, op) && p != 0 && 0 <= c < U32 && k < WakeIn(c) && Dormant(s, p, x, c, k)
    requires op != CloneOp(p)
    ensures Formed(Step(s, op))
    ensures k + Weight(op) < WakeIn(c) ==> Dormant(Step(s, op), p, x, c, k + Weight(op))
    ensures k + Weight(op) == WakeIn(c) ==> op == TickOp && Step(s, op).state[p] in {READY, RUNNING}
  {
    StepFormed(s, op);
    CounterAt(c, k);
    hide WakeIn, Dec, Formed, Tick, Sleep, Exit, Clone;
    if op == TickOp {
      TickLeaves(s, p);
    } else {
      CallLeaves(s, op, p);
    }
  }

  predicate NotCloned(ops: seq<Op>, p: Slot) {
    CloneOp(p) !in ops
  }

  lemma NotClonedRest(ops: seq<Op>, p: Slot)
    requires NotCloned(ops, p) && |ops| > 0
    ensures ops[0] != CloneOp(p) && NotCloned(ops[1..], p)
  {
  }

  /** Through any run that does not clone it, p is dormant until as many ticks have
      passed as its counter takes. */
  lemma {:induction false} DormantThrough(s: Table, ops: seq<Op>, p: Slot, x: State, c: int, k: nat)
    requires Formed(s) && RunLegal(s, ops) && NotCloned(ops, p) && p != 0 && 0 <= c < U32
    requires Dormant(s, p, x, c, k) && k + Ticks(ops) < WakeIn(c)
    ensures Dormant(Run(s, ops), p, x, c, k + Ticks(ops))
    decreases |ops|
  {
    hide Step, Legal, Formed, Dormant, WakeIn, Run, RunLegal, Ticks, NotCloned;
    if |ops| == 0 {
      NoStep(s, ops);
    } else {
      FirstStep(s, ops);
      NotClonedRest(ops, p);
      StepDormant(s, ops[0], p, x, c, k);
      DormantThrough(Step(s, ops[0]), ops[1..], p, x, c, k + Weight(ops[0]));
    }
  }

  lemma NoneCloned(ops: seq<Op>, p: Slot)
    requires |ops| == 0
    ensures NotCloned(ops, p)
  {
  }

  lemma NotClonedBefore(ops: seq<Op>, p: Slot)
    requires |ops| > 0 && ops[0] != CloneOp(p) && NotCloned(ops[1..], p)
    ensures NotCloned(ops, p)
  {
    assert ops == [ops[0]] + ops[1..];
  }

  lemma SleeperNotNext(s: Table, op: Op, p: Slot, c: int, k: nat)
    requires Formed(s) && Legal(s, op) && Dormant(s, p, WAITING, c, k)
    ensures op != CloneOp(p)
  {
  }

  /** A sleeper cannot be cloned over: clones get unused slots. */
  lemma {:induction false} SleeperNotCloned(s: Table, ops: seq<Op>, p: Slot, c: int, k: nat)
    requires Formed(s) && RunLegal(s, ops) && p != 0 && 0 <= c < U32
    requires Dormant(s, p, WAITING, c, k) && k + Ticks(ops) < WakeIn(c)
    ensures NotCloned(ops, p)
    decreases |ops|
  {
    hide Step, Legal, Formed, Dormant, WakeIn, Run, RunLegal, Ticks, NotCloned;
    if |ops| == 0 {
      NoneCloned(ops, p);
    } else {
      FirstStep(s, ops);
      SleeperNotNext(s, ops[0], p, c, k);
      StepDormant(s, ops[0], p, WAITING, c, k);
      SleeperNotCloned(Step(s, ops[0]), ops[1..], p, c, k + Weight(ops[0]));
      NotClonedBefore(ops, p);
    }
  }

  lemma {:induction false} RunThen(s: Table, ops: seq<Op>, op: Op)
    requires Formed(s) && RunLegal(s, ops + [op])
    ensures RunLegal(s, ops) && Legal(Run(s, ops), op)
    ensures Run(s, ops + [op]) == Step(Run(s, ops), op) && Ticks(ops + [op]) == Ticks(ops) + Weight(op)
    decreases |ops|
  {
    hide Step, Legal, Formed;
    FirstStep(s, ops + [op]);
    if |ops| == 0 {
      assert ops + [op] == [op] && [op][1..] == [];
    } else {
      assert (ops + [op])[1..] == ops[1..] + [op];
      RunThen(Step(s, ops[0]), ops[1..], op);
    }
  }

  lemma FallsAsleep(s: Table, n: nat)
    requires Formed(s) && Legal(s, SleepOp(n))
    ensures Formed(Sleep(s, n)) && Dormant(Sleep(s, n), s.cur, WAITING, (n + 1) % U32, 0)
  {
    StepFormed(s, SleepOp(n));
    TargetReady(s.state, s.cur);
    hide Target;
  }

  /** The current process sleeps for n, the others do ops, and a tick comes. */
  predicate Follows(s: Table, n: nat, ops: seq<Op>) {
    Formed(s) && Legal(s, SleepOp(n)) && (StepFormed(s, SleepOp(n)); RunLegal(Sleep(s, n), ops + [TickOp]))
  }

  function AfterSleep(s: Table, n: nat, ops: seq<Op>): (r: Table)
    requires Follows(s, n, ops)
    ensures Formed(r)
  {
    StepFormed(s, SleepOp(n));
    Run(Sleep(s, n), ops + [TickOp])
  }

  /** The last tick of such a run, taken by a sleeper that has slept through the rest. */
  lemma SleptUntil(s: Table, n: nat, ops: seq<Op>) returns (r: Table)
    requires Follows(s, n, ops) && Ticks(ops) < WakeTick(n)
    ensures 0 < s.cur < SLOTS && n < U32 && Formed(r) && Legal(r, TickOp)
    ensures Dormant(r, s.cur, WAITING, (n + 1) % U32, Ticks(ops)) && AfterSleep(s, n, ops) == Step(r, TickOp)
  {
    hide Run, RunLegal, Sleep, WakeIn, Dormant, Ticks, Weight, NotCloned;
    FallsAsleep(s, n);
    hide Legal, Formed;
    var s1 := Sleep(s, n);
    RunThen(s1, ops, TickOp);
    SleeperNotCloned(s1, ops, s.cur, (n + 1) % U32, 0);
    DormantThrough(s1, ops, s.cur, WAITING, (n + 1) % U32, 0);
    r := Run(s1, ops);
  }

  /** A process that calls sleep(n) wakes on exactly the tick WakeTick(n), whatever
      the others do meanwhile: on each earlier one it is still asleep. */
  lemma SleepExact(s: Table, n: nat, ops: seq<Op>)
    requires Follows(s, n, ops) && Ticks(ops) < WakeTick(n) && 0 <= s.cur < SLOTS
    ensures var r := AfterSleep(s, n, ops);
      && (Ticks(ops) + 1 < WakeTick(n) ==> r.state[s.cur] == WAITING)
      && (Ticks(ops) + 1 == WakeTick(n) ==> r.state[s.cur] in {READY, RUNNING})
  {
    hide Follows, AfterSleep, Legal, Formed, Ticks, WakeIn;
    var r := SleptUntil(s, n, ops);
    StepDormant(r, TickOp, s.cur, WAITING, (n + 1) % U32, Ticks(ops));
  }

  lemma FollowsSmall(s: Table, n: nat, ops: seq<Op>)
    requires Follows(s, n, ops)
    ensures n < U32
  {
    hide RunLegal, Formed;
  }

  /** The sleep lasts as many ticks as asked, except that none asked for is 2^32. */
  lemma WakeTickIs(n: nat)
    requires n < U32
    ensures WakeTick(n) == if n == 0 then U32 else n
  {
  }

  /** After as many ticks as asked, and at least one, the process is awake exactly
      when it did not ask for zero: the counter of sleep(0) starts at one and has to
      go round. */
  lemma AwakeOnTimeIff(s: Table, n: nat, ops: seq<Op>)
    requires Follows(s, n, ops) && Ticks(ops) + 1 == (if n == 0 then 1 else n) && 0 <= s.cur < SLOTS
    ensures AfterSleep(s, n, ops).state[s.cur] != WAITING <==> n != 0
  {
    hide Follows, AfterSleep, Ticks, WakeTick, Formed;
    FollowsSmall(s, n, ops);
    WakeTickIs(n);
    SleepExact(s, n, ops);
  }

  /** p is unused, the others do ops, none of them a clone of p, and a tick comes. */
  predicate Waits(s: Table, ops: seq<Op>, p: Slot) {
    && Formed(s) && p != 0 && p != s.cur && s.state[p] == UNUSED
    && NotCloned(ops, p) && RunLegal(s, ops + [TickOp])
  }

  function AfterTick(s: Table, ops: seq<Op>, p: Slot): (r: Table)
    requires Waits(s, ops, p)
    ensures Formed(r)
  {
    Run(s, ops + [TickOp])
  }

  function Counter(s: Table, p: Slot): int
    requires Formed(s)
  {
    s.ticks[p]
  }

  lemma WaitingParts(s: Table, ops: seq<Op>, p: Slot)
    requires Waits(s, ops, p)
    ensures Formed(s) && p != 0 && NotCloned(ops, p) && RunLegal(s, ops + [TickOp])
    ensures 0 <= Counter(s, p) < U32 && Dormant(s, p, UNUSED, Counter(s, p), 0)
    ensures AfterTick(s, ops, p) == Run(s, ops + [TickOp])
  {
    hide Run, RunLegal, NotCloned;
  }

  lemma UnusedUntil(s: Table, ops: seq<Op>, p: Slot) returns (r: Table)
    requires Waits(s, ops, p) && Ticks(ops) < WakeIn(Counter(s, p))
    ensures 0 <= Counter(s, p) < U32 && p != 0
    ensures Formed(r) && Legal(r, TickOp) && AfterTick(s, ops, p) == Step(r, TickOp)
    ensures Dormant(r, p, UNUSED, Counter(s, p), Ticks(ops))
  {
    hide Run, RunLegal, WakeIn, Dormant, Ticks, NotCloned, Legal, Step, Formed, Counter, Waits, AfterTick;
    WaitingParts(s, ops, p);
    RunThen(s, ops, TickOp);
    DormantThrough(s, ops, p, UNUSED, Counter(s, p), 0);
    r := Run(s, ops);
  }

  /** An unused slot that no clone takes is woken on exactly the tick that brings its
      counter to one, whatever runs meanwhile: on each earlier one it is unused still. */
  lemma UnusedWokenIff(s: Table, ops: seq<Op>, p: Slot)
    requires Waits(s, ops, p) && Ticks(ops) < WakeIn(Counter(s, p))
    ensures AfterTick(s, ops, p).state[p] != UNUSED <==> Ticks(ops) + 1 == WakeIn(Counter(s, p))
    ensures Ticks(ops) + 1 == WakeIn(Counter(s, p)) ==> AfterTick(s, ops, p).state[p] in {READY, RUNNING}
  {
    var r := UnusedUntil(s, ops, p);
    StepDormant(r, TickOp, p, UNUSED, Counter(s, p), Ticks(ops));
    hide Waits, AfterTick, WakeIn, Ticks, Legal, Step, Counter;
  }

  // ---------- no process waits long ----------

  /** Ready, and not the current slot. */
  predicate Queued(s: Table, p: Slot) {
    |s.state| == SLOTS && p != 0 && p != s.cur && s.state[p] == READY
  }

  predicate Decides(op: Op) {
    !op.CloneOp?
  }

  lemma Nearer(cur: int, j: int, p: int)
    requires 0 <= cur < SLOTS && 0 <= j < SLOTS && 0 <= p < SLOTS
    requires j != cur && j != p && Dist(cur, j) <= Dist(cur, p)
    ensures Dist(j, p) < Dist(cur, p)
  {
  }

  /** What one step does to a queued process: it runs, or the current slot has come
      nearer to it; and the swapper has not been chosen before it. */
  ghost predicate Advances(s: Table, s': Table, p: Slot, op: Op) {
    && |s'.state| == SLOTS && !s'.halted
    && (Decides(op) ==>
         || (s'.cur == p && s'.state[p] == RUNNING)
         || (Queued(s', p) && s'.cur != 0 && Dist(s'.cur, p) < Dist(s.cur, p)))
    && (!Decides(op) ==> Queued(s', p) && s'.cur == s.cur)
  }

  lemma ChosenAdvances(s: Table, state: seq<State>, p: Slot, s': Table, op: Op)
    requires Formed(s) && !s.halted && Queued(s, p) && Decides(op) && |state| == SLOTS && state[p] == READY
    requires Next(state, s.cur) != -1 ==>
      var j := Next(state, s.cur);
      && !s'.halted && s'.cur == j && |s'.state| == SLOTS && s'.state[j] == RUNNING
      && (p != j ==> s'.state[p] == READY)
    ensures Advances(s, s', p, op)
  {
    NextNearest(state, s.cur);
    hide Next;
    assert Candidate(state, s.cur, p);
    var j := Next(state, s.cur);
    if j != p {
      Nearer(s.cur, j, p);
    }
  }

  lemma StepAdvances(s: Table, op: Op, p: Slot)
    requires Formed(s) && Legal(s, op) && Queued(s, p)
    ensures Advances(s, Step(s, op), p, op)
  {
    match op
    case TickOp => hide Next; ChosenAdvances(s, Age(s).state, p, Tick(s), op);
    case SleepOp(n) => hide Next; ChosenAdvances(s, s.state, p, Sleep(s, n), op);
    case ExitOp => hide Next; ChosenAdvances(s, s.state[s.cur := UNUSED], p, Exit(s), op);
    case CloneOp(slot) =>
  }

  function Decisions(ops: seq<Op>): nat {
    if |ops| == 0 then 0 else (if Decides(ops[0]) then 1 else 0) + Decisions(ops[1..])
  }

  /** After the first k steps p is the one running, after no more than d decisions. */
  predicate RunsAt(s: Table, ops: seq<Op>, p: Slot, k: nat, d: int)
    requires Formed(s)
  {
    && k <= |ops| && RunLegal(s, ops[..k]) && Decisions(ops[..k]) <= d
    && Run(s, ops[..k]).cur == p && Run(s, ops[..k]).state[p] == RUNNING
  }

  /** A queued process runs within as many scheduling decisions as it is places from
      the current slot, so within fifteen. */
  lemma {:induction false} RunsWithin(s: Table, ops: seq<Op>, p: Slot) returns (k: nat)
    requires Formed(s) && RunLegal(s, ops) && Queued(s, p) && Decisions(ops) >= Dist(s.cur, p)
    ensures RunsAt(s, ops, p, k, Dist(s.cur, p)) && 1 <= Dist(s.cur, p) <= 15
    decreases |ops|
  {
    DistPlace(s.cur, p);
    hide Step, Legal, Formed, Run, RunLegal;
    FirstStep(s, ops);
    StepAdvances(s, ops[0], p);
    var s1 := Step(s, ops[0]);
    if s1.cur == p && s1.state[p] == RUNNING {
      k := 1;
      RunsFirst(s, ops, p);
    } else {
      var j := RunsWithin(s1, ops[1..], p);
      k := j + 1;
      RunsLater(s, ops, p, j, Dist(s1.cur, p), Dist(s.cur, p));
    }
  }

  lemma RunsFirst(s: Table, ops: seq<Op>, p: Slot)
    requires Formed(s) && |ops| > 0 && Legal(s, ops[0]) && Step(s, ops[0]).cur == p && Formed(Step(s, ops[0]))
    requires Step(s, ops[0]).state[p] == RUNNING
    ensures RunsAt(s, ops, p, 1, 1)
  {
    hide Step, Legal, Formed;
    var s1 := Step(s, ops[0]);
    assert ops[..1][1..] == [];
    assert Run(s1, []) == s1 && Decisions([]) == 0;
  }

  lemma RunsLater(s: Table, ops: seq<Op>, p: Slot, j: nat, d: int, d': int)
    requires Formed(s) && |ops| > 0 && Legal(s, ops[0]) && Formed(Step(s, ops[0]))
    requires RunsAt(Step(s, ops[0]), ops[1..], p, j, d)
    requires if Decides(ops[0]) then d < d' else d <= d'
    ensures RunsAt(s, ops, p, j + 1, d')
  {
    hide Step, Legal, Formed;
    assert ops[..j + 1][0] == ops[0] && ops[..j + 1][1..] == ops[1..][..j];
  }

  // ---------- shutdown ----------

  /** The machine is shut down exactly when no process is left: by the tick that
      finds only the swapper, or by the exit of the last one. */
  lemma ShutdownIff(s: Table, t: nat, op: Op)
    requires Inv(s, t) && Legal(s, op) && t <= U32 - 3
    ensures Step(s, op).halted <==>
      (op == TickOp && s.cur == 0 && AllUnused(s.state)) || (op == ExitOp && AllUnused(s.state[s.cur := UNUSED]))
  {
    if op == TickOp {
      AgeWakes(s, t);
      var a := Age(s);
      NextNearest(a.state, s.cur);
      hide Next, Age;
      forall i | 1 <= i < SLOTS && s.cur == 0 && a.state[i] == READY ensures Candidate(a.state, s.cur, i) {
      }
    } else {
      hide Next;
    }
  }

  // ---------- the 32-bit wrap ----------

  function Ticking(s: Table, m: nat): (r: Table)
    requires Formed(s)
    ensures Formed(r)
  {
    if m == 0 then s else (StepFormedTick(Ticking(s, m - 1)); Tick(Ticking(s, m - 1)))
  }

  lemma StepFormedTick(s: Table)
    requires Formed(s)
    ensures Formed(Tick(s))
  {
  }

  /** Process 1 alone, m ticks after every counter was zero. */
  ghost predicate Lone(s: Table, m: nat)
    requires m < U32
  {
    && Formed(s) && s.cur == 1 && !s.halted
    && s.state[0] == READY && s.state[1] == RUNNING
    && (forall i :: 2 <= i < SLOTS ==> s.state[i] == UNUSED)
    && (forall i :: 0 <= i < SLOTS ==> s.ticks[i] == if m == 0 then 0 else U32 - m)
  }

  lemma LoneTick(s: Table, m: nat)
    requires m < U32 - 2 && Lone(s, m)
    ensures Lone(Tick(s), m + 1)
  {
    DecIs(if m == 0 then 0 else U32 - m);
    NextNearest(Age(s).state, 1);
    hide Next, Dec;
  }

  lemma LoneWraps(s: Table, p: Slot)
    requires Lone(s, U32 - 2) && 2 <= p
    ensures Tick(s).state[p] in {READY, RUNNING}
  {
    assert Dormant(s, p, UNUSED, 0, U32 - 2);
    StepDormant(s, TickOp, p, UNUSED, 0, U32 - 2);
  }

  lemma LoneWrapsTo(s: Table)
    requires Lone(s, U32 - 2)
    ensures Tick(s).state[2] == RUNNING && Tick(s).cur == 2
  {
    DecIs(2);
    hide Dec;
    assert Age(s).state[2] == READY;
    assert NextFrom(Age(s).state, 1, 1) == 2;
  }

  lemma BootLone()
    ensures Lone(Boot(), 0)
  {
  }

  /** With process 1 alone nothing changes but the counters, all going down together. */
  lemma {:induction false} LoneRun(m: nat)
    requires m <= U32 - 2
    ensures Lone(Ticking(Boot(), m), m)
    decreases m
  {
    hide Boot, Lone, Tick;
    if m == 0 {
      BootLone();
    } else {
      LoneRun(m - 1);
      LoneTick(Ticking(Boot(), m - 1), m - 1);
    }
  }

  lemma TickUsed(s: Table, i: Slot)
    requires Formed(s) && s.state[i] != UNUSED
    ensures Tick(s).state[i] != UNUSED
  {
    hide Next;
  }

  /** From boot with no system call: on tick 2^32 - 1 every slot that was unused is
      woken at once, and the one after the current is run though never cloned. */
  lemma WrapWakes(p: Slot)
    requires 2 <= p
    ensures Ticking(Boot(), U32 - 1).state[p] in {READY, RUNNING}
    ensures Ticking(Boot(), U32 - 1).state[2] == RUNNING && Ticking(Boot(), U32 - 1).cur == 2
  {
    hide Boot, Lone, Tick, Formed;
    LoneRun(U32 - 2);
    LoneWraps(Ticking(Boot(), U32 - 2), p);
    LoneWrapsTo(Ticking(Boot(), U32 - 2));
  }

  /** There each unused slot stays unused exactly through 2^32 - 2 ticks. */
  lemma {:induction false} UnusedStaysIff(p: Slot, m: nat)
    requires 2 <= p
    ensures Ticking(Boot(), m).state[p] == UNUSED <==> m <= U32 - 2
    decreases m
  {
    hide Tick, Boot;
    if m <= U32 - 2 {
      LoneRun(m);
    } else if m == U32 - 1 {
      WrapWakes(p);
    } else {
      UnusedStaysIff(p, m - 1);
      TickUsed(Ticking(Boot(), m - 1), p);
    }
  }

  // ---------- each step, slot by slot ----------

  /** n is the ready process fewest places after cur. */
  ghost predicate Nearest(state: seq<State>, cur: int, n: int)
    requires |state| == SLOTS
  {
    && 1 <= n < SLOTS && n != cur && state[n] == READY
    && forall p :: 1 <= p < SLOTS && p != cur && state[p] == READY ==> (n - cur) % SLOTS <= (p - cur) % SLOTS
  }

  ghost predicate NoneReady(state: seq<State>, cur: int)
    requires |state| == SLOTS
  {
    forall p :: 1 <= p < SLOTS && p != cur ==> state[p] != READY
  }

  /** No process but the one in slot cur. */
  ghost predicate OnlyOne(state: seq<State>, cur: int)
    requires |state| == SLOTS
  {
    forall i :: 1 <= i < SLOTS && i != cur ==> state[i] == UNUSED
  }

  lemma NextIs(state: seq<State>, cur: int)
    requires |state| == SLOTS && 0 <= cur < SLOTS
    ensures Next(state, cur) == -1 <==> NoneReady(state, cur)
    ensures Next(state, cur) != -1 ==> Next(state, cur) != cur && Nearest(state, cur, Next(state, cur))
  {
    NextNearest(state, cur);
    hide Next;
    assert forall p :: 1 <= p < SLOTS && p != cur && state[p] == READY ==> Candidate(state, cur, p);
  }

  /** A counter one lower, in 32 bits. */
  function CountedDown(c: int): int {
    if c == 0 then 0xFFFF_FFFF else c - 1
  }

  /** The states when the tick has counted down: whoever came to one is ready. */
  function Woken(s: Table): (r: seq<State>)
    requires Formed(s)
    ensures |r| == SLOTS && forall i :: 0 <= i < SLOTS ==> r[i] == if s.ticks[i] == 2 then READY else s.state[i]
  {
    seq(SLOTS, i requires 0 <= i < SLOTS => if s.ticks[i] == 2 then READY else s.state[i])
  }

  lemma AgeIs(s: Table)
    requires Formed(s)
    ensures Age(s).state == Woken(s)
    ensures forall i :: 0 <= i < SLOTS ==> Age(s).ticks[i] == CountedDown(s.ticks[i])
  {
    forall i | 0 <= i < SLOTS
      ensures Age(s).ticks[i] == CountedDown(s.ticks[i]) && (Dec(s.ticks[i]) == 1 <==> s.ticks[i] == 2)
    {
      DecIs(s.ticks[i]);
    }
    hide Dec;
  }

  /** A tick counts every slot down. If a process is then ready the nearest runs, its
      counter zero, and the one preempted is ready; every other slot is as the
      counting left it. If none is, nothing else changes, but that the machine is
      shut down when the swapper finds no sleeper either. */
  lemma TickIs(s: Table)
    requires Formed(s)
    ensures var (s', w) := (Tick(s), Woken(s));
      && |s'.state| == |s'.ticks| == SLOTS
      && (NoneReady(w, s.cur) ==>
            && s'.state == w && s'.cur == s.cur
            && (forall i :: 0 <= i < SLOTS ==> s'.ticks[i] == CountedDown(s.ticks[i]))
            && (s'.halted <==> s.halted || (s.cur == 0 && forall i :: 0 <= i < SLOTS ==> w[i] != WAITING)))
      && (!NoneReady(w, s.cur) ==>
            && Nearest(w, s.cur, s'.cur) && s'.halted == s.halted
            && s'.state[s.cur] == READY && s'.state[s'.cur] == RUNNING && s'.ticks[s'.cur] == 0
            && (forall i :: 0 <= i < SLOTS && i != s.cur && i != s'.cur ==> s'.state[i] == w[i])
            && (forall i :: 0 <= i < SLOTS && i != s'.cur ==> s'.ticks[i] == CountedDown(s.ticks[i])))
  {
    hide Next, Age, CountedDown, Woken;
    AgeIs(s);
    NextIs(Age(s).state, s.cur);
  }

  /** sleep: the caller waits, its counter one more than asked in 32 bits, and the
      nearest ready process runs, or the swapper; nothing else changes. */
  lemma SleepIs(s: Table, n: nat)
    requires Formed(s) && n < U32
    ensures var s' := Sleep(s, n);
      && |s'.state| == |s'.ticks| == SLOTS && s'.halted == s.halted
      && (if NoneReady(s.state, s.cur) then s'.cur == 0 else Nearest(s.state, s.cur, s'.cur))
      && (s'.cur != s.cur ==> s'.state[s.cur] == WAITING) && s'.ticks[s.cur] == (if n == 0xFFFF_FFFF then 0 else n + 1)
      && s'.state[s'.cur] == RUNNING
      && (forall i :: 0 <= i < SLOTS && i != s.cur && i != s'.cur ==> s'.state[i] == s.state[i])
      && (forall i :: 0 <= i < SLOTS && i != s.cur ==> s'.ticks[i] == s.ticks[i])
  {
    hide Next;
    NextIs(s.state, s.cur);
  }

  /** exit: the swapper shuts the machine down. The slot of any other caller is unused;
      with no process left the machine is shut down, otherwise the nearest ready process
      runs, or the swapper; nothing else changes. */
  lemma ExitIs(s: Table)
    requires Formed(s)
    ensures s.cur == 0 ==> Exit(s) == s.(halted := true)
    ensures s.cur != 0 ==>
      var s' := Exit(s);
      var last := OnlyOne(s.state, s.cur);
      && |s'.state| == SLOTS && s'.ticks == s.ticks && s'.state[s.cur] == UNUSED
      && (last ==> s'.halted && s'.cur == s.cur && s'.state == s.state[s.cur := UNUSED])
      && (!last ==>
            && s'.halted == s.halted && s'.state[s'.cur] == RUNNING
            && (if NoneReady(s.state, s.cur) then s'.cur == 0 else Nearest(s.state, s.cur, s'.cur))
            && forall i :: 0 <= i < SLOTS && i != s.cur && i != s'.cur ==> s'.state[i] == s.state[i])
  {
    hide Next, Nearest, NoneReady, AllUnused, OnlyOne;
    if s.cur != 0 {
      NextIs(s.state[s.cur := UNUSED], s.cur);
      OwnSlotApart(s.state, s.cur, s.state[s.cur := UNUSED]);
    }
  }

  /** Whom the others see ready, and whether they are gone, is not up to cur's slot. */
  lemma OwnSlotApart(state: seq<State>, cur: int, state': seq<State>)
    requires |state| == SLOTS && 0 < cur < SLOTS && state' == state[cur := UNUSED]
    ensures NoneReady(state', cur) <==> NoneReady(state, cur)
    ensures forall n :: Nearest(state', cur, n) <==> Nearest(state, cur, n)
    ensures AllUnused(state') <==> OnlyOne(state, cur)
  {
    forall i | 1 <= i < SLOTS && i != cur ensures state'[i] == state[i] {
    }
    if AllUnused(state') {
      forall i | 1 <= i < SLOTS && i != cur ensures state[i] == UNUSED {
        assert state'[i] == UNUSED;
      }
    }
    forall n ensures Nearest(state', cur, n) <==> Nearest(state, cur, n) {
    }
  }

  /** clone: its slot is ready, with the caller's counter; nothing else changes. */
  lemma CloneIs(s: Table, slot: Slot)
    requires Formed(s)
    ensures var s' := Clone(s, slot);
      && |s'.state| == |s'.ticks| == SLOTS && s'.cur == s.cur && s'.halted == s.halted
      && s'.state[slot] == READY && s'.ticks[slot] == s.ticks[s.cur]
      && forall i :: 0 <= i < SLOTS && i != slot ==> s'.state[i] == s.state[i] && s'.ticks[i] == s.ticks[i]
  {
  }

  // ---------- the preempted and the cloned run ----------

  lemma RunsSooner(s: Table, ops: seq<Op>, p: Slot, k: nat, d: int, d': int)
    requires Formed(s) && RunsAt(s, ops, p, k, d) && d <= d'
    ensures RunsAt(s, ops, p, k, d')
  {
    hide Run, RunLegal, Decisions;
  }

  /** A process that a tick preempts runs again within fifteen decisions. */
  lemma PreemptedRuns(s: Table, ops: seq<Op>, p: Slot) returns (k: nat)
    requires Formed(s) && p == s.cur && p != 0 && Formed(Tick(s)) && Tick(s).cur != p
    requires RunLegal(Tick(s), ops) && Decisions(ops) >= 15
    ensures Queued(Tick(s), p) && RunsAt(Tick(s), ops, p, k, 15)
  {
    hide Tick, RunLegal, RunsAt, Formed, Decisions, Woken, Nearest, CountedDown;
    TickIs(s);
    SlotsOf(s);
    SlotsOf(Tick(s));
    DistPlace(Tick(s).cur, p);
    k := RunsWithin(Tick(s), ops, p);
    RunsSooner(Tick(s), ops, p, k, Dist(Tick(s).cur, p), 15);
  }

  lemma SlotsOf(s: Table)
    requires Formed(s)
    ensures |s.state| == SLOTS && 0 <= s.cur < SLOTS
  {
  }

  /** A clone runs within as many decisions as its slot is places away. */
  lemma CloneRuns(s: Table, t: nat, slot: Slot, ops: seq<Op>) returns (k: nat)
    requires Inv(s, t) && Legal(s, CloneOp(slot)) && Formed(Clone(s, slot))
    requires RunLegal(Clone(s, slot), ops) && Decisions(ops) >= (slot - s.cur) % SLOTS
    ensures Queued(Clone(s, slot), slot) && RunsAt(Clone(s, slot), ops, slot, k, (slot - s.cur) % SLOTS)
  {
    CloneIs(s, slot);
    hide Clone, RunLegal, RunsAt, Formed, Decisions;
    k := RunsWithin(Clone(s, slot), ops, slot);
  }
}

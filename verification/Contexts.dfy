/** Ass3/schedule.c as it runs: the sixteen contexts' fields changed in place by
    loops over the slots. */
module Contexts {
  import opened Scheduler

  class Kernel {
    const state: array<State>
    const ticks: array<int>
    var cur: int
    var halted: bool

    ghost predicate Valid()
      reads this, state, ticks
    {
      state.Length == SLOTS && ticks.Length == SLOTS && Formed(Value())
    }

    ghost function Value(): Table
      reads this, state, ticks
    {
      Table(state[..], ticks[..], cur, halted)
    }

    constructor (s: Table)
      requires Formed(s)
      ensures Valid() && Value() == s && fresh(state) && fresh(ticks)
    {
      var st, ti := new State[SLOTS](i requires 0 <= i < SLOTS => s.state[i]),
        new int[SLOTS](i requires 0 <= i < SLOTS => s.ticks[i]);
      state, ticks, cur, halted := st, ti, s.cur, s.halted;
      new;
      assert state[..] == s.state && ticks[..] == s.ticks;
    }

    /** The tick's first loop: count every slot down, wake those that reach one,
        and count the sleepers that are left. */
    method CountDown() returns (wait: nat)
      requires Valid()
      modifies state, ticks
      ensures Valid() && Value() == Age(old(Value()))
      ensures wait == 0 <==> !AnyIn(state[..], 0, WAITING)
    {
      wait := 0;
      var i := 0;
      while i < SLOTS
        invariant 0 <= i <= SLOTS
        invariant forall k :: 0 <= k < i ==> ticks[k] == Dec(old(ticks[k]))
        invariant forall k :: 0 <= k < i ==> state[k] == if ticks[k] == 1 then READY else old(state[k])
        invariant forall k :: i <= k < SLOTS ==> ticks[k] == old(ticks[k]) && state[k] == old(state[k])
        invariant wait == 0 <==> forall k :: 0 <= k < i ==> state[k] != WAITING
      {
        ticks[i] := (ticks[i] - 1) % U32;
        if ticks[i] == 1 { state[i] := READY; }
        if state[i] == WAITING { wait := wait + 1; }
        i := i + 1;
      }
      assert Value() == Age(old(Value()));
    }

    /** The search all three steps share. */
    method FindReady() returns (changed: int)
      requires Valid()
      ensures changed == Next(state[..], cur)
    {
      hide Formed, NextFrom;
      changed := -1;
      var i := 1;
      while i <= 15
        invariant 1 <= i <= SLOTS && changed == -1
        invariant NextFrom(state[..], cur, 1) == NextFrom(state[..], cur, i)
      {
        NextPlace(state[..], cur, i);
        var j := (cur + i) % SLOTS;
        if j != 0 && state[j] == READY {
          changed := j;
          break;
        }
        i := i + 1;
      }
      NextPlace(state[..], cur, SLOTS);
    }

    method HandleTimerTick()
      requires Valid()
      modifies this`cur, this`halted, state, ticks
      ensures Valid() && Value() == Tick(old(Value()))
    {
      hide Next, Age, AnyIn;
      var wait := CountDown();
      var changed := FindReady();
      NextNearest(state[..], cur);
      if changed == -1 && wait == 0 && cur == 0 {
        halted := true;
        return;
      }
      if changed == -1 { changed := cur; }
      if changed != cur {
        ticks[changed] := 0;
        state[cur] := READY;
        state[changed] := RUNNING;
        cur := changed;
      }
    }

    /** The exit's count of unused slots. */
    method CountUnused() returns (unused: nat)
      requires Valid()
      ensures unused == 15 <==> AllUnused(state[..])
    {
      unused := 0;
      var i := 1;
      while i <= 15
        invariant 1 <= i <= SLOTS && unused <= i - 1
        invariant unused == i - 1 <==> forall k :: 1 <= k < i ==> state[k] == UNUSED
      {
        if state[i] == UNUSED { unused := unused + 1; }
        i := i + 1;
      }
    }

    method DoExit()
      requires Valid()
      modifies this`cur, this`halted, state
      ensures Valid() && Value() == Exit(old(Value()))
    {
      hide Next, AllUnused;
      if cur == 0 {
        halted := true;
        return;
      }
      state[cur] := UNUSED;
      assert state[..] == old(state[..])[cur := UNUSED];
      var unused := CountUnused();
      if unused == 15 {
        halted := true;
        return;
      }
      var changed := FindReady();
      if changed == -1 { changed := 0; }
      state[changed] := RUNNING;
      cur := changed;
    }

    method DoSleep(n: nat)
      requires Valid()
      modifies this`cur, state, ticks
      ensures Valid() && Value() == Sleep(old(Value()), n)
    {
      hide Next;
      var changed := FindReady();
      if changed == -1 { changed := 0; }
      ticks[cur] := (n + 1) % U32;
      state[cur] := WAITING;
      state[changed] := RUNNING;
      cur := changed;
    }

    /** slot is what the context allocator gives. */
    method DoClone(slot: Slot)
      requires Valid()
      modifies state, ticks
      ensures Valid() && Value() == Clone(old(Value()), slot)
    {
      ticks[slot] := ticks[cur];
      state[slot] := READY;
    }
  }
}

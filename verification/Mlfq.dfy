/** The multilevel feedback queue: what a timer tick does to the running process, and which process is chosen next. */
module Mlfq {

  /** A process as the scheduler sees it. */
  datatype Proc = Proc(pid: int, runnable: bool, level: int, ticks: int, lastOut: bool, priority: int)

  function Quantum(level: int): int { 4 * level + 2 }

  // ---------- one process ----------

  /** The tick of a process, with `boost` when the global tick count is a multiple of 100. */
  function Ticked(p: Proc, boost: bool, k: int): Proc {
    var q := if boost then p.(level := 0, ticks := 0, lastOut := false) else p.(ticks := p.ticks + 1);
    if !q.lastOut && q.ticks >= Quantum(q.level) then
      if q.level < k - 1 then q.(level := q.level + 1, ticks := 0) else q.(lastOut := true)
    else q
  }

  /** syscall's reset of a process that calls yield or sleep. */
  function GaveUp(p: Proc): Proc { p.(level := 0, ticks := 0) }

  /** The level is one of the k queues, and a process that is not out has quantum left. */
  ghost predicate Fair(p: Proc, k: int) {
    0 <= p.level < k && 0 <= p.ticks && (!p.lastOut ==> p.ticks < Quantum(p.level))
  }

  datatype Event = Tick(boost: bool) | YieldOrSleep

  function After(p: Proc, events: seq<Event>, k: int): Proc {
    if events == [] then p
    else
      var q := After(p, events[..|events| - 1], k);
      match events[|events| - 1]
      case Tick(boost) => Ticked(q, boost, k)
      case YieldOrSleep => GaveUp(q)
  }

  /** Whatever happens to a process, it stays in a queue, and until it is out it has quantum left. */
  lemma {:induction false} StaysFair(p: Proc, events: seq<Event>, k: int)
    requires k > 0 && Fair(p, k)
    ensures Fair(After(p, events, k), k)
  {
    if events != [] {
      StaysFair(p, events[..|events| - 1], k);
    }
  }

  /** Ticks a process has had since it was last at the top of the queues. */
  function Used(p: Proc): int { 2 * p.level * p.level + p.ticks }

  function Run(p: Proc, n: nat, k: int): Proc {
    if n == 0 then p else Ticked(Run(p, n - 1, k), false, k)
  }

  /** One tick uses one tick, across the change of queues too, and is the last exactly when 2 k k have been used. */
  lemma {:induction false} TickUses(p: Proc, k: int)
    requires k > 0 && Fair(p, k) && !p.lastOut
    ensures var q := Ticked(p, false, k); Fair(q, k) && Used(q) == Used(p) + 1 && (q.lastOut <==> Used(q) == 2 * k * k)
    ensures Used(p) < 2 * k * k
  {
    Squares(p.level, k);
  }

  lemma {:induction false} Squares(l: int, k: int)
    requires 0 <= l < k
    ensures 2 * (l + 1) * (l + 1) == 2 * l * l + 4 * l + 2
    ensures 2 * l * l + 4 * l + 2 <= 2 * k * k
    ensures l < k - 1 ==> 2 * l * l + 4 * l + 2 < 2 * k * k
  {
    var d := k - l;
    Product(l, d);
    assert k * k == (l + d) * (l + d) == l * l + 2 * (l * d) + d * d;
    assert 2 * l * l == 2 * (l * l) && 2 * k * k == 2 * (k * k);
    assert 2 * (l + 1) * (l + 1) == 2 * (l * l) + 4 * l + 2;
  }

  lemma {:induction false} Product(l: int, d: int)
    requires 0 <= l && 1 <= d
    ensures l * d >= l && d * d >= d && (l + d) * (l + d) == l * l + 2 * (l * d) + d * d
    ensures d >= 2 ==> d * d >= 2 * d
  {
    assert l * (d - 1) >= 0 && d * (d - 1) >= 0;
    assert d >= 2 ==> d * (d - 2) >= 0;
  }

  /** Without boost, yield or sleep, a process is out after exactly 2 k k ticks of its own, counted from the top. */
  lemma {:induction false} OutAfter(p: Proc, k: int, n: nat)
    requires k > 0 && Fair(p, k) && !p.lastOut && n <= 2 * k * k - Used(p)
    ensures var q := Run(p, n, k);
            Fair(q, k) && Used(q) == Used(p) + n && (q.lastOut <==> n == 2 * k * k - Used(p))
  {
    TickUses(p, k);
    if n > 0 {
      OutAfter(p, k, n - 1);
      TickUses(Run(p, n - 1, k), k);
    }
  }

  /** On its way a process is on level l from 2 l l ticks of its own, counted from the top, up to 2 (l + 1)(l + 1). */
  lemma {:induction false} LevelAfter(p: Proc, k: int, n: nat, l: int)
    requires k > 0 && Fair(p, k) && !p.lastOut && n < 2 * k * k - Used(p) && 0 <= l
    ensures Run(p, n, k).level == l <==> 2 * l * l <= Used(p) + n < 2 * (l + 1) * (l + 1)
  {
    OutAfter(p, k, n);
    var q := Run(p, n, k);
    Squares(q.level, k);
    if l < q.level {
      Squares(l, q.level);
    } else if l > q.level {
      Squares(q.level, l);
    }
  }

  /** The boost gives back a whole turn through the queues, to a process that is out as well. */
  lemma {:induction false} BoostRestarts(p: Proc, k: int, n: nat)
    requires k > 0 && Fair(p, k) && n <= 2 * k * k
    ensures var q := Ticked(p, true, k); Fair(q, k) && (Run(q, n, k).lastOut <==> n == 2 * k * k)
  {
    assert Used(Ticked(p, true, k)) == 0;
    OutAfter(Ticked(p, true, k), k, n);
  }

  /** So does a call of yield or sleep, to a process that is not out. */
  lemma {:induction false} GivingUpRestarts(p: Proc, k: int, n: nat)
    requires k > 0 && Fair(p, k) && !p.lastOut && n <= 2 * k * k
    ensures Fair(GaveUp(p), k) && (Run(GaveUp(p), n, k).lastOut <==> n == 2 * k * k)
  {
    assert Used(GaveUp(p)) == 0;
    OutAfter(GaveUp(p), k, n);
  }

  /** A process that is out stays out until the next boost, whatever else happens, and is not out after it. */
  lemma {:induction false} OutUntilBoost(p: Proc, events: seq<Event>, k: int)
    requires k > 0 && Fair(p, k) && p.lastOut
    ensures Tick(true) !in events ==> After(p, events, k).lastOut
    ensures !After(p, events + [Tick(true)], k).lastOut
  {
    assert (events + [Tick(true)])[..|events|] == events;
    StaysFair(p, events, k);
    if events != [] {
      OutUntilBoost(p, events[..|events| - 1], k);
    }
  }

  /** No event changes who a process is, or its priority. */
  lemma {:induction false} SameProcess(p: Proc, events: seq<Event>, k: int)
    ensures var q := After(p, events, k); q.pid == p.pid && q.priority == p.priority && q.runnable == p.runnable
  {
    if events != [] {
      SameProcess(p, events[..|events| - 1], k);
    }
  }

  class Process {
    var level: int
    var ticks: int
    var lastOut: bool
    const pid: int
    const priority: int
    var runnable: bool

    ghost function State(): Proc
      reads this
    {
      Proc(pid, runnable, level, ticks, lastOut, priority)
    }

    /** The timer interrupt while this process runs; now is the global tick count. */
    method TimerTick(now: nat, k: int)
      requires pid > 0
      modifies this`level, this`ticks, this`lastOut
      ensures State() == Ticked(old(State()), now % 100 == 0, k)
    {
      ticks := ticks + 1;
      if now % 100 == 0 {  // priority boost
        if pid > 0 {
          level := 0;
          ticks := 0;
          lastOut := false;
        }
      }
      var quNum := level;
      if !lastOut && ticks >= 4 * quNum + 2 {  // time quantum exhausted
        if level < k - 1 {
          level := quNum + 1;
          ticks := 0;
        } else {
          lastOut := true;
        }
      }
    }

    /** syscall, before it runs system call num. */
    method Syscall(num: int)
      modifies this`level, this`ticks
      ensures State() == if num == 23 || num == 13 then GaveUp(old(State())) else old(State())
    {
      if num == 23 {  // yield
        level := 0;
        ticks := 0;
      }
      if num == 13 {  // sleep
        level := 0;
        ticks := 0;
      }
    }
  }

  // ---------- the choice ----------

  /** q should run before p. */
  predicate Better(q: Proc, p: Proc) {
    q.level < p.level || (q.level == p.level && q.priority > p.priority)
  }

  /** The place of process 1 if it is runnable (the last such, in a table of n), else 0: seeing it, the scan starts over. */
  function Restart(ptable: seq<Proc>, n: nat): (r: nat)
    requires n <= |ptable|
    ensures r < n || r == 0
    ensures r > 0 ==> ptable[r].runnable && ptable[r].pid == 1
  {
    if n == 0 then 0
    else if ptable[n - 1].runnable && ptable[n - 1].pid == 1 then n - 1
    else Restart(ptable, n - 1)
  }

  /** Process 1 is the first of the table, as it is after boot: then the scan never starts over. */
  lemma {:induction false} NoRestart(ptable: seq<Proc>, n: nat)
    requires n <= |ptable| && forall i :: 0 < i < |ptable| ==> ptable[i].pid != 1
    ensures Restart(ptable, n) == 0
  {
    if n > 0 {
      NoRestart(ptable, n - 1);
    }
  }

  predicate InQuantum(p: Proc) { p.runnable && !p.lastOut }

  /** No runnable process still in quantum should run before p. */
  ghost predicate Unbeaten(ptable: seq<Proc>, p: Proc) {
    forall i :: 0 <= i < |ptable| && InQuantum(ptable[i]) ==> !Better(ptable[i], p)
  }

  /** A process that the scan compares: process 1, or one behind it that is still in quantum. */
  ghost predicate Candidate(ptable: seq<Proc>, c: int) {
    var from := Restart(ptable, |ptable|);
    from <= c < |ptable| && (c == from || InQuantum(ptable[c]))
  }

  /** Every process in front of process 1 is matched by one that the scan compares. */
  ghost predicate FrontMatched(ptable: seq<Proc>) {
    forall i :: 0 <= i < Restart(ptable, |ptable|) && InQuantum(ptable[i]) ==>
      exists c :: Candidate(ptable, c) && !Better(ptable[i], ptable[c])
  }

  /** The scheduler's scan of the process table, when no process is to continue: an index, or -1. The choice is unbeaten
      exactly when every process in front of process 1 is matched behind it. */
  method Choose(ptable: seq<Proc>) returns (tmp: int)
    ensures -1 <= tmp < |ptable|
    ensures tmp == -1 <==> forall i :: 0 <= i < |ptable| ==> !ptable[i].runnable
    ensures var from := Restart(ptable, |ptable|);
            tmp >= 0 ==>
              && ptable[tmp].runnable && from <= tmp
              && (forall i :: from <= i < |ptable| && InQuantum(ptable[i]) ==> !Better(ptable[i], ptable[tmp]))
              && (ptable[tmp].lastOut ==> forall i :: from <= i < tmp ==> !ptable[i].runnable)
    ensures tmp >= 0 ==>
              forall i :: Restart(ptable, |ptable|) <= i < |ptable| && ptable[i].runnable && !ptable[i].lastOut ==>
                && ptable[tmp].level <= ptable[i].level
                && (ptable[tmp].level == ptable[i].level ==> ptable[tmp].priority >= ptable[i].priority)
    ensures tmp >= 0 ==> (Unbeaten(ptable, ptable[tmp]) <==> FrontMatched(ptable))
  {
    tmp := -1;
    var p := 0;
    while p < |ptable|
      invariant 0 <= p <= |ptable| && -1 <= tmp < p
      invariant tmp == -1 <==> forall i :: 0 <= i < p ==> !ptable[i].runnable
      invariant tmp >= 0 ==> ptable[tmp].runnable && Restart(ptable, p) <= tmp
      invariant tmp >= 0 ==>
                  forall i :: Restart(ptable, p) <= i < p && InQuantum(ptable[i]) ==>
                    !Better(ptable[i], ptable[tmp])
      invariant tmp >= 0 && Restart(ptable, p) > 0 ==> !Better(ptable[Restart(ptable, p)], ptable[tmp])
      invariant tmp >= 0 && ptable[tmp].lastOut ==> forall i :: Restart(ptable, p) <= i < tmp ==> !ptable[i].runnable
    {
      if ptable[p].runnable {
        if ptable[p].pid == 1 {
          tmp := p;
        } else if tmp == -1 {
          tmp := p;
        } else if ptable[p].lastOut {
          // out of its last queue
        } else if ptable[p].level == ptable[tmp].level {
          if ptable[p].priority > ptable[tmp].priority {
            tmp := p;
          }
        } else if ptable[p].level < ptable[tmp].level {
          tmp := p;
        }
      }
      p := p + 1;
    }
    if tmp >= 0 {
      if FrontMatched(ptable) {
        forall i | 0 <= i < |ptable| && InQuantum(ptable[i])
          ensures !Better(ptable[i], ptable[tmp])
        {
          if i < Restart(ptable, |ptable|) {
            var c :| Candidate(ptable, c) && !Better(ptable[i], ptable[c]);
          }
        }
      }
      if Restart(ptable, |ptable|) > 0 {
        assert Candidate(ptable, tmp);
      }
    }
  }
}

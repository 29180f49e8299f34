/** A pipe between processes: a ring buffer behind 32-bit counters, and readers and writers that sleep and wake each
    other. A process runs from taking the pipe's lock until it returns or sleeps, in any order of processes.
 */
module Pipe {

  const PIPESIZE := 512
  const UINT := 0x1_0000_0000

  type Byte = x: int | 0 <= x < 256

  datatype Option<T> = None | Some(value: T)

  // what a process in the pipe sleeps on: more bytes, or room
  datatype Chan = ToRead | ToWrite

  /** A call in progress: pipewrite with i bytes written, or piperead. */
  datatype Task = Idle | Writing(addr: seq<Byte>, i: nat) | Reading(n: nat)

  datatype Proc = Proc(task: Task, asleep: Option<Chan>, killed: bool)

  /** A process after wakeup(chan). */
  function Woken(x: Proc, chan: Chan): Proc {
    if x.asleep == Some(chan) then x.(asleep := None) else x
  }

  // ---------- the ring ----------

  /** Bytes `taken` out of those `written`; the rest is in the ring. The counters are the lengths, in 32 bits. */
  ghost predicate RingOk(data: seq<Byte>, nread: int, nwrite: int, taken: seq<Byte>, written: seq<Byte>) {
    && |data| == PIPESIZE && |taken| <= |written| <= |taken| + PIPESIZE
    && taken == written[..|taken|]
    && nread == |taken| % UINT && nwrite == |written| % UINT
    && forall k {:trigger written[k]} :: |taken| <= k < |written| ==> data[k % PIPESIZE] == written[k]
  }

  lemma {:induction false} AddInWord(a: nat, d: nat)
    requires d <= PIPESIZE
    ensures (a + d) % UINT == (a % UINT + d) % UINT == if a % UINT + d < UINT then a % UINT + d else a % UINT + d - UINT
  {
    var q, m := a / UINT, a % UINT;
    assert a + d == q * UINT + (m + d);
    if m + d >= UINT {
      assert a + d == (q + 1) * UINT + (m + d - UINT);
    }
  }

  lemma {:induction false} IndexInWord(a: nat)
    ensures a % UINT % PIPESIZE == a % PIPESIZE
  {
    var q, m := a / UINT, a % UINT;
    assert a == PIPESIZE * (8388608 * q + m / PIPESIZE) + m % PIPESIZE;
  }

  lemma {:induction false} IndicesDiffer(a: nat, b: nat)
    requires a < b < a + PIPESIZE
    ensures a % PIPESIZE != b % PIPESIZE
  {
    var q, m := a / PIPESIZE, a % PIPESIZE;
    assert b == q * PIPESIZE + (m + (b - a));
  }

  /** The counters decide between empty, full and in between although they wrap. */
  lemma {:induction false} CountersTell(r: nat, w: nat)
    requires r <= w <= r + PIPESIZE
    ensures w % UINT == (r % UINT + PIPESIZE) % UINT <==> w == r + PIPESIZE
    ensures r % UINT == w % UINT <==> r == w
    ensures w % UINT % PIPESIZE == w % PIPESIZE && r % UINT % PIPESIZE == r % PIPESIZE
    ensures (w % UINT + 1) % UINT == (w + 1) % UINT && (r % UINT + 1) % UINT == (r + 1) % UINT
  {
    AddInWord(r, w - r);
    AddInWord(r, PIPESIZE);
    AddInWord(w, 1);
    AddInWord(r, 1);
    IndexInWord(r);
    IndexInWord(w);
  }

  lemma {:induction false} RingPut(data: seq<Byte>, nread: int, nwrite: int, taken: seq<Byte>, written: seq<Byte>, b: Byte)
    requires RingOk(data, nread, nwrite, taken, written) && |written| < |taken| + PIPESIZE
    ensures 0 <= nwrite && RingOk(data[nwrite % PIPESIZE := b], nread, (nwrite + 1) % UINT, taken, written + [b])
  {
    CountersTell(|taken|, |written|);
    var data', written' := data[nwrite % PIPESIZE := b], written + [b];
    forall k {:trigger written'[k]} | |taken| <= k < |written'|
      ensures data'[k % PIPESIZE] == written'[k]
    {
      if k < |written| {
        assert written'[k] == written[k];
        IndicesDiffer(k, |written|);
      }
    }
  }

  lemma {:induction false} RingGet(data: seq<Byte>, nread: int, nwrite: int, taken: seq<Byte>, written: seq<Byte>)
    requires RingOk(data, nread, nwrite, taken, written) && |taken| < |written|
    ensures 0 <= nread
    ensures RingOk(data, (nread + 1) % UINT, nwrite, taken + [data[nread % PIPESIZE]], written)
  {
    CountersTell(|taken|, |written|);
    assert data[nread % PIPESIZE] == written[|taken|];
  }

  datatype Outcome = Returns(r: int) | Sleeps

  class PipeSystem {
    const data: array<Byte>
    var nread: int
    var nwrite: int
    var readopen: bool
    var writeopen: bool
    const procs: array<Proc>
    // all bytes ever written and read
    ghost var written: seq<Byte>
    ghost var taken: seq<Byte>

    ghost predicate Shape()
      reads this, data
    {
      data.Length == PIPESIZE && RingOk(data[..], nread, nwrite, taken, written)
    }

    ghost predicate Full()
      reads this
    {
      |written| == |taken| + PIPESIZE
    }

    /** A sleeping writer waits for room, and there is somebody to make it. */
    ghost predicate WriterOk(p: nat)
      requires p < procs.Length
      reads this, procs
    {
      procs[p].asleep == Some(ToWrite) ==> procs[p].task.Writing? && Full() && readopen
    }

    /** A sleeping reader waits for bytes that somebody may still write. */
    ghost predicate ReaderOk(p: nat)
      requires p < procs.Length
      reads this, procs
    {
      procs[p].asleep == Some(ToRead) ==> procs[p].task.Reading? && writeopen
    }

    /** A call in progress holds its end of the pipe open. */
    ghost predicate TaskOk(p: nat)
      requires p < procs.Length
      reads this, procs
    {
      && (procs[p].task.Writing? ==> writeopen && procs[p].task.i <= |procs[p].task.addr|)
      && (procs[p].task.Reading? ==> readopen)
    }

    ghost predicate Valid()
      reads this, data, procs
    {
      && Shape()
      && (forall p :: 0 <= p < procs.Length ==> WriterOk(p))
      && (forall p :: 0 <= p < procs.Length ==> ReaderOk(p))
      && (forall p :: 0 <= p < procs.Length ==> TaskOk(p))
    }

    ghost predicate ReaderAsleep()
      reads this, procs
    {
      exists p :: 0 <= p < procs.Length && procs[p].asleep == Some(ToRead)
    }

    /** No reader sleeps on bytes that it could have. */
    ghost predicate Strict()
      reads this, procs
    {
      ReaderAsleep() ==> taken == written
    }

    /** pipealloc. */
    constructor (nproc: nat)
      ensures Valid() && Strict() && written == taken == [] && readopen && writeopen && fresh(data) && fresh(procs) && procs.Length == nproc
      ensures forall p :: 0 <= p < nproc ==> procs[p] == Proc(Idle, None, false)
    {
      data := new Byte[PIPESIZE](_ => 0);
      nread, nwrite, readopen, writeopen := 0, 0, true, true;
      procs := new Proc[nproc](_ => Proc(Idle, None, false));
      written, taken := [], [];
    }

    /** Whoever sleeps on this channel is woken. */
    method Wakeup(chan: Chan)
      modifies procs
      ensures forall p :: 0 <= p < procs.Length ==> procs[p] == Woken(old(procs[p]), chan)
      ensures forall p :: 0 <= p < procs.Length ==>
                && procs[p].asleep != Some(chan) && procs[p].task == old(procs[p].task) && procs[p].killed == old(procs[p].killed)
                && (procs[p].asleep == old(procs[p].asleep) || old(procs[p].asleep) == Some(chan))
    {
      var p := 0;
      while p < procs.Length
        invariant 0 <= p <= procs.Length
        invariant forall q :: p <= q < procs.Length ==> procs[q] == old(procs[q])
        invariant forall q :: 0 <= q < p ==> procs[q] == Woken(old(procs[q]), chan)
      {
        if procs[p].asleep == Some(chan) {
          procs[p] := procs[p].(asleep := None);
        }
        p := p + 1;
      }
    }

    /** pipewrite's loop until the pipe is full or all bytes are in it. */
    method Store(addr: seq<Byte>, start: nat) returns (i: nat)
      requires Shape() && start <= |addr|
      modifies this`nwrite, this`written, data
      ensures Shape() && start <= i <= |addr| && written == old(written) + addr[start..i]
      ensures i < |addr| ==> Full()
      ensures old(Full()) ==> i == start
    {
      i := start;
      while i < |addr|
        invariant start <= i <= |addr| && Shape() && written == old(written) + addr[start..i]
        invariant old(Full()) ==> i == start
      {
        CountersTell(|taken|, |written|);
        if nwrite == (nread + PIPESIZE) % UINT {
          break;
        }
        RingPut(data[..], nread, nwrite, taken, written, addr[i]);
        data[nwrite % PIPESIZE] := addr[i];
        nwrite := (nwrite + 1) % UINT;
        written := written + [addr[i]];
        i := i + 1;
      }
    }

    /** One turn of process p in pipewrite: from its first byte, or from waking up. A reader is left asleep on bytes
        exactly when a killed process, with more to write than the pipe holds, fills it up under a sleeping reader:
        it gives up without the wakeup. Any other write wakes all readers, also those left asleep earlier. */
    method PipeWrite(p: nat) returns (o: Outcome, k: nat)
      requires Valid() && p < procs.Length && procs[p].task.Writing? && procs[p].asleep == None
      modifies this`nwrite, this`written, data, procs
      ensures Valid()
      ensures var t := old(procs[p]).task;
              && t.i <= k <= |t.addr| && written == old(written) + t.addr[t.i..k]
              && procs[p] == (if o.Returns? then old(procs[p]).(task := Idle)
                              else old(procs[p]).(task := Writing(t.addr, k), asleep := Some(ToWrite)))
              && (o.Returns? ==> o.r == if k == |t.addr| then k else -1)
              && (o == Sleeps ==> k < |t.addr|)
      ensures k < |old(procs[p]).task.addr| ==> Full() && (o == Returns(-1) <==> old(procs[p]).killed || !readopen)
      ensures o != Returns(-1) ==> !ReaderAsleep()
      ensures Strict() <==> o != Returns(-1) || !old(ReaderAsleep())
      ensures var t := old(procs[p]).task;
              old(Strict()) ==>
                (Strict() <==> !(old(procs[p]).killed && |t.addr| - t.i > PIPESIZE && old(ReaderAsleep())))
      ensures forall q :: 0 <= q < procs.Length && q != p ==>
                procs[q] == if o == Returns(-1) then old(procs[q]) else Woken(old(procs[q]), ToRead)
    {
      var addr, start := procs[p].task.addr, procs[p].task.i;
      assert TaskOk(p);
      if q :| 0 <= q < procs.Length && procs[q].asleep == Some(ToRead) {
        assert ReaderOk(q) && TaskOk(q);
      }
      k := Store(addr, start);
      assert |written| == |old(written)| + k - start;
      hide RingOk;
      if k < |addr| {
        if !readopen || procs[p].killed {
          procs[p] := procs[p].(task := Idle);
          Settled(p);
          return Returns(-1), k;
        }
        Wakeup(ToRead);
        procs[p] := procs[p].(task := Writing(addr, k), asleep := Some(ToWrite));
        Settled(p);
        return Sleeps, k;
      }
      Wakeup(ToRead);
      procs[p] := procs[p].(task := Idle);
      Settled(p);
      return Returns(k), k;
    }

    /** The other processes after a turn of p: each is as it was, or has been woken. */
    twostate lemma Settled(p: nat)
      requires old(Valid()) && Shape() && p < procs.Length
      requires forall q :: 0 <= q < procs.Length && q != p ==>
                 procs[q] == old(procs[q]) || procs[q] == old(procs[q]).(asleep := None)
      requires WriterOk(p) && ReaderOk(p) && TaskOk(p)
      requires readopen == old(readopen) && writeopen == old(writeopen)
      requires forall q :: 0 <= q < procs.Length && procs[q].asleep == Some(ToWrite) && q != p ==> (old(Full()) ==> Full())
      ensures Valid()
    {
      hide RingOk;
      forall q | 0 <= q < procs.Length
        ensures WriterOk(q) && ReaderOk(q) && TaskOk(q)
      {
        assert old(WriterOk(q)) && old(ReaderOk(q)) && old(TaskOk(q));
      }
    }

    /** piperead's loop: up to n of the bytes that are there. */
    method Fetch(n: nat) returns (out: seq<Byte>)
      requires Shape()
      modifies this`nread, this`taken
      ensures Shape() && taken == old(taken) + out && |out| <= n
      ensures |out| == n || taken == written
    {
      out := [];
      var i := 0;
      while i < n
        invariant 0 <= i <= n && Shape() && taken == old(taken) + out && |out| == i
      {
        CountersTell(|taken|, |written|);
        if nread == nwrite {
          break;
        }
        RingGet(data[..], nread, nwrite, taken, written);
        out := out + [data[nread % PIPESIZE]];
        taken := taken + [data[nread % PIPESIZE]];
        nread := (nread + 1) % UINT;
        i := i + 1;
      }
    }

    /** One turn of process p in piperead: from the start, or from waking up. What it returns are the next bytes. */
    method PipeRead(p: nat) returns (o: Outcome, out: seq<Byte>)
      requires Valid() && p < procs.Length && procs[p].task.Reading? && procs[p].asleep == None
      modifies this`nread, this`taken, procs
      ensures Valid() && taken == old(taken) + out && (old(Strict()) || taken == written ==> Strict())
      ensures procs[p] == old(procs[p]).(task := if o.Returns? then Idle else old(procs[p]).task,
                                         asleep := if o.Returns? then None else Some(ToRead))
      ensures o == Sleeps <==> old(taken == written && writeopen && !procs[p].killed)
      ensures o == Returns(-1) <==> old(taken == written && writeopen && procs[p].killed)
      ensures o.Returns? && o.r != -1 ==>
                o.r == |out| <= old(procs[p]).task.n && (o.r == old(procs[p]).task.n || taken == written)
      ensures !o.Returns? || o.r == -1 ==> out == []
      ensures forall q :: 0 <= q < procs.Length && q != p ==>
                procs[q] == if o.Returns? && o.r != -1 then Woken(old(procs[q]), ToWrite) else old(procs[q])
    {
      var n := procs[p].task.n;
      assert TaskOk(p);
      CountersTell(|taken|, |written|);
      out := [];
      if nread == nwrite && writeopen {
        if procs[p].killed {
          procs[p] := procs[p].(task := Idle);
          Settled(p);
          return Returns(-1), [];
        }
        procs[p] := procs[p].(asleep := Some(ToRead));
        Settled(p);
        return Sleeps, [];
      }
      out := Fetch(n);
      Wakeup(ToWrite);
      procs[p] := procs[p].(task := Idle);
      Settled(p);
      return Returns(|out|), out;
    }

    /** A process calls pipewrite or piperead on an end that it has open. */
    method Call(p: nat, task: Task)
      requires Valid() && p < procs.Length && procs[p].task.Idle? && procs[p].asleep == None
      requires match task
               case Idle => false
               case Writing(_, i) => writeopen && i == 0
               case Reading(_) => readopen
      modifies procs
      ensures Valid() && procs[p] == old(procs[p]).(task := task) && (old(Strict()) ==> Strict())
      ensures forall q :: 0 <= q < procs.Length && q != p ==> procs[q] == old(procs[q])
    {
      procs[p] := procs[p].(task := task);
      Settled(p);
    }

    /** kill: a sleeping process is woken. */
    method Kill(p: nat)
      requires Valid() && p < procs.Length
      modifies procs
      ensures Valid() && procs[p] == old(procs[p]).(killed := true, asleep := None) && (old(Strict()) ==> Strict())
      ensures forall q :: 0 <= q < procs.Length && q != p ==> procs[q] == old(procs[q])
    {
      assert TaskOk(p);
      procs[p] := procs[p].(killed := true);
      if procs[p].asleep.Some? {
        procs[p] := procs[p].(asleep := None);
      }
      Settled(p);
    }

    /** pipeclose, when the last descriptor of that end goes; whoever is in a call still holds one. */
    method Close(writable: bool)
      requires Valid()
      requires forall q :: 0 <= q < procs.Length ==> if writable then !procs[q].task.Writing? else !procs[q].task.Reading?
      modifies this`readopen, this`writeopen, procs
      ensures Valid() && taken == old(taken) && (old(Strict()) || writable ==> Strict())
      ensures readopen == (old(readopen) && writable) && writeopen == (old(writeopen) && !writable)
      ensures forall q :: 0 <= q < procs.Length ==> procs[q] == Woken(old(procs[q]), if writable then ToRead else ToWrite)
    {
      ghost var was := procs[..];
      assert forall q :: 0 <= q < procs.Length ==> WriterOk(q) && ReaderOk(q) && TaskOk(q);
      if writable {
        writeopen := false;
        Wakeup(ToRead);
      } else {
        readopen := false;
        Wakeup(ToWrite);
      }
      hide RingOk;
      forall q | 0 <= q < procs.Length
        ensures WriterOk(q) && ReaderOk(q) && TaskOk(q)
      {
        assert old(WriterOk(q)) && old(ReaderOk(q)) && old(TaskOk(q));
      }
    }
  }

  /** The smallest such run: a reader goes to sleep, a killed process writes one byte more than the pipe holds, and the
      reader sleeps on a full pipe. */
  method SleepsOnFullPipe() returns (s: PipeSystem)
    ensures s.Valid() && s.procs.Length == 2 && !s.Strict()
    ensures s.procs[0].asleep == Some(ToRead) && s.Full() && s.taken == [] && s.writeopen
  {
    s := new PipeSystem(2);
    s.Call(0, Reading(1));
    var o, _ := s.PipeRead(0);
    s.Kill(1);
    s.Call(1, Writing(seq(PIPESIZE + 1, _ => 0), 0));
    var o', k := s.PipeWrite(1);
    assert |s.written| == k;
  }
}

/** The stdin tty of psplink/tty.c: one reader at a time (psplink/stdio.c holds a
    semaphore around it) that sleeps on an empty ring, and a producer that wakes it.
    A wakeup sent to a thread that is not asleep yet is counted and consumed by its
    next sleep. */
module Tty {
  import opened Bytes
  import opened Ring

  /** inputHandler's program counter; the request size stays fixed during a call. */
  datatype Reader =
    | Outside
    | Ready(request: int)    // about to enter the critical section
    | Dozing(request: int)   // left it empty-handed, about to call sceKernelSleepThread
    | Sleeping(request: int)

  /** `waitth` is g_stdinwaitth: the reader's thread id `me`, or -1. */
  datatype State = State(ring: Ring, me: nat, waitth: int, reader: Reader, wakeups: nat)

  datatype Event =
    | Call(request: int)
    | Check
    | Sleep
    | AddInput(data: seq<byte>)

  predicate Enabled(s: State, e: Event) {
    match e
    case Call(_) => s.reader.Outside?
    case Check => s.reader.Ready?
    case Sleep => s.reader.Dozing?
    case AddInput(_) => true
  }

  /** One step, and the bytes handed to the caller of inputHandler. */
  function Apply(s: State, e: Event): (State, seq<byte>)
    requires s.ring.Valid() && Enabled(s, e)
  {
    match e
    case Call(n) => (s.(reader := Ready(n)), [])
    case Check =>
      var n := s.reader.request;
      var sizeread := Min(n, s.ring.size);
      if sizeread > 0 then (s.(ring := s.ring.Drop(sizeread), reader := Outside), s.ring.Contents()[..sizeread])
      else if sizeread == 0 then (s.(waitth := s.me, reader := Dozing(n)), [])
      else (s.(reader := Dozing(n)), [])
    case Sleep =>
      if s.wakeups > 0 then (s.(wakeups := s.wakeups - 1, reader := Ready(s.reader.request)), [])
      else (s.(reader := Sleeping(s.reader.request)), [])
    case AddInput(data) =>
      var s' := s.(ring := s.ring.PutMany(data));
      if s.waitth < 0 then (s', [])
      else if s.reader.Sleeping? then (s'.(waitth := -1, reader := Ready(s.reader.request)), [])
      else (s'.(waitth := -1, wakeups := s.wakeups + 1), [])
  }

  ghost function Taken(s: State, e: Event): seq<byte>
    requires s.ring.Valid()
  {
    if e.AddInput? then e.data[..s.ring.Accepts(|e.data|)] else []
  }

  predicate Initial(s: State) {
    |s.ring.buffer| == RING_SIZE && s.ring.readPos == s.ring.writePos == s.ring.size == 0
    && s.waitth == -1 && s.reader.Outside? && s.wakeups == 0
  }

  ghost predicate ValidRun(s: State, es: seq<Event>)
    requires s.ring.Valid()
    decreases |es|
  {
    es == [] || (Enabled(s, es[0]) && ValidRun(Apply(s, es[0]).0, es[1..]))
  }

  ghost function Run(s: State, es: seq<Event>): (r: (State, seq<byte>))
    requires s.ring.Valid() && ValidRun(s, es)
    ensures r.0.ring.Valid()
    decreases |es|
  {
    if es == [] then (s, [])
    else
      var (s1, out1) := Apply(s, es[0]);
      var (s2, out2) := Run(s1, es[1..]);
      (s2, out1 + out2)
  }

  ghost function AllTaken(s: State, es: seq<Event>): seq<byte>
    requires s.ring.Valid() && ValidRun(s, es)
    decreases |es|
  {
    if es == [] then [] else Taken(s, es[0]) + AllTaken(Apply(s, es[0]).0, es[1..])
  }

  /** The tty is one bounded FIFO: what it held plus what it took in is what it handed
      out plus what it holds. */
  lemma {:induction false} RunConserves(s: State, es: seq<Event>)
    requires s.ring.Valid() && ValidRun(s, es)
    ensures s.ring.Contents() + AllTaken(s, es) == Run(s, es).1 + Run(s, es).0.ring.Contents()
    decreases |es|
  {
    var held := s.ring.Contents();
    if es == [] {
      assert held + [] == [] + held;
    } else {
      var (s1, out) := Apply(s, es[0]);
      assert held + [] == [] + held;
      assert held + Taken(s, es[0]) == out + s1.ring.Contents();
      RunConserves(s1, es[1..]);
      ConservationChains(held, Taken(s, es[0]), out, s1.ring.Contents(),
                         AllTaken(s1, es[1..]), Run(s1, es[1..]).1, Run(s1, es[1..]).0.ring.Contents());
    }
  }

  /** A check of a positive request on input that is there hands out as much as was asked
      for, or all of it, and returns; any other one takes nothing. */
  lemma CheckTakes(s: State)
    requires s.ring.Valid() && s.reader.Ready?
    ensures var n, held, (t, out) := s.reader.request, s.ring.Contents(), Apply(s, Check);
            && out + t.ring.Contents() == held
            && |out| == (if n > 0 then Min(n, |held|) else 0)
            && t.reader == (if out != [] then Outside else Dozing(n))
  {
  }

  // ---- no lost wakeup ----

  /** A sleeping reader is the registered one and has nothing to read. */
  predicate NoLostWakeup(s: State) {
    s.reader.Sleeping? ==> s.waitth == s.me && s.ring.size == 0
  }

  predicate Inv(s: State) {
    match s.reader
    case Sleeping(_) => s.waitth == s.me && s.ring.size == 0 && s.wakeups == 0
    case Dozing(_) => (s.waitth == s.me && s.ring.size == 0 && s.wakeups == 0) || (s.waitth == -1 && s.wakeups == 1)
    case _ => s.waitth == -1 && s.wakeups == 0
  }

  predicate Asks(reader: Reader) {
    !reader.Outside? ==> reader.request > 0
  }

  ghost predicate OnlyAsksFor(es: seq<Event>, sizes: int -> bool) {
    forall i :: 0 <= i < |es| && es[i].Call? ==> sizes(es[i].request)
  }

  lemma {:induction false} WakeupsKept(s: State, es: seq<Event>)
    requires s.ring.Valid() && ValidRun(s, es) && Inv(s) && Asks(s.reader)
    requires OnlyAsksFor(es, n => n > 0)
    ensures Inv(Run(s, es).0)
    decreases |es|
  {
    if es != [] {
      var rest := es[1..];
      assert forall i :: 0 <= i < |rest| ==> rest[i] == es[i + 1];
      WakeupsKept(Apply(s, es[0]).0, rest);
    }
  }

  /** Input already queued, then one read of n bytes up to its sleep. */
  function StarvingRun(n: int): seq<Event> {
    [AddInput([65]), Call(n), Check, Sleep]
  }

  lemma StarvingRunStarves(s: State, n: int)
    requires Initial(s) && n <= 0
    ensures ValidRun(s, StarvingRun(n)) && !NoLostWakeup(Run(s, StarvingRun(n)).0)
  {
    var es := StarvingRun(n);
    var s1 := Apply(s, es[0]).0;
    assert s1.ring.size == 1 by { assert |s1.ring.Contents()| == 1; }
    assert es[1..] == [Call(n), Check, Sleep];
    var s2 := Apply(s1, es[1]).0;
    assert es[1..][1..] == [Check, Sleep];
    var s3 := Apply(s2, es[2]).0;
    assert es[1..][1..][1..] == [Sleep];
    var s4 := Apply(s3, es[3]).0;
    assert s4.reader.Sleeping? && s4.ring.size == 1;
    assert es[1..][1..][1..][1..] == [];
    assert Run(s4, []).0 == s4;
    assert Run(s3, [Sleep]).0 == s4;
    assert Run(s2, [Check, Sleep]).0 == s4;
    assert Run(s1, [Call(n), Check, Sleep]).0 == s4;
  }

  /** No wakeup is ever lost exactly for readers that ask for at least one byte: a read
      of 0 bytes sleeps on a full ring, and a negative one is not even registered. */
  lemma NoLostWakeupExactly(s: State, n: int)
    requires Initial(s)
    ensures s.ring.Valid()
    ensures n > 0 <==>
            forall es :: ValidRun(s, es) && OnlyAsksFor(es, m => m == n) ==> NoLostWakeup(Run(s, es).0)
  {
    if n > 0 {
      forall es | ValidRun(s, es) && OnlyAsksFor(es, m => m == n) ensures NoLostWakeup(Run(s, es).0) {
        WakeupsKept(s, es);
      }
    } else {
      StarvingRunStarves(s, n);
      assert OnlyAsksFor(StarvingRun(n), m => m == n);
    }
  }

  /** With any mix of positive requests. */
  lemma ReadersNeverStarve(s: State, es: seq<Event>)
    requires Initial(s) && s.ring.Valid() && ValidRun(s, es) && OnlyAsksFor(es, n => n > 0)
    ensures NoLostWakeup(Run(s, es).0)
  {
    WakeupsKept(s, es);
  }

  // ---- the globals ----

  class Stdin {
    const ring: ByteRing
    const me: nat
    var waitth: int
    var reader: Reader
    var wakeups: nat

    ghost function Now(): State
      reads this, ring, ring.buffer
    {
      State(ring.Now(), me, waitth, reader, wakeups)
    }

    constructor (me: nat)
      ensures ring.Valid() && Initial(Now()) && this.me == me && fresh(ring) && fresh(ring.buffer)
    {
      ring := new ByteRing();
      this.me := me;
      waitth, reader, wakeups := -1, Outside, 0;
    }

    method AddInputData(data: seq<byte>)
      requires ring.Valid()
      modifies this, ring, ring.buffer
      ensures ring.Valid() && Now() == Apply(old(Now()), AddInput(data)).0
    {
      ring.PutMany(data);
      if waitth >= 0 {
        if reader.Sleeping? {
          reader := Ready(reader.request);
        } else {
          wakeups := wakeups + 1;
        }
        waitth := -1;
      }
    }

    /** The critical section of inputHandler. */
    method CheckInput() returns (data: seq<byte>)
      requires ring.Valid() && Enabled(Now(), Check)
      modifies this, ring
      ensures ring.Valid() && (Now(), data) == Apply(old(Now()), Check)
    {
      var size := reader.request;
      var sizeread := if size < ring.size then size else ring.size;
      data := [];
      if sizeread > 0 {
        data := ring.Take(sizeread);
        reader := Outside;
      } else {
        if sizeread == 0 {
          waitth := me;
        }
        reader := Dozing(size);
      }
    }
  }
}

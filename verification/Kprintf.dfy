/** The kprintf driver of tools/kprintf/main.c: characters arrive at interrupt level
    while a thread prints what it snapshotted, reading the cells with interrupts on,
    and only then gives them back.  Every critical section, every flag operation and
    every printed character is one step, so a run is any interleaving of them. */
module Kprintf {
  import opened Bytes
  import opened Ring

  /** Where main_thread is.  `Printing` carries its locals: plow as an index, low, high,
      and how many characters printf has passed. */
  datatype Phase =
    | Waiting
    | Woken
    | Printing(plow: nat, low: nat, high: nat, passed: nat)

  /** `owed` counts PutCharDebug calls that left add_char and are about to set the flag. */
  datatype State = State(ring: Ring, flag: bool, phase: Phase, owed: nat)

  datatype Event =
    | PutChar(code: nat)  // PutCharDebug up to the end of add_char's critical section
    | Signal              // sceKernelSetEventFlag of such a call
    | Wait                // the wait returns and clears the flag
    | Snapshot            // first critical section of main_thread
    | Print               // printf passes one character
    | Commit              // second critical section

  predicate Printable(code: nat) {
    code / 0x100 % 0x100 == 0 && (code == 10 || code == 13 || code >= 32)
  }

  /** Of the codes the kernel hands over, text is a line feed, a carriage return or a byte
      from the space on. */
  lemma TextIsPrintable(code: nat)
    requires code < 0x1_0000
    ensures Printable(code) <==> code in {10, 13} || 32 <= code <= 255
  {
    if code / 0x100 < 0x100 {
      assert code / 0x100 % 0x100 == code / 0x100;
    }
  }

  /** The codes the kernel hands over fit in 16 bits, so the cast to a byte loses nothing. */
  predicate Enabled(s: State, e: Event) {
    match e
    case PutChar(code) => code < 0x1_0000
    case Signal => s.owed > 0
    case Wait => s.phase.Waiting? && s.flag
    case Snapshot => s.phase.Woken?
    case Print => s.phase.Printing? && s.phase.passed < s.phase.low + s.phase.high
    case Commit => s.phase.Printing? && s.phase.passed == s.phase.low + s.phase.high
  }

  /** The cell printf reads next: first `low` cells from plow, then `high` from the start. */
  function NextCell(p: Phase): nat
    requires p.Printing?
  {
    if p.passed < p.low then p.plow + p.passed else p.passed - p.low
  }

  /** "%.*s" stops at a NUL: the rest of that piece is not printed. */
  function PieceEnd(p: Phase): nat
    requires p.Printing?
  {
    if p.passed < p.low then p.low else p.low + p.high
  }

  predicate Accepted(s: State, code: nat) {
    Printable(code) && s.ring.size < RING_SIZE
  }

  /** One step, and the text it prints. */
  function Apply(s: State, e: Event): (State, seq<byte>)
    requires Inv(s) && Enabled(s, e)
  {
    match e
    case PutChar(code) =>
      var ring := if Accepted(s, code) then s.ring.Put(code % 0x100) else s.ring;
      var signals := code == 0x201 || (Printable(code) && ring.size == RING_SIZE);
      (s.(ring := ring, owed := if signals then s.owed + 1 else s.owed), [])
    case Signal => (s.(flag := true, owed := s.owed - 1), [])
    case Wait => (s.(flag := false, phase := Woken), [])
    case Snapshot =>
      var low := Min(RING_SIZE - s.ring.readPos, s.ring.size);
      (s.(phase := Printing(s.ring.readPos, low, s.ring.size - low, 0)), [])
    case Print =>
      var c := s.ring.buffer[NextCell(s.phase)];
      if c == 0 then (s.(phase := s.phase.(passed := PieceEnd(s.phase))), [])
      else (s.(phase := s.phase.(passed := s.phase.passed + 1)), [c])
    case Commit =>
      (s.(ring := s.ring.Drop(s.phase.low + s.phase.high), phase := Waiting), [])
  }

  /** Characters the thread has printed but not yet given back. */
  function Passed(s: State): nat {
    if s.phase.Printing? then s.phase.passed else 0
  }

  ghost predicate Inv(s: State) {
    && s.ring.Valid()
    && 0 !in s.ring.Contents()
    && (s.phase.Printing? ==>
          && s.phase.plow == s.ring.readPos
          && s.phase.passed <= s.phase.low + s.phase.high <= s.ring.size
          && s.phase.low <= RING_SIZE - s.phase.plow
          && (s.phase.high > 0 ==> s.phase.low == RING_SIZE - s.phase.plow))
    // a full ring is on its way to being drained
    && (s.ring.size == RING_SIZE ==>
          s.flag || s.owed > 0 || s.phase.Woken? || (s.phase.Printing? && s.phase.low + s.phase.high == RING_SIZE))
  }

  /** What is still to come out: accepted, not yet printed. */
  ghost function Unprinted(s: State): seq<byte>
    requires Inv(s)
  {
    s.ring.Contents()[Passed(s)..]
  }

  ghost function Taken(s: State, e: Event): seq<byte> {
    if e.PutChar? && Accepted(s, e.code) then [e.code % 0x100] else []
  }

  lemma ApplyKeeps(s: State, e: Event)
    requires Inv(s) && Enabled(s, e)
    ensures var (s', out) := Apply(s, e);
            Inv(s') && Unprinted(s) + Taken(s, e) == out + Unprinted(s')
  {
    match e
    case PutChar(code) =>
      if Accepted(s, code) { PutCharKeeps(s, code); }
    case Print => NextIsOldest(s);
    case _ =>
  }

  lemma PutCharKeeps(s: State, code: nat)
    requires Inv(s) && Enabled(s, PutChar(code)) && Accepted(s, code)
    ensures var s' := Apply(s, PutChar(code)).0;
            Inv(s') && Unprinted(s) + [code % 0x100] == Unprinted(s')
  {
    PutAppends(s.ring, code % 0x100);
    assert code % 0x100 == code;
    Behind(s.ring.Contents(), [code], Passed(s));
  }

  /** printf's next cell holds the oldest character not yet printed. */
  lemma NextIsOldest(s: State)
    requires Inv(s) && Enabled(s, Print)
    ensures var c := s.ring.buffer[NextCell(s.phase)];
            c != 0 && s.ring.Contents()[s.phase.passed..] == [c] + s.ring.Contents()[s.phase.passed + 1..]
  {
    var i := s.phase.passed;
    assert NextCell(s.phase) == Slot(s.ring.readPos, i);
    assert s.ring.Contents()[i] == s.ring.buffer[NextCell(s.phase)];
  }

  lemma Behind(queued: seq<byte>, more: seq<byte>, k: nat)
    requires k <= |queued|
    ensures queued[k..] + more == (queued + more)[k..]
  {
  }

  ghost predicate ValidRun(s: State, es: seq<Event>)
    requires Inv(s)
    decreases |es|
  {
    es == [] || (Enabled(s, es[0]) && (ApplyKeeps(s, es[0]); ValidRun(Apply(s, es[0]).0, es[1..])))
  }

  ghost function Run(s: State, es: seq<Event>): (r: (State, seq<byte>))
    requires Inv(s) && ValidRun(s, es)
    ensures Inv(r.0)
    decreases |es|
  {
    if es == [] then (s, [])
    else
      ApplyKeeps(s, es[0]);
      var (s1, out1) := Apply(s, es[0]);
      var (s2, out2) := Run(s1, es[1..]);
      (s2, out1 + out2)
  }

  /** The characters add_char accepted during the run. */
  ghost function AllTaken(s: State, es: seq<Event>): seq<byte>
    requires Inv(s) && ValidRun(s, es)
    decreases |es|
  {
    if es == [] then []
    else
      ApplyKeeps(s, es[0]);
      Taken(s, es[0]) + AllTaken(Apply(s, es[0]).0, es[1..])
  }

  /** Over every interleaving, what was waiting plus what was accepted is what was
      printed plus what still waits: nothing lost, repeated, reordered or overwritten. */
  lemma {:induction false} RunConserves(s: State, es: seq<Event>)
    requires Inv(s) && ValidRun(s, es)
    ensures Unprinted(s) + AllTaken(s, es) == Run(s, es).1 + Unprinted(Run(s, es).0)
    decreases |es|
  {
    if es != [] {
      ApplyKeeps(s, es[0]);
      var (s1, out) := Apply(s, es[0]);
      RunConserves(s1, es[1..]);
      ConservationChains(Unprinted(s), Taken(s, es[0]), out, Unprinted(s1),
                         AllTaken(s1, es[1..]), Run(s1, es[1..]).1, Unprinted(Run(s1, es[1..]).0));
    } else {
      assert Unprinted(s) + [] == [] + Unprinted(s);
    }
  }

  ghost predicate Initial(s: State) {
    s.ring.Valid() && s.ring.size == 0 && !s.flag && s.phase.Waiting? && s.owed == 0
  }

  /** From start-up the printed text is a prefix of the accepted text, and between two
      drains what has not been printed is what the ring holds. */
  lemma PrintedIsAccepted(s: State, es: seq<Event>)
    requires Initial(s) && Inv(s) && ValidRun(s, es)
    ensures Run(s, es).1 <= AllTaken(s, es)
    ensures !Run(s, es).0.phase.Printing? ==>
              AllTaken(s, es) == Run(s, es).1 + Run(s, es).0.ring.Contents()
  {
    RunConserves(s, es);
    assert Unprinted(s) == [];
    assert Unprinted(s) + AllTaken(s, es) == AllTaken(s, es);
  }

  /** In every run from start-up, a printable character is dropped exactly when 4096 of
      the accepted ones have not been given back, and then a drain is already under way:
      signalled, about to be signalled, or snapshotted whole. */
  lemma DroppedOnlyWhenFull(s: State, es: seq<Event>, code: nat)
    requires Initial(s) && Inv(s) && ValidRun(s, es) && Printable(code)
    ensures var (t, printed) := Run(s, es);
            && (!Accepted(t, code) <==> |AllTaken(s, es)| - |printed| + Passed(t) == 4096)
            && (!Accepted(t, code) ==>
                  t.flag || t.owed > 0 || t.phase.Woken? || (t.phase.Printing? && t.phase.low + t.phase.high == 4096))
  {
    RunConserves(s, es);
    assert |Unprinted(s) + AllTaken(s, es)| == |AllTaken(s, es)|;
  }

  // ---- drains ----

  /** A snapshot takes the whole ring, and printing starts at its oldest character. */
  lemma SnapshotTakesAll(s: State)
    requires Inv(s) && Enabled(s, Snapshot)
    ensures var t := Apply(s, Snapshot).0;
            t.phase.Printing? && t.phase.passed == 0 && t.phase.low + t.phase.high == s.ring.size && t.ring == s.ring
  {
  }

  /** The events end with their only commit. */
  ghost predicate OneCommit(es: seq<Event>) {
    es != [] && es[|es| - 1].Commit? && forall i :: 0 <= i < |es| - 1 ==> !es[i].Commit?
  }

  /** Up to its commit, a drain prints as many characters as its snapshot has left. */
  lemma {:induction false} DrainLength(s: State, es: seq<Event>)
    requires Inv(s) && ValidRun(s, es) && s.phase.Printing? && OneCommit(es)
    ensures |Run(s, es).1| == s.phase.low + s.phase.high - s.phase.passed && Run(s, es).0.phase.Waiting?
    decreases |es|
  {
    ApplyKeeps(s, es[0]);
    var t := Apply(s, es[0]).0;
    if es[0].Commit? {
      assert es[1..] == [];
    } else {
      if es[0].Print? { NextIsOldest(s); }
      assert es[1..][|es| - 2] == es[|es| - 1];
      DrainLength(t, es[1..]);
    }
  }

  /** From a snapshot to its commit, whatever arrives in between, exactly what the ring held
      at the snapshot is printed, and exactly what was accepted since is left in it. */
  lemma DrainPrintsSnapshot(s: State, es: seq<Event>)
    requires Inv(s) && ValidRun(s, es) && OneCommit(es) && es[0].Snapshot?
    ensures Run(s, es).1 == s.ring.Contents() && Run(s, es).0.ring.Contents() == AllTaken(s, es)
  {
    SnapshotTakesAll(s);
    ApplyKeeps(s, es[0]);
    assert es[1..][|es| - 2] == es[|es| - 1];
    DrainLength(Apply(s, es[0]).0, es[1..]);
    RunConserves(s, es);
    SameLengthSplit(s.ring.Contents(), AllTaken(s, es), Run(s, es).1, Run(s, es).0.ring.Contents());
  }

  lemma SameLengthSplit(a: seq<byte>, b: seq<byte>, c: seq<byte>, d: seq<byte>)
    requires a + b == c + d && |a| == |c|
    ensures a == c && b == d
  {
    assert a == (a + b)[..|a|] && b == (a + b)[|a|..];
    assert c == (c + d)[..|c|] && d == (c + d)[|c|..];
  }

  /** A drain is on its way that has not taken its snapshot. */
  predicate Due(s: State) {
    s.flag || s.owed > 0 || s.phase.Woken?
  }

  /** The end of a string, and a character that fills the ring or finds it full, call for
      a drain. */
  lemma EndOfStringIsDue(s: State, code: nat)
    requires Inv(s) && Enabled(s, PutChar(code))
    requires code == 0x201 || (Printable(code) && s.ring.size >= RING_SIZE - 1)
    ensures var t := Apply(s, PutChar(code)).0;
            Due(t) && Inv(t) && Unprinted(t) == Unprinted(s) + Taken(s, PutChar(code))
  {
    ApplyKeeps(s, PutChar(code));
    assert [] + Unprinted(Apply(s, PutChar(code)).0) == Unprinted(Apply(s, PutChar(code)).0);
  }

  /** Nothing is left to do until the next character. */
  predicate Quiet(s: State) {
    !Due(s) && s.phase.Waiting?
  }

  /** The first k characters that wait are sure to be printed. */
  predicate Promised(s: State, k: nat) {
    k == 0 || Due(s) || (s.phase.Printing? && s.phase.passed + k <= s.phase.low + s.phase.high)
  }

  lemma PromiseKept(s: State, e: Event, k: nat)
    requires Inv(s) && Enabled(s, e) && k <= |Unprinted(s)| && Promised(s, k)
    ensures var (t, out) := Apply(s, e);
            var left := if |out| < k then k - |out| else 0;
            Inv(t) && left <= |Unprinted(t)| && Promised(t, left)
  {
    ApplyKeeps(s, e);
    if e.Print? { NextIsOldest(s); }
    assert |Unprinted(s) + Taken(s, e)| == |Apply(s, e).1 + Unprinted(Apply(s, e).0)|;
  }

  lemma {:induction false} PromisesKept(s: State, es: seq<Event>, k: nat)
    requires Inv(s) && ValidRun(s, es) && k <= |Unprinted(s)| && Promised(s, k) && Quiet(Run(s, es).0)
    ensures k <= |Run(s, es).1|
    decreases |es|
  {
    if es != [] {
      PromiseKept(s, es[0], k);
      var (t, out) := Apply(s, es[0]);
      PromisesKept(t, es[1..], if |out| < k then k - |out| else 0);
    }
  }

  /** Once a drain was called for, a run that comes to rest has printed everything that
      was waiting then, whatever arrived in between. */
  lemma QuietHasPrinted(s: State, es: seq<Event>)
    requires Inv(s) && Due(s) && ValidRun(s, es) && Quiet(Run(s, es).0)
    ensures Unprinted(s) <= Run(s, es).1
  {
    PromisesKept(s, es, |Unprinted(s)|);
    RunConserves(s, es);
    var printed := Run(s, es).1;
    assert Unprinted(s) == (Unprinted(s) + AllTaken(s, es))[..|Unprinted(s)|];
    assert printed[..|Unprinted(s)|] == (printed + Unprinted(Run(s, es).0))[..|Unprinted(s)|];
  }

  function Work(s: State): nat {
    10000 * s.owed + (if s.flag then 5000 else 0) +
    match s.phase
    case Waiting => 0
    case Woken => RING_SIZE + 2
    case Printing(_, low, high, passed) => 1 + if passed < low + high then low + high - passed else 0
  }

  /** Left alone it does come to rest: every step but an arrival leaves less to do, and
      one is possible until it has. */
  lemma ComesToRest(s: State)
    requires Inv(s)
    ensures forall e: Event :: Enabled(s, e) && !e.PutChar? ==> Work(Apply(s, e).0) < Work(s)
    ensures Quiet(s) <==> forall e: Event :: Enabled(s, e) ==> e.PutChar?
  {
    forall e: Event | Enabled(s, e) && !e.PutChar? ensures Work(Apply(s, e).0) < Work(s) {
      if e.Print? { NextIsOldest(s); }
    }
    if !Quiet(s) {
      assert Enabled(s, Signal) || Enabled(s, Wait) || Enabled(s, Snapshot) || Enabled(s, Print) || Enabled(s, Commit);
    }
  }

  // ---- the globals ----

  class Driver {
    const ring: ByteRing
    var flag: bool
    var phase: Phase
    var owed: nat

    ghost predicate Valid()
      reads this, ring, ring.buffer
    {
      ring.Valid() && Inv(Now())
    }

    ghost function Now(): State
      reads this, ring, ring.buffer
    {
      State(ring.Now(), flag, phase, owed)
    }

    constructor ()
      ensures Valid() && Initial(Now()) && fresh(ring) && fresh(ring.buffer)
    {
      ring := new ByteRing();
      flag, phase, owed := false, Waiting, 0;
    }

    method AddChar(ch: byte) returns (total: nat)
      requires ring.Valid()
      modifies ring, ring.buffer
      ensures ring.Valid() && total == ring.Now().size
      ensures ring.Now() == if old(ring.Now().size) < RING_SIZE then old(ring.Now()).Put(ch) else old(ring.Now())
    {
      if ring.size < RING_SIZE {
        ring.Put(ch);
      }
      total := ring.size;
    }

    method PutCharDebug(code: nat)
      requires Valid() && Enabled(Now(), PutChar(code))
      modifies this, ring, ring.buffer
      ensures Valid() && Now() == Apply(old(Now()), PutChar(code)).0
    {
      ApplyKeeps(Now(), PutChar(code));
      var total := 0;
      if code / 0x100 % 0x100 == 0 {
        if code == 10 || code == 13 || code >= 32 {
          total := AddChar(code % 0x100);
        }
      }
      if code == 0x201 || total == RING_SIZE {
        owed := owed + 1;
      }
    }

    method SetEventFlag()
      requires Valid() && Enabled(Now(), Signal)
      modifies this
      ensures Valid() && Now() == Apply(old(Now()), Signal).0
    {
      flag, owed := true, owed - 1;
    }

    method WaitEventFlag()
      requires Valid() && Enabled(Now(), Wait)
      modifies this
      ensures Valid() && Now() == Apply(old(Now()), Wait).0
    {
      flag, phase := false, Woken;
    }

    method TakeSnapshot()
      requires Valid() && Enabled(Now(), Snapshot)
      modifies this
      ensures Valid() && Now() == Apply(old(Now()), Snapshot).0
    {
      var plow, low, high := ring.readPos, 0, 0;
      if ring.size > 0 {
        low := if RING_SIZE - ring.readPos < ring.size then RING_SIZE - ring.readPos else ring.size;
        if low < ring.size {
          high := ring.size - low;
        }
      }
      phase := Printing(plow, low, high, 0);
    }

    method PrintChar() returns (out: seq<byte>)
      requires Valid() && Enabled(Now(), Print)
      modifies this
      ensures Valid() && (Now(), out) == Apply(old(Now()), Print)
    {
      ApplyKeeps(Now(), Print);
      var c := ring.buffer[NextCell(phase)];
      if c == 0 {
        phase := phase.(passed := PieceEnd(phase));
        out := [];
      } else {
        phase := phase.(passed := phase.passed + 1);
        out := [c];
      }
    }

    method CommitSnapshot()
      requires Valid() && Enabled(Now(), Commit)
      modifies this, ring
      ensures Valid() && Now() == Apply(old(Now()), Commit).0
    {
      ApplyKeeps(Now(), Commit);
      ring.Advance(phase.low + phase.high);
      phase := Waiting;
    }
  }
}

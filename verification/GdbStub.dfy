/** The exception handler of gdbcommon/gdb-stub.c as a memory transformer: it takes
    the step plants back on every trap, serves memory commands, and resumes the
    program by a step or a continue.  The debugger at the other end, and the
    program itself, never see a plant. */
module GdbStub {
  import opened Options
  import opened Sequences
  import opened Bytes
  import opened Overlay
  import opened Mips
  import opened Plants

  /** The saved registers of the trapped program, and whether its module has been started. */
  datatype Context = Context(epc: Word, regs: seq<Word>, started: bool)

  /** What a packet does: m reads and M or X writes byte by byte, G sets the registers, s and
      c resume, at an address or where the program stopped; every other packet only replies. */
  datatype Command =
    | Read(address: Word)
    | Write(address: Word, value: byte)
    | SetRegs(ctx: Context)
    | Step(resumeAt: Option<Word>)
    | Continue(resumeAt: Option<Word>)
    | Other

  /** One byte of a little-endian word. */
  function ByteOf(w: Word, lane: nat): byte
    requires lane < 4
  {
    Le32(w)[lane]
  }

  function WithByte(w: Word, lane: nat, b: byte): Word
    requires lane < 4
  {
    LoadLe32(Le32(w)[lane := b], 0)
  }

  lemma WithByteReadsBack(w: Word, lane: nat, b: byte, other: nat)
    requires lane < 4 && other < 4
    ensures ByteOf(WithByte(w, lane, b), other) == if other == lane then b else ByteOf(w, other)
  {
    StoredLoad(Le32(w)[lane := b]);
  }

  /** A byte written is the byte read, and every other address reads as before. */
  lemma PutThenGet(mem: seq<Word>, a: Word, b: byte, other: Word)
    requires |mem| == MEM_WORDS
    ensures GetByte(PutByte(mem, a, b), other)
         == if other % 0x1000_0000 == a % 0x1000_0000 then b else GetByte(mem, other)
  {
    WithByteReadsBack(mem[Cell(a)], a % 4, b, other % 4);
    SameByte(a, other);
  }

  lemma SameByte(a: Word, other: Word)
    ensures Cell(a) == Cell(other) && a % 4 == other % 4 <==> a % 0x1000_0000 == other % 0x1000_0000
  {
    LaneOf(a);
    LaneOf(other);
  }

  lemma LaneOf(a: Word)
    ensures a % 0x1000_0000 == 4 * Cell(a) + a % 4
  {
    var x := a % 0x1000_0000;
    assert a == a / 0x1000_0000 * 0x1000_0000 + x;
  }

  function GetByte(mem: seq<Word>, a: Word): byte
    requires |mem| == MEM_WORDS
  {
    ByteOf(mem[Cell(a)], a % 4)
  }

  function PutByte(mem: seq<Word>, a: Word, b: byte): (m: seq<Word>)
    requires |mem| == MEM_WORDS
    ensures |m| == MEM_WORDS
  {
    mem[Cell(a) := WithByte(mem[Cell(a)], a % 4, b)]
  }

  /** A word holds its four bytes, lowest first. */
  lemma WordIsItsBytes(mem: seq<Word>, a: Word)
    requires |mem| == MEM_WORDS && Aligned(a)
    ensures LoadLe32([GetByte(mem, a), GetByte(mem, a + 1), GetByte(mem, a + 2), GetByte(mem, a + 3)], 0) == mem[Cell(a)]
  {
    var w := mem[Cell(a)];
    InWord(a, 1);
    InWord(a, 2);
    InWord(a, 3);
    assert [] + Le32(w) + [] == Le32(w);
    LoadStored([], w, []);
  }

  lemma InWord(a: Word, i: nat)
    requires Aligned(a) && i < 4
    ensures a + i < 0x1_0000_0000 && Cell(a + i) == Cell(a) && (a + i) % 4 == i
  {
    LaneOf(a + i);
    LaneOf(a);
  }

  function Resumed(ctx: Context, resumeAt: Option<Word>): Context {
    if resumeAt.Some? then ctx.(epc := resumeAt.value) else ctx
  }

  /** c: a module that is not running yet is started, and the address ignored. */
  function Continued(ctx: Context, resumeAt: Option<Word>): Context {
    if ctx.started then Resumed(ctx, resumeAt) else ctx.(started := true)
  }

  /** The registers are 32, and every step starts at a word. */
  ghost predicate StepsAligned(ctx: Context, cmds: seq<Command>)
    decreases |cmds|
  {
    |ctx.regs| == 32 &&
    (cmds == [] ||
     match cmds[0]
     case Step(at) => Aligned(Resumed(ctx, at).epc)
     case Continue(_) => true
     case SetRegs(c) => StepsAligned(c, cmds[1..])
     case _ => StepsAligned(ctx, cmds[1..]))
  }

  /** The stepper, the replies to reads and the registers the program resumes with. */
  datatype Served = Served(at: Stepper, replies: seq<byte>, ctx: Context)

  /** The command loop, from a trap's first packet to the packet that resumes the
      program or to a lost connection. */
  function Serve(s: Stepper, ctx: Context, cmds: seq<Command>): (res: Served)
    requires s.Shape() && StepsAligned(ctx, cmds)
    ensures res.at.Shape()
    decreases |cmds|
  {
    if cmds == [] then Served(s, [], ctx)
    else match cmds[0]
      case Read(a) => var rest := Serve(s, ctx, cmds[1..]); rest.(replies := [GetByte(s.mem, a)] + rest.replies)
      case Write(a, b) => Serve(s.(mem := PutByte(s.mem, a, b)), ctx, cmds[1..])
      case SetRegs(c) => Serve(s, c, cmds[1..])
      case Step(at) => var c := Resumed(ctx, at); Served(s.StepGeneric(c.epc, c.regs, false, true), [], c)
      case Continue(at) => Served(s, [], Continued(ctx, at))
      case Other => Serve(s, ctx, cmds[1..])
  }

  /** The same commands on a memory that has no stub in it. */
  datatype Plain = Plain(mem: seq<Word>, replies: seq<byte>, ctx: Context)

  function ServePlain(mem: seq<Word>, ctx: Context, cmds: seq<Command>): (res: Plain)
    requires |mem| == MEM_WORDS
    ensures |res.mem| == MEM_WORDS
    decreases |cmds|
  {
    if cmds == [] then Plain(mem, [], ctx)
    else match cmds[0]
      case Read(a) => var rest := ServePlain(mem, ctx, cmds[1..]); rest.(replies := [GetByte(mem, a)] + rest.replies)
      case Write(a, b) => ServePlain(PutByte(mem, a, b), ctx, cmds[1..])
      case SetRegs(c) => ServePlain(mem, c, cmds[1..])
      case Step(at) => Plain(mem, [], Resumed(ctx, at))
      case Continue(at) => Plain(mem, [], Continued(ctx, at))
      case Other => ServePlain(mem, ctx, cmds[1..])
  }

  /** Served with no plant outstanding, the commands read and write plain memory, the
      program resumes as on plain memory, and whatever the last command plants lies over
      exactly that memory. */
  lemma {:induction false} ServeIsPlain(s: Stepper, ctx: Context, cmds: seq<Command>)
    requires s.Shape() && !s.Pending() && StepsAligned(ctx, cmds)
    ensures var t, p := Serve(s, ctx, cmds), ServePlain(s.mem, ctx, cmds);
            t.at.Over(p.mem) && t.replies == p.replies && t.ctx == p.ctx
    decreases |cmds|
  {
    if cmds == [] {
      QuietIsOver(s, s.mem);
    } else {
      match cmds[0]
      case Write(a, b) => ServeIsPlain(s.(mem := PutByte(s.mem, a, b)), ctx, cmds[1..]);
      case SetRegs(c) => ServeIsPlain(s, c, cmds[1..]);
      case Step(at) =>
        var c := Resumed(ctx, at);
        StepKeeps(s, c.epc, c.regs, false, true);
      case Continue(_) => QuietIsOver(s, s.mem);
      case _ => ServeIsPlain(s, ctx, cmds[1..]);
    }
  }

  // ---- the resuming packets ----

  predicate Stays(cmds: seq<Command>) {
    forall i :: 0 <= i < |cmds| ==> !cmds[i].Step? && !cmds[i].Continue?
  }

  /** s: a break stands wherever the instruction leads, at $ra for SYSCALL, and the next
      trap gives the memory back. */
  lemma StepPlants(s: Stepper, ctx: Context, at: Option<Word>, more: seq<Command>, flag: int -> bool)
    requires s.Shape() && !s.Pending() && StepsAligned(ctx, [Step(at)] + more)
    ensures var c := if at.Some? then Context(at.value, ctx.regs, ctx.started) else ctx;
            var w := s.Lw(c.epc);
            var t := Serve(s, ctx, [Step(at)] + more);
            && t.ctx == c && t.replies == [] && t.at.Recover().mem == s.mem && !t.at.Recover().Pending()
            && (forall a :: a in PlanStep(w, c.epc, c.regs, false, true).Targets() ==> t.at.Lw(a) == SW_BREAK_INST)
            && (Registers(c.regs) && Recognised(w, c.epc, c.regs, true) ==>
                  t.at.Lw(NextPc(w, c.epc, c.regs, flag)) == SW_BREAK_INST)
  {
    var c := Resumed(ctx, at);
    var t := s.StepGeneric(c.epc, c.regs, false, true);
    StepKeeps(s, c.epc, c.regs, false, true);
    PlantsStand(s, c.epc, c.regs, false, true);
    RecoverUndoes(s.mem, t);
    assert Serve(s, ctx, [Step(at)] + more) == Served(t, [], c);
    if Registers(c.regs) && Recognised(s.Lw(c.epc), c.epc, c.regs, true) {
      StepCovers(s.Lw(c.epc), c.epc, c.regs, flag, true);
    }
  }

  /** c: nothing is planted, and the program goes on at the address given, unless it is only
      being started. */
  lemma ContinuePlantsNothing(s: Stepper, ctx: Context, at: Option<Word>, more: seq<Command>)
    requires s.Shape() && !s.Pending() && StepsAligned(ctx, [Continue(at)] + more)
    ensures var t := Serve(s, ctx, [Continue(at)] + more);
            && t.at == s && t.replies == [] && t.ctx.started && t.ctx.regs == ctx.regs
            && t.ctx.epc == if ctx.started && at.Some? then at.value else ctx.epc
  {
  }

  /** The commands in front of a resuming one leave what ServePlain says, and it is served
      from there. */
  lemma {:induction false} ServesBoth(s: Stepper, ctx: Context, cmds: seq<Command>, more: seq<Command>)
    requires s.Shape() && Stays(cmds) && StepsAligned(ctx, cmds + more)
    ensures var p := ServePlain(s.mem, ctx, cmds);
            && StepsAligned(p.ctx, more)
            && var t := Serve(s.(mem := p.mem), p.ctx, more);
               Serve(s, ctx, cmds + more) == t.(replies := p.replies + t.replies)
    decreases |cmds|
  {
    if cmds == [] {
      assert cmds + more == more;
      assert [] + Serve(s, ctx, more).replies == Serve(s, ctx, more).replies;
    } else {
      var rest := cmds[1..];
      assert (cmds + more)[1..] == rest + more;
      assert forall i :: 0 <= i < |rest| ==> rest[i] == cmds[i + 1];
      match cmds[0]
      case Read(a) =>
        ServesBoth(s, ctx, rest, more);
        var p := ServePlain(s.mem, ctx, rest);
        Assoc([GetByte(s.mem, a)], p.replies, Serve(s.(mem := p.mem), p.ctx, more).replies);
      case Write(a, b) => ServesBoth(s.(mem := PutByte(s.mem, a, b)), ctx, rest, more);
      case SetRegs(c) => ServesBoth(s, c, rest, more);
      case Other => ServesBoth(s, ctx, rest, more);
      case Step(_) =>
      case Continue(_) =>
    }
  }

  /** A step in the middle of a session comes back: from the memory and the registers the
      commands before it leave, a break is in the program's way, and the next trap finds
      that memory again. */
  lemma StepComesBack(s: Stepper, ctx: Context, cmds: seq<Command>, at: Option<Word>, more: seq<Command>, flag: int -> bool)
    requires s.Shape() && !s.Pending() && Stays(cmds) && StepsAligned(ctx, cmds + ([Step(at)] + more))
    ensures var p := ServePlain(s.mem, ctx, cmds);
            var c := if at.Some? then Context(at.value, p.ctx.regs, p.ctx.started) else p.ctx;
            |c.regs| == 32 &&
            var w := p.mem[Cell(c.epc)];
            var t := Serve(s, ctx, cmds + ([Step(at)] + more));
            && t.ctx == c && t.replies == p.replies && t.at.Recover().mem == p.mem
            && (forall a :: a in PlanStep(w, c.epc, c.regs, false, true).Targets() ==> t.at.Lw(a) == SW_BREAK_INST)
            && (Registers(c.regs) && Recognised(w, c.epc, c.regs, true) ==>
                  t.at.Lw(NextPc(w, c.epc, c.regs, flag)) == SW_BREAK_INST)
  {
    var p := ServePlain(s.mem, ctx, cmds);
    ServesBoth(s, ctx, cmds, [Step(at)] + more);
    StepPlants(s.(mem := p.mem), p.ctx, at, more, flag);
    assert p.replies + [] == p.replies;
  }

  // ---- runs: traps with their command loops, and the program's own stores ----

  datatype Event =
    | Trap(ctx: Context, cmds: seq<Command>)
    | Store(address: Word, word: Word)

  ghost predicate Enabled(s: Stepper, e: Event)
    requires s.Shape()
  {
    match e
    case Trap(ctx, cmds) => StepsAligned(ctx, cmds)
    case Store(a, _) => Free(Patches(s.step), Cell(a))
  }

  /** GdbHandleException, or one store by the running program. */
  ghost function Apply(s: Stepper, e: Event): (res: (Stepper, seq<byte>))
    requires s.Shape() && Enabled(s, e)
    ensures res.0.Shape()
  {
    match e
    case Trap(ctx, cmds) => var t := Serve(s.Recover(), ctx, cmds); (t.at, t.replies)
    case Store(a, w) => (s.Sw(w, a), [])
  }

  function ApplyPlain(mem: seq<Word>, e: Event): (res: (seq<Word>, seq<byte>))
    requires |mem| == MEM_WORDS
    ensures |res.0| == MEM_WORDS
  {
    match e
    case Trap(ctx, cmds) => var p := ServePlain(mem, ctx, cmds); (p.mem, p.replies)
    case Store(a, w) => (mem[Cell(a) := w], [])
  }

  ghost predicate ValidRun(s: Stepper, es: seq<Event>)
    requires s.Shape()
    decreases |es|
  {
    es == [] || (Enabled(s, es[0]) && ValidRun(Apply(s, es[0]).0, es[1..]))
  }

  ghost function Run(s: Stepper, es: seq<Event>): (res: (Stepper, seq<byte>))
    requires s.Shape() && ValidRun(s, es)
    ensures res.0.Shape()
    decreases |es|
  {
    if es == [] then (s, [])
    else
      var (s1, w1) := Apply(s, es[0]);
      var (s2, w2) := Run(s1, es[1..]);
      (s2, w1 + w2)
  }

  function RunPlain(mem: seq<Word>, es: seq<Event>): (res: (seq<Word>, seq<byte>))
    requires |mem| == MEM_WORDS
    ensures |res.0| == MEM_WORDS
    decreases |es|
  {
    if es == [] then (mem, [])
    else
      var (m1, w1) := ApplyPlain(mem, es[0]);
      var (m2, w2) := RunPlain(m1, es[1..]);
      (m2, w1 + w2)
  }

  lemma ApplyIsPlain(s: Stepper, mem: seq<Word>, e: Event)
    requires s.Over(mem) && Enabled(s, e)
    ensures |mem| == MEM_WORDS
    ensures Apply(s, e).0.Over(ApplyPlain(mem, e).0)
    ensures Apply(s, e).1 == ApplyPlain(mem, e).1
  {
    match e
    case Trap(ctx, cmds) =>
      RecoverUndoes(mem, s);
      ServeIsPlain(s.Recover(), ctx, cmds);
    case Store(a, w) => StoreKeeps(mem, Patches(s.step), s.mem, Cell(a), w);
  }

  /** Over any run, the plants lie over the memory a stub-free machine would have, and
      every read is answered as that machine would answer it. */
  lemma {:induction false} RunIsPlain(s: Stepper, mem: seq<Word>, es: seq<Event>)
    requires s.Over(mem) && ValidRun(s, es)
    ensures |mem| == MEM_WORDS
    ensures Run(s, es).0.Over(RunPlain(mem, es).0)
    ensures Run(s, es).1 == RunPlain(mem, es).1
    decreases |es|
  {
    if es != [] {
      ApplyIsPlain(s, mem, es[0]);
      RunIsPlain(Apply(s, es[0]).0, ApplyPlain(mem, es[0]).0, es[1..]);
    }
  }

  /** Whenever a command loop runs (here after `es`, with `cmds` served so far and none
      of them resuming), no plant is active and memory is the program's own plus the
      debugger's writes. */
  lemma CommandLoopSeesNoPlants(s: Stepper, es: seq<Event>, ctx: Context, cmds: seq<Command>)
    requires s.Shape() && !s.Pending() && ValidRun(s, es) && StepsAligned(ctx, cmds)
    requires forall i :: 0 <= i < |cmds| ==> !cmds[i].Step? && !cmds[i].Continue?
    ensures var t := Serve(Run(s, es).0.Recover(), ctx, cmds).at;
            !t.Pending() && t.mem == ServePlain(RunPlain(s.mem, es).0, ctx, cmds).mem
  {
    QuietIsOver(s, s.mem);
    RunIsPlain(s, s.mem, es);
    var t := Run(s, es).0;
    RecoverUndoes(RunPlain(s.mem, es).0, t);
    QuietLoop(t.Recover(), ctx, cmds);
    ServeIsPlain(t.Recover(), ctx, cmds);
    QuietIsOver(Serve(t.Recover(), ctx, cmds).at, ServePlain(t.Recover().mem, ctx, cmds).mem);
  }

  lemma {:induction false} QuietLoop(s: Stepper, ctx: Context, cmds: seq<Command>)
    requires s.Shape() && !s.Pending() && StepsAligned(ctx, cmds)
    requires forall i :: 0 <= i < |cmds| ==> !cmds[i].Step? && !cmds[i].Continue?
    ensures !Serve(s, ctx, cmds).at.Pending()
    decreases |cmds|
  {
    if cmds != [] {
      var rest := cmds[1..];
      assert forall i :: 0 <= i < |rest| ==> rest[i] == cmds[i + 1];
      match cmds[0]
      case Write(a, b) => QuietLoop(s.(mem := PutByte(s.mem, a, b)), ctx, rest);
      case SetRegs(c) => QuietLoop(s, c, rest);
      case Read(_) => QuietLoop(s, ctx, rest);
      case Other => QuietLoop(s, ctx, rest);
      case Step(_) =>
      case Continue(_) =>
    }
  }

  /** The exception handler on the arrays: the replies and the registers the program
      resumes with. */
  method GdbHandleException(plants: StepPlants, saved: Context, cmds: seq<Command>)
    returns (replies: seq<byte>, ctx: Context)
    requires plants.Valid() && StepsAligned(saved, cmds)
    modifies plants.step, plants.mem
    ensures plants.Valid()
    ensures Served(plants.Now(), replies, ctx) == Serve(old(plants.Now()).Recover(), saved, cmds)
  {
    plants.RecoverSlots();
    replies, ctx := [], saved;
    var k := 0;
    ghost var goal := Serve(plants.Now(), saved, cmds);
    assert cmds[0..] == cmds;
    while k < |cmds|
      invariant 0 <= k <= |cmds|
      invariant plants.Valid() && StepsAligned(ctx, cmds[k..])
      invariant var t := Serve(plants.Now(), ctx, cmds[k..]);
                goal == Served(t.at, replies + t.replies, t.ctx)
    {
      assert cmds[k..][1..] == cmds[k + 1..];
      match cmds[k] {
        case Read(a) => replies := replies + [ByteOf(plants.mem[Cell(a)], a % 4)];
        case Write(a, b) => plants.mem[Cell(a)] := WithByte(plants.mem[Cell(a)], a % 4, b);
        case SetRegs(c) => ctx := c;
        case Step(at) =>
          ctx := Resumed(ctx, at);
          plants.Step(ctx.epc, ctx.regs, false, true);
          return;
        case Continue(at) =>
          ctx := Continued(ctx, at);
          return;
        case Other =>
      }
      k := k + 1;
    }
    assert cmds[k..] == [];
  }
}

/** The software breakpoints and the single step of psplink/debug.c.

    Persistent breakpoints patch program memory; a step plants up to two more
    breaks on top of them.  The functions on `State` specify each operation, the
    lemmas show that any run of them keeps the program recoverable, and class
    `Debugger` performs the operations on the arrays. */
module Debugger {
  import opened Options
  import opened Bits
  import opened Overlay
  import opened Mips
  import opened Plants

  const MAX_BPS := 16

  /** Memory and step plants in `at`, the breakpoint table beside it. */
  datatype State = State(at: Stepper, bps: seq<BreakPoint>)
  {
    predicate Shape() {
      at.Shape() && |bps| == MAX_BPS
    }
  }

  /** find_bp's test: addresses are compared without their top nibble. */
  predicate Matches(b: BreakPoint, address: Word) {
    b.active && b.address % 0x1000_0000 == address % 0x1000_0000
  }

  /** The first index from i on at which `p` holds, or |bs|. */
  function First(bs: seq<BreakPoint>, p: BreakPoint -> bool, i: nat): (k: nat)
    requires i <= |bs|
    ensures i <= k <= |bs|
    ensures forall j :: i <= j < k ==> !p(bs[j])
    ensures k < |bs| ==> p(bs[k])
    decreases |bs| - i
  {
    if i == |bs| || p(bs[i]) then i else First(bs, p, i + 1)
  }

  function BpAt(bps: seq<BreakPoint>, address: Word): nat {
    First(bps, (b: BreakPoint) => Matches(b, address), 0)
  }

  function FreeSlot(bps: seq<BreakPoint>): nat {
    First(bps, (b: BreakPoint) => !b.active, 0)
  }

  /** debugSetBP; the second component is the C result. */
  function SetBp(s: State, address: Word): (State, int)
    requires s.Shape()
  {
    var k := FreeSlot(s.bps);
    if BpAt(s.bps, address) < MAX_BPS || k == MAX_BPS then (s, 0)
    else (State(s.at.Sw(SW_BREAK_INST, address), s.bps[k := BreakPoint(address, s.at.Lw(address), true)]), 1)
  }

  /** debugDeleteBp, and the removal of a hit breakpoint. */
  function DeleteBp(s: State, i: int): (s': State)
    requires s.Shape()
    ensures s'.Shape()
  {
    if 0 <= i < MAX_BPS && s.bps[i].active then
      State(s.at.Sw(s.bps[i].oldinst, s.bps[i].address), s.bps[i := s.bps[i].(active := false)])
    else s
  }

  /** debugStep, up to the resumption of the program. */
  function StepFrom(s: State, epc: Word, r: seq<Word>, skip: bool): (s': State)
    requires s.Shape() && |r| == 32
    ensures s'.Shape()
  {
    s.(at := s.at.StepGeneric(epc, r, skip, false))
  }

  /** check_bp: step plants are compared on the whole address. */
  predicate CheckBp(s: State, address: Word)
    requires s.Shape()
  {
    || (s.at.step[0].active && s.at.step[0].address == address)
    || (s.at.step[1].active && s.at.step[1].address == address)
    || BpAt(s.bps, address) < MAX_BPS
  }

  /** debugHandleException: both step plants first, then the breakpoint that was hit. */
  function HandleException(s: State, epc: Word): (State, int)
    requires s.Shape()
  {
    if CheckBp(s, epc) then (DeleteBp(s.(at := s.at.Recover()), BpAt(s.bps, epc)), 1) else (s, 0)
  }

  // ---- the overlay invariant ----

  ghost predicate Inv(s: State, program: seq<Word>) {
    && s.Shape()
    && |program| == MEM_WORDS
    && (forall i :: 0 <= i < MAX_BPS && s.bps[i].active ==> Aligned(s.bps[i].address))
    && Layered(program, Patches(s.bps), Patches(s.at.step), s.at.mem)
  }

  /** Without a pending step the breakpoints are the only layer. */
  lemma QuietLayers(s: State, program: seq<Word>)
    requires s.Shape() && |program| == MEM_WORDS && !s.at.Pending()
    requires forall i :: 0 <= i < MAX_BPS && s.bps[i].active ==> Aligned(s.bps[i].address)
    ensures Inv(s, program) <==> Planted(program, Patches(s.bps), s.at.mem)
  {
    IdleIsIdentity(Patches(s.at.step), s.at.mem);
  }

  lemma MatchesIsSameCell(b: BreakPoint, address: Word)
    requires b.active && Aligned(b.address) && Aligned(address)
    ensures Matches(b, address) <==> Cell(b.address) == Cell(address)
  {
  }

  lemma UnmatchedIsFree(s: State, address: Word)
    requires s.Shape() && Aligned(address) && BpAt(s.bps, address) == MAX_BPS
    requires forall i :: 0 <= i < MAX_BPS && s.bps[i].active ==> Aligned(s.bps[i].address)
    ensures Free(Patches(s.bps), Cell(address))
  {
    forall i | 0 <= i < MAX_BPS && s.bps[i].active ensures Cell(s.bps[i].address) != Cell(address) {
      assert !((b: BreakPoint) => Matches(b, address))(s.bps[i]);
      MatchesIsSameCell(s.bps[i], address);
    }
  }

  /** Also while a step is pending, unless one of its plants is on the word. */
  lemma SetBpKeeps(s: State, program: seq<Word>, address: Word)
    requires Inv(s, program) && Aligned(address) && Free(Patches(s.at.step), Cell(address))
    ensures Inv(SetBp(s, address).0, program)
  {
    var (s', ret) := SetBp(s, address);
    if ret == 1 {
      var k, c, middle := FreeSlot(s.bps), Cell(address), RestoreAll(s.at.mem, Patches(s.at.step));
      UnmatchedIsFree(s, address);
      var b := BreakPoint(address, s.at.Lw(address), true);
      PlantKeeps(program, Patches(s.bps), middle, k, b.ToPatch());
      PatchesUpdate(s.bps, k, b);
      LowerUpdate(program, Patches(s.bps), Patches(s'.bps), Patches(s.at.step), s.at.mem, c, SW_BREAK_INST);
    }
  }

  /** Setting is safe exactly then, but for a program that has a break of its own there. */
  lemma SetBpExactly(s: State, program: seq<Word>, address: Word)
    requires Inv(s, program) && Aligned(address)
    ensures Inv(SetBp(s, address).0, program) <==>
              SetBp(s, address).1 != 1 || Free(Patches(s.at.step), Cell(address)) || program[Cell(address)] == SW_BREAK_INST
  {
    var (s', ret) := SetBp(s, address);
    if Free(Patches(s.at.step), Cell(address)) {
      SetBpKeeps(s, program, address);
    } else if ret == 1 {
      var c, k, step, middle := Cell(address), FreeSlot(s.bps), Patches(s.at.step), RestoreAll(s.at.mem, Patches(s.at.step));
      var j :| 0 <= j < |step| && step[j].active && step[j].cell == c;
      assert step[j] == s.at.step[j].ToPatch() && s.at.mem[c] == SW_BREAK_INST && s'.at == s.at;
      UnmatchedIsFree(s, address);
      var b := BreakPoint(address, SW_BREAK_INST, true);
      assert Patches(s'.bps)[k] == b.ToPatch() && middle[c] == program[c];
      if program[c] == SW_BREAK_INST {
        PlantKeeps(program, Patches(s.bps), middle, k, b.ToPatch());
        PatchesUpdate(s.bps, k, b);
        assert middle[c := SW_BREAK_INST] == middle;
      }
    }
  }

  /** debugSetBP refuses exactly an address already covered through some mirror, or a
      full table; otherwise the break is in place, the rest of memory as it was, and the
      break is found again through any mirror. */
  lemma SetBpTakesEffect(s: State, program: seq<Word>, address: Word, mirror: Word)
    requires Inv(s, program) && Aligned(address)
    requires mirror % 0x1000_0000 == address % 0x1000_0000
    ensures var (s', ret) := SetBp(s, address);
            && (ret == 1 <==> Free(Patches(s.bps), Cell(address)) && exists i :: 0 <= i < MAX_BPS && !s.bps[i].active)
            && (ret == 1 ==> BpAt(s'.bps, mirror) < MAX_BPS && s'.at == s.at.(mem := s.at.mem[Cell(address) := SW_BREAK_INST]))
            && (ret != 1 ==> s' == s)
  {
    var k, f := BpAt(s.bps, address), FreeSlot(s.bps);
    if k < MAX_BPS {
      MatchesIsSameCell(s.bps[k], address);
      assert Patches(s.bps)[k].active;
    } else {
      UnmatchedIsFree(s, address);
      forall i | 0 <= i < f ensures s.bps[i].active {
        assert !((b: BreakPoint) => !b.active)(s.bps[i]);
      }
      if f < MAX_BPS {
        var s' := SetBp(s, address).0;
        assert Matches(s'.bps[f], mirror);
        assert ((b: BreakPoint) => Matches(b, mirror))(s'.bps[f]);
      }
    }
  }

  /** Nothing of the pending step, if any, is planted on the breakpoint in slot i. */
  ghost predicate Removable(s: State, i: int)
    requires s.Shape()
  {
    0 <= i < MAX_BPS && s.bps[i].active ==> Free(Patches(s.at.step), Cell(s.bps[i].address))
  }

  lemma DeleteBpKeeps(s: State, program: seq<Word>, i: int)
    requires Inv(s, program) && Removable(s, i)
    ensures Inv(DeleteBp(s, i), program) && DeleteBp(s, i).at.step == s.at.step
  {
    if 0 <= i < MAX_BPS && s.bps[i].active {
      var b, middle := s.bps[i].(active := false), RestoreAll(s.at.mem, Patches(s.at.step));
      RetireKeeps(program, Patches(s.bps), middle, i, b.ToPatch());
      PatchesUpdate(s.bps, i, b);
      LowerUpdate(program, Patches(s.bps), Patches(s.bps[i := b]), Patches(s.at.step), s.at.mem, Cell(s.bps[i].address), s.bps[i].oldinst);
    }
  }

  /** A removed breakpoint is gone: its word is the program's again and every other one stays. */
  lemma DeleteBpTakesEffect(s: State, program: seq<Word>, i: int)
    requires Inv(s, program) && Removable(s, i) && 0 <= i < MAX_BPS && s.bps[i].active
    ensures var s', c := DeleteBp(s, i), Cell(s.bps[i].address);
            Free(Patches(s'.bps), c) && s'.at.mem == s.at.mem[c := program[c]] && s'.at.step == s.at.step
  {
    var ps := Patches(s.bps);
    assert ps[i].active && ps[i] == s.bps[i].ToPatch();
    var ps' := Patches(DeleteBp(s, i).bps);
    forall j | 0 <= j < |ps'| && ps'[j].active ensures ps'[j].cell != ps[i].cell {
      assert ps[j] == ps'[j];
    }
  }

  /** Deleting is safe exactly then, but for a program that has a break of its own there. */
  lemma DeleteBpExactly(s: State, program: seq<Word>, i: int)
    requires Inv(s, program)
    ensures Inv(DeleteBp(s, i), program) <==>
              Removable(s, i) || program[Cell(s.bps[i].address)] == SW_BREAK_INST
  {
    if Removable(s, i) {
      DeleteBpKeeps(s, program, i);
    } else {
      var s', c := DeleteBp(s, i), Cell(s.bps[i].address);
      var step, middle := Patches(s.at.step), RestoreAll(s.at.mem, Patches(s.at.step));
      var j :| 0 <= j < |step| && step[j].active && step[j].cell == c;
      assert Patches(s.bps)[i] == s.bps[i].ToPatch() && step[j] == s.at.step[j].ToPatch();
      assert s'.at.mem[c] == program[c] && s.at.mem[c] == SW_BREAK_INST;
      if program[c] == SW_BREAK_INST {
        var b := s.bps[i].(active := false);
        assert s'.at.mem == s.at.mem && middle[c := s.bps[i].oldinst] == middle;
        RetireKeeps(program, Patches(s.bps), middle, i, b.ToPatch());
        PatchesUpdate(s.bps, i, b);
      }
    }
  }

  lemma StepFromKeeps(s: State, program: seq<Word>, epc: Word, r: seq<Word>, skip: bool)
    requires Inv(s, program) && !s.at.Pending() && |r| == 32 && Aligned(epc)
    ensures Inv(StepFrom(s, epc, r, skip), program)
  {
    QuietLayers(s, program);
    StepKeeps(s.at, epc, r, skip, false);
    var at := StepFrom(s, epc, r, skip).at;
    LayeredFrom(program, Patches(s.bps), s.at.mem, Patches(at.step), at.mem);
  }

  /** An exception keeps the overlay; when it is one of ours no step is left pending
      and the word at the exception address is the program's own again. */
  lemma HandleExceptionKeeps(s: State, program: seq<Word>, epc: Word)
    requires Inv(s, program) && Aligned(epc)
    ensures var (s', ret) := HandleException(s, epc);
            Inv(s', program) && (ret == 1 ==> !s'.at.Pending() && s'.at.Lw(epc) == program[Cell(epc)])
  {
    if CheckBp(s, epc) {
      var s1 := s.(at := s.at.Recover());
      RecoverUndoes(RestoreAll(s.at.mem, Patches(s.at.step)), s.at);
      QuietLayers(s1, program);
      var k := BpAt(s1.bps, epc);
      DeleteBpKeeps(s1, program, k);
      var s2 := DeleteBp(s1, k);
      QuietLayers(s2, program);
      HitIsGone(s1, program, epc);
      assert Free(Patches(s2.bps), Cell(epc));
    }
  }

  /** Once the breakpoint found is deleted, none is left on the word. */
  lemma HitIsGone(s: State, program: seq<Word>, epc: Word)
    requires Inv(s, program) && Aligned(epc)
    ensures Free(Patches(DeleteBp(s, BpAt(s.bps, epc)).bps), Cell(epc))
  {
    var k := BpAt(s.bps, epc);
    var bps := DeleteBp(s, k).bps;
    if k < MAX_BPS {
      MatchesIsSameCell(s.bps[k], epc);
      forall i | 0 <= i < MAX_BPS && bps[i].active ensures Cell(bps[i].address) != Cell(epc) {
        assert Patches(s.bps)[i].active && Patches(s.bps)[k].active;
      }
    } else {
      UnmatchedIsFree(s, epc);
    }
  }

  /** After an exception no step is pending exactly if the exception was one of ours or
      none was pending before; so a pending step outlives an exception elsewhere. */
  lemma NoPlantsAfterExactly(s: State, program: seq<Word>, epc: Word)
    requires Inv(s, program) && Aligned(epc)
    ensures !HandleException(s, epc).0.at.Pending() <==> CheckBp(s, epc) || !s.at.Pending()
  {
    HandleExceptionKeeps(s, program, epc);
  }

  /** A step over the NOP at 0x08800000 and then an exception at 0x08900000: the plant at
      0x08800004 stays, in a program of NOPs. */
  lemma PlantsStayBehind()
    ensures var none := BreakPoint(0, 0, false);
            var start := State(Stepper(seq(MEM_WORDS, _ => 0), [none, none]), seq(MAX_BPS, _ => none));
            var es := [Step(0x0880_0000, seq(32, _ => 0), false), Exception(0x0890_0000)];
            && Fresh(start) && ValidRun(start, es)
            && Run(start, es).at.Pending() && Run(start, es).at.Lw(0x0880_0004) == SW_BREAK_INST
  {
    var none := BreakPoint(0, 0, false);
    var start := State(Stepper(seq(MEM_WORDS, _ => 0), [none, none]), seq(MAX_BPS, _ => none));
    var step, exception := Step(0x0880_0000, seq(32, _ => 0), false), Exception(0x0890_0000);
    var t := Apply(start, step);
    assert PlanStep(0, 0x0880_0000, seq(32, _ => 0), false, false) == Plan(Some(0x0880_0004), None);
    assert t.at.step[0] == BreakPoint(0x0880_0004, 0, true) && !t.at.step[1].active && t.bps == start.bps;
    assert !CheckBp(t, 0x0890_0000);
    assert [step, exception][1..] == [exception] && [exception][1..] == [];
    assert Run(start, [step, exception]) == Run(t, [exception]) == t;
  }

  /** Where the program traps after a step: at once if a breakpoint stands on the stepped
      word, else where the instruction leads, and behind a call that is stepped over. */
  function TrapsNext(s: State, w: Word, epc: Word, r: seq<Word>, skip: bool, flag: int -> bool): Word
    requires Registers(r)
  {
    if BpAt(s.bps, epc) < |s.bps| then epc
    else if skip && LinkValue(w, epc).Some? then LinkValue(w, epc).value
    else NextPc(w, epc, r, flag)
  }

  /** A step always comes back: wherever the program goes, a break is in its way, and the
      exception it raises leaves the memory and the breakpoints as they were before the
      step, but for a breakpoint hit there, which is deleted. */
  lemma StepComesBack(s: State, program: seq<Word>, epc: Word, r: seq<Word>, skip: bool, flag: int -> bool)
    requires Inv(s, program) && !s.at.Pending() && Registers(r) && Aligned(epc)
    requires BpAt(s.bps, epc) == MAX_BPS ==> Recognised(program[Cell(epc)], epc, r, false)
    ensures var next := TrapsNext(s, program[Cell(epc)], epc, r, skip, flag);
            var s' := StepFrom(s, epc, r, skip);
            var (t, ret) := HandleException(s', next);
            && s'.at.Lw(next) == SW_BREAK_INST && ret == 1 && !t.at.Pending()
            && t.at.mem == DeleteBp(s, BpAt(s.bps, next)).at.mem && t.bps == DeleteBp(s, BpAt(s.bps, next)).bps
            && (BpAt(s.bps, next) == MAX_BPS ==> t.at.mem == s.at.mem && t.bps == s.bps)
  {
    if BpAt(s.bps, epc) < MAX_BPS {
      BreakIsStepped(s, program, epc, r, skip);
    } else {
      StepIsPlanted(s, program, epc, r, skip, flag);
    }
    StepKeeps(s.at, epc, r, skip, false);
    RecoverUndoes(s.at.mem, StepFrom(s, epc, r, skip).at);
  }

  /** On a breakpoint the planner reads the break itself, and the program traps on it again. */
  lemma BreakIsStepped(s: State, program: seq<Word>, epc: Word, r: seq<Word>, skip: bool)
    requires Inv(s, program) && !s.at.Pending() && |r| == 32 && Aligned(epc) && BpAt(s.bps, epc) < MAX_BPS
    ensures var s' := StepFrom(s, epc, r, skip);
            && s.at.Lw(epc) == SW_BREAK_INST && s'.at.Lw(epc) == SW_BREAK_INST && s'.bps == s.bps && CheckBp(s', epc)
  {
    QuietLayers(s, program);
    var k := BpAt(s.bps, epc);
    MatchesIsSameCell(s.bps[k], epc);
    assert Patches(s.bps)[k].active && Patches(s.bps)[k] == s.bps[k].ToPatch();
    assert PlanStep(SW_BREAK_INST, epc, r, skip, false) == Plan(Some(Wrap(epc + 4)), None);
    NextWordElsewhere(epc);
  }

  lemma NextWordElsewhere(epc: Word)
    requires Aligned(epc)
    ensures Cell(Wrap(epc + 4)) != Cell(epc)
  {
  }

  lemma StepIsPlanted(s: State, program: seq<Word>, epc: Word, r: seq<Word>, skip: bool, flag: int -> bool)
    requires Inv(s, program) && !s.at.Pending() && Registers(r) && Aligned(epc)
    requires BpAt(s.bps, epc) == MAX_BPS && Recognised(program[Cell(epc)], epc, r, false)
    ensures var next := TrapsNext(s, program[Cell(epc)], epc, r, skip, flag);
            var s' := StepFrom(s, epc, r, skip);
            s'.at.Lw(next) == SW_BREAK_INST && s'.bps == s.bps && CheckBp(s', next)
  {
    QuietLayers(s, program);
    UnmatchedIsFree(s, epc);
    var w := program[Cell(epc)];
    assert s.at.Lw(epc) == w;
    SkipPlantsReturnPoint(w, epc, r, false);
    StepCovers(w, epc, r, flag, false);
  }

  // ---- runs ----

  datatype Event =
    | Set(address: Word)
    | Delete(slot: int)
    | Step(epc: Word, regs: seq<Word>, skip: bool)
    | Exception(epc: Word)
    | Store(address: Word, word: Word)  // the debugged program writes its own memory

  /** A step waits until none is pending; sets and deletes leave a pending step's words
      alone, and the program leaves patched words alone. */
  ghost predicate Enabled(s: State, e: Event)
    requires s.Shape()
  {
    match e
    case Set(a) => Aligned(a) && Free(Patches(s.at.step), Cell(a))
    case Delete(i) => Removable(s, i)
    case Step(epc, r, _) => !s.at.Pending() && |r| == 32 && Aligned(epc)
    case Exception(epc) => Aligned(epc)
    case Store(a, _) => Free(Patches(s.bps), Cell(a)) && Free(Patches(s.at.step), Cell(a))
  }

  ghost function Apply(s: State, e: Event): (s': State)
    requires s.Shape() && Enabled(s, e)
    ensures s'.Shape()
  {
    match e
    case Set(a) => SetBp(s, a).0
    case Delete(i) => DeleteBp(s, i)
    case Step(epc, r, skip) => StepFrom(s, epc, r, skip)
    case Exception(epc) => HandleException(s, epc).0
    case Store(a, w) => s.(at := s.at.Sw(w, a))
  }

  /** What the program's memory would be with no debugger attached. */
  function Undebugged(program: seq<Word>, es: seq<Event>): (r: seq<Word>)
    requires |program| == MEM_WORDS
    ensures |r| == MEM_WORDS
    decreases |es|
  {
    if es == [] then program
    else match es[0]
      case Store(a, w) => Undebugged(program[Cell(a) := w], es[1..])
      case _ => Undebugged(program, es[1..])
  }

  ghost predicate ValidRun(s: State, es: seq<Event>)
    requires s.Shape()
    decreases |es|
  {
    es == [] || (Enabled(s, es[0]) && ValidRun(Apply(s, es[0]), es[1..]))
  }

  ghost function Run(s: State, es: seq<Event>): (s': State)
    requires s.Shape() && ValidRun(s, es)
    ensures s'.Shape()
    decreases |es|
  {
    if es == [] then s else Run(Apply(s, es[0]), es[1..])
  }

  lemma StoreKeepsBoth(s: State, program: seq<Word>, a: Word, w: Word)
    requires Inv(s, program)
    requires Free(Patches(s.bps), Cell(a)) && Free(Patches(s.at.step), Cell(a))
    ensures Inv(s.(at := s.at.Sw(w, a)), program[Cell(a) := w])
  {
    var c, mem, step := Cell(a), s.at.mem, Patches(s.at.step);
    var middle := RestoreAll(mem, step);
    StoreKeeps(middle, step, mem, c, w);
    StoreKeeps(program, Patches(s.bps), middle, c, w);
    LayeredFrom(program[c := w], Patches(s.bps), middle[c := w], step, mem[c := w]);
  }

  lemma {:induction false} RunKeeps(s: State, program: seq<Word>, es: seq<Event>)
    requires Inv(s, program) && ValidRun(s, es)
    ensures Inv(Run(s, es), Undebugged(program, es))
    decreases |es|
  {
    if es != [] {
      match es[0]
      case Set(a) => SetBpKeeps(s, program, a); RunKeeps(Apply(s, es[0]), program, es[1..]);
      case Delete(i) => DeleteBpKeeps(s, program, i); RunKeeps(Apply(s, es[0]), program, es[1..]);
      case Step(epc, r, skip) => StepFromKeeps(s, program, epc, r, skip); RunKeeps(Apply(s, es[0]), program, es[1..]);
      case Exception(epc) => HandleExceptionKeeps(s, program, epc); RunKeeps(Apply(s, es[0]), program, es[1..]);
      case Store(a, w) => StoreKeepsBoth(s, program, a, w); RunKeeps(Apply(s, es[0]), program[Cell(a) := w], es[1..]);
    }
  }

  ghost predicate Fresh(s: State) {
    && s.Shape()
    && (forall i :: 0 <= i < MAX_BPS ==> !s.bps[i].active)
    && !s.at.Pending()
  }

  /** Over any run from a fresh debugger, taking the step plants and then the
      breakpoints away leaves exactly the memory of an undebugged program. */
  lemma RunRestoresProgram(s: State, es: seq<Event>)
    requires Fresh(s) && ValidRun(s, es)
    ensures var t := Run(s, es);
            RestoreAll(RestoreAll(t.at.mem, Patches(t.at.step)), Patches(t.bps)) == Undebugged(s.at.mem, es)
  {
    IdleIsIdentity(Patches(s.bps), s.at.mem);
    QuietLayers(s, s.at.mem);
    RunKeeps(s, s.at.mem, es);
    var t := Run(s, es);
    LayeredUndoes(Undebugged(s.at.mem, es), Patches(t.bps), Patches(t.at.step), t.at.mem);
  }

  /** The breakpoints themselves may go in any order. */
  lemma BreakpointsGoInAnyOrder(s: State, program: seq<Word>, order: seq<nat>)
    requires Inv(s, program) && !s.at.Pending()
    requires Slots(Patches(s.bps), order)
    requires forall i :: 0 <= i < MAX_BPS && s.bps[i].active ==> i in order
    ensures RestoreIn(s.at.mem, Patches(s.bps), order) == program
  {
    QuietLayers(s, program);
    RestoreInAnyOrder(program, Patches(s.bps), s.at.mem, order);
  }

  // ---- the arrays ----

  class Debugger {
    const bps: array<BreakPoint>
    const plants: StepPlants

    ghost predicate Valid()
      reads this, plants
    {
      plants.Valid() && bps.Length == MAX_BPS && bps != plants.step
    }

    ghost function Now(): (s: State)
      requires Valid()
      reads this, bps, plants, plants.step, plants.mem
      ensures s.Shape()
    {
      State(plants.Now(), bps[..])
    }

    constructor (memory: array<Word>)
      requires memory.Length == MEM_WORDS
      ensures Valid() && plants.mem == memory && fresh(bps) && fresh(plants.step)
      ensures Fresh(Now()) && Now().at.mem == memory[..]
    {
      bps := new BreakPoint[MAX_BPS](_ => BreakPoint(0, 0, false));
      plants := new StepPlants(memory);
    }

    method FindBp(address: Word) returns (i: nat)
      requires Valid()
      ensures i == BpAt(bps[..], address)
    {
      i := 0;
      while i < MAX_BPS && !(bps[i].active && bps[i].address % 0x1000_0000 == address % 0x1000_0000)
        invariant 0 <= i <= MAX_BPS
        invariant BpAt(bps[..], address) == First(bps[..], (b: BreakPoint) => Matches(b, address), i)
      {
        i := i + 1;
      }
    }

    method FindFreeBp() returns (i: nat)
      requires Valid()
      ensures i == FreeSlot(bps[..])
    {
      i := 0;
      while i < MAX_BPS && bps[i].active
        invariant 0 <= i <= MAX_BPS
        invariant FreeSlot(bps[..]) == First(bps[..], (b: BreakPoint) => !b.active, i)
      {
        i := i + 1;
      }
    }

    method SetBP(address: Word) returns (ret: int)
      requires Valid()
      modifies bps, plants.mem
      ensures (Now(), ret) == SetBp(old(Now()), address)
    {
      var found := FindBp(address);
      if found == MAX_BPS {
        var k := FindFreeBp();
        if k < MAX_BPS {
          var oldinst := plants.mem[Cell(address)];
          plants.mem[Cell(address)] := SW_BREAK_INST;
          bps[k] := BreakPoint(address, oldinst, true);
          return 1;
        }
      }
      return 0;
    }

    method DeleteBP(i: int) returns (ret: int)
      requires Valid()
      modifies bps, plants.mem
      ensures Now() == DeleteBp(old(Now()), i) && ret == 1
    {
      if 0 <= i < MAX_BPS {
        if bps[i].active {
          plants.mem[Cell(bps[i].address)] := bps[i].oldinst;
          bps[i] := bps[i].(active := false);
        }
      }
      return 1;
    }

    method Step(epc: Word, r: seq<Word>, skip: bool)
      requires Valid() && |r| == 32
      modifies plants.step, plants.mem
      ensures Now() == StepFrom(old(Now()), epc, r, skip)
    {
      plants.Step(epc, r, skip, false);
    }

    method Handle(epc: Word) returns (ret: int)
      requires Valid()
      modifies bps, plants.step, plants.mem
      ensures (Now(), ret) == HandleException(old(Now()), epc)
    {
      ret := 0;
      var step := plants.step;
      var found := FindBp(epc);
      if (step[0].active && step[0].address == epc) || (step[1].active && step[1].address == epc) || found < MAX_BPS {
        plants.RecoverSlots();
        found := FindBp(epc);
        if found < MAX_BPS {
          var _ := DeleteBP(found);
        }
        ret := 1;
      }
    }
  }
}

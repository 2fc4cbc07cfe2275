/** The two step plants that debug.c and gdb-stub.c both lay over memory.

    `Stepper` holds the word memory and the two plant slots; its operations are
    specified as functions, shown to keep the layer removable, and performed on
    arrays by class `StepPlants`. */
module Plants {
  import opened Options
  import opened Bits
  import opened Overlay
  import opened Mips

  datatype BreakPoint = BreakPoint(address: Word, oldinst: Word, active: bool)
  {
    function ToPatch(): Patch {
      Patch(Cell(address), SW_BREAK_INST, oldinst, active)
    }
  }

  function Patches(bs: seq<BreakPoint>): (ps: seq<Patch>)
    ensures |ps| == |bs| && forall i :: 0 <= i < |bs| ==> ps[i] == bs[i].ToPatch()
  {
    seq(|bs|, i requires 0 <= i < |bs| => bs[i].ToPatch())
  }

  lemma PatchesUpdate(bs: seq<BreakPoint>, i: nat, b: BreakPoint)
    requires i < |bs|
    ensures Patches(bs[i := b]) == Patches(bs)[i := b.ToPatch()]
  {
  }

  datatype Stepper = Stepper(mem: seq<Word>, step: seq<BreakPoint>)
  {
    predicate Shape() {
      |mem| == MEM_WORDS && |step| == 2
    }

    /** A step has been planted and not yet taken back. */
    predicate Pending()
      requires Shape()
    {
      step[0].active || step[1].active
    }

    function Lw(a: Word): Word
      requires Shape()
    {
      mem[Cell(a)]
    }

    function Sw(w: Word, a: Word): (s: Stepper)
      requires Shape()
      ensures s.Shape()
    {
      this.(mem := mem[Cell(a) := w])
    }

    function PlantAt(k: nat, target: Option<Word>): (s: Stepper)
      requires Shape() && k < 2
      ensures s.Shape()
    {
      if target.None? then this
      else Sw(SW_BREAK_INST, target.value).(step := step[k := BreakPoint(target.value, Lw(target.value), true)])
    }

    /** step_generic: plant where PlanStep says, slot 0 first. */
    function StepGeneric(epc: Word, r: seq<Word>, skip: bool, syscallToRa: bool): (s: Stepper)
      requires Shape() && |r| == 32
      ensures s.Shape()
    {
      var plan := PlanStep(Lw(epc), epc, r, skip, syscallToRa);
      PlantAt(0, plan.slot0).PlantAt(1, plan.slot1)
    }

    function Unplant(k: nat): (s: Stepper)
      requires Shape() && k < 2
      ensures s.Shape()
    {
      if step[k].active then Sw(step[k].oldinst, step[k].address).(step := step[k := step[k].(active := false)])
      else this
    }

    /** Take the plants back, slot 0 first. */
    function Recover(): (s: Stepper)
      requires Shape()
      ensures s.Shape()
    {
      Unplant(0).Unplant(1)
    }

    /** `under` with this stepper's plants written over it. */
    ghost predicate Over(under: seq<Word>) {
      Shape() && Planted(under, Patches(step), mem)
    }
  }

  lemma QuietIsOver(s: Stepper, under: seq<Word>)
    requires s.Shape() && !s.Pending()
    ensures s.Over(under) <==> under == s.mem
  {
    IdleIsIdentity(Patches(s.step), s.mem);
    if s.Over(under) {
      RestoreAllUndoes(under, Patches(s.step), s.mem);
    }
  }

  lemma PlantAtKeeps(under: seq<Word>, s: Stepper, k: nat, target: Option<Word>)
    requires s.Over(under) && k < 2 && !s.step[k].active
    requires target.Some? && s.step[1 - k].active ==> Cell(s.step[1 - k].address) != Cell(target.value)
    ensures s.PlantAt(k, target).Over(under)
  {
    if target.Some? {
      var b := BreakPoint(target.value, s.Lw(target.value), true);
      PlantKeeps(under, Patches(s.step), s.mem, k, b.ToPatch());
      PatchesUpdate(s.step, k, b);
    }
  }

  /** A step begun with no plant outstanding only lays plants over the memory it found. */
  lemma StepKeeps(s: Stepper, epc: Word, r: seq<Word>, skip: bool, syscallToRa: bool)
    requires s.Shape() && !s.Pending() && |r| == 32 && Aligned(epc)
    ensures s.StepGeneric(epc, r, skip, syscallToRa).Over(s.mem)
  {
    QuietIsOver(s, s.mem);
    var plan := PlanStep(s.Lw(epc), epc, r, skip, syscallToRa);
    if plan.slot0.Some? && plan.slot1.Some? {
      PlantsNeverShareAWord(s.Lw(epc), epc, r, skip, syscallToRa);
    }
    PlantAtKeeps(s.mem, s, 0, plan.slot0);
    PlantAtKeeps(s.mem, s.PlantAt(0, plan.slot0), 1, plan.slot1);
  }

  /** A break stands wherever the plan says. */
  lemma PlantsStand(s: Stepper, epc: Word, r: seq<Word>, skip: bool, syscallToRa: bool)
    requires s.Shape() && !s.Pending() && |r| == 32 && Aligned(epc)
    ensures forall a :: a in PlanStep(s.Lw(epc), epc, r, skip, syscallToRa).Targets() ==>
              s.StepGeneric(epc, r, skip, syscallToRa).Lw(a) == SW_BREAK_INST
  {
    var plan := PlanStep(s.Lw(epc), epc, r, skip, syscallToRa);
    if plan.slot0.Some? && plan.slot1.Some? {
      PlantsNeverShareAWord(s.Lw(epc), epc, r, skip, syscallToRa);
    }
  }

  lemma UnplantKeeps(under: seq<Word>, s: Stepper, k: nat)
    requires s.Over(under) && k < 2
    ensures s.Unplant(k).Over(under)
  {
    if s.step[k].active {
      var b := s.step[k].(active := false);
      RetireKeeps(under, Patches(s.step), s.mem, k, b.ToPatch());
      PatchesUpdate(s.step, k, b);
    }
  }

  /** Taking the plants back in the fixed order leaves exactly the memory below them. */
  lemma RecoverUndoes(under: seq<Word>, s: Stepper)
    requires s.Over(under)
    ensures !s.Recover().Pending() && s.Recover().mem == under
  {
    UnplantKeeps(under, s, 0);
    UnplantKeeps(under, s.Unplant(0), 1);
    QuietIsOver(s.Recover(), under);
  }

  // ---- the arrays ----

  class StepPlants {
    const step: array<BreakPoint>
    const mem: array<Word>

    ghost predicate Valid()
      reads this
    {
      step.Length == 2 && mem.Length == MEM_WORDS
    }

    ghost function Now(): (s: Stepper)
      requires Valid()
      reads this, step, mem
      ensures s.Shape()
    {
      Stepper(mem[..], step[..])
    }

    constructor (memory: array<Word>)
      requires memory.Length == MEM_WORDS
      ensures Valid() && mem == memory && fresh(step)
      ensures !Now().Pending() && Now().mem == memory[..]
    {
      step := new BreakPoint[2](_ => BreakPoint(0, 0, false));
      mem := memory;
    }

    method Plant(k: nat, target: Word)
      requires Valid() && k < 2
      modifies step, mem
      ensures Now() == old(Now()).PlantAt(k, Some(target))
    {
      step[k] := BreakPoint(target, mem[Cell(target)], true);
      mem[Cell(target)] := SW_BREAK_INST;
    }

    method Step(epc: Word, r: seq<Word>, skip: bool, syscallToRa: bool)
      requires Valid() && |r| == 32
      modifies step, mem
      ensures Now() == old(Now()).StepGeneric(epc, r, skip, syscallToRa)
    {
      var opcode := mem[Cell(epc)];
      var targetpc, branch, cond, link := DecodeBranch(opcode, epc, r, syscallToRa);
      if link && skip {
        Plant(1, Wrap(epc + 8));
      } else if branch {
        Plant(0, targetpc);
        if cond && targetpc != Wrap(epc + 8) {
          Plant(1, Wrap(epc + 8));
        }
      } else {
        Plant(0, targetpc);
      }
    }

    method RecoverSlots()
      requires Valid()
      modifies step, mem
      ensures Now() == old(Now()).Recover()
    {
      if step[0].active {
        mem[Cell(step[0].address)] := step[0].oldinst;
        step[0] := step[0].(active := false);
      }
      assert Now() == old(Now()).Unplant(0);
      if step[1].active {
        mem[Cell(step[1].address)] := step[1].oldinst;
        step[1] := step[1].(active := false);
      }
    }
  }
}

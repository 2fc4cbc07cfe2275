/** Patches laid over a table of words.

    A patch remembers the word it replaced.  The breakpoint tables, the step
    plants and the syscall hooks are all layers of such patches, so what keeps
    a layer removable is stated once here. */
module Overlay {

  datatype Patch = Patch(cell: nat, planted: int, saved: int, active: bool)

  /** No active patch sits on cell c. */
  ghost predicate Free(ps: seq<Patch>, c: int) {
    forall i :: 0 <= i < |ps| && ps[i].active ==> ps[i].cell != c
  }

  ghost predicate Distinct(ps: seq<Patch>) {
    forall i, j :: 0 <= i < j < |ps| && ps[i].active && ps[j].active ==> ps[i].cell != ps[j].cell
  }

  /** Every active patch remembers what the table below it holds. */
  ghost predicate Remembers(under: seq<int>, ps: seq<Patch>) {
    forall i :: 0 <= i < |ps| && ps[i].active ==> ps[i].cell < |under| && ps[i].saved == under[ps[i].cell]
  }

  /** `mem` is `under` with exactly the active patches of `ps` written over it. */
  ghost predicate Planted(under: seq<int>, ps: seq<Patch>, mem: seq<int>) {
    && |mem| == |under|
    && Remembers(under, ps)
    && Distinct(ps)
    && (forall i :: 0 <= i < |ps| && ps[i].active ==> mem[ps[i].cell] == ps[i].planted)
    && (forall c :: 0 <= c < |mem| && Free(ps, c) ==> mem[c] == under[c])
  }

  function Restore(mem: seq<int>, p: Patch): (r: seq<int>)
    ensures |r| == |mem|
  {
    if p.active && p.cell < |mem| then mem[p.cell := p.saved] else mem
  }

  ghost predicate Slots(ps: seq<Patch>, order: seq<nat>) {
    forall j :: 0 <= j < |order| ==> order[j] < |ps|
  }

  /** Write back the saved words of the slots listed in `order`, left to right. */
  function RestoreIn(mem: seq<int>, ps: seq<Patch>, order: seq<nat>): (r: seq<int>)
    requires Slots(ps, order)
    ensures |r| == |mem|
    decreases |order|
  {
    if order == [] then mem else RestoreIn(Restore(mem, ps[order[0]]), ps, order[1..])
  }

  function RestoreFrom(mem: seq<int>, ps: seq<Patch>, i: nat): (r: seq<int>)
    requires i <= |ps|
    ensures |r| == |mem|
    decreases |ps| - i
  {
    if i == |ps| then mem else RestoreFrom(Restore(mem, ps[i]), ps, i + 1)
  }

  /** Write back every slot, slot 0 first. */
  function RestoreAll(mem: seq<int>, ps: seq<Patch>): (r: seq<int>)
    ensures |r| == |mem|
  {
    RestoreFrom(mem, ps, 0)
  }

  lemma {:induction false} RestoreInCell(under: seq<int>, mem: seq<int>, ps: seq<Patch>, order: seq<nat>, c: nat)
    requires |mem| == |under| && c < |mem| && Remembers(under, ps)
    requires Slots(ps, order)
    requires mem[c] == under[c] || exists j :: 0 <= j < |order| && ps[order[j]].active && ps[order[j]].cell == c
    ensures RestoreIn(mem, ps, order)[c] == under[c]
    decreases |order|
  {
    if order != [] {
      var rest := order[1..];
      assert forall j :: 0 < j < |order| ==> order[j] == rest[j - 1];
      RestoreInCell(under, Restore(mem, ps[order[0]]), ps, rest, c);
    }
  }

  lemma {:induction false} RestoreFromCell(under: seq<int>, mem: seq<int>, ps: seq<Patch>, i: nat, c: nat)
    requires |mem| == |under| && c < |mem| && Remembers(under, ps) && i <= |ps|
    requires mem[c] == under[c] || exists k :: i <= k < |ps| && ps[k].active && ps[k].cell == c
    ensures RestoreFrom(mem, ps, i)[c] == under[c]
    decreases |ps| - i
  {
    if i < |ps| {
      RestoreFromCell(under, Restore(mem, ps[i]), ps, i + 1, c);
    }
  }

  /** A layer may be removed in any order, as long as every active slot is visited. */
  lemma RestoreInAnyOrder(under: seq<int>, ps: seq<Patch>, mem: seq<int>, order: seq<nat>)
    requires Planted(under, ps, mem)
    requires Slots(ps, order)
    requires forall i :: 0 <= i < |ps| && ps[i].active ==> i in order
    ensures RestoreIn(mem, ps, order) == under
  {
    forall c: nat | c < |mem| ensures RestoreIn(mem, ps, order)[c] == under[c] {
      if mem[c] != under[c] {
        var i :| 0 <= i < |ps| && ps[i].active && ps[i].cell == c;
        var j :| 0 <= j < |order| && order[j] == i;
      }
      RestoreInCell(under, mem, ps, order, c);
    }
  }

  lemma RestoreAllUndoes(under: seq<int>, ps: seq<Patch>, mem: seq<int>)
    requires Planted(under, ps, mem)
    ensures RestoreAll(mem, ps) == under
  {
    forall c: nat | c < |mem| ensures RestoreAll(mem, ps)[c] == under[c] {
      RestoreFromCell(under, mem, ps, 0, c);
    }
  }

  /** Filling an idle slot with a patch on a free cell. */
  lemma PlantKeeps(under: seq<int>, ps: seq<Patch>, mem: seq<int>, i: nat, p: Patch)
    requires Planted(under, ps, mem)
    requires i < |ps| && !ps[i].active
    requires p.active && p.cell < |mem| && Free(ps, p.cell) && p.saved == mem[p.cell]
    ensures Planted(under, ps[i := p], mem[p.cell := p.planted])
  {
    var ps', mem' := ps[i := p], mem[p.cell := p.planted];
    forall c | 0 <= c < |mem'| && Free(ps', c) ensures mem'[c] == under[c] {
      assert ps'[i] == p;
      forall j | 0 <= j < |ps| && ps[j].active ensures ps[j].cell != c {
        assert ps'[j] == ps[j];
      }
    }
  }

  /** Writing one saved word back and retiring its slot. */
  lemma RetireKeeps(under: seq<int>, ps: seq<Patch>, mem: seq<int>, i: nat, p: Patch)
    requires Planted(under, ps, mem)
    requires i < |ps| && ps[i].active && !p.active
    ensures Planted(under, ps[i := p], mem[ps[i].cell := ps[i].saved])
  {
    var ps', mem' := ps[i := p], mem[ps[i].cell := ps[i].saved];
    forall j | 0 <= j < |ps'| && ps'[j].active ensures mem'[ps'[j].cell] == ps'[j].planted {
      assert ps'[j] == ps[j];
    }
    forall c | 0 <= c < |mem'| && Free(ps', c) ensures mem'[c] == under[c] {
      if c != ps[i].cell {
        forall j | 0 <= j < |ps| && ps[j].active ensures ps[j].cell != c {
          if j != i { assert ps'[j] == ps[j]; }
        }
      }
    }
  }

  /** A layer without active patches changes nothing, and conversely any table carries it. */
  lemma IdleIsIdentity(ps: seq<Patch>, mem: seq<int>)
    requires forall i :: 0 <= i < |ps| ==> !ps[i].active
    ensures Planted(mem, ps, mem)
    ensures RestoreAll(mem, ps) == mem
  {
    RestoreAllUndoes(mem, ps, mem);
  }

  /** Storing through to the table below at a cell that carries no patch. */
  lemma StoreKeeps(under: seq<int>, ps: seq<Patch>, mem: seq<int>, c: nat, w: int)
    requires Planted(under, ps, mem) && c < |mem| && Free(ps, c)
    ensures Planted(under[c := w], ps, mem[c := w])
  {
  }

  /** Two layers: `upper` was planted over `lower`, and `lower` over `program`. */
  ghost predicate Layered(program: seq<int>, lower: seq<Patch>, upper: seq<Patch>, mem: seq<int>) {
    && Planted(program, lower, RestoreAll(mem, upper))
    && Planted(RestoreAll(mem, upper), upper, mem)
  }

  lemma LayeredUndoes(program: seq<int>, lower: seq<Patch>, upper: seq<Patch>, mem: seq<int>)
    requires Layered(program, lower, upper, mem)
    ensures RestoreAll(RestoreAll(mem, upper), lower) == program
  {
    RestoreAllUndoes(program, lower, RestoreAll(mem, upper));
  }

  lemma LayeredFrom(program: seq<int>, lower: seq<Patch>, middle: seq<int>, upper: seq<Patch>, mem: seq<int>)
    requires Planted(program, lower, middle) && Planted(middle, upper, mem)
    ensures Layered(program, lower, upper, mem)
  {
    RestoreAllUndoes(middle, upper, mem);
  }

  /** Changing the lower layer at a cell the upper one leaves alone. */
  lemma LowerUpdate(program: seq<int>, lower: seq<Patch>, lower': seq<Patch>, upper: seq<Patch>, mem: seq<int>, c: nat, w: int)
    requires Layered(program, lower, upper, mem) && c < |mem| && Free(upper, c)
    requires Planted(program, lower', RestoreAll(mem, upper)[c := w])
    ensures Layered(program, lower', upper, mem[c := w])
  {
    var middle := RestoreAll(mem, upper);
    StoreKeeps(middle, upper, mem, c, w);
    LayeredFrom(program, lower', middle[c := w], upper, mem[c := w]);
  }

  // ---- the order of the layers ----

  lemma {:induction false} RestoreFromValue(mem: seq<int>, ps: seq<Patch>, i: nat, c: nat)
    requires i <= |ps| && c < |mem| && Distinct(ps)
    ensures (forall k :: i <= k < |ps| && ps[k].active ==> ps[k].cell != c) ==> RestoreFrom(mem, ps, i)[c] == mem[c]
    ensures forall k :: i <= k < |ps| && ps[k].active && ps[k].cell == c ==> RestoreFrom(mem, ps, i)[c] == ps[k].saved
    decreases |ps| - i
  {
    if i < |ps| {
      RestoreFromValue(Restore(mem, ps[i]), ps, i + 1, c);
    }
  }

  /** No cell carries a patch of each layer, but where the program has the very word the
      lower layer plants. */
  ghost predicate Indifferent(program: seq<int>, lower: seq<Patch>, upper: seq<Patch>)
    requires forall i :: 0 <= i < |lower| && lower[i].active ==> lower[i].cell < |program|
  {
    forall i, j :: 0 <= i < |lower| && 0 <= j < |upper| && lower[i].active && upper[j].active && lower[i].cell == upper[j].cell ==>
      lower[i].planted == program[lower[i].cell]
  }

  /** What a cell holds when the layers are taken away in the wrong order. */
  lemma WrongOrderCell(program: seq<int>, lower: seq<Patch>, upper: seq<Patch>, mem: seq<int>, c: nat)
    requires Layered(program, lower, upper, mem) && c < |program|
    ensures |mem| == |program|
    ensures Free(lower, c) || Free(upper, c) ==> RestoreAll(RestoreAll(mem, lower), upper)[c] == program[c]
    ensures forall i, j :: 0 <= i < |lower| && 0 <= j < |upper| && lower[i].active && upper[j].active && lower[i].cell == upper[j].cell == c ==>
              RestoreAll(RestoreAll(mem, lower), upper)[c] == lower[i].planted
  {
    RestoreFromValue(mem, lower, 0, c);
    RestoreFromValue(RestoreAll(mem, lower), upper, 0, c);
  }

  /** Taking the lower layer away first gives the program back exactly if no cell carries
      both layers, but where the program has the planted word itself. */
  lemma WrongOrderExactly(program: seq<int>, lower: seq<Patch>, upper: seq<Patch>, mem: seq<int>)
    requires Layered(program, lower, upper, mem)
    ensures RestoreAll(RestoreAll(mem, lower), upper) == program <==> Indifferent(program, lower, upper)
  {
    var wrong := RestoreAll(RestoreAll(mem, lower), upper);
    forall c: nat | c < |program|
      ensures Free(lower, c) || Free(upper, c) ==> wrong[c] == program[c]
      ensures forall i, j :: 0 <= i < |lower| && 0 <= j < |upper| && lower[i].active && upper[j].active && lower[i].cell == upper[j].cell == c ==>
                wrong[c] == lower[i].planted
    {
      WrongOrderCell(program, lower, upper, mem, c);
    }
    if Indifferent(program, lower, upper) {
      forall c: nat | c < |program| ensures wrong[c] == program[c] {
        WrongOrderCell(program, lower, upper, mem, c);
      }
    }
  }

  /** Taking the lower layer away first leaves the upper layer's saved word behind:
      here a breakpoint (13) over the word 7, with a step plant over the breakpoint. */
  lemma WrongLayerOrderLeavesAPatch()
    ensures var lower, upper := [Patch(0, 13, 7, true)], [Patch(0, 13, 13, true)];
            Layered([7], lower, upper, [13]) && RestoreAll(RestoreAll([13], lower), upper) == [13]
  {
    var lower, upper := [Patch(0, 13, 7, true)], [Patch(0, 13, 13, true)];
    assert RestoreFrom([13], upper, 0) == RestoreFrom(Restore([13], upper[0]), upper, 1) == [13];
    assert RestoreFrom([13], lower, 0) == RestoreFrom(Restore([13], lower[0]), lower, 1) == [7];
    assert RestoreFrom([7], upper, 0) == RestoreFrom(Restore([7], upper[0]), upper, 1) == [13];
  }
}

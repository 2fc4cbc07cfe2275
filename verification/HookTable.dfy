/** The generic syscall hooks of psplink/apihook.c: sixteen hook entries, each with room for
    one exported function, written over the words of the syscall table.

    A hook in use is a patch of the table: it remembers the function it replaced.  Entries
    are told apart from exports: no hook entry is in the table to begin with, and none is
    ever looked up as an export. */
module HookTable {
  import opened Mips
  import opened Overlay

  const MAXIDS := 16

  /** func is 0 while the hook is not in use. */
  datatype Hook = Hook(func: Word, syscall: nat, hookfunc: Word)

  datatype State = State(table: seq<Word>, hooks: seq<Hook>)

  function PatchOf(h: Hook): Patch {
    Patch(h.syscall, h.hookfunc, h.func, h.func != 0)
  }

  function Patches(hooks: seq<Hook>): (ps: seq<Patch>)
    ensures |ps| == |hooks|
    ensures forall i :: 0 <= i < |hooks| ==> ps[i] == PatchOf(hooks[i])
  {
    seq(|hooks|, i requires 0 <= i < |hooks| => PatchOf(hooks[i]))
  }

  // ---- the operations ----

  /** find_syscall_addr: the first word of the table that holds the address, or its length. */
  function FindSyscall(table: seq<Word>, addr: Word): (k: nat)
    ensures k <= |table| && (k < |table| ==> table[k] == addr) && addr !in table[..k]
  {
    if table == [] || table[0] == addr then 0
    else
      assert table == [table[0]] + table[1..];
      1 + FindSyscall(table[1..], addr)
  }

  function FreeHook(hooks: seq<Hook>): (k: nat)
    ensures k <= |hooks| && (k < |hooks| ==> hooks[k].func == 0)
    ensures forall i :: 0 <= i < k ==> hooks[i].func != 0
  {
    if hooks == [] || hooks[0].func == 0 then 0 else 1 + FreeHook(hooks[1..])
  }

  /** apiHookGenericByName and ..ByNid, once the export is looked up (0: not found). */
  function Install(s: State, addr: Word): (State, int) {
    var id, k := FreeHook(s.hooks), FindSyscall(s.table, addr);
    if id == |s.hooks| || addr == 0 || k == |s.table| then (s, 0)
    else
      var h := s.hooks[id];
      (State(s.table[k := h.hookfunc], s.hooks[id := h.(func := addr, syscall := k)]), 1)
  }

  function Delete(s: State, id: int): State {
    if 0 <= id < |s.hooks| && s.hooks[id].func != 0 && s.hooks[id].syscall < |s.table| then
      var h := s.hooks[id];
      State(s.table[h.syscall := h.func], s.hooks[id := h.(func := 0)])
    else s
  }

  /** _apiHookHandle: the function a hook entry goes on to. */
  function Handle(s: State, id: int): Word {
    if 0 <= id < |s.hooks| then s.hooks[id].func else 0
  }

  // ---- what every step keeps ----

  /** Sixteen different entries, in none of the table's original words. */
  ghost predicate Entries(original: seq<Word>, hooks: seq<Hook>) {
    && |hooks| == MAXIDS
    && (forall i, j :: 0 <= i < j < |hooks| ==> hooks[i].hookfunc != hooks[j].hookfunc)
    && (forall i :: 0 <= i < |hooks| ==> hooks[i].hookfunc !in original)
  }

  ghost predicate Inv(original: seq<Word>, s: State) {
    Entries(original, s.hooks) && Planted(original, Patches(s.hooks), s.table)
  }

  /** The address is not that of a hook entry. */
  ghost predicate Export(hooks: seq<Hook>, addr: Word) {
    forall i :: 0 <= i < |hooks| ==> hooks[i].hookfunc != addr
  }

  /** A word of the table that is not a hook entry carries no hook. */
  lemma FoundIsFree(original: seq<Word>, s: State, c: nat)
    requires Inv(original, s) && c < |s.table| && Export(s.hooks, s.table[c])
    ensures Free(Patches(s.hooks), c) && s.table[c] == original[c]
  {
    var ps := Patches(s.hooks);
    forall i | 0 <= i < |ps| && ps[i].active ensures ps[i].cell != c {
      assert ps[i] == PatchOf(s.hooks[i]);
    }
  }

  lemma InstallKeeps(original: seq<Word>, s: State, addr: Word)
    requires Inv(original, s) && Export(s.hooks, addr)
    ensures Inv(original, Install(s, addr).0)
  {
    var id, k := FreeHook(s.hooks), FindSyscall(s.table, addr);
    var (s', ret) := Install(s, addr);
    if ret == 1 {
      FoundIsFree(original, s, k);
      PlantKeeps(original, Patches(s.hooks), s.table, id, PatchOf(s'.hooks[id]));
      assert Patches(s'.hooks) == Patches(s.hooks)[id := PatchOf(s'.hooks[id])];
    }
  }

  lemma DeleteKeeps(original: seq<Word>, s: State, id: int)
    requires Inv(original, s)
    ensures Inv(original, Delete(s, id))
  {
    var s' := Delete(s, id);
    if s' != s {
      assert PatchOf(s.hooks[id]).active;
      RetireKeeps(original, Patches(s.hooks), s.table, id, PatchOf(s'.hooks[id]));
      assert Patches(s'.hooks) == Patches(s.hooks)[id := PatchOf(s'.hooks[id])];
    }
  }

  // ---- whole runs ----

  datatype Event = Hooked(addr: Word) | Deleted(id: int)

  function Apply(s: State, e: Event): State {
    match e
    case Hooked(addr) => Install(s, addr).0
    case Deleted(id) => Delete(s, id)
  }

  function Run(s: State, events: seq<Event>): State
    decreases |events|
  {
    if events == [] then s else Run(Apply(s, events[0]), events[1..])
  }

  ghost predicate Exports(hooks: seq<Hook>, events: seq<Event>) {
    forall e <- events :: e.Hooked? ==> Export(hooks, e.addr)
  }

  lemma SameEntries(s: State, e: Event)
    ensures |Apply(s, e).hooks| == |s.hooks|
    ensures forall i :: 0 <= i < |s.hooks| ==> Apply(s, e).hooks[i].hookfunc == s.hooks[i].hookfunc
  {
  }

  /** Over any run of installs and deletes, the table is the original one with the hooks
      in use written over it: each word at most once, and func is what it held. */
  lemma {:induction false} RunKeeps(original: seq<Word>, s: State, events: seq<Event>)
    requires Inv(original, s) && Exports(s.hooks, events)
    ensures Inv(original, Run(s, events))
    decreases |events|
  {
    if events != [] {
      var e := events[0];
      assert e in events;
      if e.Hooked? { InstallKeeps(original, s, e.addr); } else { DeleteKeeps(original, s, e.id); }
      SameEntries(s, e);
      RunKeeps(original, Apply(s, e), events[1..]);
    }
  }

  /** The table and the hooks before the first install. */
  ghost predicate Start(original: seq<Word>, s: State) {
    Entries(original, s.hooks) && s.table == original && forall i :: 0 <= i < |s.hooks| ==> s.hooks[i].func == 0
  }

  lemma StartKeeps(original: seq<Word>, s: State)
    requires Start(original, s)
    ensures Inv(original, s)
  {
    IdleIsIdentity(Patches(s.hooks), s.table);
  }

  function DeleteIn(s: State, order: seq<int>): State
    decreases |order|
  {
    if order == [] then s else DeleteIn(Delete(s, order[0]), order[1..])
  }

  lemma {:induction false} DeletesRetire(original: seq<Word>, s: State, order: seq<int>)
    requires Inv(original, s) && forall i :: 0 <= i < |s.hooks| && s.hooks[i].func != 0 ==> i in order
    ensures var t := DeleteIn(s, order);
            Inv(original, t) && forall i :: 0 <= i < |t.hooks| ==> t.hooks[i].func == 0
    decreases |order|
  {
    if order != [] {
      DeleteKeeps(original, s, order[0]);
      DeleteRetires(original, s, order[0]);
      DeletesRetire(original, Delete(s, order[0]), order[1..]);
    }
  }

  lemma DeleteRetires(original: seq<Word>, s: State, id: int)
    requires Inv(original, s)
    ensures |Delete(s, id).hooks| == |s.hooks|
    ensures forall i :: 0 <= i < |s.hooks| ==> Delete(s, id).hooks[i].func == if i == id then 0 else s.hooks[i].func
  {
    if 0 <= id < |s.hooks| {
      assert Patches(s.hooks)[id] == PatchOf(s.hooks[id]);
    }
  }

  /** After any run, deleting the hooks in any order gives the original table back. */
  lemma DeletingRestores(original: seq<Word>, s: State, events: seq<Event>, order: seq<int>)
    requires Start(original, s) && Exports(s.hooks, events)
    requires var t := Run(s, events); forall i :: 0 <= i < |t.hooks| && t.hooks[i].func != 0 ==> i in order
    ensures DeleteIn(Run(s, events), order).table == original
  {
    StartKeeps(original, s);
    RunKeeps(original, s, events);
    DeletesRetire(original, Run(s, events), order);
    var t := DeleteIn(Run(s, events), order);
    IdleIsIdentity(Patches(t.hooks), t.table);
    RestoreAllUndoes(original, Patches(t.hooks), t.table);
  }

  /** An install succeeds exactly when a hook is idle and an unhooked word of the original
      table holds the export; hooking a function that has one entry twice fails. */
  lemma InstallExactly(original: seq<Word>, s: State, addr: Word)
    requires Inv(original, s) && Export(s.hooks, addr)
    ensures Install(s, addr).1 == 1 <==>
              && (exists i :: 0 <= i < |s.hooks| && s.hooks[i].func == 0)
              && addr != 0
              && exists c :: 0 <= c < |original| && original[c] == addr && Free(Patches(s.hooks), c)
  {
    var k := FindSyscall(s.table, addr);
    if k < |s.table| {
      FoundIsFree(original, s, k);
    } else {
      assert s.table[..k] == s.table;
      forall c | 0 <= c < |original| && original[c] == addr ensures !Free(Patches(s.hooks), c) {
        assert s.table[c] in s.table;
      }
    }
    var id := FreeHook(s.hooks);
    assert id < |s.hooks| ==> s.hooks[id].func == 0;
  }

  /** Hook id stands in word c, the first that held addr, and goes on to it; no other word
      and no other hook has changed. */
  ghost predicate Hooks(s: State, t: State, addr: Word, c: nat, id: nat) {
    && c < |s.table| && s.table[c] == addr && addr !in s.table[..c]
    && id < |s.hooks| == |t.hooks| && s.hooks[id].func == 0
    && t.table == s.table[c := s.hooks[id].hookfunc]
    && Handle(t, id) == addr && t.hooks[id].syscall == c && t.hooks[id].hookfunc == s.hooks[id].hookfunc
    && forall j :: 0 <= j < |s.hooks| && j != id ==> t.hooks[j] == s.hooks[j]
  }

  /** An install that reports 1 has hooked the export; one that reports 0 changed nothing. */
  lemma InstallTakesEffect(s: State, addr: Word)
    ensures var (t, ret) := Install(s, addr);
            (ret == 0 && t == s) || (ret == 1 && exists c: nat, id: nat :: Hooks(s, t, addr, c, id))
  {
    var (t, ret) := Install(s, addr);
    if ret == 1 {
      assert Hooks(s, t, addr, FindSyscall(s.table, addr), FreeHook(s.hooks));
    }
  }

  /** Deleting a hook just installed takes the whole step back. */
  lemma DeleteUndoesInstall(s: State, addr: Word)
    requires Install(s, addr).1 == 1
    ensures Delete(Install(s, addr).0, FreeHook(s.hooks)).table == s.table
  {
  }

  /** A call through the table still reaches the original function: directly, or through
      the one hook entry that goes on to it. */
  lemma CallsReachTheOriginal(original: seq<Word>, s: State, c: nat)
    requires Inv(original, s) && c < |s.table|
    ensures |s.table| == |original|
    ensures Export(s.hooks, s.table[c]) ==> s.table[c] == original[c]
    ensures forall i :: 0 <= i < |s.hooks| && s.table[c] == s.hooks[i].hookfunc ==>
              Handle(s, i) == original[c] != 0 && s.hooks[i].syscall == c
  {
    if Export(s.hooks, s.table[c]) {
      FoundIsFree(original, s, c);
    }
    var ps := Patches(s.hooks);
    forall i | 0 <= i < |s.hooks| && s.table[c] == s.hooks[i].hookfunc
      ensures Handle(s, i) == original[c] != 0 && s.hooks[i].syscall == c
    {
      assert original[c] in original;
      var j :| 0 <= j < |ps| && ps[j].active && ps[j].cell == c;
      assert ps[j] == PatchOf(s.hooks[j]) && s.hooks[j].hookfunc == s.hooks[i].hookfunc;
    }
  }

  // ---- the code ----

  class ApiHooks {
    const syscalls: array<Word>
    const hooks: array<Hook>

    ghost predicate Valid()
      reads this, hooks, syscalls
    {
      hooks.Length == MAXIDS && forall i :: 0 <= i < MAXIDS && hooks[i].func != 0 ==> hooks[i].syscall < syscalls.Length
    }

    ghost function Now(): State
      reads this, hooks, syscalls
    {
      State(syscalls[..], hooks[..])
    }

    constructor (table: array<Word>, entries: seq<Word>)
      requires |entries| == MAXIDS
      ensures Valid() && syscalls == table && fresh(hooks)
      ensures forall i :: 0 <= i < MAXIDS ==> hooks[i].func == 0 && hooks[i].hookfunc == entries[i]
    {
      syscalls := table;
      hooks := new Hook[MAXIDS](i requires 0 <= i < MAXIDS => Hook(0, 0, entries[i]));
    }

    method FindSyscallAddr(addr: Word) returns (k: nat)
      ensures k == FindSyscall(syscalls[..], addr)
    {
      k := 0;
      assert syscalls[..][0..] == syscalls[..];
      while k < syscalls.Length && syscalls[k] != addr
        invariant k <= syscalls.Length
        invariant FindSyscall(syscalls[..], addr) == k + FindSyscall(syscalls[..][k..], addr)
      {
        assert syscalls[..][k..][1..] == syscalls[..][k + 1..];
        k := k + 1;
      }
    }

    method FindFreeHook() returns (i: int)
      requires Valid()
      ensures i == if FreeHook(hooks[..]) == MAXIDS then -1 else FreeHook(hooks[..])
    {
      i := 0;
      assert hooks[..][0..] == hooks[..];
      while i < MAXIDS && hooks[i].func != 0
        invariant 0 <= i <= MAXIDS
        invariant FreeHook(hooks[..]) == i + FreeHook(hooks[..][i..])
      {
        assert hooks[..][i..][1..] == hooks[..][i + 1..];
        i := i + 1;
      }
      if i == MAXIDS {
        i := -1;
      }
    }

    /** apiHookGenericByName and apiHookGenericByNid; `addr` is what the export lookup
        returned. */
    method HookGeneric(addr: Word) returns (ret: int)
      requires Valid()
      modifies hooks, syscalls
      ensures Valid() && (Now(), ret) == Install(old(Now()), addr)
    {
      var id := FindFreeHook();
      if id < 0 {
        return 0;
      }
      if addr != 0 {
        var k := FindSyscallAddr(addr);
        if k < syscalls.Length {
          hooks[id] := hooks[id].(syscall := k, func := addr);
          syscalls[k] := hooks[id].hookfunc;
          return 1;
        }
      }
      ret := 0;
    }

    method GenericDelete(id: int)
      requires Valid()
      modifies hooks, syscalls
      ensures Valid() && Now() == Delete(old(Now()), id)
    {
      if id < 0 || id >= MAXIDS {
        return;
      }
      if hooks[id].func != 0 {
        syscalls[hooks[id].syscall] := hooks[id].func;
        hooks[id] := hooks[id].(func := 0);
      }
    }
  }
}

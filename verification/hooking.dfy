/** `IntPtrExtensions.DetourWith`: build a `MemoryEdits.Detour` for a
    function in the current process, register it with the process's edit
    manager (disposing any edit already registered at that address), and
    apply it. */
module Hooking {
  import opened Wrappers
  import opened Memory
  import opened EditRegistry
  import JumpDetour
  import LocalAccess

  type Detour = JumpDetour.Detour

  /** Disposing a registered detour, as the edit manager does: its effect
      on memory, or the exception it throws. */
  function DisposeEdit(d: Detour, m: Mem): (r: Result<Mem>)
    ensures r.Ok? <==> JumpDetour.Dispose(d, m).error.None?
    ensures r.Ok? ==> r.value == JumpDetour.Dispose(d, m).mem
    ensures r.Err? ==> Some(r.error) == JumpDetour.Dispose(d, m).error
  {
    var o := JumpDetour.Dispose(d, m);
    if o.error.Some? then Err(o.error.value) else Ok(o.mem)
  }

  /** The state after `DetourWith`: the edit-manager table, memory, and the
      detour returned (or the exception thrown). */
  datatype Hooked = Hooked(registry: Registry<Detour>, mem: Mem, result: Result<Detour>)

  /** The detour `d` stored at its target in process pid's manager. The
      table holds the detour object itself, so once `Apply` has changed it
      the table shows the change. */
  function Register(found: Lookup<Detour>, pid: int, m: Manager<Detour>, d: Detour): (r: Registry<Detour>)
    ensures pid in r.managers && d.target as int in r.managers[pid].edits && r.managers[pid].edits[d.target] == d
  {
    Registry(found.registry.managers[pid := Manager(m.edits[d.target := d])], found.registry.handlers)
  }

  /** `DetourWith` as written: the new detour saves the target's bytes
      before the manager disposes the edit already registered there. */
  function DetourWithAsWritten(reg: Registry<Detour>, pid: int, mem: Mem, target: nat, hook: nat, attributed: bool,
                               alloc: nat, code: seq<JumpDetour.Instruction>): (r: Hooked)
    requires target < JumpDetour.AddressSpace && hook < JumpDetour.AddressSpace && alloc < JumpDetour.AddressSpace
    ensures r.result.Ok? ==>
      && pid in r.registry.managers && target in r.registry.managers[pid].edits
      && r.registry.managers[pid].edits[target] == r.result.value && r.result.value.applied
      && Mapped(r.mem, target, JumpDetour.JumpSize)
      && Load(r.mem, target, JumpDetour.JumpSize) == JumpDetour.JumpBytes(target, hook)
    ensures !attributed ==> r.result == Err(TypeInitialization) && r.mem == mem
  {
    var found := ForProcess(reg, pid);
    match JumpDetour.New(mem, target, hook, attributed)
    case Err(x) => Hooked(found.registry, mem, Err(x))
    case Ok(d) =>
      var placed := Set(found.manager, target, d, mem, DisposeEdit);
      if placed.error.Some? then Hooked(found.registry, mem, Err(placed.error.value))
      else
        var a := JumpDetour.Apply(d, placed.state, alloc, code);
        Hooked(Register(found, pid, placed.manager, a.detour), a.mem, if a.error.Some? then Err(a.error.value) else Ok(a.detour))
  }

  /** `DetourWith` with the previous edit disposed (and dropped from the
      table) before the new detour saves the target's bytes. */
  function DetourWith(reg: Registry<Detour>, pid: int, mem: Mem, target: nat, hook: nat, attributed: bool,
                      alloc: nat, code: seq<JumpDetour.Instruction>): (r: Hooked)
    requires target < JumpDetour.AddressSpace && hook < JumpDetour.AddressSpace && alloc < JumpDetour.AddressSpace
    ensures r.result.Ok? ==>
      && pid in r.registry.managers && target in r.registry.managers[pid].edits
      && r.registry.managers[pid].edits[target] == r.result.value && r.result.value.applied
      && Mapped(r.mem, target, JumpDetour.JumpSize)
      && Load(r.mem, target, JumpDetour.JumpSize) == JumpDetour.JumpBytes(target, hook)
    ensures !attributed ==> r.result.Err?
  {
    var found := ForProcess(reg, pid);
    var evicted := if target in found.manager.edits then DisposeEdit(found.manager.edits[target], mem) else Ok(mem);
    match evicted
    case Err(x) => Hooked(found.registry, mem, Err(x))
    case Ok(m1) =>
      var kept := Manager(found.manager.edits - {target as int});
      match JumpDetour.New(m1, target, hook, attributed)
      case Err(x) => Hooked(Registry(found.registry.managers[pid := kept], found.registry.handlers), m1, Err(x))
      case Ok(d) =>
        var a := JumpDetour.Apply(d, m1, alloc, code);
        Hooked(Register(found, pid, kept, a.detour), a.mem, if a.error.Some? then Err(a.error.value) else Ok(a.detour))
  }

  /** A detour already applied at `target`, with its jump in place. Only a
      non-null target can have been detoured. */
  predicate Hooks(reg: Registry<Detour>, pid: int, mem: Mem, target: nat, prev: Detour)
  {
    && target != 0 && pid in reg.managers && target in reg.managers[pid].edits && reg.managers[pid].edits[target] == prev
    && JumpDetour.Valid(prev) && prev.target == target && prev.applied
    && Mapped(mem, target, JumpDetour.JumpSize)
    && Load(mem, target, JumpDetour.JumpSize) == JumpDetour.JumpBytes(target, prev.hook)
  }

  /** Hooking an already hooked function as written: the new detour saves
      the old detour's jump as the function's original bytes, although the
      old detour has put the real ones back by the time the new one applies.
      Removing the new detour later re-installs a jump to the old hook. */
  lemma ReHookAsWrittenSavesOldJump(reg: Registry<Detour>, pid: int, mem: Mem, target: nat, hook: nat, prev: Detour,
                                    alloc: nat, code: seq<JumpDetour.Instruction>)
    requires target < JumpDetour.AddressSpace && hook < JumpDetour.AddressSpace && alloc < JumpDetour.AddressSpace
    requires Hooks(reg, pid, mem, target, prev)
    ensures var r := DetourWithAsWritten(reg, pid, mem, target, hook, true, alloc, code);
      && pid in r.registry.managers && target in r.registry.managers[pid].edits
      && r.registry.managers[pid].edits[target].original == JumpDetour.JumpBytes(target, prev.hook)
      && (prev.original != JumpDetour.JumpBytes(target, prev.hook) ==>
            r.registry.managers[pid].edits[target].original != prev.original)
  {
    var found := ForProcess(reg, pid);
    var d := JumpDetour.New(mem, target, hook, true).value;
    assert DisposeEdit(prev, mem).Ok?;
    var placed := Set(found.manager, target, d, mem, DisposeEdit);
    assert placed.error.None?;
  }

  /** The same situation handled by the corrected order: the new detour
      saves the bytes the old detour restored, the function's own. */
  lemma ReHookSavesRestoredBytes(reg: Registry<Detour>, pid: int, mem: Mem, target: nat, hook: nat, prev: Detour,
                                 alloc: nat, code: seq<JumpDetour.Instruction>)
    requires target < JumpDetour.AddressSpace && hook < JumpDetour.AddressSpace && alloc < JumpDetour.AddressSpace
    requires Hooks(reg, pid, mem, target, prev)
    requires prev.trampoline == 0 || prev.trampoline + JumpDetour.TrampolineRegion <= target
          || target + JumpDetour.JumpSize <= prev.trampoline
    ensures var r := DetourWith(reg, pid, mem, target, hook, true, alloc, code);
      && pid in r.registry.managers && target in r.registry.managers[pid].edits
      && r.registry.managers[pid].edits[target].original == prev.original
  {
    JumpDetour.DisposeApplied(prev, mem);
    var m3 := JumpDetour.Dispose(prev, mem).mem;
    assert DisposeEdit(prev, mem) == Ok(m3);
    assert JumpDetour.New(m3, target, hook, true).value.original == prev.original;
  }
}

/** `ProcessMemoryManager`: per-process state kept by the library: a
    lazily opened process handle and the table of injected modules (of
    type `M`), plus the static table of managers keyed by process id. */
module ProcessRegistry {
  import opened Wrappers

  /** The `ProcessAccessFlags` values the handle is opened with, as the
      Windows SDK defines them. */
  const CreateThread: bv32 := 0x2
  const VMOperation: bv32 := 0x8
  const VMRead: bv32 := 0x10
  const VMWrite: bv32 := 0x20
  const QueryInformation: bv32 := 0x400
  const DefaultAccessFlags: bv32 := QueryInformation | CreateThread | VMOperation | VMWrite | VMRead

  /** The manager's fields: the process id, the cached handle (0 when
      none), and `InjectedModules`. */
  datatype Manager<M> = Manager(pid: int, handle: int, modules: map<string, M>)

  /** A new manager: no handle yet and no injected modules. */
  function NewManager<M>(pid: int): (r: Manager<M>)
    ensures r.pid == pid && r.handle == 0 && r.modules == map[]
  {
    Manager(pid, 0, map[])
  }

  datatype Lookup<M> = Lookup(registry: map<int, Manager<M>>, manager: Manager<M>)

  /** `ForProcess(process)`: get or create the process's manager. */
  function ForProcess<M>(reg: map<int, Manager<M>>, pid: int): (r: Lookup<M>)
    ensures pid in reg ==> r == Lookup(reg, reg[pid])
    ensures pid !in reg ==> r.manager == NewManager(pid) && r.registry == reg[pid := r.manager]
  {
    if pid in reg then Lookup(reg, reg[pid])
    else
      var m := NewManager(pid);
      Lookup(reg[pid := m], m)
  }

  /** Asking twice gives the same manager and creates nothing the second time. */
  lemma ForProcessStable<M>(reg: map<int, Manager<M>>, pid: int)
    ensures var a := ForProcess(reg, pid);
      ForProcess(a.registry, pid) == a && a.manager.pid == if pid in reg then reg[pid].pid else pid
  {
  }

  datatype Opened<M> = Opened(manager: Manager<M>, result: Result<int>)

  /** The `Handle` getter. `open(flags, pid)` is what `OpenProcess` returns
      (0 on failure); it is called only while no handle is cached, and a
      failure leaves the handle 0. */
  function Handle<M>(m: Manager<M>, open: (bv32, int) -> int): (r: Opened<M>)
    ensures m.handle != 0 ==> r == Opened(m, Ok(m.handle))
    ensures m.handle == 0 && open(DefaultAccessFlags, m.pid) == 0 ==> r == Opened(m, Err(Win32))
    ensures m.handle == 0 && open(DefaultAccessFlags, m.pid) != 0 ==>
      r.result == Ok(open(DefaultAccessFlags, m.pid)) && r.manager == m.(handle := open(DefaultAccessFlags, m.pid))
  {
    if m.handle != 0 then Opened(m, Ok(m.handle))
    else
      var h := open(DefaultAccessFlags, m.pid);
      if h == 0 then Opened(m, Err(Win32)) else Opened(m.(handle := h), Ok(h))
  }

  /** The handle is opened once: after a successful access every later
      access returns the same handle without calling `OpenProcess`, whatever
      it would return. */
  lemma HandleCached<M>(m: Manager<M>, open: (bv32, int) -> int, later: (bv32, int) -> int)
    requires Handle(m, open).result.Ok?
    ensures var a := Handle(m, open);
      Handle(a.manager, later) == a && a.result.value != 0
  {
  }

  /** A failed open caches nothing, so the next access tries again. */
  lemma HandleRetries<M>(m: Manager<M>, open: (bv32, int) -> int, later: (bv32, int) -> int)
    requires m.handle == 0 && open(DefaultAccessFlags, m.pid) == 0
    ensures var a := Handle(m, open);
      a.result == Err(Win32) && Handle(a.manager, later) == Handle(m, later)
  {
  }

  datatype Closed<M> = Closed(manager: Manager<M>, closed: Option<int>)

  /** `Dispose()`: close a cached handle (`closed` is the handle passed to
      `CloseHandle`) and forget it. The injected-module table is kept. */
  function Dispose<M>(m: Manager<M>): (r: Closed<M>)
    ensures r.manager.handle == 0 && r.manager.pid == m.pid && r.manager.modules == m.modules
    ensures r.closed.Some? <==> m.handle != 0
    ensures r.closed.Some? ==> r.closed.value == m.handle
  {
    if m.handle != 0 then Closed(m.(handle := 0), Some(m.handle)) else Closed(m, None)
  }

  /** Disposing twice closes nothing the second time and changes nothing. */
  lemma DisposeIdempotent<M>(m: Manager<M>)
    ensures var a := Dispose(m);
      Dispose(a.manager) == Closed(a.manager, None)
  {
  }

  /** After `Dispose`, the next handle access opens the process again. */
  lemma HandleAfterDispose<M>(m: Manager<M>, open: (bv32, int) -> int)
    ensures var a := Handle(Dispose(m).manager, open);
      a.result == if open(DefaultAccessFlags, m.pid) == 0 then Err(Win32) else Ok(open(DefaultAccessFlags, m.pid))
  {
  }
}

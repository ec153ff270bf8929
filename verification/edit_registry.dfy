/** `MemoryEditManager`: the edits applied to one process, keyed by address,
    and the static table of managers keyed by process id.

    An edit is any `IMemoryEdit` (type `E`). Disposing one acts on some
    state `S` (for a detour, the process memory) and may throw; the model
    takes the disposal as the parameter `dispose`. Edits are held by value,
    so an edit that changes after it is stored is stored again by the
    caller. */
module EditRegistry {
  import opened Wrappers

  datatype Manager<E> = Manager(edits: map<int, E>)

  /** The state after a call that disposes edits and may throw part-way. */
  datatype Changed<E, S> = Changed(manager: Manager<E>, state: S, error: Option<Error>)

  /** The indexer's getter: the edit at `addr`, or null (`None`). */
  function Get<E>(m: Manager<E>, addr: int): (r: Option<E>)
    ensures r.Some? <==> addr in m.edits
    ensures r.Some? ==> r.value == m.edits[addr]
  {
    if addr in m.edits then Some(m.edits[addr]) else None
  }

  /** The indexer's setter: an edit already at `addr` is disposed first,
      even when it is `e` itself. An exception from that disposal leaves
      the table as it was. */
  function Set<E, S>(m: Manager<E>, addr: int, e: E, s: S, dispose: (E, S) -> Result<S>): (r: Changed<E, S>)
    ensures addr !in m.edits ==> r.error.None? && r.state == s
    ensures addr in m.edits ==> (r.error.None? <==> dispose(m.edits[addr], s).Ok?)
    ensures addr in m.edits && r.error.None? ==> Ok(r.state) == dispose(m.edits[addr], s)
    ensures r.error.Some? ==> r.manager == m && r.state == s && Some(dispose(m.edits[addr], s).error) == r.error
    ensures r.error.None? ==> addr in r.manager.edits && r.manager.edits[addr] == e
    ensures r.error.None? ==> forall a :: a != addr ==> Get(r.manager, a) == Get(m, a)
  {
    if addr in m.edits then
      match dispose(m.edits[addr], s)
      case Err(x) => Changed(m, s, Some(x))
      case Ok(s1) => Changed(Manager(m.edits[addr := e]), s1, None)
    else Changed(Manager(m.edits[addr := e]), s, None)
  }

  /** After a successful set, the getter returns the new edit at `addr`
      and what it returned before everywhere else. */
  lemma GetAfterSet<E, S>(m: Manager<E>, addr: int, e: E, s: S, dispose: (E, S) -> Result<S>, b: int)
    requires Set(m, addr, e, s, dispose).error.None?
    ensures Get(Set(m, addr, e, s, dispose).manager, b) == if b == addr then Some(e) else Get(m, b)
  {
  }

  /** `order` lists every stored address exactly once: the order in which
      the table happens to enumerate its values. */
  predicate Enumerates<E>(order: seq<int>, edits: map<int, E>)
  {
    && (forall i :: 0 <= i < |order| ==> order[i] in edits)
    && (forall a :: a in edits ==> a in order)
    && (forall i, j :: 0 <= i < j < |order| ==> order[i] != order[j])
  }

  /** The state after disposing the edits at `order`, one after another,
      stopping at the first that throws. */
  function DisposeInOrder<E, S>(edits: map<int, E>, order: seq<int>, s: S, dispose: (E, S) -> Result<S>): (r: Result<S>)
    requires forall i :: 0 <= i < |order| ==> order[i] in edits
    decreases |order|
  {
    if |order| == 0 then Ok(s)
    else
      match DisposeInOrder(edits, order[..|order| - 1], s, dispose)
      case Err(x) => Err(x)
      case Ok(s1) => dispose(edits[order[|order| - 1]], s1)
  }

  /** `Dispose()`: every stored edit is disposed, then the table is
      cleared. An exception stops the loop before the table is cleared;
      the disposals that completed before it keep their effect. */
  method Dispose<E, S>(m: Manager<E>, s: S, dispose: (E, S) -> Result<S>, order: seq<int>) returns (r: Changed<E, S>)
    requires Enumerates(order, m.edits)
    ensures r.error.None? <==> DisposeInOrder(m.edits, order, s, dispose).Ok?
    ensures r.error.None? ==> r.manager.edits == map[] && Ok(r.state) == DisposeInOrder(m.edits, order, s, dispose)
    ensures r.error.Some? ==> r.manager == m && Some(DisposeInOrder(m.edits, order, s, dispose).error) == r.error
    ensures r.error.Some? ==>
      exists k :: && 0 <= k < |order|
                  && DisposeInOrder(m.edits, order[..k], s, dispose) == Ok(r.state)
                  && dispose(m.edits[order[k]], r.state) == Err(r.error.value)
  {
    var state := s;
    var i := 0;
    while i < |order|
      invariant 0 <= i <= |order|
      invariant DisposeInOrder(m.edits, order[..i], s, dispose) == Ok(state)
    {
      assert order[..i + 1][..i] == order[..i];
      match dispose(m.edits[order[i]], state)
      case Err(x) =>
        DisposeStops(m.edits, order, i + 1, s, dispose);
        assert DisposeInOrder(m.edits, order[..i], s, dispose) == Ok(state);
        return Changed(m, state, Some(x));
      case Ok(s1) =>
        state := s1;
        i := i + 1;
    }
    assert order[..i] == order;
    r := Changed(Manager(map[]), state, None);
  }

  /** Once a prefix of the disposals fails, the whole run fails the same way. */
  lemma {:induction false} DisposeStops<E, S>(edits: map<int, E>, order: seq<int>, k: nat, s: S, dispose: (E, S) -> Result<S>)
    requires forall i :: 0 <= i < |order| ==> order[i] in edits
    requires k <= |order| && DisposeInOrder(edits, order[..k], s, dispose).Err?
    ensures DisposeInOrder(edits, order, s, dispose) == DisposeInOrder(edits, order[..k], s, dispose)
    decreases |order| - k
  {
    if k < |order| {
      assert order[..k + 1][..k] == order[..k];
      DisposeStops(edits, order, k + 1, s, dispose);
    } else {
      assert order[..k] == order;
    }
  }

  /** When no disposal throws, `Dispose()` empties any table. */
  lemma {:induction false} DisposeNeverThrowing<E, S>(edits: map<int, E>, order: seq<int>, s: S, dispose: (E, S) -> Result<S>)
    requires forall i :: 0 <= i < |order| ==> order[i] in edits
    requires forall e, t :: dispose(e, t).Ok?
    ensures DisposeInOrder(edits, order, s, dispose).Ok?
    decreases |order|
  {
    if |order| > 0 {
      DisposeNeverThrowing(edits, order[..|order| - 1], s, dispose);
    }
  }

  /** The static table: one manager per process id, and how many times
      `ProcessExited` is subscribed to each process's `Exited` event. */
  datatype Registry<E> = Registry(managers: map<int, Manager<E>>, handlers: map<int, nat>)

  function Handlers<E>(reg: Registry<E>, pid: int): nat
  {
    if pid in reg.handlers then reg.handlers[pid] else 0
  }

  datatype Lookup<E> = Lookup(registry: Registry<E>, manager: Manager<E>)

  /** `ForProcess(process)`: get or create the process's manager. Every
      call subscribes `ProcessExited` once more. */
  function ForProcess<E>(reg: Registry<E>, pid: int): (r: Lookup<E>)
    ensures pid in reg.managers ==> r.manager == reg.managers[pid] && r.registry.managers == reg.managers
    ensures pid !in reg.managers ==> r.manager.edits == map[] && r.registry.managers == reg.managers[pid := r.manager]
    ensures Handlers(r.registry, pid) == Handlers(reg, pid) + 1
    ensures forall q :: q != pid ==> Handlers(r.registry, q) == Handlers(reg, q)
  {
    var handlers := reg.handlers[pid := Handlers(reg, pid) + 1];
    if pid in reg.managers then Lookup(Registry(reg.managers, handlers), reg.managers[pid])
    else
      var m := Manager(map[]);
      Lookup(Registry(reg.managers[pid := m], handlers), m)
  }

  /** Asking twice gives the same manager, and the second call creates
      nothing. */
  lemma ForProcessStable<E>(reg: Registry<E>, pid: int)
    ensures var a := ForProcess(reg, pid);
      var b := ForProcess(a.registry, pid);
      b.manager == a.manager && b.registry.managers == a.registry.managers
  {
  }

  /** The state after the static exit handler. */
  datatype Exited<E, S> = Exited(registry: Registry<E>, state: S, error: Option<Error>)

  /** `ProcessExited`: unsubscribe once, fetch the manager through
      `ForProcess` (which subscribes again, and creates an empty manager if
      there is none), dispose it, and drop the process's entry. An exception
      from a disposal leaves the entry in place, and the disposals before it
      keep their effect. */
  method ProcessExited<E, S>(reg: Registry<E>, pid: int, s: S, dispose: (E, S) -> Result<S>, order: seq<int>)
    returns (r: Exited<E, S>)
    requires Enumerates(order, if pid in reg.managers then reg.managers[pid].edits else map[])
    ensures r.error.None? <==> DisposeInOrder(ForProcess(reg, pid).manager.edits, order, s, dispose).Ok?
    ensures r.error.None? ==>
      && Ok(r.state) == DisposeInOrder(ForProcess(reg, pid).manager.edits, order, s, dispose)
      && pid !in r.registry.managers
      && (forall q :: q != pid && q in reg.managers ==> q in r.registry.managers && r.registry.managers[q] == reg.managers[q])
      && (forall q :: q in r.registry.managers ==> q in reg.managers)
    ensures r.error.Some? ==>
      && pid in r.registry.managers
      && r.registry.managers == ForProcess(reg, pid).registry.managers
      && exists k :: && 0 <= k < |order|
                     && DisposeInOrder(ForProcess(reg, pid).manager.edits, order[..k], s, dispose) == Ok(r.state)
                     && dispose(ForProcess(reg, pid).manager.edits[order[k]], r.state) == Err(r.error.value)
    ensures Handlers(r.registry, pid) == if Handlers(reg, pid) == 0 then 1 else Handlers(reg, pid)
  {
    var h := Handlers(reg, pid);
    var unsubscribed := Registry(reg.managers, reg.handlers[pid := if h == 0 then 0 else h - 1]);
    var found := ForProcess(unsubscribed, pid);
    var disposed := Dispose(found.manager, s, dispose, order);
    if disposed.error.Some? {
      return Exited(found.registry, disposed.state, disposed.error);
    }
    r := Exited(Registry(found.registry.managers - {pid}, found.registry.handlers), disposed.state, None);
  }
}

/** `InjectedModule` and `ProcessExtensions.InjectLibrary`: loading a DLL
    into another process through a remote thread started at `LoadLibraryW`,
    and calling the DLL's exports through further remote threads. Each Win32
    call is a parameter holding what it returned; the remote threads
    themselves are not modelled. */
module Injection {
  import opened Wrappers
  import opened Bytes
  import opened Memory
  import opened Codec
  import opened Text
  import opened ProcessRegistry

  /** An injected module: its name, its base address in the remote process,
      the remote process id, and the cache of resolved exports. */
  datatype Module = Module(name: string, base: int, pid: int, exports: map<string, int>)

  /** `new InjectedModule(baseAddress, name, process)`: nothing resolved yet. */
  function NewModule(base: int, name: string, pid: int): (r: Module)
    ensures r.name == name && r.base == base && r.pid == pid && r.exports == map[]
  {
    Module(name, base, pid, map[])
  }

  /** `BaseAddress + (pFunc - hModule)` in the process's pointer width with
      unchecked (wrapping) arithmetic: `long` on 64-bit, `int` on 32-bit. */
  function Rebase(w: PtrWidth, base: int, pFunc: int, hModule: int): int
  {
    var n := w.Size();
    WrapSigned(base + WrapSigned(pFunc - hModule, n), n)
  }

  /** The rebased export lies as far from the remote base as the local
      export lies from the local module, modulo the pointer width, and it
      is a valid pointer value. */
  lemma RebaseKeepsOffset(w: PtrWidth, base: int, pFunc: int, hModule: int)
    ensures InSigned(Rebase(w, base, pFunc, hModule), w.Size())
    ensures Wrap(Rebase(w, base, pFunc, hModule) - base, w.Size()) == Wrap(pFunc - hModule, w.Size())
  {
    var n := w.Size();
    var d := WrapSigned(pFunc - hModule, n);
    var r := Rebase(w, base, pFunc, hModule);
    WrapSignedCongruent(pFunc - hModule, n);
    WrapSignedCongruent(base + d, n);
    WrapAdd(r, -base, n);
    WrapAdd(base + d, -base, n);
    assert Wrap(r - base, n) == Wrap(Wrap(r, n) + -base, n) == Wrap(Wrap(base + d, n) + -base, n);
    assert base + d + -base == d;
  }

  /** Without wrap-around the rebased export is exactly
      `BaseAddress + (pFunc - hModule)`. */
  lemma RebaseExact(w: PtrWidth, base: int, pFunc: int, hModule: int)
    requires InSigned(pFunc - hModule, w.Size()) && InSigned(base + (pFunc - hModule), w.Size())
    ensures Rebase(w, base, pFunc, hModule) == base + (pFunc - hModule)
  {
    WrapSignedInRange(pFunc - hModule, w.Size());
    WrapSignedInRange(base + (pFunc - hModule), w.Size());
  }

  /** The outcome of `FindExport`: the module (with its cache), the
      resolved address or the exception, and whether the local copy of the
      library was freed again. */
  datatype Found = Found(injected: Module, result: Result<int>, freed: bool)

  /** `FindExport(name)`. `loaded` is what `LoadLibraryEx` returned for the
      module name in the local process and `proc` what `GetProcAddress`
      returned for the export; neither call is made for a cached name. */
  function FindExport(m: Module, fname: string, w: PtrWidth, loaded: int, proc: int): (r: Found)
    ensures fname in m.exports ==> r == Found(m, Ok(m.exports[fname]), false)
    ensures fname !in m.exports ==> (r.result.Ok? <==> loaded != 0 && proc != 0)
    ensures fname !in m.exports ==> (r.freed <==> loaded != 0)
    ensures r.result.Err? ==> r.result.error == Win32 && r.injected == m
    ensures fname !in m.exports && r.result.Ok? ==>
      && r.result.value == Rebase(w, m.base, proc, loaded)
      && r.injected == m.(exports := m.exports[fname := r.result.value])
  {
    if fname in m.exports then Found(m, Ok(m.exports[fname]), false)
    else if loaded == 0 then Found(m, Err(Win32), false)
    else if proc == 0 then Found(m, Err(Win32), true)
    else
      var addr := Rebase(w, m.base, proc, loaded);
      Found(m.(exports := m.exports[fname := addr]), Ok(addr), true)
  }

  /** Once resolved, an export is answered from the cache: the same address,
      no library loaded, whatever the loader would now return. */
  lemma FindExportCaches(m: Module, fname: string, w: PtrWidth, loaded: int, proc: int, loaded2: int, proc2: int)
    requires FindExport(m, fname, w, loaded, proc).result.Ok?
    ensures var a := FindExport(m, fname, w, loaded, proc);
      FindExport(a.injected, fname, w, loaded2, proc2) == Found(a.injected, a.result, false)
  {
  }

  /** The result of `WaitForSingleObject`: `WAIT_OBJECT_0`, `WAIT_TIMEOUT`,
      `WAIT_ABANDONED` or `WAIT_FAILED`. */
  datatype Wait = Signalled | TimedOut | Abandoned | WaitFailed

  /** What the Win32 calls around one remote thread returned: the thread
      handle from `CreateRemoteThread` (0 on failure), the wait result,
      whether `GetExitCodeThread` succeeded, and the exit code it gave. */
  datatype ThreadRun = ThreadRun(thread: int, wait: Wait, exitRead: bool, exitCode: int)

  /** The start address and argument handed to `CreateRemoteThread`. */
  datatype ThreadStart = ThreadStart(entry: int, argument: int)

  /** What staging the data argument returned: the remote allocation (0 on
      failure) and whether `WriteProcessMemory` reported success. */
  datatype Staging = Staging(alloc: int, written: bool)

  /** A data argument is passed only when the pointer, the size and the type
      are all present. */
  predicate PassesData(data: int, dataSize: int, hasType: bool)
  {
    !(data == 0 || dataSize == 0 || !hasType)
  }

  /** The outcome of `CallExportInternal`: the module (with its cache), the
      thread's exit code or the exception, the thread start if one was
      attempted, and which resources the `finally` block released. */
  datatype Called = Called(injected: Module, result: Result<int>, start: Option<ThreadStart>,
                           freedArgument: bool, closedThread: bool)

  /** `CallExportInternal(timeout, funcName, data, dataType, dataSize)`.
      `modules` is the parent process's injected-module table. */
  function CallExport(modules: map<string, Module>, m: Module, fname: string, w: PtrWidth, loaded: int, proc: int,
                      data: int, dataSize: int, hasType: bool, staging: Staging, run: ThreadRun): (r: Called)
    ensures m.name !in modules ==> r == Called(m, Err(CorruptState), None, false, false)
    ensures m.name in modules ==> r.injected == FindExport(m, fname, w, loaded, proc).injected
    ensures r.start.Some? ==>
      && m.name in modules && FindExport(m, fname, w, loaded, proc).result.Ok?
      && r.start.value.entry == FindExport(m, fname, w, loaded, proc).result.value
      && r.start.value.argument == (if PassesData(data, dataSize, hasType) then staging.alloc else 0)
      && (r.start.value.argument != 0 <==> PassesData(data, dataSize, hasType))
    ensures r.result.Ok? <==>
      && m.name in modules && FindExport(m, fname, w, loaded, proc).result.Ok?
      && (PassesData(data, dataSize, hasType) ==> staging.alloc != 0 && staging.written)
      && run.thread != 0 && (run.wait == Signalled || run.wait == TimedOut) && run.exitRead
    ensures r.result.Ok? ==> r.result.value == run.exitCode
    ensures m.name in modules && r.result.Err? ==> r.result.error == Win32
    ensures r.freedArgument <==>
      m.name in modules && FindExport(m, fname, w, loaded, proc).result.Ok?
      && PassesData(data, dataSize, hasType) && staging.alloc != 0
    ensures r.closedThread <==> r.start.Some? && run.thread != 0
  {
    if m.name !in modules then Called(m, Err(CorruptState), None, false, false)
    else
      var found := FindExport(m, fname, w, loaded, proc);
      if found.result.Err? then Called(found.injected, Err(Win32), None, false, false)
      else
        var pass := PassesData(data, dataSize, hasType);
        if pass && staging.alloc == 0 then Called(found.injected, Err(Win32), None, false, false)
        else if pass && !staging.written then Called(found.injected, Err(Win32), None, true, false)
        else
          var start := Some(ThreadStart(found.result.value, if pass then staging.alloc else 0));
          if run.thread == 0 then Called(found.injected, Err(Win32), start, pass, false)
          else if !(run.wait == Signalled || run.wait == TimedOut) then Called(found.injected, Err(Win32), start, pass, true)
          else if !run.exitRead then Called(found.injected, Err(Win32), start, pass, true)
          else Called(found.injected, Ok(run.exitCode), start, pass, true)
  }

  /** A second call to the same export starts its thread at the same
      address without resolving the export again. */
  lemma CallExportReusesExport(modules: map<string, Module>, m: Module, fname: string, w: PtrWidth,
                               loaded: int, proc: int, data: int, dataSize: int, hasType: bool,
                               staging: Staging, run: ThreadRun,
                               loaded2: int, proc2: int, staging2: Staging, run2: ThreadRun)
    requires CallExport(modules, m, fname, w, loaded, proc, data, dataSize, hasType, staging, run).start.Some?
    ensures var a := CallExport(modules, m, fname, w, loaded, proc, data, dataSize, hasType, staging, run);
      var b := CallExport(modules, a.injected, fname, w, loaded2, proc2, data, dataSize, hasType, staging2, run2);
      b.injected == a.injected && (b.start.Some? ==> b.start.value.entry == a.start.value.entry)
  {
    var a := CallExport(modules, m, fname, w, loaded, proc, data, dataSize, hasType, staging, run);
    FindExportCaches(m, fname, w, loaded, proc, loaded2, proc2);
    assert a.injected == FindExport(m, fname, w, loaded, proc).injected;
  }

  /** The outcome of `Eject()`: the exception, if any, the thread start if
      one was attempted, and whether the thread handle was closed. */
  datatype Ejected = Ejected(error: Option<Error>, start: Option<ThreadStart>, closedThread: bool)

  /** `Eject()`: run `FreeLibrary(BaseAddress)` in the remote process.
      `kernel32` and `freeLibrary` are what `GetModuleHandle` and
      `GetProcAddress` returned. The module stays registered. */
  function Eject(modules: map<string, Module>, m: Module, kernel32: int, freeLibrary: int, run: ThreadRun): (r: Ejected)
    ensures m.name !in modules ==> r == Ejected(Some(CorruptState), None, false)
    ensures r.error.None? <==>
      && m.name in modules && kernel32 != 0 && freeLibrary != 0
      && run.thread != 0 && run.wait == Signalled && run.exitRead && run.exitCode != 0
    ensures r.error == Some(FreeLibraryFailed) <==>
      && m.name in modules && kernel32 != 0 && freeLibrary != 0
      && run.thread != 0 && run.wait == Signalled && run.exitRead && run.exitCode == 0
    ensures m.name in modules && r.error.Some? && r.error != Some(FreeLibraryFailed) ==> r.error == Some(Win32)
    ensures r.start.Some? ==> r.start.value == ThreadStart(freeLibrary, m.base)
    ensures r.closedThread <==> r.start.Some? && run.thread != 0
  {
    if m.name !in modules then Ejected(Some(CorruptState), None, false)
    else if kernel32 == 0 || freeLibrary == 0 then Ejected(Some(Win32), None, false)
    else
      var start := Some(ThreadStart(freeLibrary, m.base));
      if run.thread == 0 then Ejected(Some(Win32), start, false)
      else if run.wait != Signalled || !run.exitRead then Ejected(Some(Win32), start, true)
      else if run.exitCode == 0 then Ejected(Some(FreeLibraryFailed), start, true)
      else Ejected(None, start, true)
  }

  predicate IsSeparator(c: char)
  {
    c == '\\' || c == '/' || c == ':'
  }

  /** `Path.GetFileName(path)`: the part after the last directory or
      volume separator. */
  function FileName(path: string): (r: string)
    ensures |r| <= |path| && r == path[|path| - |r|..]
    ensures forall i :: 0 <= i < |r| ==> !IsSeparator(r[i])
    ensures |r| < |path| ==> IsSeparator(path[|path| - |r| - 1])
    decreases |path|
  {
    if |path| == 0 || IsSeparator(path[|path| - 1]) then []
    else
      var init := path[..|path| - 1];
      var r := FileName(init);
      assert init[|init| - |r|..] + [path[|path| - 1]] == path[|path| - |r| - 1..];
      r + [path[|path| - 1]]
  }

  /** The name a module is registered under: the given one, or the file
      name of the full path when it is null or empty. */
  function ModuleName(name: Option<string>, fullPath: string): (r: string)
    ensures name.Some? && |name.value| > 0 ==> r == name.value
    ensures name.None? || name.value == [] ==> r == FileName(fullPath)
  {
    if name.Some? && |name.value| > 0 then name.value else FileName(fullPath)
  }

  /** What the Win32 calls of `InjectLibrary` before the remote thread
      returned: `GetModuleHandle("Kernel32")`, `GetProcAddress` of
      `LoadLibraryW`, and `VirtualAllocEx` of the path buffer. */
  datatype Loader = Loader(kernel32: int, loadLibrary: int, alloc: int)

  /** The remote half of `InjectLibrary`: the path buffer at `alloc`
      receives `bytes`, a thread runs `LoadLibraryW` on it, and the buffer
      is released whatever happens. The result is the loaded module's base. */
  datatype Loaded = Loaded(mem: Mem, result: Result<int>, start: Option<ThreadStart>,
                           argumentBytes: seq<byte>, closedThread: bool)

  function LoadRemote(mem: Mem, alloc: int, bytes: seq<byte>, loadLibrary: int, xfer: Transfer, run: ThreadRun): (r: Loaded)
    requires alloc != 0
    ensures Unmapped(mem, alloc, |bytes|) ==> r.mem == mem
    ensures r.start.Some? <==> xfer.succeeded && xfer.count == |bytes|
    ensures r.start.Some? ==> r.start.value == ThreadStart(loadLibrary, alloc) && r.argumentBytes == bytes
    ensures r.result.Ok? <==> r.start.Some? && run.thread != 0 && run.wait == Signalled && run.exitRead && run.exitCode != 0
    ensures r.result.Ok? ==> r.result.value == run.exitCode
    ensures r.result == Err(NoModuleBase) <==>
      r.start.Some? && run.thread != 0 && run.wait == Signalled && run.exitRead && run.exitCode == 0
    ensures r.result.Err? && r.result != Err(NoModuleBase) ==> r.result.error == Win32
    ensures r.closedThread <==> r.start.Some? && run.thread != 0
  {
    var m1 := Allocate(mem, alloc, |bytes|);
    match WriteProcessMemory(m1, alloc, bytes, xfer)
    case Err(_) =>
      var m3 := Release(m1, alloc, |bytes|);
      if Unmapped(mem, alloc, |bytes|) then
        ReleaseFresh(mem, m1, alloc, |bytes|);
        Loaded(m3, Err(Win32), None, [], false)
      else Loaded(m3, Err(Win32), None, [], false)
    case Ok(m2) =>
      LoadStore(m1, alloc, bytes);
      var start := Some(ThreadStart(loadLibrary, alloc));
      var m3 := Release(m2, alloc, |bytes|);
      var staged := Load(m2, alloc, |bytes|);
      var result :=
        if run.thread == 0 || run.wait != Signalled || !run.exitRead then Err(Win32)
        else if run.exitCode == 0 then Err(NoModuleBase)
        else Ok(run.exitCode);
      if Unmapped(mem, alloc, |bytes|) then
        ReleaseFresh(mem, m2, alloc, |bytes|);
        Loaded(m3, result, start, staged, run.thread != 0)
      else Loaded(m3, result, start, staged, run.thread != 0)
  }

  /** The outcome of `InjectLibrary`: the process-manager table, the remote
      memory, the module or the exception, the thread start if one was
      attempted, the remote buffer's contents when it started, and whether
      the thread handle was closed. */
  datatype Injected = Injected(registry: map<int, Manager<Module>>, mem: Mem, result: Result<Module>,
                               start: Option<ThreadStart>, argumentBytes: seq<byte>, closedThread: bool)

  /** The registered module table of process pid, if it has a manager. */
  function ModulesOf(reg: map<int, Manager<Module>>, pid: int): map<string, Module>
  {
    if pid in reg then reg[pid].modules else map[]
  }

  /** `proc.InjectLibrary(modulePath, moduleName)`. `fileExists` says whether
      the file exists, `fullPath` is what `Path.GetFullPath` returned,
      `open` is `OpenProcess` as seen by the lazy handle, `xfer` is the
      report of the path write, and `mem` is the remote process's memory.
      The path is written as UTF-16 without its terminating NUL; the module
      is registered only once the remote `LoadLibraryW` returned a base. */
  function InjectLibrary(reg: map<int, Manager<Module>>, pid: int, fileExists: bool, fullPath: string, name: Option<string>,
                         codec: TextCodec, loader: Loader, open: (bv32, int) -> int, xfer: Transfer, mem: Mem,
                         run: ThreadRun): (r: Injected)
    ensures !fileExists ==> r == Injected(reg, mem, Err(FileNotFound), None, [], false)
    ensures fileExists && ModuleName(name, fullPath) in ModulesOf(reg, pid) ==>
      r == Injected(reg, mem, Err(BadArgument), None, [], false)
    ensures r.result.Ok? ==>
      && run.exitCode != 0
      && r.result.value == NewModule(run.exitCode, ModuleName(name, fullPath), pid)
      && pid in r.registry
      && r.registry[pid].modules == ModulesOf(reg, pid)[ModuleName(name, fullPath) := r.result.value]
    ensures r.result.Ok? <==>
      && fileExists && ModuleName(name, fullPath) !in ModulesOf(reg, pid)
      && loader.kernel32 != 0 && loader.loadLibrary != 0
      && Handle(ProcessRegistry.ForProcess(reg, pid).manager, open).result.Ok? && loader.alloc != 0
      && xfer.succeeded && xfer.count == |codec.getBytes(Unicode, fullPath)|
      && run.thread != 0 && run.wait == Signalled && run.exitRead && run.exitCode != 0
    ensures r.result == Err(NoModuleBase) <==>
      && fileExists && ModuleName(name, fullPath) !in ModulesOf(reg, pid)
      && loader.kernel32 != 0 && loader.loadLibrary != 0
      && Handle(ProcessRegistry.ForProcess(reg, pid).manager, open).result.Ok? && loader.alloc != 0
      && xfer.succeeded && xfer.count == |codec.getBytes(Unicode, fullPath)|
      && run.thread != 0 && run.wait == Signalled && run.exitRead && run.exitCode == 0
    ensures fileExists && ModuleName(name, fullPath) !in ModulesOf(reg, pid) && r.result.Err? && r.result != Err(NoModuleBase)
            ==> r.result.error == Win32
    ensures r.result.Err? ==> ModulesOf(r.registry, pid) == ModulesOf(reg, pid)
    ensures forall q :: q != pid ==> (q in r.registry <==> q in reg) && (q in reg ==> r.registry[q] == reg[q])
    ensures r.start.Some? ==>
      && r.start.value == ThreadStart(loader.loadLibrary, loader.alloc) && loader.alloc != 0
      && r.argumentBytes == codec.getBytes(Unicode, fullPath)
    ensures r.closedThread <==> r.start.Some? && run.thread != 0
    ensures Unmapped(mem, loader.alloc, |codec.getBytes(Unicode, fullPath)|) ==> r.mem == mem
  {
    if !fileExists then Injected(reg, mem, Err(FileNotFound), None, [], false)
    else
      var moduleName := ModuleName(name, fullPath);
      var found := ProcessRegistry.ForProcess(reg, pid);
      if moduleName in found.manager.modules then Injected(found.registry, mem, Err(BadArgument), None, [], false)
      else if loader.kernel32 == 0 || loader.loadLibrary == 0 then Injected(found.registry, mem, Err(Win32), None, [], false)
      else
        var access := Handle(found.manager, open);
        var reg1 := found.registry[pid := access.manager];
        if access.result.Err? || loader.alloc == 0 then Injected(reg1, mem, Err(Win32), None, [], false)
        else
          var l := LoadRemote(mem, loader.alloc, codec.getBytes(Unicode, fullPath), loader.loadLibrary, xfer, run);
          if l.result.Err? then Injected(reg1, l.mem, Err(l.result.error), l.start, l.argumentBytes, l.closedThread)
          else
            var added := NewModule(l.result.value, moduleName, pid);
            var manager := access.manager.(modules := access.manager.modules[moduleName := added]);
            Injected(reg1[pid := manager], l.mem, Ok(added), l.start, l.argumentBytes, l.closedThread)
  }

  /** A name, once injected, is refused by every later injection into the
      same process, whatever the OS calls would return. */
  lemma InjectRefusesDuplicate(reg: map<int, Manager<Module>>, pid: int, fullPath: string, name: Option<string>,
                               codec: TextCodec, loader: Loader, open: (bv32, int) -> int, xfer: Transfer, mem: Mem,
                               run: ThreadRun, fullPath2: string, codec2: TextCodec, loader2: Loader,
                               open2: (bv32, int) -> int, xfer2: Transfer, mem2: Mem, run2: ThreadRun)
    requires InjectLibrary(reg, pid, true, fullPath, name, codec, loader, open, xfer, mem, run).result.Ok?
    requires ModuleName(name, fullPath2) == ModuleName(name, fullPath)
    ensures var a := InjectLibrary(reg, pid, true, fullPath, name, codec, loader, open, xfer, mem, run);
      InjectLibrary(a.registry, pid, true, fullPath2, name, codec2, loader2, open2, xfer2, mem2, run2)
        == Injected(a.registry, mem2, Err(BadArgument), None, [], false)
  {
  }

  /** The module `InjectLibrary` returns is registered, so calling its
      exports and ejecting it pass the registration check; ejecting it
      does not unregister it, so its name stays taken. */
  lemma InjectedModuleRegistered(reg: map<int, Manager<Module>>, pid: int, fullPath: string, name: Option<string>,
                                 codec: TextCodec, loader: Loader, open: (bv32, int) -> int, xfer: Transfer, mem: Mem,
                                 run: ThreadRun, fname: string, w: PtrWidth, loaded: int, proc: int,
                                 kernel32: int, freeLibrary: int, run2: ThreadRun)
    requires InjectLibrary(reg, pid, true, fullPath, name, codec, loader, open, xfer, mem, run).result.Ok?
    ensures var a := InjectLibrary(reg, pid, true, fullPath, name, codec, loader, open, xfer, mem, run);
      var modules := ModulesOf(a.registry, pid);
      var m := a.result.value;
      && CallExport(modules, m, fname, w, loaded, proc, 0, 0, false, Staging(0, false), run2).result != Err(CorruptState)
      && Eject(modules, m, kernel32, freeLibrary, run2).error != Some(CorruptState)
  {
  }
}

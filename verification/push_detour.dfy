/** `Detours.Detour<T>`, the older inline hook: the first six bytes of the
    target are overwritten with `PUSH imm32; RET`, which pushes the hook's
    address and returns into it. Applying and removing write a whole
    six-byte array and report failure as `false` instead of throwing. */
module PushDetour {
  import opened Wrappers
  import opened Bytes
  import opened Memory
  import opened Codec
  import opened LocalAccess

  /** The length of the patch and of the saved original bytes. */
  const PatchSize: nat := 6
  /** `PUSH imm32` and `RET` (sections "PUSH—Push Word, Doubleword, or
      Quadword Onto the Stack" and "RET—Return From Procedure" of the Intel
      64 and IA-32 Architectures Software Developer's Manual, Volume 2). */
  const PushOpcode: byte := 0x68
  const RetOpcode: byte := 0xC3

  /** The detour's fields: the patched function, the six bytes saved from
      it, the six patch bytes, and `IsApplied`. */
  datatype Detour = Detour(target: int, original: seq<byte>, patch: seq<byte>, applied: bool)

  /** The state after a call that reports success as a boolean. */
  datatype Step = Step(detour: Detour, mem: Mem, ok: bool)

  /** The state after a call that may throw part-way. */
  datatype Outcome = Outcome(detour: Detour, mem: Mem, error: Option<Error>)

  /** `IntPtr.ToInt32()` of a pointer `p` of width `w`: the value itself on
      a 32-bit process, a checked narrowing on a 64-bit one. */
  function ToInt32(p: int, w: PtrWidth): (r: Result<int>)
    requires InSigned(p, w.Size())
    ensures r.Ok? <==> InSigned(p, 4)
    ensures r.Ok? ==> r.value == p
    ensures r.Err? ==> r.error == Overflow && w == Ptr64
  {
    if InSigned(p, 4) then Ok(p) else Err(Overflow)
  }

  /** `PUSH hook; RET` with the hook's `int` value laid out by `BitConverter`. */
  function Patch(hook: int): (r: seq<byte>)
    requires InSigned(hook, 4)
  {
    [PushOpcode] + EncodeLE(Wrap(hook, 4), 4) + [RetOpcode]
  }

  /** The address a six-byte `PUSH imm32; RET` transfers control to. */
  function PushedAddress(bs: seq<byte>): int
    requires |bs| == PatchSize
  {
    ToSigned(DecodeLE(bs[1..5]), 4)
  }

  /** The patch is six bytes, framed by the two opcodes, and returns into
      exactly the hook. */
  lemma PatchRoundTrip(hook: int)
    requires InSigned(hook, 4)
    ensures |Patch(hook)| == PatchSize
    ensures Patch(hook)[0] == PushOpcode && Patch(hook)[5] == RetOpcode
    ensures PushedAddress(Patch(hook)) == hook
  {
    var p := Patch(hook);
    var e := EncodeLE(Wrap(hook, 4), 4);
    assert p[1..5] == e;
    DecodeEncode(Wrap(hook, 4), 4);
    WrapSignedInRange(hook, 4);
  }

  /** `new Detour<T>(target, hook)`. `attributed` says whether `T` carries
      `UnmanagedFunctionPointerAttribute`; `hook` is the native entry point
      of the hook delegate in a process of pointer width `w`. The attribute
      is checked first; turning the target into a delegate then refuses the
      null pointer; the six target bytes are read, then the hook is narrowed
      to `int`. */
  function New(mem: Mem, target: int, hook: int, w: PtrWidth, attributed: bool): (r: Result<Detour>)
    requires InSigned(hook, w.Size())
    ensures !attributed ==> r == Err(BadArgument)
    ensures attributed && target == 0 ==> r == Err(NullArgument)
    ensures r.Ok? <==> attributed && target != 0 && Mapped(mem, target, PatchSize) && InSigned(hook, 4)
    ensures attributed && target != 0 && !Mapped(mem, target, PatchSize) ==> r == Err(AccessViolation)
    ensures attributed && target != 0 && Mapped(mem, target, PatchSize) && !InSigned(hook, 4)
            ==> r == Err(Overflow) && w == Ptr64
    ensures r.Ok? ==>
      && r.value.target == target && !r.value.applied
      && r.value.original == Load(mem, target, PatchSize)
      && |r.value.patch| == PatchSize
      && r.value.patch[0] == PushOpcode && r.value.patch[5] == RetOpcode
      && PushedAddress(r.value.patch) == hook
  {
    if !attributed then Err(BadArgument)
    else if target == 0 then Err(NullArgument)
    else
      var original :- ReadBytes(mem, target, PatchSize);
      var hook32 :- ToInt32(hook, w);
      PatchRoundTrip(hook32);
      Ok(Detour(target, original, Patch(hook32), false))
  }

  /** `Apply()`: write the patch; a failed write is swallowed and reported
      as `false`, leaving `IsApplied` as it was. */
  function Apply(d: Detour, mem: Mem): (r: Step)
    ensures r.ok <==> Mapped(mem, d.target, |d.patch|)
    ensures r.ok ==> r.detour == d.(applied := true) && Wrote(mem, r.mem, d.target, d.patch)
    ensures !r.ok ==> r.detour == d && r.mem == mem
  {
    match WriteBytes(mem, d.target, d.patch)
    case Err(_) => Step(d, mem, false)
    case Ok(m1) => Step(d.(applied := true), m1, true)
  }

  /** `Remove()`: write the saved bytes back; a failed write is swallowed
      and reported as `false`, leaving `IsApplied` as it was. */
  function Remove(d: Detour, mem: Mem): (r: Step)
    ensures r.ok <==> Mapped(mem, d.target, |d.original|)
    ensures r.ok ==> r.detour == d.(applied := false) && Wrote(mem, r.mem, d.target, d.original)
    ensures !r.ok ==> r.detour == d && r.mem == mem
  {
    match WriteBytes(mem, d.target, d.original)
    case Err(_) => Step(d, mem, false)
    case Ok(m1) => Step(d.(applied := false), m1, true)
  }

  /** `CallOriginal(args)`: `Remove()`, the call through the unpatched
      target, then `Apply()`; both results are ignored. `threw` says
      whether the original function threw, which skips the re-apply. The
      call's own effect on memory is not modelled. */
  function CallOriginal(d: Detour, mem: Mem, threw: bool): (r: Outcome)
    ensures threw ==> r == Outcome(Remove(d, mem).detour, Remove(d, mem).mem, Some(Invocation))
    ensures !threw ==> r.error.None?
    ensures !threw && Mapped(mem, d.target, |d.patch|) && |d.patch| == |d.original| ==>
      r.detour.applied && Wrote(mem, r.mem, d.target, d.patch)
  {
    var removed := Remove(d, mem);
    if threw then Outcome(removed.detour, removed.mem, Some(Invocation))
    else
      var applied := Apply(removed.detour, removed.mem);
      if removed.ok && applied.ok && |d.original| == |d.patch| then
        StoreOverwrite(mem, d.target, d.original, d.patch);
        Outcome(applied.detour, applied.mem, None)
      else Outcome(applied.detour, applied.mem, None)
  }

  /** `Dispose()`: `Remove()` when applied. `r.ok` is false only when that
      removal failed. */
  function Dispose(d: Detour, mem: Mem): (r: Step)
    ensures !d.applied ==> r == Step(d, mem, true)
    ensures d.applied ==> r == Remove(d, mem)
  {
    if d.applied then Remove(d, mem) else Step(d, mem, true)
  }

  /** Applying a freshly built detour and removing it again gives back the
      memory exactly as it was, and the detour is no longer applied. */
  lemma ApplyThenRemove(mem: Mem, target: int, hook: int, w: PtrWidth)
    requires InSigned(hook, w.Size())
    requires New(mem, target, hook, w, true).Ok?
    ensures var d := New(mem, target, hook, w, true).value;
      var a := Apply(d, mem);
      var r := Remove(a.detour, a.mem);
      a.ok && a.detour.applied && r.ok && !r.detour.applied && r.mem == mem
  {
    var d := New(mem, target, hook, w, true).value;
    StoreOverwrite(mem, target, d.patch, d.original);
    StoreRestores(mem, target, PatchSize);
  }

  /** Applying twice is applying once. */
  lemma ApplyIdempotent(d: Detour, mem: Mem)
    ensures var a := Apply(d, mem);
      Apply(a.detour, a.mem) == a
  {
    var a := Apply(d, mem);
    if a.ok {
      StoreOverwrite(mem, d.target, d.patch, d.patch);
    }
  }

  /** When nothing throws, `CallOriginal` ends exactly as `Apply` would:
      the detour is applied afterwards whether or not it was before. */
  lemma CallOriginalIsApply(d: Detour, mem: Mem)
    requires |d.patch| == |d.original| && Mapped(mem, d.target, |d.patch|)
    ensures var r := CallOriginal(d, mem, false);
      var a := Apply(d, mem);
      r.error.None? && r.detour == a.detour && r.mem == a.mem && r.detour.applied
  {
    StoreOverwrite(mem, d.target, d.original, d.patch);
  }

  /** A detour that was never applied is disposed without touching memory,
      and disposing an applied one built from memory restores it. */
  lemma DisposeAfterApply(mem: Mem, target: int, hook: int, w: PtrWidth)
    requires InSigned(hook, w.Size())
    requires New(mem, target, hook, w, true).Ok?
    ensures var d := New(mem, target, hook, w, true).value;
      var a := Apply(d, mem);
      Dispose(a.detour, a.mem).mem == mem && Dispose(d, mem).mem == mem
  {
    ApplyThenRemove(mem, target, hook, w);
  }
}

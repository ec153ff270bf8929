/** `MemoryEdits.Detour<T>`: an inline hook on x86. The first five bytes of
    the target are overwritten with `JMP rel32` to the hook; the whole
    instructions they held are copied to a trampoline, followed by a jump
    back to the rest of the target. Addresses are 32-bit. */
module JumpDetour {
  import opened Wrappers
  import opened Bytes
  import opened Memory
  import Codec
  import opened LocalAccess
  import Disassembly

  /** The length of `JMP rel32`. */
  const JumpSize: nat := 5
  /** The trampoline allocation request: room for three jumps. */
  const TrampolineSize: nat := 3 * JumpSize
  /** `VirtualAlloc` commits whole pages. */
  const PageSize: nat := 4096

  /** The bytes a `VirtualAlloc` of n bytes commits at the page-aligned
      address it returns: n rounded up to whole pages. */
  function Committed(n: nat): (c: nat)
    ensures n <= c < n + PageSize && c % PageSize == 0
  {
    (n + PageSize - 1) / PageSize * PageSize
  }

  /** The region the trampoline's 15-byte request commits, and the region
      `VirtualFree(addr, 0, MEM_RELEASE)` releases again: one page. */
  const TrampolineRegion: nat := Committed(TrampolineSize)
  /** The opcode of `JMP rel32` (section "JMP—Jump" of the Intel 64 and
      IA-32 Architectures Software Developer's Manual, Volume 2). */
  const JmpOpcode: byte := 0xE9
  const AddressSpace: nat := 0x1_0000_0000

  type Instruction = Disassembly.Instruction

  /** The detour's fields: the patched function, the hook's native entry
      point, the five bytes saved from the target, the trampoline (0 when
      none) and `IsApplied`. */
  datatype Detour = Detour(target: nat, hook: nat, original: seq<byte>, trampoline: nat, applied: bool)

  predicate Valid(d: Detour)
  {
    d.target < AddressSpace && d.hook < AddressSpace && d.trampoline < AddressSpace && |d.original| == JumpSize
  }

  /** The result of an operation that may throw part-way: the detour's
      fields and memory as the exception (if any) left them. */
  datatype Outcome = Outcome(detour: Detour, mem: Mem, error: Option<Error>)

  /** `new Detour<T>(target, hook)`. `delegateType` says whether `T` is a
      delegate type carrying `UnmanagedFunctionPointerAttribute`; the static
      constructor refuses any other `T`, and its exception reaches the
      caller wrapped as a type-initialisation failure. The target is then
      turned into a delegate, which refuses the null pointer, and the five
      target bytes are saved. */
  function New(mem: Mem, target: nat, hook: nat, delegateType: bool): (r: Result<Detour>)
    requires target < AddressSpace && hook < AddressSpace
    ensures r.Ok? <==> delegateType && target != 0 && Mapped(mem, target, JumpSize)
    ensures !delegateType ==> r == Err(TypeInitialization)
    ensures delegateType && target == 0 ==> r == Err(NullArgument)
    ensures delegateType && target != 0 && r.Err? ==> r.error == AccessViolation
    ensures r.Ok? ==> Valid(r.value) && !r.value.applied && r.value.trampoline == 0
    ensures r.Ok? ==> r.value.target == target && r.value.hook == hook
    ensures r.Ok? ==> r.value.original == Load(mem, target, JumpSize)
  {
    if !delegateType then Err(TypeInitialization)
    else if target == 0 then Err(NullArgument)
    else
      var original :- ReadBytes(mem, target, JumpSize);
      Ok(Detour(target, hook, original, 0, false))
  }

  /** `IntPtr.ToInt32()` of a 32-bit address. */
  function Int32(a: nat): int
  {
    ToSigned(Wrap(a, 4), 4)
  }

  /** The displacement `WriteJump(a, t)` stores: `t - a - 5` in unchecked
      `int` arithmetic. */
  function Rel32(a: nat, t: nat): (d: int)
    ensures InSigned(d, 4)
  {
    WrapSignedCongruent(Int32(t) - Int32(a) - JumpSize, 4);
    WrapSigned(Int32(t) - Int32(a) - JumpSize, 4)
  }

  /** The five bytes `WriteJump(a, t)` writes at a: the opcode, then the
      displacement as `BitConverter.GetBytes(int)` lays it out. */
  function JumpBytes(a: nat, t: nat): (r: seq<byte>)
    ensures |r| == JumpSize && r[0] == JmpOpcode
  {
    [JmpOpcode] + Codec.Encode(Codec.Value(Codec.Int32, Rel32(a, t)), Codec.Ptr32)
  }

  /** Where the processor goes when it executes the five bytes `bs` at a:
      the address after the instruction plus the sign-extended displacement,
      truncated to 32 bits. */
  function JumpTarget(a: nat, bs: seq<byte>): nat
    requires |bs| == JumpSize
  {
    Wrap(a + JumpSize + ToSigned(DecodeLE(bs[1..]), 4), 4)
  }

  /** A signed 32-bit reading of an address is the address, up to 2^32. */
  lemma Int32Congruent(a: nat)
    requires a < AddressSpace
    ensures Int32(a) == a || Int32(a) == a - AddressSpace
  {
    Pow256Four();
    ModUnique(a, AddressSpace, 0, a);
  }

  /** The displacement field of a jump reads back as the stored displacement. */
  lemma DisplacementField(a: nat, t: nat)
    ensures ToSigned(DecodeLE(JumpBytes(a, t)[1..]), 4) == Rel32(a, t)
  {
    var d := Rel32(a, t);
    assert JumpBytes(a, t)[1..] == Codec.Encode(Codec.Value(Codec.Int32, d), Codec.Ptr32);
    WrapSignedInRange(d, 4);
  }

  /** Adding the wrapped form of x lands where adding x itself does. */
  lemma WrapSignedShift(x: int, y: int)
    ensures Wrap(y + WrapSigned(x, 4), 4) == Wrap(y + x, 4)
  {
    WrapSignedCongruent(x, 4);
    WrapAdd(WrapSigned(x, 4), y, 4);
    WrapAdd(x, y, 4);
  }

  /** The jump written from a to t lands on t. */
  lemma JumpRoundTrip(a: nat, t: nat)
    requires a < AddressSpace && t < AddressSpace
    ensures JumpTarget(a, JumpBytes(a, t)) == t
  {
    var x := Int32(t) - Int32(a) - JumpSize;
    DisplacementField(a, t);
    WrapSignedShift(x, a + JumpSize);
    Int32Congruent(a);
    Int32Congruent(t);
    var ka := if Int32(a) == a then 0 else 1;
    var kt := if Int32(t) == t then 0 else 1;
    assert a + JumpSize + x == t + (ka - kt) * AddressSpace;
    Pow256Four();
    ModUnique(a + JumpSize + x, AddressSpace, ka - kt, t);
  }

  /** The total length of a run of decoded instructions. */
  function Length(code: seq<Instruction>): nat
  {
    if |code| == 0 then 0 else code[0].length + Length(code[1..])
  }

  /** Their bytes, back to back. */
  function Flatten(code: seq<Instruction>): seq<byte>
  {
    if |code| == 0 then [] else code[0].bytes + Flatten(code[1..])
  }

  /** Each record carries as many bytes as its length says, as the
      disassembler's records do. */
  predicate WellSized(code: seq<Instruction>)
  {
    forall i :: 0 <= i < |code| ==> |code[i].bytes| == code[i].length
  }

  lemma {:induction false} FlattenLength(code: seq<Instruction>)
    requires WellSized(code)
    ensures |Flatten(code)| == Length(code)
  {
    if |code| > 0 {
      FlattenLength(code[1..]);
    }
  }

  lemma PrefixTail(code: seq<Instruction>, k: nat)
    requires 1 <= k <= |code|
    ensures Length(code[..k]) == code[0].length + Length(code[1..][..k - 1])
    ensures Flatten(code[..k]) == code[0].bytes + Flatten(code[1..][..k - 1])
  {
    assert code[..k][1..] == code[1..][..k - 1];
  }

  /** A prefix of a run is no longer than the run. */
  lemma {:induction false} LengthPrefix(code: seq<Instruction>, k: nat)
    requires k <= |code|
    ensures Length(code[..k]) <= Length(code)
  {
    if k > 0 {
      PrefixTail(code, k);
      LengthPrefix(code[1..], k - 1);
    }
  }

  /** How many decoded instructions `Apply` consumes when `copied` bytes
      are already in the trampoline: it takes instructions until their
      total reaches five, or the decoder stops. */
  function Taken(code: seq<Instruction>, copied: nat): (k: nat)
    ensures k <= |code|
    ensures |code| > 0 ==> k >= 1
  {
    if |code| == 0 then 0
    else if copied + code[0].length >= JumpSize then 1
    else 1 + Taken(code[1..], copied + code[0].length)
  }

  /** The consumed run is the shortest non-empty prefix that covers the
      patch, or the whole stream when none does: no instruction is split. */
  lemma {:induction false} TakenIsShortest(code: seq<Instruction>, copied: nat)
    ensures var k := Taken(code, copied);
      copied + Length(code[..k]) >= JumpSize || k == |code|
    ensures forall j :: 1 <= j < Taken(code, copied) ==> copied + Length(code[..j]) < JumpSize
  {
    if |code| > 0 {
      var k := Taken(code, copied);
      var c1 := copied + code[0].length;
      PrefixTail(code, k);
      if c1 < JumpSize {
        TakenIsShortest(code[1..], c1);
        forall j | 1 <= j < k
          ensures copied + Length(code[..j]) < JumpSize
        {
          PrefixTail(code, j);
          if j > 1 {
            assert j - 1 < Taken(code[1..], c1);
          }
        }
      }
    }
  }

  /** The consumed run, one instruction at a time: the first instruction,
      then the run consumed from the rest unless the first completes the
      patch. */
  lemma TakenStep(code: seq<Instruction>, copied: nat)
    requires |code| > 0
    ensures copied + code[0].length >= JumpSize ==> Length(code[..Taken(code, copied)]) == code[0].length
    ensures copied + code[0].length < JumpSize ==>
      Length(code[..Taken(code, copied)])
        == code[0].length + Length(code[1..][..Taken(code[1..], copied + code[0].length)])
  {
    PrefixTail(code, Taken(code, copied));
    if copied + code[0].length >= JumpSize {
      assert code[1..][..0] == [];
    }
  }

  /** The number of bytes `Apply` copies to the trampoline. */
  function Copied(code: seq<Instruction>): nat
  {
    Length(code[..Taken(code, 0)])
  }

  /** Where the jump back from the trampoline lands: the first byte of the
      target not copied, in 32-bit address arithmetic. */
  function Resume(target: nat, copied: nat): nat
  {
    Wrap(target + copied, 4)
  }

  /** The state of the copy loop when it stops. */
  datatype Copy = Copy(mem: Mem, at: nat, copied: nat, error: Option<Error>)

  /** The run `Apply` copies from `code`, `copied` bytes in, fits in mapped
      memory at `at` without crossing 2^32, and every record is well sized. */
  predicate Lays(mem: Mem, at: nat, code: seq<Instruction>, copied: nat)
  {
    var n := Length(code[..Taken(code, copied)]);
    WellSized(code) && at + n < AddressSpace && Mapped(mem, at, n)
  }

  /** The copy succeeded and laid that run out back to back at `at`,
      leaving the rest of memory alone. */
  predicate LaidOut(mem: Mem, at: nat, code: seq<Instruction>, copied: nat, r: Copy)
  {
    var n := Length(code[..Taken(code, copied)]);
    && r.error.None?
    && r.at == at + n
    && Mapped(r.mem, at, n)
    && Load(r.mem, at, n) == Flatten(code[..Taken(code, copied)])
    && (forall a :: a in mem && !(at <= a < at + n) ==> a in r.mem && r.mem[a] == mem[a])
  }

  /** The copy loop of `Apply`: each instruction's bytes are written at the
      trampoline cursor `at`, which then advances by the instruction's
      length in 32-bit address arithmetic, until five bytes are copied. */
  function CopyOut(mem: Mem, at: nat, code: seq<Instruction>, copied: nat): (r: Copy)
    ensures r.mem.Keys == mem.Keys
    ensures r.error.Some? ==> r.error == Some(Win32)
    decreases |code|
  {
    if |code| == 0 then Copy(mem, at, copied, None)
    else
      match WriteBytes(mem, at, code[0].bytes)
      case Err(_) => Copy(mem, at, copied, Some(Win32))
      case Ok(m1) =>
        var at1 := Wrap(at + code[0].length, 4);
        var c1 := copied + code[0].length;
        if c1 >= JumpSize then Copy(m1, at1, c1, None)
        else CopyOut(m1, at1, code[1..], c1)
  }

  /** A copy that succeeds has copied exactly the consumed run. */
  lemma {:induction false} CopyOutCopied(mem: Mem, at: nat, code: seq<Instruction>, copied: nat)
    ensures var r := CopyOut(mem, at, code, copied);
      r.error.None? ==> r.copied == copied + Length(code[..Taken(code, copied)])
    decreases |code|
  {
    if |code| == 0 {
      assert code[..0] == [];
    } else if WriteBytes(mem, at, code[0].bytes).Err? || copied + code[0].length >= JumpSize {
      CopiedLast(mem, at, code, copied);
    } else {
      var m1 := WriteBytes(mem, at, code[0].bytes).value;
      CopyOutCopied(m1, Wrap(at + code[0].length, 4), code[1..], copied + code[0].length);
      CopiedNext(mem, at, code, copied);
    }
  }

  /** The copy loop stops after its first instruction: it failed, or that
      instruction completed the patch. */
  lemma CopiedLast(mem: Mem, at: nat, code: seq<Instruction>, copied: nat)
    requires |code| > 0
    requires WriteBytes(mem, at, code[0].bytes).Err? || copied + code[0].length >= JumpSize
    ensures var r := CopyOut(mem, at, code, copied);
      r.error.None? ==> r.copied == copied + Length(code[..Taken(code, copied)])
  {
    TakenStep(code, copied);
  }

  /** The copy loop goes on past its first instruction: what the rest
      copies, plus that instruction. */
  lemma CopiedNext(mem: Mem, at: nat, code: seq<Instruction>, copied: nat)
    requires |code| > 0
    requires WriteBytes(mem, at, code[0].bytes).Ok? && copied + code[0].length < JumpSize
    requires var c1 := copied + code[0].length;
      var r1 := CopyOut(WriteBytes(mem, at, code[0].bytes).value, Wrap(at + code[0].length, 4), code[1..], c1);
      r1.error.None? ==> r1.copied == c1 + Length(code[1..][..Taken(code[1..], c1)])
    ensures var r := CopyOut(mem, at, code, copied);
      r.error.None? ==> r.copied == copied + Length(code[..Taken(code, copied)])
  {
    TakenStep(code, copied);
  }

  /** When the run fits, the copy succeeds and lays the instructions out
      back to back. */
  lemma {:induction false} CopyOutLays(mem: Mem, at: nat, code: seq<Instruction>, copied: nat)
    requires Lays(mem, at, code, copied)
    ensures LaidOut(mem, at, code, copied, CopyOut(mem, at, code, copied))
    decreases |code|
  {
    if |code| > 0 {
      PrefixTail(code, Taken(code, copied));
      var m1 := WriteBytes(mem, at, code[0].bytes);
      assert m1.Ok?;
      if copied + code[0].length >= JumpSize {
        CopyLast(mem, m1.value, at, code, copied);
      } else {
        var c1 := copied + code[0].length;
        Pow256Four();
        ModUnique(at + code[0].length, AddressSpace, 0, at + code[0].length);
        LaysTail(mem, m1.value, at, code, copied);
        CopyOutLays(m1.value, Wrap(at + code[0].length, 4), code[1..], c1);
        CopyStep(mem, m1.value, at, code, copied, CopyOut(m1.value, Wrap(at + code[0].length, 4), code[1..], c1));
      }
    }
  }

  /** The copy stops after an instruction that completes the five bytes. */
  lemma CopyLast(mem: Mem, m1: Mem, at: nat, code: seq<Instruction>, copied: nat)
    requires |code| > 0 && copied + code[0].length >= JumpSize
    requires Lays(mem, at, code, copied) && Wrote(mem, m1, at, code[0].bytes)
    ensures LaidOut(mem, at, code, copied, Copy(m1, Wrap(at + code[0].length, 4), copied + code[0].length, None))
  {
    Pow256Four();
    assert Taken(code, copied) == 1;
    PrefixTail(code, 1);
    assert code[1..][..0] == [];
    assert Flatten(code[..1]) == code[0].bytes;
    ModUnique(at + code[0].length, AddressSpace, 0, at + code[0].length);
  }

  /** After the first instruction is written, the rest of the run fits
      from the advanced cursor. */
  lemma LaysTail(mem: Mem, m1: Mem, at: nat, code: seq<Instruction>, copied: nat)
    requires |code| > 0 && copied + code[0].length < JumpSize
    requires Lays(mem, at, code, copied) && Wrote(mem, m1, at, code[0].bytes)
    requires Wrap(at + code[0].length, 4) == at + code[0].length
    ensures Lays(m1, Wrap(at + code[0].length, 4), code[1..], copied + code[0].length)
  {
    PrefixTail(code, Taken(code, copied));
    assert Taken(code, copied) == 1 + Taken(code[1..], copied + code[0].length);
  }

  /** One step of the copy: the first instruction lands at `at` and the
      rest of the run, copied from the advanced cursor, lands right after it. */
  lemma CopyStep(mem: Mem, m1: Mem, at: nat, code: seq<Instruction>, copied: nat, r: Copy)
    requires |code| > 0 && copied + code[0].length < JumpSize
    requires Lays(mem, at, code, copied) && Wrote(mem, m1, at, code[0].bytes)
    requires Wrap(at + code[0].length, 4) == at + code[0].length
    requires LaidOut(m1, Wrap(at + code[0].length, 4), code[1..], copied + code[0].length, r)
    ensures LaidOut(mem, at, code, copied, r)
  {
    var k := Taken(code, copied);
    var c1 := copied + code[0].length;
    PrefixTail(code, k);
    assert k == 1 + Taken(code[1..], c1);
    var rest := code[1..][..k - 1];
    assert WellSized(rest);
    FlattenLength(rest);
    Concatenated(m1, r.mem, at, code[0].bytes, Flatten(rest));
  }

  /** Two adjacent stores read back as one: `head` at `at` survives a later
      store that only touched the range where `tail` now lies. */
  lemma Concatenated(m1: Mem, r: Mem, at: int, head: seq<byte>, tail: seq<byte>)
    requires Mapped(m1, at, |head|) && Load(m1, at, |head|) == head
    requires Mapped(r, at + |head|, |tail|) && Load(r, at + |head|, |tail|) == tail
    requires forall a :: a in m1 && !(at + |head| <= a < at + |head| + |tail|) ==> a in r && r[a] == m1[a]
    ensures Mapped(r, at, |head| + |tail|) && Load(r, at, |head| + |tail|) == head + tail
  {
    var l0 := |head|;
    forall i | 0 <= i < l0 + |tail|
      ensures at + i in r && r[at + i] == (head + tail)[i]
    {
      if i >= l0 {
        assert r[at + l0 + (i - l0)] == Load(r, at + l0, |tail|)[i - l0];
      } else {
        assert m1[at + i] == Load(m1, at, l0)[i];
      }
    }
  }

  /** `VirtualFree(addr, 0, MEM_RELEASE)` of the trampoline: the whole
      committed region goes; freeing the null address fails and changes
      nothing. */
  function FreeTrampoline(m: Mem, addr: nat): (r: Mem)
    ensures addr != 0 ==> Unmapped(r, addr, TrampolineRegion)
    ensures forall a :: a in r ==> a in m && r[a] == m[a]
    ensures forall a :: a in m && !(addr != 0 && addr <= a < addr + TrampolineRegion) ==> a in r
  {
    if addr == 0 then m else Release(m, addr, TrampolineRegion)
  }

  /** `Apply()`. `alloc` is what the trampoline allocation returned (the
      whole page it commits becomes mapped) and `code` is what the
      disassembler yields from the target, up to where it stops. */
  function Apply(d: Detour, mem: Mem, alloc: nat, code: seq<Instruction>): (r: Outcome)
    requires Valid(d) && alloc < AddressSpace
    ensures d.applied ==> r == Outcome(d, mem, None)
    ensures !d.applied && d.trampoline != 0 ==> r == Outcome(d, mem, Some(InvalidOperation))
    ensures !d.applied && d.trampoline == 0 ==>
      && r.detour.trampoline == alloc
      && r.detour == d.(trampoline := alloc, applied := r.error.None?)
      && (r.error.Some? ==> r.error == Some(Win32))
    ensures !d.applied && r.error.None? ==>
      Mapped(r.mem, d.target, JumpSize) && Load(r.mem, d.target, JumpSize) == JumpBytes(d.target, d.hook)
  {
    if d.applied then Outcome(d, mem, None)
    else if d.trampoline != 0 then Outcome(d, mem, Some(InvalidOperation))
    else
      var d1 := d.(trampoline := alloc);
      var c := CopyOut(Allocate(mem, alloc, TrampolineRegion), alloc, code, 0);
      if c.error.Some? then Outcome(d1, c.mem, c.error)
      else WriteJumps(d1, c)
  }

  /** The end of `Apply` once the instructions are copied: the jump from
      the trampoline cursor back to the first byte not copied, then the
      jump from the target to the hook. When both ranges are mapped and
      apart, both land and nothing else changes. */
  function WriteJumps(d1: Detour, c: Copy): (r: Outcome)
    requires Valid(d1) && !d1.applied
    ensures r.detour == d1.(applied := r.error.None?)
    ensures r.error.Some? ==> r.error == Some(Win32)
    ensures r.error.None? ==>
      Mapped(r.mem, d1.target, JumpSize) && Load(r.mem, d1.target, JumpSize) == JumpBytes(d1.target, d1.hook)
    ensures
      (Mapped(c.mem, c.at, JumpSize) && Mapped(c.mem, d1.target, JumpSize)
       && (c.at + JumpSize <= d1.target || d1.target + JumpSize <= c.at)) ==>
      && r.error.None?
      && r.mem.Keys == c.mem.Keys
      && Mapped(r.mem, c.at, JumpSize)
      && Load(r.mem, c.at, JumpSize) == JumpBytes(c.at, Resume(d1.target, c.copied))
      && (forall a :: a in c.mem && !(c.at <= a < c.at + JumpSize) && !(d1.target <= a < d1.target + JumpSize) ==>
            r.mem[a] == c.mem[a])
  {
    var back := JumpBytes(c.at, Resume(d1.target, c.copied));
    var patch := JumpBytes(d1.target, d1.hook);
    var wroteBack := WriteBytes(c.mem, c.at, back);
    if wroteBack.Err? then Outcome(d1, c.mem, Some(wroteBack.error))
    else
      var wrotePatch := WriteBytes(wroteBack.value, d1.target, patch);
      if wrotePatch.Err? then Outcome(d1, wroteBack.value, Some(wrotePatch.error))
      else
        if c.at + JumpSize <= d1.target || d1.target + JumpSize <= c.at then
          WroteElsewhere(wroteBack.value, wrotePatch.value, d1.target, patch, c.at, JumpSize);
          Outcome(d1.(applied := true), wrotePatch.value, None)
        else Outcome(d1.(applied := true), wrotePatch.value, None)
  }

  /** `Remove()`: the saved bytes go back and the trampoline is freed, but
      neither `IsApplied` nor the trampoline field is reset. */
  function Remove(d: Detour, mem: Mem): (r: Outcome)
    ensures r.detour == d
    ensures !d.applied ==> r == Outcome(d, mem, None)
    ensures d.applied ==> (r.error.None? <==> Mapped(mem, d.target, |d.original|))
    ensures r.error.Some? ==> r == Outcome(d, mem, Some(Win32))
    ensures d.applied && r.error.None? && d.trampoline != 0 ==> Unmapped(r.mem, d.trampoline, TrampolineRegion)
  {
    if !d.applied then Outcome(d, mem, None)
    else
      match WriteBytes(mem, d.target, d.original)
      case Err(e) => Outcome(d, mem, Some(e))
      case Ok(m1) => Outcome(d, FreeTrampoline(m1, d.trampoline), None)
  }

  /** `Dispose()`: `Remove()`, then a second free of a non-null trampoline. */
  function Dispose(d: Detour, mem: Mem): (r: Outcome)
    ensures r.detour == d
    ensures !d.applied && d.trampoline == 0 ==> r == Outcome(d, mem, None)
    ensures r.error.None? && d.trampoline != 0 ==> Unmapped(r.mem, d.trampoline, TrampolineRegion)
    ensures r.error.Some? ==> r == Remove(d, mem)
  {
    var removed := Remove(d, mem);
    if removed.error.Some? then removed
    else Outcome(d, FreeTrampoline(removed.mem, d.trampoline), None)
  }

  /** A mapped range and an unmapped range do not overlap. */
  lemma Apart(mem: Mem, a: int, n: nat, b: int, m: nat)
    requires Mapped(mem, a, n) && Unmapped(mem, b, m) && n > 0 && m > 0
    ensures a + n <= b || b + m <= a
  {
    var c := if a <= b then b else a;
    assert c < a + n && c < b + m ==> c in mem && c !in mem;
  }

  /** `code` is what the disassembler reads from `target`: the records tile
      the code from `target` and each carries the bytes at its own address,
      as `Disassembly.Sound` promises of every listing. */
  predicate FromTarget(mem: Mem, target: nat, code: seq<Instruction>)
  {
    && Disassembly.Chained(code, target)
    && (forall i :: 0 <= i < |code| ==> Disassembly.Fetched(mem, code[i]))
  }

  /** No record is longer than an x86 instruction can be. */
  predicate ShortInstructions(code: seq<Instruction>)
  {
    forall i :: 0 <= i < |code| ==> code[i].length <= Disassembly.MaxInstructionSize
  }

  /** What `Apply` needs to lay the trampoline out in bounds: a fresh page
      below 2^32, a mapped target whose copied bytes stay below 2^32, and
      the disassembler's records of the target's code. */
  predicate Fits(d: Detour, mem: Mem, alloc: nat, code: seq<Instruction>)
  {
    && Valid(d) && !d.applied && d.trampoline == 0
    && 0 < alloc && alloc + TrampolineRegion <= AddressSpace
    && Unmapped(mem, alloc, TrampolineRegion)
    && Mapped(mem, d.target, JumpSize) && d.target + JumpSize <= AddressSpace
    && d.target + Copied(code) < AddressSpace
    && FromTarget(mem, d.target, code) && ShortInstructions(code)
  }

  /** Records that carry the bytes at their address are well sized. */
  lemma FetchedWellSized(mem: Mem, target: nat, code: seq<Instruction>)
    requires FromTarget(mem, target, code)
    ensures WellSized(code)
  {
    forall i | 0 <= i < |code|
      ensures |code[i].bytes| == code[i].length
    {
      assert Disassembly.Fetched(mem, code[i]);
    }
  }

  /** A run of x86 instructions consumed from `copied` < 5 bytes in ends
      before 5 + 15 bytes: fewer than five bytes before its last
      instruction, and that one at most 15 long. */
  lemma {:induction false} TakenBound(code: seq<Instruction>, copied: nat)
    requires copied < JumpSize && ShortInstructions(code)
    ensures copied + Length(code[..Taken(code, copied)]) < JumpSize + Disassembly.MaxInstructionSize
    decreases |code|
  {
    if |code| == 0 {
      assert code[..0] == [];
    } else {
      TakenStep(code, copied);
      if copied + code[0].length < JumpSize {
        assert ShortInstructions(code[1..]);
        TakenBound(code[1..], copied + code[0].length);
      }
    }
  }

  /** The largest trampoline `Apply` can lay out: four bytes short of a
      jump, one longest instruction, and the jump back. */
  const TrampolineRequest: nat := JumpSize - 1 + Disassembly.MaxInstructionSize + JumpSize

  /** A request of `TrampolineRequest` bytes covers every trampoline, and
      commits the same page the 15-byte request does. */
  lemma TrampolineRequestCovers(code: seq<Instruction>)
    requires ShortInstructions(code)
    ensures Copied(code) + JumpSize <= TrampolineRequest
    ensures Committed(TrampolineRequest) == TrampolineRegion
  {
    TakenBound(code, 0);
  }

  /** The 15 requested bytes do not hold every trampoline: a 4-byte
      instruction followed by a 15-byte one is copied whole, and the jump
      back then ends 24 bytes into the allocation. */
  lemma TrampolineOverrun(target: nat)
    ensures var code := [Disassembly.Instruction(target, 4, Zeros(4)),
                         Disassembly.Instruction(target + 4, 15, Zeros(15))];
      && ShortInstructions(code)
      && Copied(code) == 19
      && Copied(code) + JumpSize > TrampolineSize
  {
    var code := [Disassembly.Instruction(target, 4, Zeros(4)),
                 Disassembly.Instruction(target + 4, 15, Zeros(15))];
    assert Taken(code, 0) == 2 by {
      assert Taken(code[1..], 4) == 1;
    }
    assert code[..2] == code;
    assert Length(code[1..]) == 15 by {
      assert code[1..][1..] == [];
    }
  }

  /** A run read from `start` that stays below 2^32 flattens to the bytes
      at `start`. */
  lemma {:induction false} FlattenFromTarget(mem: Mem, start: nat, code: seq<Instruction>)
    requires FromTarget(mem, start, code) && start + Length(code) < AddressSpace
    ensures Mapped(mem, start, Length(code)) && Flatten(code) == Load(mem, start, Length(code))
    decreases |code|
  {
    if |code| > 0 {
      FromTargetTail(mem, start, code);
      FlattenFromTarget(mem, start + code[0].length, code[1..]);
      Concatenated(mem, mem, start, code[0].bytes, Flatten(code[1..]));
    }
  }

  /** The first record of a run read from `start` carries the bytes there,
      and the rest is a run read from where it ends. */
  lemma FromTargetTail(mem: Mem, start: nat, code: seq<Instruction>)
    requires FromTarget(mem, start, code) && |code| > 0 && start + code[0].length < AddressSpace
    ensures Mapped(mem, start, |code[0].bytes|) && Load(mem, start, |code[0].bytes|) == code[0].bytes
    ensures FromTarget(mem, start + code[0].length, code[1..])
  {
    var n0 := code[0].length;
    Pow256Four();
    ModUnique(start + n0, AddressSpace, 0, start + n0);
    assert Disassembly.Fetched(mem, code[0]);
    assert Disassembly.Chained(code[1..], start + n0) by {
      assert |code| > 1 ==> code[1].address == Disassembly.Following(code[0]);
    }
    assert forall i :: 0 <= i < |code[1..]| ==> code[1..][i] == code[i + 1];
  }

  /** A prefix of the records read from `target` is itself read from
      `target`. */
  lemma FromTargetPrefix(mem: Mem, target: nat, code: seq<Instruction>, k: nat)
    requires FromTarget(mem, target, code) && k <= |code|
    ensures FromTarget(mem, target, code[..k])
  {
    assert forall i :: 0 <= i < k ==> code[..k][i] == code[i];
  }

  /** The layout a successful `Apply` leaves: the trampoline holds the
      consumed instructions and then a jump to the first instruction not
      consumed; the target holds a jump to the hook; nothing else changes. */
  ghost predicate Installed(d: Detour, mem: Mem, alloc: nat, code: seq<Instruction>, r: Outcome)
  {
    && r.error.None?
    && r.detour == d.(trampoline := alloc, applied := true)
    && Mapped(r.mem, alloc, Copied(code))
    && Load(r.mem, alloc, Copied(code)) == Flatten(code[..Taken(code, 0)])
    && Mapped(r.mem, alloc + Copied(code), JumpSize)
    && Load(r.mem, alloc + Copied(code), JumpSize) == JumpBytes(alloc + Copied(code), Resume(d.target, Copied(code)))
    && Mapped(r.mem, d.target, JumpSize)
    && Load(r.mem, d.target, JumpSize) == JumpBytes(d.target, d.hook)
    && (forall a :: a in r.mem <==> a in mem || alloc <= a < alloc + TrampolineRegion)
    && (forall a :: a in mem && !(d.target <= a < d.target + JumpSize) ==> r.mem[a] == mem[a])
  }

  /** The jumps written after a copy that laid the run out at `alloc`. */
  lemma JumpsInstalled(d: Detour, mem: Mem, alloc: nat, code: seq<Instruction>, c: Copy)
    requires Fits(d, mem, alloc, code)
    requires c.mem.Keys == Allocate(mem, alloc, TrampolineRegion).Keys
    requires LaidOut(Allocate(mem, alloc, TrampolineRegion), alloc, code, 0, c)
    requires c.copied == Copied(code)
    ensures Installed(d, mem, alloc, code, WriteJumps(d.(trampoline := alloc), c))
  {
    TrampolineRequestCovers(code);
    JumpsInstalledApart(d, mem, alloc, code, c);
  }

  /** `JumpsInstalled` from the facts of `Fits` it needs: the target's
      bytes are mapped, the region is not, and the jump back fits in it. */
  lemma JumpsInstalledApart(d: Detour, mem: Mem, alloc: nat, code: seq<Instruction>, c: Copy)
    requires Valid(d) && !d.applied && 0 < alloc && alloc + TrampolineRegion <= AddressSpace
    requires Mapped(mem, d.target, JumpSize) && Unmapped(mem, alloc, TrampolineRegion)
    requires Copied(code) + JumpSize <= TrampolineRegion
    requires c.mem.Keys == Allocate(mem, alloc, TrampolineRegion).Keys
    requires LaidOut(Allocate(mem, alloc, TrampolineRegion), alloc, code, 0, c)
    requires c.copied == Copied(code)
    ensures Installed(d, mem, alloc, code, WriteJumps(d.(trampoline := alloc), c))
  {
    Pow256Four();
    Apart(mem, d.target, JumpSize, alloc, TrampolineRegion);
    assert c.at == alloc + Copied(code);
    var d1 := d.(trampoline := alloc);
    assert Mapped(c.mem, c.at, JumpSize) && Mapped(c.mem, d1.target, JumpSize);
    assert c.at + JumpSize <= d1.target || d1.target + JumpSize <= c.at;
    var r := WriteJumps(d1, c);
    LoadKept(c.mem, r.mem, alloc, Copied(code));
    var tail := alloc + Copied(code);
    JumpMoved(r.mem, c.at, tail, Resume(d1.target, c.copied), Resume(d.target, Copied(code)));
    var m0 := Allocate(mem, alloc, TrampolineRegion);
    forall a | a in mem && !(d.target <= a < d.target + JumpSize)
      ensures r.mem[a] == mem[a]
    {
      assert !(alloc <= a < alloc + TrampolineRegion);
      assert a in m0 && m0[a] == mem[a];
      assert c.mem[a] == m0[a];
    }
    InstalledFrom(d, mem, alloc, code, r, tail);
  }

  /** `Installed`, with the address of the jump back named. */
  lemma InstalledFrom(d: Detour, mem: Mem, alloc: nat, code: seq<Instruction>, r: Outcome, tail: nat)
    requires tail == alloc + Copied(code)
    requires r.error.None? && r.detour == d.(trampoline := alloc, applied := true)
    requires Mapped(r.mem, alloc, Copied(code))
    requires Load(r.mem, alloc, Copied(code)) == Flatten(code[..Taken(code, 0)])
    requires Mapped(r.mem, tail, JumpSize)
    requires Load(r.mem, tail, JumpSize) == JumpBytes(tail, Resume(d.target, Copied(code)))
    requires Mapped(r.mem, d.target, JumpSize)
    requires Load(r.mem, d.target, JumpSize) == JumpBytes(d.target, d.hook)
    requires forall a :: a in r.mem <==> a in mem || alloc <= a < alloc + TrampolineRegion
    requires forall a :: a in mem && !(d.target <= a < d.target + JumpSize) ==> r.mem[a] == mem[a]
    ensures Installed(d, mem, alloc, code, r)
  {
  }

  /** A stored jump read under other names for its address and its target. */
  lemma JumpMoved(m: Mem, x: nat, y: nat, t: nat, t2: nat)
    requires x == y && t == t2
    requires Mapped(m, x, JumpSize) && Load(m, x, JumpSize) == JumpBytes(x, t)
    ensures Mapped(m, y, JumpSize) && Load(m, y, JumpSize) == JumpBytes(y, t2)
  {
  }

  /** `Apply` on a detour that fits installs it, and the trampoline starts
      with a copy of the target's first `Copied(code)` bytes. */
  lemma ApplyLayout(d: Detour, mem: Mem, alloc: nat, code: seq<Instruction>)
    requires Fits(d, mem, alloc, code)
    ensures Installed(d, mem, alloc, code, Apply(d, mem, alloc, code))
    ensures Mapped(mem, d.target, Copied(code))
    ensures Load(Apply(d, mem, alloc, code).mem, alloc, Copied(code)) == Load(mem, d.target, Copied(code))
  {
    Pow256Four();
    FetchedWellSized(mem, d.target, code);
    TrampolineRequestCovers(code);
    FromTargetPrefix(mem, d.target, code, Taken(code, 0));
    FlattenFromTarget(mem, d.target, code[..Taken(code, 0)]);
    var m0 := Allocate(mem, alloc, TrampolineRegion);
    assert Lays(m0, alloc, code, 0);
    var c := CopyOut(m0, alloc, code, 0);
    CopyOutLays(m0, alloc, code, 0);
    CopyOutCopied(m0, alloc, code, 0);
    JumpsInstalled(d, mem, alloc, code, c);
  }

  /** A jump stored at a lands where it was aimed. */
  lemma JumpLands(m: Mem, a: nat, t: nat)
    requires a < AddressSpace && t < AddressSpace
    requires Mapped(m, a, JumpSize) && Load(m, a, JumpSize) == JumpBytes(a, t)
    ensures JumpTarget(a, Load(m, a, JumpSize)) == t
  {
    JumpRoundTrip(a, t);
  }

  /** After `Apply`, executing the patch reaches the hook and executing the
      trampoline's tail resumes the target right after the copied bytes. */
  lemma ApplyJumpsLand(d: Detour, mem: Mem, alloc: nat, code: seq<Instruction>)
    requires Fits(d, mem, alloc, code)
    ensures var r := Apply(d, mem, alloc, code);
      && Mapped(r.mem, d.target, JumpSize) && Mapped(r.mem, alloc + Copied(code), JumpSize)
      && JumpTarget(d.target, Load(r.mem, d.target, JumpSize)) == d.hook
      && JumpTarget(alloc + Copied(code), Load(r.mem, alloc + Copied(code), JumpSize)) == Resume(d.target, Copied(code))
  {
    ApplyLayout(d, mem, alloc, code);
    TrampolineRequestCovers(code);
    InstalledJumpsLand(d, mem, alloc, code, Apply(d, mem, alloc, code));
  }

  /** The two jumps of an installed detour land where they were aimed. */
  lemma InstalledJumpsLand(d: Detour, mem: Mem, alloc: nat, code: seq<Instruction>, r: Outcome)
    requires Installed(d, mem, alloc, code, r)
    requires Valid(d) && Copied(code) + JumpSize <= TrampolineRequest
    requires alloc + TrampolineRegion <= AddressSpace
    ensures && Mapped(r.mem, d.target, JumpSize) && Mapped(r.mem, alloc + Copied(code), JumpSize)
      && JumpTarget(d.target, Load(r.mem, d.target, JumpSize)) == d.hook
      && JumpTarget(alloc + Copied(code), Load(r.mem, alloc + Copied(code), JumpSize)) == Resume(d.target, Copied(code))
  {
    Pow256Four();
    JumpLands(r.mem, d.target, d.hook);
    JumpLands(r.mem, alloc + Copied(code), Resume(d.target, Copied(code)));
  }

  /** Below 2^32 the jump back lands exactly `copied` bytes into the target. */
  lemma ResumeInRange(target: nat, copied: nat)
    requires target + copied < AddressSpace
    ensures Resume(target, copied) == target + copied
  {
    Pow256Four();
    ModUnique(target + copied, AddressSpace, 0, target + copied);
  }

  /** When the decoder stops before five bytes are covered, `Apply` still
      patches the target, and the trampoline jumps back into the middle of
      the patch (or onto it, when nothing was decoded). */
  lemma ApplyAfterEarlyStop(d: Detour, mem: Mem, alloc: nat, code: seq<Instruction>)
    requires Fits(d, mem, alloc, code) && Length(code) < JumpSize
    ensures Taken(code, 0) == |code| && Copied(code) == Length(code)
    ensures var r := Apply(d, mem, alloc, code);
      && r.error.None? && r.detour.applied
      && Mapped(r.mem, alloc + Copied(code), JumpSize)
      && d.target <= JumpTarget(alloc + Copied(code), Load(r.mem, alloc + Copied(code), JumpSize)) < d.target + JumpSize
  {
    TakenIsShortest(code, 0);
    LengthPrefix(code, Taken(code, 0));
    assert code[..|code|] == code;
    ApplyJumpsLand(d, mem, alloc, code);
    ApplyLayout(d, mem, alloc, code);
    ResumeInRange(d.target, Copied(code));
  }

  /** `Remove` after a successful `Apply` restores the target's bytes and
      frees the trampoline, yet the detour still reports itself applied. */
  lemma RemoveAfterApply(d: Detour, mem: Mem, alloc: nat, code: seq<Instruction>)
    requires Fits(d, mem, alloc, code) && d.original == Load(mem, d.target, JumpSize)
    ensures var a := Apply(d, mem, alloc, code);
      var r := Remove(a.detour, a.mem);
      && r.error.None?
      && r.detour.applied && r.detour.trampoline == alloc
      && Mapped(r.mem, d.target, JumpSize)
      && Load(r.mem, d.target, JumpSize) == Load(mem, d.target, JumpSize)
      && Unmapped(r.mem, alloc, TrampolineRegion)
  {
    ApplyLayout(d, mem, alloc, code);
    RemoveInstalled(d, mem, alloc, code, Apply(d, mem, alloc, code));
  }

  /** `Remove` of an installed detour, whatever produced it. */
  lemma RemoveInstalled(d: Detour, mem: Mem, alloc: nat, code: seq<Instruction>, a: Outcome)
    requires Fits(d, mem, alloc, code) && d.original == Load(mem, d.target, JumpSize)
    requires Installed(d, mem, alloc, code, a)
    ensures var r := Remove(a.detour, a.mem);
      && r.error.None?
      && r.detour.applied && r.detour.trampoline == alloc
      && Mapped(r.mem, d.target, JumpSize)
      && Load(r.mem, d.target, JumpSize) == Load(mem, d.target, JumpSize)
      && Unmapped(r.mem, alloc, TrampolineRegion)
  {
    Apart(mem, d.target, JumpSize, alloc, TrampolineRegion);
    RemoveApplied(a.detour, a.mem);
  }

  /** `Remove` of an applied detour whose target is mapped and apart from
      its trampoline puts the saved bytes back and frees the trampoline. */
  lemma RemoveApplied(e: Detour, m: Mem)
    requires e.applied && e.trampoline != 0 && Mapped(m, e.target, |e.original|)
    requires e.target + |e.original| <= e.trampoline || e.trampoline + TrampolineRegion <= e.target
    ensures var r := Remove(e, m);
      && r.error.None? && r.detour == e
      && Mapped(r.mem, e.target, |e.original|) && Load(r.mem, e.target, |e.original|) == e.original
      && Unmapped(r.mem, e.trampoline, TrampolineRegion)
  {
    var m1 := WriteBytes(m, e.target, e.original).value;
    LoadKept(m1, FreeTrampoline(m1, e.trampoline), e.target, |e.original|);
  }

  /** `Dispose` of an applied detour whose target is mapped and apart from
      its trampoline (if any) leaves the saved bytes at the target. */
  lemma DisposeApplied(e: Detour, m: Mem)
    requires e.applied && Mapped(m, e.target, |e.original|)
    requires e.trampoline == 0 || e.target + |e.original| <= e.trampoline || e.trampoline + TrampolineRegion <= e.target
    ensures var r := Dispose(e, m);
      && r.error.None?
      && Mapped(r.mem, e.target, |e.original|) && Load(r.mem, e.target, |e.original|) == e.original
  {
    var m1 := WriteBytes(m, e.target, e.original).value;
    var m2 := FreeTrampoline(m1, e.trampoline);
    LoadKept(m1, m2, e.target, |e.original|);
    LoadKept(m2, FreeTrampoline(m2, e.trampoline), e.target, |e.original|);
  }

  /** Because `Remove` leaves `IsApplied` set, a removed detour can never be
      applied again: `Apply` does nothing. */
  lemma ReapplyAfterRemove(d: Detour, mem: Mem, alloc: nat, code: seq<Instruction>,
                           alloc2: nat, code2: seq<Instruction>)
    requires Fits(d, mem, alloc, code) && d.original == Load(mem, d.target, JumpSize)
    requires alloc2 < AddressSpace
    ensures var a := Apply(d, mem, alloc, code);
      var r := Remove(a.detour, a.mem);
      Apply(r.detour, r.mem, alloc2, code2) == Outcome(r.detour, r.mem, None)
  {
    RemoveAfterApply(d, mem, alloc, code);
    ApplyLayout(d, mem, alloc, code);
  }
}

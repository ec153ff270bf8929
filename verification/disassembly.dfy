/** `Disassembler.Disassemble`: a lazy walk over code in the caller's own
    process. Code is copied into a staging buffer, the decoder is run at the
    current buffer offset, and the buffer is refilled from the current
    address whenever fewer than one maximum-length instruction remains. */
module Disassembly {
  import opened Wrappers
  import opened Bytes
  import opened Memory
  import opened LocalAccess

  const MaxInstructionSize: nat := 15
  const MaxBufferSize: nat := 4096
  const DefaultInstructionCount: nat := 100
  /** What the decoder returns for bytes it cannot decode (`UNKNOWN_OPCODE`). */
  const UnknownOpcode: int := -1

  function Min(a: int, b: int): int
  {
    if a <= b then a else b
  }

  /** The instruction count the buffer is sized for: 100 when no cap is given. */
  function SizingCount(maxCount: int): int
  {
    if maxCount == 0 then DefaultInstructionCount else maxCount
  }

  /** The staging buffer size as the source computes it: the product is an
      unchecked 32-bit `int` multiplication, which wraps before the cap of
      4096 is applied. */
  function BufferSizeAsWritten(maxCount: int): (r: int)
    requires InSigned(maxCount, 4)
    ensures r <= MaxBufferSize
    ensures InSigned(r, 4)
  {
    WrapSignedCongruent(SizingCount(maxCount) * MaxInstructionSize, 4);
    Min(WrapSigned(SizingCount(maxCount) * MaxInstructionSize, 4), MaxBufferSize)
  }

  /** The staging buffer size as intended: room for the requested number of
      instructions, capped at 4096 bytes. */
  function BufferSize(maxCount: int): (r: int)
    ensures r <= MaxBufferSize
    ensures maxCount >= 0 ==> MaxInstructionSize <= r
    ensures maxCount >= 0 ==> (r == MaxBufferSize || r == SizingCount(maxCount) * MaxInstructionSize)
    ensures maxCount < 0 ==> r < 0
  {
    Min(SizingCount(maxCount) * MaxInstructionSize, MaxBufferSize)
  }

  /** Both sizings agree whenever the product fits in an `int`, which covers
      every count up to 143,165,576. */
  lemma BufferSizesAgree(maxCount: int)
    requires InSigned(maxCount, 4)
    requires InSigned(SizingCount(maxCount) * MaxInstructionSize, 4)
    ensures BufferSizeAsWritten(maxCount) == BufferSize(maxCount)
  {
    WrapSignedInRange(SizingCount(maxCount) * MaxInstructionSize, 4);
  }

  /** The wrap breaks the sizing: a count of 0x77777778 asks for a buffer of
      8 bytes, fewer than one maximum-length instruction; a count of
      0x10000000 asks for a negative size, which the array read refuses; and
      the negative count -0x10000000 wraps to a full 4096-byte buffer, so
      the walk starts with no count cap at all. */
  lemma BufferSizeWraps()
    ensures InSigned(0x7777_7778, 4) && BufferSizeAsWritten(0x7777_7778) == 8
    ensures BufferSize(0x7777_7778) == MaxBufferSize
    ensures InSigned(0x1000_0000, 4) && BufferSizeAsWritten(0x1000_0000) < 0
    ensures BufferSize(0x1000_0000) == MaxBufferSize
    ensures InSigned(-0x1000_0000, 4) && BufferSizeAsWritten(-0x1000_0000) == MaxBufferSize
    ensures BufferSize(-0x1000_0000) < 0
  {
    Pow256Four();
    assert Half(4) == 0x8000_0000;
    assert 0x7777_7778 * 15 == 7 * 0x1_0000_0000 + 8;
    ModUnique(0x7777_7778 * 15, 0x1_0000_0000, 7, 8);
    assert 0x1000_0000 * 15 == 0xF000_0000;
    ModUnique(0x1000_0000 * 15, 0x1_0000_0000, 0, 0xF000_0000);
    assert -0x1000_0000 * 15 == -1 * 0x1_0000_0000 + 0x1000_0000;
    ModUnique(-0x1000_0000 * 15, 0x1_0000_0000, -1, 0x1000_0000);
  }

  /** One yielded instruction: its 32-bit virtual address, its decoded
      length and the bytes read from that address. */
  datatype Instruction = Instruction(address: nat, length: nat, bytes: seq<byte>)

  /** What the decoder was shown for one decode: the 15 staged bytes at the
      current buffer offset, and the address they were copied from. */
  datatype Window = Window(address: int, bytes: seq<byte>)

  /** Why the walk stopped: an undecodable instruction, the count cap, the
      consumer asking for no more, or an exception. */
  datatype Stop = EndOfCode | CountReached | Pulled | Fault(error: Error)

  datatype Listing = Listing(instructions: seq<Instruction>, windows: seq<Window>, stop: Stop)

  /** The 32-bit virtual address that follows an instruction (`uint` addition). */
  function Following(ins: Instruction): (r: nat)
    ensures r < 0x1_0000_0000
  {
    Pow256Four();
    Wrap(ins.address + ins.length, 4)
  }

  /** The address the next instruction is decoded at. */
  function NextAddress(instrs: seq<Instruction>, start: nat): nat
  {
    if |instrs| == 0 then start else Following(instrs[|instrs| - 1])
  }

  /** The instructions tile the code: the first starts at `start` and each
      next one at the address following its predecessor. */
  predicate Chained(instrs: seq<Instruction>, start: nat)
  {
    && (|instrs| > 0 ==> instrs[0].address == start)
    && (forall i :: 0 <= i < |instrs| - 1 ==> instrs[i + 1].address == Following(instrs[i]))
  }

  lemma ChainedExtend(instrs: seq<Instruction>, start: nat, ins: Instruction)
    requires Chained(instrs, start) && ins.address == NextAddress(instrs, start)
    ensures Chained(instrs + [ins], start)
    ensures NextAddress(instrs + [ins], start) == Following(ins)
  {
  }

  /** A window shows the decoder 15 bytes of memory, copied from an address
      that is the same 32-bit address as `address`. */
  predicate Faithful(mem: Mem, w: Window, address: nat)
  {
    && |w.bytes| == MaxInstructionSize
    && Mapped(mem, w.address, MaxInstructionSize)
    && w.bytes == Load(mem, w.address, MaxInstructionSize)
    && Wrap(w.address, 4) == address
  }

  /** An instruction carries the bytes at its own address. */
  predicate Fetched(mem: Mem, ins: Instruction)
  {
    Mapped(mem, ins.address, ins.length) && ins.bytes == Load(mem, ins.address, ins.length)
  }

  /** An instruction's length is what the decoder said for a faithful window
      at the instruction's address. */
  predicate Decoded(mem: Mem, decode: seq<byte> -> int, w: Window, ins: Instruction)
  {
    Faithful(mem, w, ins.address) && decode(w.bytes) == ins.length
  }

  /** What every listing guarantees: the instructions tile the code from
      `start`, each carries the bytes at its address, and each length is what
      the decoder said for a faithful window at that address. */
  predicate Sound(mem: Mem, decode: seq<byte> -> int, start: nat, instrs: seq<Instruction>, windows: seq<Window>)
  {
    && |instrs| <= |windows|
    && Chained(instrs, start)
    && (forall i :: 0 <= i < |instrs| ==> Fetched(mem, instrs[i]))
    && (forall i :: 0 <= i < |instrs| ==> Decoded(mem, decode, windows[i], instrs[i]))
  }

  lemma SoundAppendWindow(mem: Mem, decode: seq<byte> -> int, start: nat, instrs: seq<Instruction>, windows: seq<Window>, w: Window)
    requires Sound(mem, decode, start, instrs, windows)
    ensures Sound(mem, decode, start, instrs, windows + [w])
  {
    assert forall i :: 0 <= i < |windows| ==> (windows + [w])[i] == windows[i];
  }

  lemma SoundExtend(mem: Mem, decode: seq<byte> -> int, start: nat, instrs: seq<Instruction>, windows: seq<Window>, ins: Instruction)
    requires Sound(mem, decode, start, instrs, windows) && |windows| == |instrs| + 1
    requires ins.address == NextAddress(instrs, start)
    requires Fetched(mem, ins) && Decoded(mem, decode, windows[|instrs|], ins)
    ensures Sound(mem, decode, start, instrs + [ins], windows)
    ensures NextAddress(instrs + [ins], start) == Following(ins)
  {
    ChainedExtend(instrs, start, ins);
  }

  /** Moving a position that reads as an instruction's address on by the
      instruction's length reads as the address that follows it. */
  lemma Advance(pos: int, ins: Instruction)
    requires Wrap(pos, 4) == ins.address
    ensures Wrap(pos + ins.length, 4) == Following(ins)
  {
    WrapAdd(pos, ins.length, 4);
  }

  /** The next 15 bytes of the staging buffer are a faithful window at the
      address they were copied from. */
  lemma WindowInBuffer(mem: Mem, bufStart: int, size: int, offset: nat, va: nat)
    requires offset + MaxInstructionSize <= size && Mapped(mem, bufStart, size)
    requires Wrap(bufStart + offset, 4) == va
    ensures Faithful(mem, Window(bufStart + offset, Load(mem, bufStart, size)[offset..offset + MaxInstructionSize]), va)
  {
    LoadSlice(mem, bufStart, size, offset, offset + MaxInstructionSize);
  }

  /** Why a walk with a `size`-byte staging buffer may stop with an
      exception: it is the exception of a `uint` read at the next address,
      either of the bytes of the instruction the last window decodes (when
      that is not `UnknownOpcode`) or, after at least one instruction, of the
      `size` bytes of a refill. */
  predicate FaultExplained(mem: Mem, decode: seq<byte> -> int, start: nat, size: int, l: Listing)
    requires l.stop.Fault?
  {
    var next := NextAddress(l.instructions, start);
    if |l.windows| > |l.instructions| then
      var length := decode(l.windows[|l.instructions|].bytes);
      length != UnknownOpcode && ReadBytesAtUint(mem, next, length) == Err(l.stop.error)
    else
      |l.instructions| > 0 && ReadBytesAtUint(mem, next, size) == Err(l.stop.error)
  }

  /** Every instruction lies below 2^31: higher addresses cannot be read
      through the `uint` overload. */
  predicate Low(instrs: seq<Instruction>)
  {
    forall i :: 0 <= i < |instrs| ==> instrs[i].address < SignedPointerLimit
  }

  /** An instruction below 2^31 keeps the listing below 2^31. */
  lemma LowExtend(instrs: seq<Instruction>, ins: Instruction)
    requires Low(instrs) && ins.address < SignedPointerLimit
    ensures Low(instrs + [ins])
  {
  }

  /** Disassemble code at `start` in `mem`, for a consumer that asks for at
      most `pulls` instructions. `decode` is the decoder: the length of the
      instruction its 15 bytes begin with, or `UnknownOpcode`. Nothing runs
      (not even the argument check) until the consumer asks for an
      instruction. */
  method Disassemble(mem: Mem, start: nat, maxCount: int, decode: seq<byte> -> int, pulls: nat)
    returns (r: Listing)
    requires start < 0x1_0000_0000 && InSigned(maxCount, 4)
    ensures pulls == 0 ==> r == Listing([], [], Pulled)
    ensures pulls > 0 && start == 0 ==> r == Listing([], [], Fault(NullArgument))
    ensures pulls > 0 && start != 0 && maxCount < 0 ==> r == Listing([], [], Fault(Overflow))
    ensures |r.instructions| <= pulls
    ensures maxCount > 0 ==> |r.instructions| <= maxCount
    ensures r.stop == Pulled ==> |r.instructions| == pulls
    ensures r.stop == CountReached ==> maxCount > 0 && |r.instructions| == maxCount
    ensures Sound(mem, decode, start, r.instructions, r.windows)
    ensures |r.windows| <= |r.instructions| + 1
    ensures |r.windows| > |r.instructions| ==>
      Faithful(mem, r.windows[|r.instructions|], NextAddress(r.instructions, start))
    ensures r.stop == EndOfCode <==>
      |r.windows| > |r.instructions| && decode(r.windows[|r.instructions|].bytes) == UnknownOpcode
    ensures Low(r.instructions)
    ensures pulls > 0 && start >= SignedPointerLimit && maxCount >= 0 && Mapped(mem, start, BufferSize(maxCount)) ==>
      r.instructions == [] && (r.stop == EndOfCode || r.stop == Fault(Overflow))
    ensures r.stop.Fault? && start != 0 && maxCount >= 0 ==>
      || FaultExplained(mem, decode, start, BufferSize(maxCount), r)
      || (r == Listing([], [], Fault(AccessViolation)) && !Mapped(mem, start, BufferSize(maxCount)))
  {
    Pow256Four();
    if pulls == 0 {
      return Listing([], [], Pulled);
    }
    if start == 0 {
      return Listing([], [], Fault(NullArgument));
    }
    var size := BufferSize(maxCount);
    if size < 0 {
      return Listing([], [], Fault(Overflow));
    }
    if !Mapped(mem, start, size) {
      return Listing([], [], Fault(AccessViolation));
    }
    ModUnique(start, 0x1_0000_0000, 0, start);
    r := Walk(mem, start, maxCount, decode, pulls, size);
  }

  /** The loop of `Disassemble`, once the arguments are checked and the
      first `size` bytes at `start` are known to be mapped. */
  method Walk(mem: Mem, start: nat, maxCount: int, decode: seq<byte> -> int, pulls: nat, size: int)
    returns (r: Listing)
    requires start < 0x1_0000_0000 && Wrap(start, 4) == start && pulls > 0
    requires MaxInstructionSize <= size && Mapped(mem, start, size)
    ensures |r.instructions| <= pulls
    ensures maxCount > 0 ==> |r.instructions| <= maxCount
    ensures r.stop == Pulled ==> |r.instructions| == pulls
    ensures r.stop == CountReached ==> maxCount > 0 && |r.instructions| == maxCount
    ensures Sound(mem, decode, start, r.instructions, r.windows)
    ensures |r.windows| <= |r.instructions| + 1
    ensures |r.windows| > |r.instructions| ==>
      Faithful(mem, r.windows[|r.instructions|], NextAddress(r.instructions, start))
    ensures r.stop == EndOfCode <==>
      |r.windows| > |r.instructions| && decode(r.windows[|r.instructions|].bytes) == UnknownOpcode
    ensures Low(r.instructions)
    ensures r.stop.Fault? ==> FaultExplained(mem, decode, start, size, r)
  {
    Pow256Four();
    var bufStart: int := start;
    var buffer := Load(mem, start, size);
    var offset: nat := 0;
    var va: nat := start;
    var instrs: seq<Instruction> := [];
    var windows: seq<Window> := [];
    while true
      invariant MaxInstructionSize <= size
      invariant offset + MaxInstructionSize <= size
      invariant Mapped(mem, bufStart, size) && buffer == Load(mem, bufStart, size)
      invariant va == NextAddress(instrs, start) && va < 0x1_0000_0000
      invariant Wrap(bufStart + offset, 4) == va
      invariant |instrs| < pulls
      invariant maxCount > 0 ==> |instrs| < maxCount
      invariant |windows| == |instrs|
      invariant Sound(mem, decode, start, instrs, windows)
      invariant Low(instrs)
      decreases pulls - |instrs|
    {
      var window := Window(bufStart + offset, buffer[offset..offset + MaxInstructionSize]);
      WindowInBuffer(mem, bufStart, size, offset, va);
      SoundAppendWindow(mem, decode, start, instrs, windows, window);
      windows := windows + [window];
      assert windows[|instrs|] == window;
      var length := decode(window.bytes);
      if length == UnknownOpcode {
        return Listing(instrs, windows, EndOfCode);
      }
      var fetched := ReadBytesAtUint(mem, va, length);
      if fetched.Err? {
        return Listing(instrs, windows, Fault(fetched.error));
      }
      var ins := Instruction(va, length, fetched.value);
      SoundExtend(mem, decode, start, instrs, windows, ins);
      LowExtend(instrs, ins);
      instrs := instrs + [ins];
      if |instrs| == pulls {
        return Listing(instrs, windows, Pulled);
      }
      Advance(bufStart + offset, ins);
      va := Following(ins);
      offset := offset + length;
      if maxCount > 0 && |instrs| >= maxCount {
        return Listing(instrs, windows, CountReached);
      }
      if size - offset < MaxInstructionSize {
        var refill := ReadBytesAtUint(mem, va, size);
        if refill.Err? {
          return Listing(instrs, windows, Fault(refill.error));
        }
        ModUnique(va, 0x1_0000_0000, 0, va);
        buffer := refill.value;
        bufStart := va;
        offset := 0;
      }
    }
  }
}

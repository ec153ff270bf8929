/** Typed access to the caller's own address space through a raw pointer
    (`IntPtrExtensions`). Reads and writes dereference the pointer, so an
    unmapped range faults; array writes go through `WriteProcessMemory` on
    the current process, which fails (rather than faults) on an unmapped
    range. */
module LocalAccess {
  import opened Wrappers
  import opened Bytes
  import opened Memory
  import opened Codec
  import opened Text
  import opened Seqs

  /** The bound the encoding-only string read passes to the bounded one. */
  const MaxStringSizeBytes: nat := 1024

  /** `addr.Read<T>()`: the value held by the `sizeof(T)` bytes at addr. */
  function Read(m: Mem, t: TypeTag, w: PtrWidth, addr: int): (r: Result<Value>)
    ensures r.Ok? <==> Mapped(m, addr, NativeSize(t, w))
    ensures r.Ok? ==> r.value.tag == t && WellFormed(r.value, w)
    ensures r.Ok? && t != Boolean ==> Encode(r.value, w) == Load(m, addr, NativeSize(t, w))
    ensures r.Ok? && t == Boolean ==> (r.value.n == 1 <==> m[addr] != 0)
    ensures r.Err? ==> r.error == AccessViolation
  {
    var n := NativeSize(t, w);
    if !Mapped(m, addr, n) then Err(AccessViolation)
    else
      var bs := Load(m, addr, n);
      EncodeDecodeUnlessBoolean(t, bs, w);
      Ok(Decode(t, bs, w))
  }

  /** `addr.Write<T>(v)`: store the `sizeof(T)` bytes of v at addr. */
  function Write(m: Mem, v: Value, w: PtrWidth, addr: int): (r: Result<Mem>)
    requires WellFormed(v, w)
    ensures r.Ok? <==> Mapped(m, addr, NativeSize(v.tag, w))
    ensures r.Ok? ==> r.value.Keys == m.Keys
    ensures r.Ok? ==> Load(r.value, addr, NativeSize(v.tag, w)) == Encode(v, w)
    ensures r.Ok? ==> forall a :: a in m && !(addr <= a < addr + NativeSize(v.tag, w)) ==> r.value[a] == m[a]
    ensures r.Err? ==> r.error == AccessViolation
  {
    if !Mapped(m, addr, NativeSize(v.tag, w)) then Err(AccessViolation)
    else
      LoadStore(m, addr, Encode(v, w));
      Ok(Store(m, addr, Encode(v, w)))
  }

  /** Reading back what was written gives the value, for every type tag. */
  lemma ReadAfterWrite(m: Mem, v: Value, w: PtrWidth, addr: int)
    requires WellFormed(v, w) && Mapped(m, addr, NativeSize(v.tag, w))
    ensures Write(m, v, w, addr).Ok?
    ensures Read(Write(m, v, w, addr).value, v.tag, w, addr) == Ok(v)
  {
    var e := Encode(v, w);
    LoadStore(m, addr, e);
    DecodeEncodeValue(v, w, []);
    assert e + [] == e;
  }

  /** `addr.ReadArray<T>(count)`: `count` elements copied from addr. The
      element type is checked first; a negative count then fails when the
      managed array is allocated, and `Marshal.Copy` refuses a zero source
      pointer before copying anything, even for a count of zero. */
  function ReadArray(m: Mem, t: TypeTag, count: int, w: PtrWidth, addr: int): (r: Result<seq<Value>>)
    ensures !ArrayTag(t) ==> r == Err(BadArgument)
    ensures ArrayTag(t) && count < 0 ==> r == Err(Overflow)
    ensures ArrayTag(t) && count >= 0 && addr == 0 ==> r == Err(NullArgument)
    ensures ArrayTag(t) && count >= 0 ==> (r.Ok? <==> addr != 0 && Mapped(m, addr, count * NativeSize(t, w)))
    ensures r.Ok? ==> |r.value| == count && Uniform(r.value, t, w)
    ensures ArrayTag(t) && count >= 0 && addr != 0 && r.Err? ==> r.error == AccessViolation
  {
    if !ArrayTag(t) then Err(BadArgument)
    else if count < 0 then Err(Overflow)
    else if addr == 0 then Err(NullArgument)
    else if !Mapped(m, addr, count * NativeSize(t, w)) then Err(AccessViolation)
    else
      SpanIsProduct(count, NativeSize(t, w));
      Ok(Unpack(Load(m, addr, count * NativeSize(t, w)), t, count, w))
  }

  /** Element i of a read array is the value stored at addr + i * sizeof(T). */
  lemma ReadArrayElements(m: Mem, t: TypeTag, count: nat, w: PtrWidth, addr: int, i: nat)
    requires ReadArray(m, t, count, w, addr).Ok? && i < count
    ensures Mapped(m, addr + i * NativeSize(t, w), NativeSize(t, w))
    ensures Encode(ReadArray(m, t, count, w, addr).value[i], w)
         == Load(m, addr + i * NativeSize(t, w), NativeSize(t, w))
  {
    SpanIsProduct(count, NativeSize(t, w));
    UnpackedElement(m, t, count, w, addr, i);
  }

  /** Element i of the array unpacked from the `count * sizeof(T)` bytes
      at addr re-encodes to the `sizeof(T)` bytes at addr + i * sizeof(T). */
  lemma UnpackedElement(m: Mem, t: TypeTag, count: nat, w: PtrWidth, addr: int, i: nat)
    requires ArrayTag(t) && i < count && Mapped(m, addr, count * NativeSize(t, w))
    requires Span(count, NativeSize(t, w)) == count * NativeSize(t, w)
    ensures Mapped(m, addr + i * NativeSize(t, w), NativeSize(t, w))
    ensures Encode(Unpack(Load(m, addr, count * NativeSize(t, w)), t, count, w)[i], w)
         == Load(m, addr + i * NativeSize(t, w), NativeSize(t, w))
  {
    var s := NativeSize(t, w);
    var bs := Load(m, addr, count * s);
    SpanIsProduct(i, s);
    MulMono(i + 1, count, s);
    UnpackAt(bs, t, count, w, i);
    LoadPart(m, addr, count * s, i * s, s);
    ElementBytes(bs, t, w, i * s);
  }

  /** The element starting at `lo` is decoded from, and re-encodes to,
      exactly its own `sizeof(T)` bytes. */
  lemma ElementBytes(bs: seq<byte>, t: TypeTag, w: PtrWidth, lo: nat)
    requires t != Boolean && lo + NativeSize(t, w) <= |bs|
    ensures Encode(Decode(t, bs[lo..], w), w) == bs[lo..lo + NativeSize(t, w)]
  {
    var s := NativeSize(t, w);
    assert bs[lo..][..s] == bs[lo..lo + s];
    DecodePrefix(t, bs[lo..], bs[lo..lo + s], w);
    EncodeDecodeValue(t, bs[lo..lo + s], w);
  }

  /** `addr.WriteArray<T>(vs)` as written: the staging buffer and the
      transfer are sized with `Marshal.SizeOf(T)`, so for `char` only the
      first half of the packed UTF-16 bytes reaches addr. Refused element
      types fail before anything is written. */
  function WriteArrayAsWritten(m: Mem, t: TypeTag, vs: seq<Value>, w: PtrWidth, addr: int): (r: Result<Mem>)
    requires Uniform(vs, t, w)
    ensures !ArrayTag(t) ==> r == Err(BadArgument)
    ensures ArrayTag(t) ==> (r.Ok? <==> Mapped(m, addr, |vs| * MarshalSize(t, w)))
    ensures ArrayTag(t) && r.Err? ==> r.error == Win32
  {
    if !ArrayTag(t) then Err(BadArgument)
    else
      var size := |vs| * MarshalSize(t, w);
      MarshalAtMost(t, w);
      MulMono(MarshalSize(t, w), NativeSize(t, w), |vs|);
      SpanIsProduct(|vs|, NativeSize(t, w));
      WriteProcessMemory(m, addr, Pack(vs, t, w)[..size], SelfTransfer(m, addr, size))
  }

  /** `addr.WriteArray<T>(vs)` with the transfer sized by `sizeof(T)`: the
      whole packed array is written. */
  function WriteArray(m: Mem, t: TypeTag, vs: seq<Value>, w: PtrWidth, addr: int): (r: Result<Mem>)
    requires Uniform(vs, t, w)
    ensures !ArrayTag(t) ==> r == Err(BadArgument)
    ensures ArrayTag(t) ==> (r.Ok? <==> Mapped(m, addr, |vs| * NativeSize(t, w)))
    ensures r.Ok? ==> r.value.Keys == m.Keys
    ensures r.Ok? ==> forall a :: a in m && !(addr <= a < addr + |vs| * NativeSize(t, w)) ==> r.value[a] == m[a]
    ensures ArrayTag(t) && r.Err? ==> r.error == Win32
  {
    if !ArrayTag(t) then Err(BadArgument)
    else
      var bytes := Pack(vs, t, w);
      SpanIsProduct(|vs|, NativeSize(t, w));
      WriteProcessMemory(m, addr, bytes, SelfTransfer(m, addr, |bytes|))
  }

  /** Raw bytes as the elements of a `byte[]`. */
  function ByteValues(bs: seq<byte>): (vs: seq<Value>)
    ensures |vs| == |bs|
    ensures forall i :: 0 <= i < |bs| ==> vs[i] == Value(Byte, bs[i] as int)
  {
    seq(|bs|, i requires 0 <= i < |bs| => Value(Byte, bs[i] as int))
  }

  /** `addr.ReadArray<byte>(n)`, the form the detours and the disassembler use. */
  function ReadBytes(m: Mem, addr: int, n: nat): (r: Result<seq<byte>>)
    ensures addr == 0 ==> r == Err(NullArgument)
    ensures r.Ok? <==> addr != 0 && Mapped(m, addr, n)
    ensures r.Ok? ==> |r.value| == n
    ensures addr != 0 && r.Err? ==> r.error == AccessViolation
  {
    if addr == 0 then Err(NullArgument)
    else if Mapped(m, addr, n) then Ok(Load(m, addr, n)) else Err(AccessViolation)
  }

  /** The first address a 32-bit process cannot build a pointer for from a
      64-bit integer: `new IntPtr(long)` narrows with a checked conversion. */
  const SignedPointerLimit: nat := 0x8000_0000

  /** `addr.ReadArray<byte>(n)` for a `uint` address, in the 32-bit process
      the library targets. The `uint` overload builds `new IntPtr(addr)`,
      which binds to the `long` constructor and throws `OverflowException`
      from 2^31 up, before the read itself starts; below that it is the
      `IntPtr` read, whose negative-count check comes first. */
  function ReadBytesAtUint(m: Mem, addr: nat, n: int): (r: Result<seq<byte>>)
    ensures r.Ok? <==> addr < SignedPointerLimit && n >= 0 && addr != 0 && Mapped(m, addr, n)
    ensures r.Ok? ==> n >= 0 && r.value == Load(m, addr, n)
    ensures addr >= SignedPointerLimit || n < 0 ==> r == Err(Overflow)
    ensures addr < SignedPointerLimit && n >= 0 && addr == 0 ==> r == Err(NullArgument)
    ensures addr != 0 && r.Err? && r.error != Overflow ==> r.error == AccessViolation
  {
    if addr >= SignedPointerLimit || n < 0 then Err(Overflow)
    else ReadBytes(m, addr, n)
  }

  /** `addr.WriteArray<byte>(bs)`: the bytes land at addr, nothing else changes. */
  function WriteBytes(m: Mem, addr: int, bs: seq<byte>): (r: Result<Mem>)
    ensures r.Ok? <==> Mapped(m, addr, |bs|)
    ensures r.Ok? ==> Wrote(m, r.value, addr, bs)
    ensures r.Err? ==> r.error == Win32
  {
    LoadStore(m, addr, bs);
    WriteProcessMemory(m, addr, bs, SelfTransfer(m, addr, |bs|))
  }

  lemma {:induction false} PackBytes(bs: seq<byte>, w: PtrWidth)
    ensures Uniform(ByteValues(bs), Byte, w)
    ensures Pack(ByteValues(bs), Byte, w) == bs
  {
    if |bs| > 0 {
      var vs := ByteValues(bs);
      assert vs[1..] == ByteValues(bs[1..]);
      PackBytes(bs[1..], w);
      EncodeByte(bs[0], w);
      assert [bs[0]] + bs[1..] == bs;
    }
  }

  lemma EncodeByte(b: byte, w: PtrWidth)
    ensures WellFormed(Value(Byte, b as int), w)
    ensures Encode(Value(Byte, b as int), w) == [b]
  {
    EncodeOneByte(b);
  }

  lemma UnpackBytes(bs: seq<byte>, w: PtrWidth)
    ensures Span(|bs|, NativeSize(Byte, w)) == |bs|
    ensures Unpack(bs, Byte, |bs|, w) == ByteValues(bs)
  {
    SpanIsProduct(|bs|, NativeSize(Byte, w));
    PackBytes(bs, w);
    UnpackPack(ByteValues(bs), Byte, w, []);
    AppendNothing(bs);
  }

  /** The byte forms are the `byte` instances of the typed array accessors. */
  lemma BytesAreByteArrays(m: Mem, addr: int, bs: seq<byte>, n: nat, w: PtrWidth)
    ensures Uniform(ByteValues(bs), Byte, w)
    ensures WriteBytes(m, addr, bs) == WriteArray(m, Byte, ByteValues(bs), w, addr)
    ensures ReadBytes(m, addr, n).Ok? <==> ReadArray(m, Byte, n, w, addr).Ok?
    ensures ReadBytes(m, addr, n).Ok? ==>
      ReadArray(m, Byte, n, w, addr).value == ByteValues(ReadBytes(m, addr, n).value)
  {
    WriteBytesIsWriteArray(m, addr, bs, w);
    ReadBytesIsReadArray(m, addr, n, w);
  }

  lemma WriteBytesIsWriteArray(m: Mem, addr: int, bs: seq<byte>, w: PtrWidth)
    ensures Uniform(ByteValues(bs), Byte, w)
    ensures WriteBytes(m, addr, bs) == WriteArray(m, Byte, ByteValues(bs), w, addr)
  {
    PackBytes(bs, w);
    SpanIsProduct(|bs|, NativeSize(Byte, w));
  }

  lemma ReadBytesIsReadArray(m: Mem, addr: int, n: nat, w: PtrWidth)
    ensures ReadBytes(m, addr, n).Ok? <==> ReadArray(m, Byte, n, w, addr).Ok?
    ensures ReadBytes(m, addr, n).Ok? ==>
      ReadArray(m, Byte, n, w, addr).value == ByteValues(ReadBytes(m, addr, n).value)
  {
    if addr != 0 && Mapped(m, addr, n) {
      var bs := Load(m, addr, n);
      assert NativeSize(Byte, w) == 1;
      assert n * NativeSize(Byte, w) == n;
      UnpackBytes(bs, w);
      assert ReadArray(m, Byte, n, w, addr) == Ok(Unpack(bs, Byte, n, w));
    }
  }

  /** Round trip: an array written with `WriteArray` reads back whole,
      except at the null pointer, which the read refuses. */
  lemma ReadArrayAfterWriteArray(m: Mem, t: TypeTag, vs: seq<Value>, w: PtrWidth, addr: int)
    requires ArrayTag(t) && Uniform(vs, t, w) && Mapped(m, addr, |vs| * NativeSize(t, w))
    ensures WriteArray(m, t, vs, w, addr).Ok?
    ensures ReadArray(WriteArray(m, t, vs, w, addr).value, t, |vs|, w, addr)
         == if addr == 0 then Err(NullArgument) else Ok(vs)
  {
    var bytes := Pack(vs, t, w);
    SpanIsProduct(|vs|, NativeSize(t, w));
    LoadStore(m, addr, bytes);
    UnpackPack(vs, t, w, []);
    assert bytes + [] == bytes;
  }

  /** For every element type but `char` the written code and the corrected
      one coincide. */
  lemma WriteArrayAsWrittenAgrees(m: Mem, t: TypeTag, vs: seq<Value>, w: PtrWidth, addr: int)
    requires Uniform(vs, t, w) && t != Char
    ensures WriteArrayAsWritten(m, t, vs, w, addr) == WriteArray(m, t, vs, w, addr)
  {
    if ArrayTag(t) {
      MarshalAtMost(t, w);
      var bytes := Pack(vs, t, w);
      SpanIsProduct(|vs|, NativeSize(t, w));
      assert bytes[..|vs| * MarshalSize(t, w)] == bytes;
    }
  }

  /** The char array hazard: writing the one-element array ['䉁'] over
      zeroed memory and reading it back gives ['A'] (0x41): only the low
      byte was transferred. */
  lemma CharArrayLosesHighByte(m: Mem, w: PtrWidth, addr: int)
    requires addr != 0 && Mapped(m, addr, 2) && m[addr] == 0 && m[addr + 1] == 0
    ensures WriteArrayAsWritten(m, Char, [Value(Char, 0x4241)], w, addr).Ok?
    ensures ReadArray(WriteArrayAsWritten(m, Char, [Value(Char, 0x4241)], w, addr).value, Char, 1, w, addr)
         == Ok([Value(Char, 0x41)])
  {
    var v := Value(Char, 0x4241);
    PackOneChar(v, w);
    var m' := Store(m, addr, [0x41]);
    assert WriteArrayAsWritten(m, Char, [v], w, addr) == Ok(m');
    var loaded := Load(m', addr, 2);
    assert loaded == [0x41, 0];
    DecodeLowByte(loaded, w);
  }

  lemma PackOneChar(v: Value, w: PtrWidth)
    requires v == Value(Char, 0x4241)
    ensures WellFormed(v, w) && Pack([v], Char, w)[..1] == [0x41]
  {
    assert Pow256(2) == 65536;
    assert Wrap(0x4241, 2) == 0x4241;
    assert EncodeLE(0x4241, 2) == [0x41] + EncodeLE(0x42, 1);
    assert [v][1..] == [];
    assert Pack([v], Char, w) == Encode(v, w) + Pack([], Char, w);
  }

  lemma DecodeLowByte(bs: seq<byte>, w: PtrWidth)
    requires bs == [0x41, 0]
    ensures Unpack(bs, Char, 1, w) == [Value(Char, 0x41)]
  {
    assert bs[..2] == bs;
    assert bs[1..] == [0];
    assert DecodeLE(bs[1..]) == 0;
    assert DecodeLE(bs) == 0x41;
    assert Unpack(bs, Char, 1, w) == [Decode(Char, bs[..2], w)] + Unpack(bs[2..], Char, 0, w);
  }

  /** The bytes at addr up to the first terminator unit, stepping by the
      terminator's width with no bound: the marshal readers
      `PtrToStringAnsi` (one zero byte) and `PtrToStringUni` (a zero UTF-16
      unit). Running off mapped memory faults. */
  function ScanMemory(m: Mem, addr: int, t: seq<byte>): (r: Result<seq<byte>>)
    requires |t| >= 1
    ensures r.Err? ==> r.error == AccessViolation
    decreases set a | a in m && a >= addr
  {
    if !Mapped(m, addr, |t|) then Err(AccessViolation)
    else if Load(m, addr, |t|) == t then Ok([])
    else
      AddressesShrink(m, addr, |t|);
      var rest :- ScanMemory(m, addr + |t|, t);
      Ok(Load(m, addr, |t|) + rest)
  }

  /** Moving past a mapped byte leaves fewer mapped addresses ahead. */
  lemma AddressesShrink(m: Mem, addr: int, n: nat)
    requires n >= 1 && addr in m
    ensures (set a | a in m && a >= addr + n) < (set a | a in m && a >= addr)
  {
    var before := set a | a in m && a >= addr;
    var after := set a | a in m && a >= addr + n;
    assert addr in before && addr !in after;
  }

  /** The unbounded scan of memory holding a body then its terminator
      returns the body, when the body is whole units none of which is the
      terminator. */
  lemma {:induction false} ScanMemoryOfWritten(m: Mem, addr: int, t: seq<byte>, body: seq<byte>, q: nat)
    requires |t| >= 1 && |body| == q * |t|
    requires forall p :: 0 <= p < q ==> !ChunkIs(body, t, p * |t|)
    requires Mapped(m, addr, |body| + |t|) && Load(m, addr, |body| + |t|) == body + t
    ensures ScanMemory(m, addr, t) == Ok(body)
    decreases q
  {
    if q == 0 {
      assert |body| == 0;
      ScanWrittenEmpty(m, addr, t, body);
    } else {
      ScanWrittenShift(m, addr, t, body, q);
      ScanMemoryOfWritten(m, addr + |t|, t, body[|t|..], q - 1);
      ScanWrittenKeep(m, addr, t, body);
    }
  }

  /** With an empty body the terminator is found at once. */
  lemma ScanWrittenEmpty(m: Mem, addr: int, t: seq<byte>, body: seq<byte>)
    requires |t| >= 1 && |body| == 0
    requires Mapped(m, addr, |body| + |t|) && Load(m, addr, |body| + |t|) == body + t
    ensures ScanMemory(m, addr, t) == Ok(body)
  {
    assert body + t == t;
  }

  /** A body of q >= 1 units: the first unit is mapped and is not the
      terminator, and the rest of the body with the terminator after it
      satisfies the scan's hypotheses for q - 1. */
  lemma ScanWrittenShift(m: Mem, addr: int, t: seq<byte>, body: seq<byte>, q: nat)
    requires |t| >= 1 && q >= 1 && |body| == q * |t|
    requires forall p :: 0 <= p < q ==> !ChunkIs(body, t, p * |t|)
    requires Mapped(m, addr, |body| + |t|) && Load(m, addr, |body| + |t|) == body + t
    ensures |t| <= |body| && Mapped(m, addr, |t|) && Load(m, addr, |t|) == body[..|t|] != t
    ensures |body[|t|..]| == (q - 1) * |t|
    ensures forall p :: 0 <= p < q - 1 ==> !ChunkIs(body[|t|..], t, p * |t|)
    ensures Mapped(m, addr + |t|, |body[|t|..]| + |t|)
    ensures Load(m, addr + |t|, |body[|t|..]| + |t|) == body[|t|..] + t
  {
    MulStep(q - 1, |t|);
    assert !ChunkIs(body, t, 0 * |t|);
    LoadPrefix(m, addr, |body| + |t|, |t|);
    SplitAppend(body, t, |t|);
    NoChunkInTail(body, t, q);
    LoadPart(m, addr, |body| + |t|, |t|, |body[|t|..]| + |t|);
  }

  /** A first unit that is not the terminator is kept in front of what the
      scan from the next unit returns. */
  lemma ScanWrittenKeep(m: Mem, addr: int, t: seq<byte>, body: seq<byte>)
    requires |t| >= 1 && |t| <= |body| && Mapped(m, addr, |t|) && Load(m, addr, |t|) == body[..|t|] != t
    requires ScanMemory(m, addr + |t|, t) == Ok(body[|t|..])
    ensures ScanMemory(m, addr, t) == Ok(body)
  {
    ScanMemoryStep(m, addr, t, body[|t|..]);
    SplitAppend(body, t, |t|);
  }

  /** Cutting `body + t` at n within the body. */
  lemma SplitAppend(body: seq<byte>, t: seq<byte>, n: nat)
    requires n <= |body|
    ensures (body + t)[..n] == body[..n]
    ensures (body + t)[n..n + (|body[n..]| + |t|)] == body[n..] + t
    ensures body[..n] + body[n..] == body && body[0..n] == body[..n]
    ensures n == 0 ==> (body + t)[..|t|] == (body + t)[n..n + |t|]
  {
  }

  /** Dropping the first unit of a body with no terminator unit leaves a
      body of one unit fewer, still with none. */
  lemma NoChunkInTail(body: seq<byte>, t: seq<byte>, q: nat)
    requires |t| >= 1 && q >= 1 && |body| == q * |t|
    requires forall p :: 0 <= p < q ==> !ChunkIs(body, t, p * |t|)
    ensures |body[|t|..]| == (q - 1) * |t|
    ensures forall p :: 0 <= p < q - 1 ==> !ChunkIs(body[|t|..], t, p * |t|)
  {
    MulStep(q - 1, |t|);
    forall p | 0 <= p < q - 1
      ensures !ChunkIs(body[|t|..], t, p * |t|)
    {
      ChunkShift(body, t, p);
    }
  }

  /** Unit p of a body without its first unit is unit p + 1 of the body. */
  lemma ChunkShift(body: seq<byte>, t: seq<byte>, p: nat)
    requires |t| <= |body|
    ensures ChunkIs(body[|t|..], t, p * |t|) <==> ChunkIs(body, t, (p + 1) * |t|)
  {
    MulStep(p, |t|);
    var k := p * |t|;
    if k + |t| <= |body| - |t| {
      SliceOfSlice(body, |t|, k, |t|);
    }
  }

  /** A slice of a suffix is a slice of the whole. */
  lemma SliceOfSlice(s: seq<byte>, n: nat, k: nat, len: nat)
    requires n + k + len <= |s|
    ensures s[n..][k..k + len] == s[n + k..n + k + len]
  {
    var a := s[n..][k..k + len];
    forall j | 0 <= j < len
      ensures a[j] == s[n + k + j]
    {
      assert a[j] == s[n..][k + j];
    }
  }

  /** One step of the unbounded scan past a unit that is not the terminator. */
  lemma ScanMemoryStep(m: Mem, addr: int, t: seq<byte>, rest: seq<byte>)
    requires |t| >= 1 && Mapped(m, addr, |t|) && Load(m, addr, |t|) != t
    requires ScanMemory(m, addr + |t|, t) == Ok(rest)
    ensures ScanMemory(m, addr, t) == Ok(Load(m, addr, |t|) + rest)
  {
  }

  /** Memory at addr holds `body`, q whole units none of which is the
      terminator, and then the terminator. */
  predicate UnitsThenTerminator(m: Mem, addr: int, t: seq<byte>, body: seq<byte>, q: nat)
  {
    && |body| == q * |t|
    && (forall p :: 0 <= p < q ==> !ChunkIs(body, t, p * |t|))
    && Mapped(m, addr, |body| + |t|) && Load(m, addr, |body| + |t|) == body + t
  }

  /** Unit j of a scan from addr, the |t| bytes at addr + j|t|, is mapped
      and is not the terminator: the scan steps past it. */
  predicate PassesUnit(m: Mem, addr: int, t: seq<byte>, j: nat)
  {
    Mapped(m, addr + j * |t|, |t|) && Load(m, addr + j * |t|, |t|) != t
  }

  /** A scan from addr steps past units 0 .. k-1 and finds unit k unmapped. */
  predicate FaultsAtUnit(m: Mem, addr: int, t: seq<byte>, k: nat)
  {
    && (forall j :: 0 <= j < k ==> PassesUnit(m, addr, t, j))
    && !Mapped(m, addr + k * |t|, |t|)
  }

  /** The unbounded scan returns `body` exactly when memory holds whole
      non-terminator units and then the terminator. */
  lemma ScanMemoryOk(m: Mem, addr: int, t: seq<byte>, body: seq<byte>)
    requires |t| >= 1
    ensures ScanMemory(m, addr, t) == Ok(body) <==> exists q: nat :: UnitsThenTerminator(m, addr, t, body, q)
  {
    if ScanMemory(m, addr, t) == Ok(body) {
      var q := ScanMemoryUnits(m, addr, t);
      assert UnitsThenTerminator(m, addr, t, body, q);
    }
    if q: nat :| UnitsThenTerminator(m, addr, t, body, q) {
      ScanMemoryOfWritten(m, addr, t, body, q);
    }
  }

  /** The unbounded scan faults exactly when it steps past mapped
      non-terminator units onto an unmapped one. */
  lemma ScanMemoryFails(m: Mem, addr: int, t: seq<byte>)
    requires |t| >= 1
    ensures ScanMemory(m, addr, t).Err? <==> exists k: nat :: FaultsAtUnit(m, addr, t, k)
  {
    if ScanMemory(m, addr, t).Err? {
      var k := ScanMemoryFaultUnit(m, addr, t);
      assert FaultsAtUnit(m, addr, t, k);
    }
    if k: nat :| FaultsAtUnit(m, addr, t, k) {
      ScanMemoryFaultsAt(m, addr, t, k);
    }
  }

  /** The unbounded scan succeeds exactly when memory holds whole
      non-terminator units and then the terminator. */
  lemma ScanMemoryFound(m: Mem, addr: int, t: seq<byte>)
    requires |t| >= 1
    ensures ScanMemory(m, addr, t).Ok? <==> exists body, q: nat :: UnitsThenTerminator(m, addr, t, body, q)
  {
    if ScanMemory(m, addr, t).Ok? {
      var q := ScanMemoryUnits(m, addr, t);
      assert UnitsThenTerminator(m, addr, t, ScanMemory(m, addr, t).value, q);
    }
    if body, q: nat :| UnitsThenTerminator(m, addr, t, body, q) {
      ScanMemoryOfWritten(m, addr, t, body, q);
    }
  }

  /** What a successful scan returned is held in memory as whole units
      and then the terminator. */
  lemma {:induction false} ScanMemoryUnits(m: Mem, addr: int, t: seq<byte>) returns (q: nat)
    requires |t| >= 1 && ScanMemory(m, addr, t).Ok?
    ensures UnitsThenTerminator(m, addr, t, ScanMemory(m, addr, t).value, q)
    decreases set a | a in m && a >= addr
  {
    assert Mapped(m, addr, |t|);
    if Load(m, addr, |t|) == t {
      ScanFoundAtOnce(m, addr, t);
      q := 0;
    } else {
      assert PassesUnit(m, addr, t, 0) by {
        assert addr + 0 * |t| == addr;
      }
      ScanMemoryPast(m, addr, t);
      AddressesShrink(m, addr, |t|);
      var q' := ScanMemoryUnits(m, addr + |t|, t);
      q := q' + 1;
      UnitsPrepend(m, addr, t, ScanMemory(m, addr + |t|, t).value, q');
    }
  }

  /** A terminator at addr itself ends the scan with nothing. */
  lemma ScanFoundAtOnce(m: Mem, addr: int, t: seq<byte>)
    requires |t| >= 1 && Mapped(m, addr, |t|) && Load(m, addr, |t|) == t
    ensures ScanMemory(m, addr, t) == Ok([])
    ensures UnitsThenTerminator(m, addr, t, [], 0)
  {
    assert [] + t == t;
  }

  /** A mapped non-terminator unit in front of whole units and the
      terminator makes one unit more. */
  lemma UnitsPrepend(m: Mem, addr: int, t: seq<byte>, rest: seq<byte>, q: nat)
    requires |t| >= 1 && Mapped(m, addr, |t|) && Load(m, addr, |t|) != t
    requires UnitsThenTerminator(m, addr + |t|, t, rest, q)
    ensures UnitsThenTerminator(m, addr, t, Load(m, addr, |t|) + rest, q + 1)
  {
    var head := Load(m, addr, |t|);
    var body := head + rest;
    MulStep(q, |t|);
    LoadJoin(m, addr, |t|, |rest| + |t|);
    assert body + t == head + (rest + t);
    assert body[|t|..] == rest;
    forall p | 0 <= p < q + 1
      ensures !ChunkIs(body, t, p * |t|)
    {
      if p == 0 {
        assert body[0..|t|] == head;
      } else {
        ChunkShift(body, t, p - 1);
      }
    }
  }

  /** A fault of the scan names the unmapped unit it stopped at. */
  lemma {:induction false} ScanMemoryFaultUnit(m: Mem, addr: int, t: seq<byte>) returns (k: nat)
    requires |t| >= 1 && ScanMemory(m, addr, t).Err?
    ensures FaultsAtUnit(m, addr, t, k)
    decreases set a | a in m && a >= addr
  {
    if !Mapped(m, addr, |t|) {
      k := 0;
    } else {
      AddressesShrink(m, addr, |t|);
      assert PassesUnit(m, addr, t, 0);
      ScanMemoryPast(m, addr, t);
      var k' := ScanMemoryFaultUnit(m, addr + |t|, t);
      k := k' + 1;
      FaultsShift(m, addr, t, k);
    }
  }

  /** Stepping past units 0 .. k-1 onto an unmapped unit k faults. */
  lemma {:induction false} ScanMemoryFaultsAt(m: Mem, addr: int, t: seq<byte>, k: nat)
    requires |t| >= 1 && FaultsAtUnit(m, addr, t, k)
    ensures ScanMemory(m, addr, t) == Err(AccessViolation)
    decreases k
  {
    if k > 0 {
      FaultsShift(m, addr, t, k);
      ScanMemoryFaultsAt(m, addr + |t|, t, k - 1);
      ScanMemoryPast(m, addr, t);
    } else {
      assert addr + k * |t| == addr;
    }
  }

  /** Past a mapped non-terminator first unit, the scan is the scan from
      the next unit with that unit in front. */
  lemma ScanMemoryPast(m: Mem, addr: int, t: seq<byte>)
    requires |t| >= 1 && PassesUnit(m, addr, t, 0)
    ensures Mapped(m, addr, |t|) && Load(m, addr, |t|) != t
    ensures ScanMemory(m, addr, t).Err? <==> ScanMemory(m, addr + |t|, t).Err?
    ensures ScanMemory(m, addr + |t|, t).Ok? ==>
      ScanMemory(m, addr, t) == Ok(Load(m, addr, |t|) + ScanMemory(m, addr + |t|, t).value)
  {
    assert addr + 0 * |t| == addr;
  }

  /** Faulting at unit k from addr is passing unit 0 and faulting at unit
      k - 1 from the next unit. */
  lemma FaultsShift(m: Mem, addr: int, t: seq<byte>, k: nat)
    requires k >= 1
    ensures FaultsAtUnit(m, addr, t, k) <==> PassesUnit(m, addr, t, 0) && FaultsAtUnit(m, addr + |t|, t, k - 1)
  {
    var next := addr + |t|;
    MulStep(k - 1, |t|);
    assert addr + k * |t| == next + (k - 1) * |t|;
    forall j: nat | j < k - 1
      ensures PassesUnit(m, addr, t, j + 1) <==> PassesUnit(m, next, t, j)
    {
      MulStep(j, |t|);
      assert addr + (j + 1) * |t| == next + j * |t|;
    }
    if PassesUnit(m, addr, t, 0) && FaultsAtUnit(m, next, t, k - 1) {
      forall j | 0 <= j < k
        ensures PassesUnit(m, addr, t, j)
      {
        if j > 0 {
          assert PassesUnit(m, next, t, j - 1);
        }
      }
    }
  }

  /** `addr.ReadString(encoding, maxSize)` as written: refuse all but UTF-8,
      Unicode and ASCII first, read `maxSize` bytes (a negative size fails
      when the byte array is allocated), keep the bytes before the
      terminator found by the compared-count scanner (for every encoding),
      and decode them. For UTF-16 that scanner accepts `00 00` at any
      offset, and with no `00 00` in the buffer a zero last byte makes it
      index past the end. */
  function ReadStringBoundedAsWritten(m: Mem, e: Encoding, addr: int, maxSize: int, codec: TextCodec): (r: Result<string>)
    ensures !Scannable(e) ==> r == Err(BadArgument)
    ensures Scannable(e) && maxSize < 0 ==> r == Err(Overflow)
    ensures Scannable(e) && maxSize >= 0 && addr == 0 ==> r == Err(NullArgument)
    ensures Scannable(e) && maxSize >= 0 && addr != 0 && !Mapped(m, addr, maxSize) ==> r == Err(AccessViolation)
    ensures Scannable(e) && e != Unicode && maxSize >= 0 && addr != 0 && Mapped(m, addr, maxSize)
            ==> r == Ok(codec.getString(e, BeforeFirstZero(Load(m, addr, maxSize))))
    ensures e == Unicode && maxSize >= 0 && addr != 0 && Mapped(m, addr, maxSize) ==>
      var bs := Load(m, addr, maxSize);
      var k := FirstChunk(bs, [0, 0], 0);
      r == if k == |bs| && |bs| > 0 && bs[|bs| - 1] == 0 then Err(IndexOutOfRange)
           else Ok(codec.getString(Unicode, bs[..k]))
  {
    if !Scannable(e) then Err(BadArgument)
    else if maxSize < 0 then Err(Overflow)
    else if addr == 0 then Err(NullArgument)
    else if !Mapped(m, addr, maxSize) then Err(AccessViolation)
    else
      var bs := Load(m, addr, maxSize);
      ComparedScanOneByte(e, bs);
      ComparedScanFirst(bs, Terminator(e));
      var buffer :- ComparedScan(bs, Terminator(e), 0);
      Ok(codec.getString(e, buffer))
  }

  /** The bounded read with the stride scanner for fixed-width encodings,
      as the commented-out loop and the cross-process reader do. For UTF-16
      it keeps the whole units before the first aligned `00 00`, all of an
      even-length buffer without one, and indexes past the end of an
      odd-length buffer without one. */
  function ReadStringBounded(m: Mem, e: Encoding, addr: int, maxSize: int, codec: TextCodec): (r: Result<string>)
    ensures !Scannable(e) ==> r == Err(BadArgument)
    ensures Scannable(e) && maxSize < 0 ==> r == Err(Overflow)
    ensures Scannable(e) && maxSize >= 0 && addr == 0 ==> r == Err(NullArgument)
    ensures Scannable(e) && maxSize >= 0 && addr != 0 && !Mapped(m, addr, maxSize) ==> r == Err(AccessViolation)
    ensures Scannable(e) && e != Unicode && maxSize >= 0 && addr != 0 && Mapped(m, addr, maxSize)
            ==> r == Ok(codec.getString(e, BeforeFirstZero(Load(m, addr, maxSize))))
    ensures e == Unicode && maxSize >= 0 && addr != 0 && Mapped(m, addr, maxSize) ==>
      var bs := Load(m, addr, maxSize);
      var n := FirstAlignedChunk(bs, [0, 0], 0);
      r == if AlignedMatch(bs, [0, 0], 0, n) || n * 2 == |bs| then Ok(codec.getString(Unicode, bs[..n * 2]))
           else Err(IndexOutOfRange)
  {
    if !Scannable(e) then Err(BadArgument)
    else if maxSize < 0 then Err(Overflow)
    else if addr == 0 then Err(NullArgument)
    else if !Mapped(m, addr, maxSize) then Err(AccessViolation)
    else
      var bs := Load(m, addr, maxSize);
      TerminatedPrefixOneByteWhen(e, bs);
      StrideScanFirst(bs, Terminator(e));
      var buffer :- TerminatedPrefix(e, bs);
      Ok(codec.getString(e, buffer))
  }

  /** The two bounded reads differ only for Unicode. */
  lemma BoundedReadsAgreeOffUnicode(m: Mem, e: Encoding, addr: int, maxSize: int, codec: TextCodec)
    requires e != Unicode
    ensures ReadStringBoundedAsWritten(m, e, addr, maxSize, codec) == ReadStringBounded(m, e, addr, maxSize, codec)
  {
    if Scannable(e) && maxSize >= 0 && addr != 0 && Mapped(m, addr, maxSize) {
      TerminatedPrefixOneByte(e, Load(m, addr, maxSize));
    }
  }

  /** `addr.ReadString(encoding)`: ASCII and Unicode go to the unbounded
      marshal readers; every other encoding goes to the bounded read with
      1024 bytes, which refuses all of them but UTF-8. The marshal readers
      return a null string for the null pointer: `None` here, while every
      string actually read is `Some`. */
  function ReadString(m: Mem, e: Encoding, addr: int, codec: TextCodec): (r: Result<Option<string>>)
    ensures r == Ok(None) <==> (e == ASCII || e == Unicode) && addr == 0
    ensures e == ASCII && addr != 0 ==> r == (match ScanMemory(m, addr, [0])
                                              case Ok(bs) => Ok(Some(codec.ansiString(bs)))
                                              case Err(err) => Err(err))
    ensures e == Unicode && addr != 0 ==> r == (match ScanMemory(m, addr, [0, 0])
                                                case Ok(bs) => Ok(Some(codec.getString(Unicode, bs)))
                                                case Err(err) => Err(err))
    ensures e == UTF8 ==> r == if addr == 0 then Err(NullArgument)
                               else if Mapped(m, addr, MaxStringSizeBytes)
                               then Ok(Some(codec.getString(UTF8, BeforeFirstZero(Load(m, addr, MaxStringSizeBytes)))))
                               else Err(AccessViolation)
    ensures !Scannable(e) ==> r == Err(BadArgument)
    ensures (e == ASCII || e == Unicode) && addr != 0 ==>
      (r.Err? <==> exists k: nat :: FaultsAtUnit(m, addr, Terminator(e), k))
    ensures (e == ASCII || e == Unicode) && addr != 0 ==>
      (r.Ok? <==> exists body, q: nat :: UnitsThenTerminator(m, addr, Terminator(e), body, q))
  {
    if (e == ASCII || e == Unicode) && addr == 0 then Ok(None)
    else if e == ASCII then
      assert Terminator(e) == [0];
      ScanMemoryFails(m, addr, [0]);
      ScanMemoryFound(m, addr, [0]);
      var bs :- ScanMemory(m, addr, [0]);
      Ok(Some(codec.ansiString(bs)))
    else if e == Unicode then
      assert Terminator(e) == [0, 0];
      ScanMemoryFails(m, addr, [0, 0]);
      ScanMemoryFound(m, addr, [0, 0]);
      var bs :- ScanMemory(m, addr, [0, 0]);
      Ok(Some(codec.getString(Unicode, bs)))
    else
      var s :- ReadStringBoundedAsWritten(m, e, addr, MaxStringSizeBytes, codec);
      Ok(Some(s))
  }

  /** `addr.WriteString(value, encoding, appendNul)`: the encoded value,
      then the encoded NUL when asked, stored byte for byte at addr. No
      encoding is refused. */
  function WriteString(m: Mem, e: Encoding, s: string, appendNul: bool, addr: int, codec: TextCodec): (r: Result<Mem>)
    ensures r.Ok? <==> Mapped(m, addr, |StringBytes(codec, e, s, appendNul)|)
    ensures r.Ok? ==> r.value.Keys == m.Keys
    ensures r.Ok? ==> Load(r.value, addr, |StringBytes(codec, e, s, appendNul)|) == StringBytes(codec, e, s, appendNul)
    ensures r.Ok? ==> forall a :: a in m && !(addr <= a < addr + |StringBytes(codec, e, s, appendNul)|) ==> r.value[a] == m[a]
    ensures r.Err? ==> r.error == AccessViolation
  {
    var bytes := StringBytes(codec, e, s, appendNul);
    if !Mapped(m, addr, |bytes|) then Err(AccessViolation)
    else
      LoadStore(m, addr, bytes);
      Ok(Store(m, addr, bytes))
  }

  /** The encoded body of `s` is `q` whole terminator units, none of them
      the terminator. */
  predicate CleanBody(codec: TextCodec, e: Encoding, s: string, q: nat)
    requires Scannable(e)
  {
    var body := codec.getBytes(e, s);
    |body| == q * |Terminator(e)|
    && forall p :: 0 <= p < q ==> !ChunkIs(body, Terminator(e), p * |Terminator(e)|)
  }

  /** Round trip: a string written with its terminator reads back through
      the bounded read, when the buffer covers the body and terminator,
      except at the null pointer, which the read refuses. */
  lemma BoundedReadAfterWrite(m: Mem, e: Encoding, s: string, addr: int, maxSize: nat, codec: TextCodec, q: nat)
    requires Scannable(e) && Faithful(codec) && CleanBody(codec, e, s, q)
    requires |codec.getBytes(e, s)| + |Terminator(e)| <= maxSize && Mapped(m, addr, maxSize)
    ensures WriteString(m, e, s, true, addr, codec).Ok?
    ensures ReadStringBounded(WriteString(m, e, s, true, addr, codec).value, e, addr, maxSize, codec)
         == if addr == 0 then Err(NullArgument) else Ok(codec.getString(e, codec.getBytes(e, s)))
  {
    var rest := WrittenBuffer(m, e, s, addr, maxSize, codec);
    TerminatedPrefixOfWritten(e, codec.getBytes(e, s), rest, q);
  }

  /** The `maxSize` bytes at a string written with its terminator: the
      encoded body, the terminator, then whatever followed. */
  lemma WrittenBuffer(m: Mem, e: Encoding, s: string, addr: int, maxSize: nat, codec: TextCodec) returns (rest: seq<byte>)
    requires Scannable(e) && Faithful(codec)
    requires |codec.getBytes(e, s)| + |Terminator(e)| <= maxSize && Mapped(m, addr, maxSize)
    ensures WriteString(m, e, s, true, addr, codec).Ok?
    ensures Mapped(WriteString(m, e, s, true, addr, codec).value, addr, maxSize)
    ensures Load(WriteString(m, e, s, true, addr, codec).value, addr, maxSize) == codec.getBytes(e, s) + Terminator(e) + rest
  {
    var bytes := StringBytes(codec, e, s, true);
    assert bytes == codec.getBytes(e, s) + Terminator(e);
    var m' := WriteString(m, e, s, true, addr, codec).value;
    assert m'.Keys == m.Keys;
    var bs := Load(m', addr, maxSize);
    LoadPrefix(m', addr, maxSize, |bytes|);
    SplitAfter(bs, bytes);
    rest := bs[|bytes|..];
  }

  /** Round trip through the encoding-only read for the encodings it
      sends to the unbounded marshal readers; at the null pointer they
      return the null string. */
  lemma ReadStringAfterWrite(m: Mem, e: Encoding, s: string, addr: int, codec: TextCodec, q: nat)
    requires (e == ASCII || e == Unicode) && Faithful(codec) && CleanBody(codec, e, s, q)
    requires Mapped(m, addr, |codec.getBytes(e, s)| + |Terminator(e)|)
    ensures WriteString(m, e, s, true, addr, codec).Ok?
    ensures ReadString(WriteString(m, e, s, true, addr, codec).value, e, addr, codec)
         == if addr == 0 then Ok(None)
            else Ok(Some(if e == ASCII then codec.ansiString(codec.getBytes(e, s))
                         else codec.getString(e, codec.getBytes(e, s))))
  {
    var body := codec.getBytes(e, s);
    var t := Terminator(e);
    assert StringBytes(codec, e, s, true) == body + t;
    var m' := WriteString(m, e, s, true, addr, codec).value;
    ScanMemoryOfWritten(m', addr, t, body, q);
  }

  /** The Unicode hazard of the written bounded read: "AB" in UTF-16 is
      `41 00 42 00`; written with its terminator and read back through a
      six-byte bounded read, the compared-count scanner stops at the `00 00`
      formed by the high byte of 'B' and the first terminator byte, so
      three bytes are decoded, while the stride scanner keeps all four. */
  lemma Utf16ReadBackTruncated(m: Mem, s: string, addr: int, codec: TextCodec)
    requires Faithful(codec) && codec.getBytes(Unicode, s) == [0x41, 0x00, 0x42, 0x00]
    requires addr != 0 && Mapped(m, addr, 6)
    ensures WriteString(m, Unicode, s, true, addr, codec).Ok?
    ensures ReadStringBoundedAsWritten(WriteString(m, Unicode, s, true, addr, codec).value, Unicode, addr, 6, codec)
         == Ok(codec.getString(Unicode, [0x41, 0x00, 0x42]))
    ensures ReadStringBounded(WriteString(m, Unicode, s, true, addr, codec).value, Unicode, addr, 6, codec)
         == Ok(codec.getString(Unicode, [0x41, 0x00, 0x42, 0x00]))
  {
    Utf16Written(m, s, addr, codec);
    ScannersDisagreeOnUtf16();
  }

  /** Writing "AB" as terminated UTF-16 leaves its six bytes in memory. */
  lemma Utf16Written(m: Mem, s: string, addr: int, codec: TextCodec)
    requires Faithful(codec) && codec.getBytes(Unicode, s) == [0x41, 0x00, 0x42, 0x00]
    requires Mapped(m, addr, 6)
    ensures WriteString(m, Unicode, s, true, addr, codec).Ok?
    ensures Load(WriteString(m, Unicode, s, true, addr, codec).value, addr, 6) == [0x41, 0x00, 0x42, 0x00, 0x00, 0x00]
  {
    var bytes := StringBytes(codec, Unicode, s, true);
    assert bytes == [0x41, 0x00, 0x42, 0x00, 0x00, 0x00];
  }
}

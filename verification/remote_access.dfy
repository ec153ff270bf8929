/** Typed access to another process's address space (`ProcessExtensions`).
    Every access is one `ReadProcessMemory` or `WriteProcessMemory` call;
    the OS report of each call is a parameter. */
module RemoteAccess {
  import opened Wrappers
  import opened Bytes
  import opened Memory
  import opened Codec
  import opened Text
  import LocalAccess
  import opened Seqs

  /** Bytes a typed read transfers: `SystemDefaultCharSize` for `char`,
      `Marshal.SizeOf(T)` otherwise (so 4 for `bool`). */
  function ReadSize(t: TypeTag, w: PtrWidth): nat
  {
    if t == Char then SystemDefaultCharSize else MarshalSize(t, w)
  }

  lemma ReadSizeCovers(t: TypeTag, w: PtrWidth)
    ensures ReadSize(t, w) >= NativeSize(t, w)
    ensures t != Boolean ==> ReadSize(t, w) == NativeSize(t, w)
  {
  }

  /** `proc.Read<T>(addr)`: transfer `ReadSize` bytes, check the call and
      the count, then decode; any other struct is refused only after the
      transfer. */
  function Read(m: Mem, t: TypeTag, w: PtrWidth, addr: int, xfer: Transfer): (r: Result<Value>)
    ensures r.Ok? <==> xfer.succeeded && xfer.count == ReadSize(t, w) && Mapped(m, addr, ReadSize(t, w)) && !t.Struct?
    ensures !xfer.succeeded ==> r == Err(Win32)
    ensures xfer.succeeded && xfer.count != ReadSize(t, w) ==> r == Err(ShortTransfer)
    ensures t.Struct? && xfer.succeeded && xfer.count == ReadSize(t, w) && Mapped(m, addr, ReadSize(t, w))
            ==> r == Err(NotSupported)
    ensures r.Ok? ==> r.value.tag == t && WellFormed(r.value, w)
    ensures r.Ok? && t != Boolean ==> Encode(r.value, w) == Load(m, addr, NativeSize(t, w))
    ensures r.Ok? && t == Boolean ==> (r.value.n == 1 <==> m[addr] != 0)
  {
    var bs :- ReadProcessMemory(m, addr, ReadSize(t, w), xfer);
    if t.Struct? then Err(NotSupported)
    else
      ReadSizeCovers(t, w);
      EncodeDecodeUnlessBoolean(t, bs, w);
      Ok(Decode(t, bs, w))
  }

  /** `proc.Write<T>(addr, v)`: `sizeof(T)` bytes (an `IntPtr` as Int32 or
      Int64 by pointer size) in one transfer; any other struct is refused
      before anything is written. */
  function Write(m: Mem, v: Value, w: PtrWidth, addr: int, xfer: Transfer): (r: Result<Mem>)
    requires WellFormed(v, w)
    ensures v.tag.Struct? ==> r == Err(BadArgument)
    ensures !v.tag.Struct? ==>
      (r.Ok? <==> xfer.succeeded && xfer.count == NativeSize(v.tag, w) && Mapped(m, addr, NativeSize(v.tag, w)))
    ensures !v.tag.Struct? && r.Err? ==> r.error == Win32
    ensures r.Ok? ==> r.value.Keys == m.Keys
    ensures r.Ok? ==> Load(r.value, addr, NativeSize(v.tag, w)) == Encode(v, w)
    ensures r.Ok? ==> forall a :: a in m && !(addr <= a < addr + NativeSize(v.tag, w)) ==> r.value[a] == m[a]
  {
    if v.tag.Struct? then Err(BadArgument)
    else
      LoadStore(m, addr, Encode(v, w));
      WriteProcessMemory(m, addr, Encode(v, w), xfer)
  }

  /** Round trip: a value written and then read at the same address comes
      back, when both transfers complete and the read range is mapped (a
      `bool` is written as 1 byte and read as 4). */
  lemma ReadAfterWrite(m: Mem, v: Value, w: PtrWidth, addr: int)
    requires WellFormed(v, w) && !v.tag.Struct? && Mapped(m, addr, ReadSize(v.tag, w))
    ensures Write(m, v, w, addr, Transfer(true, NativeSize(v.tag, w))).Ok?
    ensures Read(Write(m, v, w, addr, Transfer(true, NativeSize(v.tag, w))).value, v.tag, w, addr,
                 Transfer(true, ReadSize(v.tag, w))) == Ok(v)
  {
    ReadSizeCovers(v.tag, w);
    var e := Encode(v, w);
    var n := ReadSize(v.tag, w);
    var m' := Store(m, addr, e);
    assert Write(m, v, w, addr, Transfer(true, NativeSize(v.tag, w))) == Ok(m');
    LoadStore(m, addr, e);
    LoadPrefix(m', addr, n, |e|);
    var bs := Load(m', addr, n);
    SplitAfter(bs, e);
    DecodeEncodeValue(v, w, bs[|e|..]);
    assert ReadProcessMemory(m', addr, n, Transfer(true, n)) == Ok(bs);
  }

  /** A cross-process read of the caller's own memory agrees with the
      pointer read, for every primitive type. */
  lemma ReadMatchesLocal(m: Mem, t: TypeTag, w: PtrWidth, addr: int)
    requires !t.Struct? && Mapped(m, addr, ReadSize(t, w))
    ensures Read(m, t, w, addr, Transfer(true, ReadSize(t, w))) == LocalAccess.Read(m, t, w, addr)
  {
    ReadSizeCovers(t, w);
    var bs := Load(m, addr, ReadSize(t, w));
    LoadSlice(m, addr, ReadSize(t, w), 0, NativeSize(t, w));
    assert bs[..NativeSize(t, w)] == Load(m, addr, NativeSize(t, w))[..NativeSize(t, w)];
    DecodePrefix(t, bs, Load(m, addr, NativeSize(t, w)), w);
  }

  /** `proc.ReadArray<T>(addr, count)` as written: the staging buffer and
      the transfer are `count * Marshal.SizeOf(T)` bytes (a negative size
      makes `AllocHGlobal` fail before any transfer), the element type is
      checked only after the transfer, and the elements are copied out at
      `sizeof(T)` each; for `char` the second half of the copy comes from
      past the end of the staging buffer, whose contents `heap` gives. */
  function ReadArrayAsWritten(m: Mem, t: TypeTag, count: int, w: PtrWidth, addr: int, xfer: Transfer, heap: int -> byte)
    : (r: Result<seq<Value>>)
    ensures count < 0 ==> r == Err(OutOfMemory)
    ensures r.Ok? <==> count >= 0 && xfer.succeeded && xfer.count == count * MarshalSize(t, w)
                       && Mapped(m, addr, count * MarshalSize(t, w)) && ArrayTag(t)
    ensures !ArrayTag(t) && count >= 0 ==>
      (xfer.succeeded && xfer.count == count * MarshalSize(t, w) && Mapped(m, addr, count * MarshalSize(t, w))
       ==> r == Err(BadArgument))
    ensures r.Ok? ==> |r.value| == count && Uniform(r.value, t, w)
  {
    if count < 0 then Err(OutOfMemory)
    else
      var size := count * MarshalSize(t, w);
      var bs :- ReadProcessMemory(m, addr, size, xfer);
      if !ArrayTag(t) then Err(BadArgument)
      else
        MarshalAtMost(t, w);
        MulMono(MarshalSize(t, w), NativeSize(t, w), count);
        SpanIsProduct(count, NativeSize(t, w));
        Ok(Unpack(bs + Stale(heap, count * NativeSize(t, w) - size), t, count, w))
  }

  /** The first n bytes past the end of a staging buffer. */
  function Stale(heap: int -> byte, n: nat): (r: seq<byte>)
    ensures |r| == n && forall k :: 0 <= k < n ==> r[k] == heap(k)
  {
    seq(n, k => heap(k))
  }

  /** `proc.ReadArray<T>(addr, count)` with the transfer sized by `sizeof(T)`. */
  function ReadArray(m: Mem, t: TypeTag, count: int, w: PtrWidth, addr: int, xfer: Transfer): (r: Result<seq<Value>>)
    ensures count < 0 ==> r == Err(OutOfMemory)
    ensures r.Ok? <==> count >= 0 && xfer.succeeded && xfer.count == count * NativeSize(t, w)
                       && Mapped(m, addr, count * NativeSize(t, w)) && ArrayTag(t)
    ensures !ArrayTag(t) && count >= 0 ==>
      (xfer.succeeded && xfer.count == count * NativeSize(t, w) && Mapped(m, addr, count * NativeSize(t, w))
       ==> r == Err(BadArgument))
    ensures r.Ok? ==> |r.value| == count && Uniform(r.value, t, w)
  {
    if count < 0 then Err(OutOfMemory)
    else
      var bs :- ReadProcessMemory(m, addr, count * NativeSize(t, w), xfer);
      if !ArrayTag(t) then Err(BadArgument)
      else
        SpanIsProduct(count, NativeSize(t, w));
        Ok(Unpack(bs, t, count, w))
  }

  /** `proc.WriteArray<T>(addr, vs)` as written: refused element types fail
      before any transfer; the transfer is `|vs| * Marshal.SizeOf(T)` bytes
      of the packed array, so for `char` only its first half. */
  function WriteArrayAsWritten(m: Mem, t: TypeTag, vs: seq<Value>, w: PtrWidth, addr: int, xfer: Transfer): (r: Result<Mem>)
    requires Uniform(vs, t, w)
    ensures !ArrayTag(t) ==> r == Err(BadArgument)
    ensures ArrayTag(t) ==> (r.Ok? <==> xfer.succeeded && xfer.count == |vs| * MarshalSize(t, w)
                                        && Mapped(m, addr, |vs| * MarshalSize(t, w)))
    ensures ArrayTag(t) && r.Err? ==> r.error == Win32
  {
    if !ArrayTag(t) then Err(BadArgument)
    else
      var size := |vs| * MarshalSize(t, w);
      MarshalAtMost(t, w);
      MulMono(MarshalSize(t, w), NativeSize(t, w), |vs|);
      SpanIsProduct(|vs|, NativeSize(t, w));
      WriteProcessMemory(m, addr, Pack(vs, t, w)[..size], xfer)
  }

  /** `proc.WriteArray<T>(addr, vs)` with the transfer sized by `sizeof(T)`. */
  function WriteArray(m: Mem, t: TypeTag, vs: seq<Value>, w: PtrWidth, addr: int, xfer: Transfer): (r: Result<Mem>)
    requires Uniform(vs, t, w)
    ensures !ArrayTag(t) ==> r == Err(BadArgument)
    ensures ArrayTag(t) ==> (r.Ok? <==> xfer.succeeded && xfer.count == |vs| * NativeSize(t, w)
                                        && Mapped(m, addr, |vs| * NativeSize(t, w)))
    ensures r.Ok? ==> r.value.Keys == m.Keys
    ensures r.Ok? ==> forall a :: a in m && !(addr <= a < addr + |vs| * NativeSize(t, w)) ==> r.value[a] == m[a]
    ensures ArrayTag(t) && r.Err? ==> r.error == Win32
  {
    if !ArrayTag(t) then Err(BadArgument)
    else
      SpanIsProduct(|vs|, NativeSize(t, w));
      WriteProcessMemory(m, addr, Pack(vs, t, w), xfer)
  }

  /** Round trip for arrays with complete transfers. */
  lemma ReadArrayAfterWriteArray(m: Mem, t: TypeTag, vs: seq<Value>, w: PtrWidth, addr: int)
    requires ArrayTag(t) && Uniform(vs, t, w) && Mapped(m, addr, |vs| * NativeSize(t, w))
    ensures WriteArray(m, t, vs, w, addr, Transfer(true, |vs| * NativeSize(t, w))).Ok?
    ensures ReadArray(WriteArray(m, t, vs, w, addr, Transfer(true, |vs| * NativeSize(t, w))).value,
                      t, |vs|, w, addr, Transfer(true, |vs| * NativeSize(t, w))) == Ok(vs)
  {
    ArrayWritten(m, t, vs, w, addr);
    UnpackPack(vs, t, w, []);
    AppendNothing(Pack(vs, t, w));
  }

  /** A complete array write leaves the packed array in memory. */
  lemma ArrayWritten(m: Mem, t: TypeTag, vs: seq<Value>, w: PtrWidth, addr: int)
    requires ArrayTag(t) && Uniform(vs, t, w) && Mapped(m, addr, |vs| * NativeSize(t, w))
    ensures var r := WriteArray(m, t, vs, w, addr, Transfer(true, |vs| * NativeSize(t, w)));
      && r.Ok? && Mapped(r.value, addr, |vs| * NativeSize(t, w))
      && Load(r.value, addr, |vs| * NativeSize(t, w)) == Pack(vs, t, w)
  {
    SpanIsProduct(|vs|, NativeSize(t, w));
    LoadStore(m, addr, Pack(vs, t, w));
  }

  /** For every element type but `char` the written array code and the
      corrected one coincide (for refused types the reads still differ in
      how much they transfer before refusing). */
  lemma ArraysAsWrittenAgree(m: Mem, t: TypeTag, vs: seq<Value>, count: int, w: PtrWidth, addr: int,
                             xfer: Transfer, heap: int -> byte)
    requires Uniform(vs, t, w) && t != Char
    ensures WriteArrayAsWritten(m, t, vs, w, addr, xfer) == WriteArray(m, t, vs, w, addr, xfer)
    ensures ArrayTag(t) ==> ReadArrayAsWritten(m, t, count, w, addr, xfer, heap) == ReadArray(m, t, count, w, addr, xfer)
  {
    WriteArraysAgree(m, t, vs, w, addr, xfer);
    if ArrayTag(t) {
      ReadArraysAgree(m, t, count, w, addr, xfer, heap);
    }
  }

  lemma WriteArraysAgree(m: Mem, t: TypeTag, vs: seq<Value>, w: PtrWidth, addr: int, xfer: Transfer)
    requires Uniform(vs, t, w) && t != Char
    ensures WriteArrayAsWritten(m, t, vs, w, addr, xfer) == WriteArray(m, t, vs, w, addr, xfer)
  {
    if ArrayTag(t) {
      MarshalAtMost(t, w);
      SpanIsProduct(|vs|, NativeSize(t, w));
      TakeAll(Pack(vs, t, w), |vs| * MarshalSize(t, w));
    }
  }

  lemma ReadArraysAgree(m: Mem, t: TypeTag, count: int, w: PtrWidth, addr: int, xfer: Transfer, heap: int -> byte)
    requires ArrayTag(t) && t != Char
    ensures ReadArrayAsWritten(m, t, count, w, addr, xfer, heap) == ReadArray(m, t, count, w, addr, xfer)
  {
    if count >= 0 {
      MarshalAtMost(t, w);
      var r := ReadProcessMemory(m, addr, count * NativeSize(t, w), xfer);
      assert Stale(heap, 0) == [];
      if r.Ok? {
        AppendNothing(r.value);
      }
    }
  }



  /** The char array hazard across processes: ['䉁'] written over zeroed
      memory transfers one byte, and reading it back transfers one byte and
      takes the high byte from the stale staging heap (here zero), giving
      ['A'] (0x41). */
  lemma CharArrayRoundTripFails(m: Mem, w: PtrWidth, addr: int, heap: int -> byte)
    requires Mapped(m, addr, 1) && heap(0) == 0
    ensures WriteArrayAsWritten(m, Char, [Value(Char, 0x4241)], w, addr, Transfer(true, 1)).Ok?
    ensures ReadArrayAsWritten(WriteArrayAsWritten(m, Char, [Value(Char, 0x4241)], w, addr, Transfer(true, 1)).value,
                               Char, 1, w, addr, Transfer(true, 1), heap)
         == Ok([Value(Char, 0x41)])
  {
    var v := Value(Char, 0x4241);
    LocalAccess.PackOneChar(v, w);
    var m' := Store(m, addr, [0x41]);
    assert WriteArrayAsWritten(m, Char, [v], w, addr, Transfer(true, 1)) == Ok(m');
    assert Load(m', addr, 1) == [0x41];
    assert ReadProcessMemory(m', addr, 1, Transfer(true, 1)) == Ok([0x41]);
    var buf := [0x41 as byte] + Stale(heap, 1);
    assert buf == [0x41, 0];
    LocalAccess.DecodeLowByte(buf, w);
    assert ReadArrayAsWritten(m', Char, 1, w, addr, Transfer(true, 1), heap) == Ok(Unpack(buf, Char, 1, w));
  }

  /** `proc.ReadString(addr, encoding, maxSize)`: refuse all but UTF-8,
      Unicode and ASCII before reading, read a `byte[maxSize]` array (a
      negative size fails in `AllocHGlobal`), keep the bytes before the
      terminator (compared-count scan for UTF-8, stride scan otherwise) and
      decode them. The source's default `maxSize` is 1024. */
  function ReadString(m: Mem, e: Encoding, addr: int, maxSize: int, xfer: Transfer, codec: TextCodec): (r: Result<string>)
    ensures !Scannable(e) ==> r == Err(BadArgument)
    ensures Scannable(e) && maxSize < 0 ==> r == Err(OutOfMemory)
    ensures r.Ok? ==> maxSize >= 0 && xfer.succeeded && xfer.count == maxSize && Mapped(m, addr, maxSize)
    ensures Scannable(e) && e != Unicode && maxSize >= 0 && xfer == Transfer(true, maxSize) && Mapped(m, addr, maxSize)
            ==> r == Ok(codec.getString(e, BeforeFirstZero(Load(m, addr, maxSize))))
    ensures e == Unicode && maxSize >= 0 && xfer == Transfer(true, maxSize) && Mapped(m, addr, maxSize) ==>
      var bs := Load(m, addr, maxSize);
      var n := FirstAlignedChunk(bs, [0, 0], 0);
      r == if AlignedMatch(bs, [0, 0], 0, n) || n * 2 == |bs| then Ok(codec.getString(Unicode, bs[..n * 2]))
           else Err(IndexOutOfRange)
  {
    if !Scannable(e) then Err(BadArgument)
    else if maxSize < 0 then Err(OutOfMemory)
    else
      var bs :- ReadProcessMemory(m, addr, maxSize, xfer);
      TerminatedPrefixOneByteWhen(e, bs);
      StrideScanFirst(bs, Terminator(e));
      var buffer :- TerminatedPrefix(e, bs);
      Ok(codec.getString(e, buffer))
  }

  /** `proc.WriteString(addr, value, encoding, appendNul)`: the encoded value
      and, when asked, the encoded NUL, as one byte-array transfer. No
      encoding is refused. */
  function WriteString(m: Mem, e: Encoding, s: string, appendNul: bool, addr: int, xfer: Transfer, codec: TextCodec)
    : (r: Result<Mem>)
    ensures r.Ok? <==> xfer.succeeded && xfer.count == |StringBytes(codec, e, s, appendNul)|
                       && Mapped(m, addr, |StringBytes(codec, e, s, appendNul)|)
    ensures r.Ok? ==> r.value.Keys == m.Keys
    ensures r.Ok? ==> Load(r.value, addr, |StringBytes(codec, e, s, appendNul)|) == StringBytes(codec, e, s, appendNul)
    ensures r.Ok? ==> forall a :: a in m && !(addr <= a < addr + |StringBytes(codec, e, s, appendNul)|) ==> r.value[a] == m[a]
    ensures r.Err? ==> r.error == Win32
  {
    var bytes := StringBytes(codec, e, s, appendNul);
    LoadStore(m, addr, bytes);
    WriteProcessMemory(m, addr, bytes, xfer)
  }

  /** Round trip: a string written with its terminator reads back when the
      read bound covers body and terminator and both transfers complete. */
  lemma ReadStringAfterWrite(m: Mem, e: Encoding, s: string, addr: int, maxSize: nat, codec: TextCodec, q: nat)
    requires Scannable(e) && Faithful(codec)
    requires |codec.getBytes(e, s)| == q * |Terminator(e)|
    requires forall p :: 0 <= p < q ==> !ChunkIs(codec.getBytes(e, s), Terminator(e), p * |Terminator(e)|)
    requires |codec.getBytes(e, s)| + |Terminator(e)| <= maxSize && Mapped(m, addr, maxSize)
    ensures var n := |codec.getBytes(e, s)| + |Terminator(e)|;
      && WriteString(m, e, s, true, addr, Transfer(true, n), codec).Ok?
      && ReadString(WriteString(m, e, s, true, addr, Transfer(true, n), codec).value, e, addr, maxSize,
                    Transfer(true, maxSize), codec)
         == Ok(codec.getString(e, codec.getBytes(e, s)))
  {
    var body := codec.getBytes(e, s);
    var t := Terminator(e);
    var bytes := StringBytes(codec, e, s, true);
    assert bytes == body + t;
    var m' := Store(m, addr, bytes);
    var bs := Load(m', addr, maxSize);
    LoadPrefix(m', addr, maxSize, |bytes|);
    LoadStore(m, addr, bytes);
    SplitAfter(bs, bytes);
    TerminatedPrefixOfWritten(e, body, bs[|bytes|..], q);
  }

  /** A cross-process bounded string read of the caller's own memory
      agrees with the corrected pointer read, away from the null pointer
      the pointer read refuses. */
  lemma ReadStringMatchesLocal(m: Mem, e: Encoding, addr: int, maxSize: nat, codec: TextCodec)
    requires addr != 0 && Mapped(m, addr, maxSize)
    ensures ReadString(m, e, addr, maxSize, Transfer(true, maxSize), codec)
         == LocalAccess.ReadStringBounded(m, e, addr, maxSize, codec)
  {
  }
}

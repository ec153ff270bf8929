/** The primitive codec: the closed set of value types the accessors switch
    on (`Type.GetTypeCode` plus the `IntPtr` special case), their byte widths,
    and their little-endian layouts. */
module Codec {
  import opened Bytes
  import opened Seqs

  /** The bitness of the process: `IntPtr.Size`. */
  datatype PtrWidth = Ptr32 | Ptr64 {
    function Size(): nat
    {
      if Ptr32? then 4 else 8
    }
  }

  /** The type argument `T` of an accessor. `Struct(size)` stands for every
      struct outside the primitive set, with its marshalled size. */
  datatype TypeTag =
    | Boolean | Char | SByte | Byte | Int16 | UInt16 | Int32 | UInt32
    | Int64 | UInt64 | Single | Double | IntPtr | Struct(size: nat)

  /** `sizeof(T)`: the width of a raw pointer store and of `BitConverter.GetBytes`. */
  function NativeSize(t: TypeTag, w: PtrWidth): nat
  {
    match t
    case Boolean => 1
    case Char => 2
    case SByte => 1
    case Byte => 1
    case Int16 => 2
    case UInt16 => 2
    case Int32 => 4
    case UInt32 => 4
    case Int64 => 8
    case UInt64 => 8
    case Single => 4
    case Double => 8
    case IntPtr => w.Size()
    case Struct(s) => s
  }

  /** `Marshal.SizeOf(typeof(T))`: it differs from `sizeof(T)` for `bool`,
      marshalled as a 4-byte Win32 BOOL, and for `char`, marshalled as a
      1-byte ANSI character. */
  function MarshalSize(t: TypeTag, w: PtrWidth): nat
  {
    match t
    case Boolean => 4
    case Char => 1
    case _ => NativeSize(t, w)
  }

  /** `Marshal.SystemDefaultCharSize` on Windows. */
  const SystemDefaultCharSize: nat := 2

  predicate Signed(t: TypeTag)
  {
    t.SByte? || t.Int16? || t.Int32? || t.Int64? || t.IntPtr?
  }

  /** The element types `ReadArray`/`WriteArray` accept: those with a
      `Marshal.Copy` overload. Unsigned integers, `bool`, `sbyte`, `IntPtr`
      and other structs are refused. */
  predicate ArrayTag(t: TypeTag)
  {
    t.Byte? || t.Char? || t.Int16? || t.Int32? || t.Int64? || t.Single? || t.Double?
  }

  /** An array element is never wider when marshalled than in memory;
      only `char` is narrower. */
  lemma MarshalAtMost(t: TypeTag, w: PtrWidth)
    requires ArrayTag(t)
    ensures MarshalSize(t, w) <= NativeSize(t, w)
    ensures t != Char ==> MarshalSize(t, w) == NativeSize(t, w)
  {
  }

  /** A value of type `tag`. `n` is its numeric value: 0 or 1 for `bool`,
      the UTF-16 code unit for `char`, the IEEE 754 bit pattern for
      `float`/`double` (not interpreted), and the raw bytes read as an
      unsigned little-endian number for other structs. */
  datatype Value = Value(tag: TypeTag, n: int)

  /** `v.n` is a value the type `v.tag` can hold. */
  predicate WellFormed(v: Value, w: PtrWidth)
  {
    var s := NativeSize(v.tag, w);
    if v.tag == Boolean then v.n == 0 || v.n == 1
    else if Signed(v.tag) then InSigned(v.n, s)
    else 0 <= v.n < Pow256(s)
  }

  lemma SignedWidths(t: TypeTag, w: PtrWidth)
    requires Signed(t)
    ensures NativeSize(t, w) >= 1
  {
  }

  /** The bytes a store of `v` writes: `sizeof(T)` bytes holding the value
      in two's complement, least significant byte first. */
  function Encode(v: Value, w: PtrWidth): (r: seq<byte>)
    requires WellFormed(v, w)
    ensures |r| == NativeSize(v.tag, w)
    ensures DecodeLE(r) == Wrap(v.n, |r|)
  {
    var s := NativeSize(v.tag, w);
    DecodeEncode(Wrap(v.n, s), s);
    EncodeLE(Wrap(v.n, s), s)
  }

  /** The value of type `t` held by the first `sizeof(T)` bytes of `bs`.
      A `bool` is true when its byte is non-zero (`BitConverter.ToBoolean`). */
  function Decode(t: TypeTag, bs: seq<byte>, w: PtrWidth): (v: Value)
    requires |bs| >= NativeSize(t, w)
    ensures v.tag == t && WellFormed(v, w)
  {
    var s := NativeSize(t, w);
    var u := DecodeLE(bs[..s]);
    if t == Boolean then Value(t, if bs[0] != 0 then 1 else 0)
    else if Signed(t) then
      SignedWidths(t, w);
      HalfTwice(s);
      Value(t, ToSigned(u, s))
    else Value(t, u)
  }

  /** Round trip: decoding the bytes a value was encoded to, whatever
      follows them, gives the value back. */
  lemma DecodeEncodeValue(v: Value, w: PtrWidth, rest: seq<byte>)
    requires WellFormed(v, w)
    ensures Decode(v.tag, Encode(v, w) + rest, w) == v
  {
    var s := NativeSize(v.tag, w);
    var e := Encode(v, w);
    assert (e + rest)[..s] == e;
    if v.tag == Boolean {
      assert e == EncodeLE(v.n, 1);
    } else if Signed(v.tag) {
      SignedWidths(v.tag, w);
      WrapSignedInRange(v.n, s);
    } else {
      ModUnique(v.n, Pow256(s), 0, v.n);
    }
  }

  /** The other direction: every byte pattern of a non-`bool` type is the
      encoding of the value it decodes to (a `bool` normalises to 0 or 1). */
  lemma EncodeDecodeValue(t: TypeTag, bs: seq<byte>, w: PtrWidth)
    requires t != Boolean && |bs| == NativeSize(t, w)
    ensures Encode(Decode(t, bs, w), w) == bs
  {
    var s := |bs|;
    var u := DecodeLE(bs);
    assert bs[..s] == bs;
    EncodeDecode(bs);
    if Signed(t) {
      SignedWidths(t, w);
      WrapToSigned(u, s);
    } else {
      ModUnique(u, Pow256(s), 0, u);
    }
  }

  lemma EncodeDecodeUnlessBoolean(t: TypeTag, bs: seq<byte>, w: PtrWidth)
    requires |bs| >= NativeSize(t, w)
    ensures t != Boolean ==> Encode(Decode(t, bs, w), w) == bs[..NativeSize(t, w)]
  {
    if t != Boolean {
      var n := NativeSize(t, w);
      assert bs[..n][..n] == bs[..n];
      DecodePrefix(t, bs, bs[..n], w);
      EncodeDecodeValue(t, bs[..n], w);
    }
  }

  /** Every element of `vs` is a well-formed value of type `t`: a `T[]`. */
  predicate Uniform(vs: seq<Value>, t: TypeTag, w: PtrWidth)
  {
    forall i :: 0 <= i < |vs| ==> vs[i].tag == t && WellFormed(vs[i], w)
  }

  /** The bytes taken by `count` items of `s` bytes each, as a repeated sum:
      `SpanIsProduct` shows it is `count * s`. Array layouts are stated with
      it so that their proofs need no non-linear arithmetic. */
  function Span(count: nat, s: nat): nat
  {
    if count == 0 then 0 else Span(count - 1, s) + s
  }

  lemma {:induction false} SpanIsProduct(count: nat, s: nat)
    ensures Span(count, s) == count * s
  {
    if count > 0 {
      SpanIsProduct(count - 1, s);
      MulStep(count - 1, s);
    }
  }

  /** The contiguous layout of an array: each element's encoding in order. */
  function Pack(vs: seq<Value>, t: TypeTag, w: PtrWidth): (r: seq<byte>)
    requires Uniform(vs, t, w)
    ensures |r| == Span(|vs|, NativeSize(t, w))
  {
    if |vs| == 0 then []
    else Encode(vs[0], w) + Pack(vs[1..], t, w)
  }

  /** The `count` elements of type `t` stored contiguously at the start of `bs`. */
  function Unpack(bs: seq<byte>, t: TypeTag, count: nat, w: PtrWidth): (r: seq<Value>)
    requires |bs| >= Span(count, NativeSize(t, w))
    ensures |r| == count && Uniform(r, t, w)
  {
    if count == 0 then []
    else
      var s := NativeSize(t, w);
      [Decode(t, bs[..s], w)] + Unpack(bs[s..], t, count - 1, w)
  }

  /** Decoding looks at the first `sizeof(T)` bytes only. */
  lemma DecodePrefix(t: TypeTag, a: seq<byte>, b: seq<byte>, w: PtrWidth)
    requires |a| >= NativeSize(t, w) && |b| >= NativeSize(t, w)
    requires a[..NativeSize(t, w)] == b[..NativeSize(t, w)]
    ensures Decode(t, a, w) == Decode(t, b, w)
  {
    if t == Boolean {
      assert a[0] == a[..1][0] == b[..1][0] == b[0];
    }
  }

  /** Element i of an unpacked array is decoded from the bytes that start
      after i elements. */
  lemma {:induction false} UnpackAt(bs: seq<byte>, t: TypeTag, count: nat, w: PtrWidth, i: nat)
    requires |bs| >= Span(count, NativeSize(t, w)) && i < count
    ensures Span(i, NativeSize(t, w)) + NativeSize(t, w) <= |bs|
    ensures Unpack(bs, t, count, w)[i] == Decode(t, bs[Span(i, NativeSize(t, w))..], w)
    decreases i
  {
    var s := NativeSize(t, w);
    if i == 0 {
      UnpackFirst(bs, t, count, w);
    } else {
      var rest := bs[s..];
      var fewer: nat := count - 1;
      assert |rest| >= Span(fewer, NativeSize(t, w)) && i - 1 < fewer by { SpanNext(bs, count, s); }
      UnpackAt(rest, t, fewer, w, i - 1);
      UnpackAtStep(bs, t, count, w, i);
    }
  }

  /** Room for count > 0 items leaves room for count - 1 after the first. */
  lemma SpanNext(bs: seq<byte>, count: nat, s: nat)
    requires |bs| >= Span(count, s) && count > 0
    ensures s <= |bs| && |bs[s..]| >= Span(count - 1, s)
  {
  }

  /** Element i - 1 after the first element, placed in the whole array. */
  lemma UnpackAtStep(bs: seq<byte>, t: TypeTag, count: nat, w: PtrWidth, i: nat)
    requires |bs| >= Span(count, NativeSize(t, w)) && 0 < i < count
    requires NativeSize(t, w) <= |bs| && |bs[NativeSize(t, w)..]| >= Span(count - 1, NativeSize(t, w))
    requires Span(i - 1, NativeSize(t, w)) + NativeSize(t, w) <= |bs[NativeSize(t, w)..]|
    requires Unpack(bs[NativeSize(t, w)..], t, count - 1, w)[i - 1]
      == Decode(t, bs[NativeSize(t, w)..][Span(i - 1, NativeSize(t, w))..], w)
    ensures Span(i, NativeSize(t, w)) + NativeSize(t, w) <= |bs|
    ensures Unpack(bs, t, count, w)[i] == Decode(t, bs[Span(i, NativeSize(t, w))..], w)
  {
    var s := NativeSize(t, w);
    var j := Span(i - 1, s);
    UnpackNext(bs, t, count, w, i);
    DropTwice(bs, s, j, j + s);
  }

  /** The first element is decoded from the start of the bytes. */
  lemma UnpackFirst(bs: seq<byte>, t: TypeTag, count: nat, w: PtrWidth)
    requires |bs| >= Span(count, NativeSize(t, w)) && 0 < count
    ensures Span(0, NativeSize(t, w)) == 0 && NativeSize(t, w) <= |bs|
    ensures Unpack(bs, t, count, w)[0] == Decode(t, bs, w)
  {
    var s := NativeSize(t, w);
    assert Unpack(bs, t, count, w)[0] == Decode(t, bs[..s], w);
    DecodePrefix(t, bs[..s], bs, w);
  }

  /** Element i > 0 is element i - 1 of the elements after the first. */
  lemma UnpackNext(bs: seq<byte>, t: TypeTag, count: nat, w: PtrWidth, i: nat)
    requires |bs| >= Span(count, NativeSize(t, w)) && 0 < i < count
    ensures NativeSize(t, w) <= |bs| && |bs[NativeSize(t, w)..]| >= Span(count - 1, NativeSize(t, w))
    ensures Span(i, NativeSize(t, w)) == Span(i - 1, NativeSize(t, w)) + NativeSize(t, w)
    ensures Unpack(bs, t, count, w)[i] == Unpack(bs[NativeSize(t, w)..], t, count - 1, w)[i - 1]
  {
  }


  /** Round trip for arrays: unpacking a packed array, whatever follows it,
      gives the array back. */
  lemma {:induction false} UnpackPack(vs: seq<Value>, t: TypeTag, w: PtrWidth, rest: seq<byte>)
    requires Uniform(vs, t, w)
    ensures |Pack(vs, t, w) + rest| >= Span(|vs|, NativeSize(t, w))
    ensures Unpack(Pack(vs, t, w) + rest, t, |vs|, w) == vs
  {
    if |vs| > 0 {
      UnpackPack(vs[1..], t, w, rest);
      UnpackPackStep(vs, t, w, rest);
    }
  }

  /** The round trip extends from the elements after the first to all of them. */
  lemma UnpackPackStep(vs: seq<Value>, t: TypeTag, w: PtrWidth, rest: seq<byte>)
    requires Uniform(vs, t, w) && 0 < |vs|
    requires Unpack(Pack(vs[1..], t, w) + rest, t, |vs| - 1, w) == vs[1..]
    ensures Unpack(Pack(vs, t, w) + rest, t, |vs|, w) == vs
  {
    var packed := Pack(vs[1..], t, w);
    assert Pack(vs, t, w) == Encode(vs[0], w) + packed;
    AppendAssoc(Encode(vs[0], w), packed, rest);
    UnpackFront(vs, t, w, packed + rest);
    ConsTail(vs);
  }

  /** Unpacking the first element's encoding followed by more bytes: that
      element, then the elements unpacked from the rest. */
  lemma UnpackFront(vs: seq<Value>, t: TypeTag, w: PtrWidth, more: seq<byte>)
    requires Uniform(vs, t, w) && 0 < |vs| && |more| >= Span(|vs| - 1, NativeSize(t, w))
    ensures |Encode(vs[0], w) + more| >= Span(|vs|, NativeSize(t, w))
    ensures Unpack(Encode(vs[0], w) + more, t, |vs|, w) == [vs[0]] + Unpack(more, t, |vs| - 1, w)
  {
    var e := Encode(vs[0], w);
    var s := NativeSize(t, w);
    assert (e + more)[s..] == more;
    assert (e + more)[..s] == e + [];
    DecodeEncodeValue(vs[0], w, []);
  }
}

/** Text encodings and the two terminator scanners the string readers use.

    A bounded string read copies a fixed number of bytes and keeps those
    before the encoding's NUL terminator. Two scanners exist: the stride
    scanner compares whole terminator-sized chunks at multiples of the
    terminator's width, and the compared-count scanner advances by however
    many bytes it compared before the first mismatch, so it can stop at an
    unaligned position. */
module Text {
  import opened Wrappers
  import opened Bytes
  import opened Seqs

  /** The encodings `System.Text.Encoding` exposes. `Unicode` is UTF-16 little endian. */
  datatype Encoding = ASCII | UTF7 | UTF8 | Unicode | BigEndianUnicode | UTF32

  /** The encodings a bounded string read accepts; the others are refused
      with an ArgumentException before anything is read. */
  predicate Scannable(e: Encoding)
  {
    e == UTF8 || e == Unicode || e == ASCII
  }

  /** `encoding.GetBytes("\0")` for a scannable encoding. */
  function Terminator(e: Encoding): (t: seq<byte>)
    requires Scannable(e)
    ensures ZeroTerminator(t)
    ensures |t| == (if e == Unicode then 2 else 1)
  {
    if e == Unicode then [0, 0] else [0]
  }

  /** A terminator of one or more zero bytes. */
  predicate ZeroTerminator(t: seq<byte>)
  {
    |t| >= 1 && forall k :: 0 <= k < |t| ==> t[k] == 0
  }

  /** The runtime's string conversions, which the model does not interpret:
      `Encoding.GetBytes`, `Encoding.GetString`, and the ANSI code-page
      conversion of `Marshal.PtrToStringAnsi`. */
  datatype TextCodec = TextCodec(
    getBytes: (Encoding, string) -> seq<byte>,
    getString: (Encoding, seq<byte>) -> string,
    ansiString: seq<byte> -> string)

  /** The codec agrees with `Terminator` on the NUL character. */
  predicate Faithful(codec: TextCodec)
  {
    forall e :: Scannable(e) ==> codec.getBytes(e, "\0") == Terminator(e)
  }

  /** The terminator occurs at k. */
  predicate ChunkIs(bs: seq<byte>, t: seq<byte>, k: nat)
  {
    k + |t| <= |bs| && bs[k..k + |t|] == t
  }

  /** The terminator occurs at chunk q of the stride grid that starts at i. */
  predicate AlignedMatch(bs: seq<byte>, t: seq<byte>, i: nat, q: nat)
  {
    ChunkIs(bs, t, i + q * |t|)
  }

  /** Outcome of comparing the terminator against the bytes at one position. */
  datatype Probe = Matched | Mismatch(compared: nat) | OutOfRange

  /** The inner loop of the compared-count scanner at position i: each byte
      is fetched (an index past the end throws) and then compared; the first
      difference ends the comparison after `compared` bytes. */
  function ProbeAt(bs: seq<byte>, t: seq<byte>, i: nat): (p: Probe)
    requires |t| >= 1 && i < |bs|
    ensures p.Matched? <==> ChunkIs(bs, t, i)
    ensures p.Mismatch? ==>
      1 <= p.compared <= |t| && i + p.compared <= |bs|
      && (forall k :: 0 <= k < p.compared - 1 ==> bs[i + k] == t[k])
      && bs[i + p.compared - 1] != t[p.compared - 1]
    ensures p.OutOfRange? ==> i + |t| > |bs| && bs[i..] == t[..|bs| - i]
  {
    ProbeFrom(bs, t, i, 0)
  }

  function ProbeFrom(bs: seq<byte>, t: seq<byte>, i: nat, j: nat): (p: Probe)
    requires j <= |t| && i + j <= |bs|
    requires bs[i..i + j] == t[..j]
    ensures p.Matched? <==> ChunkIs(bs, t, i)
    ensures p.Mismatch? ==>
      j < p.compared <= |t| && i + p.compared <= |bs|
      && (forall k :: 0 <= k < p.compared - 1 ==> bs[i + k] == t[k])
      && bs[i + p.compared - 1] != t[p.compared - 1]
    ensures p.OutOfRange? ==> i + |t| > |bs| && bs[i..] == t[..|bs| - i]
    decreases |t| - j
  {
    if j == |t| then
      assert t[..j] == t;
      Matched
    else if i + j >= |bs| then
      assert bs[i..] == bs[i..i + j];
      OutOfRange
    else if bs[i + j] != t[j] then
      Mismatch(j + 1)
    else
      assert bs[i..i + j + 1] == t[..j + 1] by {
        assert bs[i..i + j + 1] == bs[i..i + j] + [bs[i + j]];
        assert t[..j + 1] == t[..j] + [t[j]];
      }
      ProbeFrom(bs, t, i, j + 1)
  }

  /** The stride scanner (the loop of the non-UTF-8 branch): copy the
      terminator-sized chunk at i, stop if it is the terminator, otherwise
      keep it and move on by the terminator's width. A chunk that runs past
      the end throws. */
  function StrideScan(bs: seq<byte>, t: seq<byte>, i: nat): (r: Result<seq<byte>>)
    requires |t| >= 1
    ensures r.Ok? ==> i + |r.value| <= |bs| || |r.value| == 0
    ensures r.Err? ==> r.error == IndexOutOfRange
    decreases |bs| - i
  {
    if i >= |bs| then Ok([])
    else if i + |t| > |bs| then Err(IndexOutOfRange)
    else if bs[i..i + |t|] == t then Ok([])
    else
      var rest :- StrideScan(bs, t, i + |t|);
      Ok(bs[i..i + |t|] + rest)
  }

  /** The compared-count scanner (the UTF-8 branch, and every encoding in the
      pointer-based reader): after a mismatch, keep the bytes compared so far
      and resume right after them. */
  function ComparedScan(bs: seq<byte>, t: seq<byte>, i: nat): (r: Result<seq<byte>>)
    requires |t| >= 1
    ensures r.Ok? ==> i + |r.value| <= |bs| || |r.value| == 0
    ensures r.Err? ==> r.error == IndexOutOfRange
    decreases |bs| - i
  {
    if i >= |bs| then Ok([])
    else
      match ProbeAt(bs, t, i)
      case Matched => Ok([])
      case OutOfRange => Err(IndexOutOfRange)
      case Mismatch(c) =>
        var rest :- ComparedScan(bs, t, i + c);
        Ok(bs[i..i + c] + rest)
  }

  /** One step along the stride grid: when none of the first q chunks
      from i is the terminator, the chunk at i is not, and none of the
      first q - 1 chunks from the next grid point is either. */
  lemma StrideShift(bs: seq<byte>, t: seq<byte>, i: nat, j: nat, q: nat)
    requires |t| >= 1 && q >= 1 && j == i + |t|
    requires forall p :: 0 <= p < q ==> !AlignedMatch(bs, t, i, p)
    ensures !ChunkIs(bs, t, i)
    ensures j <= i + q * |t| == j + (q - 1) * |t|
    ensures forall p :: 0 <= p < q - 1 ==> !AlignedMatch(bs, t, j, p)
    ensures AlignedMatch(bs, t, i, q) ==> AlignedMatch(bs, t, j, q - 1) && i + q * |t| <= |bs|
  {
    assert !AlignedMatch(bs, t, i, 0);
    assert i + 0 * |t| == i;
    MulMono(1, q, |t|);
    MulStep(q - 1, |t|);
    forall p | 0 <= p < q - 1
      ensures !AlignedMatch(bs, t, j, p)
    {
      MulStep(p, |t|);
      assert !AlignedMatch(bs, t, i, p + 1);
    }
  }

  /** Stride scanner, first case: the first aligned terminator at chunk q
      ends the string, which is everything before it. */
  lemma {:induction false} StrideScanStopsAt(bs: seq<byte>, t: seq<byte>, i: nat, q: nat)
    requires |t| >= 1
    requires AlignedMatch(bs, t, i, q)
    requires forall p :: 0 <= p < q ==> !AlignedMatch(bs, t, i, p)
    ensures StrideScan(bs, t, i) == Ok(bs[i..i + q * |t|])
    decreases q
  {
    if q == 0 {
      assert i + q * |t| == i;
      StrideStopsHere(bs, t, i);
    } else {
      var j := i + |t|;
      StrideShift(bs, t, i, j, q);
      StrideScanStopsAt(bs, t, j, q - 1);
      StrideStopsNext(bs, t, i, j, q);
    }
  }

  /** The step of the first case: the chunk at i is kept in front of the
      q - 1 chunks the scan from the next grid point keeps. */
  lemma StrideStopsNext(bs: seq<byte>, t: seq<byte>, i: nat, j: nat, q: nat)
    requires |t| >= 1 && q >= 1 && j == i + |t| && !ChunkIs(bs, t, i)
    requires j <= i + q * |t| == j + (q - 1) * |t| <= |bs|
    requires StrideScan(bs, t, j) == Ok(bs[j..j + (q - 1) * |t|])
    ensures StrideScan(bs, t, i) == Ok(bs[i..i + q * |t|])
  {
    StrideKeep(bs, t, i, j, i + q * |t|);
  }

  /** Stride scanner, second case: no aligned terminator and the bytes
      divide into whole chunks, so every byte is kept. */
  lemma {:induction false} StrideScanWhole(bs: seq<byte>, t: seq<byte>, i: nat, q: nat)
    requires |t| >= 1
    requires i + q * |t| == |bs|
    requires forall p :: 0 <= p < q ==> !AlignedMatch(bs, t, i, p)
    ensures StrideScan(bs, t, i) == Ok(bs[i..])
    decreases q
  {
    if q > 0 {
      var j := i + |t|;
      StrideShift(bs, t, i, j, q);
      StrideScanWhole(bs, t, j, q - 1);
      assert bs[j..|bs|] == bs[j..];
      StrideKeep(bs, t, i, j, |bs|);
      assert bs[i..|bs|] == bs[i..];
    }
  }

  /** Stride scanner, third case: no aligned terminator and a partial chunk
      is left at the end, so the read throws. */
  lemma {:induction false} StrideScanRagged(bs: seq<byte>, t: seq<byte>, i: nat, q: nat)
    requires |t| >= 1
    requires i + q * |t| < |bs| < i + q * |t| + |t|
    requires forall p :: 0 <= p < q ==> !AlignedMatch(bs, t, i, p)
    ensures StrideScan(bs, t, i) == Err(IndexOutOfRange)
    decreases q
  {
    if q == 0 {
      assert i + 0 * |t| == i;
    } else {
      var j := i + |t|;
      StrideShift(bs, t, i, j, q);
      StrideScanRagged(bs, t, j, q - 1);
    }
  }

  /** The stride scanner stops at once on the terminator. */
  lemma StrideStopsHere(bs: seq<byte>, t: seq<byte>, i: nat)
    requires |t| >= 1 && ChunkIs(bs, t, i)
    ensures StrideScan(bs, t, i) == Ok(bs[i..i])
  {
    assert i < |bs| && bs[i..i + |t|] == t;
    assert bs[i..i] == [];
  }

  /** A chunk that is not the terminator is kept in front of whatever the
      scan from the next grid point keeps. */
  lemma StrideKeep(bs: seq<byte>, t: seq<byte>, i: nat, j: nat, e: nat)
    requires |t| >= 1 && j == i + |t| && j <= e <= |bs| && !ChunkIs(bs, t, i)
    requires StrideScan(bs, t, j) == Ok(bs[j..e])
    ensures StrideScan(bs, t, i) == Ok(bs[i..e])
  {
    SliceJoin(bs, i, j, e);
  }


  /** Every byte of an occurrence of a zero terminator is zero. */
  lemma ZeroAt(bs: seq<byte>, t: seq<byte>, k: nat, a: int)
    requires ZeroTerminator(t) && ChunkIs(bs, t, k)
    ensures k <= a < k + |t| ==> bs[a] == 0
  {
    if k <= a < k + |t| {
      assert bs[k..k + |t|][a - k] == t[a - k];
    }
  }

  /** Before an occurrence of a zero terminator, a probe mismatches, and
      the bytes it compared end before the occurrence. */
  lemma ProbeBeforeMatch(bs: seq<byte>, t: seq<byte>, i: nat, k: nat)
    requires ZeroTerminator(t)
    requires i < k && ChunkIs(bs, t, k) && !ChunkIs(bs, t, i)
    ensures ProbeAt(bs, t, i).Mismatch? && i + ProbeAt(bs, t, i).compared <= k
  {
    var c := ProbeAt(bs, t, i).compared;
    ZeroAt(bs, t, k, i + c - 1);
  }

  /** The compared-count scanner keeps nothing at an occurrence. */
  lemma ComparedScanAtMatch(bs: seq<byte>, t: seq<byte>, k: nat)
    requires |t| >= 1 && ChunkIs(bs, t, k)
    ensures ComparedScan(bs, t, k) == Ok(bs[k..k])
  {
    assert k < |bs|;
    assert ProbeAt(bs, t, k).Matched?;
    assert bs[k..k] == [];
    assert ComparedScan(bs, t, k) == Ok([]);
  }

  /** One step of the compared-count scanner past a mismatch. */
  lemma ComparedStep(bs: seq<byte>, t: seq<byte>, i: nat, j: nat, r: seq<byte>)
    requires |t| >= 1 && i < |bs|
    requires ProbeAt(bs, t, i).Mismatch? && j == i + ProbeAt(bs, t, i).compared
    requires ComparedScan(bs, t, j) == Ok(r)
    ensures ComparedScan(bs, t, i) == Ok(bs[i..j] + r)
  {
    match ProbeAt(bs, t, i)
    case Mismatch(c) =>
      assert j == i + c;
  }

  /** One step of the stride scanner past a chunk that is not the terminator. */
  lemma StrideStep(bs: seq<byte>, t: seq<byte>, i: nat, r: seq<byte>)
    requires |t| >= 1 && i + |t| <= |bs| && bs[i..i + |t|] != t
    requires StrideScan(bs, t, i + |t|) == Ok(r)
    ensures StrideScan(bs, t, i) == Ok(bs[i..i + |t|] + r)
  {
  }

  /** Compared-count scanner with a zero terminator: it stops at the first
      occurrence of the terminator at any offset, aligned or not. */
  lemma {:induction false} ComparedScanStopsAt(bs: seq<byte>, t: seq<byte>, i: nat, k: nat)
    requires ZeroTerminator(t)
    requires i <= k && ChunkIs(bs, t, k)
    requires forall p :: i <= p < k ==> !ChunkIs(bs, t, p)
    ensures ComparedScan(bs, t, i) == Ok(bs[i..k])
    decreases k - i
  {
    if i < k {
      ProbeBeforeMatch(bs, t, i, k);
      var j := i + ProbeAt(bs, t, i).compared;
      ComparedScanStopsAt(bs, t, j, k);
      ComparedStep(bs, t, i, j, bs[j..k]);
      SliceJoin(bs, i, j, k);
    } else {
      ComparedScanAtMatch(bs, t, k);
    }
  }

  /** Compared-count scanner with a zero terminator: with no occurrence and
      a non-zero last byte, every byte is kept. */
  lemma {:induction false} ComparedScanWhole(bs: seq<byte>, t: seq<byte>, i: nat)
    requires ZeroTerminator(t)
    requires i <= |bs|
    requires forall p :: i <= p < |bs| ==> !ChunkIs(bs, t, p)
    requires i < |bs| ==> bs[|bs| - 1] != 0
    ensures ComparedScan(bs, t, i) == Ok(bs[i..])
    decreases |bs| - i
  {
    if i < |bs| {
      var p := ProbeAt(bs, t, i);
      assert p.Mismatch?;
      var j := i + p.compared;
      ComparedScanWhole(bs, t, j);
      ComparedStep(bs, t, i, j, bs[j..]);
      SliceJoinEnd(bs, i, j);
    }
  }

  /** Compared-count scanner with a zero terminator: with no occurrence and
      a zero last byte, the last comparison fetches a byte past the end. */
  lemma {:induction false} ComparedScanRagged(bs: seq<byte>, t: seq<byte>, i: nat)
    requires ZeroTerminator(t)
    requires i < |bs| && bs[|bs| - 1] == 0
    requires forall p :: i <= p < |bs| ==> !ChunkIs(bs, t, p)
    ensures ComparedScan(bs, t, i) == Err(IndexOutOfRange)
    decreases |bs| - i
  {
    var p := ProbeAt(bs, t, i);
    if p.Mismatch? {
      var j := i + p.compared;
      assert bs[j - 1] != t[p.compared - 1] == 0;
      ComparedScanRagged(bs, t, j);
    }
  }

  /** The first offset at or after i, at any alignment, where the terminator
      occurs; |bs| when it occurs nowhere from i on. */
  function FirstChunk(bs: seq<byte>, t: seq<byte>, i: nat): (k: nat)
    requires i <= |bs|
    ensures i <= k <= |bs|
    ensures k < |bs| ==> ChunkIs(bs, t, k)
    ensures forall p :: i <= p < k ==> !ChunkIs(bs, t, p)
    decreases |bs| - i
  {
    if i == |bs| || ChunkIs(bs, t, i) then i else FirstChunk(bs, t, i + 1)
  }

  /** The compared-count scanner against the reference search: it keeps the
      bytes before the first occurrence of the zero terminator at any
      offset, or every byte when there is none, and it throws exactly when
      there is none and the last byte is zero. */
  lemma {:induction false} ComparedScanFirst(bs: seq<byte>, t: seq<byte>)
    requires ZeroTerminator(t)
    ensures var k := FirstChunk(bs, t, 0);
      ComparedScan(bs, t, 0)
        == if k == |bs| && |bs| > 0 && bs[|bs| - 1] == 0 then Err(IndexOutOfRange) else Ok(bs[..k])
  {
    var k := FirstChunk(bs, t, 0);
    if k < |bs| {
      ComparedScanStopsAt(bs, t, 0, k);
      assert bs[0..k] == bs[..k];
    } else if |bs| > 0 && bs[|bs| - 1] == 0 {
      ComparedScanRagged(bs, t, 0);
    } else {
      ComparedScanWhole(bs, t, 0);
      assert bs[0..] == bs[..k];
    }
  }

  /** The first chunk of the stride grid from chunk q on that holds the
      terminator, or the first chunk that no longer fits in the buffer. */
  function FirstAlignedChunk(bs: seq<byte>, t: seq<byte>, q: nat): (n: nat)
    requires |t| >= 1
    ensures q <= n
    ensures AlignedMatch(bs, t, 0, n) || n * |t| + |t| > |bs|
    ensures q * |t| <= |bs| ==> n * |t| <= |bs|
    ensures forall p :: q <= p < n ==> !AlignedMatch(bs, t, 0, p)
    decreases |bs| - q * |t|
  {
    MulStep(q, |t|);
    if q * |t| + |t| > |bs| || AlignedMatch(bs, t, 0, q) then q else FirstAlignedChunk(bs, t, q + 1)
  }

  /** The stride scanner against the reference search: it keeps the whole
      chunks before the first aligned terminator, or all of a buffer made of
      whole chunks without one, and throws on a ragged buffer without one. */
  lemma {:induction false} StrideScanFirst(bs: seq<byte>, t: seq<byte>)
    requires |t| >= 1
    ensures var n := FirstAlignedChunk(bs, t, 0);
      StrideScan(bs, t, 0)
        == if AlignedMatch(bs, t, 0, n) || n * |t| == |bs| then Ok(bs[..n * |t|]) else Err(IndexOutOfRange)
  {
    var n := FirstAlignedChunk(bs, t, 0);
    if AlignedMatch(bs, t, 0, n) {
      StrideStopsFirst(bs, t, n);
    } else if n * |t| == |bs| {
      StrideKeepsAll(bs, t, n);
    } else {
      StrideScanRagged(bs, t, 0, n);
    }
  }

  lemma {:induction false} StrideStopsFirst(bs: seq<byte>, t: seq<byte>, n: nat)
    requires |t| >= 1 && AlignedMatch(bs, t, 0, n)
    requires forall p :: 0 <= p < n ==> !AlignedMatch(bs, t, 0, p)
    ensures n * |t| <= |bs| && StrideScan(bs, t, 0) == Ok(bs[..n * |t|])
  {
    var e := n * |t|;
    assert 0 + e == e && ChunkIs(bs, t, e);
    StrideScanStopsAt(bs, t, 0, n);
    assert bs[0..e] == bs[..e];
  }

  lemma {:induction false} StrideKeepsAll(bs: seq<byte>, t: seq<byte>, n: nat)
    requires |t| >= 1 && n * |t| == |bs|
    requires forall p :: 0 <= p < n ==> !AlignedMatch(bs, t, 0, p)
    ensures StrideScan(bs, t, 0) == Ok(bs[..n * |t|])
  {
    StrideScanWhole(bs, t, 0, n);
    assert bs[0..] == bs[..n * |t|];
  }

  /** The bytes of `s` before its first zero byte (all of `s` if none). */
  function BeforeFirstZero(s: seq<byte>): (r: seq<byte>)
  {
    if |s| == 0 || s[0] == 0 then [] else [s[0]] + BeforeFirstZero(s[1..])
  }

  /** `BeforeFirstZero` is the longest zero-free prefix. */
  lemma {:induction false} BeforeFirstZeroSpec(s: seq<byte>)
    ensures var r := BeforeFirstZero(s);
      |r| <= |s| && r == s[..|r|]
      && (forall k :: 0 <= k < |r| ==> r[k] != 0)
      && (|r| == |s| || s[|r|] == 0)
  {
    if |s| > 0 && s[0] != 0 {
      BeforeFirstZeroSpec(s[1..]);
    }
  }

  /** With a one-byte terminator the two scanners agree, never throw, and
      both return the bytes before the first zero. */
  lemma {:induction false} ScannersAgreeOnOneByte(bs: seq<byte>, i: nat)
    requires i <= |bs|
    ensures StrideScan(bs, [0], i) == Ok(BeforeFirstZero(bs[i..]))
    ensures ComparedScan(bs, [0], i) == Ok(BeforeFirstZero(bs[i..]))
    decreases |bs| - i
  {
    if i < |bs| {
      assert bs[i..i + 1] == [bs[i]];
      assert bs[i..][0] == bs[i];
      if bs[i] == 0 {
        assert ProbeAt(bs, [0], i) == Matched;
      } else {
        ScannersAgreeOnOneByte(bs, i + 1);
        assert bs[i..][1..] == bs[i + 1..];
        assert ProbeAt(bs, [0], i) == Mismatch(1);
      }
    }
  }

  /** The two scanners part ways on UTF-16: "AB" followed by its two-byte
      terminator. The compared-count scanner matches `00 00` straddling the
      high byte of 'B' and the terminator and drops that high byte; the
      stride scanner keeps both characters whole. */
  lemma ScannersDisagreeOnUtf16()
    ensures ComparedScan([0x41, 0x00, 0x42, 0x00, 0x00, 0x00], [0, 0], 0) == Ok([0x41, 0x00, 0x42])
    ensures StrideScan([0x41, 0x00, 0x42, 0x00, 0x00, 0x00], [0, 0], 0) == Ok([0x41, 0x00, 0x42, 0x00])
  {
    ComparedOnUtf16();
    StrideOnUtf16();
  }

  /** The compared-count scan stops inside the second UTF-16 unit. */
  lemma ComparedOnUtf16()
    ensures ComparedScan([0x41, 0x00, 0x42, 0x00, 0x00, 0x00], [0, 0], 0) == Ok([0x41, 0x00, 0x42])
  {
    var bs: seq<byte> := [0x41, 0x00, 0x42, 0x00, 0x00, 0x00];
    var t: seq<byte> := [0, 0];
    assert ProbeAt(bs, t, 0) == Mismatch(1);
    assert ProbeAt(bs, t, 1) == Mismatch(2);
    assert ChunkIs(bs, t, 3);
    assert ComparedScan(bs, t, 3) == Ok([]);
    assert bs[1..3] == [0x00, 0x42];
    ComparedStep(bs, t, 1, 3, []);
    assert bs[1..3] + [] == [0x00, 0x42];
    ComparedStep(bs, t, 0, 1, [0x00, 0x42]);
    assert bs[0..1] + [0x00, 0x42] == [0x41, 0x00, 0x42];
  }

  /** The stride scan finds the terminator on the unit boundary. */
  lemma StrideOnUtf16()
    ensures StrideScan([0x41, 0x00, 0x42, 0x00, 0x00, 0x00], [0, 0], 0) == Ok([0x41, 0x00, 0x42, 0x00])
  {
    var bs: seq<byte> := [0x41, 0x00, 0x42, 0x00, 0x00, 0x00];
    var t: seq<byte> := [0, 0];
    assert bs[0..2] == [0x41, 0x00];
    assert bs[2..4] == [0x42, 0x00];
    assert bs[4..6] == t;
    assert StrideScan(bs, t, 4) == Ok([]);
    StrideStep(bs, t, 2, []);
    assert bs[2..4] + [] == [0x42, 0x00];
    StrideStep(bs, t, 0, [0x42, 0x00]);
    assert bs[0..2] + [0x42, 0x00] == [0x41, 0x00, 0x42, 0x00];
  }

  /** The bytes a string write emits: the encoded value, then the encoded
      NUL when the terminator is appended. No encoding is refused. */
  function StringBytes(codec: TextCodec, e: Encoding, s: string, appendNul: bool): (r: seq<byte>)
    ensures |r| >= |codec.getBytes(e, s)|
    ensures r[..|codec.getBytes(e, s)|] == codec.getBytes(e, s)
    ensures appendNul ==> r[|codec.getBytes(e, s)|..] == codec.getBytes(e, "\0")
    ensures !appendNul ==> r == codec.getBytes(e, s)
  {
    var body := codec.getBytes(e, s);
    if appendNul then body + codec.getBytes(e, "\0") else body
  }

  /** The terminator scan a bounded read applies to its buffer: the
      compared-count scanner for UTF-8, the stride scanner otherwise. */
  function TerminatedPrefix(e: Encoding, bs: seq<byte>): (r: Result<seq<byte>>)
    requires Scannable(e)
    ensures r.Ok? ==> |r.value| <= |bs|
    ensures r.Err? ==> r.error == IndexOutOfRange
  {
    if e == UTF8 then ComparedScan(bs, Terminator(e), 0) else StrideScan(bs, Terminator(e), 0)
  }

  /** With a one-byte terminator (ASCII, UTF-8) the bounded read keeps
      exactly the bytes before the first zero byte and never throws. */
  lemma TerminatedPrefixOneByte(e: Encoding, bs: seq<byte>)
    requires Scannable(e) && e != Unicode
    ensures TerminatedPrefix(e, bs) == Ok(BeforeFirstZero(bs))
  {
    assert bs[0..] == bs;
    ScannersAgreeOnOneByte(bs, 0);
  }

  lemma TerminatedPrefixOneByteWhen(e: Encoding, bs: seq<byte>)
    requires Scannable(e)
    ensures e != Unicode ==> TerminatedPrefix(e, bs) == Ok(BeforeFirstZero(bs))
  {
    if e != Unicode {
      TerminatedPrefixOneByte(e, bs);
    }
  }

  lemma ComparedScanOneByte(e: Encoding, bs: seq<byte>)
    requires Scannable(e)
    ensures e != Unicode ==> ComparedScan(bs, Terminator(e), 0) == Ok(BeforeFirstZero(bs))
  {
    if e != Unicode {
      assert bs[0..] == bs;
      ScannersAgreeOnOneByte(bs, 0);
    }
  }

  /** For UTF-16 the bounded read keeps a whole number of two-byte units:
      the units before the first aligned `00 00`, all units when there is
      none and the buffer length is even, and it throws on an odd length. */
  lemma TerminatedPrefixUtf16(bs: seq<byte>)
    ensures var r := TerminatedPrefix(Unicode, bs);
      && (r.Ok? ==>
            |r.value| % 2 == 0 && r.value == bs[..|r.value|]
            && (|r.value| == |bs| || ChunkIs(bs, [0, 0], |r.value|)))
      && (r.Err? <==>
            |bs| % 2 == 1 && forall p :: 0 <= p < |bs| / 2 ==> !AlignedMatch(bs, [0, 0], 0, p))
  {
    var t: seq<byte> := [0, 0];
    if q0 :| 0 <= q0 && AlignedMatch(bs, t, 0, q0) {
      var q := LeastAligned(bs, t, q0);
      StrideScanStopsAt(bs, t, 0, q);
      assert 0 + q * 2 == 2 * q;
      assert ChunkIs(bs, t, 2 * q);
      assert q < |bs| / 2;
    } else {
      if |bs| % 2 == 0 {
        StrideScanWhole(bs, t, 0, |bs| / 2);
      } else {
        StrideScanRagged(bs, t, 0, |bs| / 2);
      }
    }
  }

  /** The first chunk of the grid that holds the terminator, given any one that does. */
  lemma {:induction false} LeastAligned(bs: seq<byte>, t: seq<byte>, q0: nat) returns (q: nat)
    requires AlignedMatch(bs, t, 0, q0)
    ensures q <= q0 && AlignedMatch(bs, t, 0, q)
    ensures forall p :: 0 <= p < q ==> !AlignedMatch(bs, t, 0, p)
    decreases q0
  {
    q := q0;
    if p :| 0 <= p < q0 && AlignedMatch(bs, t, 0, p) {
      q := LeastAligned(bs, t, p);
    }
  }

  /** Round trip at the byte level: a buffer that starts with an encoded
      body and its terminator reads back as exactly that body, provided the
      body is a whole number of terminator-sized units none of which is the
      terminator (for a one-byte terminator: the body has no zero byte). */
  lemma {:induction false} TerminatedPrefixOfWritten(e: Encoding, body: seq<byte>, rest: seq<byte>, q: nat)
    requires Scannable(e)
    requires |body| == q * |Terminator(e)|
    requires forall p :: 0 <= p < q ==> !ChunkIs(body, Terminator(e), p * |Terminator(e)|)
    ensures TerminatedPrefix(e, body + Terminator(e) + rest) == Ok(body)
  {
    var t := Terminator(e);
    var bs := body + t + rest;
    assert bs[q * |t|..q * |t| + |t|] == t;
    assert AlignedMatch(bs, t, 0, q);
    forall p | 0 <= p < q
      ensures !AlignedMatch(bs, t, 0, p)
    {
      MulMono(p + 1, q, |t|);
      MulStep(p, |t|);
      assert bs[p * |t|..p * |t| + |t|] == body[p * |t|..p * |t| + |t|];
      assert !ChunkIs(body, t, p * |t|);
    }
    StrideScanStopsAt(bs, t, 0, q);
    assert bs[0..0 + q * |t|] == body;
    if e == UTF8 {
      ScannersAgreeOnOneByte(bs, 0);
      assert bs[0..] == bs;
    }
  }
}

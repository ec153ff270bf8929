/** An address space as a finite map from address to byte: an address is
    mapped (readable and writable) exactly when it is a key. The same model
    serves the caller's own process and a foreign one. */
module Memory {
  import opened Wrappers
  import opened Bytes

  type Mem = map<int, byte>

  /** Every byte of [addr, addr + n) is mapped. */
  predicate Mapped(m: Mem, addr: int, n: int)
  {
    forall a :: addr <= a < addr + n ==> a in m
  }

  /** No byte of [addr, addr + n) is mapped: the range a fresh allocation occupies. */
  predicate Unmapped(m: Mem, addr: int, n: int)
  {
    forall a :: addr <= a < addr + n ==> a !in m
  }

  /** The n bytes at addr. */
  function Load(m: Mem, addr: int, n: nat): (r: seq<byte>)
    requires Mapped(m, addr, n)
    ensures |r| == n
    ensures forall i :: 0 <= i < n ==> r[i] == m[addr + i]
  {
    seq(n, i requires 0 <= i < n => m[addr + i])
  }

  /** `m` with `bs` stored at addr; the stored range becomes mapped. */
  function Store(m: Mem, addr: int, bs: seq<byte>): (r: Mem)
    ensures forall a :: a in r <==> a in m || addr <= a < addr + |bs|
    ensures forall i :: 0 <= i < |bs| ==> r[addr + i] == bs[i]
    ensures forall a :: a in m && !(addr <= a < addr + |bs|) ==> r[a] == m[a]
  {
    m + map a | addr <= a < addr + |bs| :: ByteAt(bs, addr, a)
  }

  function ByteAt(bs: seq<byte>, addr: int, a: int): byte
    requires addr <= a < addr + |bs|
  {
    bs[a - addr]
  }

  /** `m` with [addr, addr + n) unmapped (a released allocation). */
  function Release(m: Mem, addr: int, n: nat): (r: Mem)
    ensures forall a :: a in r <==> a in m && !(addr <= a < addr + n)
    ensures forall a :: a in r ==> r[a] == m[a]
  {
    map a | a in m && !(addr <= a < addr + n) :: m[a]
  }

  function Zeros(n: nat): (r: seq<byte>)
    ensures |r| == n && forall i :: 0 <= i < n ==> r[i] == 0
  {
    seq(n, i => 0)
  }

  /** Reading back a store returns the stored bytes. */
  lemma LoadStore(m: Mem, addr: int, bs: seq<byte>)
    ensures Mapped(Store(m, addr, bs), addr, |bs|)
    ensures Load(Store(m, addr, bs), addr, |bs|) == bs
  {
  }

  /** A store leaves every range disjoint from it as it was. */
  lemma LoadStoreOther(m: Mem, addr: int, bs: seq<byte>, a: int, n: nat)
    requires Mapped(m, a, n)
    requires a + n <= addr || addr + |bs| <= a
    ensures Mapped(Store(m, addr, bs), a, n)
    ensures Load(Store(m, addr, bs), a, n) == Load(m, a, n)
  {
  }

  /** A store over an already mapped range maps nothing new. */
  lemma StoreKeepsDomain(m: Mem, addr: int, bs: seq<byte>)
    requires Mapped(m, addr, |bs|)
    ensures Store(m, addr, bs).Keys == m.Keys
  {
  }

  /** A load of part of a mapped range is the matching slice of the whole load. */
  lemma LoadSlice(m: Mem, addr: int, n: nat, i: nat, j: nat)
    requires Mapped(m, addr, n) && i <= j <= n
    ensures Mapped(m, addr + i, j - i)
    ensures Load(m, addr, n)[i..j] == Load(m, addr + i, j - i)
  {
  }

  /** The same, for the first len bytes. */
  lemma LoadPrefix(m: Mem, addr: int, n: nat, len: nat)
    requires Mapped(m, addr, n) && len <= n
    ensures Mapped(m, addr, len)
    ensures Load(m, addr, n)[..len] == Load(m, addr, len)
  {
  }

  /** The same, for the part of length len starting lo bytes in. */
  lemma LoadPart(m: Mem, addr: int, n: nat, lo: nat, len: nat)
    requires Mapped(m, addr, n) && lo + len <= n
    ensures Mapped(m, addr + lo, len)
    ensures Load(m, addr, n)[lo..lo + len] == Load(m, addr + lo, len)
  {
  }

  /** A second store over the same range wipes out the first. */
  lemma StoreOverwrite(m: Mem, addr: int, x: seq<byte>, y: seq<byte>)
    requires |x| == |y|
    ensures Store(Store(m, addr, x), addr, y) == Store(m, addr, y)
  {
    var l := Store(Store(m, addr, x), addr, y);
    var r := Store(m, addr, y);
    assert l.Keys == r.Keys;
    forall a | a in l
      ensures l[a] == r[a]
    {
      if addr <= a < addr + |y| {
        assert l[addr + (a - addr)] == y[a - addr] == r[addr + (a - addr)];
      }
    }
  }

  /** Storing back the bytes a mapped range already holds changes nothing. */
  lemma StoreRestores(m: Mem, addr: int, n: nat)
    requires Mapped(m, addr, n)
    ensures Store(m, addr, Load(m, addr, n)) == m
  {
    var r := Store(m, addr, Load(m, addr, n));
    assert r.Keys == m.Keys;
    forall a | a in r
      ensures r[a] == m[a]
    {
      if addr <= a < addr + n {
        assert r[addr + (a - addr)] == Load(m, addr, n)[a - addr];
      }
    }
  }

  /** Releasing a range that was unmapped, after any stores into it,
      gives back the memory from before. */
  lemma ReleaseFresh(m: Mem, m1: Mem, addr: int, n: nat)
    requires Unmapped(m, addr, n)
    requires forall a :: a in m1 <==> a in m || addr <= a < addr + n
    requires forall a :: a in m ==> m1[a] == m[a]
    ensures Release(m1, addr, n) == m
  {
    var r := Release(m1, addr, n);
    assert r.Keys == m.Keys;
  }

  /** m1 is m with bs stored at addr, over an already mapped range. */
  predicate Wrote(m: Mem, m1: Mem, addr: int, bs: seq<byte>)
  {
    && m1.Keys == m.Keys
    && Mapped(m1, addr, |bs|) && Load(m1, addr, |bs|) == bs
    && (forall a :: a in m && !(addr <= a < addr + |bs|) ==> m1[a] == m[a])
  }

  /** A write leaves every range apart from it readable as before. */
  lemma WroteElsewhere(m: Mem, m1: Mem, addr: int, bs: seq<byte>, a: int, n: nat)
    requires Wrote(m, m1, addr, bs) && Mapped(m, a, n)
    requires a + n <= addr || addr + |bs| <= a
    ensures Mapped(m1, a, n) && Load(m1, a, n) == Load(m, a, n)
  {
  }

  /** Two adjacent mapped ranges read as one. */
  lemma LoadJoin(m: Mem, addr: int, n: nat, k: nat)
    requires Mapped(m, addr, n) && Mapped(m, addr + n, k)
    ensures Mapped(m, addr, n + k)
    ensures Load(m, addr, n + k) == Load(m, addr, n) + Load(m, addr + n, k)
  {
    assert Mapped(m, addr, n + k) by {
      forall a | addr <= a < addr + n + k
        ensures a in m
      {
        if a >= addr + n {
          assert addr + n <= a < addr + n + k;
        }
      }
    }
    var whole := Load(m, addr, n + k);
    var parts := Load(m, addr, n) + Load(m, addr + n, k);
    forall i | 0 <= i < n + k
      ensures whole[i] == parts[i]
    {
      if i >= n {
        assert parts[i] == Load(m, addr + n, k)[i - n];
      }
    }
  }

  /** A range whose every byte kept its value reads back the same. */
  lemma LoadKept(m: Mem, m1: Mem, addr: int, n: nat)
    requires Mapped(m, addr, n)
    requires forall a :: addr <= a < addr + n ==> a in m1 && m1[a] == m[a]
    ensures Mapped(m1, addr, n) && Load(m1, addr, n) == Load(m, addr, n)
  {
  }

  /** What the OS reports for one cross-process copy (`ReadProcessMemory`,
      `WriteProcessMemory`): whether the call succeeded and the number of
      bytes it says it transferred. */
  datatype Transfer = Transfer(succeeded: bool, count: int)

  /** The report of a copy within the caller's own process: it succeeds, in
      full, exactly when the range is mapped. */
  function SelfTransfer(m: Mem, addr: int, n: nat): (t: Transfer)
    ensures t.succeeded <==> Mapped(m, addr, n)
    ensures t.succeeded ==> t.count == n
  {
    if Mapped(m, addr, n) then Transfer(true, n) else Transfer(false, 0)
  }

  /** A `ReadProcessMemory` of n bytes followed by the callers' checks: a
      failed call is a Win32Exception, a short count a plain exception. A
      success reported for an unmapped range is taken as a failed call. */
  function ReadProcessMemory(m: Mem, addr: int, n: nat, t: Transfer): (r: Result<seq<byte>>)
    ensures r.Ok? <==> t.succeeded && t.count == n && Mapped(m, addr, n)
    ensures r.Ok? ==> r.value == Load(m, addr, n)
    ensures r.Err? && t.succeeded && t.count != n ==> r.error == ShortTransfer
    ensures r.Err? && !(t.succeeded && t.count != n) ==> r.error == Win32
  {
    if !t.succeeded then Err(Win32)
    else if t.count != n then Err(ShortTransfer)
    else if !Mapped(m, addr, n) then Err(Win32)
    else Ok(Load(m, addr, n))
  }

  /** A `WriteProcessMemory` of `bs` followed by the callers' check that the
      call succeeded and wrote every byte; both failures are a Win32Exception.
      A failed write is taken to leave memory as it was. */
  function WriteProcessMemory(m: Mem, addr: int, bs: seq<byte>, t: Transfer): (r: Result<Mem>)
    ensures r.Ok? <==> t.succeeded && t.count == |bs| && Mapped(m, addr, |bs|)
    ensures r.Ok? ==> r.value == Store(m, addr, bs)
    ensures r.Err? ==> r.error == Win32
  {
    if !t.succeeded || t.count != |bs| || !Mapped(m, addr, |bs|) then Err(Win32)
    else Ok(Store(m, addr, bs))
  }

  /** `VirtualAlloc(Ex)` of n bytes that returned `addr`: zero-filled pages,
      or nothing when the call returned zero. */
  function Allocate(m: Mem, addr: int, n: nat): (r: Mem)
    ensures addr != 0 ==> Mapped(r, addr, n) && Load(r, addr, n) == Zeros(n)
    ensures addr == 0 ==> r == m
  {
    if addr == 0 then m else Store(m, addr, Zeros(n))
  }
}

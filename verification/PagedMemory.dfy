/**
 * Paged 32-bit memory with per-page write permission, a guard region below 2^16 and a program break.
 * `Mem` is the value a `Memory` object holds; the functions on `Mem` specify the object's methods.
 */
module PagedMemory {
  import opened Base

  const PAGE: nat := 4096
  const GUARD: nat := 0x1_0000

  datatype PageData = PageData(data: bytes, writable: bool)
  type Page = p: PageData | |p.data| == PAGE witness PageData(seq(PAGE, _ => 0), false)

  datatype Mem = Mem(pages: map<nat, Page>, heapTop: u32, heapMax: u32)

  function ZeroPage(writable: bool): Page {
    PageData(seq(PAGE, _ => 0), writable)
  }

  /** Addresses wrap at 2^32 within one access. */
  function Addr(addr: nat, k: nat): (x: nat)
    ensures x < W32
  {
    (addr + k) % W32
  }

  function ByteAt(m: Mem, x: nat): byte {
    if x / PAGE in m.pages then m.pages[x / PAGE].data[x % PAGE] else 0
  }

  predicate Accessible(m: Mem, x: nat, write: bool) {
    x >= GUARD && x / PAGE in m.pages && (write ==> m.pages[x / PAGE].writable)
  }

  /** Sets one byte when its page is mapped; the page's permission is not consulted. */
  function Poke(m: Mem, x: nat, b: byte): Mem {
    if x / PAGE in m.pages
    then m.(pages := m.pages[x / PAGE := m.pages[x / PAGE].(data := m.pages[x / PAGE].data[x % PAGE := b])])
    else m
  }

  /** Little-endian read of `len` bytes, wrapping at 2^32. */
  function ReadLE(m: Mem, addr: nat, len: nat): nat {
    if len == 0 then 0
    else ReadLE(m, addr, len - 1) + ByteAt(m, Addr(addr, len - 1)) * Pow256(len - 1)
  }

  /** Byte `k` of a number, least significant first. */
  function Digit(value: nat, k: nat): byte {
    value / Pow256(k) % 256
  }

  /** Little-endian write of the low `len` bytes of `value`, wrapping at 2^32. */
  function WriteLE(m: Mem, addr: nat, len: nat, value: nat): Mem {
    if len == 0 then m
    else Poke(WriteLE(m, addr, len - 1, value), Addr(addr, len - 1), Digit(value, len - 1))
  }

  /** Copies bytes into mapped pages, without wrapping and without a permission check. */
  function StoreBytes(m: Mem, address: nat, data: bytes): Mem
    decreases |data|
  {
    if data == [] then m
    else Poke(StoreBytes(m, address, data[..|data| - 1]), address + |data| - 1, data[|data| - 1])
  }

  function LoadBytes(m: Mem, address: nat, len: nat): (r: bytes)
    ensures |r| == len
    ensures forall k | 0 <= k < len :: r[k] == ByteAt(m, address + k)
  {
    if len == 0 then [] else LoadBytes(m, address, len - 1) + [ByteAt(m, address + len - 1)]
  }

  /** Maps the pages `lo..hi` that are not mapped yet; mapped pages stay as they are. */
  function EnsurePages(pages: map<nat, Page>, lo: nat, hi: nat, writable: bool): (r: map<nat, Page>)
    ensures forall p :: p in r <==> p in pages || lo <= p < hi
    ensures forall p | p in pages :: r[p] == pages[p]
    ensures forall p | p in r && p !in pages :: r[p] == ZeroPage(writable)
    decreases hi
  {
    if lo >= hi then pages
    else
      var before := EnsurePages(pages, lo, hi - 1, writable);
      if hi - 1 in before then before else before[hi - 1 := ZeroPage(writable)]
  }

  lemma RegionOrdered(address: nat, length: nat)
    ensures address / PAGE <= DivCeil(address + length, PAGE)
  {
  }

  /** Maps every page that `[address, address + length)` touches. */
  function MapRegion(m: Mem, address: u32, length: u32, writable: bool): Mem {
    m.(pages := EnsurePages(m.pages, address / PAGE, DivCeil(address + length, PAGE), writable))
  }

  /** Grows the heap and returns the previous break; zero when the growth is refused. */
  function Sbrk(m: Mem, size: u32): (Mem, u32) {
    if size == 0 then (m, m.heapTop)
    else if m.heapTop + size <= m.heapMax
    then (MapRegion(m, m.heapTop, size, true).(heapTop := m.heapTop + size), m.heapTop)
    else (m, 0)
  }

  datatype Access = Granted | Trap | Fault(address: u32)

  /** The lowest inaccessible address among the `len` addresses from `addr`. */
  function LowestBad(m: Mem, addr: nat, len: nat, write: bool): Option<nat> {
    if len == 0 then None
    else
      var before, x := LowestBad(m, addr, len - 1, write), Addr(addr, len - 1);
      if Accessible(m, x, write) then before
      else match before
           case None => Some(x)
           case Some(y) => Some(Min(y, x))
  }

  /** Traps below the guard or on a mapped page, otherwise faults at the page of the lowest bad byte. */
  function Check(m: Mem, addr: nat, len: nat, write: bool): Access {
    match LowestBad(m, addr, len, write)
    case None => Granted
    case Some(x) =>
      if x < GUARD || x / PAGE in m.pages then Trap
      else if x < W32 then Fault(x / PAGE * PAGE) else Trap
  }

  /** Page-wise range test, refusing ranges that span more pages than exist. */
  predicate RangeOk(m: Mem, address: u32, len: nat, write: bool) {
    len == 0 ||
    var first, last := address / PAGE, (address + len - 1) / PAGE;
    last - first + 1 <= |m.pages| && forall p | first <= p <= last :: Accessible(m, p * PAGE, write)
  }

  // ------------------------------------------------------------ the object

  /** Mirrors the interpreter's mutable memory. */
  class Memory {
    var pages: map<nat, Page>
    var heapTop: u32
    var heapMax: u32

    function View(): Mem
      reads this
    {
      Mem(pages, heapTop, heapMax)
    }

    constructor ()
      ensures View() == Mem(map[], 0, 0)
    {
      pages, heapTop, heapMax := map[], 0, 0;
    }

    method Ensure(page: nat, writable: bool)
      modifies this
      ensures heapTop == old(heapTop) && heapMax == old(heapMax)
      ensures pages == if page in old(pages) then old(pages) else old(pages)[page := ZeroPage(writable)]
    {
      if page !in pages {
        pages := pages[page := ZeroPage(writable)];
      }
    }

    method Map(address: u32, length: u32, writable: bool)
      modifies this
      ensures View() == MapRegion(old(View()), address, length, writable)
    {
      var first, last := address / PAGE, DivCeil(address + length, PAGE);
      RegionOrdered(address, length);
      var p := first;
      while p < last
        invariant first <= p <= last
        invariant heapTop == old(heapTop) && heapMax == old(heapMax)
        invariant pages == EnsurePages(old(pages), first, p, writable)
      {
        Ensure(p, writable);
        p := p + 1;
      }
    }

    method SetHeap(top: u32, max: u32)
      modifies this
      ensures View() == old(View()).(heapTop := top, heapMax := max)
    {
      heapTop, heapMax := top, max;
    }

    method Grow(size: u32) returns (previous: u32)
      modifies this
      ensures (View(), previous) == Sbrk(old(View()), size)
    {
      if size == 0 {
        return heapTop;
      }
      var was := heapTop;
      if heapTop + size > heapMax {
        return 0;
      }
      Map(was, size, true);
      heapTop := was + size;
      return was;
    }

    method Set(x: nat, b: byte)
      modifies this
      ensures View() == Poke(old(View()), x, b)
    {
      if x / PAGE in pages {
        var p := pages[x / PAGE];
        pages := pages[x / PAGE := p.(data := p.data[x % PAGE := b])];
      }
    }

    method Store(address: nat, data: bytes)
      modifies this
      ensures View() == StoreBytes(old(View()), address, data)
    {
      var k := 0;
      while k < |data|
        invariant 0 <= k <= |data|
        invariant View() == StoreBytes(old(View()), address, data[..k])
      {
        assert data[..k + 1][..k] == data[..k];
        Set(address + k, data[k]);
        k := k + 1;
      }
      assert data[..k] == data;
    }

    method Write(addr: nat, len: nat, value: nat)
      modifies this
      ensures View() == WriteLE(old(View()), addr, len, value)
    {
      var k := 0;
      while k < len
        invariant 0 <= k <= len
        invariant View() == WriteLE(old(View()), addr, k, value)
      {
        Set(Addr(addr, k), Digit(value, k));
        k := k + 1;
      }
    }

    method Read(addr: nat, len: nat) returns (v: nat)
      ensures v == ReadLE(View(), addr, len)
    {
      v := 0;
      var k := 0;
      while k < len
        invariant 0 <= k <= len
        invariant v == ReadLE(View(), addr, k)
      {
        v := v + ByteAt(View(), Addr(addr, k)) * Pow256(k);
        k := k + 1;
      }
    }

    method CheckAccess(addr: nat, len: nat, write: bool) returns (r: Access)
      ensures r == Check(View(), addr, len, write)
    {
      var minBad: Option<nat> := None;
      var k := 0;
      while k < len
        invariant 0 <= k <= len
        invariant minBad == LowestBad(View(), addr, k, write)
      {
        var x := Addr(addr, k);
        if !Accessible(View(), x, write) {
          minBad := match minBad case None => Some(x) case Some(y) => Some(Min(y, x));
        }
        k := k + 1;
      }
      match minBad {
        case None => return Granted;
        case Some(x) =>
          LowestBadMeaning(View(), addr, len, write);
          if x < GUARD || x / PAGE in pages {
            return Trap;
          }
          return Fault(x / PAGE * PAGE);
      }
    }
  }

  // ------------------------------------------------------------ access checks

  /** `LowestBad` is the minimum of the inaccessible addresses, and `None` means there are none. */
  lemma {:induction false} LowestBadMeaning(m: Mem, addr: nat, len: nat, write: bool)
    ensures match LowestBad(m, addr, len, write)
            case None => forall k | 0 <= k < len :: Accessible(m, Addr(addr, k), write)
            case Some(x) =>
              && x < W32
              && (exists k :: 0 <= k < len && x == Addr(addr, k))
              && !Accessible(m, x, write)
              && forall k | 0 <= k < len && !Accessible(m, Addr(addr, k), write) :: x <= Addr(addr, k)
  {
    if len > 0 {
      LowestBadMeaning(m, addr, len - 1, write);
    }
  }

  /** A granted access touches no byte below the guard, and for writes only writable pages. */
  lemma GrantedMeaning(m: Mem, addr: nat, len: nat, write: bool)
    ensures Check(m, addr, len, write) == Granted
       <==> forall k | 0 <= k < len ::
              && Addr(addr, k) >= GUARD
              && Addr(addr, k) / PAGE in m.pages
              && (write ==> m.pages[Addr(addr, k) / PAGE].writable)
  {
    LowestBadMeaning(m, addr, len, write);
  }

  /** A fault names the page of the lowest inaccessible byte, and that page is unmapped. */
  lemma FaultMeaning(m: Mem, addr: nat, len: nat, write: bool)
    requires Check(m, addr, len, write).Fault?
    ensures var a := Check(m, addr, len, write).address;
            && a % PAGE == 0 && a >= GUARD && a / PAGE !in m.pages
            && (exists k :: 0 <= k < len && Addr(addr, k) / PAGE == a / PAGE)
            && forall k | 0 <= k < len && Addr(addr, k) < a :: Accessible(m, Addr(addr, k), write)
  {
    LowestBadMeaning(m, addr, len, write);
    var x := LowestBad(m, addr, len, write).value;
    assert x >= x / PAGE * PAGE;
  }

  /** The lowest inaccessible byte of an access. */
  ghost predicate LowestByte(m: Mem, addr: nat, len: nat, write: bool, x: nat) {
    && !Accessible(m, x, write)
    && (exists k :: 0 <= k < len && Addr(addr, k) == x)
    && forall k | 0 <= k < len && !Accessible(m, Addr(addr, k), write) :: x <= Addr(addr, k)
  }

  /** A refused access faults exactly if its lowest inaccessible byte is at or above 2^16 on an unmapped page. */
  lemma RefusedMeaning(m: Mem, addr: nat, len: nat, write: bool, x: nat)
    requires LowestByte(m, addr, len, write, x)
    ensures Check(m, addr, len, write)
         == if x >= 0x1_0000 && x / 4096 !in m.pages then Fault(x / 4096 * 4096) else Trap
  {
    LowestBadMeaning(m, addr, len, write);
    assert LowestBad(m, addr, len, write) == Some(x);
  }

  /** The capped page-wise test accepts exactly the ranges whose every byte is accessible. */
  lemma RangeOkMeaning(m: Mem, address: u32, len: nat, write: bool)
    ensures RangeOk(m, address, len, write)
       <==> forall x | address <= x < address + len :: Accessible(m, x, write)
  {
    if len > 0 {
      if RangeOk(m, address, len, write) {
        forall x | address <= x < address + len
          ensures Accessible(m, x, write)
        {
          assert Accessible(m, x / PAGE * PAGE, write);
        }
      }
      if forall x | address <= x < address + len :: Accessible(m, x, write) {
        RangeAccepted(m, address, len, write);
      }
    }
  }

  lemma RangeAccepted(m: Mem, address: u32, len: nat, write: bool)
    requires len > 0
    requires forall x | address <= x < address + len :: Accessible(m, x, write)
    ensures RangeOk(m, address, len, write)
  {
    var first, last := address / PAGE, (address + len - 1) / PAGE;
    forall p | first <= p <= last
      ensures p in m.pages.Keys && Accessible(m, p * PAGE, write)
    {
      var x := Max(address, p * PAGE);
      assert Accessible(m, x, write);
    }
    SubsetSize(Interval(first, last - first + 1), m.pages.Keys);
  }

  // ------------------------------------------------------------ reads after writes

  /** Mapping and permissions are untouched; only the named byte may change. */
  ghost predicate SameMap(m: Mem, n: Mem) {
    && n.heapTop == m.heapTop && n.heapMax == m.heapMax
    && n.pages.Keys == m.pages.Keys
    && forall p | p in m.pages :: n.pages[p].writable == m.pages[p].writable
  }

  lemma PokeEffect(m: Mem, x: nat, b: byte)
    ensures SameMap(m, Poke(m, x, b))
    ensures x / PAGE in m.pages ==> ByteAt(Poke(m, x, b), x) == b
    ensures forall y: nat | y != x :: ByteAt(Poke(m, x, b), y) == ByteAt(m, y)
  {
    forall y: nat | y != x
      ensures ByteAt(Poke(m, x, b), y) == ByteAt(m, y)
    {
      if y / PAGE == x / PAGE {
        assert y % PAGE != x % PAGE;
      }
    }
  }

  /** Distinct offsets of one access name distinct addresses. */
  lemma AddrInjective(addr: nat, j: nat, k: nat)
    requires j < k < W32
    ensures Addr(addr, j) != Addr(addr, k)
  {
    SplitAt(addr + j, W32);
    SplitAt(addr + k, W32);
  }

  ghost predicate Touches(addr: nat, len: nat, y: nat) {
    exists k :: 0 <= k < len && y == Addr(addr, k)
  }

  /** Byte-level effect of a write whose pages are all mapped. */
  lemma {:induction false} WriteEffect(m: Mem, addr: nat, len: nat, value: nat)
    requires len <= 8
    requires forall k | 0 <= k < len :: Addr(addr, k) / PAGE in m.pages
    ensures SameMap(m, WriteLE(m, addr, len, value))
    ensures forall k | 0 <= k < len :: ByteAt(WriteLE(m, addr, len, value), Addr(addr, k)) == Digit(value, k)
    ensures forall y: nat | !Touches(addr, len, y) :: ByteAt(WriteLE(m, addr, len, value), y) == ByteAt(m, y)
  {
    if len > 0 {
      var before, x := WriteLE(m, addr, len - 1, value), Addr(addr, len - 1);
      WriteEffect(m, addr, len - 1, value);
      PokeEffect(before, x, Digit(value, len - 1));
      forall k | 0 <= k < len - 1
        ensures ByteAt(WriteLE(m, addr, len, value), Addr(addr, k)) == Digit(value, k)
      {
        AddrInjective(addr, k, len - 1);
      }
      forall y: nat | !Touches(addr, len, y)
        ensures ByteAt(WriteLE(m, addr, len, value), y) == ByteAt(m, y)
      {
        assert y != x;
        assert !Touches(addr, len - 1, y);
      }
    }
  }

  /** Reading depends only on the bytes touched. */
  lemma {:induction false} ReadOfBytes(m: Mem, addr: nat, len: nat, value: nat)
    requires forall k | 0 <= k < len :: ByteAt(m, Addr(addr, k)) == Digit(value, k)
    ensures ReadLE(m, addr, len) == value % Pow256(len)
  {
    if len > 0 {
      ReadOfBytes(m, addr, len - 1, value);
      DigitStep(value, Pow256(len - 1));
    }
  }

  /** A granted write reads back modulo its width and changes no other byte and no permission. */
  lemma WriteReadBack(m: Mem, addr: nat, len: nat, value: nat)
    requires len <= 8 && Check(m, addr, len, true) == Granted
    ensures ReadLE(WriteLE(m, addr, len, value), addr, len) == value % Pow256(len)
    ensures forall y: nat | !Touches(addr, len, y) :: ByteAt(WriteLE(m, addr, len, value), y) == ByteAt(m, y)
    ensures SameMap(m, WriteLE(m, addr, len, value))
  {
    GrantedMeaning(m, addr, len, true);
    WriteEffect(m, addr, len, value);
    ReadOfBytes(WriteLE(m, addr, len, value), addr, len, value);
  }

  // ------------------------------------------------------------ read-only pages

  ghost predicate ReadOnlyKept(m: Mem, n: Mem) {
    forall p | p in m.pages && !m.pages[p].writable :: p in n.pages && n.pages[p] == m.pages[p]
  }

  /** A granted write leaves every read-only page byte for byte as it was. */
  lemma {:induction false} WriteKeepsReadOnly(m: Mem, addr: nat, len: nat, value: nat)
    requires forall k | 0 <= k < len :: Accessible(m, Addr(addr, k), true)
    ensures ReadOnlyKept(m, WriteLE(m, addr, len, value))
    ensures SameMap(m, WriteLE(m, addr, len, value))
  {
    if len > 0 {
      WriteKeepsReadOnly(m, addr, len - 1, value);
      PokeEffect(WriteLE(m, addr, len - 1, value), Addr(addr, len - 1), Digit(value, len - 1));
      assert Accessible(m, Addr(addr, len - 1), true);
    }
  }

  lemma {:induction false} StoreKeepsMap(m: Mem, address: nat, data: bytes)
    ensures SameMap(m, StoreBytes(m, address, data))
    decreases |data|
  {
    if data != [] {
      StoreKeepsMap(m, address, data[..|data| - 1]);
      PokeEffect(StoreBytes(m, address, data[..|data| - 1]), address + |data| - 1, data[|data| - 1]);
    }
  }

  /** Stored bytes load back when their pages are mapped. */
  lemma {:induction false} StoreEffect(m: Mem, address: nat, data: bytes)
    requires forall x | address <= x < address + |data| :: x / PAGE in m.pages
    ensures forall k | 0 <= k < |data| :: ByteAt(StoreBytes(m, address, data), address + k) == data[k]
    ensures forall y: nat | !(address <= y < address + |data|) ::
              ByteAt(StoreBytes(m, address, data), y) == ByteAt(m, y)
    decreases |data|
  {
    if data != [] {
      var init := data[..|data| - 1];
      StoreKeepsMap(m, address, init);
      StoreEffect(m, address, init);
      PokeEffect(StoreBytes(m, address, init), address + |data| - 1, data[|data| - 1]);
    }
  }
}

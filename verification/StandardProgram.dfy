/**
 * Standard program initialization: finding the program blob in its container, laying out the
 * address space, and the sandbox that every later run of instructions stays in.
 */
module StandardProgram {
  import opened Base
  import opened PagedMemory
  import opened PvmProgram
  import opened PvmExecute
  import opened PvmGas

  const ZONE: nat := 0x1_0000
  const INPUT: nat := 0x100_0000

  // ------------------------------------------------------------ container

  datatype Fields = Fields(olen: nat, wlen: nat, heapPages: nat, stack: nat)

  /** Field widths: 3-byte read-only, read-write and stack lengths, 2-byte heap page count. */
  predicate InRange(h: Fields) {
    h.olen < 0x100_0000 && h.wlen < 0x100_0000 && h.heapPages < 0x1_0000 && h.stack < 0x100_0000
  }

  type Header = h: Fields | InRange(h) witness Fields(0, 0, 0, 0)

  /** Invocation arguments, and their length, fit the argument region. */
  type Args = b: bytes | |b| <= INPUT witness []
  type ArgLen = n: nat | n <= INPUT

  function ReadHeader(b: bytes, at: nat): Header
    requires at + 11 <= |b|
  {
    HeaderWidths();
    Fields(LE(b, at, 3), LE(b, at + 3, 3), LE(b, at + 6, 2), LE(b, at + 8, 3))
  }

  lemma HeaderWidths()
    ensures Pow256(2) == 0x1_0000 && Pow256(3) == 0x100_0000
  {
    assert Pow256(2) == 256 * Pow256(1);
    assert Pow256(3) == 256 * Pow256(2);
  }

  /** A header at `start` whose lengths consume the container exactly. */
  predicate FitsAt(b: bytes, start: nat) {
    && start + 11 <= |b|
    && var at := start + 11 + ReadHeader(b, start).olen + ReadHeader(b, start).wlen;
       at + 4 <= |b| && at + 4 + LE(b, at, 4) == |b|
  }

  /** The first of 256 offsets where a header fits. */
  method ProgramOffset(b: bytes) returns (r: Option<nat>)
    ensures match r
            case Some(start) => start < 256 && FitsAt(b, start) && forall j | 0 <= j < start :: !FitsAt(b, j)
            case None => forall j | 0 <= j < 256 :: !FitsAt(b, j)
  {
    var start := 0;
    while start < 256
      invariant 0 <= start <= 256
      invariant forall j | 0 <= j < start :: !FitsAt(b, j)
    {
      if start + 11 > |b| {
        return None;
      }
      var h := ReadHeader(b, start);
      var at := start + 11 + h.olen + h.wlen;
      if at + 4 <= |b| {
        if at + 4 + LE(b, at, 4) == |b| {
          return Some(start);
        }
      }
      start := start + 1;
    }
    return None;
  }

  // ------------------------------------------------------------ layout

  function PageUp(x: nat): (r: nat)
    ensures x <= r < x + PAGE
  {
    PAGE * DivCeil(x, PAGE)
  }

  function ZoneUp(x: nat): nat {
    ZONE * DivCeil(x, ZONE)
  }

  /** Region bounds of an initialized address space. */
  datatype Layout = Layout(
    roEnd: nat, heapBase: nat, heapTop: nat, heapMax: nat, stackLo: nat, stackEnd: nat, argLo: nat, argEnd: nat)

  function LayoutOf(h: Header, argLen: nat): Layout {
    var heapBase := 2 * ZONE + ZoneUp(h.olen);
    Layout(
      ZONE + PageUp(h.olen),
      heapBase,
      heapBase + PageUp(h.wlen) + h.heapPages * PAGE,
      heapBase + ZoneUp(h.wlen + h.heapPages * PAGE),
      W32 - 2 * ZONE - INPUT - PageUp(h.stack),
      W32 - 2 * ZONE - INPUT,
      W32 - ZONE - INPUT,
      W32 - ZONE - INPUT + PageUp(argLen))
  }

  predicate PageAligned(x: int) {
    x % PAGE == 0
  }

  lemma PageUpAligned(x: nat)
    ensures PageAligned(PageUp(x))
  {
    QuotientUnique(PageUp(x), PAGE, DivCeil(x, PAGE), 0);
  }

  lemma ZoneUpBounds(x: nat)
    ensures PageUp(x) <= ZoneUp(x) < x + ZONE
  {
    var d, e := DivCeil(x, PAGE), DivCeil(x, ZONE);
    assert ZONE * e >= x;
    assert d <= 16 * e;
  }

  lemma ZoneUpAligned(x: nat)
    ensures PageAligned(ZoneUp(x))
  {
    var e := DivCeil(x, ZONE);
    QuotientUnique(ZONE * e, PAGE, 16 * e, 0);
  }

  /** The four regions are ordered, hence disjoint, page aligned, and inside the 32-bit space. */
  predicate Ordered(l: Layout) {
    && GUARD <= ZONE <= l.roEnd < l.heapBase <= l.heapTop <= l.heapMax < l.stackLo
    && l.stackLo <= l.stackEnd < l.argLo <= l.argEnd <= W32 && l.argLo < W32
    && PageAligned(l.roEnd) && PageAligned(l.heapBase) && PageAligned(l.heapTop) && PageAligned(l.heapMax)
    && PageAligned(l.stackLo) && PageAligned(l.stackEnd) && PageAligned(l.argLo) && PageAligned(l.argEnd)
  }

  lemma PageUpShift(x: nat, n: nat)
    ensures PageUp(x + n * PAGE) == PageUp(x) + n * PAGE
  {
    assert DivCeil(x + n * PAGE, PAGE) == DivCeil(x, PAGE) + n;
  }

  lemma LayoutOrdered(h: Header, argLen: ArgLen)
    ensures Ordered(LayoutOf(h, argLen))
  {
    var w := h.wlen + h.heapPages * PAGE;
    PageUpShift(h.wlen, h.heapPages);
    ZoneUpBounds(h.olen);
    ZoneUpBounds(w);
    LayoutAligned(h, argLen);
  }

  lemma LayoutAligned(h: Header, argLen: ArgLen)
    ensures var l := LayoutOf(h, argLen);
            && PageAligned(l.roEnd) && PageAligned(l.heapBase) && PageAligned(l.heapTop) && PageAligned(l.heapMax)
            && PageAligned(l.stackLo) && PageAligned(l.stackEnd) && PageAligned(l.argLo) && PageAligned(l.argEnd)
  {
    var l, w := LayoutOf(h, argLen), h.wlen + h.heapPages * PAGE;
    PageUpShift(h.wlen, h.heapPages);
    PageUpAligned(h.olen);
    ZoneUpAligned(h.olen);
    PageUpAligned(w);
    ZoneUpAligned(w);
    PageUpAligned(h.stack);
    PageUpAligned(argLen);
    AlignedSum(2 * ZONE, ZoneUp(h.olen));
    AlignedSum(l.heapBase, PageUp(w));
    AlignedSum(l.heapBase, ZoneUp(w));
    AlignedSum(ZONE, PageUp(h.olen));
    AlignedSum(0, PageUp(h.stack));
    AlignedSum(l.stackEnd, 0 - PageUp(h.stack));
    AlignedSum(l.argLo, PageUp(argLen));
  }

  lemma AlignedSum(x: int, y: int)
    requires PageAligned(x) && PageAligned(y)
    ensures PageAligned(x + y) && PageAligned(-y)
  {
  }

  // ------------------------------------------------------------ the initial image

  /** Maps `[lo, end)` and fills it from its start. */
  function AddRegion(m: Mem, lo: u32, end: nat, writable: bool, data: bytes): Mem
    requires lo <= end && end - lo < W32
  {
    StoreBytes(MapRegion(m, lo, end - lo, writable), lo, data)
  }

  /** Read-only data and heap come first, and fix the program break and its limit. */
  function ImageHeap(l: Layout, ro: bytes, rw: bytes): Mem
    requires Ordered(l)
  {
    var m := AddRegion(AddRegion(Mem(map[], 0, 0), ZONE, l.roEnd, false, ro), l.heapBase, l.heapTop, true, rw);
    m.(heapTop := l.heapTop, heapMax := l.heapMax)
  }

  function ImageStack(l: Layout, m: Mem, args: bytes): Mem
    requires Ordered(l)
  {
    AddRegion(AddRegion(m, l.stackLo, l.stackEnd, true, []), l.argLo, l.argEnd, false, args)
  }

  /** The memory image: read-only data, heap, stack and arguments. */
  function InitialMem(h: Header, ro: bytes, rw: bytes, args: Args): Mem {
    LayoutOrdered(h, |args|);
    var l := LayoutOf(h, |args|);
    ImageStack(l, ImageHeap(l, ro, rw), args)
  }

  datatype Image = Image(pvm: bytes, regs: Regs, mem: Mem)

  /** Return address, stack top, and the argument address and length; other registers are zero. */
  function InitialRegs(argLen: ArgLen): Regs {
    [W32 - 0x1_0000, W32 - 2 * ZONE - INPUT, 0, 0, 0, 0, 0, W32 - ZONE - INPUT, argLen, 0, 0, 0, 0]
  }

  /** The read-only data, read-write data and code of the program whose header is at `at`. */
  function Cut(jam: bytes, at: nat): (bytes, bytes, bytes)
    requires FitsAt(jam, at)
  {
    var h := ReadHeader(jam, at);
    var roEnd, rwEnd := at + 11 + h.olen, at + 11 + h.olen + h.wlen;
    (jam[at + 11..roEnd], jam[roEnd..rwEnd], jam[rwEnd + 4..])
  }

  function ImageAt(jam: bytes, at: nat, args: Args): Image
    requires FitsAt(jam, at)
  {
    var (ro, rw, pvm) := Cut(jam, at);
    Image(pvm, InitialRegs(|args|), InitialMem(ReadHeader(jam, at), ro, rw, args))
  }

  /** Cuts the container along its header with a moving offset that never leaves it. */
  method CutContainer(jam: bytes, at: nat) returns (ro: bytes, rw: bytes, pvm: bytes)
    requires FitsAt(jam, at)
    ensures (ro, rw, pvm) == Cut(jam, at)
  {
    var h := ReadHeader(jam, at);
    var o := at + 11;
    ro := jam[o..o + h.olen];
    o := o + h.olen;
    rw := jam[o..o + h.wlen];
    o := o + h.wlen;
    var plen := LE(jam, o, 4);
    o := o + 4;
    pvm := jam[o..o + plen];
    assert pvm == jam[o..];
  }

  method LoadImage(jam: bytes, at: nat, args: Args) returns (image: Image)
    requires FitsAt(jam, at)
    ensures image == ImageAt(jam, at, args)
  {
    var ro, rw, pvm := CutContainer(jam, at);
    var mem := BuildMemory(ReadHeader(jam, at), ro, rw, args);
    image := Image(pvm, InitialRegs(|args|), mem.View());
  }

  /** Builds the image at the first fitting header. */
  method Initialize(jam: bytes, args: Args) returns (r: Option<Image>)
    ensures r.None? <==> forall j | 0 <= j < 256 :: !FitsAt(jam, j)
    ensures r.Some? ==> exists at :: 0 <= at < 256 && FitsAt(jam, at) && r.value == ImageAt(jam, at, args)
                                       && forall j | 0 <= j < at :: !FitsAt(jam, j)
  {
    var base := ProgramOffset(jam);
    match base {
      case None =>
        return None;
      case Some(at) =>
        var image := LoadImage(jam, at, args);
        return Some(image);
    }
  }

  method Place(mem: Memory, lo: u32, end: nat, writable: bool, data: bytes)
    requires lo <= end && end - lo < W32
    modifies mem
    ensures mem.View() == AddRegion(old(mem.View()), lo, end, writable, data)
  {
    mem.Map(lo, end - lo, writable);
    mem.Store(lo, data);
  }

  method BuildMemory(h: Header, ro: bytes, rw: bytes, args: Args) returns (mem: Memory)
    ensures fresh(mem) && mem.View() == InitialMem(h, ro, rw, args)
  {
    LayoutOrdered(h, |args|);
    var l := LayoutOf(h, |args|);
    mem := new Memory();
    Place(mem, ZONE, l.roEnd, false, ro);
    Place(mem, l.heapBase, l.heapTop, true, rw);
    mem.SetHeap(l.heapTop, l.heapMax);
    assert mem.View() == ImageHeap(l, ro, rw);
    Place(mem, l.stackLo, l.stackEnd, true, []);
    Place(mem, l.argLo, l.argEnd, false, args);
  }

  predicate PageIn(p: nat, lo: nat, end: nat) {
    lo <= p * PAGE < end
  }

  lemma AlignedRegion(lo: nat, end: nat, p: nat)
    requires PageAligned(lo) && PageAligned(end) && lo <= end
    ensures lo / PAGE <= p < DivCeil(end, PAGE) <==> PageIn(p, lo, end)
  {
  }

  /** A region adds exactly its own pages with its own permission; others keep theirs. */
  lemma AddRegionMap(m: Mem, lo: u32, end: nat, writable: bool, data: bytes, p: nat)
    requires PageAligned(lo) && PageAligned(end) && lo <= end && end - lo < W32
    ensures var n := AddRegion(m, lo, end, writable, data);
            && n.heapTop == m.heapTop && n.heapMax == m.heapMax
            && (p in n.pages <==> p in m.pages || PageIn(p, lo, end))
            && (p in n.pages ==> n.pages[p].writable == if p in m.pages then m.pages[p].writable else writable)
  {
    AlignedRegion(lo, end, p);
    StoreKeepsMap(MapRegion(m, lo, end - lo, writable), lo, data);
  }

  /** A region holds its data; every byte outside the data reads as before. */
  lemma AddRegionBytes(m: Mem, lo: u32, end: nat, writable: bool, data: bytes, x: nat)
    requires lo + |data| <= end && end - lo < W32
    ensures ByteAt(AddRegion(m, lo, end, writable, data), x)
         == if lo <= x < lo + |data| then data[x - lo] else ByteAt(m, x)
  {
    var n := MapRegion(m, lo, end - lo, writable);
    forall y | lo <= y < lo + |data|
      ensures y / PAGE in n.pages
    {
      assert lo / PAGE <= y / PAGE < DivCeil(end, PAGE);
    }
    StoreEffect(n, lo, data);
    if lo <= x < lo + |data| {
      assert ByteAt(StoreBytes(n, lo, data), lo + (x - lo)) == data[x - lo];
    }
    assert ByteAt(n, x) == ByteAt(m, x);
  }

  /** Which pages the image maps and which of them are writable. */
  lemma InitialMap(h: Header, ro: bytes, rw: bytes, args: Args, p: nat)
    ensures var l := LayoutOf(h, |args|); var m := InitialMem(h, ro, rw, args);
            && m.heapTop == l.heapTop && m.heapMax == l.heapMax
            && (p in m.pages <==> PageIn(p, ZONE, l.roEnd) || PageIn(p, l.heapBase, l.heapTop)
                                  || PageIn(p, l.stackLo, l.stackEnd) || PageIn(p, l.argLo, l.argEnd))
            && (p in m.pages ==> (m.pages[p].writable <==>
                                  PageIn(p, l.heapBase, l.heapTop) || PageIn(p, l.stackLo, l.stackEnd)))
  {
    LayoutOrdered(h, |args|);
    var l := LayoutOf(h, |args|);
    HeapMap(l, ro, rw, p);
    StackMap(l, ImageHeap(l, ro, rw), args, p);
  }

  lemma HeapMap(l: Layout, ro: bytes, rw: bytes, p: nat)
    requires Ordered(l)
    ensures var m := ImageHeap(l, ro, rw);
            && m.heapTop == l.heapTop && m.heapMax == l.heapMax
            && (p in m.pages <==> PageIn(p, ZONE, l.roEnd) || PageIn(p, l.heapBase, l.heapTop))
            && (p in m.pages ==> (m.pages[p].writable <==> PageIn(p, l.heapBase, l.heapTop)))
  {
    AddRegionMap(Mem(map[], 0, 0), ZONE, l.roEnd, false, ro, p);
    AddRegionMap(AddRegion(Mem(map[], 0, 0), ZONE, l.roEnd, false, ro), l.heapBase, l.heapTop, true, rw, p);
  }

  lemma StackMap(l: Layout, m: Mem, args: bytes, p: nat)
    requires Ordered(l)
    ensures var n := ImageStack(l, m, args);
            && n.heapTop == m.heapTop && n.heapMax == m.heapMax
            && (p in n.pages <==> p in m.pages || PageIn(p, l.stackLo, l.stackEnd) || PageIn(p, l.argLo, l.argEnd))
            && (p in n.pages ==>
                  n.pages[p].writable == if p in m.pages then m.pages[p].writable else PageIn(p, l.stackLo, l.stackEnd))
  {
    AddRegionMap(m, l.stackLo, l.stackEnd, true, [], p);
    AddRegionMap(AddRegion(m, l.stackLo, l.stackEnd, true, []), l.argLo, l.argEnd, false, args, p);
  }

  // ------------------------------------------------------------ the sandbox

  /** What instructions may have made of the memory `m0`, whose heap begins at `heapBase`. */
  ghost predicate Sandboxed(m0: Mem, heapBase: nat, m: Mem) {
    && m.heapMax == m0.heapMax && m0.heapTop <= m.heapTop <= m.heapMax
    && (forall p | p in m0.pages :: p in m.pages && m.pages[p].writable == m0.pages[p].writable)
    && ReadOnlyKept(m0, m)
    && (forall p | p in m.pages && p !in m0.pages :: m.pages[p].writable && PageIn(p, m0.heapTop, m0.heapMax))
    && (forall p | PageIn(p, heapBase, m.heapTop) :: p in m.pages && m.pages[p].writable)
  }

  /** A memory from which the sandbox can start: an aligned heap zone holding only writable pages. */
  ghost predicate SandboxRoot(m0: Mem, heapBase: nat) {
    && PageAligned(heapBase) && PageAligned(m0.heapTop) && PageAligned(m0.heapMax)
    && heapBase <= m0.heapTop <= m0.heapMax
    && (forall p | p in m0.pages && PageIn(p, heapBase, m0.heapMax) :: m0.pages[p].writable)
    && (forall p | PageIn(p, heapBase, m0.heapTop) :: p in m0.pages)
  }

  lemma InitialSandboxed(h: Header, ro: bytes, rw: bytes, args: Args)
    ensures var m := InitialMem(h, ro, rw, args); var base := LayoutOf(h, |args|).heapBase;
            SandboxRoot(m, base) && Sandboxed(m, base, m)
  {
    LayoutOrdered(h, |args|);
    forall p: nat {
      InitialMap(h, ro, rw, args, p);
    }
    InitialMap(h, ro, rw, args, 0);
  }

  /** The pages `sbrk` maps lie between the page of the old break and the page of the new one. */
  lemma GrowthPages(lo: nat, old_: nat, new_: nat, max: nat, p: nat)
    requires PageAligned(lo) && PageAligned(max) && lo <= old_ <= new_ <= max
    requires old_ / PAGE <= p < DivCeil(new_, PAGE)
    ensures PageIn(p, lo, max)
  {
  }

  lemma GrowthCovers(old_: nat, new_: nat, p: nat)
    requires old_ <= p * PAGE < new_
    ensures old_ / PAGE <= p < DivCeil(new_, PAGE)
  {
  }

  lemma SbrkSandboxed(m0: Mem, heapBase: nat, m: Mem, size: u32)
    requires SandboxRoot(m0, heapBase) && Sandboxed(m0, heapBase, m)
    ensures Sandboxed(m0, heapBase, Sbrk(m, size).0)
  {
    var (n, _) := Sbrk(m, size);
    if size != 0 && m.heapTop + size <= m.heapMax {
      forall p | p in n.pages && p !in m.pages
        ensures n.pages[p].writable && (p !in m0.pages ==> PageIn(p, m0.heapTop, m0.heapMax))
      {
        GrowthPages(m0.heapTop, m.heapTop, n.heapTop, m.heapMax, p);
      }
      forall p: nat | PageIn(p, heapBase, n.heapTop)
        ensures p in n.pages && n.pages[p].writable
      {
        if p * PAGE >= m.heapTop {
          GrowthCovers(m.heapTop, n.heapTop, p);
          if p in m.pages && p in m0.pages {
            assert PageIn(p, heapBase, m0.heapMax);
          }
        } else {
          assert PageIn(p, heapBase, m.heapTop);
        }
      }
    }
  }

  lemma StoreSandboxed(m0: Mem, heapBase: nat, c: Cpu, address: u64, len: nat, value: u64)
    requires Sandboxed(m0, heapBase, c.mem)
    ensures Sandboxed(m0, heapBase, StoreOp(c, address, len, value).1.mem)
  {
    var addr := address % W32;
    if Check(c.mem, addr, len, true) == Granted {
      LowestBadMeaning(c.mem, addr, len, true);
      WriteKeepsReadOnly(c.mem, addr, len, value);
    }
  }

  lemma ExecuteSandboxed(m0: Mem, heapBase: nat, p: Program, alu: Alu, op: nat, i: nat, ell: nat, c: Cpu)
    requires SandboxRoot(m0, heapBase) && Sandboxed(m0, heapBase, c.mem)
    ensures Sandboxed(m0, heapBase, Execute(p, alu, op, i, ell, c).1.mem)
  {
    forall size: u32 {
      SbrkSandboxed(m0, heapBase, c.mem, size);
    }
    forall address: u64, len: nat, value: u64 {
      StoreSandboxed(m0, heapBase, c, address, len, value);
    }
  }

  lemma StepSandboxed(m0: Mem, heapBase: nat, p: Program, alu: Alu, s: State)
    requires SandboxRoot(m0, heapBase) && Sandboxed(m0, heapBase, s.cpu.mem)
    ensures Sandboxed(m0, heapBase, Step(p, Semantics(p, alu), s).0.cpu.mem)
  {
    ExecuteSandboxed(m0, heapBase, p, alu, CurrentOp(p, s.pc), s.pc, Skip(p.bitmask, s.pc), s.cpu);
  }

  /** Whatever the program does, every state of every run of instructions is in the sandbox. */
  lemma {:induction false} RunSandboxed(m0: Mem, heapBase: nat, p: Program, alu: Alu, s: State, k: nat)
    requires SandboxRoot(m0, heapBase) && Sandboxed(m0, heapBase, s.cpu.mem)
    requires After(p, Semantics(p, alu), s, k).Some?
    ensures Sandboxed(m0, heapBase, After(p, Semantics(p, alu), s, k).value.cpu.mem)
  {
    if k > 0 {
      RunSandboxed(m0, heapBase, p, alu, s, k - 1);
      StepSandboxed(m0, heapBase, p, alu, After(p, Semantics(p, alu), s, k - 1).value);
    }
  }

  /**
   * What holds of a memory `m` grown from the image `m0`: the break is at or below its limit, which is
   * below the stack; the heap under the break is mapped writable; read-only data and arguments are
   * unchanged; and nothing outside the four regions is accessible.
   */
  ghost predicate InSandbox(l: Layout, m0: Mem, m: Mem) {
    && m.heapTop <= m.heapMax == l.heapMax < l.stackLo
    && (forall q | PageIn(q, l.heapBase, m.heapTop) :: q in m.pages && m.pages[q].writable)
    && (forall x: nat | ZONE <= x < l.roEnd || l.argLo <= x < l.argEnd ::
          ByteAt(m, x) == ByteAt(m0, x) && !Accessible(m, x, true))
    && (forall x: nat | Accessible(m, x, false) ::
          ZONE <= x < l.roEnd || l.heapBase <= x < l.heapMax || l.stackLo <= x < l.stackEnd || l.argLo <= x < l.argEnd)
  }

  lemma SandboxMeaning(h: Header, ro: bytes, rw: bytes, args: Args, m: Mem)
    requires Sandboxed(InitialMem(h, ro, rw, args), LayoutOf(h, |args|).heapBase, m)
    ensures InSandbox(LayoutOf(h, |args|), InitialMem(h, ro, rw, args), m)
  {
    var l, m0 := LayoutOf(h, |args|), InitialMem(h, ro, rw, args);
    LayoutOrdered(h, |args|);
    InitialMap(h, ro, rw, args, 0);
    forall x: nat | ZONE <= x < l.roEnd || l.argLo <= x < l.argEnd
      ensures ByteAt(m, x) == ByteAt(m0, x) && !Accessible(m, x, true)
    {
      InitialMap(h, ro, rw, args, x / PAGE);
      PageOfAddress(ZONE, l.roEnd, x);
      PageOfAddress(l.argLo, l.argEnd, x);
      PageOfAddress(l.heapBase, l.heapTop, x);
      PageOfAddress(l.stackLo, l.stackEnd, x);
    }
    forall x: nat | Accessible(m, x, false)
      ensures || ZONE <= x < l.roEnd || l.heapBase <= x < l.heapMax
              || l.stackLo <= x < l.stackEnd || l.argLo <= x < l.argEnd
    {
      InitialMap(h, ro, rw, args, x / PAGE);
      PageOfAddress(ZONE, l.roEnd, x);
      PageOfAddress(l.argLo, l.argEnd, x);
      PageOfAddress(l.heapBase, l.heapMax, x);
      PageOfAddress(l.heapTop, l.heapMax, x);
      PageOfAddress(l.heapBase, l.heapTop, x);
      PageOfAddress(l.stackLo, l.stackEnd, x);
    }
  }

  /** A machine state with the memory of a standard image. */
  ghost function Loaded(h: Header, ro: bytes, rw: bytes, args: Args, s: State): State {
    s.(cpu := s.cpu.(mem := InitialMem(h, ro, rw, args)))
  }

  /** From a standard image, whatever the program: every state of its run, at every moment, is in the sandbox. */
  lemma StandardRunSandbox(h: Header, ro: bytes, rw: bytes, args: Args, p: Program, alu: Alu, s: State, k: nat)
    ensures var t := After(p, Semantics(p, alu), Loaded(h, ro, rw, args, s), k);
            t.Some? ==> InSandbox(LayoutOf(h, |args|), InitialMem(h, ro, rw, args), t.value.cpu.mem)
  {
    var start := Loaded(h, ro, rw, args, s);
    var t := After(p, Semantics(p, alu), start, k);
    if t.Some? {
      InitialSandboxed(h, ro, rw, args);
      RunSandboxed(start.cpu.mem, LayoutOf(h, |args|).heapBase, p, alu, start, k);
      SandboxMeaning(h, ro, rw, args, t.value.cpu.mem);
    }
  }

  // ------------------------------------------------------------ stores by host calls

  /** Read-only data and arguments. */
  predicate ReadOnlyAddress(l: Layout, x: nat) {
    ZONE <= x < l.roEnd || l.argLo <= x < l.argEnd
  }

  /** The range meets read-only bytes only where it would store what the image `m0` has there. */
  predicate Harmless(l: Layout, m0: Mem, address: u32, data: bytes) {
    forall x | address <= x < address + |data| && ReadOnlyAddress(l, x) :: data[x - address] == ByteAt(m0, x)
  }

  /** What is stored on a mapped page is there afterwards. */
  lemma {:induction false} StoredByte(m: Mem, address: nat, data: bytes, x: nat)
    requires address <= x < address + |data| && x / PAGE in m.pages
    ensures ByteAt(StoreBytes(m, address, data), x) == data[x - address]
    decreases |data|
  {
    var init, last := data[..|data| - 1], address + |data| - 1;
    StoreKeepsMap(m, address, init);
    PokeEffect(StoreBytes(m, address, init), last, data[|data| - 1]);
    if x < last {
      StoredByte(m, address, init, x);
    }
  }

  lemma {:induction false} HarmlessStore(m0: Mem, heapBase: nat, m: Mem, address: nat, data: bytes)
    requires Sandboxed(m0, heapBase, m)
    requires forall x | address <= x < address + |data| && x / PAGE in m0.pages && !m0.pages[x / PAGE].writable ::
               data[x - address] == ByteAt(m0, x)
    ensures Sandboxed(m0, heapBase, StoreBytes(m, address, data))
    decreases |data|
  {
    if data != [] {
      var init, last := data[..|data| - 1], address + |data| - 1;
      HarmlessStore(m0, heapBase, m, address, init);
      HarmlessPoke(m0, heapBase, StoreBytes(m, address, init), last, data[|data| - 1]);
    }
  }

  lemma HarmlessPoke(m0: Mem, heapBase: nat, m: Mem, x: nat, b: byte)
    requires Sandboxed(m0, heapBase, m)
    requires x / PAGE in m0.pages && !m0.pages[x / PAGE].writable ==> b == ByteAt(m0, x)
    ensures Sandboxed(m0, heapBase, Poke(m, x, b))
  {
    var q := x / PAGE;
    if q in m0.pages && !m0.pages[q].writable {
      assert m.pages[q].data[x % PAGE := b] == m.pages[q].data;
      assert Poke(m, x, b).pages[q] == m.pages[q];
    }
  }

  lemma ReadOnlyPages(h: Header, ro: bytes, rw: bytes, args: Args, x: nat)
    ensures var m0 := InitialMem(h, ro, rw, args);
            ReadOnlyAddress(LayoutOf(h, |args|), x) <==> x / PAGE in m0.pages && !m0.pages[x / PAGE].writable
  {
    var l := LayoutOf(h, |args|);
    LayoutOrdered(h, |args|);
    InitialMap(h, ro, rw, args, x / PAGE);
    PageOfAddress(ZONE, l.roEnd, x);
    PageOfAddress(l.argLo, l.argEnd, x);
    PageOfAddress(l.heapBase, l.heapTop, x);
    PageOfAddress(l.stackLo, l.stackEnd, x);
  }

  /** A host call's store ignores permissions: it keeps the sandbox if and only if it is harmless. */
  lemma HostStoreIff(h: Header, ro: bytes, rw: bytes, args: Args, m: Mem, address: u32, data: bytes)
    requires Sandboxed(InitialMem(h, ro, rw, args), LayoutOf(h, |args|).heapBase, m)
    ensures var l := LayoutOf(h, |args|); var m0 := InitialMem(h, ro, rw, args); var n := StoreBytes(m, address, data);
            && (InSandbox(l, m0, n) <==> Harmless(l, m0, address, data))
            && (Harmless(l, m0, address, data) ==> Sandboxed(m0, l.heapBase, n))
  {
    var l, m0 := LayoutOf(h, |args|), InitialMem(h, ro, rw, args);
    forall x: nat
      ensures ReadOnlyAddress(l, x) <==> x / PAGE in m0.pages && !m0.pages[x / PAGE].writable
    {
      ReadOnlyPages(h, ro, rw, args, x);
    }
    if Harmless(l, m0, address, data) {
      HarmlessStore(m0, l.heapBase, m, address, data);
      SandboxMeaning(h, ro, rw, args, StoreBytes(m, address, data));
    } else {
      var x :| address <= x < address + |data| && ReadOnlyAddress(l, x) && data[x - address] != ByteAt(m0, x);
      StoredByte(m, address, data, x);
    }
  }

  /** A write check of the range, which the code does not make, would be enough. */
  lemma WritableIsHarmless(l: Layout, m0: Mem, m: Mem, address: u32, data: bytes)
    requires InSandbox(l, m0, m) && RangeOk(m, address, |data|, true)
    ensures Harmless(l, m0, address, data)
  {
    RangeOkMeaning(m, address, |data|, true);
    forall x | address <= x < address + |data|
      ensures !ReadOnlyAddress(l, x)
    {
      assert Accessible(m, x, true);
    }
  }

  /** The input: a host call told to store at 2^16 overwrites the first byte of a program's read-only data. */
  lemma ReadOnlyOverwritten(h: Header, ro: bytes, rw: bytes, args: Args, b: byte)
    requires |ro| == h.olen > 0 && |rw| == h.wlen && b != ro[0]
    ensures var m0 := InitialMem(h, ro, rw, args);
            ByteAt(m0, ZONE) == ro[0] && !InSandbox(LayoutOf(h, |args|), m0, StoreBytes(m0, ZONE, [b]))
  {
    var l, m0 := LayoutOf(h, |args|), InitialMem(h, ro, rw, args);
    InitialSandboxed(h, ro, rw, args);
    InitialContents(h, ro, rw, args, ZONE);
    LayoutOrdered(h, |args|);
    HostStoreIff(h, ro, rw, args, m0, ZONE, [b]);
    assert ReadOnlyAddress(l, ZONE);
  }

  /** An instruction in some machine state, or a store by a host call. */
  datatype Move = Instruction(s: State) | HostStore(address: u32, data: bytes)

  ghost function Moved(p: Program, alu: Alu, m: Mem, move: Move): Mem {
    match move
    case Instruction(s) => Step(p, Semantics(p, alu), s.(cpu := s.cpu.(mem := m))).0.cpu.mem
    case HostStore(address, data) => StoreBytes(m, address, data)
  }

  ghost predicate HarmlessMove(l: Layout, m0: Mem, move: Move) {
    move.HostStore? ==> Harmless(l, m0, move.address, move.data)
  }

  lemma MoveIff(h: Header, ro: bytes, rw: bytes, args: Args, p: Program, alu: Alu, m: Mem, move: Move)
    requires Sandboxed(InitialMem(h, ro, rw, args), LayoutOf(h, |args|).heapBase, m)
    ensures var l := LayoutOf(h, |args|); var m0 := InitialMem(h, ro, rw, args); var n := Moved(p, alu, m, move);
            && (InSandbox(l, m0, n) <==> HarmlessMove(l, m0, move))
            && (HarmlessMove(l, m0, move) ==> Sandboxed(m0, l.heapBase, n))
  {
    match move
    case Instruction(s) =>
      InitialSandboxed(h, ro, rw, args);
      StepSandboxed(InitialMem(h, ro, rw, args), LayoutOf(h, |args|).heapBase, p, alu, s.(cpu := s.cpu.(mem := m)));
      SandboxMeaning(h, ro, rw, args, Moved(p, alu, m, move));
    case HostStore(address, data) =>
      HostStoreIff(h, ro, rw, args, m, address, data);
  }

  /** The memory after a list of moves. */
  ghost function MovedAll(next: (Mem, Move) -> Mem, m: Mem, moves: seq<Move>): Mem {
    if moves == [] then m else next(MovedAll(next, m, moves[..|moves| - 1]), moves[|moves| - 1])
  }

  /** A property of the memories before, between and after the moves. */
  ghost predicate AllAlong(ok: Mem -> bool, next: (Mem, Move) -> Mem, m: Mem, moves: seq<Move>) {
    && ok(MovedAll(next, m, moves))
    && (moves != [] ==> AllAlong(ok, next, m, moves[..|moves| - 1]))
  }

  /** When a move keeps `ok` exactly if it is fine, and then keeps the invariant, all along means every move is fine. */
  lemma {:induction false} AllAlongIff(
    ok: Mem -> bool, inv: Mem -> bool, fine: Move -> bool, next: (Mem, Move) -> Mem, m: Mem, moves: seq<Move>)
    requires inv(m) && ok(m)
    requires forall n: Mem, v: Move | inv(n) :: (ok(next(n, v)) <==> fine(v)) && (fine(v) ==> inv(next(n, v)))
    ensures (forall v | v in moves :: fine(v)) ==> inv(MovedAll(next, m, moves))
    ensures (forall v | v in moves :: fine(v)) <==> AllAlong(ok, next, m, moves)
    decreases |moves|
  {
    if moves != [] {
      var init, last := moves[..|moves| - 1], moves[|moves| - 1];
      AllAlongIff(ok, inv, fine, next, m, init);
      assert moves == init + [last];
    }
  }

  ghost function Mover(p: Program, alu: Alu): (Mem, Move) -> Mem {
    (m: Mem, v: Move) => Moved(p, alu, m, v)
  }

  ghost function Inside(l: Layout, m0: Mem): Mem -> bool {
    (m: Mem) => InSandbox(l, m0, m)
  }

  ghost function FineMove(l: Layout, m0: Mem): Move -> bool {
    (v: Move) => HarmlessMove(l, m0, v)
  }

  /** Whatever is executed between them, a run with host stores stays in the sandbox iff every store is harmless. */
  lemma MixedRunIff(h: Header, ro: bytes, rw: bytes, args: Args, p: Program, alu: Alu, moves: seq<Move>)
    ensures var l := LayoutOf(h, |args|); var m0 := InitialMem(h, ro, rw, args);
            (forall v | v in moves :: FineMove(l, m0)(v)) <==> AllAlong(Inside(l, m0), Mover(p, alu), m0, moves)
  {
    var l, m0 := LayoutOf(h, |args|), InitialMem(h, ro, rw, args);
    var inv := (m: Mem) => Sandboxed(m0, l.heapBase, m);
    InitialSandboxed(h, ro, rw, args);
    SandboxMeaning(h, ro, rw, args, m0);
    forall m: Mem, v: Move | inv(m)
      ensures Inside(l, m0)(Mover(p, alu)(m, v)) <==> FineMove(l, m0)(v)
      ensures FineMove(l, m0)(v) ==> inv(Mover(p, alu)(m, v))
    {
      MoveIff(h, ro, rw, args, p, alu, m, v);
    }
    AllAlongIff(Inside(l, m0), inv, FineMove(l, m0), Mover(p, alu), m0, moves);
  }

  lemma PageOfAddress(lo: nat, end: nat, x: nat)
    requires PageAligned(lo) && PageAligned(end)
    ensures PageIn(x / PAGE, lo, end) <==> lo <= x < end
  {
  }

  /** The image holds the blob's data and the arguments, and reads as zero everywhere else. */
  lemma InitialContents(h: Header, ro: bytes, rw: bytes, args: Args, x: nat)
    requires |ro| == h.olen && |rw| == h.wlen
    ensures ByteAt(InitialMem(h, ro, rw, args), x) == ImageByte(LayoutOf(h, |args|), ro, rw, args, x)
  {
    LayoutOrdered(h, |args|);
    var l := LayoutOf(h, |args|);
    DataFits(h, |args|);
    HeapBytes(l, ro, rw, x);
    ImageBytes(l, ImageHeap(l, ro, rw), ro, rw, args, x);
  }

  lemma DataFits(h: Header, argLen: nat)
    ensures var l := LayoutOf(h, argLen);
            ZONE + h.olen <= l.roEnd && l.heapBase + h.wlen <= l.heapTop && l.argLo + argLen <= l.argEnd
  {
  }

  lemma ImageBytes(l: Layout, m: Mem, ro: bytes, rw: bytes, args: bytes, x: nat)
    requires Ordered(l) && l.argLo + |args| <= l.argEnd && ByteAt(m, x) == HeapByte(l, ro, rw, x)
    ensures ByteAt(ImageStack(l, m, args), x) == ImageByte(l, ro, rw, args, x)
  {
    StackBytes(l, m, args, x);
  }

  function HeapByte(l: Layout, ro: bytes, rw: bytes, x: nat): byte {
    if ZONE <= x < ZONE + |ro| then ro[x - ZONE]
    else if l.heapBase <= x < l.heapBase + |rw| then rw[x - l.heapBase]
    else 0
  }

  function ImageByte(l: Layout, ro: bytes, rw: bytes, args: bytes, x: nat): byte {
    if l.argLo <= x < l.argLo + |args| then args[x - l.argLo] else HeapByte(l, ro, rw, x)
  }

  lemma HeapBytes(l: Layout, ro: bytes, rw: bytes, x: nat)
    requires Ordered(l) && ZONE + |ro| <= l.roEnd && l.heapBase + |rw| <= l.heapTop
    ensures ByteAt(ImageHeap(l, ro, rw), x) == HeapByte(l, ro, rw, x)
  {
    var m1 := AddRegion(Mem(map[], 0, 0), ZONE, l.roEnd, false, ro);
    AddRegionBytes(Mem(map[], 0, 0), ZONE, l.roEnd, false, ro, x);
    AddRegionBytes(m1, l.heapBase, l.heapTop, true, rw, x);
  }

  lemma StackBytes(l: Layout, m: Mem, args: bytes, x: nat)
    requires Ordered(l) && l.argLo + |args| <= l.argEnd
    ensures ByteAt(ImageStack(l, m, args), x)
         == if l.argLo <= x < l.argLo + |args| then args[x - l.argLo] else ByteAt(m, x)
  {
    AddRegionBytes(m, l.stackLo, l.stackEnd, true, [], x);
    AddRegionBytes(AddRegion(m, l.stackLo, l.stackEnd, true, []), l.argLo, l.argEnd, false, args, x);
  }
}

/**
 * The container of a standard program from its writer's side: what is packed is found again, and stands in
 * the loaded image at the fixed addresses that the initial registers name.
 */
module StandardContainer {
  import opened Base
  import opened Codec
  import opened PagedMemory
  import opened PvmProgram
  import opened StandardProgram

  // ------------------------------------------------------------ packing

  function HeaderBytes(h: Header): (r: bytes)
    ensures |r| == 11
  {
    LowBytes(h.olen, 3) + LowBytes(h.wlen, 3) + LowBytes(h.heapPages, 2) + LowBytes(h.stack, 3)
  }

  /** Header, read-only data, read-write data, the length of the code in four bytes, and the code. */
  function Container(h: Header, ro: bytes, rw: bytes, code: bytes): bytes {
    HeaderBytes(h) + ro + rw + (LowBytes(|code|, 4) + code)
  }

  /** A header that states the lengths of its data, for code of a length that four bytes hold. */
  predicate Packs(h: Header, ro: bytes, rw: bytes, code: bytes) {
    |ro| == h.olen && |rw| == h.wlen && |code| < 0x1_0000_0000
  }

  lemma FieldAt(b: bytes, off: nat, n: nat, len: nat)
    requires At(b, off, LowBytes(n, len)) && n < Pow256(len)
    ensures LE(b, off, len) == n
  {
    ValueOfLowBytes(b, off, n, len);
    QuotientUnique(n, Pow256(len), 0, n);
  }

  lemma HeaderReads(b: bytes, at: nat, h: Header)
    requires At(b, at, HeaderBytes(h))
    ensures ReadHeader(b, at) == h
  {
    HeaderWidths();
    AtConcat4(b, at, LowBytes(h.olen, 3), LowBytes(h.wlen, 3), LowBytes(h.heapPages, 2), LowBytes(h.stack, 3));
    FieldAt(b, at, h.olen, 3);
    FieldAt(b, at + 3, h.wlen, 3);
    FieldAt(b, at + 6, h.heapPages, 2);
    FieldAt(b, at + 8, h.stack, 3);
  }

  lemma PartsAt(pre: bytes, head: bytes, ro: bytes, rw: bytes, size: bytes, code: bytes)
    ensures var b := pre + (head + ro + rw + (size + code));
            var o := |pre| + |head|; var e := o + |ro| + |rw| + |size|;
            && |b| == e + |code|
            && At(b, |pre|, head) && At(b, o + |ro| + |rw|, size)
            && b[o..o + |ro|] == ro && b[o + |ro|..o + |ro| + |rw|] == rw && b[e..] == code
  {
    var b, tail := pre + (head + ro + rw + (size + code)), size + code;
    AtConcat4(b, |pre|, head, ro, rw, tail);
    var o := |pre| + |head|;
    assert |head + ro| == |head| + |ro| && |head + ro + rw| == |head| + |ro| + |rw|;
    AtConcat(b, o + |ro| + |rw|, size, code);
    AtSlice(b, o, ro);
    AtSlice(b, o + |ro|, rw);
    AtSlice(b, o + |ro| + |rw| + |size|, code);
  }

  lemma FitsBySize(b: bytes, at: nat, h: Header, size: nat)
    requires at + 15 + h.olen + h.wlen + size == |b| && size < 0x1_0000_0000
    requires At(b, at, HeaderBytes(h)) && At(b, at + 11 + h.olen + h.wlen, LowBytes(size, 4))
    ensures FitsAt(b, at) && ReadHeader(b, at) == h
  {
    assert Width(4) == Pow256(4);
    HeaderReads(b, at, h);
    FieldAt(b, at + 11 + h.olen + h.wlen, size, 4);
  }

  lemma CutIs(b: bytes, at: nat, h: Header, ro: bytes, rw: bytes, code: bytes)
    requires FitsAt(b, at) && ReadHeader(b, at) == h && |ro| == h.olen && |rw| == h.wlen
    requires var o := at + 11;
             && b[o..o + |ro|] == ro && b[o + |ro|..o + |ro| + |rw|] == rw && b[o + |ro| + |rw| + 4..] == code
    ensures Cut(b, at) == (ro, rw, code)
  {
  }

  /** Wherever a container begins, if nothing follows it, it fits there and is cut into what was packed. */
  lemma ContainerRoundTrip(pre: bytes, h: Header, ro: bytes, rw: bytes, code: bytes)
    requires Packs(h, ro, rw, code)
    ensures var b := pre + Container(h, ro, rw, code);
            && FitsAt(b, |pre|) && ReadHeader(b, |pre|) == h
            && Cut(b, |pre|) == (ro, rw, code)
  {
    PartsAt(pre, HeaderBytes(h), ro, rw, LowBytes(|code|, 4), code);
    var b := pre + Container(h, ro, rw, code);
    FitsBySize(b, |pre|, h, |code|);
    CutIs(b, |pre|, h, ro, rw, code);
  }

  // ------------------------------------------------------------ the loaded image

  function PagesFor(n: nat): nat {
    (n + 4095) / 4096
  }

  function ZonesFor(n: nat): nat {
    (n + 65535) / 65536
  }

  lemma PagesBetween(first: nat, count: nat, p: nat)
    ensures PageIn(p, first * 4096, (first + count) * 4096) <==> first <= p < first + count
  {
  }

  /** The regions of the layout, counted in pages. */
  lemma LayoutPages(h: Header, argLen: ArgLen)
    ensures var l, heap := LayoutOf(h, argLen), 32 + 16 * ZonesFor(h.olen);
            && l.roEnd == (16 + PagesFor(h.olen)) * 4096
            && l.heapBase == heap * 4096
            && l.heapTop == (heap + PagesFor(h.wlen) + h.heapPages) * 4096
            && l.heapMax == (heap + 16 * ZonesFor(h.wlen + h.heapPages * 4096)) * 4096
            && l.stackLo == (0xfefe0 - PagesFor(h.stack)) * 4096
            && l.stackEnd == 0xfefe0 * 4096
            && l.argLo == 0xfeff0 * 4096
            && l.argEnd == (0xfeff0 + PagesFor(argLen)) * 4096
  {
  }

  /**
   * The pages of the image: read-only data from page 16, the heap from the second zone after it, the stack
   * below page 0xfefe0 and the arguments from page 0xfeff0; only heap and stack are writable.
   */
  lemma ImagePages(h: Header, ro: bytes, rw: bytes, args: Args, p: nat)
    ensures var m, heap, size := InitialMem(h, ro, rw, args), 32 + 16 * ZonesFor(h.olen), h.heapPages;
            var writes := heap <= p < heap + PagesFor(h.wlen) + size || 0xfefe0 - PagesFor(h.stack) <= p < 0xfefe0;
            && m.heapTop == (heap + PagesFor(h.wlen) + size) * 4096
            && m.heapMax == (heap + 16 * ZonesFor(h.wlen + size * 4096)) * 4096
            && (p in m.pages <==>
                  writes || 16 <= p < 16 + PagesFor(h.olen) || 0xfeff0 <= p < 0xfeff0 + PagesFor(|args|))
            && (p in m.pages ==> (m.pages[p].writable <==> writes))
  {
    InitialMap(h, ro, rw, args, p);
    LayoutPages(h, |args|);
    var heap := 32 + 16 * ZonesFor(h.olen);
    PagesBetween(16, PagesFor(h.olen), p);
    PagesBetween(heap, PagesFor(h.wlen) + h.heapPages, p);
    PagesBetween(0xfefe0 - PagesFor(h.stack), PagesFor(h.stack), p);
    PagesBetween(0xfeff0, PagesFor(|args|), p);
  }

  lemma LoadIs(m: Mem, address: nat, data: bytes)
    requires forall k | 0 <= k < |data| :: ByteAt(m, address + k) == data[k]
    ensures LoadBytes(m, address, |data|) == data
  {
  }

  ghost predicate Holds(m: Mem, l: Layout, ro: bytes, rw: bytes, args: bytes, x: nat) {
    ByteAt(m, x) == ImageByte(l, ro, rw, args, x)
  }

  lemma ReadOnlyLoads(m: Mem, l: Layout, ro: bytes, rw: bytes, args: bytes)
    requires ZONE + |ro| <= l.argLo && forall x: nat :: Holds(m, l, ro, rw, args, x)
    ensures LoadBytes(m, 0x1_0000, |ro|) == ro
  {
    forall k | 0 <= k < |ro|
      ensures ByteAt(m, 0x1_0000 + k) == ro[k]
    {
      assert Holds(m, l, ro, rw, args, 0x1_0000 + k);
    }
    LoadIs(m, 0x1_0000, ro);
  }

  lemma HeapLoads(m: Mem, l: Layout, ro: bytes, rw: bytes, args: bytes)
    requires ZONE + |ro| <= l.heapBase && l.heapBase + |rw| <= l.argLo
    requires forall x: nat :: Holds(m, l, ro, rw, args, x)
    ensures LoadBytes(m, l.heapBase, |rw|) == rw
  {
    forall k | 0 <= k < |rw|
      ensures ByteAt(m, l.heapBase + k) == rw[k]
    {
      assert Holds(m, l, ro, rw, args, l.heapBase + k);
    }
    LoadIs(m, l.heapBase, rw);
  }

  lemma ArgsLoad(m: Mem, l: Layout, ro: bytes, rw: bytes, args: bytes)
    requires forall x: nat :: Holds(m, l, ro, rw, args, x)
    ensures LoadBytes(m, l.argLo, |args|) == args
  {
    forall k | 0 <= k < |args|
      ensures ByteAt(m, l.argLo + k) == args[k]
    {
      assert Holds(m, l, ro, rw, args, l.argLo + k);
    }
    LoadIs(m, l.argLo, args);
  }

  lemma ImageBase(h: Header, argLen: ArgLen)
    ensures LayoutOf(h, argLen).argLo == 0xfeff_0000
    ensures LayoutOf(h, argLen).heapBase == (2 + ZonesFor(h.olen)) * 0x1_0000
  {
  }

  /** The return address, the top of the stack, and where the arguments are; other registers are zero. */
  lemma RegistersAre(argLen: ArgLen)
    ensures var regs := InitialRegs(argLen);
            && regs[0] == 0xffff_0000 && regs[1] == 0xfefe_0000
            && regs[7] == 0xfeff_0000 && regs[8] == argLen
            && regs[2..7] == [0, 0, 0, 0, 0] && regs[9..] == [0, 0, 0, 0]
  {
  }

  /** The image holds the data of the program at fixed addresses, and registers 7 and 8 locate its arguments. */
  lemma ImageLoads(h: Header, ro: bytes, rw: bytes, args: Args)
    requires |ro| == h.olen && |rw| == h.wlen
    ensures LoadBytes(InitialMem(h, ro, rw, args), InitialRegs(|args|)[7], InitialRegs(|args|)[8]) == args
    ensures LoadBytes(InitialMem(h, ro, rw, args), 0x1_0000, |ro|) == ro
    ensures LoadBytes(InitialMem(h, ro, rw, args), (2 + ZonesFor(h.olen)) * 0x1_0000, |rw|) == rw
  {
    RegistersAre(|args|);
    LayoutOrdered(h, |args|);
    DataFits(h, |args|);
    ImageBase(h, |args|);
    var m, l := InitialMem(h, ro, rw, args), LayoutOf(h, |args|);
    forall x: nat
      ensures Holds(m, l, ro, rw, args, x)
    {
      InitialContents(h, ro, rw, args, x);
    }
    ReadOnlyLoads(m, l, ro, rw, args);
    HeapLoads(m, l, ro, rw, args);
    ArgsLoad(m, l, ro, rw, args);
  }

  lemma ImageOfCut(jam: bytes, at: nat, h: Header, ro: bytes, rw: bytes, code: bytes, args: Args)
    requires FitsAt(jam, at) && ReadHeader(jam, at) == h && Cut(jam, at) == (ro, rw, code)
    ensures ImageAt(jam, at, args) == Image(code, InitialRegs(|args|), InitialMem(h, ro, rw, args))
  {
  }

  /** A packed program starts with its own code and data. */
  lemma PackedProgram(pre: bytes, h: Header, ro: bytes, rw: bytes, code: bytes, args: Args)
    requires Packs(h, ro, rw, code)
    ensures FitsAt(pre + Container(h, ro, rw, code), |pre|)
    ensures ImageAt(pre + Container(h, ro, rw, code), |pre|, args)
         == Image(code, InitialRegs(|args|), InitialMem(h, ro, rw, args))
  {
    ContainerRoundTrip(pre, h, ro, rw, code);
    ImageOfCut(pre + Container(h, ro, rw, code), |pre|, h, ro, rw, code, args);
  }
}

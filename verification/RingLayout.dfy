/** Where the packet buffers of the receive rings live: the (ring, slot) address computation and the
    translation of virtual to physical addresses of recv-to-pram. */
module RingLayout {
  import opened Wrappers
  import opened Arith

  const BUF_SIZE: nat := 2048

  /** The offset of the buffer of slot idx of ring ri, when every ring has `slots` slots. */
  function BufOffset(ri: nat, idx: nat, slots: nat): nat
  {
    slots * BUF_SIZE * ri + BUF_SIZE * idx
  }

  /** nmslot_to_buf. */
  function BufAt(base: nat, ri: nat, idx: nat, slots: nat): nat
  {
    base + BufOffset(ri, idx, slots)
  }

  lemma OffsetIsLinear(ri: nat, idx: nat, slots: nat)
    ensures BufOffset(ri, idx, slots) == (ri * slots + idx) * BUF_SIZE
  {
    assert slots * BUF_SIZE * ri == ri * slots * BUF_SIZE;
  }

  /** The address determines ring and slot, by division and remainder. */
  lemma LayoutInverse(base: nat, ri: nat, idx: nat, slots: nat)
    requires idx < slots
    ensures var offset := BufAt(base, ri, idx, slots) - base;
            offset >= 0 && offset % 2048 == 0 && offset / 2048 / slots == ri && offset / 2048 % slots == idx
  {
    OffsetIsLinear(ri, idx, slots);
    DivModUnique(BufOffset(ri, idx, slots), BUF_SIZE, ri * slots + idx, 0);
    DivModUnique(ri * slots + idx, slots, ri, idx);
  }

  /** Buffers of different slots, of the same ring or not, share no byte. */
  lemma BuffersDisjoint(base: nat, slots: nat, ri: nat, idx: nat, k: nat, ri': nat, idx': nat, k': nat)
    requires idx < slots && idx' < slots && k < BUF_SIZE && k' < BUF_SIZE
    requires BufAt(base, ri, idx, slots) + k == BufAt(base, ri', idx', slots) + k'
    ensures ri == ri' && idx == idx' && k == k'
  {
    OffsetIsLinear(ri, idx, slots);
    OffsetIsLinear(ri', idx', slots);
    DivModUnique(BufOffset(ri, idx, slots) + k, BUF_SIZE, ri * slots + idx, k);
    DivModUnique(BufOffset(ri, idx, slots) + k, BUF_SIZE, ri' * slots + idx', k');
    LayoutInverse(base, ri, idx, slots);
    LayoutInverse(base, ri', idx', slots);
  }

  /** All buffers lie inside the 64 MiB mapping exactly when there are at most 32768 of them; then no
      intermediate of the address computation leaves a 32-bit int either. */
  lemma FitsMappingIff(base: nat, rings: nat, slots: nat)
    ensures (forall ri: nat, idx: nat :: ri < rings && idx < slots ==>
               base <= BufAt(base, ri, idx, slots) && BufAt(base, ri, idx, slots) + 2048 <= base + 67108864)
       <==> rings * slots <= 32768
    ensures rings * slots <= 32768 ==>
              forall ri: nat, idx: nat :: ri < rings && idx < slots ==> BufOffset(ri, idx, slots) < 0x8000_0000
  {
    forall ri: nat, idx: nat | ri < rings && idx < slots
      ensures BufOffset(ri, idx, slots) + BUF_SIZE <= rings * slots * BUF_SIZE
    {
      OffsetIsLinear(ri, idx, slots);
      MulMono(ri + 1, rings, slots);
      assert (ri + 1) * slots == ri * slots + slots;
    }
    if rings > 0 && slots > 0 {
      OffsetIsLinear(rings - 1, slots - 1, slots);
      assert (rings - 1) * slots + slots == rings * slots;
      assert BufAt(base, rings - 1, slots - 1, slots) + BUF_SIZE == base + rings * slots * BUF_SIZE;
    } else {
      assert rings * slots == 0;
    }
  }

  /** Initialisation uses each ring's own slot count. Two rings, with s and t slots, share a buffer
      exactly when their intervals of buffer numbers meet; with equal counts that never happens. */
  lemma RingsShareBufferIff(i: nat, s: nat, j: nat, t: nat)
    requires s > 0 && t > 0
    ensures (exists idx: nat, idx': nat :: idx < s && idx' < t && BufOffset(i, idx, s) == BufOffset(j, idx', t))
       <==> i * s < j * t + t && j * t < i * s + s
  {
    forall idx: nat, idx': nat
      ensures BufOffset(i, idx, s) == BufOffset(j, idx', t) <==> i * s + idx == j * t + idx'
    {
      OffsetIsLinear(i, idx, s);
      OffsetIsLinear(j, idx', t);
    }
    if i * s < j * t + t && j * t < i * s + s {
      var idx, idx' := if i * s < j * t then j * t - i * s else 0, if i * s < j * t then 0 else i * s - j * t;
      assert BufOffset(i, idx, s) == BufOffset(j, idx', t);
    }
  }

  /** If ring 1 has 512 slots and ring 2 has 256, their first slots have one buffer. */
  lemma UnequalRingsShareBuffer()
    ensures BufOffset(2, 0, 256) == BufOffset(1, 0, 512)
    ensures exists idx: nat, idx': nat :: idx < 256 && idx' < 512 && BufOffset(2, idx, 256) == BufOffset(1, idx', 512)
  {
    RingsShareBufferIff(2, 256, 1, 512);
  }

  // ----- Translation -----

  /** The 55 bits of a pagemap entry that hold the frame number. */
  const FRAMES: nat := 0x80_0000_0000_0000

  function Frame(entry: nat): nat
  {
    entry % FRAMES
  }

  /** phy_addr: the process exits when the page has no entry or a zero one. */
  function PhyAddr(pagemap: map<nat, Word>, pagesize: nat, virt: nat): Option<Word>
    requires pagesize > 0
  {
    if virt / pagesize !in pagemap || pagemap[virt / pagesize] == 0 then None
    else Some((Frame(pagemap[virt / pagesize]) * pagesize + virt % pagesize) % WORD)
  }

  /** Distinct mapped pages have distinct frames, and every frame is addressable. */
  ghost predicate GoodPageMap(pagemap: map<nat, Word>, pagesize: nat)
  {
    && pagesize > 0
    && (forall p :: p in pagemap ==> (Frame(pagemap[p]) + 1) * pagesize <= WORD)
    && (forall p, q :: p in pagemap && q in pagemap && p != q && pagemap[p] != 0 && pagemap[q] != 0
          ==> Frame(pagemap[p]) != Frame(pagemap[q]))
  }

  /** A pagemap entry has the frame number in its low 55 bits and nine flag bits above. A page that is mapped
      to frame f translates to that frame; a page without an entry, or with a zero one, ends the process. */
  lemma EntryTranslates(pagemap: map<nat, Word>, pagesize: nat, virt: nat, flags: nat, f: nat)
    requires pagesize > 0 && flags < 512 && f < 0x80_0000_0000_0000 && f * pagesize + virt % pagesize < WORD
    ensures virt / pagesize !in pagemap || pagemap[virt / pagesize] == 0 ==> PhyAddr(pagemap, pagesize, virt) == None
    ensures virt / pagesize in pagemap && pagemap[virt / pagesize] == flags * 0x80_0000_0000_0000 + f != 0 ==>
              PhyAddr(pagemap, pagesize, virt) == Some(f * pagesize + virt % pagesize)
  {
    DivModUnique(flags * 0x80_0000_0000_0000 + f, 0x80_0000_0000_0000, flags, f);
    var p := f * pagesize + virt % pagesize;
    DivModUnique(p, WORD, 0, p);
  }

  lemma PhyAddrIsPlain(pagemap: map<nat, Word>, pagesize: nat, virt: nat)
    requires GoodPageMap(pagemap, pagesize) && PhyAddr(pagemap, pagesize, virt).Some?
    ensures PhyAddr(pagemap, pagesize, virt).value == Frame(pagemap[virt / pagesize]) * pagesize + virt % pagesize
    ensures PhyAddr(pagemap, pagesize, virt).value / pagesize == Frame(pagemap[virt / pagesize])
    ensures PhyAddr(pagemap, pagesize, virt).value % pagesize == virt % pagesize
  {
    var f := Frame(pagemap[virt / pagesize]);
    assert (f + 1) * pagesize == f * pagesize + pagesize;
    DivModUnique(f * pagesize + virt % pagesize, WORD, 0, f * pagesize + virt % pagesize);
    DivModUnique(f * pagesize + virt % pagesize, pagesize, f, virt % pagesize);
  }

  /** Translation never merges two virtual addresses. */
  lemma TranslationIsInjective(pagemap: map<nat, Word>, pagesize: nat, v: nat, w: nat)
    requires GoodPageMap(pagemap, pagesize)
    requires PhyAddr(pagemap, pagesize, v).Some? && PhyAddr(pagemap, pagesize, v) == PhyAddr(pagemap, pagesize, w)
    ensures v == w
  {
    PhyAddrIsPlain(pagemap, pagesize, v);
    PhyAddrIsPlain(pagemap, pagesize, w);
    assert Frame(pagemap[v / pagesize]) == Frame(pagemap[w / pagesize]);
    SamePlaceInPage(v, w, pagesize);
  }

  lemma SamePlaceInPage(v: nat, w: nat, pagesize: nat)
    requires pagesize > 0 && v / pagesize == w / pagesize && v % pagesize == w % pagesize
    ensures v == w
  {
    assert v == v / pagesize * pagesize + v % pagesize;
    assert w == w / pagesize * pagesize + w % pagesize;
  }

  lemma PhyAddrInPage(pagemap: map<nat, Word>, pagesize: nat, v: nat, k: nat)
    requires GoodPageMap(pagemap, pagesize) && v % pagesize + k < pagesize && PhyAddr(pagemap, pagesize, v).Some?
    ensures PhyAddr(pagemap, pagesize, v + k) == Some(PhyAddr(pagemap, pagesize, v).value + k)
  {
    WithinPage(v, pagesize, k);
    PhyAddrIsPlain(pagemap, pagesize, v);
    PhyAddrIsPlain(pagemap, pagesize, v + k);
  }

  lemma WithinPage(v: nat, pagesize: nat, k: nat)
    requires pagesize > 0 && v % pagesize + k < pagesize
    ensures (v + k) / pagesize == v / pagesize && (v + k) % pagesize == v % pagesize + k
  {
    DivModUnique(v + k, pagesize, v / pagesize, v % pagesize + k);
  }

  /** A buffer never straddles a page, so the one address stored in a slot serves all of its bytes. */
  lemma BufferIsContiguous(pagemap: map<nat, Word>, pagesize: nat, base: nat, ri: nat, idx: nat, slots: nat, k: nat)
    requires GoodPageMap(pagemap, pagesize) && base % pagesize == 0 && pagesize % BUF_SIZE == 0
    requires k < BUF_SIZE && PhyAddr(pagemap, pagesize, BufAt(base, ri, idx, slots)).Some?
    ensures PhyAddr(pagemap, pagesize, BufAt(base, ri, idx, slots) + k)
         == Some(PhyAddr(pagemap, pagesize, BufAt(base, ri, idx, slots)).value + k)
  {
    OffsetIsLinear(ri, idx, slots);
    MultipleHasRoom(BufAt(base, ri, idx, slots), pagesize, base, ri * slots + idx);
    PhyAddrInPage(pagemap, pagesize, BufAt(base, ri, idx, slots), k);
  }

  /** A multiple of the buffer size beyond a page boundary leaves room for a buffer in its page. */
  lemma MultipleHasRoom(v: nat, pagesize: nat, base: nat, n: nat)
    requires pagesize > 0 && base % pagesize == 0 && pagesize % BUF_SIZE == 0 && v == base + n * BUF_SIZE
    ensures v % pagesize + BUF_SIZE <= pagesize
  {
    var c := pagesize / BUF_SIZE;
    assert pagesize == c * BUF_SIZE;
    assert base == base / pagesize * pagesize;
    assert v == v / pagesize * pagesize + v % pagesize;
    RoomInPage(v, c, v / pagesize, v % pagesize, base / pagesize, n);
  }

  lemma MulAssoc(a: nat, b: nat)
    ensures a * (b * BUF_SIZE) == a * b * BUF_SIZE
  {
  }

  /** The same with pages of c buffers, where v is q pages and r bytes, and also basePage pages and n buffers. */
  lemma RoomInPage(v: nat, c: nat, q: nat, r: nat, basePage: nat, n: nat)
    requires v == q * (c * BUF_SIZE) + r && r < c * BUF_SIZE
    requires v == basePage * (c * BUF_SIZE) + n * BUF_SIZE
    ensures r + BUF_SIZE <= c * BUF_SIZE
  {
    MulAssoc(basePage, c);
    MulAssoc(q, c);
    RoomInBuffers(v, c, q * c, r, basePage * c + n);
  }

  /** The same counted in buffers alone. */
  lemma RoomInBuffers(v: nat, c: nat, before: nat, r: nat, index: nat)
    requires v == before * BUF_SIZE + r == index * BUF_SIZE && r < c * BUF_SIZE
    ensures r + BUF_SIZE <= c * BUF_SIZE
  {
  }

  /** Physical buffers of different slots share no byte. */
  lemma PhysicalBuffersDisjoint(pagemap: map<nat, Word>, pagesize: nat, base: nat, slots: nat,
                                ri: nat, idx: nat, k: nat, ri': nat, idx': nat, k': nat)
    requires GoodPageMap(pagemap, pagesize) && base % pagesize == 0 && pagesize % BUF_SIZE == 0
    requires idx < slots && idx' < slots && k < BUF_SIZE && k' < BUF_SIZE
    requires var p, p' := PhyAddr(pagemap, pagesize, BufAt(base, ri, idx, slots)),
                          PhyAddr(pagemap, pagesize, BufAt(base, ri', idx', slots));
             p.Some? && p'.Some? && p.value + k == p'.value + k'
    ensures ri == ri' && idx == idx' && k == k'
  {
    BufferIsContiguous(pagemap, pagesize, base, ri, idx, slots, k);
    BufferIsContiguous(pagemap, pagesize, base, ri', idx', slots, k');
    TranslationIsInjective(pagemap, pagesize, BufAt(base, ri, idx, slots) + k, BufAt(base, ri', idx', slots) + k');
    BuffersDisjoint(base, slots, ri, idx, k, ri', idx', k');
  }
}

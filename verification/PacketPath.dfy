/** Storing a packet on the drive and transmitting it from there: `nvpkt_ioctl_submit_io` and
    `nvpkt_ioctl_txpkt_one` over a drive that is a map from byte addresses to bytes. */
module PacketPath {
  import opened Arith
  import opened ScatterGather

  type Byte = bv8

  /** The drive, byte by byte. */
  type Disk = int -> Byte

  /** The memory of the scatterlist. */
  type Memory = Pos -> Byte

  /** The logical block size, 1 << lba_shift; nothing below needs more than that it is positive. */
  type BlockSize = b: nat | b > 0 witness 512

  // ----- Block counts -----

  /** A command's NLB field is 0's based (NVM Express 1.3, section 6.9): n asks for n + 1 blocks. */
  function BlocksOfField(field: nat): nat
  {
    field + 1
  }

  /** What txpkt_one puts in the 16-bit NLB field for a quotient len >> lba_shift, which it first stores
      in an `unsigned`. */
  function FieldOf(quotient: nat): nat
  {
    var nblocks := quotient % U32;
    (if nblocks != 0 then nblocks else 1) % 0x1_0000
  }

  function NlbField(len: nat, bs: BlockSize): nat
  {
    FieldOf(len / bs)
  }

  lemma FieldAsksForMoreIff(q: nat)
    ensures if q < 0x1_0000 then BlocksOfField(FieldOf(q)) > q else BlocksOfField(FieldOf(q)) < q
  {
  }

  lemma EnoughBlocksIff(len: nat, bs: BlockSize, q: nat, blocks: nat)
    requires q == len / bs && (blocks > q || blocks < q)
    ensures blocks * bs >= len <==> blocks > q
  {
    assert len == q * bs + len % bs && (q + 1) * bs == q * bs + bs && (blocks + 1) * bs == blocks * bs + bs;
    if blocks > q {
      MulMono(q + 1, blocks, bs);
    } else {
      MulMono(blocks + 1, q, bs);
    }
  }

  /** The blocks requested cover the packet exactly when the block count fits the 16-bit field. */
  lemma RequestCoversPacketIff(len: nat, bs: BlockSize)
    ensures BlocksOfField(NlbField(len, bs)) * bs >= len <==> len / bs < 0x1_0000
  {
    var q := len / bs;
    FieldAsksForMoreIff(q);
    EnoughBlocksIff(len, bs, q, BlocksOfField(FieldOf(q)));
  }

  lemma FieldAsks(q: nat)
    ensures BlocksOfField(FieldOf(q)) == if q % 0x1_0000_0000 == 0 then 2 else q % 0x1_0000 + 1
  {
    var k, r := q / 0x1_0000_0000, q % 0x1_0000_0000;
    ModAddMultiple(r, 0x1_0000, k * 0x1_0000);
    assert q == r + k * 0x1_0000 * 0x1_0000;
  }

  /** Exactly how many blocks a transmission reads: where the count fits the field, those up to the end of
      the block after the last full one of the packet (two, for a packet shorter than a block); otherwise
      what is left of the count in 16 bits. */
  lemma RequestIsExactly(len: nat, bs: BlockSize)
    ensures var q, asked := len / bs, BlocksOfField(NlbField(len, bs));
            && asked == (if q % 0x1_0000_0000 == 0 then 2 else q % 0x1_0000 + 1)
            && (1 <= q < 0x1_0000 ==> len < asked * bs <= len + bs)
            && (len < bs ==> asked == 2)
  {
    var q := len / bs;
    FieldAsks(q);
    DivIsBound(len, bs, q);
    DivIsBound(len, bs, q + 1);
    assert (q + 1) * bs == q * bs + bs;
    DivIsBound(len, bs, 1);
  }

  // ----- The store path -----

  datatype Outcome<T> = Done(value: T) | Einval

  /** The length of the user buffer that submit_io maps, as an `unsigned`. */
  function MappedLength(nblocks: nat, bs: BlockSize): nat
  {
    BlocksOfField(nblocks) * bs % U32
  }

  /** submit_io with the write opcode: the drive takes the mapped buffer at the addressed blocks. */
  function SubmitWrite(disk: Disk, flags: nat, slba: nat, nblocks: nat, bs: BlockSize, data: seq<Byte>): Outcome<Disk>
    requires |data| == MappedLength(nblocks, bs)
  {
    if flags != 0 then Einval
    else
      var at := slba * bs;
      Done(a => if at <= a < at + |data| then data[a - at] else disk(a))
  }

  lemma LengthOfBlocks(n: nat, bs: BlockSize)
    ensures MappedLength(n, bs) <= (n + 1) * bs
    ensures MappedLength(n, bs) == (n + 1) * bs <==> (n + 1) * bs < 0x1_0000_0000
  {
    var whole := (n + 1) * bs;
    if whole < U32 { DivModUnique(whole, U32, 0, whole); }
  }

  /** A store with 0's based block count n writes the n + 1 blocks from slba on, in order, and nothing
      else; with any flag set it is refused. */
  lemma StoreWritesItsBlocks(disk: Disk, flags: nat, slba: nat, n: nat, bs: BlockSize, data: seq<Byte>, a: int)
    requires |data| == MappedLength(n, bs) && (n + 1) * bs < 0x1_0000_0000
    ensures |data| == (n + 1) * bs && (slba + n + 1) * bs == slba * bs + |data|
    ensures SubmitWrite(disk, flags, slba, n, bs, data).Done? <==> flags == 0
    ensures flags == 0 ==>
              SubmitWrite(disk, flags, slba, n, bs, data).value(a)
              == if slba * bs <= a < (slba + n + 1) * bs then data[a - slba * bs] else disk(a)
  {
    LengthOfBlocks(n, bs);
    assert (slba + n + 1) * bs == slba * bs + (n + 1) * bs;
  }

  // ----- The transmit path -----

  /** sgl_alloc: whole pages and a remainder. */
  function SglAlloc(total: nat, page: nat): seq<nat>
    requires page > 0
  {
    if total == 0 then [] else if total <= page then [total] else [page] + SglAlloc(total - page, page)
  }

  lemma {:induction false} SglAllocCovers(total: nat, page: nat)
    requires page > 0
    ensures Sum(SglAlloc(total, page)) == total
    ensures forall i :: 0 <= i < |SglAlloc(total, page)| ==> 0 < SglAlloc(total, page)[i] <= page
    ensures forall i :: 0 <= i < |SglAlloc(total, page)| - 1 ==> SglAlloc(total, page)[i] == page
    ensures total > 0 ==> SglAlloc(total, page) != [] && SglAlloc(total, page)[0] == Min(total, page)
  {
    if total > page {
      SglAllocCovers(total - page, page);
      assert SglAlloc(total, page)[1..] == SglAlloc(total - page, page);
    } else if total > 0 {
      assert [total][1..] == [];
    }
  }

  /** The drive fills the mapped bytes in order, as far as both the data and the mapping go. (That it
      stops where the mapping ends is an assumption about the drive and its controller.) */
  function DmaInto(mem: Memory, ps: seq<Pos>, data: seq<Byte>): Memory
    decreases |ps|
  {
    if ps == [] then mem
    else if |data| < |ps| then DmaInto(mem, ps[..|data|], data)
    else
      var rest := DmaInto(mem, ps[..|ps| - 1], data);
      p => if p == ps[|ps| - 1] then data[|ps| - 1] else rest(p)
  }

  lemma {:induction false} DmaFills(mem: Memory, ps: seq<Pos>, data: seq<Byte>, k: nat)
    requires k < |ps| && k < |data|
    requires forall i, j :: 0 <= i < j < |ps| ==> ps[i] != ps[j]
    ensures DmaInto(mem, ps, data)(ps[k]) == data[k]
    decreases |ps|
  {
    if |data| < |ps| {
      DmaFills(mem, ps[..|data|], data, k);
    } else if k < |ps| - 1 {
      DmaFills(mem, ps[..|ps| - 1], data, k);
    }
  }

  lemma {:induction false} DmaLeaves(mem: Memory, ps: seq<Pos>, data: seq<Byte>, p: Pos)
    requires p !in ps[..Min(|ps|, |data|)]
    ensures DmaInto(mem, ps, data)(p) == mem(p)
    decreases |ps|
  {
    if ps == [] {
    } else if |data| < |ps| {
      DmaLeaves(mem, ps[..|data|], data, p);
    } else {
      assert ps[|ps| - 1] in ps[..|ps|];
      DmaLeaves(mem, ps[..|ps| - 1], data, p);
    }
  }

  /** Filling a prefix of distinct positions changes exactly the bytes that the data reaches. */
  lemma DmaOnPrefix(mem: Memory, all: seq<Pos>, n: nat, data: seq<Byte>, k: nat)
    requires n <= |all| && k < |all|
    requires forall i, j :: 0 <= i < j < |all| ==> all[i] != all[j]
    ensures DmaInto(mem, all[..n], data)(all[k]) == if k < n && k < |data| then data[k] else mem(all[k])
  {
    var ps := all[..n];
    if k < n && k < |data| {
      DmaFills(mem, ps, data, k);
    } else {
      assert forall i :: 0 <= i < Min(n, |data|) ==> ps[..Min(n, |data|)][i] == all[i];
      DmaLeaves(mem, ps, data, all[k]);
    }
  }

  /** The bytes the drive returns for a read command. */
  function ReadBlocks(disk: Disk, slba: nat, field: nat, bs: BlockSize): seq<Byte>
  {
    seq(BlocksOfField(field) * bs, j requires 0 <= j < BlocksOfField(field) * bs => disk(slba * bs + j))
  }

  /** A call of txpkt_one on a list of len + info bytes is sound when the list fits the driver's
      `unsigned int` offsets, its first piece has room for the structure, and a packet that is not empty
      is at least as long as the structure. */
  ghost predicate SoundCall(lens: seq<nat>, len: nat, info: nat)
  {
    && Pieces(lens) && Sum(lens) == len + info
    && 0 < info && lens != [] && lens[0] >= info
    && (len == 0 || len >= info)
  }

  /** sgl_alloc gives such a list whenever a page holds the structure. */
  lemma AllocatedListIsSound(len: nat, info: nat, page: nat)
    requires 0 < info <= page && len + info < U32 && (len == 0 || len >= info)
    ensures SoundCall(SglAlloc(len + info, page), len, info)
  {
    SglAllocCovers(len + info, page);
  }

  /** The bytes the bio maps. */
  function Mapped(lens: seq<nat>, len: nat, info: nat): seq<Pos>
  {
    Bytes(WithoutInfo(Carve(lens, len, |lens|), info))
  }

  /** The bytes the sk_buff sends: the reference payload of the whole list. */
  ghost function Sent(lens: seq<nat>, len: nat, info: nat): (ps: seq<Pos>)
    requires SoundCall(lens, len, info)
    ensures |ps| == len
  {
    CarvingsSelectPayload(lens, len + info, info);
    Payload(lens, len + info, info)
  }

  lemma SentIsInjective(lens: seq<nat>, len: nat, info: nat)
    requires SoundCall(lens, len, info)
    ensures forall i, j :: 0 <= i < j < len ==> Sent(lens, len, info)[i] != Sent(lens, len, info)[j]
  {
    FlatLength(lens, |lens|);
    var ps := Payload(lens, len + info, info);
    forall i, j | 0 <= i < j < len ensures ps[i] != ps[j] {
      PayloadIsInjective(lens, len + info, info, i, j);
    }
  }

  /** The number of packet bytes the DMA of a sound call covers: all but the last info bytes. */
  function Covered(len: nat, info: nat): nat
    requires len == 0 || len >= info
  {
    if len == 0 then 0 else len - info
  }

  lemma MappedIsPrefixOfSent(lens: seq<nat>, len: nat, info: nat)
    requires SoundCall(lens, len, info)
    ensures Mapped(lens, len, info) == Sent(lens, len, info)[..Covered(len, info)]
  {
    if len == 0 {
      NothingMapped(lens, info);
    } else {
      SomethingMapped(lens, len, info);
    }
  }

  lemma SomethingMapped(lens: seq<nat>, len: nat, info: nat)
    requires SoundCall(lens, len, info) && len > 0
    ensures Mapped(lens, len, info) == Sent(lens, len, info)[..len - info]
  {
    MappedIsPayload(lens, len, info);
    BioIsPrefixOfSkb(lens, len, len + info, info);
  }

  lemma NothingMapped(lens: seq<nat>, info: nat)
    ensures Mapped(lens, 0, info) == []
  {
    CarveNothing(lens, 0, |lens|);
  }

  lemma MappedIsPayload(lens: seq<nat>, len: nat, info: nat)
    requires Pieces(lens) && 0 < len <= Sum(lens) && RoomForInfo(lens, len, info)
    ensures lens != [] && |Flat(lens, |lens|)| >= len
    ensures Mapped(lens, len, info) == Payload(lens, len, info)
  {
    CarvingsSelectPayload(lens, len, info);
  }

  /** What byte j of a transmitted packet is: the drive's byte when both the DMA mapping and the
      requested blocks reach it, and whatever was in memory otherwise. */
  ghost function TxByte(disk: Disk, mem: Memory, lens: seq<nat>, len: nat, slba: nat, bs: BlockSize,
                        info: nat, j: nat): Byte
    requires SoundCall(lens, len, info) && j < len
  {
    if j < Covered(len, info) && j < BlocksOfField(NlbField(len, bs)) * bs
    then disk(slba * bs + j)
    else mem(Sent(lens, len, info)[j])
  }

  /** Every byte of the packet is what TxByte says. */
  ghost predicate IsTransmitted(packet: seq<Byte>, disk: Disk, mem: Memory, lens: seq<nat>, len: nat, slba: nat,
                                bs: BlockSize, info: nat)
    requires SoundCall(lens, len, info)
  {
    |packet| == len && forall j :: 0 <= j < len ==> packet[j] == TxByte(disk, mem, lens, len, slba, bs, info, j)
  }

  /** txpkt_one up to the hand-over to the network: map the allocated list into an sk_buff, read from
      the drive into the bio's bytes, and send what the sk_buff names. */
  method TxPktOne(disk: Disk, mem: Memory, lens: seq<nat>, len: nat, slba: nat, bs: BlockSize, info: nat)
      returns (skb: SkBuff, packet: seq<Byte>)
    requires SoundCall(lens, len, info)
    ensures skb.Valid() && skb.len == |packet| == len && skb.Positions() == Sent(lens, len, info)
    ensures IsTransmitted(packet, disk, mem, lens, len, slba, bs, info)
  {
    skb := SkbFromSgvec(lens, len + info, info);
    SkbOfCall(lens, len, info);
    var sent := skb.Positions();
    var nblocks := len / bs % U32;
    if nblocks == 0 {
      nblocks := 1;
    }
    var field := nblocks % 0x1_0000;
    var bio := BlkRqMapFromSgl(lens, len, info);
    packet := Exchange(disk, mem, Bytes(bio.segs), sent, slba, field, bs);
    PacketOfCall(disk, mem, lens, len, slba, bs, info);
  }

  /** What an sk_buff that holds the carved list sends. */
  lemma SkbOfCall(lens: seq<nat>, len: nat, info: nat)
    requires SoundCall(lens, len, info)
    ensures var es := Carve(lens, len + info, |lens|);
            es != [] && es[0].len >= info
            && Range(es[0].seg, 0, es[0].len - info) + Bytes(es[1..]) == Sent(lens, len, info)
  {
    CarvingsSelectPayload(lens, len + info, info);
  }

  /** The read completes before the packet leaves: the sk_buff's bytes after the DMA. */
  function Exchange(disk: Disk, mem: Memory, mapped: seq<Pos>, sent: seq<Pos>, slba: nat, field: nat,
                    bs: BlockSize): seq<Byte>
  {
    var filled := DmaInto(mem, mapped, ReadBlocks(disk, slba, field, bs));
    seq(|sent|, k requires 0 <= k < |sent| => filled(sent[k]))
  }

  /** The memory after the DMA of a call. */
  function Filled(disk: Disk, mem: Memory, lens: seq<nat>, len: nat, slba: nat, bs: BlockSize, info: nat): Memory
  {
    DmaInto(mem, Mapped(lens, len, info), ReadBlocks(disk, slba, NlbField(len, bs), bs))
  }

  lemma PacketOfCall(disk: Disk, mem: Memory, lens: seq<nat>, len: nat, slba: nat, bs: BlockSize, info: nat)
    requires SoundCall(lens, len, info)
    ensures var mapped, sent := Mapped(lens, len, info), Sent(lens, len, info);
            IsTransmitted(Exchange(disk, mem, mapped, sent, slba, NlbField(len, bs), bs),
                          disk, mem, lens, len, slba, bs, info)
  {
    forall j | 0 <= j < len
      ensures Filled(disk, mem, lens, len, slba, bs, info)(Sent(lens, len, info)[j])
           == TxByte(disk, mem, lens, len, slba, bs, info, j)
    {
      ByteOfCall(disk, mem, lens, len, slba, bs, info, j);
    }
  }

  lemma ByteOfCall(disk: Disk, mem: Memory, lens: seq<nat>, len: nat, slba: nat, bs: BlockSize, info: nat, j: nat)
    requires SoundCall(lens, len, info) && j < len
    ensures Filled(disk, mem, lens, len, slba, bs, info)(Sent(lens, len, info)[j])
         == TxByte(disk, mem, lens, len, slba, bs, info, j)
  {
    BytesOfRead(disk, slba, NlbField(len, bs), bs, j);
    DmaOfCall(mem, lens, len, info, ReadBlocks(disk, slba, NlbField(len, bs), bs), j);
  }

  lemma BytesOfRead(disk: Disk, slba: nat, field: nat, bs: BlockSize, j: nat)
    ensures |ReadBlocks(disk, slba, field, bs)| == BlocksOfField(field) * bs
    ensures j < BlocksOfField(field) * bs ==> ReadBlocks(disk, slba, field, bs)[j] == disk(slba * bs + j)
  {
  }

  lemma DmaOfCall(mem: Memory, lens: seq<nat>, len: nat, info: nat, data: seq<Byte>, j: nat)
    requires SoundCall(lens, len, info) && j < len
    ensures DmaInto(mem, Mapped(lens, len, info), data)(Sent(lens, len, info)[j])
         == if j < Covered(len, info) && j < |data| then data[j] else mem(Sent(lens, len, info)[j])
  {
    MappedIsPrefixOfSent(lens, len, info);
    SentIsInjective(lens, len, info);
    DmaOnPrefix(mem, Sent(lens, len, info), Covered(len, info), data, j);
  }

  /** Whenever the request covers a packet that is not empty, it asks the drive for at least info bytes
      more than the bio maps. */
  lemma RequestOutrunsMapping(lens: seq<nat>, len: nat, bs: BlockSize, info: nat)
    requires SoundCall(lens, len, info) && len > 0 && len / bs < 0x1_0000
    ensures BlocksOfField(NlbField(len, bs)) * bs >= |Mapped(lens, len, info)| + info
  {
    MappedIsPrefixOfSent(lens, len, info);
    RequestCoversPacketIff(len, bs);
  }

  /** A store to blocks that a packet is not read from does not change the packet. */
  lemma OtherStoresDoNotMatter(disk: Disk, at: nat, n: nat, bs: BlockSize, data: seq<Byte>,
                               mem: Memory, lens: seq<nat>, len: nat, slba: nat, info: nat, j: nat)
    requires |data| == MappedLength(n, bs) && SoundCall(lens, len, info) && j < len
    requires (at + n + 1) * bs <= slba * bs || slba * bs + len <= at * bs
    ensures SubmitWrite(disk, 0, at, n, bs, data).Done?
    ensures TxByte(SubmitWrite(disk, 0, at, n, bs, data).value, mem, lens, len, slba, bs, info, j)
         == TxByte(disk, mem, lens, len, slba, bs, info, j)
  {
    LengthOfBlocks(n, bs);
    assert (at + n + 1) * bs == at * bs + (n + 1) * bs;
    var disk' := SubmitWrite(disk, 0, at, n, bs, data).value;
    assert disk'(slba * bs + j) == disk(slba * bs + j);
  }

  /** Store, then transmit: once a buffer is stored at slba with NLB field n, a packet of len bytes
      that the stored blocks cover carries stored byte j at position j, for every j that the bio maps and
      that the packet's own request, cut to 16 bits, reaches. The bio stops info bytes short of the packet:
      those last bytes are never mapped, and stay what they were in memory. */
  lemma StoredBytesAreSent(disk: Disk, slba: nat, n: nat, bs: BlockSize, data: seq<Byte>,
                           mem: Memory, lens: seq<nat>, len: nat, info: nat, j: nat)
    requires (n + 1) * bs < 0x1_0000_0000 && |data| == MappedLength(n, bs)
    requires SoundCall(lens, len, info) && len <= (n + 1) * bs && j < len
    ensures j < |data|
    ensures SubmitWrite(disk, 0, slba, n, bs, data).Done?
    ensures TxByte(SubmitWrite(disk, 0, slba, n, bs, data).value, mem, lens, len, slba, bs, info, j)
         == if j < len - info && (len / bs < 0x1_0000 || j < (len / bs % 0x1_0000 + 1) * bs) then data[j]
            else mem(Sent(lens, len, info)[j])
  {
    LengthOfBlocks(n, bs);
    StoreWritesItsBlocks(disk, 0, slba, n, bs, data, slba * bs + j);
    RequestReaches(len, bs, j);
  }

  /** Which bytes of a packet its request reaches. */
  lemma RequestReaches(len: nat, bs: BlockSize, j: nat)
    requires j < len < U32
    ensures j < BlocksOfField(NlbField(len, bs)) * bs
       <==> len / bs < 0x1_0000 || j < (len / bs % 0x1_0000 + 1) * bs
  {
    if len / bs < 0x1_0000 {
      RequestCoversPacketIff(len, bs);
    } else {
      RequestIsExactly(len, bs);
      QuotientFits(len, bs);
      DivModUnique(len / bs, 0x1_0000_0000, 0, len / bs);
    }
  }

  lemma QuotientFits(len: nat, bs: BlockSize)
    ensures len / bs <= len
  {
    DivIsBound(len, bs, len / bs);
    MulMono(1, bs, len / bs);
  }
}

/** The two loops of the kernel driver that carve one scatterlist: into an sk_buff whose bytes go to
    the network, and into a bio whose bytes the drive fills by DMA. */
module ScatterGather {
  import opened Arith

  /** The number of values of `unsigned int`. */
  const U32: nat := 0x1_0000_0000

  /** One byte of the scatterlist: an offset inside a piece. A piece is what one step of the mapping
      iterator yields; pieces are separate pages, so different positions are different bytes. */
  datatype Pos = Pos(seg: nat, off: nat)

  datatype Extent = Extent(seg: nat, off: nat, len: nat)

  function Min(a: nat, b: nat): nat
  {
    if a < b then a else b
  }

  function Range(seg: nat, off: nat, len: nat): seq<Pos>
  {
    seq(len, k requires 0 <= k < len => Pos(seg, off + k))
  }

  /** The bytes that a list of extents names, in order. */
  function Bytes(es: seq<Extent>): seq<Pos>
  {
    if es == [] then [] else Bytes(es[..|es| - 1]) + Range(es[|es| - 1].seg, es[|es| - 1].off, es[|es| - 1].len)
  }

  function TotalLength(es: seq<Extent>): nat
  {
    if es == [] then 0 else TotalLength(es[..|es| - 1]) + es[|es| - 1].len
  }

  /** Every byte of the first i pieces, in order. */
  function Flat(lens: seq<nat>, i: nat): seq<Pos>
    requires i <= |lens|
  {
    if i == 0 then [] else Flat(lens, i - 1) + Range(i - 1, 0, lens[i - 1])
  }

  /** A scatterlist as the iterator delivers it: no empty pieces, and short enough for the
      `unsigned int` offsets of the loops. */
  ghost predicate Pieces(lens: seq<nat>)
  {
    (forall i :: 0 <= i < |lens| ==> lens[i] > 0) && Sum(lens) < U32
  }

  /** The part of the list that is asked for ends inside or after the first piece, and what it takes
      of the first piece has room for the trailing skb_shared_info. */
  predicate RoomForInfo(lens: seq<nat>, length: nat, info: nat)
  {
    lens == [] || length == 0 || Min(lens[0], length) >= info
  }

  /** The pieces, cut to length, that the first i steps of either loop visit. */
  function Carve(lens: seq<nat>, length: nat, i: nat): seq<Extent>
    requires i <= |lens|
  {
    if i == 0 then []
    else
      var before := Sum(lens[..i - 1]);
      if before < length then
        Carve(lens, length, i - 1) + [Extent(i - 1, 0, Min(lens[i - 1], length - before))]
      else Carve(lens, length, i - 1)
  }

  /** The first extent without its last `info` bytes, in the `unsigned int` arithmetic of the driver. */
  function WithoutInfo(es: seq<Extent>, info: nat): seq<Extent>
  {
    if es == [] then [] else [es[0].(len := (es[0].len - info) % U32)] + es[1..]
  }

  // ----- The imperative loops -----

  /** The fields of an sk_buff that the driver touches. The linear part starts at byte 0 of a piece. */
  class SkBuff {
    var head: nat
    var linear: nat
    var frags: seq<Extent>
    var len: nat
    var dataLen: nat

    /** The length fields agree with the parts. */
    ghost predicate Valid()
      reads this
    {
      dataLen == TotalLength(frags) && len == linear + dataLen
    }

    /** The linear part is the first extent without its last `info` bytes, the fragments are the others. */
    predicate Holds(es: seq<Extent>, info: nat)
      reads this
    {
      es != [] && head == es[0].seg && linear == es[0].len - info && frags == es[1..]
    }

    function Positions(): seq<Pos>
      reads this
    {
      Range(head, 0, linear) + Bytes(frags)
    }

    /** build_skb: nothing in the linear part yet. */
    constructor (piece: nat)
      ensures head == piece && linear == 0 && frags == [] && len == 0 && dataLen == 0
    {
      head, linear, frags, len, dataLen := piece, 0, [], 0, 0;
    }

    /** skb_put. */
    method Put(n: nat)
      modifies this`linear, this`len
      ensures linear == old(linear) + n && len == old(len) + n
    {
      linear, len := linear + n, len + n;
    }

    /** skb_fill_page_desc: only the descriptor; the callers adjust the lengths. */
    method FillPageDesc(i: nat, e: Extent)
      requires i == |frags|
      modifies this`frags
      ensures frags == old(frags) + [e]
    {
      frags := frags + [e];
    }

    /** The loop's branch for a later piece: a fragment, and the lengths with it. The sk_buff then holds
        that extent too. */
    method MapPiece(i: nat, e: Extent, ghost es: seq<Extent>, ghost info: nat)
      requires Valid() && Holds(es, info) && i == |frags|
      modifies this
      ensures Valid() && Holds(es + [e], info) && |frags| == i + 1
    {
      AppendLength(frags, e);
      FillPageDesc(i, e);
      len := len + e.len;
      dataLen := dataLen + e.len;
      assert (es + [e])[1..] == es[1..] + [e];
    }
  }

  class Bio {
    var segs: seq<Extent>

    constructor ()
      ensures segs == []
    {
      segs := [];
    }

    /** bio_add_pc_page. */
    method AddPage(e: Extent)
      modifies this
      ensures segs == old(segs) + [e]
    {
      segs := segs + [e];
    }
  }

  /** skb_from_sgvec: the first piece becomes the linear part, every later one a fragment. At every
      iteration the length fields agree with the parts. */
  method SkbFromSgvec(lens: seq<nat>, length: nat, info: nat) returns (skb: SkBuff?)
    requires Pieces(lens) && RoomForInfo(lens, length, info)
    ensures skb == null <==> Carve(lens, length, |lens|) == []
    ensures skb != null ==> fresh(skb) && skb.Valid()
    ensures skb != null ==> skb.Holds(Carve(lens, length, |lens|), info)
    ensures 0 < length <= Sum(lens) ==> skb != null && skb.len == length - info
  {
    skb := null;
    var offset, i, n := 0, 0, 0;
    while offset < length && i < |lens|
      invariant i <= |lens| && offset == Min(length, Sum(lens[..i]))
      invariant skb == null <==> i == 0
      invariant skb == null ==> n == 0 && Carve(lens, length, i) == []
      invariant skb != null ==> fresh(skb) && skb.Valid() && skb.Holds(Carve(lens, length, i), info) && n == |skb.frags|
      decreases |lens| - i
    {
      var len := Min(lens[i], length - offset);
      CarveNext(lens, length, i, offset);
      if skb == null {
        skb := new SkBuff(i);
        skb.Put(len - info);
      } else {
        skb.MapPiece(n, Extent(i, 0, len), Carve(lens, length, i), info);
        n := n + 1;
      }
      offset := offset + len;
      i := i + 1;
    }
    CarveStops(lens, length, i);
    if 0 < length <= Sum(lens) {
      CarvedLength(lens, length, info);
    }
  }

  /** blk_rq_map_from_sgl: the same pieces, the first one without its last `info` bytes. */
  method BlkRqMapFromSgl(lens: seq<nat>, length: nat, info: nat) returns (bio: Bio)
    requires Pieces(lens)
    ensures fresh(bio) && bio.segs == WithoutInfo(Carve(lens, length, |lens|), info)
  {
    bio := new Bio();
    var offset, i := 0, 0;
    while offset < length && i < |lens|
      invariant i <= |lens| && offset == Min(length, Sum(lens[..i])) && (i > 0 && length > 0 ==> offset > 0)
      invariant Carve(lens, length, i) == [] <==> i == 0
      invariant fresh(bio) && bio.segs == WithoutInfo(Carve(lens, length, i), info)
      decreases |lens| - i
    {
      var len := Min(lens[i], length - offset);
      CarveNext(lens, length, i, offset);
      var dmaLen := len;
      if offset == 0 {
        dmaLen := (dmaLen - info) % U32;
      }
      bio.AddPage(Extent(i, 0, dmaLen));
      offset := offset + len;
      i := i + 1;
    }
    CarveStops(lens, length, i);
  }

  /** What one more step of either loop visits. */
  lemma CarveNext(lens: seq<nat>, length: nat, i: nat, offset: nat)
    requires i < |lens| && offset == Min(length, Sum(lens[..i])) < length
    ensures Carve(lens, length, i + 1) == Carve(lens, length, i) + [Extent(i, 0, Min(lens[i], length - offset))]
    ensures offset + Min(lens[i], length - offset) == Min(length, Sum(lens[..i + 1]))
  {
    SumPrefixStep(lens, i);
  }

  lemma AppendLength(es: seq<Extent>, e: Extent)
    ensures TotalLength(es + [e]) == TotalLength(es) + e.len
  {
    assert (es + [e])[..|es|] == es;
  }

  lemma {:induction false} CarveStops(lens: seq<nat>, length: nat, i: nat)
    requires i <= |lens| && (i == |lens| || Sum(lens[..i]) >= length)
    ensures Carve(lens, length, i) == Carve(lens, length, |lens|)
    decreases |lens| - i
  {
    if i < |lens| {
      SumPrefixStep(lens, i);
      CarveStops(lens, length, i + 1);
    }
  }

  // ----- What the two carvings select -----

  /** The reference: the first `length` bytes of the list, less the `info` bytes that end the part
      taken from its first piece. */
  function Payload(lens: seq<nat>, length: nat, info: nat): seq<Pos>
    requires |Flat(lens, |lens|)| >= length
    requires lens != [] && Min(lens[0], length) >= info
  {
    var all := Flat(lens, |lens|)[..length];
    var first := Min(lens[0], length);
    all[..first - info] + all[first..]
  }

  /** Where skb_shared_info lives: right behind the linear part, in the first piece. */
  function InfoRegion(lens: seq<nat>, length: nat, info: nat): seq<Pos>
    requires lens != [] && Min(lens[0], length) >= info
  {
    Range(0, Min(lens[0], length) - info, info)
  }

  /** The linear part and then the structure fill the part taken of the first piece. */
  lemma InfoBehindLinear(lens: seq<nat>, length: nat, info: nat)
    requires lens != [] && Min(lens[0], length) >= info
    ensures |InfoRegion(lens, length, info)| == info
    ensures var first := Min(lens[0], length);
            Range(0, 0, first - info) + InfoRegion(lens, length, info) == Range(0, 0, first)
  {
  }

  lemma {:induction false} FlatLength(lens: seq<nat>, i: nat)
    requires i <= |lens|
    ensures |Flat(lens, i)| == Sum(lens[..i])
    ensures i == |lens| ==> |Flat(lens, i)| == Sum(lens)
  {
    if i > 0 {
      FlatLength(lens, i - 1);
      SumPrefixStep(lens, i - 1);
    }
    assert lens[..|lens|] == lens;
  }

  lemma {:induction false} BytesAppend(es: seq<Extent>, fs: seq<Extent>)
    ensures Bytes(es + fs) == Bytes(es) + Bytes(fs)
    ensures TotalLength(es + fs) == TotalLength(es) + TotalLength(fs)
  {
    if fs == [] {
      assert es + fs == es;
    } else {
      var f := fs[|fs| - 1];
      assert (es + fs)[..|es + fs| - 1] == es + fs[..|fs| - 1];
      assert (es + fs)[|es + fs| - 1] == f;
      BytesAppend(es, fs[..|fs| - 1]);
      assert Bytes(es) + (Bytes(fs[..|fs| - 1]) + Range(f.seg, f.off, f.len))
          == (Bytes(es) + Bytes(fs[..|fs| - 1])) + Range(f.seg, f.off, f.len);
    }
  }

  lemma {:induction false} BytesLength(es: seq<Extent>)
    ensures |Bytes(es)| == TotalLength(es)
  {
    if es != [] {
      BytesLength(es[..|es| - 1]);
    }
  }

  /** The first `length` elements, or all of them. */
  function Prefix(s: seq<Pos>, length: nat): seq<Pos>
  {
    s[..Min(length, |s|)]
  }

  /** What is taken of a piece when `done` bytes have been taken already. */
  function Taken(done: nat, piece: seq<Pos>, length: nat): seq<Pos>
  {
    if done < length then Prefix(piece, length - done) else []
  }

  lemma PrefixGrows(done: seq<Pos>, piece: seq<Pos>, length: nat)
    ensures Prefix(done + piece, length) == Prefix(done, length) + Taken(|done|, piece, length)
  {
  }

  lemma CarveStep(lens: seq<nat>, length: nat, i: nat)
    requires i < |lens|
    ensures Bytes(Carve(lens, length, i + 1))
         == Bytes(Carve(lens, length, i)) + Taken(|Flat(lens, i)|, Range(i, 0, lens[i]), length)
  {
    FlatLength(lens, i);
    var es, before := Carve(lens, length, i + 1), Sum(lens[..i]);
    if before < length {
      assert es[..|es| - 1] == Carve(lens, length, i);
      assert Prefix(Range(i, 0, lens[i]), length - before) == Range(i, 0, Min(lens[i], length - before));
    }
  }

  lemma CarvePrefixStep(lens: seq<nat>, length: nat, i: nat)
    requires i < |lens|
    requires Bytes(Carve(lens, length, i)) == Prefix(Flat(lens, i), length)
    ensures Bytes(Carve(lens, length, i + 1)) == Prefix(Flat(lens, i + 1), length)
  {
    CarveStep(lens, length, i);
    PrefixGrows(Flat(lens, i), Range(i, 0, lens[i]), length);
  }

  /** Carving is reading the list front to back: the bytes of the carved pieces are the first
      `length` bytes of the list. */
  lemma {:induction false} CarveIsPrefix(lens: seq<nat>, length: nat, i: nat)
    requires i <= |lens|
    ensures Bytes(Carve(lens, length, i)) == Prefix(Flat(lens, i), length)
  {
    if i > 0 {
      CarveIsPrefix(lens, length, i - 1);
      CarvePrefixStep(lens, length, i - 1);
    }
  }

  /** The carved list begins with the part of piece 0. */
  lemma {:induction false} CarveHead(lens: seq<nat>, length: nat, i: nat)
    requires 0 < i <= |lens| && length > 0
    ensures Carve(lens, length, i) != []
    ensures Carve(lens, length, i)[0] == Extent(0, 0, Min(lens[0], length))
  {
    if i > 1 {
      CarveHead(lens, length, i - 1);
    } else {
      assert lens[..0] == [];
    }
  }

  lemma BytesOfHead(e: Extent, rest: seq<Extent>)
    ensures Bytes([e] + rest) == Range(e.seg, e.off, e.len) + Bytes(rest)
  {
    BytesAppend([e], rest);
    assert [e][..0] == [];
    assert Bytes([e]) == Range(e.seg, e.off, e.len);
  }

  /** Cutting `info` bytes off the end of the first extent cuts the same window out of the bytes. */
  lemma CutHead(es: seq<Extent>, info: nat)
    requires es != [] && info <= es[0].len < U32
    ensures Bytes(WithoutInfo(es, info)) == Range(es[0].seg, es[0].off, es[0].len - info) + Bytes(es[1..])
    ensures Bytes(es) == Range(es[0].seg, es[0].off, es[0].len) + Bytes(es[1..])
  {
    DivModUnique(es[0].len - info, U32, 0, es[0].len - info);
    BytesOfHead(es[0].(len := es[0].len - info), es[1..]);
    BytesOfHead(es[0], es[1..]);
    assert es == [es[0]] + es[1..];
  }

  /** Run on the same list with the same length, the bio and the sk_buff name the same bytes in the
      same order, and these are the reference payload of length - info bytes. */
  lemma CarvingsSelectPayload(lens: seq<nat>, length: nat, info: nat)
    requires Pieces(lens) && 0 < length <= Sum(lens) && RoomForInfo(lens, length, info)
    ensures lens != [] && |Flat(lens, |lens|)| >= length
    ensures var es := Carve(lens, length, |lens|);
            && es != [] && es[0].seg == 0 && es[0].len >= info
            && Bytes(WithoutInfo(es, info)) == Payload(lens, length, info)
            && Range(0, 0, es[0].len - info) + Bytes(es[1..]) == Payload(lens, length, info)
            && |Payload(lens, length, info)| == length - info
  {
    CarvedSplits(lens, length, info);
    PayloadOfSplit(lens, length, info, Bytes(Carve(lens, length, |lens|)[1..]));
  }

  /** The carved list as its first extent and the rest. */
  lemma CarvedSplits(lens: seq<nat>, length: nat, info: nat)
    requires Pieces(lens) && 0 < length <= Sum(lens) && RoomForInfo(lens, length, info)
    ensures lens != [] && |Flat(lens, |lens|)| >= length
    ensures var es := Carve(lens, length, |lens|);
            && es != [] && es[0] == Extent(0, 0, Min(lens[0], length))
            && Bytes(WithoutInfo(es, info)) == Range(0, 0, Min(lens[0], length) - info) + Bytes(es[1..])
            && Flat(lens, |lens|)[..length] == Range(0, 0, Min(lens[0], length)) + Bytes(es[1..])
  {
    FlatLength(lens, |lens|);
    CarveIsPrefix(lens, length, |lens|);
    CarveHead(lens, length, |lens|);
    CutHead(Carve(lens, length, |lens|), info);
  }

  /** Without the structure's room the carved pieces have length - info bytes. */
  lemma CarvedLength(lens: seq<nat>, length: nat, info: nat)
    requires Pieces(lens) && 0 < length <= Sum(lens) && RoomForInfo(lens, length, info)
    ensures var es := Carve(lens, length, |lens|);
            es != [] && es[0].len - info + TotalLength(es[1..]) == length - info
  {
    FlatLength(lens, |lens|);
    CarveIsPrefix(lens, length, |lens|);
    BytesLength(Carve(lens, length, |lens|));
    CarveHead(lens, length, |lens|);
    TotalOfHead(Carve(lens, length, |lens|));
  }

  lemma TotalOfHead(es: seq<Extent>)
    requires es != []
    ensures TotalLength(es) == es[0].len + TotalLength(es[1..])
  {
    BytesAppend([es[0]], es[1..]);
    assert es == [es[0]] + es[1..] && [es[0]][..0] == [];
    assert TotalLength([es[0]]) == es[0].len;
  }

  lemma PayloadOfSplit(lens: seq<nat>, length: nat, info: nat, rest: seq<Pos>)
    requires |Flat(lens, |lens|)| >= length && lens != [] && Min(lens[0], length) >= info
    requires Flat(lens, |lens|)[..length] == Range(0, 0, Min(lens[0], length)) + rest
    ensures Payload(lens, length, info) == Range(0, 0, Min(lens[0], length) - info) + rest
    ensures |Payload(lens, length, info)| == length - info
  {
    var all, first := Flat(lens, |lens|)[..length], Min(lens[0], length);
    assert all[..first - info] == Range(0, 0, first)[..first - info] == Range(0, 0, first - info);
    assert all[first..] == rest;
  }

  /** The lengths of the two call sites: what the bio of the shorter length maps is a prefix of what
      the sk_buff of the longer length sends. */
  lemma BioIsPrefixOfSkb(lens: seq<nat>, shorter: nat, longer: nat, info: nat)
    requires Pieces(lens) && 0 < shorter <= longer <= Sum(lens) && RoomForInfo(lens, shorter, info)
    ensures lens != [] && |Flat(lens, |lens|)| >= longer
    ensures Payload(lens, shorter, info) == Payload(lens, longer, info)[..shorter - info]
  {
    FlatLength(lens, |lens|);
    var all, p, q := Flat(lens, |lens|), Payload(lens, shorter, info), Payload(lens, longer, info);
    forall k | 0 <= k < shorter - info ensures p[k] == q[k] {
      PayloadAt(lens, shorter, info, k);
      PayloadAt(lens, longer, info, k);
    }
  }

  /** The list position of payload byte k: skip the info bytes behind what is left of the first piece. */
  function PayloadIndex(lens: seq<nat>, length: nat, info: nat, k: nat): nat
    requires lens != []
  {
    if k + info < Min(lens[0], length) then k else k + info
  }

  lemma PayloadAt(lens: seq<nat>, length: nat, info: nat, k: nat)
    requires |Flat(lens, |lens|)| >= length && lens != [] && Min(lens[0], length) >= info
    requires k < length - info
    ensures |Payload(lens, length, info)| == length - info
    ensures PayloadIndex(lens, length, info, k) < length
    ensures Payload(lens, length, info)[k] == Flat(lens, |lens|)[PayloadIndex(lens, length, info, k)]
  {
  }

  lemma {:induction false} FlatIsInjective(lens: seq<nat>, i: nat, j: nat, k: nat)
    requires i <= |lens| && j < k < |Flat(lens, i)|
    ensures Flat(lens, i)[j] != Flat(lens, i)[k]
    ensures Flat(lens, i)[k].seg < i
  {
    var n := |Flat(lens, i - 1)|;
    if k < n {
      FlatIsInjective(lens, i - 1, j, k);
    } else if j < n {
      FlatInSegments(lens, i - 1, j);
    }
  }

  lemma {:induction false} FlatInSegments(lens: seq<nat>, i: nat, j: nat)
    requires i <= |lens| && j < |Flat(lens, i)|
    ensures var p := Flat(lens, i)[j]; p.seg < i && p.off < lens[p.seg]
  {
    if j < |Flat(lens, i - 1)| {
      FlatInSegments(lens, i - 1, j);
    }
  }

  lemma PayloadIsInjective(lens: seq<nat>, length: nat, info: nat, j: nat, k: nat)
    requires |Flat(lens, |lens|)| >= length && lens != [] && Min(lens[0], length) >= info
    requires j < k < length - info
    ensures |Payload(lens, length, info)| == length - info
    ensures Payload(lens, length, info)[j] != Payload(lens, length, info)[k]
  {
    PayloadAt(lens, length, info, j);
    PayloadAt(lens, length, info, k);
    FlatIsInjective(lens, |lens|, PayloadIndex(lens, length, info, j), PayloadIndex(lens, length, info, k));
  }

  lemma PayloadAvoidsInfo(lens: seq<nat>, shorter: nat, longer: nat, info: nat, j: nat)
    requires |Flat(lens, |lens|)| >= shorter && lens != [] && Min(lens[0], shorter) >= info
    requires shorter <= longer && j < shorter - info
    ensures |Payload(lens, shorter, info)| == shorter - info
    ensures var p := Payload(lens, shorter, info)[j];
            p.seg < |lens| && p.off < lens[p.seg] && p !in InfoRegion(lens, longer, info)
  {
    var at := PayloadIndex(lens, shorter, info, j);
    PayloadAt(lens, shorter, info, j);
    FlatInSegments(lens, |lens|, at);
    FlatStart(lens, |lens|, at);
    assert forall k :: 0 <= k < info ==>
      InfoRegion(lens, longer, info)[k] == Pos(0, Min(lens[0], longer) - info + k);
  }

  /** DMA maps no byte of the list twice, stays inside the pieces, and never touches the bytes that
      hold skb_shared_info, which the sk_buff of the longer length placed. */
  lemma DmaIsSafe(lens: seq<nat>, shorter: nat, longer: nat, info: nat, j: nat, k: nat)
    requires Pieces(lens) && 0 < shorter <= longer <= Sum(lens) && RoomForInfo(lens, shorter, info)
    requires k < |Bytes(WithoutInfo(Carve(lens, shorter, |lens|), info))|
    ensures var ps := Bytes(WithoutInfo(Carve(lens, shorter, |lens|), info));
            && lens != [] && Min(lens[0], longer) >= info
            && (j < k ==> ps[j] != ps[k])
            && ps[k].seg < |lens| && ps[k].off < lens[ps[k].seg]
            && ps[k] !in InfoRegion(lens, longer, info)
  {
    CarvingsSelectPayload(lens, shorter, info);
    if j < k {
      PayloadIsInjective(lens, shorter, info, j, k);
    }
    PayloadAvoidsInfo(lens, shorter, longer, info, k);
  }

  /** Position k of the list is byte k of piece 0 while that lasts, and outside piece 0 afterwards. */
  lemma {:induction false} FlatStart(lens: seq<nat>, i: nat, k: nat)
    requires 0 < i <= |lens| && k < |Flat(lens, i)|
    ensures if k < lens[0] then Flat(lens, i)[k] == Pos(0, k) else Flat(lens, i)[k].seg > 0
  {
    if i > 1 {
      if k < |Flat(lens, i - 1)| {
        FlatStart(lens, i - 1, k);
      } else {
        FlatHeadFits(lens, i - 1);
      }
    } else {
      assert Flat(lens, 1) == Range(0, 0, lens[0]);
    }
  }

  lemma {:induction false} FlatHeadFits(lens: seq<nat>, i: nat)
    requires 0 < i <= |lens|
    ensures |Flat(lens, i)| >= lens[0]
  {
    if i > 1 {
      FlatHeadFits(lens, i - 1);
    }
  }

  // ----- When the trimming is sound -----

  ghost predicate InsidePieces(lens: seq<nat>, es: seq<Extent>)
  {
    forall k :: 0 <= k < |es| ==> es[k].seg < |lens| && es[k].off + es[k].len <= lens[es[k].seg]
  }

  /** The subtraction of sizeof(struct skb_shared_info) from the first DMA length wraps, and the bio is
      asked for an extent that reaches outside the first piece, exactly when the part of the first piece
      is shorter than the structure. A caller sees this from its own length and the first piece. (What
      bio_add_pc_page does with such a length is not modelled; the driver never looks at its result.) */
  lemma TrimmingIsSoundIff(lens: seq<nat>, length: nat, info: nat)
    requires Pieces(lens) && info < 0x8000_0000
    requires forall i :: 0 <= i < |lens| ==> lens[i] < 0x8000_0000
    ensures InsidePieces(lens, WithoutInfo(Carve(lens, length, |lens|), info)) <==> RoomForInfo(lens, length, info)
  {
    var es := Carve(lens, length, |lens|);
    CarveInside(lens, length, |lens|);
    if lens != [] && length > 0 {
      CarveHead(lens, length, |lens|);
      var cut := WithoutInfo(es, info);
      if es[0].len < info {
        DivModUnique(es[0].len - info + U32, U32, 0, es[0].len - info + U32);
        assert cut[0].len == es[0].len - info + U32;
      } else {
        DivModUnique(es[0].len - info, U32, 0, es[0].len - info);
      }
      assert forall k :: 0 < k < |cut| ==> cut[k] == es[k];
    } else {
      CarveNothing(lens, length, |lens|);
    }
  }

  /** A packet of 60 bytes and a structure of 320: the first DMA length is 2^32 - 260. */
  lemma ShortPacketWraps()
    ensures WithoutInfo(Carve([380], 60, 1), 320) == [Extent(0, 0, U32 - 260)]
    ensures !InsidePieces([380], WithoutInfo(Carve([380], 60, 1), 320))
  {
    assert Carve([380], 60, 0) == [] && Sum([380][..0]) == 0;
    assert Carve([380], 60, 1) == [Extent(0, 0, 60)];
    DivModUnique(60 - 320 + U32, U32, 0, U32 - 260);
    assert WithoutInfo(Carve([380], 60, 1), 320)[0].len > 380;
  }

  lemma {:induction false} CarveInside(lens: seq<nat>, length: nat, i: nat)
    requires i <= |lens|
    ensures InsidePieces(lens, Carve(lens, length, i))
  {
    if i > 0 {
      CarveInside(lens, length, i - 1);
    }
  }

  lemma {:induction false} CarveNothing(lens: seq<nat>, length: nat, i: nat)
    requires i <= |lens| && (lens == [] || length == 0)
    ensures Carve(lens, length, i) == []
  {
    if i > 0 {
      CarveNothing(lens, length, i - 1);
    }
  }
}

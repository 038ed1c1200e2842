/** From items to the bytes of a symbol: data bits cut into blocks, each block corrected, all of them interleaved. */
module QrBytes {
  import opened Wrappers
  import opened Modular
  import opened Octets
  import opened BitBuffer
  import opened QrData
  import opened Interleave
  import opened ReedSolomon

  datatype RSBlock = RSBlock(totalCount: nat, dataCount: nat)

  function DataCounts(blocks: seq<RSBlock>): (r: seq<nat>)
    ensures |r| == |blocks|
  {
    seq(|blocks|, k requires 0 <= k < |blocks| => blocks[k].dataCount)
  }

  /** The correction bytes of each block: what its data leaves of it, or none. */
  function EcCounts(blocks: seq<RSBlock>): (r: seq<nat>)
    ensures |r| == |blocks|
  {
    seq(|blocks|, k requires 0 <= k < |blocks| => EcCount(blocks[k]))
  }

  function EcCount(block: RSBlock): nat {
    if block.dataCount < block.totalCount then block.totalCount - block.dataCount else 0
  }

  function TotalCount(blocks: seq<RSBlock>): nat {
    if blocks == [] then 0 else TotalCount(blocks[..|blocks| - 1]) + blocks[|blocks| - 1].totalCount
  }

  /** No block has more data bytes than bytes in all. */
  predicate Sized(blocks: seq<RSBlock>) {
    forall k | 0 <= k < |blocks| :: blocks[k].dataCount <= blocks[k].totalCount
  }

  /** A sequence cut into pieces of the given lengths. */
  function Cut<T>(s: seq<T>, lengths: seq<nat>): (r: seq<seq<T>>)
    requires |s| >= Sum(lengths)
    ensures |r| == |lengths| && Lengths(r) == lengths
  {
    if lengths == [] then []
    else
      var n := |lengths| - 1;
      var front := Cut(s, lengths[..n]);
      assert Lengths(front + [s[Sum(lengths[..n])..Sum(lengths)]]) == Lengths(front) + [lengths[n]];
      front + [s[Sum(lengths[..n])..Sum(lengths)]]
  }

  function Flat<T>(pieces: seq<seq<T>>): seq<T> {
    if pieces == [] then [] else Flat(pieces[..|pieces| - 1]) + pieces[|pieces| - 1]
  }

  lemma {:induction false} FlatCut<T>(s: seq<T>, lengths: seq<nat>)
    requires |s| >= Sum(lengths)
    ensures Flat(Cut(s, lengths)) == s[..Sum(lengths)]
    decreases |lengths|
  {
    hide Lengths, Cut;
    if lengths == [] {
      CutNone(s);
    } else {
      var n := |lengths| - 1;
      FlatCut(s, lengths[..n]);
      CutStep(s, lengths);
      FlatStep(Cut(s, lengths[..n]), s[Sum(lengths[..n])..Sum(lengths)]);
      assert s[..Sum(lengths)] == s[..Sum(lengths[..n])] + s[Sum(lengths[..n])..Sum(lengths)];
    }
  }

  lemma CutNone<T>(s: seq<T>)
    ensures Cut(s, []) == []
  {
  }

  lemma CutStep<T>(s: seq<T>, lengths: seq<nat>)
    requires |s| >= Sum(lengths) && lengths != []
    ensures var n := |lengths| - 1;
            Cut(s, lengths) == Cut(s, lengths[..n]) + [s[Sum(lengths[..n])..Sum(lengths)]]
  {
  }

  lemma FlatStep<T>(pieces: seq<seq<T>>, piece: seq<T>)
    ensures Flat(pieces + [piece]) == Flat(pieces) + piece
  {
    assert (pieces + [piece])[..|pieces|] == pieces;
  }

  ghost predicate Corrected(data: seq<seq<Octet>>, counts: seq<nat>)
    requires |data| == |counts|
  {
    forall r: nat | r < |data| :: Correction(data[r], counts[r]).Some?
  }

  ghost function EcBlocks(data: seq<seq<Octet>>, counts: seq<nat>): (ec: seq<seq<Octet>>)
    requires |data| == |counts| && Corrected(data, counts)
    ensures Lengths(ec) == counts
  {
    var ec := seq(|data|, r requires 0 <= r < |data| => Correction(data[r], counts[r]).value);
    assert forall r: nat | r < |data| :: |ec[r]| == counts[r] by {
      forall r: nat | r < |data| ensures |ec[r]| == counts[r] { BlockIsCodeword(data[r], counts[r]); }
    }
    ec
  }

  /** The buffer has data for every block, and every block's correction bytes can be computed. */
  ghost predicate AllCorrected(buffer: seq<Octet>, blocks: seq<RSBlock>) {
    |buffer| >= Sum(DataCounts(blocks)) && Corrected(Cut(buffer, DataCounts(blocks)), EcCounts(blocks))
  }

  /** The symbol's bytes for a buffer; None where the buffer is short, a block raises, or the bytes do not fit. */
  ghost function Codewords(buffer: seq<Octet>, blocks: seq<RSBlock>): Option<seq<Octet>> {
    if !AllCorrected(buffer, blocks) || !Sized(blocks) then None
    else
      var data := Cut(buffer, DataCounts(blocks));
      Some(Interleaved(data) + Interleaved(EcBlocks(data, EcCounts(blocks))))
  }

  /** The symbol's bytes for a list of items. */
  ghost function SymbolBytes(typeNumber: int, blocks: seq<RSBlock>, items: seq<seq<Octet>>): Option<seq<Octet>> {
    var bytes :- DataBytes(typeNumber, items, Sum(DataCounts(blocks)));
    Codewords(bytes, blocks)
  }

  /** All bytes together need more room than the blocks offer exactly when some block has too many data bytes. */
  lemma {:induction false} TotalSplits(blocks: seq<RSBlock>)
    ensures TotalCount(blocks) <= Sum(DataCounts(blocks)) + Sum(EcCounts(blocks))
    ensures TotalCount(blocks) == Sum(DataCounts(blocks)) + Sum(EcCounts(blocks)) <==> Sized(blocks)
    decreases |blocks|
  {
    if blocks != [] {
      var n := |blocks| - 1;
      TotalSplits(blocks[..n]);
      assert DataCounts(blocks)[..n] == DataCounts(blocks[..n]);
      assert EcCounts(blocks)[..n] == EcCounts(blocks[..n]);
      assert Sized(blocks) <==> Sized(blocks[..n]) && blocks[n].dataCount <= blocks[n].totalCount;
    }
  }

  // ----- the program -----

  /** Copies one block's data bytes out of the buffer; None when the buffer is short. */
  method TakeBlock(buffer: seq<Octet>, offset: nat, count: nat) returns (r: Option<seq<Octet>>)
    ensures r == if count == 0 || offset + count <= |buffer| then Some(Slice(buffer, offset, count)) else None
  {
    var row := new Octet[count](_ => ZERO);
    for i := 0 to count
      invariant i == 0 || offset + i <= |buffer|
      invariant forall k | 0 <= k < i :: row[k] == buffer[offset + k]
    {
      if i + offset >= |buffer| { return None; }
      row[i] := buffer[i + offset];
    }
    if count > 0 { assert row[..] == buffer[offset..offset + count]; }
    return Some(row[..]);
  }

  function Slice(buffer: seq<Octet>, offset: nat, count: nat): seq<Octet>
    requires count == 0 || offset + count <= |buffer|
  {
    if count == 0 then [] else buffer[offset..offset + count]
  }

  lemma {:induction false} SumPrefix(lengths: seq<nat>, n: nat)
    requires n <= |lengths|
    ensures Sum(lengths[..n]) <= Sum(lengths)
    decreases |lengths|
  {
    if n < |lengths| {
      SumPrefix(lengths[..|lengths| - 1], n);
      assert lengths[..|lengths| - 1][..n] == lengths[..n];
    } else {
      assert lengths[..n] == lengths;
    }
  }

  /** Every block's data and correction bytes, with the longest of each; false where a block raises. */
  method CorrectBlocks(buffer: seq<Octet>, blocks: seq<RSBlock>)
    returns (ok: bool, data: seq<seq<Octet>>, ec: seq<seq<Octet>>, maxData: nat, maxEc: nat)
    ensures ok <==> AllCorrected(buffer, blocks)
    ensures ok ==> && |buffer| >= Sum(DataCounts(blocks)) && data == Cut(buffer, DataCounts(blocks))
                   && |data| == |blocks| && Corrected(data, EcCounts(blocks)) && ec == EcBlocks(data, EcCounts(blocks))
                   && maxData == Longest(DataCounts(blocks)) && maxEc == Longest(EcCounts(blocks))
  {
    hide Correction, FirstBlocks, AllCorrected, Sum, Longest;
    ghost var ds, es := DataCounts(blocks), EcCounts(blocks);
    data, ec, maxData, maxEc := [], [], 0, 0;
    var offset := 0;
    assert Longest(ds[..0]) == Longest(es[..0]) == 0 by { NoneLongest(); }
    NoBlocks(buffer, ds, es);
    for r := 0 to |blocks|
      invariant offset == Sum(ds[..r]) && FirstBlocks(buffer, ds, es, r, data, ec)
      invariant maxData == Longest(ds[..r]) && maxEc == Longest(es[..r])
    {
      var dataCount := blocks[r].dataCount;
      var ecCount: int := blocks[r].totalCount as int - dataCount;
      LongestStep(ds, r);
      LongestStep(es, r);
      maxData := if dataCount > maxData then dataCount else maxData;
      maxEc := if ecCount > maxEc then ecCount else maxEc;
      var row := TakeBlock(buffer, offset, dataCount);
      OneBlockMore(buffer, blocks, r, data, ec, offset);
      if row.None? { return false, [], [], 0, 0; }
      var own := CorrectBlock(row.value, if ecCount > 0 then ecCount else 0);
      if own.None? { return false, [], [], 0, 0; }
      offset := offset + dataCount;
      data, ec := data + [row.value], ec + [own.value];
    }
    AllBlocks(buffer, blocks, data, ec);
    assert ds[..|blocks|] == ds && es[..|blocks|] == es;
    return true, data, ec, maxData, maxEc;
  }

  lemma NoneLongest()
    ensures Longest([]) == 0
  {
  }

  lemma LongestStep(lengths: seq<nat>, r: nat)
    requires r < |lengths|
    ensures var m := Longest(lengths[..r]); Longest(lengths[..r + 1]) == if lengths[r] > m then lengths[r] else m
  {
    assert lengths[..r + 1][..r] == lengths[..r] && lengths[..r + 1][r] == lengths[r];
  }

  /** The data and correction bytes of the first n blocks. */
  ghost predicate FirstBlocks(buffer: seq<Octet>, ds: seq<nat>, es: seq<nat>, n: nat, data: seq<seq<Octet>>, ec: seq<seq<Octet>>)
    requires n <= |ds| == |es|
  {
    && Sum(ds[..n]) <= |buffer| && data == Cut(buffer, ds[..n])
    && |data| == n && Corrected(data, es[..n]) && ec == EcBlocks(data, es[..n])
  }

  lemma NoBlocks(buffer: seq<Octet>, ds: seq<nat>, es: seq<nat>)
    requires |ds| == |es|
    ensures Sum(ds[..0]) == 0 && FirstBlocks(buffer, ds, es, 0, [], [])
  {
  }

  lemma AllBlocks(buffer: seq<Octet>, blocks: seq<RSBlock>, data: seq<seq<Octet>>, ec: seq<seq<Octet>>)
    requires FirstBlocks(buffer, DataCounts(blocks), EcCounts(blocks), |blocks|, data, ec)
    ensures |buffer| >= Sum(DataCounts(blocks)) && data == Cut(buffer, DataCounts(blocks))
    ensures |data| == |blocks| && Corrected(data, EcCounts(blocks)) && ec == EcBlocks(data, EcCounts(blocks))
    ensures AllCorrected(buffer, blocks)
  {
    hide Cut, Correction, EcBlocks;
    var ds, es := DataCounts(blocks), EcCounts(blocks);
    assert ds[..|blocks|] == ds && es[..|blocks|] == es;
  }

  /** What the next block adds, or how it raises. */
  lemma OneBlockMore(buffer: seq<Octet>, blocks: seq<RSBlock>, r: nat, data: seq<seq<Octet>>, ec: seq<seq<Octet>>, offset: nat)
    requires r < |blocks| && FirstBlocks(buffer, DataCounts(blocks), EcCounts(blocks), r, data, ec)
    requires offset == Sum(DataCounts(blocks)[..r])
    ensures var d, e := DataCounts(blocks)[r], EcCounts(blocks)[r];
            && Sum(DataCounts(blocks)[..r + 1]) == offset + d && offset <= |buffer|
            && if offset + d > |buffer| then !AllCorrected(buffer, blocks)
               else
                 var own := Correction(Slice(buffer, offset, d), e);
                 if own.None? then !AllCorrected(buffer, blocks)
                 else FirstBlocks(buffer, DataCounts(blocks), EcCounts(blocks), r + 1,
                                  data + [Slice(buffer, offset, d)], ec + [own.value])
  {
    hide Correction, AllCorrected, FirstBlocks;
    var ds, es := DataCounts(blocks), EcCounts(blocks);
    SumStep(ds, r);
    FirstFit(buffer, ds, es, r, data, ec);
    if offset + ds[r] > |buffer| {
      BufferShort(buffer, blocks, r);
    } else {
      var row := Slice(buffer, offset, ds[r]);
      FirstCut(buffer, ds, r);
      if Correction(row, es[r]).None? {
        NotCorrected(buffer, blocks, r, row);
      } else {
        FirstBlocksStep(buffer, ds, es, r, data, ec);
      }
    }
  }

  lemma SumStep(lengths: seq<nat>, r: nat)
    requires r < |lengths|
    ensures Sum(lengths[..r + 1]) == Sum(lengths[..r]) + lengths[r]
  {
    assert lengths[..r + 1][..r] == lengths[..r];
  }

  lemma FirstFit(buffer: seq<Octet>, ds: seq<nat>, es: seq<nat>, n: nat, data: seq<seq<Octet>>, ec: seq<seq<Octet>>)
    requires n <= |ds| == |es| && FirstBlocks(buffer, ds, es, n, data, ec)
    ensures Sum(ds[..n]) <= |buffer| && data == Cut(buffer, ds[..n]) && |data| == n
  {
    hide Cut, Corrected, EcBlocks;
  }

  lemma BufferShort(buffer: seq<Octet>, blocks: seq<RSBlock>, r: nat)
    requires r < |blocks| && |buffer| < Sum(DataCounts(blocks)[..r + 1])
    ensures !AllCorrected(buffer, blocks)
  {
    hide Cut, Corrected;
    SumPrefix(DataCounts(blocks), r + 1);
  }

  /** The data of one block more. */
  lemma FirstCut(buffer: seq<Octet>, ds: seq<nat>, r: nat)
    requires r < |ds| && Sum(ds[..r]) + ds[r] <= |buffer|
    ensures Sum(ds[..r + 1]) <= |buffer|
    ensures Cut(buffer, ds[..r + 1]) == Cut(buffer, ds[..r]) + [Slice(buffer, Sum(ds[..r]), ds[r])]
  {
    hide Cut, Sum, Slice, Lengths;
    var a, b := Sum(ds[..r]), Sum(ds[..r + 1]);
    assert b == a + ds[r] by { SumStep(ds, r); }
    CutNext(buffer, ds, r);
    assert Slice(buffer, a, ds[r]) == buffer[a..b] by { SliceIs(buffer, a, ds[r]); }
  }

  lemma SliceIs(buffer: seq<Octet>, offset: nat, count: nat)
    requires offset + count <= |buffer|
    ensures Slice(buffer, offset, count) == buffer[offset..offset + count]
  {
  }

  lemma CutNext<T>(s: seq<T>, lengths: seq<nat>, r: nat)
    requires r < |lengths| && Sum(lengths[..r]) <= Sum(lengths[..r + 1]) <= |s|
    ensures Cut(s, lengths[..r + 1]) == Cut(s, lengths[..r]) + [s[Sum(lengths[..r])..Sum(lengths[..r + 1])]]
  {
    hide Cut;
    var front := lengths[..r + 1];
    assert front[..r] == lengths[..r];
    CutStep(s, front);
  }

  lemma FirstBlocksStep(buffer: seq<Octet>, ds: seq<nat>, es: seq<nat>, r: nat, data: seq<seq<Octet>>, ec: seq<seq<Octet>>)
    requires r < |ds| == |es| && FirstBlocks(buffer, ds, es, r, data, ec) && Sum(ds[..r]) + ds[r] <= |buffer|
    requires Correction(Slice(buffer, Sum(ds[..r]), ds[r]), es[r]).Some?
    ensures var row := Slice(buffer, Sum(ds[..r]), ds[r]);
            FirstBlocks(buffer, ds, es, r + 1, data + [row], ec + [Correction(row, es[r]).value])
  {
    hide Correction, Cut, Sum, Slice, Corrected, EcBlocks;
    var row := Slice(buffer, Sum(ds[..r]), ds[r]);
    FirstCut(buffer, ds, r);
    EcStep(data, es[..r], row, es[r]);
    assert es[..r + 1] == es[..r] + [es[r]];
  }

  lemma EcStep(data: seq<seq<Octet>>, counts: seq<nat>, row: seq<Octet>, count: nat)
    requires |data| == |counts| && Corrected(data, counts) && Correction(row, count).Some?
    ensures Corrected(data + [row], counts + [count])
    ensures EcBlocks(data + [row], counts + [count]) == EcBlocks(data, counts) + [Correction(row, count).value]
  {
    hide Correction;
  }

  lemma {:induction false} CutPrefix<T>(s: seq<T>, lengths: seq<nat>, n: nat)
    requires |s| >= Sum(lengths) && n <= |lengths|
    ensures |s| >= Sum(lengths[..n]) && |Cut(s, lengths)| == |lengths| && Cut(s, lengths)[..n] == Cut(s, lengths[..n])
    decreases |lengths|
  {
    SumPrefix(lengths, n);
    assert |Cut(s, lengths)| == |Lengths(Cut(s, lengths))|;
    if n < |lengths| {
      var m := |lengths| - 1;
      CutPrefix(s, lengths[..m], n);
      assert lengths[..m][..n] == lengths[..n];
      assert Cut(s, lengths)[..m] == Cut(s, lengths[..m]);
    } else {
      assert lengths[..n] == lengths;
    }
  }

  lemma NotCorrected(buffer: seq<Octet>, blocks: seq<RSBlock>, r: nat, row: seq<Octet>)
    requires r < |blocks| && Correction(row, EcCounts(blocks)[r]).None?
    requires var ds := DataCounts(blocks)[..r + 1];
             |buffer| >= Sum(ds) && |Cut(buffer, ds)| == r + 1 && Cut(buffer, ds)[r] == row
    ensures !AllCorrected(buffer, blocks)
  {
    hide Correction, Cut;
    var ds := DataCounts(blocks);
    if |buffer| >= Sum(ds) {
      CutPrefix(buffer, ds, r + 1);
      assert Cut(buffer, ds)[r] == Cut(buffer, ds)[..r + 1][r];
    }
  }

  method CreateBytes(buffer: seq<Octet>, blocks: seq<RSBlock>) returns (r: Option<seq<Octet>>)
    ensures r == Codewords(buffer, blocks)
  {
    hide Correction, Cut, Columns, EcBlocks, Corrected, AllCorrected, Sum, TotalCount;
    var ok, data, ec, maxData, maxEc := CorrectBlocks(buffer, blocks);
    if !ok { return None; }
    var total := AllBytes(blocks);
    TotalSplits(blocks);
    StartTotal(Lengths(data), maxData);
    StartTotal(Lengths(ec), maxEc);
    var bytes := new Octet[total](_ => ZERO);
    var index;
    ok, index := WriteColumns(bytes, 0, data, maxData);
    if !ok { return None; }
    assert bytes[..index] == Interleaved(data);
    ok, index := WriteColumns(bytes, index, ec, maxEc);
    if !ok { return None; }
    assert index == total && bytes[..index] == bytes[..];
    return Some(bytes[..]);
  }

  method AllBytes(blocks: seq<RSBlock>) returns (total: nat)
    ensures total == TotalCount(blocks)
  {
    total := 0;
    for i := 0 to |blocks|
      invariant total == TotalCount(blocks[..i])
    {
      assert blocks[..i + 1][..i] == blocks[..i];
      total := total + blocks[i].totalCount;
    }
    assert blocks[..|blocks|] == blocks;
  }

  method CreateData(typeNumber: int, blocks: seq<RSBlock>, items: seq<seq<Octet>>) returns (r: Option<seq<Octet>>)
    ensures r == SymbolBytes(typeNumber, blocks, items)
  {
    hide Codewords, Written, Padded, Bits, QRBitBuffer.Content, QRBitBuffer.Valid, Whole, Pads;
    var buffer := new QRBitBuffer();
    var ok := WriteItems(buffer, typeNumber, items);
    if !ok { return None; }
    ghost var message := buffer.Content();
    var capacity := DataCapacity(blocks);
    if buffer.length > capacity * 8 { return None; }
    EndMessage(buffer, capacity);
    PadMessage(buffer, capacity);
    assert buffer.Content() == Padded(message, capacity) by { PaddedParts(message, capacity); }
    assert DataBits(typeNumber, items, capacity) == Some(buffer.Content());
    WholeBytes(buffer);
    hide DataBits;
    r := CreateBytes(buffer.buffer, blocks);
  }

  method DataCapacity(blocks: seq<RSBlock>) returns (capacity: nat)
    ensures capacity == Sum(DataCounts(blocks))
  {
    capacity := 0;
    for i := 0 to |blocks|
      invariant capacity == Sum(DataCounts(blocks)[..i])
    {
      assert DataCounts(blocks)[..i + 1][..i] == DataCounts(blocks)[..i];
      capacity := capacity + blocks[i].dataCount;
    }
    assert DataCounts(blocks)[..|blocks|] == DataCounts(blocks);
  }

  lemma PaddedParts(message: seq<bool>, capacity: nat)
    requires |message| <= 8 * capacity
    ensures Padded(message, capacity) ==
            Whole(message, capacity) + Pads(capacity - |Whole(message, capacity)| / 8)
  {
  }

  /** A buffer of whole bytes holds just the bytes its bits make up. */
  lemma WholeBytes(buffer: QRBitBuffer)
    requires buffer.Valid() && |buffer.Content()| % 8 == 0
    ensures Packed(buffer.Content()) == buffer.buffer
  {
    assert buffer.Content() == Bits(buffer.buffer);
    BitsInjective(Packed(buffer.Content()), buffer.buffer);
  }

  // ----- reading a symbol's bytes -----

  /** The data and correction blocks of a symbol, taken apart by the same block sizes. */
  ghost function ReadBlocks(symbol: seq<Octet>, blocks: seq<RSBlock>): (r: (seq<seq<Octet>>, seq<seq<Octet>>))
    requires |symbol| == TotalCount(blocks) && Sized(blocks)
    ensures Lengths(r.0) == DataCounts(blocks) && Lengths(r.1) == EcCounts(blocks)
  {
    TotalSplits(blocks);
    var n := Sum(DataCounts(blocks));
    (Deinterleaved(DataCounts(blocks), symbol[..n]), Deinterleaved(EcCounts(blocks), symbol[n..]))
  }

  lemma BlocksReadBack(data: seq<seq<Octet>>, ec: seq<seq<Octet>>, blocks: seq<RSBlock>)
    requires Lengths(data) == DataCounts(blocks) && Lengths(ec) == EcCounts(blocks) && Sized(blocks)
    ensures |Interleaved(data) + Interleaved(ec)| == TotalCount(blocks)
    ensures ReadBlocks(Interleaved(data) + Interleaved(ec), blocks) == (data, ec)
  {
    hide Interleaved, Deinterleaved;
    TotalSplits(blocks);
    InterleaveDeinterleave(data);
    InterleaveDeinterleave(ec);
    var symbol, n := Interleaved(data) + Interleaved(ec), Sum(DataCounts(blocks));
    assert symbol[..n] == Interleaved(data) && symbol[n..] == Interleaved(ec);
  }

  ghost predicate AllCodewords(data: seq<seq<Octet>>, ec: seq<seq<Octet>>)
    requires |data| == |ec|
  {
    forall r: nat | r < |data| :: IsCodeword(data[r] + ec[r], |ec[r]|)
  }

  /** Whatever is encoded without raising fills the symbol exactly, every block taken from it is a codeword, and the
      data blocks together read back as the items exactly when every length fits its field. */
  lemma SymbolReadsBack(typeNumber: int, blocks: seq<RSBlock>, items: seq<seq<Octet>>, width: nat)
    requires SymbolBytes(typeNumber, blocks, items).Some?
    requires items != [] ==> LengthInBits(typeNumber) == Some(width)
    ensures var symbol := SymbolBytes(typeNumber, blocks, items).value;
            && |symbol| == TotalCount(blocks) && Sized(blocks)
            && var (data, ec) := ReadBlocks(symbol, blocks);
               && |data| == |ec| && AllCodewords(data, ec)
               && (ReadItems(Bits(Flat(data)), width) == Some(items) <==> forall item | item in items :: |item| < Pow(2, width))
  {
    hide Correction, Cut, Deinterleaved, ReadItems, DataBits, PackedAll, Bits, Interleaved, IsCodeword, Pow;
    var ds, es := DataCounts(blocks), EcCounts(blocks);
    DataReadsBack(typeNumber, items, Sum(ds), width);
    var buffer := DataBytes(typeNumber, items, Sum(ds)).value;
    var data := Cut(buffer, ds);
    assert |data| == |Lengths(data)|;
    var ec := EcBlocks(data, es);
    assert |ec| == |Lengths(ec)|;
    BlocksReadBack(data, ec, blocks);
    forall r: nat | r < |data| ensures IsCodeword(data[r] + ec[r], |ec[r]|) {
      BlockIsCodeword(data[r], es[r]);
    }
    FlatCut(buffer, ds);
    assert buffer[..Sum(ds)] == buffer;
  }

  /** A block whose correction bytes cannot be computed. */
  ghost predicate Refused(data: seq<Octet>, ecCount: nat) {
    data == [] || ecCount >= 256 || (ecCount == 255 && !AllZero(data))
  }

  /** Encoding raises exactly for a bad type number, too much data, a refused block, or a block with more data bytes
      than bytes in all. */
  lemma SymbolRaises(typeNumber: int, blocks: seq<RSBlock>, items: seq<seq<Octet>>)
    ensures var n := Sum(DataCounts(blocks)); DataBytes(typeNumber, items, n).None? <==> TooMuch(typeNumber, items, n)
    ensures var bytes := DataBytes(typeNumber, items, Sum(DataCounts(blocks)));
            SymbolBytes(typeNumber, blocks, items).None? <==>
            || bytes.None? || !Sized(blocks)
            || exists r: nat :: r < |blocks| && Refused(Cut(bytes.value, DataCounts(blocks))[r], EcCounts(blocks)[r])
  {
    hide PackedAll, DataBits, Refused, Cut, Codewords, TooMuch;
    DataRaises(typeNumber, items, Sum(DataCounts(blocks)));
    var bytes := DataBytes(typeNumber, items, Sum(DataCounts(blocks)));
    if bytes.Some? { BlocksRaise(bytes.value, blocks); }
  }

  lemma BlocksRaise(buffer: seq<Octet>, blocks: seq<RSBlock>)
    requires |buffer| == Sum(DataCounts(blocks))
    ensures |Cut(buffer, DataCounts(blocks))| == |blocks|
    ensures Codewords(buffer, blocks).None? <==>
            || !Sized(blocks)
            || exists r: nat :: r < |blocks| && Refused(Cut(buffer, DataCounts(blocks))[r], EcCounts(blocks)[r])
  {
    hide Correction, Cut, Interleaved, Refused, EcBlocks;
    var data, es := Cut(buffer, DataCounts(blocks)), EcCounts(blocks);
    assert |data| == |Lengths(data)|;
    forall r: nat | r < |data| ensures Correction(data[r], es[r]).None? <==> Refused(data[r], es[r]) {
      RefusedBlock(data[r], es[r]);
    }
  }

  lemma RefusedBlock(data: seq<Octet>, ecCount: nat)
    ensures Correction(data, ecCount).None? <==> Refused(data, ecCount)
  {
    hide Correction;
    BlockIsCodeword(data, ecCount);
  }
}

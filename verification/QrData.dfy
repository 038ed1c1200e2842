/** The data part of a symbol: items written to the bit buffer, the end code, the padding, and a reader for it. */
module QrData {
  import opened Wrappers
  import opened Modular
  import opened Octets
  import opened Sequences
  import opened BitBuffer

  const MODE := 4  // eight-bit bytes
  const PAD0 := 0xEC
  const PAD1 := 0x11

  /** The width of the length field for byte items; None for a type number that raises. */
  function LengthInBits(typeNumber: int): Option<nat> {
    if 1 <= typeNumber < 10 then Some(8)
    else if typeNumber < 27 then Some(16)
    else if typeNumber < 41 then Some(16)
    else None
  }

  function Item(item: seq<Octet>, width: nat): (r: seq<bool>)
    ensures |r| == 4 + width + 8 * |item|
  {
    Field(MODE, 4) + Field(|item|, width) + Bits(item)
  }

  /** Mode, length and bytes of every item. */
  function Written(items: seq<seq<Octet>>, width: nat): seq<bool> {
    if items == [] then [] else Item(items[0], width) + Written(items[1..], width)
  }

  /** n padding bytes, alternately PAD0 and PAD1. */
  function Pads(n: nat): (r: seq<bool>)
    ensures |r| == 8 * n
  {
    if n == 0 then [] else Pads(n - 1) + Field(if n % 2 == 1 then PAD0 else PAD1, 8)
  }

  function Ended(message: seq<bool>, capacity: nat): seq<bool> {
    message + Repeat(false, if |message| + 4 <= 8 * capacity then 4 else 0)
  }

  function Whole(message: seq<bool>, capacity: nat): (r: seq<bool>)
    ensures |r| % 8 == 0 && |message| <= |r| && (|message| <= 8 * capacity ==> |r| <= 8 * capacity)
  {
    var ended := Ended(message, capacity);
    ended + Repeat(false, (8 - |ended| % 8) % 8)
  }

  /** The message with the end code where it fits, light bits up to a whole byte, and padding bytes up to capacity. */
  function Padded(message: seq<bool>, capacity: nat): (r: seq<bool>)
    requires |message| <= 8 * capacity
    ensures |r| == 8 * capacity
  {
    var whole := Whole(message, capacity);
    whole + Pads(capacity - |whole| / 8)
  }

  /** The padded data bits; None for a bad type number or too much data. */
  function DataBits(typeNumber: int, items: seq<seq<Octet>>, capacity: nat): (r: Option<seq<bool>>)
    ensures r.Some? ==> |r.value| == 8 * capacity
  {
    if items == [] then Some(Padded([], capacity))
    else
      var width :- LengthInBits(typeNumber);
      if |Written(items, width)| > 8 * capacity then None else Some(Padded(Written(items, width), capacity))
  }

  function PackedAll(bits: Option<seq<bool>>, capacity: nat): (r: Option<seq<Octet>>)
    requires bits.Some? ==> |bits.value| == 8 * capacity
    ensures r.Some? ==> |r.value| == capacity && bits == Some(Bits(r.value))
    ensures r.None? <==> bits.None?
  {
    if bits.None? then None else Some(Packed(bits.value))
  }

  /** The data bits as bytes. */
  function DataBytes(typeNumber: int, items: seq<seq<Octet>>, capacity: nat): Option<seq<Octet>> {
    PackedAll(DataBits(typeNumber, items, capacity), capacity)
  }

  method WriteItem(buffer: QRBitBuffer, data: seq<Octet>)
    requires buffer.Valid()
    modifies buffer
    ensures buffer.Valid() && buffer.Content() == old(buffer.Content()) + Bits(data)
  {
    hide Field, OctetBits, QRBitBuffer.Content;
    assert data[..0] == [];
    for i := 0 to |data|
      invariant buffer.Valid() && buffer.Content() == old(buffer.Content()) + Bits(data[..i])
    {
      buffer.Put(ToInt(data[i]), 8);
      OctetField(data[i]);
      BitsConcat(data[..i], [data[i]]);
      assert data[..i + 1] == data[..i] + [data[i]] && Bits([data[i]]) == OctetBits(data[i]);
    }
    assert data[..|data|] == data;
  }

  /** Writes every item; false when the type number raises. */
  method WriteItems(buffer: QRBitBuffer, typeNumber: int, items: seq<seq<Octet>>) returns (ok: bool)
    requires buffer.Valid() && buffer.Content() == []
    modifies buffer
    ensures buffer.Valid() && (ok <==> items == [] || LengthInBits(typeNumber).Some?)
    ensures items == [] ==> buffer.Content() == []
    ensures ok && items != [] ==> buffer.Content() == Written(items, LengthInBits(typeNumber).value)
  {
    hide Field, Bits, Item, Written, QRBitBuffer.Content, QRBitBuffer.Valid;
    assert items[0..] == items;
    for i := 0 to |items|
      invariant buffer.Valid() && (i > 0 ==> LengthInBits(typeNumber).Some?)
      invariant items == [] ==> buffer.Content() == []
      invariant LengthInBits(typeNumber).Some? ==>
                  var w := LengthInBits(typeNumber).value;
                  buffer.Content() + Written(items[i..], w) == Written(items, w)
    {
      ghost var content := buffer.Content();
      buffer.Put(MODE, 4);
      var width := LengthInBits(typeNumber);
      if width.None? { return false; }
      WrittenStep(content, items, i, width.value);
      buffer.Put(|items[i]|, width.value);
      WriteItem(buffer, items[i]);
    }
    if items != [] { WrittenNone(items, LengthInBits(typeNumber).value); }
    return true;
  }

  lemma WrittenNone(items: seq<seq<Octet>>, width: nat)
    ensures Written(items[|items|..], width) == []
  {
  }

  lemma WrittenStep(content: seq<bool>, items: seq<seq<Octet>>, i: nat, width: nat)
    requires i < |items|
    ensures content + Written(items[i..], width) ==
            content + Field(MODE, 4) + Field(|items[i]|, width) + Bits(items[i]) + Written(items[i + 1..], width)
  {
    hide Field, Bits;
    assert items[i..][1..] == items[i + 1..];
  }

  /** The end code where it fits, and light bits up to a whole byte. */
  method EndMessage(buffer: QRBitBuffer, capacity: nat)
    requires buffer.Valid() && |buffer.Content()| <= 8 * capacity
    modifies buffer
    ensures buffer.Valid() && buffer.Content() == Whole(old(buffer.Content()), capacity)
  {
    hide Field, Bits, Repeat, QRBitBuffer.Content;
    if buffer.length + 4 <= capacity * 8 {
      buffer.Put(0, 4);
      NoBits(4);
    }
    FillByte(buffer);
  }

  method FillByte(buffer: QRBitBuffer)
    requires buffer.Valid()
    modifies buffer
    ensures buffer.Valid() && buffer.Content() == old(buffer.Content()) + Repeat(false, (8 - |old(buffer.Content())| % 8) % 8)
  {
    hide Field, Bits, Repeat, QRBitBuffer.Content, QRBitBuffer.Valid;
    ghost var ended := buffer.Content();
    ghost var put, all := 0, (8 - |ended| % 8) % 8;
    while buffer.length % 8 != 0
      invariant buffer.Valid() && buffer.length == |ended| + put && put <= all
      invariant buffer.Content() == ended + Repeat(false, put)
      decreases all - put
    {
      Filled(|ended|, put);
      LightStep(ended, put);
      buffer.PutBit(false);
      put := put + 1;
    }
    Filled(|ended|, put);
  }

  lemma Filled(n: nat, k: nat)
    requires k <= (8 - n % 8) % 8
    ensures (n + k) % 8 == 0 <==> k == (8 - n % 8) % 8
  {
  }

  lemma LightStep(s: seq<bool>, n: nat)
    ensures s + Repeat(false, n) + [false] == s + Repeat(false, n + 1)
  {
  }

  /** Padding bytes up to capacity. */
  method PadMessage(buffer: QRBitBuffer, capacity: nat)
    requires buffer.Valid() && |buffer.Content()| % 8 == 0 && |buffer.Content()| <= 8 * capacity
    modifies buffer
    ensures buffer.Valid()
    ensures buffer.Content() == old(buffer.Content()) + Pads(capacity - |old(buffer.Content())| / 8)
  {
    hide Field, Bits, Pads, QRBitBuffer.Content, QRBitBuffer.Valid;
    ghost var whole := buffer.Content();
    ghost var pads, all := 0, capacity - |whole| / 8;
    PadsNone();
    while true
      invariant buffer.Valid() && buffer.length == |whole| + 8 * pads && pads <= all && pads % 2 == 0
      invariant buffer.Content() == whole + Pads(pads)
      decreases all - pads
    {
      if buffer.length >= capacity * 8 { break; }
      PadsStep(whole, pads);
      buffer.Put(PAD0, 8);
      pads := pads + 1;
      if buffer.length >= capacity * 8 { break; }
      PadsStep(whole, pads);
      buffer.Put(PAD1, 8);
      pads := pads + 1;
    }
  }

  lemma PadsNone()
    ensures Pads(0) == []
  {
  }

  lemma PadsStep(s: seq<bool>, n: nat)
    ensures s + Pads(n) + Field(if n % 2 == 0 then PAD0 else PAD1, 8) == s + Pads(n + 1)
  {
    hide Field;
  }

  lemma {:induction false} NoBits(width: nat)
    ensures Field(0, width) == Repeat(false, width)
  {
    if width > 0 { NoBits(width - 1); }
  }

  // ----- reading -----

  /** Reads items until the end code or fewer than four bits; None for another mode or missing bits. */
  function ReadItems(bits: seq<bool>, width: nat): Option<seq<seq<Octet>>>
    decreases |bits|
  {
    if |bits| < 4 || Number(bits[..4]) == 0 then Some([])
    else if Number(bits[..4]) != MODE || |bits| < 4 + width then None
    else
      var n, rest := Number(bits[4..4 + width]), bits[4 + width..];
      if |rest| < 8 * n then None
      else
        var items :- ReadItems(rest[8 * n..], width);
        Some([Packed(rest[..8 * n])] + items)
  }

  ghost predicate Ends(tail: seq<bool>) {
    |tail| < 4 || tail[..4] == Repeat(false, 4)
  }

  lemma ReadsOne(item: seq<Octet>, width: nat, tail: seq<bool>)
    ensures var bits := Item(item, width) + tail;
            && Number(bits[..4]) == MODE
            && Number(bits[4..4 + width]) == |item| % Pow(2, width)
            && bits[4 + width..] == Bits(item) + tail
  {
    hide Bits, Field, Number, Pow;
    ItemParts(item, width, tail);
    FieldNumber(MODE, 4);
    FieldNumber(|item|, width);
    Sixteen();
  }

  lemma ItemParts(item: seq<Octet>, width: nat, tail: seq<bool>)
    ensures var bits := Item(item, width) + tail;
            && bits[..4] == Field(MODE, 4)
            && bits[4..4 + width] == Field(|item|, width)
            && bits[4 + width..] == Bits(item) + tail
  {
    hide Bits, Field;
  }

  lemma Fits(n: nat, range: nat)
    requires range > 0
    ensures n % range <= n && (n % range == n <==> n < range)
  {
  }

  lemma Sixteen()
    ensures Pow(2, 4) == 16
  {
  }

  /** Written items are read back exactly when every length fits its field. */
  lemma {:induction false} ReadWritten(items: seq<seq<Octet>>, width: nat, tail: seq<bool>)
    requires Ends(tail)
    ensures ReadItems(Written(items, width) + tail, width) == Some(items) <==>
            forall item | item in items :: |item| < Pow(2, width)
  {
    hide Bits, Pow, Item, ReadItems, Packed;
    if items == [] {
      assert Written(items, width) + tail == tail;
      NothingLeft(tail, width);
    } else {
      var item, more := items[0], Written(items[1..], width) + tail;
      assert Written(items, width) + tail == Item(item, width) + more;
      ReadStep(item, width, more);
      assert items == [item] + items[1..];
      if |item| < Pow(2, width) {
        ReadWritten(items[1..], width, tail);
      } else {
        assert item in items;
      }
    }
  }

  /** An item whose length fits is read as itself; any other is read as something shorter, or not at all. */
  lemma ReadStep(item: seq<Octet>, width: nat, more: seq<bool>)
    ensures var read := ReadItems(Item(item, width) + more, width);
            if |item| < Pow(2, width) then
              var rest := ReadItems(more, width);
              read == if rest.None? then None else Some([item] + rest.value)
            else read.Some? ==> read.value != [] && read.value[0] != item
  {
    hide Bits, Field, Number, Pow, Item;
    ReadsOne(item, width, more);
    Fits(|item|, Pow(2, width));
    var n := |item| % Pow(2, width);
    var rest := Bits(item) + more;
    if n == |item| {
      assert rest[..8 * n] == Bits(item) && rest[8 * n..] == more;
      BitsInjective(Packed(rest[..8 * n]), item);
    }
  }

  lemma NothingLeft(tail: seq<bool>, width: nat)
    requires Ends(tail)
    ensures ReadItems(tail, width) == Some([])
  {
    hide Number, Field;
    if |tail| >= 4 {
      NoBits(4);
      FieldNumber(0, 4);
    }
  }

  lemma PaddedTail(message: seq<bool>, capacity: nat)
    requires |message| <= 8 * capacity
    ensures var r := Padded(message, capacity); r == message + r[|message|..] && Ends(r[|message|..])
  {
    hide Pads, Field;
    var r := Padded(message, capacity);
    var end := Repeat(false, if |message| + 4 <= 8 * capacity then 4 else 0);
    assert r[..|message|] == message;
    if |message| + 4 <= 8 * capacity { assert r[|message|..][..4] == end; }
  }

  /** Whatever type number and capacity do not raise, the padded bits are read back as the items put in, exactly when
      every length fits its field. */
  lemma DataReadsBack(typeNumber: int, items: seq<seq<Octet>>, capacity: nat, width: nat)
    requires DataBits(typeNumber, items, capacity).Some?
    requires items != [] ==> LengthInBits(typeNumber) == Some(width)
    ensures |DataBits(typeNumber, items, capacity).value| == 8 * capacity
    ensures ReadItems(DataBits(typeNumber, items, capacity).value, width) == Some(items) <==>
            forall item | item in items :: |item| < Pow(2, width)
  {
    hide ReadItems, Padded, Pow;
    var message := Written(items, width);
    PaddedTail(message, capacity);
    ReadWritten(items, width, Padded(message, capacity)[|message|..]);
  }

  // ----- the constants of the standard -----

  /** An item starts with the bits 0100 of the byte mode, and its length has eight bits up to type 9 and sixteen above. */
  lemma ItemHeader(typeNumber: int, item: seq<Octet>, width: nat)
    ensures Item(item, width)[..4] == [false, true, false, false]
    ensures 1 <= typeNumber <= 40 ==> LengthInBits(typeNumber) == Some(if typeNumber <= 9 then 8 else 16)
    ensures typeNumber > 40 <==> LengthInBits(typeNumber).None?
  {
    hide Bits;
    ModeBits();
    ItemParts(item, width, []);
    assert Item(item, width) + [] == Item(item, width);
  }

  lemma ModeBits()
    ensures Field(MODE, 4) == [false, true, false, false]
  {
    assert Field(MODE, 1) == [false];
    assert Field(MODE, 2) == [false, false];
  }

  /** Padding byte k is 11101100 or 00010001, in turn. */
  lemma {:induction false} PadByte(n: nat, k: nat)
    requires k < n
    ensures Pads(n)[8 * k..8 * k + 8] ==
            if k % 2 == 0 then [true, true, true, false] + [true, true, false, false]
            else [false, false, false, true] + [false, false, false, true]
  {
    hide Field, Pads;
    PadsEnd(n, k);
    if k < n - 1 { PadByte(n - 1, k); } else { PadBits(); }
  }

  lemma PadsEnd(n: nat, k: nat)
    requires k < n
    ensures Pads(n)[8 * k..8 * k + 8] ==
            if k < n - 1 then Pads(n - 1)[8 * k..8 * k + 8] else Field(if k % 2 == 0 then PAD0 else PAD1, 8)
  {
    hide Field;
  }

  lemma PadBits()
    ensures Field(PAD0, 8) == [true, true, true, false] + [true, true, false, false]
    ensures Field(PAD1, 8) == [false, false, false, true] + [false, false, false, true]
  {
    var first := Octet(true, true, true, false, true, true, false, false);
    var second := Octet(false, false, false, true, false, false, false, true);
    assert ToInt(first) == 0xEC && ToInt(second) == 0x11;
    hide Field, ToInt, Bit;
    OctetField(first);
    OctetField(second);
  }

  /** Padding in full: zeros up to the first whole byte after an end code of four zeros, or after as much of it as fits,
      then the padding bytes up to the capacity. */
  lemma PaddedLayout(message: seq<bool>, capacity: nat) returns (zeros: nat)
    requires |message| <= 8 * capacity
    ensures var end := if 8 * capacity - |message| < 4 then 8 * capacity - |message| else 4;
            end <= zeros < end + 8 && (|message| + zeros) % 8 == 0 && |message| + zeros <= 8 * capacity
    ensures Padded(message, capacity) == message + Repeat(false, zeros) + Pads(capacity - (|message| + zeros) / 8)
  {
    hide Pads;
    var ended := Ended(message, capacity);
    zeros := |Whole(message, capacity)| - |message|;
    assert Whole(message, capacity) == message + Repeat(false, zeros);
  }

  function TotalBytes(items: seq<seq<Octet>>): nat {
    if items == [] then 0 else |items[0]| + TotalBytes(items[1..])
  }

  lemma {:induction false} WrittenLength(items: seq<seq<Octet>>, width: nat)
    ensures |Written(items, width)| == |items| * (4 + width) + 8 * TotalBytes(items)
  {
    hide Item;
    if items != [] {
      WrittenLength(items[1..], width);
      assert |items| * (4 + width) == (|items| - 1) * (4 + width) + (4 + width);
    }
  }

  /** A type above 40, or more bits than there is room for: twelve or twenty for each item, by type, and eight for each of
      their bytes. */
  predicate TooMuch(typeNumber: int, items: seq<seq<Octet>>, capacity: nat) {
    items != [] &&
    (typeNumber > 40 || |items| * (if 1 <= typeNumber <= 9 then 12 else 20) + 8 * TotalBytes(items) > 8 * capacity)
  }

  /** The data raises exactly then. */
  lemma DataRaises(typeNumber: int, items: seq<seq<Octet>>, capacity: nat)
    ensures DataBits(typeNumber, items, capacity).None? <==> TooMuch(typeNumber, items, capacity)
  {
    hide Written, Padded, TotalBytes;
    if items != [] && typeNumber <= 40 { WrittenLength(items, LengthInBits(typeNumber).value); }
  }
}

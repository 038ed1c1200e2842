/** Blocks of uneven lengths laid out column by column, and the slot each byte goes to. */
module Interleave {

  /** The i-th bytes of the blocks that have one. */
  function Column<T>(blocks: seq<seq<T>>, i: nat): seq<T> {
    if blocks == [] then []
    else
      var b := blocks[|blocks| - 1];
      Column(blocks[..|blocks| - 1], i) + (if i < |b| then [b[i]] else [])
  }

  function Columns<T>(blocks: seq<seq<T>>, n: nat): seq<T> {
    if n == 0 then [] else Columns(blocks, n - 1) + Column(blocks, n - 1)
  }

  function Lengths<T>(blocks: seq<seq<T>>): (r: seq<nat>)
    ensures |r| == |blocks| && forall k | 0 <= k < |r| :: r[k] == |blocks[k]|
  {
    seq(|blocks|, k requires 0 <= k < |blocks| => |blocks[k]|)
  }

  function Longest(lengths: seq<nat>): (m: nat)
    ensures forall k | 0 <= k < |lengths| :: lengths[k] <= m
  {
    if lengths == [] then 0
    else
      var m, l := Longest(lengths[..|lengths| - 1]), lengths[|lengths| - 1];
      if l > m then l else m
  }

  function Interleaved<T>(blocks: seq<seq<T>>): seq<T> {
    Columns(blocks, Longest(Lengths(blocks)))
  }

  function Sum(lengths: seq<nat>): nat {
    if lengths == [] then 0 else Sum(lengths[..|lengths| - 1]) + lengths[|lengths| - 1]
  }

  // ----- slots -----

  /** How many of the first r blocks have an i-th byte. */
  function Rank(lengths: seq<nat>, i: nat, r: nat): nat
    requires r <= |lengths|
  {
    if r == 0 then 0 else Rank(lengths, i, r - 1) + (if i < lengths[r - 1] then 1 else 0)
  }

  /** How many bytes lie in the first n columns. */
  function Start(lengths: seq<nat>, n: nat): nat {
    if n == 0 then 0 else Start(lengths, n - 1) + Rank(lengths, n - 1, |lengths|)
  }

  /** The slot of byte i of block r. */
  function Slot(lengths: seq<nat>, r: nat, i: nat): nat
    requires r < |lengths|
  {
    Start(lengths, i) + Rank(lengths, i, r)
  }

  lemma {:induction false} RankPrefix(lengths: seq<nat>, shorter: seq<nat>, i: nat, r: nat)
    requires r <= |shorter| <= |lengths| && shorter == lengths[..|shorter|]
    ensures Rank(shorter, i, r) == Rank(lengths, i, r)
    decreases r
  {
    if r > 0 { RankPrefix(lengths, shorter, i, r - 1); }
  }

  lemma {:induction false} RankMonotone(lengths: seq<nat>, i: nat, r: nat, s: nat)
    requires r <= s <= |lengths|
    ensures Rank(lengths, i, r) <= Rank(lengths, i, s)
    decreases s
  {
    if r < s { RankMonotone(lengths, i, r, s - 1); }
  }

  lemma {:induction false} ColumnLength<T>(blocks: seq<seq<T>>, i: nat)
    ensures |Column(blocks, i)| == Rank(Lengths(blocks), i, |blocks|)
    decreases |blocks|
  {
    if blocks != [] {
      var n := |blocks| - 1;
      ColumnLength(blocks[..n], i);
      assert Lengths(blocks[..n]) == Lengths(blocks)[..n];
      RankPrefix(Lengths(blocks), Lengths(blocks[..n]), i, n);
    }
  }

  lemma {:induction false} ColumnAt<T>(blocks: seq<seq<T>>, i: nat, r: nat)
    requires r < |blocks| && i < |blocks[r]|
    ensures var k := Rank(Lengths(blocks), i, r); k < |Column(blocks, i)| && Column(blocks, i)[k] == blocks[r][i]
    decreases |blocks|
  {
    var n := |blocks| - 1;
    var front := blocks[..n];
    assert Lengths(front) == Lengths(blocks)[..n];
    RankPrefix(Lengths(blocks), Lengths(front), i, r);
    if r < n {
      ColumnAt(front, i, r);
    } else {
      ColumnLength(front, i);
    }
  }

  lemma {:induction false} ColumnsStart<T>(blocks: seq<seq<T>>, n: nat)
    ensures |Columns(blocks, n)| == Start(Lengths(blocks), n)
  {
    if n > 0 {
      ColumnsStart(blocks, n - 1);
      ColumnLength(blocks, n - 1);
    }
  }

  lemma {:induction false} ColumnsAt<T>(blocks: seq<seq<T>>, n: nat, r: nat, i: nat)
    requires r < |blocks| && i < |blocks[r]| && i < n
    ensures Slot(Lengths(blocks), r, i) < |Columns(blocks, n)|
    ensures Columns(blocks, n)[Slot(Lengths(blocks), r, i)] == blocks[r][i]
    decreases n
  {
    hide Column, Rank, Start, Lengths;
    if i < n - 1 {
      ColumnsAt(blocks, n - 1, r, i);
    } else {
      ColumnsStart(blocks, i);
      ColumnAt(blocks, i, r);
    }
  }

  // ----- every slot is used once -----

  function Min(a: nat, b: nat): nat {
    if a < b then a else b
  }

  lemma {:induction false} StartOneMore(lengths: seq<nat>, n: nat)
    requires lengths != []
    ensures Start(lengths, n) == Start(lengths[..|lengths| - 1], n) + Min(lengths[|lengths| - 1], n)
    decreases n
  {
    if n > 0 {
      StartOneMore(lengths, n - 1);
      RankPrefix(lengths, lengths[..|lengths| - 1], n - 1, |lengths| - 1);
    }
  }

  lemma {:induction false} StartTotal(lengths: seq<nat>, n: nat)
    requires forall k | 0 <= k < |lengths| :: lengths[k] <= n
    ensures Start(lengths, n) == Sum(lengths)
    decreases |lengths|, n
  {
    if lengths == [] {
      if n > 0 { StartTotal(lengths, n - 1); }
    } else {
      StartTotal(lengths[..|lengths| - 1], n);
      StartOneMore(lengths, n);
    }
  }

  lemma {:induction false} StartMonotone(lengths: seq<nat>, m: nat, n: nat)
    requires m <= n
    ensures Start(lengths, m) <= Start(lengths, n)
    decreases n
  {
    if m < n { StartMonotone(lengths, m, n - 1); }
  }

  lemma SlotInRange(lengths: seq<nat>, r: nat, i: nat)
    requires r < |lengths| && i < lengths[r]
    ensures Slot(lengths, r, i) < Start(lengths, i + 1) <= Sum(lengths)
  {
    RankMonotone(lengths, i, r + 1, |lengths|);
    StartMonotone(lengths, i + 1, Longest(lengths));
    StartTotal(lengths, Longest(lengths));
  }

  /** Slots are in the order of the bytes' places in their blocks, and of the blocks for the same place. */
  lemma SlotOrder(lengths: seq<nat>, r: nat, i: nat, s: nat, j: nat)
    requires r < |lengths| && i < lengths[r] && s < |lengths| && j < lengths[s]
    ensures Slot(lengths, r, i) < Slot(lengths, s, j) <==> i < j || (i == j && r < s)
  {
    SlotInRange(lengths, r, i);
    SlotInRange(lengths, s, j);
    if i < j { StartMonotone(lengths, i + 1, j); }
    if j < i { StartMonotone(lengths, j + 1, i); }
    if r < s { RankMonotone(lengths, i, r + 1, s); }
    if s < r { RankMonotone(lengths, i, s + 1, r); }
  }

  /** Different bytes have different slots. */
  lemma SlotInjective(lengths: seq<nat>, r: nat, i: nat, s: nat, j: nat)
    requires r < |lengths| && i < lengths[r] && s < |lengths| && j < lengths[s]
    requires Slot(lengths, r, i) == Slot(lengths, s, j)
    ensures r == s && i == j
  {
    SlotOrder(lengths, r, i, s, j);
    SlotOrder(lengths, s, j, r, i);
  }

  lemma {:induction false} RankFound(lengths: seq<nat>, i: nat, n: nat, k: nat) returns (r: nat)
    requires n <= |lengths| && k < Rank(lengths, i, n)
    ensures r < n && i < lengths[r] && Rank(lengths, i, r) == k
    decreases n
  {
    if k < Rank(lengths, i, n - 1) { r := RankFound(lengths, i, n - 1, k); } else { r := n - 1; }
  }

  /** Every slot holds some byte. */
  lemma {:induction false} SlotFound(lengths: seq<nat>, n: nat, k: nat) returns (r: nat, i: nat)
    requires k < Start(lengths, n)
    ensures r < |lengths| && i < lengths[r] && i < n && Slot(lengths, r, i) == k
    decreases n
  {
    if k < Start(lengths, n - 1) {
      r, i := SlotFound(lengths, n - 1, k);
    } else {
      i := n - 1;
      r := RankFound(lengths, i, |lengths|, k - Start(lengths, i));
    }
  }

  // ----- taking the blocks apart again -----

  ghost function Deinterleaved<T>(lengths: seq<nat>, s: seq<T>): (blocks: seq<seq<T>>)
    requires |s| == Sum(lengths)
    ensures Lengths(blocks) == lengths
  {
    assert forall r: nat, i: nat | r < |lengths| && i < lengths[r] :: Slot(lengths, r, i) < |s| by {
      forall r: nat, i: nat | r < |lengths| && i < lengths[r] ensures Slot(lengths, r, i) < |s| {
        SlotInRange(lengths, r, i);
      }
    }
    seq(|lengths|, r requires 0 <= r < |lengths| =>
      seq(lengths[r], i requires 0 <= i < lengths[r] => s[Slot(lengths, r, i)]))
  }

  lemma InterleavedLength<T>(blocks: seq<seq<T>>)
    ensures |Interleaved(blocks)| == Sum(Lengths(blocks))
  {
    ColumnsStart(blocks, Longest(Lengths(blocks)));
    StartTotal(Lengths(blocks), Longest(Lengths(blocks)));
  }

  /** Taking apart what was interleaved gives the blocks back. */
  lemma InterleaveDeinterleave<T>(blocks: seq<seq<T>>)
    ensures |Interleaved(blocks)| == Sum(Lengths(blocks))
    ensures Deinterleaved(Lengths(blocks), Interleaved(blocks)) == blocks
  {
    InterleavedLength(blocks);
    var lengths := Lengths(blocks);
    var back := Deinterleaved(lengths, Interleaved(blocks));
    forall r: nat | r < |blocks| ensures back[r] == blocks[r] {
      assert |back[r]| == Lengths(back)[r];
      forall i: nat | i < |blocks[r]| ensures back[r][i] == blocks[r][i] {
        ColumnsAt(blocks, Longest(lengths), r, i);
      }
    }
  }

  /** Interleaving what was taken apart gives the bytes back: every slot is read. */
  lemma DeinterleaveInterleave<T>(lengths: seq<nat>, s: seq<T>)
    requires |s| == Sum(lengths)
    ensures Interleaved(Deinterleaved(lengths, s)) == s
  {
    var blocks := Deinterleaved(lengths, s);
    var n := Longest(lengths);
    InterleavedLength(blocks);
    StartTotal(lengths, n);
    forall k: nat | k < |s| ensures Interleaved(blocks)[k] == s[k] {
      var r, i := SlotFound(lengths, n, k);
      assert |blocks[r]| == Lengths(blocks)[r];
      ColumnsAt(blocks, n, r, i);
    }
  }

  // ----- the loops -----

  /** Writes the first n columns from an index on and returns the index after them; false where a write past the end
      raises. */
  method WriteColumns<T>(data: array<T>, from: nat, blocks: seq<seq<T>>, n: nat) returns (ok: bool, index: nat)
    requires from <= data.Length
    modifies data
    ensures ok <==> from + Start(Lengths(blocks), n) <= data.Length
    ensures ok ==> && index == from + Start(Lengths(blocks), n)
                   && data[..index] == old(data[..from]) + Columns(blocks, n)
                   && forall k | index <= k < data.Length :: data[k] == old(data[k])
  {
    hide Column, Rank, Lengths;
    index := from;
    for i := 0 to n
      invariant index == from + Start(Lengths(blocks), i) <= data.Length
      invariant data[..index] == old(data[..from]) + Columns(blocks, i)
      invariant forall k | index <= k < data.Length :: data[k] == old(data[k])
    {
      StartMonotone(Lengths(blocks), i + 1, n);
      ok, index := WriteColumn(data, index, blocks, i);
      if !ok { return; }
    }
    ok := true;
  }

  method WriteColumn<T>(data: array<T>, from: nat, blocks: seq<seq<T>>, i: nat) returns (ok: bool, index: nat)
    requires from <= data.Length
    modifies data
    ensures ok <==> from + Rank(Lengths(blocks), i, |blocks|) <= data.Length
    ensures ok ==> && index == from + Rank(Lengths(blocks), i, |blocks|)
                   && data[..index] == old(data[..from]) + Column(blocks, i)
                   && forall k | index <= k < data.Length :: data[k] == old(data[k])
  {
    hide Lengths;
    index := from;
    for r := 0 to |blocks|
      invariant index == from + Rank(Lengths(blocks), i, r) <= data.Length
      invariant data[..index] == old(data[..from]) + Column(blocks[..r], i)
      invariant forall k | index <= k < data.Length :: data[k] == old(data[k])
    {
      RankMonotone(Lengths(blocks), i, r + 1, |blocks|);
      assert blocks[..r + 1][..r] == blocks[..r];
      if i < |blocks[r]| {
        if index >= data.Length { return false, index; }
        ghost var before := data[..index];
        data[index] := blocks[r][i];
        assert data[..index] == before;
        index := index + 1;
        assert data[..index] == before + [blocks[r][i]];
      }
    }
    assert blocks[..|blocks|] == blocks;
    ok := true;
  }
}

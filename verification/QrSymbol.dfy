/** From items to the modules of a symbol, and back. */
module QrSymbol {
  import opened Wrappers
  import opened Modular
  import opened Octets
  import opened BitBuffer
  import opened QrData
  import opened QrBytes
  import opened Interleave
  import opened Placement
  import opened Masks

  /** The whole bytes that bits begin with. */
  function WholeBytesOf(bits: seq<bool>): (s: seq<Octet>)
    ensures |s| == |bits| / 8 && Bits(s) == bits[..|bits| / 8 * 8]
  {
    Packed(bits[..|bits| / 8 * 8])
  }

  lemma {:induction false} BitsPrefix(s: seq<Octet>, n: nat)
    requires n <= |s|
    ensures Bits(s[..n]) == Bits(s)[..8 * n]
  {
    hide Bits;
    assert s == s[..n] + s[n..];
    BitsConcat(s[..n], s[n..]);
  }

  /** Bytes whose bits agree as far as both go. */
  lemma PrefixBytes(s: seq<Octet>, t: seq<Octet>, n: nat)
    requires n <= |s| && n <= |t| && Bits(s)[..8 * n] == Bits(t)[..8 * n]
    ensures s[..n] == t[..n]
  {
    hide Bits;
    BitsPrefix(s, n);
    BitsPrefix(t, n);
    BitsInjective(s[..n], t[..n]);
  }

  function Least(a: nat, b: nat): nat {
    if a < b then a else b
  }

  /** As many bytes are read back from the modules as the visited free modules have room for, and the data has. */
  lemma BytesReadBack(now: Grid, g: Grid, order: seq<Cell>, data: seq<Octet>, m: Family, pattern: int)
    requires SameSize(now, g) && Within(g, order) && Placed(now, g, order, data, pattern) && Within(now, order) && Lawful(m)
    ensures var read, n := WholeBytesOf(Unmasked(now, order, m, pattern)), Least(|order| / 8, |data|);
            n <= |read| && read[..n] == data[..n]
  {
    hide Bits, Placed, Unmasked, WholeBytesOf, Lawful;
    var bits := Unmasked(now, order, m, pattern);
    var read, n := WholeBytesOf(bits), Least(|order| / 8, |data|);
    ModulesReadBack(now, g, order, data, m, pattern);
    SameStart(bits, Bits(data), 8 * n);
    assert Bits(read)[..8 * n] == bits[..8 * n];
    PrefixBytes(read, data, n);
  }

  lemma SameStart(read: seq<bool>, bits: seq<bool>, n: nat)
    requires n <= |read| && n <= |bits|
    requires if |read| <= |bits| then read == bits[..|read|] else read == bits + seq(|read| - |bits|, _ => false)
    ensures read[..n] == bits[..n]
  {
  }

  /** Encodes the items and places their bytes; false where either raises. */
  method MakeSymbol(modules: array2<Option<bool>>, typeNumber: int, blocks: seq<RSBlock>, items: seq<seq<Octet>>, pattern: int)
    returns (ok: bool)
    requires modules.Length0 == modules.Length1
    modifies modules
    ensures var g := old(Snapshot(modules));
            var symbol, path := SymbolBytes(typeNumber, blocks, items), Path(|g|, |g| / 2);
            && Within(g, path) && Within(g, FreeOrder(g, path))
            && (ok <==> symbol.Some? && (0 <= pattern < 8 || !HasFree(g, path)))
            && (if ok then Placed(Snapshot(modules), g, FreeOrder(g, path), symbol.value, pattern)
                else Snapshot(modules) == g)
  {
    hide SymbolBytes, Path, Placed, FreeOrder;
    ghost var g := Snapshot(modules);
    PathWithin(g, |g| / 2);
    FreeOrderCells(g, Path(|g|, |g| / 2));
    var data := CreateData(typeNumber, blocks, items);
    if data.None? { return false; }
    ok := MapData(modules, data.value, pattern);
  }

  ghost predicate AllFit(items: seq<seq<Octet>>, width: nat) {
    forall item | item in items :: |item| < Pow(2, width)
  }

  /** What a reader with the masks m finds: the first bytes in visiting order, taken apart into the data blocks and joined;
      None where there are not enough modules for the data. */
  ghost function DataRead(now: Grid, order: seq<Cell>, m: Family, pattern: int, blocks: seq<RSBlock>, width: nat)
    : Option<seq<seq<Octet>>>
    requires Square(now) && Within(now, order)
  {
    var read, n := WholeBytesOf(Unmasked(now, order, m, pattern)), Sum(DataCounts(blocks));
    if |read| < n then None else ReadItems(Bits(Flat(Deinterleaved(DataCounts(blocks), read[..n]))), width)
  }

  /** From items to modules and back, for any reader whose masks obey the laws: of the symbol's bytes as many survive as
      the visited free modules hold, and where that is enough for the data the items are read back exactly when every
      length fits its field. The correction bytes come last, so they are the first to be lost. */
  lemma SymbolRoundTrip(now: Grid, g: Grid, typeNumber: int, blocks: seq<RSBlock>, items: seq<seq<Octet>>,
                        m: Family, pattern: int, width: nat)
    requires SameSize(now, g) && SymbolBytes(typeNumber, blocks, items).Some? && Lawful(m)
    requires items != [] ==> LengthInBits(typeNumber) == Some(width)
    requires var path := Path(|g|, |g| / 2);
             && Within(g, path) && Within(g, FreeOrder(g, path))
             && Placed(now, g, FreeOrder(g, path), SymbolBytes(typeNumber, blocks, items).value, pattern)
    ensures var order, symbol := FreeOrder(g, Path(|g|, |g| / 2)), SymbolBytes(typeNumber, blocks, items).value;
            && Within(now, order) && |symbol| == TotalCount(blocks)
            && (var read, n := WholeBytesOf(Unmasked(now, order, m, pattern)), Least(|order| / 8, |symbol|);
                n <= |read| && read[..n] == symbol[..n])
            && (|order| >= 8 * Sum(DataCounts(blocks)) ==>
                  (DataRead(now, order, m, pattern, blocks, width) == Some(items) <==> AllFit(items, width)))
  {
    hide SymbolBytes, Path, Placed, FreeOrder, Unmasked, Lawful, WholeBytesOf, ReadItems, Flat, Bits, AllCodewords,
         Deinterleaved, TotalCount, Pow, Sum;
    var order, symbol := FreeOrder(g, Path(|g|, |g| / 2)), SymbolBytes(typeNumber, blocks, items).value;
    var read, d := WholeBytesOf(Unmasked(now, order, m, pattern)), Sum(DataCounts(blocks));
    WithinSame(now, g, order);
    BytesReadBack(now, g, order, symbol, m, pattern);
    SymbolReadsBack(typeNumber, blocks, items, width);
    TotalSplits(blocks);
    assert |read| == |order| / 8;
    if |order| >= 8 * d { SamePrefix(read, symbol, Least(|order| / 8, |symbol|), d); }
  }

  lemma SamePrefix<T>(s: seq<T>, t: seq<T>, n: nat, d: nat)
    requires d <= n <= |s| && n <= |t| && s[..n] == t[..n]
    ensures s[..d] == t[..d]
  {
    assert s[..d] == s[..n][..d] && t[..d] == t[..n][..d];
  }

  /** Exactly when bytes are lost: when the free modules are fewer than the bytes' bits and the free modules of columns 0
      and 6 together. */
  lemma BytesLost(g: Grid, blocks: seq<RSBlock>)
    requires Square(g) && |g| % 2 == 1 && |g| >= 7
    ensures Within(g, Path(|g|, |g| / 2))
    ensures |FreeOrder(g, Path(|g|, |g| / 2))| < 8 * TotalCount(blocks) <==>
            |AllFree(g)| < 8 * TotalCount(blocks) + |FreeInColumn(g, 0)| + |FreeInColumn(g, 6)|
  {
    hide Path, FreeOrder, AllFree, FreeInColumn, TotalCount;
    VisitedCount(g);
  }

  /** A symbol of type 1 holds 25 bytes: with 26, as all its rows in the block table have, the last correction byte is
      lost and the items are read back all the same. */
  lemma FirstSymbolRoundTrip(now: Grid, g: Grid, blocks: seq<RSBlock>, items: seq<seq<Octet>>, m: Family, pattern: int)
    requires SameSize(now, g) && FirstSymbol(g) && SymbolBytes(1, blocks, items).Some? && Lawful(m)
    requires TotalCount(blocks) == 26 && Sum(DataCounts(blocks)) <= 25
    requires Within(g, Path(21, 10)) && Within(g, FreeOrder(g, Path(21, 10)))
    requires Placed(now, g, FreeOrder(g, Path(21, 10)), SymbolBytes(1, blocks, items).value, pattern)
    ensures var order, symbol := FreeOrder(g, Path(21, 10)), SymbolBytes(1, blocks, items).value;
            && Within(now, order)
            && |symbol| == 26 && WholeBytesOf(Unmasked(now, order, m, pattern)) == symbol[..25]
            && (DataRead(now, order, m, pattern, blocks, 8) == Some(items) <==> forall item | item in items :: |item| < 256)
  {
    hide SymbolBytes, Path, Placed, FreeOrder, Unmasked, Lawful, WholeBytesOf, TotalCount, Sum, DataRead, FirstSymbol, Pow;
    assert |g| == 21 by { FirstSize(g); }
    FirstSymbolCount(g);
    SymbolRoundTrip(now, g, 1, blocks, items, m, pattern, 8);
    assert Pow(2, 8) == 256 by { EightBits(); }
  }

  lemma FirstSize(g: Grid)
    requires FirstSymbol(g)
    ensures |g| == 21
  {
  }

  lemma EightBits()
    ensures Pow(2, 8) == 256
  {
  }

  lemma WithinSame(now: Grid, g: Grid, order: seq<Cell>)
    requires SameSize(now, g) && Within(g, order)
    ensures Within(now, order)
  {
  }
}

/** Placing the bytes' bits in the free modules of the symbol, two columns at a time, up and down. */
module Placement {
  import opened Wrappers
  import opened Octets
  import opened BitBuffer
  import opened Masks

  datatype Cell = Cell(row: nat, col: nat)

  type Grid = seq<seq<Option<bool>>>

  ghost predicate Square(g: Grid) {
    forall r | 0 <= r < |g| :: |g[r]| == |g|
  }

  ghost function Snapshot(modules: array2<Option<bool>>): (g: Grid)
    requires modules.Length0 == modules.Length1
    reads modules
    ensures |g| == modules.Length0 && Square(g)
    ensures forall r, c | 0 <= r < |g| && 0 <= c < |g| :: g[r][c] == modules[r, c]
  {
    seq(modules.Length0, r requires 0 <= r < modules.Length0 reads modules =>
      seq(modules.Length1, c requires 0 <= c < modules.Length1 reads modules => modules[r, c]))
  }

  /** The colour of a module: the bit, inverted where the mask says so. */
  function Masked(bit: bool, pattern: int, cell: Cell): Option<bool> {
    var mask :- Mask(pattern, cell.row, cell.col);
    Some(bit != mask)
  }

  /** Bit k of the data, light past the end. */
  predicate DataBit(data: seq<Octet>, k: nat) {
    k / 8 < |data| && Bit(data[k / 8], 7 - k % 8)
  }

  // ----- the order of visits -----

  /** The first t rows of a pair of columns. */
  function Sweep(n: nat, col: nat, up: bool, t: nat): seq<Cell>
    requires t <= n && col > 0
  {
    if t == 0 then []
    else
      var row := if up then n - t else t - 1;
      Sweep(n, col, up, t - 1) + [Cell(row, col), Cell(row, col - 1)]
  }

  /** The right column of the j-th pair: every second column from the right, with 5 in place of 6. */
  function PairColumn(n: nat, j: nat): (col: nat)
    requires j < n / 2
    ensures 0 < col < n
  {
    var col := n - 1 - 2 * j;
    if col == 6 then 5 else col
  }

  function Path(n: nat, pairs: nat): seq<Cell>
    requires pairs <= n / 2
  {
    if pairs == 0 then []
    else Path(n, pairs - 1) + Sweep(n, PairColumn(n, pairs - 1), pairs % 2 == 1, n)
  }

  ghost predicate Within(g: Grid, path: seq<Cell>) {
    forall cell | cell in path :: cell.row < |g| && cell.col < |g|
  }

  /** The modules free in the grid, in the order of their first visits. */
  ghost function FreeOrder(g: Grid, path: seq<Cell>): seq<Cell>
    requires Square(g) && Within(g, path)
  {
    if path == [] then []
    else
      var cell, order := path[|path| - 1], FreeOrder(g, path[..|path| - 1]);
      if g[cell.row][cell.col].None? && cell !in order then order + [cell] else order
  }

  lemma {:induction false} SweepCells(n: nat, col: nat, up: bool, t: nat, cell: Cell)
    requires t <= n && 0 < col < n
    ensures cell in Sweep(n, col, up, t) <==>
            (cell.col == col || cell.col == col - 1) && (if up then n - t <= cell.row < n else cell.row < t)
  {
    if t > 0 { SweepCells(n, col, up, t - 1, cell); }
  }

  /** Column col belongs to one of the first pairs. */
  ghost predicate Covered(n: nat, pairs: nat, col: nat)
    requires pairs <= n / 2
  {
    exists j: nat :: j < pairs && col <= PairColumn(n, j) <= col + 1
  }

  lemma CoveredStep(n: nat, pairs: nat, col: nat)
    requires 0 < pairs <= n / 2
    ensures Covered(n, pairs, col) <==> Covered(n, pairs - 1, col) || col <= PairColumn(n, pairs - 1) <= col + 1
  {
    hide PairColumn;
  }

  lemma {:induction false} PathCells(n: nat, pairs: nat, cell: Cell)
    requires pairs <= n / 2
    ensures cell in Path(n, pairs) <==> cell.row < n && Covered(n, pairs, cell.col)
  {
    hide PairColumn, Sweep;
    if pairs > 0 {
      hide Covered;
      PathCells(n, pairs - 1, cell);
      CoveredStep(n, pairs, cell.col);
      SweepCells(n, PairColumn(n, pairs - 1), pairs % 2 == 1, n, cell);
    }
  }

  lemma PathWithin(g: Grid, pairs: nat)
    requires pairs <= |g| / 2
    ensures Within(g, Path(|g|, pairs))
  {
    forall cell | cell in Path(|g|, pairs) ensures cell.row < |g| && cell.col < |g| { PathCells(|g|, pairs, cell); }
  }

  /** In a symbol of odd size all modules are visited but those of columns 0 and 6. */
  lemma Visited(n: nat, cell: Cell)
    requires n % 2 == 1 && n >= 7
    ensures cell in Path(n, n / 2) <==> cell.row < n && cell.col < n && cell.col != 0 && cell.col != 6
  {
    PathCells(n, n / 2, cell);
    if cell.row < n && cell.col < n && cell.col != 0 && cell.col != 6 {
      var j: nat := if cell.col == 5 then (n - 7) / 2 else (n - 1 - cell.col) / 2;
      assert j < n / 2 && cell.col <= PairColumn(n, j) <= cell.col + 1;
    }
  }

  lemma {:induction false} FreeOrderCells(g: Grid, path: seq<Cell>)
    requires Square(g) && Within(g, path)
    ensures forall cell :: cell in FreeOrder(g, path) <==> cell in path && g[cell.row][cell.col].None?
    decreases |path|
  {
    if path != [] { FreeOrderCells(g, path[..|path| - 1]); }
  }

  lemma {:induction false} FreeOrderDistinct(g: Grid, path: seq<Cell>)
    requires Square(g) && Within(g, path)
    ensures forall i, k | 0 <= i < k < |FreeOrder(g, path)| :: FreeOrder(g, path)[i] != FreeOrder(g, path)[k]
    decreases |path|
  {
    if path != [] { FreeOrderDistinct(g, path[..|path| - 1]); }
  }

  lemma FreeOrderStep(g: Grid, path: seq<Cell>, cell: Cell)
    requires Square(g) && Within(g, path + [cell]) && Within(g, path)
    ensures var order := FreeOrder(g, path);
            FreeOrder(g, path + [cell]) == if g[cell.row][cell.col].None? && cell !in order then order + [cell] else order
  {
    assert (path + [cell])[..|path|] == path;
  }

  // ----- the program -----

  ghost predicate SameSize(now: Grid, g: Grid) {
    Square(now) && Square(g) && |now| == |g|
  }

  /** The modules in order hold the data's bits under the mask; all others are as they were. */
  ghost predicate Placed(now: Grid, g: Grid, order: seq<Cell>, data: seq<Octet>, pattern: int)
    requires SameSize(now, g) && Within(g, order)
  {
    && (forall r: nat, c: nat | r < |g| && c < |g| && Cell(r, c) !in order :: now[r][c] == g[r][c])
    && (forall k: nat | k < |order| ::
          0 <= pattern < 8 && now[order[k].row][order[k].col] == Masked(DataBit(data, k), pattern, order[k]))
  }

  function With(g: Grid, r: nat, c: nat, v: Option<bool>): Grid
    requires r < |g| && c < |g[r]|
  {
    g[r := g[r][c := v]]
  }

  lemma SameGrid(a: Grid, b: Grid)
    requires SameSize(a, b) && forall r, c | 0 <= r < |a| && 0 <= c < |a| :: a[r][c] == b[r][c]
    ensures a == b
  {
    forall r | 0 <= r < |a| ensures a[r] == b[r] {
      assert forall c | 0 <= c < |a| :: a[r][c] == b[r][c];
    }
  }

  /** Filling one more free module. */
  lemma PlacedOneMore(now: Grid, g: Grid, order: seq<Cell>, data: seq<Octet>, pattern: int, cell: Cell)
    requires SameSize(now, g) && Within(g, order + [cell]) && Within(g, order)
    requires Placed(now, g, order, data, pattern) && cell !in order && 0 <= pattern < 8
    ensures var v := Masked(DataBit(data, |order|), pattern, cell);
            SameSize(With(now, cell.row, cell.col, v), g) &&
            Placed(With(now, cell.row, cell.col, v), g, order + [cell], data, pattern)
  {
    hide Masked, DataBit;
    var v := Masked(DataBit(data, |order|), pattern, cell);
    var next, more := With(now, cell.row, cell.col, v), order + [cell];
    forall k: nat | k < |more|
      ensures next[more[k].row][more[k].col] == Masked(DataBit(data, k), pattern, more[k])
    {
      if k < |order| { assert more[k] == order[k] && order[k] in order; }
    }
    forall r: nat, c: nat | r < |g| && c < |g| && Cell(r, c) !in more ensures next[r][c] == g[r][c] {
      assert Cell(r, c) != cell;
    }
  }

  /** A module is still free exactly when it was free and is not among those placed. */
  lemma StillFree(now: Grid, g: Grid, order: seq<Cell>, data: seq<Octet>, pattern: int, cell: Cell)
    requires SameSize(now, g) && Within(g, order) && Placed(now, g, order, data, pattern)
    requires cell.row < |g| && cell.col < |g|
    ensures now[cell.row][cell.col].None? <==> g[cell.row][cell.col].None? && cell !in order
  {
    hide Mask, DataBit;
    if cell in order {
      var k: nat :| k < |order| && order[k] == cell;
      MaskDefined(pattern, cell.row, cell.col);
    } else {
      assert Cell(cell.row, cell.col) !in order;
    }
  }

  /** The state after visiting a path: its free modules are placed and the indices name the next bit. */
  ghost predicate Reached(modules: array2<Option<bool>>, g: Grid, path: seq<Cell>, data: seq<Octet>, pattern: int,
                          byteIndex: nat, bitIndex: nat)
    requires Square(g) && modules.Length0 == modules.Length1 == |g|
    reads modules
  {
    && bitIndex < 8 && Within(g, path) && Within(g, FreeOrder(g, path))
    && |FreeOrder(g, path)| == 8 * byteIndex + 7 - bitIndex
    && Placed(Snapshot(modules), g, FreeOrder(g, path), data, pattern)
  }

  lemma NextBit(data: seq<Octet>, byteIndex: nat, bitIndex: nat, k: nat)
    requires bitIndex < 8 && k == 8 * byteIndex + 7 - bitIndex
    ensures DataBit(data, k) <==> byteIndex < |data| && Bit(data[byteIndex], bitIndex)
  {
    assert k / 8 == byteIndex && 7 - k % 8 == bitIndex;
  }

  /** Some module of the path is free. */
  ghost predicate HasFree(g: Grid, path: seq<Cell>)
    requires Square(g) && Within(g, path)
  {
    exists cell :: cell in path && g[cell.row][cell.col].None?
  }

  /** The visit raised: a bad mask pattern met a free module, and nothing was placed. */
  ghost predicate Stopped(modules: array2<Option<bool>>, g: Grid, path: seq<Cell>, pattern: int)
    requires Square(g) && modules.Length0 == modules.Length1 == |g|
    reads modules
  {
    !(0 <= pattern < 8) && Snapshot(modules) == g && Within(g, path) && HasFree(g, path)
  }

  /** Visits one module; false when the mask raises. */
  method PlaceModule(modules: array2<Option<bool>>, data: seq<Octet>, pattern: int, row: nat, col: nat,
                     byteIndex: nat, bitIndex: nat, ghost g: Grid, ghost path: seq<Cell>)
    returns (ok: bool, byteNext: nat, bitNext: nat)
    requires Square(g) && modules.Length0 == modules.Length1 == |g|
    requires row < |g| && col < |g| && Reached(modules, g, path, data, pattern, byteIndex, bitIndex)
    modifies modules
    ensures if ok then Reached(modules, g, path + [Cell(row, col)], data, pattern, byteNext, bitNext)
            else Stopped(modules, g, path + [Cell(row, col)], pattern)
  {
    hide Mask, FreeOrder, Bit, DataBit, Placed;
    ghost var cell, order, before := Cell(row, col), FreeOrder(g, path), Snapshot(modules);
    FreeOrderStep(g, path, cell);
    StillFree(before, g, order, data, pattern, cell);
    byteNext, bitNext := byteIndex, bitIndex;
    if modules[row, col].None? {
      var dark := false;
      if byteIndex < |data| { dark := Bit(data[byteIndex], bitIndex); }
      NextBit(data, byteIndex, bitIndex, |order|);
      var mask := Mask(pattern, row, col);
      MaskDefined(pattern, row, col);
      if mask.None? {
        NothingPlaced(before, g, order, data, pattern);
        assert cell in path + [cell];
        return false, byteNext, bitNext;
      }
      if mask.value { dark := !dark; }
      PlacedOneMore(before, g, order, data, pattern, cell);
      modules[row, col] := Some(dark);
      SameGrid(Snapshot(modules), With(before, row, col, Some(dark)));
      if bitIndex == 0 { byteNext, bitNext := byteIndex + 1, 7; } else { bitNext := bitIndex - 1; }
    }
    ok := true;
  }

  lemma PatternWasGood(now: Grid, g: Grid, order: seq<Cell>, data: seq<Octet>, pattern: int, k: nat)
    requires SameSize(now, g) && Within(g, order) && Placed(now, g, order, data, pattern) && k < |order|
    ensures 0 <= pattern < 8
  {
    assert now[order[k].row][order[k].col] == Masked(DataBit(data, k), pattern, order[k]);
  }

  /** Under a bad pattern nothing has been placed. */
  lemma NothingPlaced(now: Grid, g: Grid, order: seq<Cell>, data: seq<Octet>, pattern: int)
    requires SameSize(now, g) && Within(g, order) && Placed(now, g, order, data, pattern) && !(0 <= pattern < 8)
    ensures order == [] && now == g
  {
    if order != [] {
      PatternWasGood(now, g, order, data, pattern, 0);
      assert false;
    }
    forall r, c | 0 <= r < |now| && 0 <= c < |now| ensures now[r][c] == g[r][c] { assert Cell(r, c) !in order; }
    SameGrid(now, g);
  }

  /** Visits the two modules of a row; false when the mask raises. */
  method PlaceRow(modules: array2<Option<bool>>, data: seq<Octet>, pattern: int, row: nat, col: nat,
                  byteIndex: nat, bitIndex: nat, ghost g: Grid, ghost path: seq<Cell>)
    returns (ok: bool, byteNext: nat, bitNext: nat)
    requires Square(g) && modules.Length0 == modules.Length1 == |g|
    requires row < |g| && 0 < col < |g| && Reached(modules, g, path, data, pattern, byteIndex, bitIndex)
    modifies modules
    ensures var both := path + [Cell(row, col), Cell(row, col - 1)];
            if ok then Reached(modules, g, both, data, pattern, byteNext, bitNext) else Stopped(modules, g, both, pattern)
  {
    hide Reached, Stopped;
    ghost var a, b := Cell(row, col), Cell(row, col - 1);
    assert path + [a] + [b] == path + [a, b];
    ReachedWithin(modules, g, path, data, pattern, byteIndex, bitIndex);
    ok, byteNext, bitNext := PlaceModule(modules, data, pattern, row, col, byteIndex, bitIndex, g, path);
    if !ok {
      StoppedLonger(modules, g, path + [a], path + [a, b], pattern);
      return;
    }
    ok, byteNext, bitNext := PlaceModule(modules, data, pattern, row, col - 1, byteNext, bitNext, g, path + [a]);
  }

  /** Visits a pair of columns from one end to the other and turns round. */
  method SweepPair(modules: array2<Option<bool>>, data: seq<Octet>, pattern: int, col: nat, start: int, step: int,
                   byteIndex: nat, bitIndex: nat, ghost g: Grid, ghost path: seq<Cell>)
    returns (ok: bool, byteNext: nat, bitNext: nat, end: int, back: int)
    requires Square(g) && modules.Length0 == modules.Length1 == |g| && 0 < col < |g|
    requires (start == |g| - 1 && step == -1) || (start == 0 && step == 1)
    requires Reached(modules, g, path, data, pattern, byteIndex, bitIndex)
    modifies modules
    ensures var full := path + Sweep(|g|, col, step == -1, |g|);
            if ok then Reached(modules, g, full, data, pattern, byteNext, bitNext) else Stopped(modules, g, full, pattern)
    ensures ok ==> back == -step && end == if step == -1 then 0 else |g| - 1
  {
    hide Reached, Stopped, Sweep;
    var row, inc := start, step;
    ghost var n, up := |g|, step == -1;
    byteNext, bitNext := byteIndex, bitIndex;
    ghost var t := 0;
    ReachedWithin(modules, g, path, data, pattern, byteIndex, bitIndex);
    SweepStart(n, col, up, path);
    while true
      invariant 0 <= t < n && inc == step && row == if up then n - 1 - t else t
      invariant Reached(modules, g, path + Sweep(n, col, up, t), data, pattern, byteNext, bitNext)
      decreases n - t
    {
      SweepGrows(n, col, up, t, path);
      ok, byteNext, bitNext := PlaceRow(modules, data, pattern, row, col, byteNext, bitNext, g, path + Sweep(n, col, up, t));
      if !ok {
        SweepMembers(g, col, up, t + 1, path);
        StoppedLonger(modules, g, path + Sweep(n, col, up, t + 1), path + Sweep(n, col, up, n), pattern);
        return false, byteNext, bitNext, row, inc;
      }
      t := t + 1;
      row := row + inc;
      if row < 0 || modules.Length0 <= row {
        row := row - inc;
        inc := -inc;
        break;
      }
    }
    end, back := row, inc;
  }

  lemma ReachedWithin(modules: array2<Option<bool>>, g: Grid, path: seq<Cell>, data: seq<Octet>, pattern: int,
                      byteIndex: nat, bitIndex: nat)
    requires Square(g) && modules.Length0 == modules.Length1 == |g|
    requires Reached(modules, g, path, data, pattern, byteIndex, bitIndex)
    ensures Within(g, path)
  {
  }

  lemma SweepStart(n: nat, col: nat, up: bool, path: seq<Cell>)
    requires col > 0
    ensures path + Sweep(n, col, up, 0) == path
  {
  }

  /** The two modules of the next row. */
  lemma SweepGrows(n: nat, col: nat, up: bool, t: nat, path: seq<Cell>)
    requires t < n && 0 < col < n
    ensures var row := if up then n - 1 - t else t;
            path + Sweep(n, col, up, t) + [Cell(row, col), Cell(row, col - 1)] == path + Sweep(n, col, up, t + 1)
  {
  }

  lemma SweepMembers(g: Grid, col: nat, up: bool, t: nat, path: seq<Cell>)
    requires t <= |g| && 0 < col < |g| && Within(g, path)
    ensures var full := path + Sweep(|g|, col, up, |g|);
            Within(g, full) && forall cell | cell in path + Sweep(|g|, col, up, t) :: cell in full
  {
    hide Sweep;
    forall cell: Cell
      ensures cell in Sweep(|g|, col, up, t) ==> cell in Sweep(|g|, col, up, |g|)
      ensures cell in Sweep(|g|, col, up, |g|) ==> cell.row < |g| && cell.col < |g|
    {
      SweepCells(|g|, col, up, t, cell);
      SweepCells(|g|, col, up, |g|, cell);
    }
  }

  lemma StoppedLonger(modules: array2<Option<bool>>, g: Grid, path: seq<Cell>, longer: seq<Cell>, pattern: int)
    requires Square(g) && modules.Length0 == modules.Length1 == |g| && Stopped(modules, g, path, pattern)
    requires (forall cell | cell in path :: cell in longer) && Within(g, longer)
    ensures Stopped(modules, g, longer, pattern)
  {
    var cell :| cell in path && g[cell.row][cell.col].None?;
    assert cell in longer;
  }

  /** Places the data; false when the mask raises, which it does exactly for a bad pattern and some free module on the
      way, and then nothing changes. */
  method MapData(modules: array2<Option<bool>>, data: seq<Octet>, pattern: int) returns (ok: bool)
    requires modules.Length0 == modules.Length1
    modifies modules
    ensures var g := old(Snapshot(modules));
            var path := Path(|g|, |g| / 2);
            && Within(g, path) && Within(g, FreeOrder(g, path))
            && (ok <==> 0 <= pattern < 8 || !HasFree(g, path))
            && (if ok then Placed(Snapshot(modules), g, FreeOrder(g, path), data, pattern) else Snapshot(modules) == g)
  {
    hide Path, FreeOrder, Placed;
    ghost var g := Snapshot(modules);
    PathStart(|g|, g);
    NonePlaced(g, data, pattern);
    ok := SweepPairs(modules, data, pattern, g);
    ghost var path := Path(|g|, |g| / 2);
    PathWithin(g, |g| / 2);
    FreeOrderCells(g, path);
    if ok && !(0 <= pattern < 8) { NothingPlaced(Snapshot(modules), g, FreeOrder(g, path), data, pattern); }
  }

  lemma PathStart(n: nat, g: Grid)
    requires Square(g)
    ensures Path(n, 0) == [] && FreeOrder(g, []) == []
  {
  }

  /** The pairs of columns from the right, the first one upwards. */
  method SweepPairs(modules: array2<Option<bool>>, data: seq<Octet>, pattern: int, ghost g: Grid) returns (ok: bool)
    requires Square(g) && modules.Length0 == modules.Length1 == |g|
    requires Reached(modules, g, Path(|g|, 0), data, pattern, 0, 7)
    modifies modules
    ensures ok ==> exists byteIndex: nat, bitIndex: nat ::
              Reached(modules, g, Path(|g|, |g| / 2), data, pattern, byteIndex, bitIndex)
    ensures !ok ==> Stopped(modules, g, Path(|g|, |g| / 2), pattern)
  {
    hide Sweep, Reached, Stopped;
    var n := modules.Length0;
    var inc, row, bitIndex, byteIndex := -1, n - 1, 7, 0;
    var next := n - 1;
    ghost var pairs := 0;
    while next > 0
      invariant pairs <= n / 2 && next == n - 1 - 2 * pairs
      invariant if pairs % 2 == 0 then row == n - 1 && inc == -1 else row == 0 && inc == 1
      invariant Reached(modules, g, Path(n, pairs), data, pattern, byteIndex, bitIndex)
    {
      var col := next;
      if col == 6 { col := col - 1; }
      ok, byteIndex, bitIndex, row, inc :=
        SweepPair(modules, data, pattern, col, row, inc, byteIndex, bitIndex, g, Path(n, pairs));
      next := next - 2;
      pairs := pairs + 1;
      if !ok {
        PathWithin(g, n / 2);
        PathMembers(n, pairs, n / 2);
        StoppedLonger(modules, g, Path(n, pairs), Path(n, n / 2), pattern);
        return false;
      }
    }
    ok := true;
  }

  lemma PathMembers(n: nat, few: nat, many: nat)
    requires few <= many <= n / 2
    ensures forall cell | cell in Path(n, few) :: cell in Path(n, many)
  {
    hide Path;
    PathExtends(n, few, many);
    forall cell | cell in Path(n, few) ensures cell in Path(n, many) {
      var k :| 0 <= k < |Path(n, few)| && Path(n, few)[k] == cell;
      assert Path(n, many)[..|Path(n, few)|][k] == cell;
    }
  }

  lemma NonePlaced(g: Grid, data: seq<Octet>, pattern: int)
    requires Square(g)
    ensures Placed(g, g, [], data, pattern)
  {
  }

  // ----- what the placement achieves -----

  /** Set modules never change; the free ones are all filled, except exactly those of columns 0 and 6. */
  lemma FilledExceptTwoColumns(now: Grid, g: Grid, data: seq<Octet>, pattern: int)
    requires SameSize(now, g) && |g| % 2 == 1 && |g| >= 7
    requires var path := Path(|g|, |g| / 2);
             && Within(g, path) && Within(g, FreeOrder(g, path))
             && Placed(now, g, FreeOrder(g, path), data, pattern)
    ensures forall r: nat, c: nat | r < |g| && c < |g| ::
              && (g[r][c].Some? ==> now[r][c] == g[r][c])
              && (now[r][c].None? <==> g[r][c].None? && (c == 0 || c == 6))
  {
    hide Mask, FreeOrder, Path, DataBit;
    var path := Path(|g|, |g| / 2);
    FreeOrderCells(g, path);
    forall r: nat, c: nat | r < |g| && c < |g|
      ensures g[r][c].Some? ==> now[r][c] == g[r][c]
      ensures now[r][c].None? <==> g[r][c].None? && (c == 0 || c == 6)
    {
      Visited(|g|, Cell(r, c));
      StillFree(now, g, FreeOrder(g, path), data, pattern, Cell(r, c));
    }
  }

  /** The modules as a reader with the masks m sees them in the order of visits: dark where the colour is not the mask's. */
  ghost function Unmasked(now: Grid, order: seq<Cell>, m: Family, pattern: int): (r: seq<bool>)
    requires Square(now) && Within(now, order)
    ensures |r| == |order|
  {
    seq(|order|, k requires 0 <= k < |order| =>
      now[order[k].row][order[k].col] == Some(!m(pattern, order[k].row, order[k].col)))
  }

  lemma {:induction false} DataBitIsBit(data: seq<Octet>, k: nat)
    ensures DataBit(data, k) == (k < |Bits(data)| && Bits(data)[k])
    decreases |data|
  {
    hide Bit, OctetBits;
    if data != [] {
      if k < 8 {
        assert Bits(data)[k] == OctetBits(data[0])[k];
      } else {
        DataBitIsBit(data[1..], k - 8);
        assert (k - 8) / 8 == k / 8 - 1 && (k - 8) % 8 == k % 8;
      }
    }
  }

  /** To any reader whose masks obey the laws, the modules in visiting order are the data's bits, as many as there is room
      for, then light ones. */
  lemma ModulesReadBack(now: Grid, g: Grid, order: seq<Cell>, data: seq<Octet>, m: Family, pattern: int)
    requires SameSize(now, g) && Within(g, order) && Placed(now, g, order, data, pattern) && Lawful(m)
    ensures var bits, read := Bits(data), Unmasked(now, order, m, pattern);
            if |order| <= |bits| then read == bits[..|order|]
            else read == bits + seq(|order| - |bits|, _ => false)
  {
    hide DataBit, Bits, Mask, Lawful;
    var bits, read := Bits(data), Unmasked(now, order, m, pattern);
    forall k: nat | k < |order| ensures read[k] == (k < |bits| && bits[k]) {
      DataBitIsBit(data, k);
      PatternWasGood(now, g, order, data, pattern, k);
      LawsDetermine(m, pattern, order[k].row, order[k].col);
    }
  }

  // ----- the standard's order -----

  /** The right column of the j-th pair where every pair left of column 6 moves one column over. */
  function StandardColumn(n: nat, j: nat): (col: nat)
    requires n % 2 == 1 && j < n / 2
    ensures 0 < col < n
  {
    var col := n - 1 - 2 * j;
    if col <= 6 then col - 1 else col
  }

  function StandardPath(n: nat, pairs: nat): seq<Cell>
    requires n % 2 == 1 && pairs <= n / 2
  {
    if pairs == 0 then []
    else StandardPath(n, pairs - 1) + Sweep(n, StandardColumn(n, pairs - 1), pairs % 2 == 1, n)
  }

  lemma {:induction false} SweepAt(n: nat, col: nat, up: bool, t: nat, row: nat, left: nat)
    requires row < t <= n && col > 0 && left < 2
    ensures |Sweep(n, col, up, t)| == 2 * t
    ensures Sweep(n, col, up, t)[2 * row + left] == Cell(if up then n - 1 - row else row, col - left)
    decreases t
  {
    if t == 1 {
      assert Sweep(n, col, up, 0) == [];
    } else {
      SweepAt(n, col, up, t - 1, if row < t - 1 then row else 0, left);
    }
  }

  lemma {:induction false} SamePath(n: nat, pairs: nat)
    requires n % 2 == 1 && pairs <= n / 2 && 2 * pairs <= n - 5
    ensures StandardPath(n, pairs) == Path(n, pairs)
  {
    hide Sweep;
    if pairs > 0 { SamePath(n, pairs - 1); }
  }

  ghost predicate StandardCovered(n: nat, pairs: nat, col: nat)
    requires n % 2 == 1 && pairs <= n / 2
  {
    exists j: nat :: j < pairs && col <= StandardColumn(n, j) <= col + 1
  }

  lemma StandardCoveredStep(n: nat, pairs: nat, col: nat)
    requires n % 2 == 1 && 0 < pairs <= n / 2
    ensures StandardCovered(n, pairs, col) <==>
            StandardCovered(n, pairs - 1, col) || col <= StandardColumn(n, pairs - 1) <= col + 1
  {
    hide StandardColumn;
  }

  lemma {:induction false} StandardCells(n: nat, pairs: nat, cell: Cell)
    requires n % 2 == 1 && pairs <= n / 2
    ensures cell in StandardPath(n, pairs) <==> cell.row < n && StandardCovered(n, pairs, cell.col)
  {
    hide StandardColumn, Sweep;
    if pairs > 0 {
      hide StandardCovered;
      StandardCells(n, pairs - 1, cell);
      StandardCoveredStep(n, pairs, cell.col);
      SweepCells(n, StandardColumn(n, pairs - 1), pairs % 2 == 1, n, cell);
    }
  }

  /** The standard's order visits all modules but those of column 6. */
  lemma StandardVisited(n: nat, cell: Cell)
    requires n % 2 == 1 && n >= 7
    ensures cell in StandardPath(n, n / 2) <==> cell.row < n && cell.col < n && cell.col != 6
  {
    StandardCells(n, n / 2, cell);
    if cell.row < n && cell.col < n && cell.col != 6 {
      var j: nat := if cell.col < 6 then (n - 2 - cell.col) / 2 else (n - 1 - cell.col) / 2;
      assert j < n / 2 && cell.col <= StandardColumn(n, j) <= cell.col + 1;
    }
  }

  lemma PathsWithin(g: Grid)
    requires |g| % 2 == 1 && |g| >= 7
    ensures Within(g, Path(|g|, |g| / 2)) && Within(g, StandardPath(|g|, |g| / 2))
  {
    hide Path, StandardPath;
    PathWithin(g, |g| / 2);
    forall cell | cell in StandardPath(|g|, |g| / 2) ensures cell.row < |g| && cell.col < |g| { StandardVisited(|g|, cell); }
  }

  ghost predicate Extends(path: seq<Cell>, first: seq<Cell>) {
    |first| <= |path| && path[..|first|] == first
  }

  lemma {:induction false} PathExtends(n: nat, few: nat, many: nat)
    requires few <= many <= n / 2
    ensures Extends(Path(n, many), Path(n, few))
    decreases many
  {
    hide Sweep;
    if few < many { PathExtends(n, few, many - 1); }
  }

  lemma {:induction false} StandardExtends(n: nat, few: nat, many: nat)
    requires n % 2 == 1 && few <= many <= n / 2
    ensures Extends(StandardPath(n, many), StandardPath(n, few))
    decreases many
  {
    hide Sweep;
    if few < many { StandardExtends(n, few, many - 1); }
  }

  /** Every pair of columns is 2n visits. */
  lemma {:induction false} PathLength(n: nat, pairs: nat)
    requires pairs <= n / 2
    ensures |Path(n, pairs)| == pairs * (2 * n) && (n % 2 == 1 ==> |StandardPath(n, pairs)| == pairs * (2 * n))
  {
    hide Sweep, PairColumn, StandardColumn;
    if pairs > 0 {
      PathLength(n, pairs - 1);
      SweepAt(n, PairColumn(n, pairs - 1), pairs % 2 == 1, n, 0, 0);
      if n % 2 == 1 { SweepAt(n, StandardColumn(n, pairs - 1), pairs % 2 == 1, n, 0, 0); }
      assert pairs * (2 * n) == (pairs - 1) * (2 * n) + 2 * n;
    }
  }

  /** The visits one by one: the j-th pair of columns goes up when j is even and down when it is odd, and in each row the
      right module comes first. */
  lemma PathAt(n: nat, j: nat, row: nat, left: nat)
    requires j < n / 2 && row < n && left < 2
    ensures var k := |Path(n, j)| + 2 * row + left;
            k < |Path(n, n / 2)| && Path(n, n / 2)[k] == Cell(if j % 2 == 0 then n - 1 - row else row, PairColumn(n, j) - left)
  {
    hide Path, Sweep, PairColumn;
    var sweep := Sweep(n, PairColumn(n, j), j % 2 == 0, n);
    OneMorePair(n, j);
    PathExtends(n, j + 1, n / 2);
    SweepAt(n, PairColumn(n, j), j % 2 == 0, n, row, left);
    InMiddle(Path(n, n / 2), Path(n, j), sweep, 2 * row + left);
  }

  /** The standard's order does the same with its own columns. */
  lemma StandardPathAt(n: nat, j: nat, row: nat, left: nat)
    requires n % 2 == 1 && j < n / 2 && row < n && left < 2
    ensures var k := |StandardPath(n, j)| + 2 * row + left;
            && k < |StandardPath(n, n / 2)|
            && StandardPath(n, n / 2)[k] == Cell(if j % 2 == 0 then n - 1 - row else row, StandardColumn(n, j) - left)
  {
    hide StandardPath, Sweep, StandardColumn;
    var sweep := Sweep(n, StandardColumn(n, j), j % 2 == 0, n);
    OneMorePair(n, j);
    StandardExtends(n, j + 1, n / 2);
    SweepAt(n, StandardColumn(n, j), j % 2 == 0, n, row, left);
    InMiddle(StandardPath(n, n / 2), StandardPath(n, j), sweep, 2 * row + left);
  }

  lemma OneMorePair(n: nat, j: nat)
    requires j < n / 2
    ensures Path(n, j + 1) == Path(n, j) + Sweep(n, PairColumn(n, j), j % 2 == 0, n)
    ensures n % 2 == 1 ==> StandardPath(n, j + 1) == StandardPath(n, j) + Sweep(n, StandardColumn(n, j), j % 2 == 0, n)
  {
    hide Sweep, PairColumn, StandardColumn;
    assert (j + 1) % 2 == 1 <==> j % 2 == 0;
  }

  lemma InMiddle(path: seq<Cell>, first: seq<Cell>, sweep: seq<Cell>, k: nat)
    requires Extends(path, first + sweep) && k < |sweep|
    ensures |first| + k < |path| && path[|first| + k] == sweep[k]
  {
    assert path[..|first + sweep|][|first| + k] == sweep[k];
  }

  /** A longer path appends new modules to the order of a shorter one. */
  lemma {:induction false} OrderExtends(g: Grid, path: seq<Cell>, first: seq<Cell>)
    requires Square(g) && Within(g, path) && Within(g, first) && Extends(path, first)
    ensures Extends(FreeOrder(g, path), FreeOrder(g, first))
    ensures forall k | |FreeOrder(g, first)| <= k < |FreeOrder(g, path)| :: FreeOrder(g, path)[k] !in first
    decreases |path|
  {
    if |first| < |path| {
      OrderExtends(g, path[..|path| - 1], first);
      FreeOrderCells(g, first);
    } else {
      assert path == first;
    }
  }

  ghost predicate KthIs(order: seq<Cell>, k: nat, cell: Cell) {
    k < |order| && order[k] == cell
  }

  /** From column 4 rightwards every module gets the same bit as in the standard's order. */
  lemma AgreesWithStandard(g: Grid, cell: Cell, k: nat)
    requires Square(g) && |g| % 2 == 1 && |g| >= 7 && cell.row < |g| && 4 <= cell.col < |g|
    ensures Within(g, Path(|g|, |g| / 2)) && Within(g, StandardPath(|g|, |g| / 2))
    ensures KthIs(FreeOrder(g, Path(|g|, |g| / 2)), k, cell) <==> KthIs(FreeOrder(g, StandardPath(|g|, |g| / 2)), k, cell)
  {
    hide Path, StandardPath, FreeOrder;
    var n := |g|;
    var few := (n - 5) / 2;
    var first := Path(n, few);
    PathsWithin(g);
    PathExtends(n, few, n / 2);
    StandardExtends(n, few, n / 2);
    SamePath(n, few);
    PathWithin(g, few);
    OrderExtends(g, Path(n, n / 2), first);
    OrderExtends(g, StandardPath(n, n / 2), first);
    FreeOrderCells(g, Path(n, n / 2));
    FreeOrderCells(g, StandardPath(n, n / 2));
    Visited(n, cell);
    StandardVisited(n, cell);
    if cell.col != 6 { RightPart(n, cell); }
    var a, b, c := FreeOrder(g, Path(n, n / 2)), FreeOrder(g, StandardPath(n, n / 2)), FreeOrder(g, first);
    if k < |c| {
      assert a[k] == a[..|c|][k] && b[k] == b[..|c|][k];
    } else {
      assert k < |a| ==> a[k] in a;
      assert k < |b| ==> b[k] in b;
    }
  }

  lemma RightPart(n: nat, cell: Cell)
    requires n % 2 == 1 && n >= 7 && cell.row < n && 4 <= cell.col < n && cell.col != 6
    ensures cell in Path(n, (n - 5) / 2)
  {
    PathCells(n, (n - 5) / 2, cell);
    var j: nat := if cell.col <= 5 then (n - 7) / 2 else (n - 1 - cell.col) / 2;
    assert j < (n - 5) / 2 && cell.col <= PairColumn(n, j) <= cell.col + 1;
  }

  // ----- places by counting -----

  /** The free modules of a path. */
  ghost function FreeSet(g: Grid, path: seq<Cell>): set<Cell>
    requires Square(g) && Within(g, path)
  {
    set cell | cell in path && g[cell.row][cell.col].None?
  }

  /** The part of a path before its first visit to a module. */
  function Until(path: seq<Cell>, cell: Cell): (p: seq<Cell>)
    ensures p <= path && cell !in p && (cell in path ==> |p| < |path| && path[|p|] == cell) && (cell !in path ==> p == path)
  {
    if path == [] || path[0] == cell then [] else
      assert path == [path[0]] + path[1..];
      [path[0]] + Until(path[1..], cell)
  }

  lemma UntilWithin(g: Grid, path: seq<Cell>, cell: Cell)
    requires Within(g, path)
    ensures Within(g, Until(path, cell))
  {
    hide Until;
    var p := Until(path, cell);
    forall c | c in p ensures c.row < |g| && c.col < |g| {
      var k :| 0 <= k < |p| && p[k] == c;
      assert path[k] == c && c in path;
    }
  }

  lemma {:induction false} DistinctSize(s: seq<Cell>, cells: set<Cell>)
    requires (forall i, k | 0 <= i < k < |s| :: s[i] != s[k]) && forall cell :: cell in s <==> cell in cells
    ensures |s| == |cells|
    decreases |s|
  {
    if s == [] {
      assert cells == {};
    } else {
      var n := |s| - 1;
      var last := s[n];
      assert forall cell :: cell in s <==> cell in s[..n] || cell == last;
      assert last !in s[..n];
      DistinctSize(s[..n], cells - {last});
    }
  }

  lemma FreeOrderSize(g: Grid, path: seq<Cell>)
    requires Square(g) && Within(g, path)
    ensures |FreeOrder(g, path)| == |FreeSet(g, path)|
  {
    hide FreeOrder;
    FreeOrderCells(g, path);
    FreeOrderDistinct(g, path);
    DistinctSize(FreeOrder(g, path), FreeSet(g, path));
  }

  /** A free module's place in the order is the number of free modules visited before it. */
  lemma PlaceIsCount(g: Grid, path: seq<Cell>, cell: Cell, k: nat)
    requires Square(g) && Within(g, path) && cell.row < |g| && cell.col < |g| && g[cell.row][cell.col].None?
    ensures Within(g, Until(path, cell))
    ensures KthIs(FreeOrder(g, path), k, cell) <==> cell in path && k == |FreeSet(g, Until(path, cell))|
  {
    hide FreeOrder, Until, FreeSet;
    UntilWithin(g, path, cell);
    FreeOrderCells(g, path);
    FreeOrderDistinct(g, path);
    FreeOrderSize(g, Until(path, cell));
    var order := FreeOrder(g, path);
    if cell in path {
      PlacedFirst(g, path, cell);
    } else if k < |order| {
      assert order[k] in order;
    }
  }

  lemma PlacedFirst(g: Grid, path: seq<Cell>, cell: Cell)
    requires Square(g) && Within(g, path) && cell in path && g[cell.row][cell.col].None?
    requires Within(g, Until(path, cell))
    ensures KthIs(FreeOrder(g, path), |FreeOrder(g, Until(path, cell))|, cell)
  {
    hide FreeOrder, Until;
    var p := Until(path, cell);
    var q, first := p + [cell], FreeOrder(g, p);
    assert path[..|q|] == q;
    FreeOrderCells(g, p);
    FreeOrderStep(g, p, cell);
    OrderExtends(g, path, q);
    LastOf(FreeOrder(g, path), first, cell);
  }

  lemma LastOf(order: seq<Cell>, first: seq<Cell>, cell: Cell)
    requires Extends(order, first + [cell])
    ensures KthIs(order, |first|, cell)
  {
    assert order[|first|] == order[..|first| + 1][|first|];
  }

  /** A free module gets the same bit as in the standard's order exactly when it is not in column 0 or 6 and as many free
      modules are visited before it in both orders. */
  lemma SamePlaceAsStandard(g: Grid, cell: Cell)
    requires Square(g) && |g| % 2 == 1 && |g| >= 7 && cell.row < |g| && cell.col < |g| && g[cell.row][cell.col].None?
    ensures Within(g, Path(|g|, |g| / 2)) && Within(g, StandardPath(|g|, |g| / 2))
    ensures Within(g, Until(Path(|g|, |g| / 2), cell)) && Within(g, Until(StandardPath(|g|, |g| / 2), cell))
    ensures var own, other := Path(|g|, |g| / 2), StandardPath(|g|, |g| / 2);
            (exists k: nat :: KthIs(FreeOrder(g, own), k, cell) && KthIs(FreeOrder(g, other), k, cell)) <==>
            && cell.col != 0 && cell.col != 6
            && |FreeSet(g, Until(own, cell))| == |FreeSet(g, Until(other, cell))|
  {
    hide Path, StandardPath, FreeOrder, Until, FreeSet, KthIs;
    var own, other := Path(|g|, |g| / 2), StandardPath(|g|, |g| / 2);
    PathsWithin(g);
    UntilWithin(g, own, cell);
    UntilWithin(g, other, cell);
    Visited(|g|, cell);
    StandardVisited(|g|, cell);
    forall k: nat
      ensures KthIs(FreeOrder(g, own), k, cell) <==> cell in own && k == |FreeSet(g, Until(own, cell))|
      ensures KthIs(FreeOrder(g, other), k, cell) <==> cell in other && k == |FreeSet(g, Until(other, cell))|
    {
      PlaceIsCount(g, own, cell, k);
      PlaceIsCount(g, other, cell, k);
    }
    var count := |FreeSet(g, Until(own, cell))|;
    assert KthIs(FreeOrder(g, own), count, cell) <==> cell in own;
    assert KthIs(FreeOrder(g, other), count, cell) <==> cell in other && count == |FreeSet(g, Until(other, cell))|;
    if k: nat :| KthIs(FreeOrder(g, own), k, cell) && KthIs(FreeOrder(g, other), k, cell) {
      assert cell in own && k == count && k == |FreeSet(g, Until(other, cell))|;
    }
  }

  // ----- how many modules are visited -----

  /** The free modules of a symbol. */
  ghost function AllFree(g: Grid): set<Cell>
    requires Square(g)
  {
    set r: nat, c: nat | r < |g| && c < |g| && g[r][c].None? :: Cell(r, c)
  }

  ghost function FreeInColumn(g: Grid, col: nat): set<Cell>
    requires Square(g)
  {
    set cell | cell in AllFree(g) && cell.col == col
  }

  /** In a symbol of odd size the visits fill all free modules but those of columns 0 and 6. */
  lemma VisitedCount(g: Grid)
    requires Square(g) && |g| % 2 == 1 && |g| >= 7
    ensures Within(g, Path(|g|, |g| / 2))
    ensures |FreeOrder(g, Path(|g|, |g| / 2))| == |AllFree(g)| - |FreeInColumn(g, 0)| - |FreeInColumn(g, 6)|
  {
    hide Path, FreeOrder;
    var path := Path(|g|, |g| / 2);
    PathWithin(g, |g| / 2);
    FreeOrderSize(g, path);
    VisitedFree(g);
    WithoutTwo(AllFree(g), FreeInColumn(g, 0), FreeInColumn(g, 6));
  }

  lemma VisitedFree(g: Grid)
    requires Square(g) && |g| % 2 == 1 && |g| >= 7 && Within(g, Path(|g|, |g| / 2))
    ensures FreeSet(g, Path(|g|, |g| / 2)) == AllFree(g) - FreeInColumn(g, 0) - FreeInColumn(g, 6)
  {
    hide Path;
    forall cell: Cell
      ensures cell in FreeSet(g, Path(|g|, |g| / 2)) <==> cell in AllFree(g) - FreeInColumn(g, 0) - FreeInColumn(g, 6)
    {
      Visited(|g|, cell);
      assert cell == Cell(cell.row, cell.col);
    }
  }

  lemma WithoutTwo<T>(all: set<T>, a: set<T>, b: set<T>)
    requires a <= all && b <= all && a !! b
    ensures |all - a - b| == |all| - |a| - |b|
  {
    assert all == (all - a - b) + (a + b);
  }

  // ----- the smallest symbol -----

  /** The modules of a symbol of type 1 that are set before the data is placed: three finder patterns with their borders,
      two timing lines and the type information. */
  predicate FirstReserved(r: nat, c: nat) {
    (r < 9 && (c < 9 || c >= 13)) || (r >= 13 && c < 9) || r == 6 || c == 6
  }

  function Rectangle(r0: nat, r1: nat, c0: nat, c1: nat): set<Cell> {
    set r: nat, c: nat | r0 <= r < r1 && c0 <= c < c1 :: Cell(r, c)
  }

  lemma {:induction false} RowSize(r: nat, c0: nat, c1: nat)
    requires c0 <= c1
    ensures |Rectangle(r, r + 1, c0, c1)| == c1 - c0
    decreases c1
  {
    if c0 < c1 {
      RowSize(r, c0, c1 - 1);
      assert Rectangle(r, r + 1, c0, c1) == Rectangle(r, r + 1, c0, c1 - 1) + {Cell(r, c1 - 1)};
    }
  }

  lemma {:induction false} RectangleSize(r0: nat, r1: nat, c0: nat, c1: nat)
    requires r0 <= r1 && c0 <= c1
    ensures |Rectangle(r0, r1, c0, c1)| == (r1 - r0) * (c1 - c0)
    decreases r1
  {
    hide Rectangle;
    if r0 == r1 {
      NoRows(r0, c0, c1);
    } else {
      RectangleSize(r0, r1 - 1, c0, c1);
      RowSize(r1 - 1, c0, c1);
      OneRowMore(r0, r1, c0, c1);
      assert (r1 - 1 - r0) * (c1 - c0) + (c1 - c0) == (r1 - r0) * (c1 - c0);
    }
  }

  lemma NoRows(r: nat, c0: nat, c1: nat)
    ensures Rectangle(r, r, c0, c1) == {}
  {
  }

  lemma OneRowMore(r0: nat, r1: nat, c0: nat, c1: nat)
    requires r0 < r1
    ensures |Rectangle(r0, r1, c0, c1)| == |Rectangle(r0, r1 - 1, c0, c1)| + |Rectangle(r1 - 1, r1, c0, c1)|
  {
    assert Rectangle(r0, r1, c0, c1) == Rectangle(r0, r1 - 1, c0, c1) + Rectangle(r1 - 1, r1, c0, c1);
  }

  ghost predicate FirstSymbol(g: Grid) {
    |g| == 21 && Square(g) && forall r: nat, c: nat | r < 21 && c < 21 :: g[r][c].Some? <==> FirstReserved(r, c)
  }

  /** A symbol of type 1 has 204 modules that the visits fill, and four more in column 0. */
  lemma FirstSymbolCount(g: Grid)
    requires FirstSymbol(g)
    ensures Within(g, Path(21, 10)) && |FreeOrder(g, Path(21, 10))| == 204 && |FreeInColumn(g, 0)| == 4
  {
    hide Path, FreeOrder, FreeSet, AllFree, FreeInColumn, FirstReserved, Rectangle;
    var path := Path(21, 10);
    PathWithin(g, 10);
    FreeOrderSize(g, path);
    VisitedFree(g);
    FirstParts(g);
    FirstApart();
    Disjoint(Rectangle(0, 6, 9, 13), Rectangle(7, 9, 9, 13), Rectangle(9, 13, 1, 6), Rectangle(9, 13, 7, 21), Rectangle(13, 21, 9, 21));
    RectangleSize(0, 6, 9, 13);
    RectangleSize(7, 9, 9, 13);
    RectangleSize(9, 13, 1, 6);
    RectangleSize(9, 13, 7, 21);
    RectangleSize(13, 21, 9, 21);
    RectangleSize(9, 13, 0, 1);
  }

  lemma FirstParts(g: Grid)
    requires FirstSymbol(g)
    ensures AllFree(g) - FreeInColumn(g, 0) - FreeInColumn(g, 6) ==
            Rectangle(0, 6, 9, 13) + Rectangle(7, 9, 9, 13) + Rectangle(9, 13, 1, 6) + Rectangle(9, 13, 7, 21) + Rectangle(13, 21, 9, 21)
    ensures FreeInColumn(g, 0) == Rectangle(9, 13, 0, 1)
  {
    forall cell: Cell
      ensures cell in AllFree(g) <==> cell.row < 21 && cell.col < 21 && !FirstReserved(cell.row, cell.col)
    {
      assert cell == Cell(cell.row, cell.col);
    }
    forall cell: Cell, r0: nat, r1: nat, c0: nat, c1: nat
      ensures cell in Rectangle(r0, r1, c0, c1) <==> r0 <= cell.row < r1 && c0 <= cell.col < c1
    {
      assert cell == Cell(cell.row, cell.col);
    }
  }

  lemma Apart(a0: nat, a1: nat, a2: nat, a3: nat, b0: nat, b1: nat, b2: nat, b3: nat)
    requires a1 <= b0 || a3 <= b2
    ensures Rectangle(a0, a1, a2, a3) !! Rectangle(b0, b1, b2, b3)
  {
  }

  lemma FirstApart()
    ensures var a, b, c, d, e := Rectangle(0, 6, 9, 13), Rectangle(7, 9, 9, 13), Rectangle(9, 13, 1, 6), Rectangle(9, 13, 7, 21), Rectangle(13, 21, 9, 21);
            a !! b && (a + b) !! c && (a + b + c) !! d && (a + b + c + d) !! e
  {
    hide Rectangle;
    Apart(0, 6, 9, 13, 7, 9, 9, 13);
    Apart(0, 6, 9, 13, 9, 13, 1, 6);
    Apart(7, 9, 9, 13, 9, 13, 1, 6);
    Apart(0, 6, 9, 13, 9, 13, 7, 21);
    Apart(7, 9, 9, 13, 9, 13, 7, 21);
    Apart(9, 13, 1, 6, 9, 13, 7, 21);
    Apart(0, 6, 9, 13, 13, 21, 9, 21);
    Apart(7, 9, 9, 13, 13, 21, 9, 21);
    Apart(9, 13, 1, 6, 13, 21, 9, 21);
    Apart(9, 13, 7, 21, 13, 21, 9, 21);
  }

  lemma Disjoint<T>(a: set<T>, b: set<T>, c: set<T>, d: set<T>, e: set<T>)
    requires a !! b && (a + b) !! c && (a + b + c) !! d && (a + b + c + d) !! e
    ensures |a + b + c + d + e| == |a| + |b| + |c| + |d| + |e|
  {
  }
}

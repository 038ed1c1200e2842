/** The ledger table model: a window of three consecutive pages over a paged history. */
module LedgerWindow {
  import opened Wrappers

  datatype Row = Row(numConf: int, entry: string)

  datatype TableEntry = TableEntry(id: int, table: seq<Row>)

  /** Each page of the history as a table; None where fetching or converting it raises. */
  type History = int -> Option<seq<Row>>

  datatype Window = Window(top: TableEntry, current: TableEntry, bottom: TableEntry, ledger: seq<Row>,
                           previousOffset: Option<int>)

  // ----- the operations on values -----

  /** Refetches a page that is wanted and available. */
  function Refetch(h: History, page: TableEntry, wanted: bool): TableEntry {
    if wanted && h(page.id).Some? then page.(table := h(page.id).value) else page
  }

  function Reset(h: History, w: Window, hard: bool): Window {
    var (t, c, b) := if hard then (TableEntry(-1, []), TableEntry(0, []), TableEntry(1, []))
                     else (w.top, w.current, w.bottom);
    var t' := Refetch(h, t, t.id == 0 || |t.table| == 0);
    var c' := Refetch(h, c, c.id == 0 || |c.table| == 0);
    var b' := Refetch(h, b, |b.table| == 0);
    Window(t', c', b', t'.table + c'.table + b'.table, w.previousOffset)
  }

  /** Loads the page below the window, if there is one. */
  function Down(h: History, w: Window): Window {
    var page := h(w.bottom.id + 1);
    if page.None? then w
    else Reset(h, Window(w.current, w.bottom, TableEntry(w.bottom.id + 1, page.value), w.ledger,
                         Some(-|w.top.table|)), false)
  }

  /** Loading upwards divides by the number of rows in the window; the program raises when there are none. */
  predicate UpRaises(h: History, w: Window) {
    h(w.top.id - 1) == Some([]) && w.top.table == [] && w.current.table == []
  }

  /** Loads the page above the window; when the division raises, the pages have moved but the ledger has not. */
  function Up(h: History, w: Window): Window {
    var page := h(w.top.id - 1);
    if page.None? then w
    else
      var moved := Window(TableEntry(w.top.id - 1, page.value), w.top, w.current, w.ledger, Some(|w.top.table|));
      if UpRaises(h, w) then moved else Reset(h, moved, false)
  }

  /** The returned position of the old view's edge in the new window; None when the division raises. */
  function MoreRatio(h: History, w: Window, atBottom: bool): Option<real> {
    var page := h(if atBottom then w.bottom.id + 1 else w.top.id - 1);
    if page.None? then Some(0.0)
    else
      var prev := |w.current.table| + if atBottom then |w.bottom.table| else |w.top.table|;
      var all := prev + |page.value|;
      if all == 0 then if atBottom then Some(0.0) else None
      else if atBottom then Some(prev as real / all as real) else Some(1.0 - prev as real / all as real)
  }

  function Center(h: History, w: Window, id: int): Window {
    Reset(h, Window(TableEntry(id - 1, []), TableEntry(id, []), TableEntry(id + 1, []), w.ledger, w.previousOffset), false)
  }

  // ----- the table model object -----

  class LedgerModel {
    const history: History
    var topPage: TableEntry
    var currentPage: TableEntry
    var bottomPage: TableEntry
    var ledger: seq<Row>
    var previousOffset: Option<int>

    ghost function State(): Window
      reads this
    {
      Window(topPage, currentPage, bottomPage, ledger, previousOffset)
    }

    constructor (history: History, ledgerTable: seq<Row>)
      ensures this.history == history
      ensures State() == Fresh(ledgerTable)
    {
      this.history := history;
      ledger := ledgerTable;
      bottomPage := TableEntry(1, []);
      currentPage := TableEntry(0, []);
      topPage := TableEntry(-1, []);
      previousOffset := None;
    }

    method ResetModel(hard: bool)
      modifies this
      ensures State() == Reset(history, old(State()), hard)
    {
      if hard {
        topPage := TableEntry(-1, []);
        currentPage := TableEntry(0, []);
        bottomPage := TableEntry(1, []);
      }
      if topPage.id == 0 || |topPage.table| == 0 {
        var page := history(topPage.id);
        if page.Some? { topPage := topPage.(table := page.value); }
      }
      if currentPage.id == 0 || |currentPage.table| == 0 {
        var page := history(currentPage.id);
        if page.Some? { currentPage := currentPage.(table := page.value); }
      }
      if |bottomPage.table| == 0 {
        var page := history(bottomPage.id);
        if page.Some? { bottomPage := bottomPage.(table := page.value); }
      }
      ledger := topPage.table + currentPage.table + bottomPage.table;
    }

    method GetMoreData(atBottom: bool) returns (ratio: Option<real>)
      modifies this
      ensures State() == if atBottom then Down(history, old(State())) else Up(history, old(State()))
      ensures ratio == MoreRatio(history, old(State()), atBottom)
    {
      hide Reset;
      if atBottom {
        var page := history(bottomPage.id + 1);
        if page.None? { return Some(0.0); }
        previousOffset := Some(-|topPage.table|);
        var prevPageCount := |currentPage.table| + |bottomPage.table|;
        topPage := currentPage;
        currentPage := bottomPage;
        bottomPage := TableEntry(bottomPage.id + 1, page.value);
        var pageCount := prevPageCount + |bottomPage.table|;
        if pageCount == 0 {
          ratio := Some(0.0);
        } else {
          ratio := Some(prevPageCount as real / pageCount as real);
        }
      } else {
        var page := history(topPage.id - 1);
        if page.None? { return Some(0.0); }
        previousOffset := Some(|topPage.table|);
        var prevPageCount := |currentPage.table| + |topPage.table|;
        bottomPage := currentPage;
        currentPage := topPage;
        topPage := TableEntry(topPage.id - 1, page.value);
        var pageCount := prevPageCount + |topPage.table|;
        if pageCount == 0 { return None; }
        ratio := Some(1.0 - prevPageCount as real / pageCount as real);
      }
      ResetModel(false);
    }

    /** Moves the window to the page of a block height and returns the row closest to that height. */
    method CenterAtHeight(centerId: int, topHeight: int, blk: int) returns (row: nat)
      modifies this
      ensures State() == Center(history, old(State()), centerId)
      ensures IsClosest(ledger, topHeight, blk, row)
    {
      bottomPage := TableEntry(centerId + 1, []);
      currentPage := TableEntry(centerId, []);
      topPage := TableEntry(centerId - 1, []);
      ResetModel(false);
      row := FindHeight(ledger, topHeight, blk);
    }
  }

  function Distance(r: Row, topHeight: int, blk: int): nat {
    var d := topHeight - r.numConf - 1 - blk;
    if d < 0 then -d else d
  }

  const FAR: nat := 0x1_0000_0000

  /** The last of the rows closest to the height; row 0 when every row is farther than 2^32 blocks. */
  ghost predicate IsClosest(ledger: seq<Row>, topHeight: int, blk: int, row: nat) {
    if forall i | 0 <= i < |ledger| :: Distance(ledger[i], topHeight, blk) > FAR then row == 0
    else
      row < |ledger| && forall i | 0 <= i < |ledger| ::
        var d := Distance(ledger[i], topHeight, blk);
        d >= Distance(ledger[row], topHeight, blk) && (i > row ==> d > Distance(ledger[row], topHeight, blk))
  }

  method FindHeight(ledger: seq<Row>, topHeight: int, blk: int) returns (row: nat)
    ensures IsClosest(ledger, topHeight, blk, row)
  {
    var blockDiff := FAR;
    row := 0;
    for i := 0 to |ledger|
      invariant (blockDiff == FAR && row == 0 && forall j | 0 <= j < i :: Distance(ledger[j], topHeight, blk) > FAR) ||
                (row < i && blockDiff == Distance(ledger[row], topHeight, blk) <= FAR &&
                 forall j | 0 <= j < i :: Distance(ledger[j], topHeight, blk) >= blockDiff &&
                                          (j > row ==> Distance(ledger[j], topHeight, blk) > blockDiff))
    {
      var diff := Distance(ledger[i], topHeight, blk);
      if blockDiff >= diff {
        blockDiff := diff;
        row := i;
      }
    }
  }

  /** The number of confirmations a block has, as the ledger's first column shows it. */
  function Confirmations(topHeight: int, height: int): int {
    topHeight - height + 1
  }

  ghost predicate ShowsHeights(ledger: seq<Row>, topHeight: int, heights: seq<int>) {
    |heights| == |ledger| && forall i | 0 <= i < |ledger| :: ledger[i].numConf == Confirmations(topHeight, heights[i])
  }

  function Apart(a: int, b: int): nat {
    if a < b then b - a else a - b
  }

  /** The row found is the last one closest to a block two above the one asked for. */
  lemma ClosestIsTwoAbove(ledger: seq<Row>, topHeight: int, heights: seq<int>, blk: int, row: nat)
    requires ShowsHeights(ledger, topHeight, heights)
    ensures IsClosest(ledger, topHeight, blk, row) <==>
            if forall i | 0 <= i < |heights| :: Apart(heights[i], blk + 2) > FAR then row == 0
            else row < |heights| && forall i | 0 <= i < |heights| ::
              var d := Apart(heights[i], blk + 2);
              d >= Apart(heights[row], blk + 2) && (i > row ==> d > Apart(heights[row], blk + 2))
  {
    assert forall i | 0 <= i < |heights| :: Distance(ledger[i], topHeight, blk) == Apart(heights[i], blk + 2);
  }

  /** Asked for block 10, with rows for blocks 12 and 10, the program finds the row of block 12. */
  lemma TwoAbove(row: nat)
    requires IsClosest([Row(89, "twelve"), Row(91, "ten")], 100, 10, row)
    ensures ShowsHeights([Row(89, "twelve"), Row(91, "ten")], 100, [12, 10]) && row == 0
  {
    ClosestIsTwoAbove([Row(89, "twelve"), Row(91, "ten")], 100, [12, 10], 10, row);
    assert Apart([12, 10][0], 12) == 0;
  }

  // ----- what every run keeps -----

  /** A page's rows; an absent page has none. */
  function Content(h: History, id: int): seq<Row> {
    if h(id).Some? then h(id).value else []
  }

  /** Three consecutive pages, each not yet fetched or as the history has it. */
  predicate Consistent(h: History, w: Window) {
    w.current.id == w.top.id + 1 && w.bottom.id == w.top.id + 2 &&
    PageConsistent(h, w.top) && PageConsistent(h, w.current) && PageConsistent(h, w.bottom)
  }

  predicate PageConsistent(h: History, page: TableEntry) {
    page.table == [] || page.table == Content(h, page.id)
  }

  function Span(h: History, id: int): seq<Row> {
    Content(h, id) + Content(h, id + 1) + Content(h, id + 2)
  }

  /** All three pages are as the history has them, and the ledger is their concatenation. */
  predicate Settled(h: History, w: Window) {
    Consistent(h, w) &&
    w.top.table == Content(h, w.top.id) && w.current.table == Content(h, w.current.id) &&
    w.bottom.table == Content(h, w.bottom.id) && w.ledger == Span(h, w.top.id)
  }

  lemma ResetSettles(h: History, w: Window, hard: bool)
    requires hard || Consistent(h, w)
    ensures Settled(h, Reset(h, w, hard))
    ensures Reset(h, w, hard).top.id == if hard then -1 else w.top.id
  {
  }

  /** Where the history's first page has changed since the pages were fetched, a reset makes the ledger right again, exactly
      unless the bottom page is the first page and still holds its old rows. */
  lemma ResetFollows(before: History, h: History, w: Window)
    requires Fetched(before, w) && h(0).Some? && forall id | id != 0 :: h(id) == before(id)
    ensures Settled(h, Reset(h, w, false)) <==> w.bottom.id == 0 && w.bottom.table != [] ==> w.bottom.table == h(0).value
  {
    assert h(w.top.id) == before(w.top.id) || w.top.id == 0;
    assert h(w.current.id) == before(w.current.id) || w.current.id == 0;
    assert h(w.bottom.id) == before(w.bottom.id) || w.bottom.id == 0;
  }

  /** A fresh object is set up for the first page: resetting it is resetting it hard. */
  lemma FreshIsHard(h: History, ledgerTable: seq<Row>)
    ensures Reset(h, Fresh(ledgerTable), false) == Reset(h, Fresh(ledgerTable), true)
  {
  }

  datatype Op = Load(atBottom: bool) | ResetOp(hard: bool) | CenterOp(id: int)

  function Apply(h: History, w: Window, op: Op): Window {
    match op
    case Load(atBottom) => if atBottom then Down(h, w) else Up(h, w)
    case ResetOp(hard) => Reset(h, w, hard)
    case CenterOp(id) => Center(h, w, id)
  }

  predicate Raises(h: History, w: Window, op: Op) {
    op == Load(false) && UpRaises(h, w)
  }

  function Run(h: History, w: Window, ops: seq<Op>): Window
    decreases |ops|
  {
    if ops == [] then w else Run(h, Apply(h, w, ops[0]), ops[1..])
  }

  /** An operation that rebuilds the ledger: a reset, a centring, or a load that finds its page and does not raise. */
  predicate Repairs(h: History, w: Window, op: Op) {
    !op.Load? || (h(if op.atBottom then w.bottom.id + 1 else w.top.id - 1).Some? && !Raises(h, w, op))
  }

  lemma ApplyKeeps(h: History, w: Window, op: Op)
    requires Consistent(h, w)
    ensures Consistent(h, Apply(h, w, op))
    ensures Repairs(h, w, op) ==> Settled(h, Apply(h, w, op))
    ensures !Repairs(h, w, op) && !Raises(h, w, op) ==> Apply(h, w, op) == w
  {
    hide Reset, Settled;
    match op
    case Load(atBottom) =>
      if atBottom { DownKeeps(h, w); } else { UpKeeps(h, w); }
    case ResetOp(hard) =>
      ResetSettles(h, w, hard);
    case CenterOp(id) =>
      ResetSettles(h, Window(TableEntry(id - 1, []), TableEntry(id, []), TableEntry(id + 1, []), w.ledger, w.previousOffset), false);
  }

  lemma DownKeeps(h: History, w: Window)
    requires Consistent(h, w)
    ensures h(w.bottom.id + 1).None? ==> Down(h, w) == w
    ensures h(w.bottom.id + 1).Some? ==> Settled(h, Down(h, w)) && Down(h, w).top.id == w.top.id + 1
  {
    var page := h(w.bottom.id + 1);
    if page.Some? {
      ResetSettles(h, Window(w.current, w.bottom, TableEntry(w.bottom.id + 1, page.value), w.ledger, Some(-|w.top.table|)), false);
    }
  }

  lemma UpKeeps(h: History, w: Window)
    requires Consistent(h, w)
    ensures h(w.top.id - 1).None? ==> Up(h, w) == w
    ensures h(w.top.id - 1).Some? ==> Consistent(h, Up(h, w)) && Up(h, w).top.id == w.top.id - 1
    ensures h(w.top.id - 1).Some? && !UpRaises(h, w) ==> Settled(h, Up(h, w))
    ensures Settled(h, w) && UpRaises(h, w) ==> (Settled(h, Up(h, w)) <==> w.bottom.table == [])
  {
    var page := h(w.top.id - 1);
    if page.Some? {
      ResetSettles(h, Window(TableEntry(w.top.id - 1, page.value), w.top, w.current, w.ledger, Some(|w.top.table|)), false);
    }
  }

  /** In every run the page numbers stay consecutive, and every page is not yet fetched or as the history has it. */
  lemma {:induction false} RunKeeps(h: History, w: Window, ops: seq<Op>)
    requires Consistent(h, w)
    ensures Consistent(h, Run(h, w, ops))
    decreases |ops|
  {
    hide Consistent, Apply;
    if ops != [] {
      ApplyKeeps(h, w, ops[0]);
      RunKeeps(h, Apply(h, w, ops[0]), ops[1..]);
    }
  }

  // ----- when the ledger is right -----

  /** The window before operation i. */
  function Before(h: History, w: Window, ops: seq<Op>, i: nat): Window
    requires i <= |ops|
  {
    Run(h, w, ops[..i])
  }

  lemma BeforeStart(h: History, w: Window, ops: seq<Op>)
    ensures Before(h, w, ops, 0) == w
  {
  }

  lemma BeforeStep(h: History, w: Window, ops: seq<Op>, i: nat)
    requires i < |ops|
    ensures Before(h, w, ops, i + 1) == Apply(h, Before(h, w, ops, i), ops[i])
  {
    hide Apply;
    assert ops[..i + 1] == ops[..i] + [ops[i]];
    RunSnoc(h, w, ops[..i], ops[i]);
  }

  /** From operation i on nothing rebuilds the ledger. */
  ghost predicate NoRepairFrom(h: History, w: Window, ops: seq<Op>, i: nat) {
    forall k: nat | i <= k < |ops| :: !Repairs(h, Before(h, w, ops, k), ops[k])
  }

  /** From operation i on, no load raises with rows on the page it drops. */
  ghost predicate NoRowsDropped(h: History, w: Window, ops: seq<Op>, i: nat) {
    forall k: nat | i <= k < |ops| && Raises(h, Before(h, w, ops, k), ops[k]) :: Before(h, w, ops, k).bottom.table == []
  }

  /** All three pages are as the history has them; the ledger may be another. */
  predicate Fetched(h: History, w: Window) {
    Consistent(h, w) &&
    w.top.table == Content(h, w.top.id) && w.current.table == Content(h, w.current.id) &&
    w.bottom.table == Content(h, w.bottom.id)
  }

  /** A raising load finds nothing but empty pages, and keeps the ledger. */
  lemma RaiseMoves(h: History, w: Window, op: Op)
    requires Fetched(h, w) && Raises(h, w, op)
    ensures var w' := Apply(h, w, op);
            && Fetched(h, w') && w'.ledger == w.ledger && Span(h, w'.top.id) == [] && w'.bottom.table == []
            && Span(h, w.top.id) == w.bottom.table
  {
  }

  /** After the last operation that rebuilt the ledger, it stays right exactly until a load raises with rows on the
      page it drops. */
  lemma {:induction false} StaysRight(h: History, w: Window, ops: seq<Op>, i: nat, n: nat)
    requires Consistent(h, w) && i <= n <= |ops| && NoRepairFrom(h, w, ops, i) && Settled(h, Before(h, w, ops, i))
    ensures FetchedOrEmpty(h, Before(h, w, ops, n))
    ensures Settled(h, Before(h, w, ops, n)) <==> NoRowsDropped(h, w, ops[..n], i)
    decreases n
  {
    hide Repairs, Raises, Apply, Run, Before, Fetched, Settled, NoRepairFrom, NoRowsDropped;
    if n == i {
      SettledFetched(h, Before(h, w, ops, n));
      NothingDropped(h, w, ops[..n], i);
    } else {
      StaysRight(h, w, ops, i, n - 1);
      OneMore(h, w, ops, i, n - 1);
    }
  }

  /** The pages are as the history has them, and where the ledger is not, they have no rows. */
  ghost predicate FetchedOrEmpty(h: History, w: Window) {
    Fetched(h, w) && (Settled(h, w) || Span(h, w.top.id) == [])
  }

  lemma SettledFetched(h: History, w: Window)
    ensures Settled(h, w) <==> Fetched(h, w) && w.ledger == Span(h, w.top.id)
  {
  }

  lemma NothingDropped(h: History, w: Window, ops: seq<Op>, i: nat)
    requires i >= |ops|
    ensures NoRowsDropped(h, w, ops, i)
  {
  }

  lemma OneMore(h: History, w: Window, ops: seq<Op>, i: nat, k: nat)
    requires Consistent(h, w) && i <= k < |ops| && NoRepairFrom(h, w, ops, i) && FetchedOrEmpty(h, Before(h, w, ops, k))
    requires Settled(h, Before(h, w, ops, k)) <==> NoRowsDropped(h, w, ops[..k], i)
    ensures FetchedOrEmpty(h, Before(h, w, ops, k + 1))
    ensures Settled(h, Before(h, w, ops, k + 1)) <==> NoRowsDropped(h, w, ops[..k + 1], i)
  {
    hide Repairs, Raises, Apply, Run, Before, Fetched, Settled, Consistent, Span, NoRowsDropped;
    var v, op := Before(h, w, ops, k), ops[k];
    BeforeStep(h, w, ops, k);
    DroppedStep(h, w, ops, i, k);
    FetchedConsistent(h, v);
    ApplyKeeps(h, v, op);
    SettledFetched(h, v);
    SettledFetched(h, Apply(h, v, op));
    if Raises(h, v, op) { RaiseMoves(h, v, op); }
  }

  lemma FetchedConsistent(h: History, w: Window)
    requires Fetched(h, w)
    ensures Consistent(h, w)
  {
  }

  lemma DroppedStep(h: History, w: Window, ops: seq<Op>, i: nat, k: nat)
    requires i <= k < |ops|
    ensures var v := Before(h, w, ops, k);
            NoRowsDropped(h, w, ops[..k + 1], i) <==>
            NoRowsDropped(h, w, ops[..k], i) && (Raises(h, v, ops[k]) ==> v.bottom.table == [])
  {
    hide Raises, Run;
    forall j: nat | j <= k ensures Before(h, w, ops[..k + 1], j) == Before(h, w, ops, j) {
      assert ops[..k + 1][..j] == ops[..j];
    }
    forall j: nat | j <= k ensures Before(h, w, ops[..k], j) == Before(h, w, ops, j) {
      assert ops[..k][..j] == ops[..j];
    }
    assert ops[..k + 1][k] == ops[k];
  }

  /** The constructor's window: nothing fetched, and whatever ledger was handed over. */
  function Fresh(ledgerTable: seq<Row>): Window {
    Window(TableEntry(-1, []), TableEntry(0, []), TableEntry(1, []), ledgerTable, None)
  }

  predicate Unfetched(w: Window) {
    w.top.table == [] && w.current.table == [] && w.bottom.table == []
  }

  /** As long as nothing rebuilds the ledger, the fresh window shows what it was handed. */
  lemma {:induction false} FreshStays(h: History, ledgerTable: seq<Row>, ops: seq<Op>, n: nat)
    requires n <= |ops| && NoRepairFrom(h, Fresh(ledgerTable), ops, 0)
    ensures var w := Before(h, Fresh(ledgerTable), ops, n); Unfetched(w) && w.ledger == ledgerTable && Consistent(h, w)
    decreases n
  {
    hide Repairs, Before, Apply, Raises;
    BeforeStart(h, Fresh(ledgerTable), ops);
    if n > 0 {
      FreshStays(h, ledgerTable, ops, n - 1);
      BeforeStep(h, Fresh(ledgerTable), ops, n - 1);
      UnfetchedStep(h, Before(h, Fresh(ledgerTable), ops, n - 1), ops[n - 1]);
    }
  }

  lemma UnfetchedStep(h: History, w: Window, op: Op)
    requires Unfetched(w) && Consistent(h, w) && !Repairs(h, w, op)
    ensures var w' := Apply(h, w, op); Unfetched(w') && w'.ledger == w.ledger && Consistent(h, w')
  {
    hide Reset;
    ApplyKeeps(h, w, op);
  }

  /** Every run from the constructor, exactly: where some operation rebuilt the ledger, it is right unless a load after
      the last of them raised with rows on the page it dropped; where none did, it is right only if the history's pages
      and the table handed over are empty. */
  lemma RunRight(h: History, ledgerTable: seq<Row>, ops: seq<Op>)
    ensures var w := Fresh(ledgerTable);
            if NoRepairFrom(h, w, ops, 0) then
              Settled(h, Run(h, w, ops)) <==> ledgerTable == [] && Span(h, Run(h, w, ops).top.id) == []
            else
              exists j: nat :: j < |ops| && Repairs(h, Before(h, w, ops, j), ops[j]) && NoRepairFrom(h, w, ops, j + 1) &&
                (Settled(h, Run(h, w, ops)) <==> NoRowsDropped(h, w, ops, j + 1))
  {
    hide Repairs, Run, NoRowsDropped, Settled, NoRepairFrom;
    var w := Fresh(ledgerTable);
    assert ops[..|ops|] == ops;
    if NoRepairFrom(h, w, ops, 0) {
      FreshStays(h, ledgerTable, ops, |ops|);
      SettledFetched(h, Run(h, w, ops));
      EmptyWindow(h, Run(h, w, ops));
    } else {
      var j := LastRepair(h, w, ops, 0);
      RunAfterRepair(h, w, ops, j);
    }
  }

  lemma EmptyWindow(h: History, w: Window)
    requires Unfetched(w) && Consistent(h, w)
    ensures Fetched(h, w) <==> Span(h, w.top.id) == []
  {
  }

  lemma {:induction false} LastRepair(h: History, w: Window, ops: seq<Op>, i: nat) returns (j: nat)
    requires i <= |ops| && !NoRepairFrom(h, w, ops, i)
    ensures i <= j < |ops| && Repairs(h, Before(h, w, ops, j), ops[j]) && NoRepairFrom(h, w, ops, j + 1)
    decreases |ops| - i
  {
    hide Repairs, Before;
    if NoRepairFrom(h, w, ops, i + 1) { j := i; } else { j := LastRepair(h, w, ops, i + 1); }
  }

  /** The same from any consistent window, for the last operation that rebuilt the ledger. */
  lemma RunAfterRepair(h: History, w: Window, ops: seq<Op>, j: nat)
    requires Consistent(h, w) && j < |ops| && Repairs(h, Before(h, w, ops, j), ops[j]) && NoRepairFrom(h, w, ops, j + 1)
    ensures Settled(h, Run(h, w, ops)) <==> NoRowsDropped(h, w, ops, j + 1)
  {
    hide Repairs, Run, NoRowsDropped, Settled, NoRepairFrom, Consistent, Apply;
    RunKeeps(h, w, ops[..j]);
    BeforeStep(h, w, ops, j);
    ApplyKeeps(h, Before(h, w, ops, j), ops[j]);
    StaysRight(h, w, ops, j + 1, |ops|);
    assert ops[..|ops|] == ops;
  }

  /** So a reset, a centring or a load that finds its page makes the ledger right whatever happened before. */
  lemma RunRecovers(h: History, w: Window, ops: seq<Op>, op: Op)
    requires Consistent(h, w) && Repairs(h, Run(h, w, ops), op)
    ensures Settled(h, Run(h, w, ops + [op]))
  {
    hide Repairs, Settled, Consistent, Apply;
    RunKeeps(h, w, ops);
    RunSnoc(h, w, ops, op);
    ApplyKeeps(h, Run(h, w, ops), op);
  }

  /** Pages 0, 1 and 2 are there and empty, page 3 has one row. */
  function SparseHistory(id: int): Option<seq<Row>> {
    if 0 <= id < 3 then Some([]) else if id == 3 then Some([Row(0, "row")]) else None
  }

  /** A run after which the ledger shows a row that is on none of the three pages. */
  lemma StaleRun()
    ensures var w := Run(SparseHistory, Fresh([]), [CenterOp(2), Load(false)]);
            w.top.id == 0 && Span(SparseHistory, 0) == [] && w.ledger == [Row(0, "row")] && !Settled(SparseHistory, w)
  {
    var w := Center(SparseHistory, Fresh([]), 2);
    assert w.ledger == [Row(0, "row")];
    assert Run(SparseHistory, Up(SparseHistory, w), []) == Up(SparseHistory, w);
    assert Run(SparseHistory, w, [Load(false)]) == Up(SparseHistory, w);
  }

  lemma {:induction false} RunSnoc(h: History, w: Window, ops: seq<Op>, op: Op)
    ensures Run(h, w, ops + [op]) == Apply(h, Run(h, w, ops), op)
    decreases |ops|
  {
    if ops == [] {
      assert ops + [op] == [op];
      assert Run(h, Apply(h, w, op), []) == Apply(h, w, op);
    } else {
      assert (ops + [op])[1..] == ops[1..] + [op];
      RunSnoc(h, Apply(h, w, ops[0]), ops[1..], op);
    }
  }

  /** A load down followed by a load up that finds its page shows the same pages and the same ledger again. */
  lemma DownThenUp(h: History, w: Window)
    requires Settled(h, w) && h(w.bottom.id + 1).Some? && h(w.top.id).Some?
    requires !UpRaises(h, Down(h, w))
    ensures var w' := Up(h, Down(h, w));
            w'.top == w.top && w'.current == w.current && w'.bottom == w.bottom && w'.ledger == w.ledger
  {
    DownKeeps(h, w);
    UpKeeps(h, Down(h, w));
  }

  /** On a load down, previousOffset carries every row that stays in the window to its new place. */
  lemma DownOffset(h: History, w: Window, i: nat)
    requires Settled(h, w) && h(w.bottom.id + 1).Some? && |w.top.table| <= i < |w.ledger|
    ensures var w' := Down(h, w);
            w'.previousOffset.Some? && 0 <= i + w'.previousOffset.value < |w'.ledger| &&
            w'.ledger[i + w'.previousOffset.value] == w.ledger[i]
  {
    var w' := Down(h, w);
    DownKeeps(h, w);
    var k := w.top.id;
    assert w.ledger == Content(h, k) + (Content(h, k + 1) + Content(h, k + 2));
    assert w'.ledger == (Content(h, k + 1) + Content(h, k + 2)) + Content(h, k + 3);
  }

  /** The place in the ledger of row i of one of the window's pages. */
  function Place(w: Window, id: int, i: nat): nat {
    i + if id <= w.top.id then 0 else if id == w.top.id + 1 then |w.top.table| else |w.top.table| + |w.current.table|
  }

  lemma PlaceIsRow(h: History, w: Window, id: int, i: nat)
    requires Settled(h, w) && w.top.id <= id <= w.bottom.id && i < |Content(h, id)|
    ensures Place(w, id, i) < |w.ledger| && w.ledger[Place(w, id, i)] == Content(h, id)[i]
  {
    var a, b, c := Content(h, w.top.id), Content(h, w.current.id), Content(h, w.bottom.id);
    assert w.ledger == a + b + c;
  }

  /** The offset carries every row of the two pages that stay from its old place to its new one. */
  ghost predicate CarriesPlaces(h: History, w: Window, w': Window) {
    w'.previousOffset.Some? &&
    forall id, i: nat | w.top.id <= id <= w.current.id && i < |Content(h, id)| ::
      Place(w', id, i) == Place(w, id, i) + w'.previousOffset.value
  }

  /** In both windows the places of the two pages that stay hold the same rows. */
  ghost predicate SameRows(h: History, w: Window, w': Window) {
    forall id, i: nat | w.top.id <= id <= w.current.id && i < |Content(h, id)| ::
      && Place(w, id, i) < |w.ledger| && Place(w', id, i) < |w'.ledger|
      && w.ledger[Place(w, id, i)] == Content(h, id)[i] == w'.ledger[Place(w', id, i)]
  }

  /** On a load up it does so exactly if the new page is as long as the old top page, whose length the program takes,
      or no row stays. */
  lemma UpOffset(h: History, w: Window)
    requires Settled(h, w) && h(w.top.id - 1).Some? && !UpRaises(h, w)
    ensures SameRows(h, w, Up(h, w))
    ensures CarriesPlaces(h, w, Up(h, w)) <==>
            |h(w.top.id - 1).value| == |w.top.table| || |w.top.table| + |w.current.table| == 0
  {
    hide Place, Up, CarriesPlaces, SameRows, Settled;
    UpPrevious(h, w);
    UpWindow(h, w);
    RowsStay(h, w, Up(h, w));
    PlacesCarried(h, w, Up(h, w));
  }

  lemma UpWindow(h: History, w: Window)
    requires Settled(h, w) && h(w.top.id - 1).Some? && !UpRaises(h, w)
    ensures var w' := Up(h, w);
            Settled(h, w') && w'.top.id == w.top.id - 1 && w'.current.table == w.top.table && w'.top.table == h(w.top.id - 1).value
    ensures w.top.table == Content(h, w.top.id) && w.current.table == Content(h, w.top.id + 1) && w.current.id == w.top.id + 1
  {
    UpKeeps(h, w);
  }

  lemma RowsStay(h: History, w: Window, w': Window)
    requires Settled(h, w) && Settled(h, w') && w'.top.id == w.top.id - 1
    ensures SameRows(h, w, w')
  {
    hide Place;
    forall id, i: nat | w.top.id <= id <= w.current.id && i < |Content(h, id)|
      ensures Place(w, id, i) < |w.ledger| && Place(w', id, i) < |w'.ledger|
      ensures w.ledger[Place(w, id, i)] == Content(h, id)[i] == w'.ledger[Place(w', id, i)]
    {
      PlaceIsRow(h, w, id, i);
      PlaceIsRow(h, w', id, i);
    }
  }

  lemma PlacesCarried(h: History, w: Window, w': Window)
    requires w'.top.id == w.top.id - 1 && w'.current.table == w.top.table && w'.previousOffset == Some(|w.top.table|)
    requires w.top.table == Content(h, w.top.id) && w.current.table == Content(h, w.top.id + 1) && w.current.id == w.top.id + 1
    ensures CarriesPlaces(h, w, w') <==> |w'.top.table| == |w.top.table| || |w.top.table| + |w.current.table| == 0
  {
    hide Place;
    forall id, i: nat | w.top.id <= id <= w.current.id && i < |Content(h, id)|
      ensures Place(w', id, i) == Place(w, id, i) + |w'.top.table|
    {
      PlaceMoves(w, w', id, i);
    }
    if w.top.table != [] {
      assert 0 < |Content(h, w.top.id)|;
      assert Place(w', w.top.id, 0) == Place(w, w.top.id, 0) + |w'.top.table|;
    } else if w.current.table != [] {
      assert 0 < |Content(h, w.current.id)|;
      assert Place(w', w.current.id, 0) == Place(w, w.current.id, 0) + |w'.top.table|;
    }
  }

  lemma UpPrevious(h: History, w: Window)
    requires h(w.top.id - 1).Some?
    ensures Up(h, w).previousOffset == Some(|w.top.table|)
  {
  }

  /** Page 0 is there and empty, pages 1 to 3 have one row each. */
  function UnevenHistory(id: int): Option<seq<Row>> {
    if id == 0 then Some([]) else if 1 <= id <= 3 then Some([Row(id, "row")]) else None
  }

  /** A load up whose offset takes the rows to wrong places. */
  lemma WrongOffset()
    ensures var w := Center(UnevenHistory, Fresh([]), 2);
            Settled(UnevenHistory, w) && !CarriesPlaces(UnevenHistory, w, Up(UnevenHistory, w))
  {
    hide CarriesPlaces, Up;
    var w := Center(UnevenHistory, Fresh([]), 2);
    UpOffset(UnevenHistory, w);
  }

  lemma PlaceMoves(w: Window, w': Window, id: int, i: nat)
    requires w'.top.id == w.top.id - 1 && w'.current.table == w.top.table && w.top.id <= id <= w.top.id + 1
    ensures Place(w', id, i) == Place(w, id, i) + |w'.top.table|
  {
  }

  /** The returned ratio times the new ledger's length is the row where the loaded page starts (going down), or
      where the old view now starts (going up); the division raises exactly when the moved window has no rows. */
  lemma RatioLocatesEdge(h: History, w: Window, atBottom: bool)
    requires Settled(h, w) && h(if atBottom then w.bottom.id + 1 else w.top.id - 1).Some?
    ensures MoreRatio(h, w, atBottom).None? <==> !atBottom && UpRaises(h, w)
    ensures var w' := Apply(h, w, Load(atBottom));
            MoreRatio(h, w, atBottom).Some? && w'.ledger != [] ==>
              MoreRatio(h, w, atBottom).value * |w'.ledger| as real ==
              (if atBottom then |w'.ledger| - |w'.bottom.table| else |w'.top.table|) as real
  {
    hide MoreRatio, Up, Down;
    if atBottom { DownRatio(h, w); } else { UpRatio(h, w); }
  }

  lemma DownRatio(h: History, w: Window)
    requires Settled(h, w) && h(w.bottom.id + 1).Some?
    ensures var r, w' := MoreRatio(h, w, true), Down(h, w);
            r.Some? && (w'.ledger != [] ==> r.value * |w'.ledger| as real == (|w'.ledger| - |w'.bottom.table|) as real)
  {
    hide Down;
    var w', prev, page := Down(h, w), |w.current.table| + |w.bottom.table|, |h(w.bottom.id + 1).value|;
    DownKeeps(h, w);
    assert |w'.ledger| == prev + page && |w'.bottom.table| == page;
    RatioTimes(prev, page);
  }

  lemma UpRatio(h: History, w: Window)
    requires Settled(h, w) && h(w.top.id - 1).Some?
    ensures var r, w' := MoreRatio(h, w, false), Up(h, w);
            (r.None? <==> UpRaises(h, w)) &&
            (r.Some? && w'.ledger != [] ==> r.value * |w'.ledger| as real == |w'.top.table| as real)
  {
    hide Up;
    var w', prev, page := Up(h, w), |w.current.table| + |w.top.table|, |h(w.top.id - 1).value|;
    UpKeeps(h, w);
    if !UpRaises(h, w) {
      assert |w'.ledger| == prev + page && |w'.top.table| == page;
      RatioTimes(prev, page);
    }
  }

  lemma RatioTimes(prev: nat, page: nat)
    ensures var all := prev + page; all > 0 ==> prev as real / all as real * all as real == prev as real
    ensures var all := prev + page; all > 0 ==> (1.0 - prev as real / all as real) * all as real == page as real
  {
    var all := prev + page;
    if all > 0 { Spread(prev as real / all as real, all as real); }
  }

  lemma Spread(q: real, a: real)
    ensures (1.0 - q) * a == a - q * a
  {
  }
}

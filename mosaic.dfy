/**
 * The grid walk of `mosaic`: for every cell, column by column, pick a slot
 * with the anti-repetition scan, record the cell in that slot's history, take
 * the candidate of that rank from the cell's nearest-colour query, and paste
 * it into the canvas at the cell's offset.
 */
module Mosaic {
  import opened Grid
  import opened Slots

  /** A tile pasted into the canvas with its top-left corner at pixel offset `at`. */
  datatype Placement<T> = Placement(tile: T, at: Cell)

  /** How the walk ended. */
  datatype Outcome =
    | Completed
      /** No slot was ever picked, so `neigh` is read unassigned (UnboundLocalError). */
    | NeighUnbound
      /** The query for a cell returned no candidate of the picked rank (IndexError). */
    | RankOutOfRange

  /**
   * `mosaic_img`: the pastes made into the canvas, in order. Pixels, and so
   * the canvas's size, are not modelled; `Grid.PixelOwner` relates the
   * paste rectangles to the target's extent.
   */
  class Canvas<T> {
    var pastes: seq<Placement<T>>

    constructor ()
      ensures pastes == []
    {
      pastes := [];
    }

    method Paste(tile: T, at: Cell)
      modifies this
      ensures pastes == old(pastes) + [Placement(tile, at)]
    {
      pastes := pastes + [Placement(tile, at)];
    }
  }

  /**
   * The walk over the grid of a width x height target with tiles of
   * tileW x tileH. `query(c)` stands for the nearest-colour candidates of cell
   * c, nearest first. Returns how the walk ended, the slot picked for each
   * cell reached (cells in column-major order), and the pastes made.
   */
  method Walk<T>(width: nat, height: nat, tileW: nat, tileH: nat, nearest: int, query: Cell -> seq<T>)
    returns (outcome: Outcome, ranks: seq<nat>, placements: seq<Placement<T>>)
    requires tileW > 0 && tileH > 0
    ensures |placements| <= |ranks| <= |Cells(width, height, tileW, tileH)|
    ensures ValidRanks(Cells(width, height, tileW, tileH)[..|ranks|], ranks, SlotCount(nearest))
    ensures forall i :: 0 <= i < |placements| ==>
      var c := Cells(width, height, tileW, tileH)[i];
      ranks[i] < |query(c)| && placements[i] == Placement(query(c)[ranks[i]], Offset(c, tileW, tileH))
    ensures outcome == NeighUnbound <==> nearest <= 0
    ensures outcome == NeighUnbound ==> ranks == []
    ensures outcome == Completed ==> |placements| == |ranks| == |Cells(width, height, tileW, tileH)|
    ensures outcome == RankOutOfRange ==>
      |ranks| == |placements| + 1 &&
      ranks[|placements|] >= |query(Cells(width, height, tileW, tileH)[|placements|])|
  {
    var tx, ty := TileCount(width, tileW), TileCount(height, tileH);
    ghost var grid := Cells(width, height, tileW, tileH);
    ghost var k := SlotCount(nearest);
    var canvas := new Canvas<T>();
    var history := new SlotHistory(nearest);
    ghost var visited: seq<Cell> := [];
    var neigh: Option<nat> := None;
    ranks := [];
    for x := 0 to tx
      invariant Painted(history, canvas, visited, ranks, k, query, tileW, tileH)
      invariant visited == ColumnMajor(x, ty)
      invariant x > 0 ==> k >= 1
      invariant ranks != [] ==> k >= 1
      invariant neigh.Some? ==> neigh.value < k
    {
      var step;
      ghost var reached;
      neigh, step, visited, ranks, reached := PaintColumn(history, canvas, visited, ranks, k, x, ty, neigh, query, tileW, tileH);
      if step == NeighUnbound {
        outcome, placements := NeighUnbound, canvas.pastes;
        WalkPrefix(x, reached, tx, ty);
        WalkTrace(grid, visited, ranks, canvas.pastes, k, query, tileW, tileH);
        return;
      }
      if step == RankOutOfRange {
        outcome, placements := RankOutOfRange, canvas.pastes;
        WalkPrefix(x, reached, tx, ty);
        WalkTrace(grid, visited, ranks, canvas.pastes, k, query, tileW, tileH);
        return;
      }
      assert visited == ColumnMajor(x + 1, ty);
    }
    outcome, placements := Completed, canvas.pastes;
    WalkTrace(grid, visited, ranks, canvas.pastes, k, query, tileW, tileH);
  }

  /**
   * The inner loop of the walk, over column x from top to bottom. `reached`
   * is how far down the column the cells were recorded; the column ends early
   * when `neigh` is unassigned or when the query of the last cell recorded was
   * too short (that cell is then recorded but not pasted).
   */
  method PaintColumn<T>(history: SlotHistory, canvas: Canvas<T>, ghost visited: seq<Cell>, ranks: seq<nat>, ghost k: nat,
                        x: nat, ty: nat, neigh: Option<nat>, query: Cell -> seq<T>, tileW: nat, tileH: nat)
    returns (neigh': Option<nat>, step: Outcome, ghost visited': seq<Cell>, ranks': seq<nat>, ghost reached: nat)
    requires ty >= 1
    requires Painted(history, canvas, visited, ranks, k, query, tileW, tileH)
    requires visited == ColumnMajor(x, ty)
    requires ranks != [] ==> k >= 1
    requires neigh.Some? ==> neigh.value < k
    modifies history, canvas
    ensures reached <= ty && visited' == ColumnMajor(x, ty) + Column(x, reached)
    ensures ranks' != [] ==> k >= 1
    ensures neigh'.Some? ==> neigh'.value < k
    ensures step == NeighUnbound <==> k == 0
    ensures step == Completed ==> reached == ty
    ensures step != RankOutOfRange ==> Painted(history, canvas, visited', ranks', k, query, tileW, tileH)
    ensures step == RankOutOfRange ==> Halted(visited', ranks', canvas.pastes, k, query, tileW, tileH)
  {
    neigh', visited', ranks', reached := neigh, visited, ranks, 0;
    for y := 0 to ty
      invariant Painted(history, canvas, visited', ranks', k, query, tileW, tileH)
      invariant reached == y && visited' == ColumnMajor(x, ty) + Column(x, y)
      invariant y > 0 ==> k >= 1
      invariant ranks' != [] ==> k >= 1
      invariant neigh'.Some? ==> neigh'.value < k
    {
      if k >= 1 {
        FreshCell(visited', ranks', k, x, y, ty);
      }
      var cellStep;
      neigh', cellStep := PaintCell(history, canvas, visited', ranks', k, (x, y), neigh', query, tileW, tileH);
      if neigh'.None? {
        step := NeighUnbound;
        return;
      }
      WalkStep(x, y, ty);
      if cellStep == RankOutOfRange {
        PastedGrow(visited', ranks', canvas.pastes, query, tileW, tileH, (x, y), neigh'.value);
        visited', ranks', reached := visited' + [(x, y)], ranks' + [neigh'.value], y + 1;
        step := RankOutOfRange;
        return;
      }
      visited', ranks', reached := visited' + [(x, y)], ranks' + [neigh'.value], y + 1;
    }
    step := Completed;
  }

  /** The walk stopped after recording the last of `visited` without a candidate of its rank. */
  ghost predicate Halted<T>(visited: seq<Cell>, ranks: seq<nat>, pastes: seq<Placement<T>>, k: nat,
                            query: Cell -> seq<T>, tileW: nat, tileH: nat)
  {
    |visited| == |ranks| == |pastes| + 1 &&
    k >= 1 &&
    ValidRanks(visited, ranks, k) &&
    Pasted(visited, ranks, pastes, query, tileW, tileH) &&
    ranks[|pastes|] >= |query(visited[|pastes|])|
  }

  /** A walk that has reached the cells `visited`, which got the slots `ranks`, all of them pasted. */
  ghost predicate Painted<T>(history: SlotHistory, canvas: Canvas<T>, visited: seq<Cell>, ranks: seq<nat>, k: nat,
                             query: Cell -> seq<T>, tileW: nat, tileH: nat)
    reads history, canvas
  {
    |visited| == |ranks| == |canvas.pastes| &&
    |history.positions| == k &&
    ValidRanks(visited, ranks, k) &&
    history.positions == History(visited, ranks, k) &&
    Pasted(visited, ranks, canvas.pastes, query, tileW, tileH)
  }

  /**
   * The body of the walk for cell c: scan the slots, keep `neigh` when the
   * scan picks nothing, record c in slot `neigh`, and paste the candidate of
   * that rank. `neigh'` is None when `neigh` is still unassigned, which stops
   * the walk; RankOutOfRange when the query is too short, after recording.
   */
  method PaintCell<T>(history: SlotHistory, canvas: Canvas<T>, ghost visited: seq<Cell>, ghost ranks: seq<nat>,
                      ghost k: nat, c: Cell, neigh: Option<nat>, query: Cell -> seq<T>, tileW: nat, tileH: nat)
    returns (neigh': Option<nat>, step: Outcome)
    requires Painted(history, canvas, visited, ranks, k, query, tileW, tileH)
    requires k >= 1 ==> !Stuck(history.positions, c)
    requires neigh.Some? ==> neigh.value < k
    modifies history, canvas
    ensures neigh'.None? ==> k == 0 && neigh.None? && unchanged(history, canvas)
    ensures neigh'.Some? ==>
      neigh'.value < k && step != NeighUnbound &&
      Chosen(old(history.positions), c, neigh'.value) &&
      ValidRanks(visited + [c], ranks + [neigh'.value], k) &&
      history.positions == History(visited + [c], ranks + [neigh'.value], k)
    ensures neigh'.Some? && step == Completed ==>
      Painted(history, canvas, visited + [c], ranks + [neigh'.value], k, query, tileW, tileH)
    ensures neigh'.Some? && step == RankOutOfRange ==>
      canvas.pastes == old(canvas.pastes) && neigh'.value >= |query(c)|
  {
    var chosen := history.Select(c);
    neigh' := if chosen.Some? then chosen else neigh;
    if neigh'.None? {
      step := NeighUnbound;
      return;
    }
    history.Record(neigh'.value, c);
    HistoryStep(visited, ranks, k, c, neigh'.value);
    ValidRanksExtend(visited, ranks, k, c, neigh'.value);
    var candidates := query(c);
    if neigh'.value >= |candidates| {
      step := RankOutOfRange;
      return;
    }
    PastedExtend(visited, ranks, canvas.pastes, query, tileW, tileH, c, neigh'.value);
    canvas.Paste(candidates[neigh'.value], Offset(c, tileW, tileH));
    step := Completed;
  }

  /** Each of the first |pastes| visited cells got the candidate of its rank, pasted at its offset. */
  ghost predicate Pasted<T>(cells: seq<Cell>, ranks: seq<nat>, pastes: seq<Placement<T>>,
                            query: Cell -> seq<T>, tileW: nat, tileH: nat)
  {
    |pastes| <= |ranks| <= |cells| &&
    forall i :: 0 <= i < |pastes| ==>
      ranks[i] < |query(cells[i])| &&
      pastes[i] == Placement(query(cells[i])[ranks[i]], Offset(cells[i], tileW, tileH))
  }

  lemma PastedExtend<T>(cells: seq<Cell>, ranks: seq<nat>, pastes: seq<Placement<T>>,
                        query: Cell -> seq<T>, tileW: nat, tileH: nat, c: Cell, r: nat)
    requires Pasted(cells, ranks, pastes, query, tileW, tileH) && |pastes| == |ranks| == |cells|
    requires r < |query(c)|
    ensures Pasted(cells + [c], ranks + [r], pastes + [Placement(query(c)[r], Offset(c, tileW, tileH))], query, tileW, tileH)
  {
    var cells', ranks', pastes' := cells + [c], ranks + [r], pastes + [Placement(query(c)[r], Offset(c, tileW, tileH))];
    forall i | 0 <= i < |pastes'|
      ensures ranks'[i] < |query(cells'[i])|
      ensures pastes'[i] == Placement(query(cells'[i])[ranks'[i]], Offset(cells'[i], tileW, tileH))
    {
      if i < |pastes| {
        assert cells'[i] == cells[i] && ranks'[i] == ranks[i] && pastes'[i] == pastes[i];
      }
    }
  }

  /** Recording one more cell, without pasting it, keeps what was pasted so far. */
  lemma PastedGrow<T>(cells: seq<Cell>, ranks: seq<nat>, pastes: seq<Placement<T>>,
                      query: Cell -> seq<T>, tileW: nat, tileH: nat, c: Cell, r: nat)
    requires Pasted(cells, ranks, pastes, query, tileW, tileH) && |ranks| == |cells|
    ensures Pasted(cells + [c], ranks + [r], pastes, query, tileW, tileH)
  {
    forall i | 0 <= i < |pastes|
      ensures (cells + [c])[i] == cells[i] && (ranks + [r])[i] == ranks[i]
    {
    }
  }

  /** What a walk that reached the cells `visited`, a prefix of the grid, has produced. */
  lemma WalkTrace<T>(grid: seq<Cell>, visited: seq<Cell>, ranks: seq<nat>, pastes: seq<Placement<T>>, k: nat,
                     query: Cell -> seq<T>, tileW: nat, tileH: nat)
    requires visited <= grid && ValidRanks(visited, ranks, k)
    requires Pasted(visited, ranks, pastes, query, tileW, tileH)
    ensures |pastes| <= |ranks| <= |grid|
    ensures ValidRanks(grid[..|ranks|], ranks, k)
    ensures forall i :: 0 <= i < |pastes| ==>
      var c := grid[i];
      ranks[i] < |query(c)| && pastes[i] == Placement(query(c)[ranks[i]], Offset(c, tileW, tileH))
  {
    assert grid[..|ranks|] == visited;
  }

  /** The cell about to be visited is in no slot's history, so the scan cannot come up empty-handed. */
  lemma FreshCell(visited: seq<Cell>, ranks: seq<nat>, k: nat, x: nat, y: nat, ty: nat)
    requires k >= 1 && y < ty
    requires visited == ColumnMajor(x, ty) + Column(x, y)
    requires |visited| == |ranks|
    ensures !Stuck(History(visited, ranks, k), (x, y))
  {
    ColumnMajorBounds(x, ty);
    forall q | 0 <= q < k
      ensures (x, y) !in History(visited, ranks, k)[q]
    {
      UsedMembers(visited, ranks, q, (x, y));
    }
    FreshCellNotStuck(History(visited, ranks, k), (x, y));
  }

  /**
   * With a single slot (`nearest_imgs` = 1) every cell takes slot 0, so every
   * pasted tile is the first, nearest-colour candidate of its cell. Stated
   * over the results as Walk describes them.
   */
  lemma SingleSlotPastesNearest<T>(cells: seq<Cell>, ranks: seq<nat>, placements: seq<Placement<T>>,
                                   query: Cell -> seq<T>, tileW: nat, tileH: nat)
    requires |placements| <= |ranks| <= |cells|
    requires ValidRanks(cells[..|ranks|], ranks, 1)
    requires forall i :: 0 <= i < |placements| ==>
      ranks[i] < |query(cells[i])| && placements[i] == Placement(query(cells[i])[ranks[i]], Offset(cells[i], tileW, tileH))
    ensures forall i :: 0 <= i < |ranks| ==> ranks[i] == 0
    ensures forall i :: 0 <= i < |placements| ==>
      0 < |query(cells[i])| && placements[i] == Placement(query(cells[i])[0], Offset(cells[i], tileW, tileH))
  {
    forall i | 0 <= i < |ranks|
      ensures ranks[i] == 0
    {
      RanksBelow(cells[..|ranks|], ranks, 1, i);
    }
  }
}

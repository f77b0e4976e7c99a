/**
 * The anti-repetition slot selection of `mosaic`: `last_tile_position` keeps,
 * for each of the `nearest_imgs` slots (slot p stands for the p-th nearest
 * colour match), the grid cells where that slot was used. Each new cell takes
 * the first unused slot, or else the slot whose nearest use is farthest away.
 */
module Slots {
  import opened Metric
  import opened Grid

  datatype Option<T> = None | Some(value: T)

  /** A cell as the integer tuple handed to `distance`. */
  function Point(c: Cell): seq<int>
  {
    [c.0, c.1]
  }

  /** Squared grid distance between two cells. */
  function CellDistance(c: Cell, e: Cell): (d: int)
    ensures d >= 0
    ensures d == 0 <==> c == e
  {
    DistanceZeroIff(Point(c), Point(e));
    SquaredDistance(Point(c), Point(e))
  }

  /**
   * A recorded position nearest to c, as `min` with a distance key finds it.
   * Which of several equally near positions is returned is not stated: only
   * the distance to it is used.
   */
  function Closest(h: seq<Cell>, c: Cell): (e: Cell)
    requires h != []
    ensures e in h
    ensures forall f :: f in h ==> CellDistance(c, e) <= CellDistance(c, f)
  {
    if |h| == 1 then h[0]
    else
      var rest := Closest(h[1..], c);
      assert forall f :: f in h ==> f == h[0] || f in h[1..];
      if CellDistance(c, rest) < CellDistance(c, h[0]) then rest else h[0]
  }

  /**
   * How far the slot with history h is from c: the squared distance to its
   * nearest recorded position. It is 0 exactly when c was recorded already.
   */
  function Clearance(h: seq<Cell>, c: Cell): (d: int)
    requires h != []
    ensures d >= 0
    ensures d == 0 <==> c in h
    ensures forall f :: f in h ==> d <= CellDistance(c, f)
  {
    CellDistance(c, Closest(h, c))
  }

  /** Every slot has been used at least once. */
  predicate AllUsed(h: seq<seq<Cell>>)
  {
    forall q :: 0 <= q < |h| ==> h[q] != []
  }

  /** Slot p is the lowest-index slot that was never used. */
  predicate FirstEmpty(h: seq<seq<Cell>>, p: nat)
  {
    p < |h| && h[p] == [] && forall q :: 0 <= q < p ==> h[q] != []
  }

  /**
   * Every slot is used, slot p's clearance from c is positive, no slot's is
   * larger, and every earlier slot's is strictly smaller (ties go to the
   * lowest index).
   */
  predicate Farthest(h: seq<seq<Cell>>, c: Cell, p: nat)
  {
    p < |h| && AllUsed(h) && Clearance(h[p], c) > 0 &&
    (forall q :: 0 <= q < |h| ==> Clearance(h[q], c) <= Clearance(h[p], c)) &&
    (forall q :: 0 <= q < p ==> Clearance(h[q], c) < Clearance(h[p], c))
  }

  /** Slot p is the one the scan picks for cell c. */
  predicate Chosen(h: seq<seq<Cell>>, c: Cell, p: nat)
  {
    FirstEmpty(h, p) || Farthest(h, c, p)
  }

  /**
   * The scan picks nothing: every slot is used and already holds c (or there
   * are no slots at all), so `neigh` is not assigned for c.
   */
  predicate Stuck(h: seq<seq<Cell>>, c: Cell)
  {
    AllUsed(h) && forall q :: 0 <= q < |h| ==> Clearance(h[q], c) == 0
  }

  /** The scan's outcome is determined: at most one slot is chosen, and never when stuck. */
  lemma ChosenUnique(h: seq<seq<Cell>>, c: Cell, p: nat, q: nat)
    requires Chosen(h, c, p)
    ensures Chosen(h, c, q) ==> p == q
    ensures !Stuck(h, c)
  {
  }

  /** When some slot is unused the first unused slot is chosen, whatever the clearances of used ones. */
  lemma EmptySlotWins(h: seq<seq<Cell>>, c: Cell, e: nat, p: nat)
    requires e < |h| && h[e] == []
    requires Chosen(h, c, p)
    ensures p <= e && h[p] == [] && forall q :: 0 <= q < p ==> h[q] != []
  {
    assert !AllUsed(h);
  }

  /** With at least one slot, a cell recorded in no slot always gets one. */
  lemma FreshCellNotStuck(h: seq<seq<Cell>>, c: Cell)
    requires |h| >= 1
    requires forall q :: 0 <= q < |h| ==> c !in h[q]
    ensures !Stuck(h, c)
  {
    if h[0] != [] {
      assert Clearance(h[0], c) > 0;
    }
  }

  /** Number of slots `last_tile_position` gets for a given `nearest_imgs`: `xrange` of a non-positive count is empty. */
  function SlotCount(nearest: int): nat
  {
    if nearest > 0 then nearest else 0
  }

  /** `last_tile_position`: the per-slot lists of cells, appended to in place. */
  class SlotHistory {
    var positions: seq<seq<Cell>>

    /** One empty list per slot. */
    constructor (nearest: int)
      ensures |positions| == SlotCount(nearest)
      ensures forall s :: 0 <= s < |positions| ==> positions[s] == []
    {
      positions := seq(SlotCount(nearest), _ => []);
    }

    /**
     * The scan over the slots for cell c: the first unused slot, or else the
     * used slot of largest clearance, updated only on a strictly larger one
     * starting from `fartest = 0`; None when no slot qualifies.
     */
    method Select(c: Cell) returns (chosen: Option<nat>)
      ensures chosen.Some? ==> Chosen(positions, c, chosen.value)
      ensures chosen.None? ==> Stuck(positions, c)
    {
      var fartest := 0;
      chosen := None;
      for p := 0 to |positions|
        invariant forall q :: 0 <= q < p ==> positions[q] != []
        invariant chosen.None? ==> fartest == 0 && forall q :: 0 <= q < p ==> Clearance(positions[q], c) == 0
        invariant chosen.Some? ==> chosen.value < p && fartest == Clearance(positions[chosen.value], c) > 0
        invariant chosen.Some? ==> forall q :: 0 <= q < p ==> Clearance(positions[q], c) <= fartest
        invariant chosen.Some? ==> forall q :: 0 <= q < chosen.value ==> Clearance(positions[q], c) < fartest
      {
        if positions[p] == [] {
          chosen := Some(p);
          break;
        }
        var dist := Distance(Point(c), Point(Closest(positions[p], c)));
        if dist > fartest {
          fartest, chosen := dist, Some(p);
        }
      }
    }

    /** Appends c to slot s's list; every other slot is unchanged. */
    method Record(s: nat, c: Cell)
      requires s < |positions|
      modifies this
      ensures positions == old(positions)[s := old(positions)[s] + [c]]
    {
      positions := positions[s := positions[s] + [c]];
    }
  }

  /**
   * The cells, among those visited, that were assigned slot s, in visiting
   * order (ranks[i] is the slot assigned to cells[i]).
   */
  function Used(cells: seq<Cell>, ranks: seq<nat>, s: int): seq<Cell>
    requires |cells| == |ranks|
  {
    if cells == [] then []
    else
      var n := |cells| - 1;
      Used(cells[..n], ranks[..n], s) + (if ranks[n] == s then [cells[n]] else [])
  }

  /** What `last_tile_position` holds after the cells were assigned the ranks, with k slots. */
  function History(cells: seq<Cell>, ranks: seq<nat>, k: nat): seq<seq<Cell>>
    requires |cells| == |ranks|
  {
    seq(k, s => Used(cells, ranks, s))
  }

  /** Every cell got the slot the scan picks given the history of the cells before it. */
  predicate ValidRanks(cells: seq<Cell>, ranks: seq<nat>, k: nat)
  {
    |cells| == |ranks| &&
    forall i :: 0 <= i < |ranks| ==> Chosen(History(cells[..i], ranks[..i], k), cells[i], ranks[i])
  }

  /** Visiting one more cell appends it to the history of its slot and leaves every other slot alone. */
  lemma HistoryStep(cells: seq<Cell>, ranks: seq<nat>, k: nat, c: Cell, r: nat)
    requires |cells| == |ranks| && r < k
    ensures History(cells + [c], ranks + [r], k) ==
            History(cells, ranks, k)[r := History(cells, ranks, k)[r] + [c]]
  {
    assert (cells + [c])[..|cells|] == cells;
    assert (ranks + [r])[..|ranks|] == ranks;
    var h, h' := History(cells, ranks, k), History(cells + [c], ranks + [r], k);
    forall s | 0 <= s < k
      ensures h'[s] == h[r := h[r] + [c]][s]
    {
      assert h'[s] == Used(cells, ranks, s) + (if r == s then [c] else []);
    }
  }

  /** A cell is in slot s's history exactly when it was visited and assigned s. */
  lemma {:induction false} UsedMembers(cells: seq<Cell>, ranks: seq<nat>, s: int, e: Cell)
    requires |cells| == |ranks|
    ensures e in Used(cells, ranks, s) <==>
            exists i :: 0 <= i < |cells| && cells[i] == e && ranks[i] == s
  {
    if cells != [] {
      var n := |cells| - 1;
      UsedMembers(cells[..n], ranks[..n], s, e);
      if e in Used(cells, ranks, s) && e !in Used(cells[..n], ranks[..n], s) {
        assert cells[n] == e && ranks[n] == s;
      }
      if exists i :: 0 <= i < |cells| && cells[i] == e && ranks[i] == s {
        var i :| 0 <= i < |cells| && cells[i] == e && ranks[i] == s;
        if i < n {
          assert cells[..n][i] == e && ranks[..n][i] == s;
        }
      }
    }
  }

  /** Slot s's history is empty exactly when no visited cell was assigned s. */
  lemma {:induction false} UsedEmpty(cells: seq<Cell>, ranks: seq<nat>, s: int)
    requires |cells| == |ranks|
    ensures Used(cells, ranks, s) == [] <==> s !in ranks
  {
    if cells != [] {
      var n := |cells| - 1;
      UsedEmpty(cells[..n], ranks[..n], s);
      assert ranks == ranks[..n] + [ranks[n]];
    }
  }

  /** Sum of the lengths of all slot histories. */
  function Total(h: seq<seq<Cell>>): nat
  {
    if h == [] then 0 else Total(h[..|h| - 1]) + |h[|h| - 1]|
  }

  lemma {:induction false} TotalAppend(h: seq<seq<Cell>>, r: nat, c: Cell)
    requires r < |h|
    ensures Total(h[r := h[r] + [c]]) == Total(h) + 1
  {
    var n := |h| - 1;
    var h' := h[r := h[r] + [c]];
    assert h'[..n] == if r < n then h[..n][r := h[r] + [c]] else h[..n];
    if r < n {
      TotalAppend(h[..n], r, c);
    }
  }

  /** k empty slot histories. */
  function Empties(k: nat): seq<seq<Cell>>
  {
    seq(k, s => [])
  }

  lemma {:induction false} TotalEmpty(k: nat)
    ensures Total(Empties(k)) == 0
  {
    if k > 0 {
      TotalEmpty(k - 1);
      assert Empties(k)[..k - 1] == Empties(k - 1);
    }
  }

  /** Each visited cell is recorded exactly once: the histories together hold as many positions as cells were visited. */
  lemma {:induction false} HistoryTotal(cells: seq<Cell>, ranks: seq<nat>, k: nat)
    requires |cells| == |ranks|
    requires forall i :: 0 <= i < |ranks| ==> ranks[i] < k
    ensures Total(History(cells, ranks, k)) == |cells|
  {
    if cells == [] {
      assert History(cells, ranks, k) == Empties(k);
      TotalEmpty(k);
    } else {
      var n := |cells| - 1;
      HistoryTotal(cells[..n], ranks[..n], k);
      assert cells == cells[..n] + [cells[n]] && ranks == ranks[..n] + [ranks[n]];
      HistoryStep(cells[..n], ranks[..n], k, cells[n], ranks[n]);
      TotalAppend(History(cells[..n], ranks[..n], k), ranks[n], cells[n]);
    }
  }

  /** When no cell is visited twice, no position is recorded in two slots. */
  lemma HistoryDisjoint(cells: seq<Cell>, ranks: seq<nat>, s: int, t: int, e: Cell)
    requires |cells| == |ranks|
    requires forall i, j :: 0 <= i < j < |cells| ==> cells[i] != cells[j]
    requires s != t && e in Used(cells, ranks, s)
    ensures e !in Used(cells, ranks, t)
  {
    UsedMembers(cells, ranks, s, e);
    UsedMembers(cells, ranks, t, e);
  }

  /** A valid assignment extended by the slot chosen for the next cell stays valid. */
  lemma ValidRanksExtend(cells: seq<Cell>, ranks: seq<nat>, k: nat, c: Cell, p: nat)
    requires ValidRanks(cells, ranks, k)
    requires Chosen(History(cells, ranks, k), c, p)
    ensures ValidRanks(cells + [c], ranks + [p], k)
  {
    var cells', ranks' := cells + [c], ranks + [p];
    forall i | 0 <= i < |ranks'|
      ensures Chosen(History(cells'[..i], ranks'[..i], k), cells'[i], ranks'[i])
    {
      assert cells'[..i] == cells[..i] && ranks'[..i] == ranks[..i];
    }
  }

  /** Every chosen slot lies in [0, k). */
  lemma RanksBelow(cells: seq<Cell>, ranks: seq<nat>, k: nat, i: nat)
    requires ValidRanks(cells, ranks, k) && i < |ranks|
    ensures ranks[i] < k
  {
    assert Chosen(History(cells[..i], ranks[..i], k), cells[i], ranks[i]);
  }

  /** The first k visited cells take slots 0, 1, ..., k - 1 in order. */
  lemma {:induction false} FirstSlotsInOrder(cells: seq<Cell>, ranks: seq<nat>, k: nat, i: nat)
    requires ValidRanks(cells, ranks, k)
    requires i < |ranks| && i < k
    ensures ranks[i] == i
  {
    forall j | 0 <= j < i
      ensures ranks[j] == j
    {
      FirstSlotsInOrder(cells, ranks, k, j);
    }
    var h := History(cells[..i], ranks[..i], k);
    forall q | 0 <= q < k
      ensures h[q] == [] <==> q >= i
    {
      UsedEmpty(cells[..i], ranks[..i], q);
      if q < i {
        assert ranks[..i][q] == q;
      }
    }
    assert Chosen(h, cells[i], ranks[i]);
    EmptySlotWins(h, cells[i], i, ranks[i]);
  }
}

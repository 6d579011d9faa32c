/** Deletion from the probing table: swap with the last item, then shift a hole backwards. */
module TableRemoval {
  import opened Bytes
  import opened ItemList
  import opened TableModel

  /** Table after item `k` was replaced by the last item; the cell of `k` is not cleared yet. */
  function SwapOut<V>(t: Table<V>, k: nat): Table<V>
    requires k < |t.names| == |t.values| == |t.cellIxs| == |t.hashes|
    requires 0 <= t.cellIxs[|t.names| - 1] < |t.cells|
  {
    var n := |t.names| - 1;
    Table(if k < n then t.cells[t.cellIxs[n] := k] else t.cells,
          t.names[k := t.names[n]][..n], t.values[k := t.values[n]][..n],
          t.cellIxs[k := t.cellIxs[n]][..n], t.hashes[k := t.hashes[n]][..n])
  }

  /** The item at cell `j` moves into the hole at `i`. */
  function MoveBack<V>(t: Table<V>, i: int, j: int): Table<V>
    requires 0 <= i < |t.cells| && 0 <= j < |t.cells| && 0 <= t.cells[j] < |t.cellIxs|
  {
    t.(cells := t.cells[i := t.cells[j]], cellIxs := t.cellIxs[t.cells[j] := i])
  }

  function Close<V>(t: Table<V>, i: int): Table<V>
    requires 0 <= i < |t.cells|
  {
    t.(cells := t.cells[i := INVALID_IX])
  }

  /** The branch of the shift loop: the item at `j` may not stay, its home `k` lies cyclically outside (i, j]. */
  predicate MustMove(i: nat, j: nat, k: nat) {
    (j > i && (k <= i || k > j)) || (j < i && (k <= i && k > j))
  }

  lemma MustMoveIffHoleOnPath(cap: nat, i: nat, j: nat, k: nat)
    requires i < cap && j < cap && k < cap && i != j
    ensures MustMove(i, j, k) <==> Dist(cap, k, i) < Dist(cap, k, j)
  {
  }

  ghost predicate PointBackBut(t: Table, hole: int)
    requires Shape(t)
  {
    && 0 <= hole < |t.cells|
    && forall c :: 0 <= c < |t.cells| && c != hole && t.cells[c] != INVALID_IX ==>
         0 <= t.cells[c] < |t.names| && t.cellIxs[t.cells[c]] == c
  }

  ghost predicate PlacedBut(t: Table, hole: int)
    requires Shape(t)
  {
    forall m :: 0 <= m < |t.names| ==> t.cellIxs[m] != hole && t.cells[t.cellIxs[m]] == m
  }

  ghost predicate PathsClearBut(t: Table, hole: int)
    requires Shape(t)
  {
    forall m, c :: 0 <= m < |t.names| && 0 <= c < |t.cells|
      && Dist(|t.cells|, Home(t.hashes[m], |t.cells|), c) < Dist(|t.cells|, Home(t.hashes[m], |t.cells|), t.cellIxs[m])
      ==> c == hole || t.cells[c] != INVALID_IX
  }

  /** Only items beyond the scanned cell `j` may have the hole on their path. */
  ghost predicate Scanned(t: Table, hole: int, j: int)
    requires Shape(t) && 0 <= hole < |t.cells| && 0 <= j < |t.cells|
  {
    forall m :: 0 <= m < |t.names|
      && Dist(|t.cells|, Home(t.hashes[m], |t.cells|), hole)
          < Dist(|t.cells|, Home(t.hashes[m], |t.cells|), t.cellIxs[m])
      ==> Dist(|t.cells|, hole, t.cellIxs[m]) > Dist(|t.cells|, hole, j)
  }

  /** A valid table but for one hole, scanned up to cell `j`. */
  ghost predicate Holed(t: Table, hole: int, j: int) {
    && Shape(t) && Distinct(t.names) && 0 <= hole < |t.cells| && 0 <= j < |t.cells|
    && PointBackBut(t, hole) && PlacedBut(t, hole) && PathsClearBut(t, hole) && Scanned(t, hole, j)
  }

  /** No cell holds item `o`. */
  ghost predicate Orphan(t: Table, hole: int, o: int) {
    && 0 <= o < |t.names|
    && forall c :: 0 <= c < |t.cells| && c != hole ==> t.cells[c] != o
  }

  /** After the swap, item `i` is the old item `i`, or the old last one at the freed place. */
  lemma SwapAt<V>(t: Table<V>, k: nat, i: nat)
    requires Shape(t) && k < |t.names| && i < |t.names| - 1
    ensures var m := if i == k then |t.names| - 1 else i;
            && SwapOut(t, k).names[i] == t.names[m] && SwapOut(t, k).hashes[i] == t.hashes[m]
            && SwapOut(t, k).cellIxs[i] == t.cellIxs[m]
  {
  }

  lemma SwapKeepsShape<V>(t: Table<V>, k: nat)
    requires Linked(t) && k < |t.names| && t.cells[t.cellIxs[k]] == k
    ensures Shape(SwapOut(t, k)) && PointBackBut(SwapOut(t, k), t.cellIxs[k])
  {
    hide Reachable;
    var n, t' := |t.names| - 1, SwapOut(t, k);
    forall i | 0 <= i < n
      ensures t'.hashes[i] == Hash(t'.names[i]) && 0 <= t'.cellIxs[i] < |t.cells|
    {
      SwapAt(t, k, i);
    }
    forall c | 0 <= c < |t.cells| && c != t.cellIxs[k] && t'.cells[c] != INVALID_IX
      ensures 0 <= t'.cells[c] < n && t'.cellIxs[t'.cells[c]] == c
    {
      assert t.cells[t.cellIxs[n]] == n;
      SwapAt(t, k, t'.cells[c]);
    }
  }

  lemma SwapPlaces<V>(t: Table<V>, k: nat)
    requires Valid(t) && k < |t.names| && Shape(SwapOut(t, k))
    ensures Distinct(SwapOut(t, k).names) && PlacedBut(SwapOut(t, k), t.cellIxs[k])
  {
    hide Reachable, CellsPointBack, Hash;
    var n, t' := |t.names| - 1, SwapOut(t, k);
    forall i | 0 <= i < n
      ensures t'.names[i] == t.names[if i == k then n else i]
      ensures t'.cellIxs[i] != t.cellIxs[k] && t'.cells[t'.cellIxs[i]] == i
    {
      SwapAt(t, k, i);
      var m := if i == k then n else i;
      assert t.cells[t.cellIxs[m]] == m && t.cells[t.cellIxs[n]] == n;
    }
  }

  lemma SwapPaths<V>(t: Table<V>, k: nat)
    requires Valid(t) && k < |t.names| && Shape(SwapOut(t, k))
    ensures PathsClearBut(SwapOut(t, k), t.cellIxs[k])
  {
    hide ItemsPlaced, CellsPointBack, Distinct;
    var n, t', cap := |t.names| - 1, SwapOut(t, k), |t.cells|;
    assert forall c :: 0 <= c < cap && t.cells[c] != INVALID_IX ==> t'.cells[c] != INVALID_IX;
    forall i, c | 0 <= i < n && 0 <= c < cap
      && Dist(cap, Home(t'.hashes[i], cap), c) < Dist(cap, Home(t'.hashes[i], cap), t'.cellIxs[i])
      ensures t'.cells[c] != INVALID_IX
    {
      SwapAt(t, k, i);
      assert t.cells[c] != INVALID_IX;
    }
  }

  /** Removing item `k` leaves a valid table but for the hole at its cell. */
  lemma SwapOpensHole<V>(t: Table<V>, k: nat)
    requires Valid(t) && k < |t.names|
    ensures Holed(SwapOut(t, k), t.cellIxs[k], t.cellIxs[k])
  {
    assert t.cells[t.cellIxs[k]] == k;
    SwapKeepsShape(t, k);
    SwapPlaces(t, k);
    SwapPaths(t, k);
  }

  function Next(cap: nat, j: nat): nat
    requires j < cap
    ensures Next(cap, j) < cap
  {
    if j + 1 == cap then 0 else j + 1
  }

  /** Moving an item whose path crosses the hole opens the hole at its old cell. */
  lemma MoveKeepsHoled<V>(t: Table<V>, i: int, j0: int, j: int)
    requires Holed(t, i, j0) && j == Next(|t.cells|, j0) && i != j && t.cells[j] != INVALID_IX
    requires MustMove(i, j, Home(t.hashes[t.cells[j]], |t.cells|))
    ensures Holed(MoveBack(t, i, j), j, j)
  {
    MovePlaces(t, i, j);
    MovePaths(t, i, j);
  }

  lemma MovePlaces<V>(t: Table<V>, i: int, j: int)
    requires Shape(t) && PointBackBut(t, i) && 0 <= j < |t.cells| && i != j && t.cells[j] != INVALID_IX
    ensures Shape(MoveBack(t, i, j)) && PointBackBut(MoveBack(t, i, j), j)
    ensures PlacedBut(t, i) ==> PlacedBut(MoveBack(t, i, j), j) && Scanned(MoveBack(t, i, j), j, j)
  {
    var t', m := MoveBack(t, i, j), t.cells[j];
    assert forall x :: 0 <= x < |t.names| ==> t'.cellIxs[x] == if x == m then i else t.cellIxs[x];
  }

  lemma MovePaths<V>(t: Table<V>, i: int, j: int)
    requires Shape(t) && PointBackBut(t, i) && PathsClearBut(t, i)
    requires 0 <= j < |t.cells| && i != j && t.cells[j] != INVALID_IX
    requires MustMove(i, j, Home(t.hashes[t.cells[j]], |t.cells|))
    ensures Shape(MoveBack(t, i, j)) && PathsClearBut(MoveBack(t, i, j), j)
  {
    var t', m, cap := MoveBack(t, i, j), t.cells[j], |t.cells|;
    forall x, c | 0 <= x < |t.names| && 0 <= c < cap && c != j
      && Dist(cap, Home(t.hashes[x], cap), c) < Dist(cap, Home(t.hashes[x], cap), t'.cellIxs[x])
      ensures t'.cells[c] != INVALID_IX
    {
      if x == m {
        MustMoveIffHoleOnPath(cap, i, j, Home(t.hashes[m], cap));
      }
      assert c == i || Dist(cap, Home(t.hashes[x], cap), c) < Dist(cap, Home(t.hashes[x], cap), t.cellIxs[x]);
    }
  }

  /** An item whose path avoids the hole may stay. */
  lemma SkipKeepsHoled<V>(t: Table<V>, i: int, j0: int, j: int)
    requires Holed(t, i, j0) && j == Next(|t.cells|, j0) && i != j && t.cells[j] != INVALID_IX
    requires !MustMove(i, j, Home(t.hashes[t.cells[j]], |t.cells|))
    ensures Holed(t, i, j)
  {
    forall m | 0 <= m < |t.names|
      && Dist(|t.cells|, Home(t.hashes[m], |t.cells|), i) < Dist(|t.cells|, Home(t.hashes[m], |t.cells|), t.cellIxs[m])
      ensures Dist(|t.cells|, i, t.cellIxs[m]) > Dist(|t.cells|, i, j)
    {
      assert t.cellIxs[m] != j;
    }
  }

  /** When the scan meets an empty cell no path crosses the hole, and it can be cleared. */
  lemma CloseKeepsValid<V>(t: Table<V>, i: int, j0: int, j: int)
    requires Holed(t, i, j0) && j == Next(|t.cells|, j0) && i != j && t.cells[j] == INVALID_IX
    ensures Valid(Close(t, i))
  {
    var t', cap := Close(t, i), |t.cells|;
    forall m | 0 <= m < |t.names|
      ensures Dist(cap, Home(t.hashes[m], cap), i) >= Dist(cap, Home(t.hashes[m], cap), t.cellIxs[m])
    {
      assert t.cellIxs[m] != j && t.cellIxs[m] != i;
    }
    assert CellsPointBack(t') && ItemsPlaced(t') && Reachable(t');
  }

  /** A name stored twice leaves an item no cell points to, and a removal cannot repair that. */
  lemma OrphanExists<V>(t: Table<V>, k: nat) returns (o: int)
    requires Linked(t) && !Distinct(t.names) && k < |t.names| && t.cells[t.cellIxs[k]] == k
    ensures Orphan(SwapOut(t, k), t.cellIxs[k], o)
  {
    var i, j :| 0 <= i < j < |t.names| && t.names[i] == t.names[j];
    o := i;
    DuplicateLosesCell(t, i, j);
    OrphanSurvivesSwap(t, k, o);
  }

  lemma OrphanSurvivesSwap<V>(t: Table<V>, k: nat, o: int)
    requires Shape(t) && k < |t.names| && 0 <= o < |t.names| - 1 && o != k
    requires forall c :: 0 <= c < |t.cells| ==> t.cells[c] != o
    ensures Orphan(SwapOut(t, k), t.cellIxs[k], o)
  {
  }

  lemma DuplicateLosesCell(t: Table, i: int, j: int)
    requires Linked(t) && 0 <= i < j < |t.names| && t.names[i] == t.names[j]
    ensures forall c :: 0 <= c < |t.cells| ==> t.cells[c] != i
  {
    assert t.cellIxs[i] == t.cellIxs[j] && t.cells[t.cellIxs[j]] >= j;
  }

  lemma OrphanMeansInvalid(t: Table, hole: int, o: int)
    requires Shape(t) && Orphan(t, hole, o) && 0 <= hole < |t.cells| && t.cells[hole] == INVALID_IX
    ensures !Valid(t)
  {
    assert Linked(t) ==> t.names[t.cells[t.cellIxs[o]]] == t.names[o];
  }

  /** State of the shift loop after `x` steps from the freed cell `start`; `e` is an empty cell it will meet. */
  ghost predicate Shifting(t: Table, start: int, i: int, j: int, x: int, e: int, distinct: bool, o: int) {
    && Shape(t) && 0 <= start < |t.cells| && 0 <= j < |t.cells| && 0 <= e < |t.cells|
    && PointBackBut(t, i)
    && Dist(|t.cells|, start, j) == x < Dist(|t.cells|, start, e)
    && Dist(|t.cells|, i, j) < Dist(|t.cells|, i, e)
    && t.cells[e] == INVALID_IX
    && (if distinct then Holed(t, i, j) else Orphan(t, i, o))
  }

  lemma PlacedIsOccupied<V>(t: Table<V>, k: nat)
    requires Linked(t) && k < |t.names|
    ensures t.cells[t.cellIxs[k]] >= k && t.cells[t.cellIxs[|t.names| - 1]] != INVALID_IX
  {
    hide Reachable, CellsPointBack, Hash;
  }

  lemma ShiftStarts<V>(t: Table<V>, k: nat) returns (e: int, o: int)
    requires Linked(t) && k < |t.names| && t.cells[t.cellIxs[k]] == k
    ensures Shifting(SwapOut(t, k), t.cellIxs[k], t.cellIxs[k], t.cellIxs[k], 0, e, Distinct(t.names), o)
  {
    hide Reachable, CellsPointBack, ItemsPlaced, PointBackBut, Holed, Orphan, Hash;
    SwapKeepsShape(t, k);
    EmptyCellExists(t);
    e :| 0 <= e < |t.cells| && t.cells[e] == INVALID_IX;
    PlacedIsOccupied(t, k);
    if Distinct(t.names) {
      SwapOpensHole(t, k);
      o := 0;
    } else {
      o := OrphanExists(t, k);
    }
  }

  lemma ShiftInBounds(t: Table, start: int, i: int, j0: int, x: int, e: int, distinct: bool, o: int)
    requires Shifting(t, start, i, j0, x, e, distinct, o)
    ensures 0 <= i < |t.cells| && 0 <= j0 < |t.cells| && x < |t.cells| - 1
    ensures var j := Next(|t.cells|, j0);
            i != j && (t.cells[j] != INVALID_IX ==> 0 <= t.cells[j] < |t.names|)
  {
  }

  lemma ShiftMoves<V>(t: Table<V>, start: int, i: int, j0: int, x: int, e: int, distinct: bool, o: int, j: int)
    requires Shifting(t, start, i, j0, x, e, distinct, o)
    requires j == Next(|t.cells|, j0) && 0 <= t.cells[j] < |t.names|
    requires MustMove(i, j, Home(t.hashes[t.cells[j]], |t.cells|))
    ensures Shifting(MoveBack(t, i, j), start, j, j, x + 1, e, distinct, o)
  {
    hide Holed, PathsClearBut;
    MovePlaces(t, i, j);
    if distinct {
      MoveKeepsHoled(t, i, j0, j);
    }
  }

  lemma ShiftSkips(t: Table, start: int, i: int, j0: int, x: int, e: int, distinct: bool, o: int, j: int)
    requires Shifting(t, start, i, j0, x, e, distinct, o)
    requires j == Next(|t.cells|, j0) && 0 <= t.cells[j] < |t.names|
    requires !MustMove(i, j, Home(t.hashes[t.cells[j]], |t.cells|))
    ensures Shifting(t, start, i, j, x + 1, e, distinct, o)
  {
    hide Holed, PathsClearBut;
    if distinct {
      SkipKeepsHoled(t, i, j0, j);
    }
  }

  lemma ShiftStops<V>(t: Table<V>, start: int, i: int, j0: int, x: int, e: int, distinct: bool, o: int, j: int)
    requires Shifting(t, start, i, j0, x, e, distinct, o)
    requires j == Next(|t.cells|, j0) && t.cells[j] == INVALID_IX
    ensures Valid(Close(t, i)) <==> distinct
  {
    ShiftInBounds(t, start, i, j0, x, e, distinct, o);
    if distinct {
      CloseKeepsValid(t, i, j0, j);
    } else {
      OrphanMeansInvalid(Close(t, i), i, o);
    }
  }

  lemma SwapOutItems<V>(t: Table<V>, k: nat)
    requires Shape(t) && k < |t.names|
    ensures ItemsOf(SwapOut(t, k)) == SwapRemove(ItemsOf(t), k)
  {
  }

  /** What a removal knows once its probe has found the name. */
  lemma RemovalStarts<V>(t: Table<V>, key: cstring, ix: int) returns (e: int, o: int)
    requires Linked(t) && ProbeResult(t, key, ix, true)
    ensures 0 <= ix < |t.cells| && 0 <= t.cells[ix] < |t.names| == |t.values| == |t.cellIxs| == |t.hashes|
    ensures 0 <= t.cellIxs[|t.names| - 1] < |t.cells|
    ensures Shifting(SwapOut(t, t.cells[ix]), ix, ix, ix, 0, e, Distinct(t.names), o)
    ensures ItemsOf(SwapOut(t, t.cells[ix])) == ItemList.Remove(ItemsOf(t), key)
  {
    hide Shifting;
    NamesOfItems(t);
    FoundCell(t, key, ix);
    e, o := ShiftStarts(t, t.cells[ix]);
    SwapOutItems(t, t.cells[ix]);
  }
}

/** The JSON object: parallel item arrays behind an open-addressed cell array, updated in place. */
module ObjectTable {
  import opened Bytes
  import opened ItemList
  import opened TableModel
  import opened TableRemoval

  const STARTING_CAPACITY: nat := 16

  /** djb2 over a C string; it would stop at a terminator. */
  method HashStr(s: cstring) returns (h: nat)
    ensures h == Hash(s)
  {
    h := 5381;
    for i := 0 to |s|
      invariant h == Hash(s[..i])
    {
      assert s[..i + 1][..i] == s[..i];
      h := (h * 32 + h + s[i]) % TWO_TO_64;
    }
    assert s[..|s|] == s;
  }

  /** `x & (capacity - 1)`; with no cells the mask is all ones. */
  function Mask(x: nat, capacity: nat): nat {
    And(x, if capacity == 0 then TWO_TO_64 - 1 else capacity - 1)
  }

  lemma MaskHome(x: nat, capacity: nat)
    requires capacity > 0 && PowerOfTwo(capacity)
    ensures Mask(x, capacity) == Home(x, capacity)
  {
    var k: nat :| Pow2(k) == capacity;
    MaskIsModulo(x, k);
  }

  lemma MaskWraps(x: nat, capacity: nat)
    requires capacity > 0 && PowerOfTwo(capacity) && x < 2 * capacity
    ensures Mask(x, capacity) == if x < capacity then x else x - capacity
  {
    MaskHome(x, capacity);
    ModuloUnique(x, capacity, if x < capacity then 0 else 1, if x < capacity then x else x - capacity);
  }

  lemma DoublePower(capacity: nat)
    requires capacity == 0 || (capacity >= STARTING_CAPACITY && PowerOfTwo(capacity))
    ensures PowerOfTwo(if capacity * 2 >= STARTING_CAPACITY then capacity * 2 else STARTING_CAPACITY)
  {
    if capacity == 0 {
      assert Pow2(4) == STARTING_CAPACITY;
    } else {
      var k: nat :| Pow2(k) == capacity;
      assert Pow2(k + 1) == capacity * 2;
    }
  }

  class JsonObject<V(0)> {
    var cells: array<int>
    var hashes: array<nat>
    var names: array<cstring>
    var values: array<V>
    var cellIxs: array<int>
    var count: nat
    var itemCapacity: nat
    var cellCapacity: nat

    ghost function Repr(): set<object>
      reads this
    {
      {this, cells, hashes, names, values, cellIxs}
    }

    twostate predicate SameArrays()
      reads this
    {
      && cells == old(cells) && hashes == old(hashes) && names == old(names)
      && values == old(values) && cellIxs == old(cellIxs)
      && itemCapacity == old(itemCapacity) && cellCapacity == old(cellCapacity)
    }

    ghost predicate Layout()
      reads this
    {
      && cells != cellIxs && cells as object != values && cells as object != hashes && cells as object != names
      && cellIxs as object != values && cellIxs as object != hashes && cellIxs as object != names
      && values as object != hashes && values as object != names && hashes as object != names
      && cells.Length == cellCapacity
      && names.Length == values.Length == cellIxs.Length == hashes.Length == itemCapacity
      && itemCapacity == cellCapacity * 7 / 10
      && count <= itemCapacity
      && (cellCapacity == 0 || (cellCapacity >= STARTING_CAPACITY && PowerOfTwo(cellCapacity)))
    }

    ghost function View(): Table<V>
      requires Layout()
      reads this, Repr()
    {
      Table(cells[..], names[..count], values[..count], cellIxs[..count], hashes[..count])
    }

    /** Holds after every operation, repeated names included. */
    ghost predicate WellLinked()
      reads this, Repr()
    {
      Layout() && Linked(View())
    }

    ghost predicate Valid()
      reads this, Repr()
    {
      Layout() && TableModel.Valid(View())
    }

    ghost function Contents(): Items<V>
      requires Layout()
      reads this, Repr()
    {
      ItemsOf(View())
    }

    constructor (capacity: nat)
      requires capacity == 0 || (capacity >= STARTING_CAPACITY && PowerOfTwo(capacity))
      ensures Valid() && WellLinked() && fresh(Repr()) && Contents() == []
      ensures count == 0 && cellCapacity == capacity
    {
      cells := new int[capacity](_ => INVALID_IX);
      names := new cstring[capacity * 7 / 10];
      values := new V[capacity * 7 / 10];
      cellIxs := new int[capacity * 7 / 10];
      hashes := new nat[capacity * 7 / 10];
      count, cellCapacity, itemCapacity := 0, capacity, capacity * 7 / 10;
    }

    /** Linear probing from the home cell. */
    method GetCellIx(key: cstring, hash: nat) returns (ix: int, found: bool)
      requires WellLinked() && hash == Hash(key)
      ensures cellCapacity == 0 ==> ix == INVALID_IX && !found
      ensures cellCapacity > 0 ==> ProbeResult(View(), key, ix, found)
      ensures found ==> cellCapacity > 0
    {
      found := false;
      var cellIx := Mask(hash, cellCapacity);
      ghost var t := View();
      if cellCapacity > 0 {
        MaskHome(hash, cellCapacity);
      }
      for i := 0 to cellCapacity
        invariant Probed(t, key, i)
      {
        MaskWraps(cellIx + i, cellCapacity);
        ix := Mask(cellIx + i, cellCapacity);
        var cell := cells[ix];
        if cell == INVALID_IX {
          ProbeStops(t, key, ix);
          return ix, false;
        }
        if hash == hashes[cell] && key == names[cell] {
          ProbeStops(t, key, ix);
          return ix, true;
        }
        ProbeStep(t, key, i, ix);
      }
      if cellCapacity > 0 {
        ProbeCannotExhaust(t, key);
      }
      return INVALID_IX, false;
    }

    /** The last value stored under `name`. */
    method GetValue(name: cstring) returns (r: Option<V>)
      requires WellLinked()
      ensures r == Lookup(Contents(), name)
    {
      NamesOfItems(View());
      var hash := HashStr(name);
      var cellIx, found := GetCellIx(name, hash);
      if !found {
        return None;
      }
      return Some(values[cells[cellIx]]);
    }

    /** The stores shared by add and set. */
    method StoreLast(ix: int, name: cstring, value: V, hash: nat)
      requires Layout() && count < itemCapacity && 0 <= ix < cellCapacity && hash == Hash(name)
      modifies `count, cells, hashes, names, values, cellIxs
      ensures Layout() && count == old(count) + 1
      ensures View() == Append(old(View()), ix, name, value)
    {
      names[count] := name;
      cells[ix] := count;
      values[count] := value;
      cellIxs[count] := ix;
      hashes[count] := hash;
      count := count + 1;
      ghost var t := Append(old(View()), ix, name, value);
      assert cells[..] == t.cells;
      assert names[..count] == t.names;
      assert values[..count] == t.values;
      assert cellIxs[..count] == t.cellIxs;
      assert hashes[..count] == t.hashes;
    }

    /** Stores a new last item where its probe stopped. */
    method StoreProbed(ix: int, found: bool, name: cstring, value: V, hash: nat)
      requires WellLinked() && count < itemCapacity && hash == Hash(name)
      requires ProbeResult(View(), name, ix, found)
      modifies `count, cells, hashes, names, values, cellIxs
      ensures WellLinked() && count == old(count) + 1
      ensures Contents() == old(Contents()) + [Item(name, value)]
      ensures Valid() <==> old(Valid()) && name !in old(Names(Contents()))
    {
      ghost var t := View();
      NamesOfItems(t);
      ProbeDecides(t, name, ix, found);
      AppendKeepsLinked(t, ix, name, value, found);
      AppendGrowsItems(t, ix, name, value);
      StoreLast(ix, name, value, hash);
    }

    /** Grows a full table, probes again, then stores. */
    method GrowThenStore(ix: int, found: bool, name: cstring, value: V, hash: nat)
      requires WellLinked() && hash == Hash(name)
      requires cellCapacity > 0 ==> ProbeResult(View(), name, ix, found)
      modifies Repr()
      ensures WellLinked() && count == old(count) + 1
      ensures Contents() == old(Contents()) + [Item(name, value)]
      ensures Valid() <==> old(Valid()) && name !in old(Names(Contents()))
      ensures old(count < itemCapacity) ==> SameArrays()
      ensures old(count >= itemCapacity) ==>
                fresh(cells) && fresh(hashes) && fresh(names) && fresh(values) && fresh(cellIxs)
      decreases if count < itemCapacity then 0 else 2, 0
    {
      hide Linked, TableModel.Valid, ProbeResult;
      var cellIx, isFound := ix, found;
      if count >= itemCapacity {
        GrowAndRehash();
        cellIx, isFound := GetCellIx(name, hash);
      }
      StoreProbed(cellIx, isFound, name, value, hash);
    }

    /** Appends without rejecting a stored name: the table stays linked, but is valid only if the name was new. */
    method Add(name: cstring, value: V)
      requires WellLinked()
      modifies Repr()
      ensures WellLinked() && count == old(count) + 1
      ensures Contents() == old(Contents()) + [Item(name, value)]
      ensures Valid() <==> old(Valid()) && name !in old(Names(Contents()))
      ensures old(count < itemCapacity) ==> SameArrays()
      ensures old(count >= itemCapacity) ==>
                fresh(cells) && fresh(hashes) && fresh(names) && fresh(values) && fresh(cellIxs)
      decreases if count < itemCapacity then 0 else 2, 1
    {
      hide Linked, TableModel.Valid, ProbeResult;
      var hash := HashStr(name);
      var cellIx, found := GetCellIx(name, hash);
      GrowThenStore(cellIx, found, name, value, hash);
    }

    method Overwrite(ix: int, name: cstring, value: V)
      requires WellLinked() && ProbeResult(View(), name, ix, true)
      modifies values
      ensures WellLinked() && (Valid() <==> old(Valid()))
      ensures Contents() == Put(old(Contents()), name, value)
    {
      hide Reachable, ItemsPlaced, CellsPointBack, Hash;
      ghost var t := View();
      var itemIx := cells[ix];
      values[itemIx] := value;
      OverwriteItems(t, ix, name, value);
      assert View() == t.(values := t.values[itemIx := value]);
    }

    /** Overwrites the value of a stored name, else appends, growing first when full. */
    method SetValue(name: cstring, value: V)
      requires WellLinked()
      modifies Repr()
      ensures WellLinked() && (Valid() <==> old(Valid()))
      ensures Contents() == Put(old(Contents()), name, value)
      ensures !SameArrays() ==> fresh(cells) && fresh(hashes) && fresh(names) && fresh(values) && fresh(cellIxs)
    {
      hide Linked, ProbeResult, Distinct;
      NamesOfItems(View());
      var hash := HashStr(name);
      var cellIx, found := GetCellIx(name, hash);
      if found {
        Overwrite(cellIx, name, value);
        return;
      }
      ProbeMisses(View(), name, cellIx);
      GrowThenStore(cellIx, found, name, value, hash);
    }

    /** The last item takes the place of item `itemIx`. */
    method SwapWithLast(itemIx: nat)
      requires Layout() && itemIx < count && 0 <= cellIxs[count - 1] < cellCapacity
      modifies `count, cells, names, values, cellIxs, hashes
      ensures Layout() && count == old(count) - 1
      ensures View() == SwapOut(old(View()), itemIx)
    {
      ghost var t := SwapOut(View(), itemIx);
      var lastItemIx := count - 1;
      if itemIx < lastItemIx {
        names[itemIx] := names[lastItemIx];
        values[itemIx] := values[lastItemIx];
        cellIxs[itemIx] := cellIxs[lastItemIx];
        hashes[itemIx] := hashes[lastItemIx];
        cells[cellIxs[itemIx]] := itemIx;
      }
      count := count - 1;
      assert cells[..] == t.cells;
      assert names[..count] == t.names;
      assert values[..count] == t.values;
      assert cellIxs[..count] == t.cellIxs;
      assert hashes[..count] == t.hashes;
    }

    /** Backward shift from the freed cell up to the first empty one. */
    method ShiftBack(cell: nat, ghost e: int, ghost distinct: bool, ghost o: int)
      requires Layout() && Shifting(View(), cell, cell, cell, 0, e, distinct, o)
      modifies cells, cellIxs
      ensures Layout() && names[..count] == old(names[..count]) && values[..count] == old(values[..count])
      ensures Valid() <==> distinct
    {
      hide Shifting, Shape, PointBackBut;
      var i, j, x := cell, cell, 0;
      ShiftInBounds(View(), cell, i, j, x, e, distinct, o);
      while x < cellCapacity - 1
        invariant 0 <= i < cellCapacity && 0 <= j < cellCapacity
        invariant Layout() && Shifting(View(), cell, i, j, x, e, distinct, o)
      {
        ghost var t, j0 := View(), j;
        ShiftInBounds(t, cell, i, j, x, e, distinct, o);
        MaskWraps(j + 1, cellCapacity);
        j := Mask(j + 1, cellCapacity);
        if cells[j] == INVALID_IX {
          ShiftStops(t, cell, i, j0, x, e, distinct, o, j);
          break;
        }
        MaskHome(hashes[cells[j]], cellCapacity);
        var k := Mask(hashes[cells[j]], cellCapacity);
        if (j > i && (k <= i || k > j)) || (j < i && (k <= i && k > j)) {
          ShiftMoves(t, cell, i, j0, x, e, distinct, o, j);
          cellIxs[cells[j]] := i;
          cells[i] := cells[j];
          assert View() == MoveBack(t, i, j);
          i := j;
        } else {
          ShiftSkips(t, cell, i, j0, x, e, distinct, o, j);
        }
        x := x + 1;
      }
      ghost var t := View();
      if x >= cellCapacity - 1 {
        ShiftInBounds(t, cell, i, j, x, e, distinct, o);
      }
      cells[i] := INVALID_IX;
      assert View() == Close(t, i);
    }

    /** Removes a stored name; the result is a valid table exactly when the table was one. */
    method Remove(name: cstring) returns (ok: bool)
      requires WellLinked()
      modifies `count, cells, names, values, cellIxs, hashes
      ensures ok <==> name in old(Names(Contents()))
      ensures !ok ==> unchanged(Repr())
      ensures Layout() && Contents() == ItemList.Remove(old(Contents()), name)
      ensures Valid() <==> old(Valid())
    {
      hide Linked, ProbeResult, Shifting, Distinct;
      ghost var t := View();
      NamesOfItems(t);
      var hash := HashStr(name);
      var cell, found := GetCellIx(name, hash);
      if !found {
        ProbeMisses(t, name, cell);
        return false;
      }
      ProbeHits(t, name, cell);
      ghost var e, o := RemovalStarts(t, name, cell);
      SwapWithLast(cells[cell]);
      ShiftBack(cell, e, Distinct(t.names), o);
      return true;
    }

    /** Frees every item and empties every cell; capacities stay. */
    method Clear()
      requires WellLinked()
      modifies `count, cells
      ensures Valid() && Contents() == []
    {
      count := 0;
      for i := 0 to cellCapacity
        modifies cells
        invariant forall c :: 0 <= c < i ==> cells[c] == INVALID_IX
      {
        cells[i] := INVALID_IX;
      }
    }

    method Apply(op: Op<V>)
      requires Valid()
      modifies Repr()
      ensures Valid() && Contents() == Step(old(Contents()), op)
      ensures !SameArrays() ==> fresh(cells) && fresh(hashes) && fresh(names) && fresh(values) && fresh(cellIxs)
    {
      hide Linked, ProbeResult, Distinct;
      match op
      case Set(name, value) => SetValue(name, value);
      case Delete(name) => var _ := Remove(name);
      case Clear => Clear();
    }

    /** Struct assignment from a temporary object. */
    method TakeOver(other: JsonObject<V>)
      requires other != this && other.Layout()
      modifies this
      ensures Layout() && View() == old(other.View())
      ensures cells == other.cells && hashes == other.hashes && names == other.names
      ensures values == other.values && cellIxs == other.cellIxs
      ensures count == other.count && itemCapacity == other.itemCapacity && cellCapacity == other.cellCapacity
    {
      cells, hashes, names, values, cellIxs := other.cells, other.hashes, other.names, other.values, other.cellIxs;
      count, itemCapacity, cellCapacity := other.count, other.itemCapacity, other.cellCapacity;
    }

    /** Adds every item, in order, to a new object with more cells. */
    method Rehashed(newCapacity: nat) returns (grown: JsonObject<V>)
      requires WellLinked() && count < newCapacity * 7 / 10
      requires newCapacity >= STARTING_CAPACITY && PowerOfTwo(newCapacity)
      ensures grown.WellLinked() && grown.cellCapacity == newCapacity && grown.count == count
      ensures grown.Contents() == Contents() && (grown.Valid() <==> Valid())
      ensures fresh(grown) && fresh(grown.cells) && fresh(grown.hashes) && fresh(grown.names)
      ensures fresh(grown.values) && fresh(grown.cellIxs)
      decreases 1, 0
    {
      hide Linked, TableModel.Valid;
      grown := new JsonObject<V>(newCapacity);
      ghost var items, repr := Contents(), grown.Repr();
      for i := 0 to count
        modifies repr
        invariant grown.Repr() <= repr && grown.WellLinked()
        invariant grown.cellCapacity == newCapacity && grown.itemCapacity == newCapacity * 7 / 10 && grown.count == i
        invariant grown.Contents() == items[..i]
      {
        grown.Add(names[i], values[i]);
        TakeOneMore(items, i);
      }
      assert items[..count] == items;
      ValidByItems(View(), grown.View());
    }

    /** Doubles the cells: the same items in the same order. */
    method GrowAndRehash()
      requires WellLinked()
      modifies Repr()
      ensures WellLinked() && count == old(count) < itemCapacity
      ensures Contents() == old(Contents()) && (Valid() <==> old(Valid()))
      ensures cellCapacity
           == if old(cellCapacity) * 2 >= STARTING_CAPACITY then old(cellCapacity) * 2 else STARTING_CAPACITY
      ensures fresh(cells) && fresh(hashes) && fresh(names) && fresh(values) && fresh(cellIxs)
      decreases 1, 1
    {
      hide Linked, TableModel.Valid;
      var newCapacity := if cellCapacity * 2 >= STARTING_CAPACITY then cellCapacity * 2 else STARTING_CAPACITY;
      DoublePower(cellCapacity);
      var grown := Rehashed(newCapacity);
      TakeOver(grown);
    }
  }

  /** A client's run on a new object: every reachable object stores exactly the bindings of a finite map. */
  method RunOps<V(0)>(ops: seq<Op<V>>) returns (o: JsonObject<V>)
    ensures o.Valid() && o.Contents() == Run([], ops)
    ensures Represents(o.Contents(), MapRun(map[], ops))
    ensures o.count == |MapRun(map[], ops)|
  {
    hide Linked, TableModel.Valid, Step;
    o := new JsonObject<V>(0);
    assert ops[..0] == [];
    for i := 0 to |ops|
      invariant fresh(o) && fresh(o.cells) && fresh(o.hashes) && fresh(o.names) && fresh(o.values) && fresh(o.cellIxs)
      invariant o.Valid() && o.Contents() == Run([], ops[..i])
    {
      o.Apply(ops[i]);
      RunSnoc([], ops[..i], ops[i]);
      assert ops[..i + 1] == ops[..i] + [ops[i]];
    }
    assert ops[..|ops|] == ops;
    RunRepresents([], map[], ops);
  }

  /** A concrete repeated name: adding it twice keeps both items; lookups see the second,
      and the object is no longer a map. */
  method RepeatedAdd<V(0)>(name: cstring, first: V, second: V) returns (o: JsonObject<V>)
    ensures o.WellLinked() && !o.Valid()
    ensures o.Contents() == [Item(name, first), Item(name, second)] && Lookup(o.Contents(), name) == Some(second)
  {
    hide Linked, TableModel.Valid;
    o := new JsonObject<V>(STARTING_CAPACITY) by { assert Pow2(4) == STARTING_CAPACITY; }
    o.Add(name, first);
    assert Names(o.Contents())[0] == name;
    o.Add(name, second);
    assert Names(o.Contents())[1] == name;
  }
}

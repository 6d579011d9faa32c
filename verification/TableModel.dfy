/** The probing table inside a JSON object, as sequences: its invariant and what each update keeps. */
module TableModel {
  import opened Bytes
  import opened ItemList

  /** `(size_t)-1`, the mark of an empty cell. */
  const INVALID_IX: int := -1
  const TWO_TO_64: nat := 0x1_0000_0000_0000_0000

  /** djb2 on a 64-bit `unsigned long`. */
  function Hash(s: bytes): (h: nat)
    ensures h < TWO_TO_64
  {
    if s == [] then 5381 else (Hash(s[..|s| - 1]) * 33 + s[|s| - 1]) % TWO_TO_64
  }

  /** `cells` maps cells to items, `cellIxs` maps items back; the other fields are the items. */
  datatype Table<V> = Table(cells: seq<int>, names: seq<cstring>, values: seq<V>,
                            cellIxs: seq<int>, hashes: seq<nat>)

  /** Number of steps a probe takes from cell `a` to cell `b`. */
  function Dist(cap: nat, a: nat, b: nat): nat
    requires a < cap && b < cap
  {
    if a <= b then b - a else b - a + cap
  }

  function Home(hash: nat, cap: nat): nat
    requires cap > 0
    ensures Home(hash, cap) < cap
  {
    hash % cap
  }

  ghost predicate PowerOfTwo(cap: nat) {
    exists k: nat :: Pow2(k) == cap
  }

  ghost predicate Shape(t: Table) {
    && |t.names| == |t.values| == |t.cellIxs| == |t.hashes|
    && (|t.names| == 0 || |t.names| < |t.cells|)
    && forall i :: 0 <= i < |t.names| ==>
         t.hashes[i] == Hash(t.names[i]) && 0 <= t.cellIxs[i] < |t.cells|
  }

  /** Every occupied cell is the place its item records. */
  ghost predicate CellsPointBack(t: Table)
    requires Shape(t)
  {
    forall c :: 0 <= c < |t.cells| && t.cells[c] != INVALID_IX ==>
      0 <= t.cells[c] < |t.names| && t.cellIxs[t.cells[c]] == c
  }

  /** Every item's cell holds the last item of the same name. */
  ghost predicate ItemsPlaced(t: Table)
    requires Shape(t)
  {
    && (forall i :: 0 <= i < |t.names| ==>
          i <= t.cells[t.cellIxs[i]] < |t.names| && t.names[t.cells[t.cellIxs[i]]] == t.names[i])
    && (forall i, j :: 0 <= i < |t.names| && 0 <= j < |t.names| && t.names[i] == t.names[j] ==>
          t.cellIxs[i] == t.cellIxs[j])
  }

  /** No empty cell lies between an item's home cell and its cell. */
  ghost predicate Reachable(t: Table)
    requires Shape(t)
  {
    forall i, c :: 0 <= i < |t.names| && 0 <= c < |t.cells|
      && Dist(|t.cells|, Home(t.hashes[i], |t.cells|), c) < Dist(|t.cells|, Home(t.hashes[i], |t.cells|), t.cellIxs[i])
      ==> t.cells[c] != INVALID_IX
  }

  /** The invariant that survives even repeated names. */
  ghost predicate Linked(t: Table) {
    Shape(t) && CellsPointBack(t) && ItemsPlaced(t) && Reachable(t)
  }

  /** The full invariant: cells and items are in bijection. */
  ghost predicate Valid(t: Table) {
    Linked(t) && Distinct(t.names)
  }

  function ItemsOf<V>(t: Table<V>): (r: Items<V>)
    requires |t.names| == |t.values|
    ensures |r| == |t.names|
    ensures forall i :: 0 <= i < |r| ==> r[i] == Item(t.names[i], t.values[i])
  {
    seq(|t.names|, i requires 0 <= i < |t.names| => Item(t.names[i], t.values[i]))
  }

  lemma NamesOfItems<V>(t: Table<V>)
    requires |t.names| == |t.values|
    ensures Names(ItemsOf(t)) == t.names
  {
  }

  /** A linked table is valid or not by its names alone. */
  lemma ValidByItems<V>(t: Table<V>, t': Table<V>)
    requires Linked(t) && Linked(t') && ItemsOf(t) == ItemsOf(t')
    ensures Valid(t) <==> Valid(t')
  {
    NamesOfItems(t);
    NamesOfItems(t');
  }

  /** An open-addressed table that is not full has an empty cell. */
  lemma EmptyCellExists(t: Table)
    requires Shape(t) && CellsPointBack(t) && |t.cells| > 0
    ensures exists c :: 0 <= c < |t.cells| && t.cells[c] == INVALID_IX
  {
    if forall c :: 0 <= c < |t.cells| ==> t.cells[c] != INVALID_IX {
      InjectionFits(t.cells, |t.names|);
    }
  }

  lemma {:induction false} InjectionFits(s: seq<int>, n: nat)
    requires Distinct(s)
    requires forall i :: 0 <= i < |s| ==> 0 <= s[i] < n
    ensures |s| <= n
  {
    if s != [] {
      if k :| 0 <= k < |s| && s[k] == n - 1 {
        InjectionFits(s[..k] + s[k + 1..], n - 1);
      } else {
        assert s[0] < n;
        InjectionFits(s, n - 1);
      }
    }
  }

  /** Where a probe for `key` stops: its cell, or the first empty cell from its home. */
  ghost predicate ProbeResult(t: Table, key: cstring, ix: int, found: bool)
    requires Shape(t)
  {
    && 0 <= ix < |t.cells|
    && (found ==> t.cells[ix] == LastIndex(t.names, key) >= 0)
    && (!found ==> t.cells[ix] == INVALID_IX && LastIndex(t.names, key) < 0
                   && forall c :: 0 <= c < |t.cells|
                        && Dist(|t.cells|, Home(Hash(key), |t.cells|), c)
                            < Dist(|t.cells|, Home(Hash(key), |t.cells|), ix)
                        ==> t.cells[c] != INVALID_IX)
  }

  /** Cells seen by the first `n` probe steps hold other names. */
  ghost predicate Probed(t: Table, key: cstring, n: nat)
    requires Shape(t) && CellsPointBack(t)
  {
    forall c :: 0 <= c < |t.cells| && Dist(|t.cells|, Home(Hash(key), |t.cells|), c) < n ==>
      t.cells[c] != INVALID_IX && t.names[t.cells[c]] != key
  }

  lemma ProbeStops(t: Table, key: cstring, ix: int)
    requires Linked(t) && 0 <= ix < |t.cells|
    requires Probed(t, key, Dist(|t.cells|, Home(Hash(key), |t.cells|), ix))
    requires t.cells[ix] == INVALID_IX || t.names[t.cells[ix]] == key
    ensures ProbeResult(t, key, ix, t.cells[ix] != INVALID_IX)
  {
    var k := LastIndex(t.names, key);
    if k >= 0 {
      var p := t.cellIxs[k];
      assert t.names[t.cells[p]] == key;
      assert t.cells[p] == k;
      assert p == ix;
    }
  }

  /** A step that meets another name leaves one more cell probed. */
  lemma ProbeStep(t: Table, key: cstring, i: nat, ix: int)
    requires Linked(t) && Probed(t, key, i) && i < |t.cells|
    requires 0 <= ix < |t.cells| && Dist(|t.cells|, Home(Hash(key), |t.cells|), ix) == i
    requires t.cells[ix] != INVALID_IX
    requires Hash(key) != t.hashes[t.cells[ix]] || key != t.names[t.cells[ix]]
    ensures Probed(t, key, i + 1)
  {
    assert t.hashes[t.cells[ix]] == Hash(t.names[t.cells[ix]]);
  }

  /** A probe over a whole table finds the name or an empty cell. */
  lemma ProbeCannotExhaust(t: Table, key: cstring)
    requires Linked(t) && |t.cells| > 0
    ensures !Probed(t, key, |t.cells|)
  {
    EmptyCellExists(t);
  }

  function Append<V>(t: Table<V>, ix: int, name: cstring, value: V): Table<V>
    requires 0 <= ix < |t.cells|
  {
    Table(t.cells[ix := |t.names|], t.names + [name], t.values + [value], t.cellIxs + [ix], t.hashes + [Hash(name)])
  }

  /** Storing a new last item where its probe stopped keeps the table linked, even for a repeated name. */
  lemma AppendKeepsLinked<V>(t: Table<V>, ix: int, name: cstring, value: V, found: bool)
    requires Linked(t) && |t.names| + 1 < |t.cells|
    requires ProbeResult(t, name, ix, found)
    ensures Linked(Append(t, ix, name, value))
    ensures Valid(Append(t, ix, name, value)) <==> Valid(t) && !found
  {
    var n, t' := |t.names|, Append(t, ix, name, value);
    AppendCells(t, ix, name, value, found);
    AppendItems(t, ix, name, value, found);
    AppendReach(t, ix, name, value, found);
    assert t.names == t'.names[..n];
    if found {
      assert t'.names[LastIndex(t.names, name)] == t'.names[n];
    }
  }

  lemma AppendGrowsItems<V>(t: Table<V>, ix: int, name: cstring, value: V)
    requires Shape(t) && 0 <= ix < |t.cells|
    ensures ItemsOf(Append(t, ix, name, value)) == ItemsOf(t) + [Item(name, value)]
  {
  }

  lemma ProbeHits(t: Table, key: cstring, ix: int)
    requires Linked(t) && ProbeResult(t, key, ix, true)
    ensures 0 <= ix < |t.cells| && 0 <= t.cells[ix] == LastIndex(t.names, key)
  {
  }

  lemma FoundCell(t: Table, key: cstring, ix: int)
    requires Linked(t) && ProbeResult(t, key, ix, true)
    ensures t.cellIxs[t.cells[ix]] == ix
  {
  }

  lemma ProbeMisses(t: Table, key: cstring, ix: int)
    requires Linked(t) && (|t.cells| > 0 ==> ProbeResult(t, key, ix, false))
    ensures LastIndex(t.names, key) < 0
  {
  }

  /** Overwriting the value of a found name. */
  lemma OverwriteItems<V>(t: Table<V>, ix: int, name: cstring, value: V)
    requires Shape(t) && ProbeResult(t, name, ix, true)
    ensures ItemsOf(t.(values := t.values[t.cells[ix] := value])) == Put(ItemsOf(t), name, value)
    ensures Linked(t.(values := t.values[t.cells[ix] := value])) <==> Linked(t)
  {
    hide Reachable, Hash;
    var t' := t.(values := t.values[t.cells[ix] := value]);
    OverwriteKeepsPaths(t, t');
    assert Linked(t') <==> Linked(t);
    hide Shape, Linked, CellsPointBack, ItemsPlaced;
    NamesOfItems(t);
    assert ItemsOf(t') == ItemsOf(t)[LastIndex(t.names, name) := Item(name, value)];
  }

  lemma OverwriteKeepsPaths<V>(t: Table<V>, t': Table<V>)
    requires Shape(t) && t' == t.(values := t'.values) && |t'.values| == |t.values|
    ensures Shape(t') && (Reachable(t') <==> Reachable(t))
  {
  }

  lemma ProbeDecides(t: Table, key: cstring, ix: int, found: bool)
    requires Shape(t) && ProbeResult(t, key, ix, found)
    ensures found <==> key in t.names
  {
  }

  lemma AppendCells<V>(t: Table<V>, ix: int, name: cstring, value: V, found: bool)
    requires Linked(t) && |t.names| + 1 < |t.cells|
    requires ProbeResult(t, name, ix, found)
    ensures Shape(Append(t, ix, name, value)) && CellsPointBack(Append(t, ix, name, value))
  {
  }

  lemma AppendItems<V>(t: Table<V>, ix: int, name: cstring, value: V, found: bool)
    requires Linked(t) && |t.names| + 1 < |t.cells|
    requires ProbeResult(t, name, ix, found)
    ensures Shape(Append(t, ix, name, value)) && ItemsPlaced(Append(t, ix, name, value))
  {
    var n, t' := |t.names|, Append(t, ix, name, value);
    forall i | 0 <= i < n && t.names[i] == name
      ensures t.cellIxs[i] == ix
    {
      SameNameSameCell(t, i, ix);
    }
    forall i | 0 <= i <= n
      ensures i <= t'.cells[t'.cellIxs[i]] <= n && t'.names[t'.cells[t'.cellIxs[i]]] == t'.names[i]
    {
      if i < n && t.cellIxs[i] == ix {
        assert t.names[t.cells[ix]] == t.names[i];
      }
    }
    forall i, j | 0 <= i <= n && 0 <= j <= n && t'.names[i] == t'.names[j]
      ensures t'.cellIxs[i] == t'.cellIxs[j]
    {
    }
  }

  lemma SameNameSameCell(t: Table, i: int, ix: int)
    requires Linked(t) && 0 <= i < |t.names| && 0 <= ix < |t.cells|
    requires ProbeResult(t, t.names[i], ix, true) || ProbeResult(t, t.names[i], ix, false)
    ensures t.cellIxs[i] == ix
  {
    assert t.cellIxs[LastIndex(t.names, t.names[i])] == ix;
  }

  lemma AppendReach<V>(t: Table<V>, ix: int, name: cstring, value: V, found: bool)
    requires Linked(t) && |t.names| + 1 < |t.cells|
    requires ProbeResult(t, name, ix, found)
    ensures Shape(Append(t, ix, name, value)) && Reachable(Append(t, ix, name, value))
  {
    var n, t', cap := |t.names|, Append(t, ix, name, value), |t.cells|;
    forall i, c | && 0 <= i <= n && 0 <= c < cap
                  && Dist(cap, Home(t'.hashes[i], cap), c) < Dist(cap, Home(t'.hashes[i], cap), t'.cellIxs[i])
      ensures t'.cells[c] != INVALID_IX
    {
      var m := if i < n then i else if found then t.cells[ix] else n;
      if m < n {
        assert t.hashes[m] == t'.hashes[i] && t.cellIxs[m] == t'.cellIxs[i];
      }
    }
  }
}

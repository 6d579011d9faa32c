/** A JSON object seen by its clients: name/value pairs in item order, refining a finite map. */
module ItemList {
  import opened Bytes

  datatype Item<+V> = Item(name: cstring, value: V)

  type Items<+V> = seq<Item<V>>

  function Names<V>(items: Items<V>): (r: seq<cstring>)
    ensures |r| == |items|
    ensures forall i {:trigger r[i]} {:trigger items[i]} :: 0 <= i < |items| ==> r[i] == items[i].name
  {
    seq(|items|, i requires 0 <= i < |items| => items[i].name)
  }

  ghost predicate Distinct<T>(s: seq<T>) {
    forall i, j :: 0 <= i < j < |s| ==> s[i] != s[j]
  }

  /** Position of the last occurrence of `name`, or -1. */
  function LastIndex(names: seq<cstring>, name: cstring): (k: int)
    ensures -1 <= k < |names|
    ensures k >= 0 ==> names[k] == name
    ensures forall i :: k < i < |names| ==> names[i] != name
  {
    if names == [] then -1
    else if names[|names| - 1] == name then |names| - 1
    else LastIndex(names[..|names| - 1], name)
  }

  function Lookup<V>(items: Items<V>, name: cstring): Option<V> {
    var k := LastIndex(Names(items), name);
    if k < 0 then None else Some(items[k].value)
  }

  /** What a set does: overwrite in place, or append. */
  function Put<V>(items: Items<V>, name: cstring, value: V): Items<V> {
    var k := LastIndex(Names(items), name);
    if k < 0 then items + [Item(name, value)] else items[k := Item(name, value)]
  }

  /** What a removal does: the last item takes the freed place. */
  function SwapRemove<V>(items: Items<V>, k: nat): Items<V>
    requires k < |items|
  {
    items[k := items[|items| - 1]][..|items| - 1]
  }

  function Remove<V>(items: Items<V>, name: cstring): Items<V> {
    var k := LastIndex(Names(items), name);
    if k < 0 then items else SwapRemove(items, k)
  }

  datatype Op<V> = Set(name: cstring, value: V) | Delete(name: cstring) | Clear

  function Step<V>(items: Items<V>, op: Op<V>): Items<V> {
    match op
    case Set(name, value) => Put(items, name, value)
    case Delete(name) => Remove(items, name)
    case Clear => []
  }

  function Run<V>(items: Items<V>, ops: seq<Op<V>>): Items<V>
    decreases |ops|
  {
    if ops == [] then items else Run(Step(items, ops[0]), ops[1..])
  }

  lemma {:induction false} RunSnoc<V>(items: Items<V>, ops: seq<Op<V>>, op: Op<V>)
    ensures Run(items, ops + [op]) == Step(Run(items, ops), op)
    decreases |ops|
  {
    if ops == [] {
      assert Run(Step(items, op), []) == Step(items, op);
    } else {
      assert (ops + [op])[1..] == ops[1..] + [op];
      RunSnoc(Step(items, ops[0]), ops[1..], op);
    }
  }

  function MapStep<V>(m: map<cstring, V>, op: Op<V>): map<cstring, V> {
    match op
    case Set(name, value) => m[name := value]
    case Delete(name) => m - {name}
    case Clear => map[]
  }

  function MapRun<V>(m: map<cstring, V>, ops: seq<Op<V>>): map<cstring, V>
    decreases |ops|
  {
    if ops == [] then m else MapRun(MapStep(m, ops[0]), ops[1..])
  }

  /** `items` stores exactly the bindings of `m`, each once. */
  ghost predicate Represents<V>(items: Items<V>, m: map<cstring, V>) {
    && Distinct(Names(items))
    && |items| == |m|
    && (forall i :: 0 <= i < |items| ==> items[i].name in m && m[items[i].name] == items[i].value)
  }

  lemma {:induction false} NameSetSize(names: seq<cstring>)
    requires Distinct(names)
    ensures |set x | x in names| == |names|
  {
    if names != [] {
      var n := |names| - 1;
      NameSetSize(names[..n]);
      assert (set x | x in names) == (set x | x in names[..n]) + {names[n]};
    }
  }

  /** Representing items cover every key: lookup on the items is lookup in the map. */
  lemma LookupIsMapGet<V>(items: Items<V>, m: map<cstring, V>, name: cstring)
    requires Represents(items, m)
    ensures Lookup(items, name) == if name in m then Some(m[name]) else None
  {
    var names := Names(items);
    var s := set x | x in names;
    NameSetSize(names);
    assert s <= m.Keys;
    if name in m && name !in names {
      assert s <= m.Keys - {name};
      SubsetSize(s, m.Keys - {name});
    }
  }

  lemma {:induction false} SubsetSize<T>(a: set<T>, b: set<T>)
    requires a <= b
    ensures |a| <= |b|
  {
    if a != {} {
      var x :| x in a;
      SubsetSize(a - {x}, b - {x});
    }
  }

  lemma PutRepresents<V>(items: Items<V>, m: map<cstring, V>, name: cstring, value: V)
    requires Represents(items, m)
    ensures Represents(Put(items, name, value), m[name := value])
  {
    LookupIsMapGet(items, m, name);
    var names, k, rest := Names(items), LastIndex(Names(items), name), Put(items, name, value);
    assert Distinct(names);
    if k < 0 {
      assert Names(rest) == names + [name];
      assert m[name := value].Keys == m.Keys + {name};
    } else {
      assert Names(rest) == names;
      assert m[name := value].Keys == m.Keys;
      assert forall i :: 0 <= i < |items| && i != k ==> names[i] != name;
    }
  }

  lemma RemoveRepresents<V>(items: Items<V>, m: map<cstring, V>, name: cstring)
    requires Represents(items, m)
    ensures Represents(Remove(items, name), m - {name})
  {
    LookupIsMapGet(items, m, name);
    var names, k, n := Names(items), LastIndex(Names(items), name), |items| - 1;
    assert Distinct(names);
    if k >= 0 {
      var rest := SwapRemove(items, k);
      assert Names(rest) == names[k := names[n]][..n];
      assert m.Keys == (m - {name}).Keys + {name};
      assert forall i :: 0 <= i <= n && i != k ==> names[i] != name;
      forall i | 0 <= i < n
        ensures rest[i].name in m - {name} && (m - {name})[rest[i].name] == rest[i].value
      {
        var j := if i == k then n else i;
        assert rest[i] == items[j] && names[j] != name;
      }
    } else {
      assert m - {name} == m;
    }
  }

  /** Every run of sets, removals and clears keeps the items in step with a finite map. */
  lemma {:induction false} RunRepresents<V>(items: Items<V>, m: map<cstring, V>, ops: seq<Op<V>>)
    requires Represents(items, m)
    ensures Represents(Run(items, ops), MapRun(m, ops))
    decreases |ops|
  {
    if ops != [] {
      match ops[0] {
        case Set(name, value) => PutRepresents(items, m, name, value);
        case Delete(name) => RemoveRepresents(items, m, name);
        case Clear =>
      }
      RunRepresents(Step(items, ops[0]), MapStep(m, ops[0]), ops[1..]);
    }
  }
}

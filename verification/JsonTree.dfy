/** Dotted paths, comparison and copying of JSON trees. */
module JsonTree {
  import opened Bytes
  import opened ItemList
  import opened JsonNumber
  import opened JsonText

  const DOT_CHAR: byte := 0x2E

  /** `strchr(path, '.')`, or -1. */
  function DotPosition(path: cstring): (k: int)
    ensures -1 <= k < |path|
    ensures k >= 0 ==> path[k] == DOT_CHAR
    ensures forall i :: 0 <= i < (if k < 0 then |path| else k) ==> path[i] != DOT_CHAR
  {
    if path == [] then -1
    else if path[0] == DOT_CHAR then 0
    else var k := DotPosition(path[1..]); if k < 0 then -1 else k + 1
  }

  function Head(path: cstring): cstring
    requires DotPosition(path) >= 0
  {
    path[..DotPosition(path)]
  }

  function Rest(path: cstring): cstring
    requires DotPosition(path) >= 0
  {
    path[DotPosition(path) + 1..]
  }

  /** `json_object_dotget_value`. */
  function DotGet(items: Items<JSON>, path: cstring): Option<JSON>
    decreases |path|
  {
    if DotPosition(path) < 0 then Lookup(items, path)
    else
      var v := Lookup(items, Head(path));
      if v.Some? && v.value.Object? then DotGet(v.value.members, Rest(path)) else None
  }

  /** `json_object_dotset_value`: None is failure, which leaves the object as it was. */
  function DotSet(items: Items<JSON>, path: cstring, value: JSON): Option<Items<JSON>>
    decreases |path|
  {
    if DotPosition(path) < 0 then Some(Put(items, path, value))
    else
      var v := Lookup(items, Head(path));
      if v.Some? && !v.value.Object? then None
      else
        var inner := DotSet(if v.Some? then v.value.members else [], Rest(path), value);
        if inner.None? then None else Some(Put(items, Head(path), Object(inner.value)))
  }

  /** `q` names a proper ancestor of `p`. */
  predicate Above(q: cstring, p: cstring) {
    q + [DOT_CHAR] <= p
  }

  /** Neither path leads through the other. */
  predicate Apart(p: cstring, q: cstring) {
    p != q && !Above(p, q) && !Above(q, p)
  }

  lemma LookupPut<V>(items: Items<V>, name: cstring, value: V, other: cstring)
    ensures Lookup(Put(items, name, value), other) == if other == name then Some(value) else Lookup(items, other)
  {
    var k, after := LastIndex(Names(items), name), Put(items, name, value);
    var j, j' := LastIndex(Names(items), other), LastIndex(Names(after), other);
    assert Names(after) == if k < 0 then Names(items) + [name] else Names(items);
    if other == name {
      assert Names(after)[if k < 0 then |items| else k] == name;
    } else {
      assert j >= 0 ==> Names(after)[j] == other;
      assert j' >= 0 ==> Names(items)[j'] == other;
    }
  }

  /** A path without a dot is a name; the part before a path's first dot is the name of an object, in which the rest is
      looked up. */
  lemma DotGetByNames(items: Items<JSON>, name: cstring, rest: cstring)
    requires 0x2E !in name
    ensures DotGet(items, name) == Lookup(items, name)
    ensures var v := Lookup(items, name);
            DotGet(items, name + [0x2E] + rest)
            == if v.Some? && v.value.Object? then DotGet(v.value.members, rest) else None
  {
    ConsPath(name, rest);
    hide Lookup;
  }

  /** A successful set is read back by a get of the same path. */
  lemma {:induction false} DotGetAfterSet(items: Items<JSON>, path: cstring, value: JSON)
    requires DotSet(items, path, value).Some?
    ensures DotGet(DotSet(items, path, value).value, path) == Some(value)
    decreases |path|
  {
    if DotPosition(path) < 0 {
      LookupPut(items, path, value, path);
    } else {
      var v := Lookup(items, Head(path));
      var members := if v.Some? then v.value.members else [];
      var inner := DotSet(members, Rest(path), value);
      DotGetAfterSet(members, Rest(path), value);
      LookupPut(items, Head(path), Object(inner.value), Head(path));
    }
  }

  lemma SplitPath(path: cstring)
    ensures DotPosition(path) >= 0 ==> path == Head(path) + [DOT_CHAR] + Rest(path)
  {
  }

  /** Paths with the same first name are related exactly as their rests are. */
  lemma ApartRests(p: cstring, q: cstring)
    requires DotPosition(p) >= 0 && DotPosition(q) >= 0 && Head(p) == Head(q) && Apart(p, q)
    ensures Apart(Rest(p), Rest(q))
  {
    SplitPath(p);
    SplitPath(q);
    var h := Head(p) + [DOT_CHAR];
    assert p == h + Rest(p) && q == h + Rest(q);
    assert Above(Rest(p), Rest(q)) ==> Above(p, q) by {
      assert p + [DOT_CHAR] == h + (Rest(p) + [DOT_CHAR]);
    }
    assert Above(Rest(q), Rest(p)) ==> Above(q, p) by {
      assert q + [DOT_CHAR] == h + (Rest(q) + [DOT_CHAR]);
    }
  }

  lemma {:induction false} EmptyObjectHasNothing(path: cstring)
    ensures DotGet([], path) == None
  {
  }

  /** A successful set leaves every path apart from its own as it was. */
  lemma {:induction false} DotSetFrame(items: Items<JSON>, path: cstring, value: JSON, q: cstring)
    requires DotSet(items, path, value).Some? && Apart(path, q)
    ensures DotGet(DotSet(items, path, value).value, q) == DotGet(items, q)
    decreases |path|
  {
    var first := if DotPosition(q) < 0 then q else Head(q);
    if DotPosition(path) < 0 {
      SplitPath(q);
      assert first == path ==> q == path || Above(path, q);
      LookupPut(items, path, value, first);
    } else {
      var v := Lookup(items, Head(path));
      var members := if v.Some? then v.value.members else [];
      var inner := DotSet(members, Rest(path), value);
      LookupPut(items, Head(path), Object(inner.value), first);
      SplitPath(path);
      assert first == Head(path) ==> Above(q, path) || DotPosition(q) >= 0;
      if first == Head(path) && DotPosition(q) >= 0 {
        ApartRests(path, q);
        DotSetFrame(members, Rest(path), value, Rest(q));
        EmptyObjectHasNothing(Rest(q));
      }
    }
  }

  /** A proper ancestor of the path holds something that is no object. */
  ghost predicate Blocked(items: Items<JSON>, path: cstring, q: cstring) {
    Above(q, path) && DotGet(items, q).Some? && !DotGet(items, q).value.Object?
  }

  lemma {:induction false} DotSetFailsOnlyBlocked(items: Items<JSON>, path: cstring, value: JSON) returns (q: cstring)
    requires DotSet(items, path, value).None?
    ensures Blocked(items, path, q)
    decreases |path|
  {
    var v := Lookup(items, Head(path));
    if v.Some? && !v.value.Object? {
      q := Head(path);
      SplitPath(path);
      assert DotPosition(q) < 0;
    } else {
      var r := DotSetFailsOnlyBlocked(if v.Some? then v.value.members else [], Rest(path), value);
      hide DotSet;
      EmptyObjectHasNothing(r);
      assert v.Some?;
      q := BlockedAbove(items, path, v.value.members, r);
    }
  }

  lemma BlockedAbove(items: Items<JSON>, path: cstring, members: Items<JSON>, r: cstring) returns (q: cstring)
    requires DotPosition(path) >= 0 && Lookup(items, Head(path)) == Some(Object(members))
    requires Blocked(members, Rest(path), r)
    ensures Blocked(items, path, q)
  {
    hide Lookup;
    SplitPath(path);
    ConsPath(Head(path), r);
    q := Head(path) + [DOT_CHAR] + r;
    AboveCons(path, r);
    hide Above, DotPosition;
    assert DotGet(items, q) == DotGet(members, r);
  }

  lemma AboveCons(path: cstring, r: cstring)
    requires DotPosition(path) >= 0 && Above(r, Rest(path))
    ensures Above(Head(path) + [DOT_CHAR] + r, path)
  {
    SplitPath(path);
    assert Head(path) + [DOT_CHAR] + r + [DOT_CHAR] == Head(path) + [DOT_CHAR] + (r + [DOT_CHAR]);
  }

  lemma {:induction false} ConsPath(head: cstring, rest: cstring)
    requires DOT_CHAR !in head
    ensures var p: cstring := head + [DOT_CHAR] + rest; DotPosition(p) == |head| && Head(p) == head && Rest(p) == rest
  {
    var p: cstring := head + [DOT_CHAR] + rest;
    assert p[|head|] == DOT_CHAR;
    assert forall i :: 0 <= i < |head| ==> p[i] == head[i];
  }

  /** An ancestor is the path's first name, or goes on below it. */
  lemma AncestorRest(path: cstring, q: cstring) returns (r: cstring)
    requires Above(q, path)
    ensures DotPosition(path) >= 0
    ensures DotPosition(q) < 0 ==> q == Head(path)
    ensures DotPosition(q) >= 0 ==> Head(q) == Head(path) && r == Rest(q) && Above(r, Rest(path))
  {
    hide DotPosition;
    var k, j := DotPosition(path), DotPosition(q);
    assert path[|q|] == DOT_CHAR && q == path[..|q|];
    assert forall i :: 0 <= i < |q| ==> q[i] == path[i];
    if j >= 0 {
      assert k == j;
      r := Rest(q);
      assert r + [DOT_CHAR] == path[k + 1..|q| + 1];
    } else {
      assert k == |q|;
      r := [];
    }
  }

  lemma {:induction false} BlockedFails(items: Items<JSON>, path: cstring, value: JSON, q: cstring)
    requires Blocked(items, path, q)
    ensures DotSet(items, path, value).None?
    decreases |path|
  {
    var r := AncestorRest(path, q);
    hide DotPosition, Above;
    if DotPosition(q) >= 0 {
      BlockedBelow(items, path, q, r);
      BlockedFails(Lookup(items, Head(path)).value.members, Rest(path), value, r);
    }
  }

  lemma BlockedBelow(items: Items<JSON>, path: cstring, q: cstring, r: cstring)
    requires Blocked(items, path, q) && DotPosition(path) >= 0 && DotPosition(q) >= 0
    requires Head(q) == Head(path) && r == Rest(q) && Above(r, Rest(path))
    ensures var v := Lookup(items, Head(path)); v.Some? && v.value.Object? && Blocked(v.value.members, Rest(path), r)
  {
  }

  /** A set fails exactly when some proper ancestor of its path is bound to a value that is no object. */
  lemma DotSetFailsIff(items: Items<JSON>, path: cstring, value: JSON)
    ensures DotSet(items, path, value).None? <==> exists q: cstring :: Blocked(items, path, q)
  {
    if DotSet(items, path, value).None? {
      var q := DotSetFailsOnlyBlocked(items, path, value);
    } else if q: cstring :| Blocked(items, path, q) {
      BlockedFails(items, path, value, q);
    }
  }

  // Comparison

  const EPSILON: real := 0.000001

  /** The number is neither infinite nor not a number, forms the reader accepts behind a minus sign. */
  predicate Finite(l: bytes) {
    var t := l[if l != [] && IsSign(l[0]) then 1 else 0..];
    !StartsNoCase(t, INF) && !StartsNoCase(t, NAN)
  }

  lemma JsonNumbersAreFinite(l: bytes)
    requires IsJsonNumber(l)
    ensures Finite(l)
  {
    assert l != [] && (l[0] == MINUS || l[0..] == l);
  }

  /** A difference within the tolerance; one that involves an infinity or no number never is. */
  predicate Near(a: bytes, b: bytes) {
    Finite(a) && Finite(b) && -EPSILON < NumberValue(a) - NumberValue(b) < EPSILON
  }

  /** `json_value_equals`: same count, and every name of the left object looked up on both sides. */
  predicate ValueEquals(a: JSON, b: JSON) {
    match (a, b)
    case (Null, Null) => true
    case (Bool(x), Bool(y)) => x == y
    case (Number(x), Number(y)) => Near(x, y)
    case (Str(x), Str(y)) => x == y
    case (Array(x), Array(y)) => |x| == |y| && forall i :: 0 <= i < |x| ==> ValueEquals(x[i], y[i])
    case (Object(x), Object(y)) =>
      && |x| == |y|
      && (forall i :: 0 <= i < |x| ==>
            var j, k := LastIndex(Names(x), x[i].name), LastIndex(Names(y), x[i].name);
            j >= 0 && k >= 0 && ValueEquals(x[j].value, y[k].value))
    case _ => false
  }

  /** No object in the tree stores a name twice. */
  ghost predicate DistinctTree(v: JSON) {
    match v
    case Array(items) => forall x :: x in items ==> DistinctTree(x)
    case Object(members) => Distinct(Names(members)) && forall m :: m in members ==> DistinctTree(m.value)
    case _ => true
  }

  function NameSet(items: Items<JSON>): set<cstring> {
    set n | n in Names(items)
  }

  /** Agreement as nested maps, in which sides and member order play no part. */
  ghost predicate Agree(a: JSON, b: JSON) {
    match (a, b)
    case (Null, Null) => true
    case (Bool(x), Bool(y)) => x == y
    case (Number(x), Number(y)) =>
      Finite(x) && Finite(y) && -0.000001 < NumberValue(x) - NumberValue(y) < 0.000001
    case (Str(x), Str(y)) => x == y
    case (Array(x), Array(y)) => |x| == |y| && forall i :: 0 <= i < |x| ==> Agree(x[i], y[i])
    case (Object(x), Object(y)) =>
      && NameSet(x) == NameSet(y)
      && (forall i, j :: 0 <= i < |x| && 0 <= j < |y| && x[i].name == y[j].name ==> Agree(x[i].value, y[j].value))
    case _ => false
  }

  lemma LastIndexDistinct(names: seq<cstring>, i: nat)
    requires Distinct(names) && i < |names|
    ensures LastIndex(names, names[i]) == i
  {
  }

  /** Equal counts and one inclusion make two lists of distinct names the same set. */
  lemma SameNames(x: seq<cstring>, y: seq<cstring>)
    requires Distinct(x) && Distinct(y)
    requires forall n :: n in x ==> n in y
    ensures |x| == |y| <==> (set n | n in x) == (set n | n in y)
  {
    var sx, sy := set n | n in x, set n | n in y;
    NameSetSize(x);
    NameSetSize(y);
    assert sx <= sy;
    if n :| n in sy && n !in sx {
      SubsetSize(sx, sy - {n});
    } else {
      assert sy <= sx;
    }
  }

  /** The left-to-right comparison decides agreement of trees without repeated names. */
  lemma {:induction false} EqualsIffAgree(a: JSON, b: JSON)
    requires DistinctTree(a) && DistinctTree(b)
    ensures ValueEquals(a, b) <==> Agree(a, b)
  {
    match (a, b)
    case (Array(x), Array(y)) =>
      forall i | 0 <= i < |x| && |x| == |y|
        ensures ValueEquals(x[i], y[i]) <==> Agree(x[i], y[i])
      {
        EqualsIffAgree(x[i], y[i]);
      }
    case (Object(x), Object(y)) =>
      forall i, j | 0 <= i < |x| && 0 <= j < |y|
        ensures ValueEquals(x[i].value, y[j].value) <==> Agree(x[i].value, y[j].value)
      {
        EqualsIffAgree(x[i].value, y[j].value);
      }
      ObjectsEqualIffAgree(x, y);
    case _ =>
  }

  lemma ObjectsEqualIffAgree(x: Items<JSON>, y: Items<JSON>)
    requires Distinct(Names(x)) && Distinct(Names(y))
    requires forall i, j :: 0 <= i < |x| && 0 <= j < |y| ==>
               (ValueEquals(x[i].value, y[j].value) <==> Agree(x[i].value, y[j].value))
    ensures ValueEquals(Object(x), Object(y)) <==> Agree(Object(x), Object(y))
  {
    var nx, ny := Names(x), Names(y);
    forall i | 0 <= i < |x|
      ensures LastIndex(nx, x[i].name) == i
    {
      LastIndexDistinct(nx, i);
    }
    forall j | 0 <= j < |y|
      ensures LastIndex(ny, y[j].name) == j
    {
      LastIndexDistinct(ny, j);
    }
    var included := forall n :: n in nx ==> n in ny;
    assert NameSet(x) == NameSet(y) ==> included by {
      if NameSet(x) == NameSet(y) {
        assert forall n :: n in nx ==> n in NameSet(y);
      }
    }
    if included {
      SameNames(nx, ny);
      ObjectsMatch(x, y);
    } else {
      var n :| n in nx && n !in ny;
      var i :| 0 <= i < |nx| && nx[i] == n;
      assert x[i].name == n && LastIndex(ny, x[i].name) < 0;
    }
  }

  /** With names included and counts equal, looking up each left name visits each common pair once. */
  lemma ObjectsMatch(x: Items<JSON>, y: Items<JSON>)
    requires forall i :: 0 <= i < |x| ==> LastIndex(Names(x), x[i].name) == i
    requires forall j :: 0 <= j < |y| ==> LastIndex(Names(y), y[j].name) == j
    requires forall n :: n in Names(x) ==> n in Names(y)
    requires |x| == |y| <==> NameSet(x) == NameSet(y)
    requires forall i, j :: 0 <= i < |x| && 0 <= j < |y| ==>
               (ValueEquals(x[i].value, y[j].value) <==> Agree(x[i].value, y[j].value))
    ensures ValueEquals(Object(x), Object(y)) <==> Agree(Object(x), Object(y))
  {
    forall i | 0 <= i < |x|
      ensures var k := LastIndex(Names(y), x[i].name); 0 <= k < |y| && y[k].name == x[i].name
    {
      assert Names(x)[i] in Names(y);
    }
  }

  lemma {:induction false} AgreeSymmetric(a: JSON, b: JSON)
    requires Agree(a, b)
    ensures Agree(b, a)
  {
    match (a, b)
    case (Array(x), Array(y)) =>
      forall i | 0 <= i < |x|
        ensures Agree(y[i], x[i])
      {
        AgreeSymmetric(x[i], y[i]);
      }
    case (Object(x), Object(y)) =>
      forall i, j | 0 <= i < |y| && 0 <= j < |x| && y[i].name == x[j].name
        ensures Agree(y[i].value, x[j].value)
      {
        AgreeSymmetric(x[j].value, y[i].value);
      }
    case _ =>
  }

  /** Comparison is symmetric although it walks only the names on its left. */
  lemma EqualsSymmetric(a: JSON, b: JSON)
    requires DistinctTree(a) && DistinctTree(b)
    ensures ValueEquals(a, b) <==> ValueEquals(b, a)
  {
    EqualsIffAgree(a, b);
    EqualsIffAgree(b, a);
    if Agree(a, b) {
      AgreeSymmetric(a, b);
    }
    if Agree(b, a) {
      AgreeSymmetric(b, a);
    }
  }

  /** With a repeated name, which the parser lets through, it is not. */
  lemma EqualsOneSided(n: cstring, m: cstring)
    requires n != m
    ensures ValueEquals(Object([Item(n, Null), Item(n, Null)]), Object([Item(n, Null), Item(m, Null)]))
    ensures !ValueEquals(Object([Item(n, Null), Item(m, Null)]), Object([Item(n, Null), Item(n, Null)]))
  {
    var x, y := [Item(n, Null), Item(n, Null)], [Item(n, Null), Item(m, Null)];
    assert LastIndex(Names(x), n) == 1;
    assert Names(y)[0] == n && LastIndex(Names(y), n) == 0;
    assert y[1].name == m && LastIndex(Names(x), m) == -1;
  }

  // Exactly when comparison is symmetric

  /** Every number that lookups reach is finite; a tree that is not so equals nothing. */
  predicate Comparable(v: JSON) {
    match v
    case Number(l) => Finite(l)
    case Array(items) => forall i :: 0 <= i < |items| ==> Comparable(items[i])
    case Object(members) =>
      forall i :: 0 <= i < |members| ==>
        var k := LastIndex(Names(members), members[i].name);
        k >= 0 ==> Comparable(members[k].value)
    case _ => true
  }

  lemma OwnIndex(items: Items<JSON>, i: nat)
    requires i < |items|
    ensures var k := LastIndex(Names(items), items[i].name);
            i <= k < |items| && items[k].name == items[i].name
  {
    assert Names(items)[i] == items[i].name;
  }

  /** Only comparable trees equal anything, and they equal themselves. */
  lemma {:induction false} EqualsNeedsComparable(a: JSON, b: JSON)
    ensures ValueEquals(a, b) ==> Comparable(a)
  {
    match (a, b)
    case (Array(x), Array(y)) =>
      forall i | 0 <= i < |x| && |x| == |y| ensures ValueEquals(x[i], y[i]) ==> Comparable(x[i]) {
        EqualsNeedsComparable(x[i], y[i]);
      }
    case (Object(x), Object(y)) =>
      forall j, k | 0 <= j < |x| && 0 <= k < |y|
        ensures ValueEquals(x[j].value, y[k].value) ==> Comparable(x[j].value)
      {
        EqualsNeedsComparable(x[j].value, y[k].value);
      }
    case _ =>
  }

  lemma {:induction false} ComparableEqualsItself(a: JSON)
    requires Comparable(a)
    ensures ValueEquals(a, a)
  {
    match a
    case Array(x) =>
      forall i | 0 <= i < |x| ensures ValueEquals(x[i], x[i]) {
        ComparableEqualsItself(x[i]);
      }
    case Object(x) =>
      forall i | 0 <= i < |x|
        ensures var k := LastIndex(Names(x), x[i].name); k >= 0 && ValueEquals(x[k].value, x[k].value)
      {
        OwnIndex(x, i);
        ComparableEqualsItself(x[LastIndex(Names(x), x[i].name)].value);
      }
    case _ =>
  }

  /** As many names as entries means that none is repeated. */
  lemma {:induction false} FullSetIsDistinct(names: seq<cstring>)
    ensures |set n | n in names| <= |names|
    ensures |set n | n in names| == |names| ==> Distinct(names)
  {
    if names != [] {
      var rest, last := names[..|names| - 1], names[|names| - 1];
      FullSetIsDistinct(rest);
      assert names == rest + [last];
      var all, some := set n | n in names, set n | n in rest;
      assert all == some + {last};
      if last in rest {
        assert all == some;
      }
    }
  }

  /** What equals a tree with distinct names has distinct names, too. */
  lemma {:induction false} EqualsKeepsDistinct(a: JSON, b: JSON)
    requires DistinctTree(a) && ValueEquals(a, b)
    ensures DistinctTree(b)
  {
    match (a, b)
    case (Array(x), Array(y)) =>
      forall v | v in y ensures DistinctTree(v) {
        var i :| 0 <= i < |y| && y[i] == v;
        EqualsKeepsDistinct(x[i], y[i]);
      }
    case (Object(x), Object(y)) =>
      SameNameSets(x, y);
      forall m | m in y ensures DistinctTree(m.value) {
        var j :| 0 <= j < |y| && y[j] == m;
        assert Names(y)[j] in NameSet(x);
        var i :| 0 <= i < |x| && Names(x)[i] == m.name;
        LastIndexDistinct(Names(x), i);
        LastIndexDistinct(Names(y), j);
        EqualsKeepsDistinct(x[i].value, y[j].value);
      }
    case _ =>
  }

  lemma SameNameSets(x: Items<JSON>, y: Items<JSON>)
    requires Distinct(Names(x)) && ValueEquals(Object(x), Object(y))
    ensures NameSet(x) == NameSet(y) && Distinct(Names(y))
  {
    forall n | n in NameSet(x) ensures n in NameSet(y) {
      var i :| 0 <= i < |x| && Names(x)[i] == n;
      assert LastIndex(Names(y), x[i].name) >= 0;
    }
    NameSetSize(Names(x));
    FullSetIsDistinct(Names(y));
    SubsetSize(NameSet(x), NameSet(y));
    if n :| n in NameSet(y) && n !in NameSet(x) {
      SubsetSize(NameSet(x), NameSet(y) - {n});
    }
  }

  /** A name longer than all of these. */
  function LongName(names: seq<cstring>): (r: cstring)
    ensures r !in names && forall n :: n in names ==> |n| < |r|
  {
    if names == [] then [0x61]
    else
      var r: cstring := LongName(names[1..]) + names[0] + [0x61];
      assert names == [names[0]] + names[1..];
      r
  }

  lemma ObjectsUnfold(x: Items<JSON>, y: Items<JSON>)
    ensures ValueEquals(Object(x), Object(y)) <==>
            && |x| == |y|
            && (forall i :: 0 <= i < |x| ==>
                  var j, k := LastIndex(Names(x), x[i].name), LastIndex(Names(y), x[i].name);
                  j >= 0 && k >= 0 && ValueEquals(x[j].value, y[k].value))
  {
  }

  lemma ArraysUnfold(x: seq<JSON>, y: seq<JSON>)
    ensures ValueEquals(Array(x), Array(y)) <==> |x| == |y| && forall i :: 0 <= i < |x| ==> ValueEquals(x[i], y[i])
  {
  }

  /** With a repeated name somewhere there is a tree that the comparison takes for equal from one side only. */
  lemma {:induction false} OneSided(a: JSON) returns (b: JSON)
    requires !DistinctTree(a) && ValueEquals(a, a)
    ensures ValueEquals(a, b) && !ValueEquals(b, a)
  {
    hide ValueEquals, LastIndex;
    match a
    case Array(x) =>
      var v :| v in x && !DistinctTree(v);
      var i :| 0 <= i < |x| && x[i] == v;
      ArraysUnfold(x, x);
      var c := OneSided(x[i]);
      b := Array(x[i := c]);
      ArraysUnfold(x, x[i := c]);
      ArraysUnfold(x[i := c], x);
      assert x[i := c][i] == c;
    case Object(x) =>
      if Distinct(Names(x)) {
        var m :| m in x && !DistinctTree(m.value);
        var i :| 0 <= i < |x| && x[i] == m;
        LastIndexDistinct(Names(x), i);
        ObjectsUnfold(x, x);
        var c := OneSided(x[i].value);
        b := Object(x[i := Item(m.name, c)]);
        ChangedBelow(x, i, c);
      } else {
        var p, q :| 0 <= p < q < |x| && Names(x)[p] == Names(x)[q];
        b := Object(x[p := Item(LongName(Names(x)), Null)]);
        Renamed(x, p, q);
      }
    case _ =>
  }

  lemma ChangedBelow(x: Items<JSON>, i: nat, c: JSON)
    requires ValueEquals(Object(x), Object(x)) && Distinct(Names(x))
    requires i < |x| && ValueEquals(x[i].value, c) && !ValueEquals(c, x[i].value)
    ensures var y := x[i := Item(x[i].name, c)];
            ValueEquals(Object(x), Object(y)) && !ValueEquals(Object(y), Object(x))
  {
    hide ValueEquals, LastIndex;
    var y := x[i := Item(x[i].name, c)];
    assert Names(y) == Names(x);
    forall j | 0 <= j < |x| ensures LastIndex(Names(x), x[j].name) == j {
      LastIndexDistinct(Names(x), j);
    }
    ObjectsUnfold(x, x);
    ObjectsUnfold(x, y);
    ObjectsUnfold(y, x);
    assert y[i].name == x[i].name;
  }

  lemma Renamed(x: Items<JSON>, p: nat, q: nat)
    requires ValueEquals(Object(x), Object(x)) && p < q < |x| && x[p].name == x[q].name
    ensures var y := x[p := Item(LongName(Names(x)), Null)];
            ValueEquals(Object(x), Object(y)) && !ValueEquals(Object(y), Object(x))
  {
    hide ValueEquals, LastIndex, LongName;
    var f := LongName(Names(x));
    var y := x[p := Item(f, Null)];
    assert Names(y) == Names(x)[p := f];
    forall i | 0 <= i < |x|
      ensures LastIndex(Names(y), x[i].name) == LastIndex(Names(x), x[i].name) != p
    {
      assert Names(x)[i] in Names(x);
      SameLastIndex(Names(x), p, q, f, x[i].name);
    }
    ObjectsUnfold(x, x);
    ObjectsUnfold(x, y);
    ObjectsUnfold(y, x);
    assert y[p].name == f && LastIndex(Names(x), f) < 0;
  }

  lemma SameLastIndex(names: seq<cstring>, p: nat, q: nat, f: cstring, n: cstring)
    requires p < q < |names| && names[p] == names[q] && f !in names && n in names
    ensures LastIndex(names[p := f], n) == LastIndex(names, n) != p
  {
    var k, l := LastIndex(names, n), LastIndex(names[p := f], n);
    assert k >= 0 by {
      var i :| 0 <= i < |names| && names[i] == n;
    }
    assert k != p && names[p := f][k] == n;
    assert l >= 0 && l != p && names[l] == n;
  }

  /** Comparison of a tree with anything is symmetric exactly when no object of it repeats a name, or
      when it holds a number that is not finite, so that it equals nothing. */
  lemma SymmetricIff(a: JSON)
    ensures (forall b :: ValueEquals(a, b) ==> ValueEquals(b, a)) <==> DistinctTree(a) || !Comparable(a)
  {
    if DistinctTree(a) {
      forall b | ValueEquals(a, b) ensures ValueEquals(b, a) {
        EqualsKeepsDistinct(a, b);
        EqualsSymmetric(a, b);
      }
    } else if Comparable(a) {
      ComparableEqualsItself(a);
      var b := OneSided(a);
      assert ValueEquals(a, b) && !ValueEquals(b, a);
    } else {
      forall b ensures !ValueEquals(a, b) {
        EqualsNeedsComparable(a, b);
      }
    }
  }

  // Copying

  /** `json_value_deep_copy`: names in order, each value fetched by name. */
  function DeepCopy(v: JSON): JSON {
    match v
    case Array(items) => Array(seq(|items|, i requires 0 <= i < |items| => DeepCopy(items[i])))
    case Object(members) =>
      Object(seq(|members|, i requires 0 <= i < |members| =>
        var k := LastIndex(Names(members), members[i].name);
        Item(members[i].name, if k < 0 then Null else DeepCopy(members[k].value))))
    case _ => v
  }

  /** A copy equals its original, member order included. */
  lemma {:induction false} DeepCopyIsIdentity(v: JSON)
    requires DistinctTree(v)
    ensures DeepCopy(v) == v
  {
    match v
    case Array(items) =>
      forall i | 0 <= i < |items|
        ensures DeepCopy(items[i]) == items[i]
      {
        DeepCopyIsIdentity(items[i]);
      }
    case Object(members) =>
      forall i | 0 <= i < |members|
        ensures DeepCopy(v).members[i] == members[i]
      {
        LastIndexDistinct(Names(members), i);
        DeepCopyIsIdentity(members[i].value);
      }
    case _ =>
  }
}

/** JSON objects that hold each other, updated in place by dotted path, and copied. */
module ObjectTree {
  import opened Bytes
  import opened ItemList
  import opened JsonText
  import opened JsonTree

  /** What an object binds a name to: another object, or a value that is none. */
  datatype Node = Plain(value: JSON) | Nested(child: TreeObject)

  ghost function Foot(n: Node): set<TreeObject>
    reads (if n.Nested? then {n.child} else {})
  {
    if n.Nested? then n.child.Repr else {}
  }

  /** A value ready to be stored: nested objects are well formed. */
  ghost predicate Proper(n: Node)
    reads (if n.Nested? then {n.child} + n.child.Repr else {})
  {
    match n
    case Plain(v) => !v.Object?
    case Nested(o) => o.Valid()
  }

  ghost function ValueOf(n: Node): JSON
    requires Proper(n)
    reads (if n.Nested? then {n.child} + n.child.Repr else {})
  {
    match n
    case Plain(v) => v
    case Nested(o) => Object(o.Members())
  }

  lemma CopyUnfolds(items: Items<JSON>, i: nat)
    requires i < |items|
    ensures var k := LastIndex(Names(items), items[i].name);
            DeepCopy(Object(items)).Object? && |DeepCopy(Object(items)).members| == |items|
            && 0 <= k && DeepCopy(Object(items)).members[i] == Item(items[i].name, DeepCopy(items[k].value))
  {
    assert Names(items)[i] == items[i].name;
  }

  lemma PlainStaysPlain(v: JSON)
    ensures DeepCopy(v).Object? <==> v.Object?
  {
  }

  lemma DotSetSteps(items: Items<JSON>, path: cstring, value: JSON)
    ensures DotPosition(path) < 0 ==> DotSet(items, path, value) == Some(Put(items, path, value))
    ensures DotPosition(path) >= 0 ==>
              var k := LastIndex(Names(items), Head(path));
              var members := if k >= 0 && items[k].value.Object? then items[k].value.members else [];
              var inner := DotSet(members, Rest(path), value);
              DotSet(items, path, value)
              == if inner.None? || (k >= 0 && !items[k].value.Object?) then None
                 else if k < 0 then Some(items + [Item(Head(path), Object(inner.value))])
                 else Some(items[k := Item(Head(path), Object(inner.value))])
  {
  }

  class TreeObject {
    var names: seq<cstring>
    var values: seq<Node>
    ghost var Repr: set<TreeObject>

    constructor ()
      ensures Valid() && Members() == [] && Repr == {this}
    {
      names, values, Repr := [], [], {this};
    }

    /** Nested objects form a tree: no two of them share an object, and none leads back here. */
    ghost predicate Valid()
      reads this, Repr
      decreases Repr
    {
      && this in Repr && |names| == |values|
      && (forall i :: 0 <= i < |values| && values[i].Plain? ==> !values[i].value.Object?)
      && (forall i :: 0 <= i < |values| && values[i].Nested? ==>
            && values[i].child in Repr && values[i].child.Repr <= Repr && this !in values[i].child.Repr
            && values[i].child.Valid())
      && (forall i, j :: 0 <= i < j < |values| && values[i].Nested? && values[j].Nested? ==>
            values[i].child.Repr !! values[j].child.Repr)
    }

    ghost function At(i: nat): JSON
      requires Valid() && i < |values|
      reads this, Repr
      decreases Repr, 0
    {
      match values[i]
      case Plain(v) => v
      case Nested(o) => Object(o.Members())
    }

    /** The value this object stands for. */
    ghost function Members(): (m: Items<JSON>)
      requires Valid()
      reads this, Repr
      ensures |m| == |names|
      ensures forall i :: 0 <= i < |m| ==> m[i].name == names[i]
      decreases Repr, 1
    {
      seq(|names|, i requires 0 <= i < |names| && Valid() reads this, Repr => Item(names[i], At(i)))
    }

    method Overwrite(k: nat, n: Node)
      requires Valid() && k < |values| && Proper(n) && Foot(n) !! Repr
      modifies this
      ensures Valid() && Repr == old(Repr) + Foot(n) && names == old(names)
      ensures Members() == old(Members())[k := Item(names[k], ValueOf(n))]
    {
      values := values[k := n];
      Repr := Repr + Foot(n);
      assert Valid();
      hide Proper;
      forall i | 0 <= i < |names| && i != k ensures At(i) == old(At(i)) {
        assert values[i] == old(values)[i];
      }
      assert Members() == old(Members())[k := Item(names[k], ValueOf(n))];
    }

    /** `json_object_add` of a new name. */
    method Append(name: cstring, n: Node)
      requires Valid() && Proper(n) && Foot(n) !! Repr
      modifies this
      ensures Valid() && Repr == old(Repr) + Foot(n)
      ensures Proper(n) && Foot(n) == old(Foot(n)) && ValueOf(n) == old(ValueOf(n))
      ensures Members() == old(Members()) + [Item(name, ValueOf(n))]
    {
      names := names + [name];
      values := values + [n];
      Repr := Repr + Foot(n);
      assert Valid();
      hide Proper;
      forall i | 0 <= i < |names| - 1 ensures At(i) == old(At(i)) {
        assert values[i] == old(values)[i];
      }
      assert Members() == old(Members()) + [Item(name, ValueOf(n))];
    }

    /** `json_object_set_value` */
    method Set(name: cstring, n: Node)
      requires Valid() && Proper(n) && Foot(n) !! Repr
      modifies this
      ensures Valid() && Repr == old(Repr) + Foot(n)
      ensures Members() == Put(old(Members()), name, ValueOf(n))
    {
      hide Members, Proper, ValueOf;
      var k := LastIndex(names, name);
      OwnNames();
      if k >= 0 {
        Overwrite(k, n);
      } else {
        Append(name, n);
      }
    }
  
    /** After the object at `k` changed within its own part of the tree, this object stands for that change alone. */
    twostate lemma OnlyChildChanged(k: nat)
      requires old(Valid()) && k < |values| && values == old(values) && names == old(names) && values[k].Nested?
      requires var c := values[k].child;
               && Repr == old(Repr) + c.Repr && c.Valid()
               && (forall x :: x in c.Repr && x !in old(c.Repr) ==> x !in old(Repr))
               && (forall x {:trigger x in old(Repr)} ::
                     x in old(Repr) && x !in old(c.Repr) && x != this ==> unchanged(x))
      ensures Valid() && Members() == old(Members())[k := Item(names[k], Object(values[k].child.Members()))]
    {
      var c := values[k].child;
      forall i | 0 <= i < |values| && i != k && values[i].Nested?
        ensures values[i].child.Repr == old(values[i].child.Repr) && values[i].child.Valid()
        ensures values[i].child.Members() == old(values[i].child.Members())
        ensures values[i].child.Repr !! c.Repr
      {
        var d := values[i].child;
        assert d.Repr !! old(c.Repr);
        assert forall x :: x in old(d.Repr) ==> unchanged(x);
      }
      assert Valid();
      forall i | 0 <= i < |names| && i != k ensures At(i) == old(At(i)) {
      }
      assert Members() == old(Members())[k := Item(names[k], Object(c.Members()))];
    }

    lemma Bound(k: nat)
      requires Valid() && k < |values|
      ensures Members()[k].name == names[k]
      ensures values[k].Plain? ==> Members()[k].value == values[k].value && !values[k].value.Object?
      ensures values[k].Nested? ==>
                var c := values[k].child;
                c in Repr && c.Repr <= Repr && this !in c.Repr && c.Valid() && Members()[k].value == Object(c.Members())
    {
    }

    /** The set goes on in the object bound at `k`. */
    method SetBelow(k: nat, path: cstring, n: Node) returns (ok: bool)
      requires Valid() && Proper(n) && Foot(n) !! Repr && k < |values| && values[k].Nested?
      modifies Repr
      ensures Valid() && forall x :: x in Repr ==> x in old(Repr) || x in old(Foot(n)) || fresh(x)
      ensures Proper(n) && Foot(n) == old(Foot(n)) && ValueOf(n) == old(ValueOf(n))
      ensures var r := DotSet(old(values[k].child.Members()), path, ValueOf(n));
              && (ok <==> r.Some?)
              && Members() == if ok then old(Members())[k := Item(old(names[k]), Object(r.value))] else old(Members())
      decreases |path|, 1
    {
      Bound(k);
      ghost var c := values[k].child;
      hide Valid, Members, Proper, ValueOf, DotSet, Foot;
      ok := values[k].child.DotSetValue(path, n);
      Repr := Repr + c.Repr;
      OnlyChildChanged(k);
      assert old(Members())[k] == Item(old(names[k]), Object(old(c.Members())));
    }

    /** A new object, set by the rest of the path. */
    static method Build(path: cstring, n: Node) returns (ok: bool, inner: TreeObject)
      requires Proper(n)
      ensures inner.Valid() && forall x :: x in inner.Repr ==> x in Foot(n) || fresh(x)
      ensures ok <==> DotSet([], path, ValueOf(n)).Some?
      ensures ok ==> inner.Members() == DotSet([], path, ValueOf(n)).value
      decreases |path|, 1
    {
      hide DotSet;
      inner := new TreeObject();
      ok := inner.DotSetValue(path, n);
    }

    /** The set stores a new object under a new name. */
    method SetInNew(name: cstring, path: cstring, n: Node) returns (ok: bool)
      requires Valid() && Proper(n) && Foot(n) !! Repr
      modifies this
      ensures Valid() && forall x :: x in Repr ==> x in old(Repr) || x in old(Foot(n)) || fresh(x)
      ensures Proper(n) && Foot(n) == old(Foot(n)) && ValueOf(n) == old(ValueOf(n))
      ensures var r := DotSet([], path, ValueOf(n));
              && (ok <==> r.Some?)
              && Members() == if ok then old(Members()) + [Item(name, Object(r.value))] else old(Members())
      decreases |path|, 2
    {
      assert this in Repr && this !in Foot(n);
      hide Valid, Members, DotSet;
      var inner;
      ok, inner := Build(path, n);
      if ok {
        Append(name, Nested(inner));
      }
    }

    /** `json_object_dotset_value`: on failure nothing has changed. */
    method DotSetValue(path: cstring, n: Node) returns (ok: bool)
      requires Valid() && Proper(n) && Foot(n) !! Repr
      modifies Repr
      ensures Valid() && forall x :: x in Repr ==> x in old(Repr) || x in old(Foot(n)) || fresh(x)
      ensures Proper(n) && Foot(n) == old(Foot(n)) && ValueOf(n) == old(ValueOf(n))
      ensures ok <==> DotSet(old(Members()), path, ValueOf(n)).Some?
      ensures Members() == if ok then DotSet(old(Members()), path, ValueOf(n)).value else old(Members())
      decreases |path|, 0
    {
      assert this in Repr && |names| == |values|;
      hide Valid, Members, Proper, ValueOf, DotSet, Put;
      DotSetSteps(Members(), path, ValueOf(n));
      var dot := DotPosition(path);
      if dot < 0 {
        Set(path, n);
        return true;
      }
      var head, rest: cstring := path[..dot], path[dot + 1..];
      var k := LastIndex(names, head);
      OwnNames();
      if k < 0 {
        ok := SetInNew(head, rest, n);
        return;
      }
      Bound(k);
      if values[k].Plain? {
        return false;
      }
      ok := SetBelow(k, rest, n);
    }

    lemma OwnNames()
      requires Valid()
      ensures this in Repr && |names| == |values| && Names(Members()) == names
    {
    }

    lemma DotGetSteps(path: cstring)
      requires Valid()
      ensures var k := LastIndex(names, if DotPosition(path) < 0 then path else path[..DotPosition(path)]);
              var found := DotGet(Members(), path);
              && k < |values| == |names|
              && (k < 0 ==> found.None?)
              && (k >= 0 ==>
                    if DotPosition(path) < 0 then found == Some(ValueOf(values[k])) && Proper(values[k])
                    else if values[k].Plain? then found.None?
                    else (&& values[k].child.Valid()
                          && found == DotGet(values[k].child.Members(), path[DotPosition(path) + 1..])))
              && (k >= 0 ==> Foot(values[k]) <= Repr)
              && (k >= 0 && values[k].Nested? ==> values[k].child in Repr && values[k].child.Repr <= Repr)
    {
      OwnNames();
      var k := LastIndex(names, if DotPosition(path) < 0 then path else path[..DotPosition(path)]);
      if k >= 0 {
        Bound(k);
      }
      hide Members;
    }

    /** `json_object_dotget_value` */
    method DotGetValue(path: cstring) returns (r: Option<Node>)
      requires Valid()
      ensures r.Some? <==> DotGet(Members(), path).Some?
      ensures r.Some? ==> Proper(r.value) && Foot(r.value) <= Repr && ValueOf(r.value) == DotGet(Members(), path).value
      decreases |path|
    {
      hide *;
      DotGetSteps(path);
      var dot := DotPosition(path);
      var k := LastIndex(names, if dot < 0 then path else path[..dot]);
      if k < 0 {
        return None;
      }
      if dot < 0 {
        return Some(values[k]);
      }
      if values[k].Plain? {
        return None;
      }
      r := values[k].child.DotGetValue(path[dot + 1..]);
    }

    lemma CopiedAt(i: nat)
      requires Valid() && i < |names|
      ensures var k, copied := LastIndex(names, names[i]), DeepCopy(Object(Members()));
              && 0 <= k < |values| && copied.Object? && |copied.members| == |names| == |values|
              && Proper(values[k]) && Foot(values[k]) < Repr
              && copied.members[i] == Item(names[i], DeepCopy(ValueOf(values[k])))
    {
      OwnNames();
      CopyUnfolds(Members(), i);
      Bound(LastIndex(names, names[i]));
      Bound(i);
    }

    /** One turn of the copying loop. */
    method CopyTo(c: TreeObject, i: nat)
      requires Valid() && i < |names| && c.Valid() && c !in Repr
      modifies c
      ensures c.Valid() && forall x :: x in c.Repr ==> x in old(c.Repr) || fresh(x)
      ensures c.Members() == old(c.Members()) + [DeepCopy(Object(old(Members()))).members[i]]
      decreases Repr, 0
    {
      CopiedAt(i);
      hide Valid, Members, DeepCopy, Proper, ValueOf, Foot, LastIndex;
      var n := CopyNode(values[LastIndex(names, names[i])]);
      c.Append(names[i], n);
    }

    lemma CopiedMembers() returns (copied: Items<JSON>)
      requires Valid()
      ensures DeepCopy(Object(Members())) == Object(copied) && |copied| == |names| == |values|
    {
      hide Valid;
      copied := DeepCopy(Object(Members())).members;
      OwnNames();
    }

    /** The copying loop. */
    method CopyAll(c: TreeObject, ghost copied: Items<JSON>)
      requires Valid() && c.Valid() && c !in Repr && c.Members() == []
      requires DeepCopy(Object(Members())) == Object(copied) && |copied| == |names|
      modifies c
      ensures c.Valid() && c.Members() == copied && forall x :: x in c.Repr ==> x in old(c.Repr) || fresh(x)
      decreases Repr, 1
    {
      hide *;
      for i := 0 to |names|
        invariant c.Valid() && c.Members() == copied[..i]
        invariant forall x :: x in c.Repr ==> x in old(c.Repr) || fresh(x)
      {
        CopyTo(c, i);
        TakeOneMore(copied, i);
      }
      assert copied[..|names|] == copied;
    }

    /** `json_value_deep_copy` of an object: a tree of new objects. */
    method Copy() returns (c: TreeObject)
      requires Valid()
      ensures c.Valid() && (forall x :: x in c.Repr ==> fresh(x)) && Object(c.Members()) == DeepCopy(Object(Members()))
      decreases Repr, 2
    {
      ghost var copied := CopiedMembers();
      hide *;
      c := new TreeObject();
      CopyAll(c, copied);
    }
  }

  /** `json_value_deep_copy` */
  method CopyNode(n: Node) returns (r: Node)
    requires Proper(n)
    ensures Proper(r) && (forall x :: x in Foot(r) ==> fresh(x)) && ValueOf(r) == DeepCopy(ValueOf(n))
    decreases Foot(n), 3
  {
    match n
    case Plain(v) =>
      PlainStaysPlain(v);
      r := Plain(DeepCopy(v));
    case Nested(o) =>
      hide DeepCopy;
      var c := o.Copy();
      r := Nested(c);
  }
}

/** The linked list behind it, updated in place. */
module Handlers {
  import opened Bytes
  import opened Glob
  import opened HandlerModel

  class Node {
    const kind: Kind
    const uri: cstring
    var handler: Handler
    var next: Node?

    constructor (k: Kind, u: cstring, h: Handler)
      ensures kind == k && uri == u && handler == h && next == null
    {
      kind, uri, handler, next := k, u, h, null;
    }
  }

  class Domain {
    var handlers: Node?
    ghost var nodes: seq<Node>

    constructor ()
      ensures Valid() && nodes == []
    {
      handlers, nodes := null, [];
    }

    /** `nodes` is the list that starts at `handlers`, each node once. */
    ghost predicate Valid()
      reads this, nodes
    {
      && handlers == NodeAt(0)
      && (forall i :: 0 <= i < |nodes| ==> nodes[i].next == NodeAt(i + 1))
      && (forall i, j :: 0 <= i < j < |nodes| ==> nodes[i] != nodes[j])
    }

    ghost function NodeAt(i: nat): Node?
      reads this
    {
      if i < |nodes| then nodes[i] else null
    }

    ghost function Entries(): (es: seq<Entry>)
      reads this, nodes
      ensures |es| == |nodes|
    {
      seq(|nodes|,
          i requires 0 <= i < |nodes| reads this, nodes => Entry(nodes[i].kind, nodes[i].uri, nodes[i].handler))
    }

    lemma SearchDone(kind: Kind, uri: cstring, i: nat)
      requires i <= |nodes| && (i < |nodes| ==> nodes[i].kind == kind && nodes[i].uri == uri)
      requires forall j :: 0 <= j < i ==> !(nodes[j].kind == kind && nodes[j].uri == uri)
      ensures Find(Entries(), kind, uri) == i
    {
      FindIs(Entries(), kind, uri, i);
    }

    /** The search that starts every update: the node, and the one whose link leads to it. */
    method Search(kind: Kind, uri: cstring) returns (found: Node?, last: Node?, ghost i: nat)
      requires Valid()
      ensures i == Find(Entries(), kind, uri) && found == NodeAt(i)
      ensures found != null ==> found.kind == kind && found.uri == uri
      ensures if i == 0 then last == null else last == nodes[i - 1]
    {
      hide Entries;
      found, last, i := handlers, null, 0;
      while found != null
        invariant i <= |nodes| && found == NodeAt(i)
        invariant if i == 0 then last == null else last == nodes[i - 1]
        invariant forall j :: 0 <= j < i ==> !(nodes[j].kind == kind && nodes[j].uri == uri)
        decreases |nodes| - i
      {
        if found.kind == kind {
          if found.uri == uri {
            SearchDone(kind, uri, i);
            return;
          }
        }
        last := found;
        found := found.next;
        i := i + 1;
      }
      SearchDone(kind, uri, i);
    }

    /** `set_handler_type` */
    method SetHandlerType(uri: cstring, kind: Kind, delete: bool, h: Handler)
      requires Valid()
      modifies this, nodes
      ensures Valid() && forall n :: n in nodes ==> n in old(nodes) || fresh(n)
      ensures Entries() == Apply(old(Entries()), kind, uri, delete, h)
    {
      hide Entries, Accepts, Relevant, Find;
      if !Accepts(kind, h, delete) {
        return;
      }
      var found, last, i := Search(kind, uri);
      hide Valid;
      if found != null {
        if !delete {
          Update(found, i, Relevant(kind, h));
        } else {
          Unlink(found, last, i);
        }
        return;
      }
      if delete {
        return;
      }
      var n := new Node(kind, uri, Relevant(kind, h));
      Append(n, last);
    }

    method Update(found: Node, ghost i: nat, h: Handler)
      requires Valid() && i < |nodes| && found == nodes[i]
      modifies nodes
      ensures Valid() && nodes == old(nodes)
      ensures Entries() == old(Entries())[i := Entry(found.kind, found.uri, h)]
    {
      ghost var es := Entries();
      found.handler := h;
      assert Entries() == es[i := Entry(found.kind, found.uri, h)];
    }

    twostate lemma EntriesWithout(i: nat)
      requires i < |old(nodes)| && nodes == old(nodes[..i] + nodes[i + 1..])
      requires forall n :: n in nodes ==> n.handler == old(n.handler)
      ensures Entries() == old(Entries()[..i] + Entries()[i + 1..])
    {
    }

    lemma WithoutAt(s: seq<Node>, i: nat)
      requires i < |s|
      ensures var t := s[..i] + s[i + 1..];
              && |t| == |s| - 1
              && (forall j :: 0 <= j < |t| ==> t[j] == s[if j < i then j else j + 1])
    {
    }

    /** The node's place is taken by the rest of the list. */
    method CutOut(found: Node, last: Node?, ghost i: nat)
      requires Valid() && i < |nodes| && found == nodes[i]
      requires if i == 0 then last == null else last == nodes[i - 1]
      modifies this, nodes
      ensures Valid() && nodes == old(nodes[..i] + nodes[i + 1..])
      ensures forall n :: n in nodes ==> n.handler == old(n.handler)
    {
      if last == null {
        handlers := found.next;
      } else {
        last.next := found.next;
      }
      WithoutAt(nodes, i);
      nodes := nodes[..i] + nodes[i + 1..];
    }

    method Unlink(found: Node, last: Node?, ghost i: nat)
      requires Valid() && i < |nodes| && found == nodes[i]
      requires if i == 0 then last == null else last == nodes[i - 1]
      modifies this, nodes
      ensures Valid() && nodes == old(nodes[..i] + nodes[i + 1..])
      ensures Entries() == old(Entries()[..i] + Entries()[i + 1..])
    {
      hide Entries;
      CutOut(found, last, i);
      hide Valid, NodeAt;
      EntriesWithout(i);
    }

    method Append(n: Node, last: Node?)
      requires Valid() && n !in nodes && n.next == null
      requires if nodes == [] then last == null else last == nodes[|nodes| - 1]
      modifies this, nodes
      ensures Valid() && nodes == old(nodes) + [n]
      ensures Entries() == old(Entries()) + [Entry(n.kind, n.uri, n.handler)]
    {
      ghost var es := Entries();
      if last == null {
        handlers := n;
      } else {
        last.next := n;
      }
      nodes := nodes + [n];
      assert Entries() == es + [Entry(n.kind, n.uri, n.handler)];
    }

    lemma EntryTail(i: nat)
      requires i < |nodes|
      ensures var es, n := Entries(), nodes[i];
              es[i..] != [] && es[i..][0] == Entry(n.kind, n.uri, n.handler) && es[i..][1..] == es[i + 1..]
    {
    }

    method FindCovering(kind: Kind, uri: cstring) returns (r: Option<Handler>)
      requires Valid()
      ensures r == FirstCovering(Entries(), kind, uri)
    {
      hide Entries;
      var n := handlers;
      ghost var i := 0;
      assert Entries()[0..] == Entries();
      while n != null
        invariant i <= |nodes| && n == NodeAt(i)
        invariant FirstCovering(Entries(), kind, uri) == FirstCovering(Entries()[i..], kind, uri)
        decreases |nodes| - i
      {
        EntryTail(i);
        if n.kind == kind {
          if |n.uri| < |uri| && uri[|n.uri|] == SLASH && n.uri == uri[..|n.uri|] {
            return Some(n.handler);
          }
        }
        n := n.next;
        i := i + 1;
      }
      assert Entries()[i..] == [];
      return None;
    }

    method FindFitting(kind: Kind, uri: cstring) returns (r: Option<Handler>)
      requires Valid()
      ensures r == FirstFitting(Entries(), kind, uri)
    {
      hide Result;
      hide Entries;
      var n := handlers;
      ghost var i := 0;
      assert Entries()[0..] == Entries();
      while n != null
        invariant i <= |nodes| && n == NodeAt(i)
        invariant FirstFitting(Entries(), kind, uri) == FirstFitting(Entries()[i..], kind, uri)
        decreases |nodes| - i
      {
        EntryTail(i);
        if n.kind == kind {
          var k := MatchPrefix(n.uri, 0, uri);
          if k > 0 {
            return Some(n.handler);
          }
        }
        n := n.next;
        i := i + 1;
      }
      assert Entries()[i..] == [];
      return None;
    }

    /** `get_request_handler` */
    method GetRequestHandler(kind: Kind, uri: cstring) returns (r: Option<Handler>)
      requires Valid()
      ensures r == Lookup(Entries(), kind, uri)
    {
      var found, _, i := Search(kind, uri);
      if found != null {
        return Some(found.handler);
      }
      r := FindCovering(kind, uri);
      if r == None {
        r := FindFitting(kind, uri);
      }
    }
  }
}

/** The handlers of a domain: what setting, deleting and looking up mean on the list of entries. */
module HandlerModel {
  import opened Bytes
  import opened Glob

  const SLASH: byte := 0x2F

  datatype Kind = RequestHandler | WebsocketHandler | AuthHandler

  /** Callback and data pointers, 0 being NULL. */
  datatype Handler = Handler(request: nat, connect: nat, ready: nat, data: nat, close: nat, auth: nat,
                             subprotocols: nat, cbdata: nat)

  datatype Entry = Entry(kind: Kind, uri: cstring, handler: Handler)

  /** The callbacks fit the kind of handler. */
  predicate Accepts(kind: Kind, h: Handler, delete: bool) {
    var web := h.connect != 0 || h.ready != 0 || h.data != 0 || h.close != 0;
    match kind
    case RequestHandler => !web && h.auth == 0 && (delete || h.request != 0)
    case WebsocketHandler => h.request == 0 && h.auth == 0 && (delete || web)
    case AuthHandler => h.request == 0 && !web && (delete || h.auth != 0)
  }

  /** The pointers that belong to a kind of handler. */
  function Relevant(kind: Kind, h: Handler): Handler {
    match kind
    case RequestHandler => Handler(h.request, 0, 0, 0, 0, 0, 0, h.cbdata)
    case WebsocketHandler => Handler(0, h.connect, h.ready, h.data, h.close, 0, h.subprotocols, h.cbdata)
    case AuthHandler => Handler(0, 0, 0, 0, 0, h.auth, 0, h.cbdata)
  }

  predicate IsFor(e: Entry, kind: Kind, uri: cstring) {
    e.kind == kind && e.uri == uri
  }

  /** Index of the first entry for a kind and URI, or the length. */
  function Find(es: seq<Entry>, kind: Kind, uri: cstring): (i: nat)
    ensures i <= |es| && (i < |es| ==> IsFor(es[i], kind, uri))
    ensures forall j :: 0 <= j < i ==> !IsFor(es[j], kind, uri)
  {
    if es == [] || IsFor(es[0], kind, uri) then 0 else 1 + Find(es[1..], kind, uri)
  }

  /** `set_handler_type` */
  function Apply(es: seq<Entry>, kind: Kind, uri: cstring, delete: bool, h: Handler): seq<Entry> {
    var i := Find(es, kind, uri);
    if !Accepts(kind, h, delete) then es
    else if i < |es| then
      if delete then es[..i] + es[i + 1..] else es[i := Entry(kind, uri, Relevant(kind, h))]
    else if delete then es
    else es + [Entry(kind, uri, Relevant(kind, h))]
  }

  /** The entry serves everything below its URI. */
  predicate Covers(e: Entry, kind: Kind, uri: cstring) {
    e.kind == kind && |e.uri| < |uri| && uri[|e.uri|] == SLASH && e.uri == uri[..|e.uri|]
  }

  predicate Fits(e: Entry, kind: Kind, uri: cstring) {
    e.kind == kind && Result(e.uri, uri) > 0
  }

  function FirstCovering(es: seq<Entry>, kind: Kind, uri: cstring): (r: Option<Handler>)
    ensures r == None <==> forall e :: e in es ==> !Covers(e, kind, uri)
  {
    if es == [] then None
    else if Covers(es[0], kind, uri) then Some(es[0].handler)
    else FirstCovering(es[1..], kind, uri)
  }

  function FirstFitting(es: seq<Entry>, kind: Kind, uri: cstring): (r: Option<Handler>)
    ensures r == None <==> forall e :: e in es ==> !Fits(e, kind, uri)
  {
    if es == [] then None
    else if Fits(es[0], kind, uri) then Some(es[0].handler)
    else FirstFitting(es[1..], kind, uri)
  }

  function Exact(es: seq<Entry>, kind: Kind, uri: cstring): Option<Handler> {
    if Find(es, kind, uri) < |es| then Some(es[Find(es, kind, uri)].handler) else None
  }

  /** `get_request_handler`: the exact URI, then a URI above it, then a pattern. */
  function Lookup(es: seq<Entry>, kind: Kind, uri: cstring): Option<Handler> {
    if Exact(es, kind, uri) != None then Exact(es, kind, uri)
    else if FirstCovering(es, kind, uri) != None then FirstCovering(es, kind, uri)
    else FirstFitting(es, kind, uri)
  }

  /** No two entries for the same kind and URI. */
  ghost predicate Unique(es: seq<Entry>) {
    forall i, j :: 0 <= i < j < |es| ==> !(es[i].kind == es[j].kind && es[i].uri == es[j].uri)
  }

  lemma FindUnique(es: seq<Entry>, kind: Kind, uri: cstring, i: nat)
    requires Unique(es) && i < |es| && IsFor(es[i], kind, uri)
    ensures Find(es, kind, uri) == i
  {
  }

  lemma NotFound(es: seq<Entry>, kind: Kind, uri: cstring)
    requires forall j :: 0 <= j < |es| ==> !IsFor(es[j], kind, uri)
    ensures Exact(es, kind, uri) == None
  {
  }

  lemma ApplyKeepsUnique(es: seq<Entry>, kind: Kind, uri: cstring, delete: bool, h: Handler)
    requires Unique(es)
    ensures Unique(Apply(es, kind, uri, delete, h))
  {
    var i := Find(es, kind, uri);
    var after := Apply(es, kind, uri, delete, h);
    if delete && i < |es| && Accepts(kind, h, delete) {
      assert forall j :: 0 <= j < |after| ==> after[j] == es[if j < i then j else j + 1];
    }
  }

  lemma FindIs(es: seq<Entry>, kind: Kind, uri: cstring, i: nat)
    requires i <= |es| && (i < |es| ==> IsFor(es[i], kind, uri))
    requires forall j :: 0 <= j < i ==> !IsFor(es[j], kind, uri)
    ensures Find(es, kind, uri) == i
  {
  }

  lemma ExactAfterUpdate(es: seq<Entry>, i: nat, e: Entry, k: Kind, u: cstring)
    requires Unique(es) && i < |es| && IsFor(es[i], e.kind, e.uri)
    ensures Exact(es[i := e], k, u) == if IsFor(e, k, u) then Some(e.handler) else Exact(es, k, u)
  {
    hide Find;
    var m := Find(es, k, u);
    assert forall j :: 0 <= j < |es| ==> (IsFor(es[i := e][j], k, u) <==> IsFor(es[j], k, u));
    FindIs(es[i := e], k, u, m);
    if IsFor(e, k, u) {
      FindUnique(es, k, u, i);
    }
  }

  lemma ExactAfterDelete(es: seq<Entry>, i: nat, k: Kind, u: cstring)
    requires Unique(es) && i < |es|
    ensures Exact(es[..i] + es[i + 1..], k, u) == if IsFor(es[i], k, u) then None else Exact(es, k, u)
  {
    hide Find;
    var m, after := Find(es, k, u), es[..i] + es[i + 1..];
    assert forall j :: 0 <= j < |after| ==> after[j] == es[if j < i then j else j + 1];
    if IsFor(es[i], k, u) {
      NotFound(after, k, u);
    } else if m == |es| {
      NotFound(after, k, u);
    } else {
      FindIs(after, k, u, if i < m then m - 1 else m);
    }
  }

  lemma ExactAfterAppend(es: seq<Entry>, e: Entry, k: Kind, u: cstring)
    ensures Exact(es + [e], k, u)
         == if Exact(es, k, u) != None then Exact(es, k, u) else if IsFor(e, k, u) then Some(e.handler) else None
  {
    hide Find;
    var m := Find(es, k, u);
    if m < |es| || IsFor(e, k, u) {
      FindIs(es + [e], k, u, m);
    } else {
      NotFound(es + [e], k, u);
    }
  }

  /** Exact lookup of one URI after a change for another or the same URI. */
  lemma ExactAfterApply(es: seq<Entry>, kind: Kind, uri: cstring, delete: bool, h: Handler, k: Kind, u: cstring)
    requires Unique(es) && Accepts(kind, h, delete)
    ensures Exact(Apply(es, kind, uri, delete, h), k, u)
         == if k != kind || u != uri then Exact(es, k, u) else if delete then None else Some(Relevant(kind, h))
  {
    hide Unique, Accepts, Relevant, Find;
    var i, e := Find(es, kind, uri), Entry(kind, uri, Relevant(kind, h));
    if i < |es| {
      ExactAfterDelete(es, i, k, u);
      ExactAfterUpdate(es, i, e, k, u);
    } else {
      ExactAfterAppend(es, e, k, u);
    }
  }

  // Runs

  datatype Change = Change(kind: Kind, uri: cstring, delete: bool, handler: Handler)

  function Run(es: seq<Entry>, changes: seq<Change>): seq<Entry>
    decreases |changes|
  {
    if changes == [] then es
    else Run(Apply(es, changes[0].kind, changes[0].uri, changes[0].delete, changes[0].handler), changes[1..])
  }

  /** What the accepted changes leave set for a kind and URI, the last one deciding. */
  function LastSet(changes: seq<Change>, kind: Kind, uri: cstring, before: Option<Handler>): Option<Handler>
    decreases |changes|
  {
    if changes == [] then before
    else
      var c := changes[0];
      LastSet(changes[1..], kind, uri,
              if !Accepts(c.kind, c.handler, c.delete) || c.kind != kind || c.uri != uri then before
              else if c.delete then None else Some(Relevant(kind, c.handler)))
  }

  /** Over every run: one entry per kind and URI, and exact lookup gives what was last set and not deleted. */
  lemma {:induction false} RunAgrees(es: seq<Entry>, changes: seq<Change>, kind: Kind, uri: cstring)
    requires Unique(es)
    ensures Unique(Run(es, changes))
    ensures Exact(Run(es, changes), kind, uri) == LastSet(changes, kind, uri, Exact(es, kind, uri))
    decreases |changes|
  {
    if changes != [] {
      var c := changes[0];
      ApplyKeepsUnique(es, c.kind, c.uri, c.delete, c.handler);
      if Accepts(c.kind, c.handler, c.delete) {
        ExactAfterApply(es, c.kind, c.uri, c.delete, c.handler, kind, uri);
      }
      hide Exact, Unique, Apply;
      RunAgrees(Apply(es, c.kind, c.uri, c.delete, c.handler), changes[1..], kind, uri);
    }
  }

  /** A handler that was set serves its URI, whatever other URIs and patterns are there. */
  lemma SetServes(es: seq<Entry>, kind: Kind, uri: cstring, h: Handler)
    requires Unique(es) && Accepts(kind, h, false)
    ensures Lookup(Apply(es, kind, uri, false, h), kind, uri) == Some(Relevant(kind, h))
  {
    ExactAfterApply(es, kind, uri, false, h, kind, uri);
  }

  lemma {:induction false} FirstOfAppended(es: seq<Entry>, e: Entry, kind: Kind, uri: cstring)
    ensures FirstCovering(es + [e], kind, uri)
         == if FirstCovering(es, kind, uri) != None then FirstCovering(es, kind, uri)
            else if Covers(e, kind, uri) then Some(e.handler) else None
    ensures FirstFitting(es + [e], kind, uri)
         == if FirstFitting(es, kind, uri) != None then FirstFitting(es, kind, uri)
            else if Fits(e, kind, uri) then Some(e.handler) else None
    decreases |es|
  {
    hide Covers, Fits;
    if es == [] {
      assert (es + [e])[1..] == [];
    } else {
      assert (es + [e])[1..] == es[1..] + [e];
      FirstOfAppended(es[1..], e, kind, uri);
    }
  }

  /** A new entry takes a URI over from another handler only as the exact one,
      or by covering what only a pattern served. */
  lemma NewEntryComesLast(es: seq<Entry>, kind: Kind, uri: cstring, h: Handler, u: cstring)
    requires Unique(es) && Accepts(kind, h, false) && Exact(es, kind, uri) == None && u != uri
    requires Lookup(es, kind, u) != None
    ensures var e := Entry(kind, uri, Relevant(kind, h));
            var taken := Covers(e, kind, u) && Exact(es, kind, u) == None && FirstCovering(es, kind, u) == None;
            Lookup(Apply(es, kind, uri, false, h), kind, u) == if taken then Some(e.handler) else Lookup(es, kind, u)
  {
    ExactAfterApply(es, kind, uri, false, h, kind, u);
    FirstOfAppended(es, Entry(kind, uri, Relevant(kind, h)), kind, u);
  }
}

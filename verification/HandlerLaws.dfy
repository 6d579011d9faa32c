/** Which handler serves a URI, said of URIs and patterns; and which callbacks belong together. */
module HandlerLaws {
  import opened Bytes
  import opened Glob
  import opened GlobLaws
  import opened HandlerModel

  predicate Names(e: Entry, kind: Kind, u: cstring) {
    e.kind == kind && e.uri == u
  }

  /** The URI lies below the entry's: `uri/something`. */
  predicate LiesBelow(e: Entry, kind: Kind, u: cstring) {
    e.kind == kind && e.uri + [0x2F] <= u
  }

  /** Some alternative of the entry's pattern matches a start of the URI that is not empty. */
  ghost predicate IsMatched(e: Entry, kind: Kind, u: cstring) {
    e.kind == kind && MatchesSome(e.uri, u)
  }

  /** `i` is the first entry with the property. */
  ghost predicate First(es: seq<Entry>, i: nat, p: Entry -> bool) {
    i < |es| && p(es[i]) && forall j :: 0 <= j < i ==> !p(es[j])
  }

  lemma CoversIff(e: Entry, kind: Kind, u: cstring)
    ensures Covers(e, kind, u) <==> LiesBelow(e, kind, u)
  {
    var k := |e.uri|;
    if k < |u| {
      assert e.uri + [0x2F] <= u <==> e.uri + [0x2F] == u[..k + 1];
      assert u[..k + 1] == u[..k] + [u[k]];
      assert (e.uri + [0x2F])[..k] == e.uri && (e.uri + [0x2F])[k] == 0x2F;
    }
  }

  lemma FitsIff(e: Entry, kind: Kind, u: cstring)
    ensures Fits(e, kind, u) <==> IsMatched(e, kind, u)
  {
    hide Result, MatchesSome;
    PositiveIff(e.uri, u);
  }

  lemma {:induction false} CoveringIsFirst(es: seq<Entry>, kind: Kind, u: cstring, i: nat)
    requires i < |es| && Covers(es[i], kind, u) && forall j :: 0 <= j < i ==> !Covers(es[j], kind, u)
    ensures FirstCovering(es, kind, u) == Some(es[i].handler)
    decreases i
  {
    hide Covers;
    if i > 0 {
      CoveringIsFirst(es[1..], kind, u, i - 1);
    }
  }

  lemma {:induction false} FittingIsFirst(es: seq<Entry>, kind: Kind, u: cstring, i: nat)
    requires i < |es| && Fits(es[i], kind, u) && forall j :: 0 <= j < i ==> !Fits(es[j], kind, u)
    ensures FirstFitting(es, kind, u) == Some(es[i].handler)
    decreases i
  {
    hide Fits;
    if i > 0 {
      FittingIsFirst(es[1..], kind, u, i - 1);
    }
  }

  /** A URI is served by the first entry for exactly that URI. */
  lemma ServedExactly(es: seq<Entry>, kind: Kind, u: cstring, i: nat)
    requires First(es, i, e => Names(e, kind, u))
    ensures Lookup(es, kind, u) == Some(es[i].handler)
  {
    forall j | 0 <= j < i ensures !IsFor(es[j], kind, u) {
      assert !Names(es[j], kind, u);
    }
    FindIs(es, kind, u, i);
    hide Find;
  }

  lemma NamedByNone(es: seq<Entry>, kind: Kind, u: cstring)
    requires forall e :: e in es ==> !Names(e, kind, u)
    ensures Exact(es, kind, u) == None
  {
    forall j | 0 <= j < |es| ensures !IsFor(es[j], kind, u) {
      assert !Names(es[j], kind, u);
    }
    NotFound(es, kind, u);
  }

  /** Failing that, by the first one it lies below, whatever patterns there are. */
  lemma ServedFromAbove(es: seq<Entry>, kind: Kind, u: cstring, i: nat)
    requires forall e :: e in es ==> !Names(e, kind, u)
    requires First(es, i, e => LiesBelow(e, kind, u))
    ensures Lookup(es, kind, u) == Some(es[i].handler)
  {
    NamedByNone(es, kind, u);
    forall j | 0 <= j <= i ensures Covers(es[j], kind, u) <==> j == i {
      CoversIff(es[j], kind, u);
      assert j < i ==> !LiesBelow(es[j], kind, u);
    }
    hide Covers, Find;
    CoveringIsFirst(es, kind, u, i);
  }

  /** Failing that, by the first one with a pattern that matches; and by none if there is none. */
  lemma ServedByPattern(es: seq<Entry>, kind: Kind, u: cstring, i: nat)
    requires forall e :: e in es ==> !Names(e, kind, u) && !LiesBelow(e, kind, u)
    ensures First(es, i, e => IsMatched(e, kind, u)) ==> Lookup(es, kind, u) == Some(es[i].handler)
    ensures (forall e :: e in es ==> !IsMatched(e, kind, u)) ==> Lookup(es, kind, u) == None
  {
    NamedByNone(es, kind, u);
    forall e | e in es ensures !Covers(e, kind, u) && (Fits(e, kind, u) <==> IsMatched(e, kind, u)) {
      CoversIff(e, kind, u);
      FitsIff(e, kind, u);
    }
    hide Covers, Fits, IsMatched, Find;
    if First(es, i, e => IsMatched(e, kind, u)) {
      forall j | 0 <= j <= i ensures Fits(es[j], kind, u) <==> j == i {
        assert es[j] in es;
        assert j < i ==> !IsMatched(es[j], kind, u);
      }
      FittingIsFirst(es, kind, u, i);
    }
  }

  /** The callbacks in a fixed order, each with the kind of handler it is for. */
  function Callbacks(h: Handler): seq<(Kind, nat)> {
    [(RequestHandler, h.request), (WebsocketHandler, h.connect), (WebsocketHandler, h.ready),
     (WebsocketHandler, h.data), (WebsocketHandler, h.close), (AuthHandler, h.auth)]
  }

  /** A change is accepted exactly if it brings no callback of another kind and, unless it deletes, one of its own. */
  lemma AcceptsIff(kind: Kind, h: Handler, delete: bool)
    ensures Accepts(kind, h, delete) <==>
            && (forall c :: c in Callbacks(h) && c.1 != 0 ==> c.0 == kind)
            && (delete || exists c :: c in Callbacks(h) && c.1 != 0)
  {
    var cs := Callbacks(h);
    assert cs[0] in cs && cs[1] in cs && cs[2] in cs && cs[3] in cs && cs[4] in cs && cs[5] in cs;
    if Accepts(kind, h, delete) && !delete {
      assert exists k :: 0 <= k < 6 && cs[k].1 != 0;
    }
  }

  /** What is kept of an accepted handler: all its callbacks, its data and, for web sockets, its protocols. */
  lemma RelevantKeeps(kind: Kind, h: Handler)
    requires Accepts(kind, h, false)
    ensures Callbacks(Relevant(kind, h)) == Callbacks(h) && Relevant(kind, h).cbdata == h.cbdata
    ensures kind == WebsocketHandler ==> Relevant(kind, h).subprotocols == h.subprotocols
  {
  }
}

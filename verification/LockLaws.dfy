/** How long a lock lasts, said of lock times and the clock. */
module LockLaws {
  import opened Bytes
  import opened LockModel

  /** The user has a slot on the path; long names are cut. */
  ghost predicate HasSlot(slots: seq<Slot>, link: bytes, user: bytes) {
    exists k :: 0 <= k < |slots| && slots[k].path == link && slots[k].user == user[..Min(1559, |user|)]
  }

  /** A request is refused exactly while another user's lock on the path is at most 60 seconds old. Otherwise it is
      granted and the user has a slot afterwards, unless every slot is in use for other paths. */
  lemma RefusedForAMinute(slots: Slots, r: Request)
    requires OneOwner(slots) && r.link != []
    ensures Lock(slots, r).response == Refused <==>
            exists i :: 0 <= i < NUM_LOCKS && slots[i].path == r.link && slots[i].user != r.user
                        && r.now <= slots[i].locktime + 60_000_000_000
    ensures Lock(slots, r).response.Granted? && !Full(slots, r.link) ==> HasSlot(Lock(slots, r).slots, r.link, r.user)
  {
    RefusedIff(slots, r);
    GrantedIsHeld(slots, r);
    hide Lock, OneOwner, Full;
    if HeldByOther(slots, r) {
      var i :| 0 <= i < |slots| && slots[i].path == r.link && slots[i].user != r.user && !Expired(slots[i], r.now);
      assert slots[i].path == r.link && r.now <= slots[i].locktime + 60_000_000_000;
    }
  }

  /** No other user than `user` has got or refreshed a lock on the path after `since`. */
  ghost predicate IdleSince(slots: seq<Slot>, link: bytes, user: bytes, since: nat) {
    forall i :: 0 <= i < |slots| && slots[i].path == link && slots[i].user != user ==> slots[i].locktime <= since
  }

  /** The call is no lock request of another user for the path after `since`. */
  predicate IdleCall(c: Call, link: bytes, user: bytes, since: nat) {
    c.LockCall? && c.request.link == link && Cut(c.request.user) != user ==>
      c.request.now <= since && c.request.later <= since
  }

  lemma IdleStays(slots: Slots, r: Request, link: bytes, user: bytes, since: nat)
    requires OneOwner(slots) && link != [] && r.link != []
    requires IdleSince(slots, link, user, since) && IdleCall(LockCall(r), link, user, since)
    ensures IdleSince(Lock(slots, r).slots, link, user, since)
  {
    hide Scan;
    ScanTouches(slots, 0, r.link, r.user, r.now);
    var s := Scan(slots, 0, r.link, r.user, r.now);
    assert s.Own? ==> Cut(slots[s.index].user) == slots[s.index].user;
    assert IdleSince(s.slots, link, user, since);
  }

  /** After any run in which no other user asked for the path for more than 60 seconds, a request for it is granted,
      and the user has a slot afterwards unless every slot is in use for other paths. */
  lemma {:induction false} LocksEnd(slots: Slots, calls: seq<Call>, since: nat, r: Request)
    requires OneOwner(slots) && r.link != [] && ProperCalls(calls)
    requires IdleSince(slots, r.link, r.user, since)
    requires forall c :: c in calls ==> IdleCall(c, r.link, r.user, since)
    requires r.now > since + 60_000_000_000
    ensures var after := Run(slots, calls);
            && Lock(after, r).response.Granted?
            && (!Full(after, r.link) ==> HasSlot(Lock(after, r).slots, r.link, r.user))
    decreases |calls|
  {
    hide Lock, OneOwner, Full, HasSlot;
    if calls == [] {
      RefusedForAMinute(slots, r);
    } else {
      hide IdleSince, IdleCall;
      assert calls[0] in calls && forall c :: c in calls[1..] ==> c in calls;
      if calls[0].LockCall? {
        LockKeepsOneOwner(slots, calls[0].request);
        IdleStays(slots, calls[0].request, r.link, r.user, since);
      }
      LocksEnd(Step(slots, calls[0]), calls[1..], since, r);
    }
  }
}

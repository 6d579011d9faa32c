/** WebDAV locks: what a request does to the table of lock slots. */
module LockModel {
  import opened Bytes

  const NUM_LOCKS: nat := 10
  /** LOCK_DURATION_S in nanoseconds. */
  const LOCK_DURATION: nat := 60 * 1_000_000_000
  /** Longest user name a slot can hold. */
  const USER_MAX: nat := 1559

  /** What the token is a digest of. */
  datatype Token = NoToken | Token(link: bytes, time: nat, user: bytes)

  /** A slot is free when its path is empty. */
  datatype Slot = Slot(locktime: nat, token: Token, path: bytes, user: bytes)

  const FREE := Slot(0, NoToken, [], [])

  type Slots = s: seq<Slot> | |s| == NUM_LOCKS witness seq(NUM_LOCKS, _ => FREE)

  function Cut(user: bytes): bytes {
    user[..Min(USER_MAX, |user|)]
  }

  predicate Expired(s: Slot, now: nat) {
    now > s.locktime + LOCK_DURATION
  }

  /** The search for an existing lock from slot `i` on: where it stopped, and the table it leaves. */
  datatype Search = Own(index: nat, slots: seq<Slot>) | Taken(slots: seq<Slot>) | NoLock(slots: seq<Slot>)

  function Scan(slots: seq<Slot>, i: nat, link: bytes, user: bytes, now: nat): (r: Search)
    requires i <= |slots|
    ensures |r.slots| == |slots| && (r.Own? ==> i <= r.index < |slots|)
    decreases |slots| - i
  {
    if i == |slots| then NoLock(slots)
    else if slots[i].path != link then Scan(slots, i + 1, link, user, now)
    else if slots[i].user == user then Own(i, slots[i := slots[i].(locktime := now)])
    else if Expired(slots[i], now) then Scan(slots[i := slots[i].(path := [])], i + 1, link, user, now)
    else Taken(slots)
  }

  /** First free slot from `i` on, or the length. */
  function FirstFree(slots: seq<Slot>, i: nat): (k: nat)
    requires i <= |slots|
    ensures i <= k <= |slots| && (k < |slots| ==> slots[k].path == [])
    ensures forall j :: i <= j < k ==> slots[j].path != []
    decreases |slots| - i
  {
    if i == |slots| || slots[i].path == [] then i else FirstFree(slots, i + 1)
  }

  /** First of the slots before `n` with the oldest lock time. */
  function Oldest(slots: seq<Slot>, n: nat): (k: nat)
    requires 0 < n <= |slots|
    ensures k < n && forall j :: 0 <= j < n ==> slots[k].locktime <= slots[j].locktime
    ensures forall j :: 0 <= j < k ==> slots[k].locktime < slots[j].locktime
  {
    if n == 1 then 0
    else
      var k := Oldest(slots, n - 1);
      if slots[n - 1].locktime < slots[k].locktime then n - 1 else k
  }

  datatype Response = Granted(index: nat) | Refused

  datatype Outcome = Outcome(response: Response, slots: seq<Slot>)

  /** A lock request; `now` and `later` are its two readings of the clock. */
  datatype Request = Request(link: bytes, user: bytes, now: nat, later: nat)

  function Fresh(r: Request): Slot {
    Slot(r.later, Token(r.link, r.later, r.user), r.link, Cut(r.user))
  }

  /** `dav_lock_file` */
  function Lock(slots: Slots, r: Request): Outcome {
    var s := Scan(slots, 0, r.link, r.user, r.now);
    if s.Taken? then Outcome(Refused, s.slots)
    else
      var k := FirstFree(s.slots, 0);
      if k < |s.slots| then Outcome(Granted(k), s.slots[k := Fresh(r)])
      else if s.Own? then Outcome(Granted(s.index), s.slots)
      else
        var oldest := Oldest(s.slots, |s.slots|);
        Outcome(Granted(oldest), s.slots[oldest := s.slots[oldest].(path := [])])
  }

  // Who holds what

  /** All locks on a path belong to one user; no stored user name is longer than a slot can hold. */
  ghost predicate OneOwner(slots: seq<Slot>) {
    && (forall i :: 0 <= i < |slots| ==> |slots[i].user| <= USER_MAX)
    && forall i, j :: 0 <= i < |slots| && 0 <= j < |slots| && slots[i].path == slots[j].path != []
                   ==> slots[i].user == slots[j].user
  }

  /** A lock on the path that another user holds and that has not expired. */
  ghost predicate HeldByOther(slots: seq<Slot>, r: Request) {
    exists i :: 0 <= i < |slots| && slots[i].path == r.link && slots[i].user != r.user && !Expired(slots[i], r.now)
  }

  /** Every slot is in use for another path. */
  ghost predicate Full(slots: seq<Slot>, link: bytes) {
    forall i :: 0 <= i < |slots| ==> slots[i].path != [] && slots[i].path != link
  }

  /** The scan touches nothing but slots of this path: expired ones of other users, and the user's own. */
  ghost predicate ScanFrame(before: seq<Slot>, s: Search, link: bytes, user: bytes, now: nat)
    requires |s.slots| == |before| && (s.Own? ==> s.index < |before|)
  {
    && (forall k :: 0 <= k < |before| ==>
          || s.slots[k] == before[k]
          || (before[k].path == link && before[k].user != user && Expired(before[k], now)
              && s.slots[k] == before[k].(path := []))
          || (s.Own? && k == s.index && s.slots[k] == before[k].(locktime := now)))
    && (s.Own? ==> before[s.index].path == link && before[s.index].user == user
                   && s.slots[s.index] == before[s.index].(locktime := now))
  }

  lemma {:induction false} ScanTouches(slots: seq<Slot>, i: nat, link: bytes, user: bytes, now: nat)
    requires i <= |slots|
    ensures ScanFrame(slots, Scan(slots, i, link, user, now), link, user, now)
    ensures Scan(slots, i, link, user, now).NoLock? ==>
              forall k :: i <= k < |slots| ==> slots[k].path == link ==>
                Scan(slots, i, link, user, now).slots[k].path == []
    ensures forall k :: 0 <= k < i ==> Scan(slots, i, link, user, now).slots[k] == slots[k]
    decreases |slots| - i
  {
    if i < |slots| && slots[i].path != link {
      ScanTouches(slots, i + 1, link, user, now);
    } else if i < |slots| && slots[i].user != user && Expired(slots[i], now) {
      var cleared := slots[i := slots[i].(path := [])];
      ScanTouches(cleared, i + 1, link, user, now);
    }
  }

  /** The scan is stopped by another user's lock exactly if there is one,
      when all of the path's locks are of one owner. */
  lemma {:induction false} ScanTaken(slots: seq<Slot>, i: nat, r: Request)
    requires i <= |slots| && OneOwner(slots) && r.link != []
    ensures Scan(slots, i, r.link, r.user, r.now).Taken? <==>
            exists k :: i <= k < |slots| && slots[k].path == r.link && slots[k].user != r.user
                && !Expired(slots[k], r.now)
    decreases |slots| - i
  {
    if i < |slots| && slots[i].path != r.link {
      ScanTaken(slots, i + 1, r);
    } else if i < |slots| && slots[i].user != r.user && Expired(slots[i], r.now) {
      var cleared := slots[i := slots[i].(path := [])];
      ScanTaken(cleared, i + 1, r);
      assert forall k :: i < k < |slots| ==> slots[k] == cleared[k];
    } else if i < |slots| {
      assert forall k :: i <= k < |slots| && slots[k].path == slots[i].path ==> slots[k].user == slots[i].user;
    }
  }

  /** A request is refused exactly while another user has an unexpired lock; then no unexpired slot changes,
      and no slot of another path. */
  lemma RefusedIff(slots: Slots, r: Request)
    requires OneOwner(slots) && r.link != []
    ensures Lock(slots, r).response == Refused <==> HeldByOther(slots, r)
    ensures HeldByOther(slots, r) ==>
              forall k :: 0 <= k < NUM_LOCKS && (!Expired(slots[k], r.now) || slots[k].path != r.link)
                          ==> Lock(slots, r).slots[k] == slots[k]
  {
    ScanTaken(slots, 0, r);
    ScanTouches(slots, 0, r.link, r.user, r.now);
  }

  /** The request is answered with 200 but nothing is stored, and the oldest lock is gone. */
  ghost predicate Evicts(slots: Slots, r: Request) {
    var o := Lock(slots, r);
    && o.response.Granted?
    && !(exists k :: 0 <= k < NUM_LOCKS && o.slots[k].path == r.link && o.slots[k].user == Cut(r.user))
  }

  lemma ScanOfFull(slots: Slots, r: Request)
    requires r.link != []
    ensures var s := Scan(slots, 0, r.link, r.user, r.now);
            Full(slots, r.link) <==> s.NoLock? && FirstFree(s.slots, 0) == |s.slots|
    ensures Full(slots, r.link) ==> Scan(slots, 0, r.link, r.user, r.now).slots == slots
  {
    hide Scan;
    var s := Scan(slots, 0, r.link, r.user, r.now);
    ScanTouches(slots, 0, r.link, r.user, r.now);
    if Full(slots, r.link) {
      FullStays(slots, r, 0);
      assert s.slots == slots;
    }
  }

  lemma {:induction false} FullStays(slots: Slots, r: Request, i: nat)
    requires Full(slots, r.link) && i <= NUM_LOCKS
    ensures Scan(slots, i, r.link, r.user, r.now) == NoLock(slots)
    decreases NUM_LOCKS - i
  {
    if i < NUM_LOCKS {
      FullStays(slots, r, i + 1);
    }
  }

  /** A granted request stores a lock unless every slot is in use for other paths. */
  lemma GrantedIsHeld(slots: Slots, r: Request)
    requires OneOwner(slots) && r.link != []
    ensures Evicts(slots, r) <==> Full(slots, r.link)
    ensures Full(slots, r.link) ==>
              Lock(slots, r).slots == slots[Oldest(slots, NUM_LOCKS) := slots[Oldest(slots, NUM_LOCKS)].(path := [])]
  {
    hide Scan;
    var s := Scan(slots, 0, r.link, r.user, r.now);
    ScanTouches(slots, 0, r.link, r.user, r.now);
    ScanOfFull(slots, r);
    var o := Lock(slots, r);
    if !s.Taken? && !Full(slots, r.link) {
      var k := FirstFree(s.slots, 0);
      if k < |s.slots| {
        assert o.slots[k] == Fresh(r);
      } else {
        assert o.slots[s.index].path == r.link && o.slots[s.index].user == r.user;
      }
    }
  }

  function OtherLock(i: nat): Slot
    requires i < NUM_LOCKS
  {
    var name: byte := i + 1;
    Slot(i, NoToken, [name], [0x61])
  }

  /** Ten locks on other paths: the eleventh request is granted, and nobody holds it. */
  lemma EleventhLockIsNotHeld()
    ensures var slots: Slots := seq(10, i requires 0 <= i < 10 => OtherLock(i));
            var r := Request([0x2F], [0x62], 20, 20);
            Evicts(slots, r) && Lock(slots, r).slots == slots[0 := slots[0].(path := [])]
  {
    var slots: Slots := seq(10, i requires 0 <= i < 10 => OtherLock(i));
    var r := Request([0x2F], [0x62], 20, 20);
    assert forall i :: 0 <= i < NUM_LOCKS ==> slots[i].path[0] == i + 1 && slots[i].locktime == i;
    hide Evicts, Lock;
    GrantedIsHeld(slots, r);
  }

  ghost predicate AtMostOne(slots: seq<Slot>, link: bytes) {
    forall i, j :: 0 <= i < |slots| && 0 <= j < |slots| && slots[i].path == slots[j].path == link ==> i == j
  }

  ghost predicate Owns(slots: seq<Slot>, link: bytes, user: bytes) {
    exists i :: 0 <= i < |slots| && slots[i].path == link && slots[i].user == user
  }

  ghost predicate HasFree(slots: seq<Slot>) {
    exists i :: 0 <= i < |slots| && slots[i].path == []
  }

  /** The scan refreshes a lock exactly if the user has one on the path. */
  lemma {:induction false} ScanOwn(slots: seq<Slot>, i: nat, r: Request)
    requires i <= |slots| && OneOwner(slots) && r.link != []
    ensures Scan(slots, i, r.link, r.user, r.now).Own? <==>
            exists k :: i <= k < |slots| && slots[k].path == r.link && slots[k].user == r.user
    decreases |slots| - i
  {
    if i < |slots| && slots[i].path != r.link {
      ScanOwn(slots, i + 1, r);
    } else if i < |slots| && slots[i].user != r.user {
      assert forall k :: i <= k < |slots| && slots[k].path == slots[i].path ==> slots[k].user == slots[i].user;
      if Expired(slots[i], r.now) {
        var cleared := slots[i := slots[i].(path := [])];
        ScanOwn(cleared, i + 1, r);
        assert forall k :: i < k < |slots| ==> slots[k] == cleared[k];
      }
    }
  }

  /** A request leaves two locks on a path that had at most one exactly if it refreshes a lock while a slot is free. */
  lemma RefreshMayStoreTwice(slots: Slots, r: Request)
    requires OneOwner(slots) && r.link != [] && AtMostOne(slots, r.link)
    ensures !AtMostOne(Lock(slots, r).slots, r.link) <==> Owns(slots, r.link, r.user) && HasFree(slots)
  {
    ScanOwn(slots, 0, r);
    ScanTouches(slots, 0, r.link, r.user, r.now);
    hide Scan, OneOwner;
    var s, after := Scan(slots, 0, r.link, r.user, r.now), Lock(slots, r).slots;
    var k := FirstFree(s.slots, 0);
    assert forall i :: 0 <= i < NUM_LOCKS && s.slots[i].path == r.link ==> slots[i].path == r.link;
    assert AtMostOne(s.slots, r.link);
    if s.Own? {
      assert forall i :: 0 <= i < NUM_LOCKS ==> (s.slots[i].path == [] <==> slots[i].path == []) by {
        OwnClearsNothing(slots, s, r);
      }
      if k < NUM_LOCKS {
        assert after[s.index].path == after[k].path == r.link && k != s.index;
      }
    }
  }

  /** Where the user has the one lock on the path, the scan clears no slot. */
  lemma OwnClearsNothing(slots: Slots, s: Search, r: Request)
    requires |s.slots| == |slots| && s.Own? && s.index < |slots|
    requires ScanFrame(slots, s, r.link, r.user, r.now) && AtMostOne(slots, r.link) && r.link != []
    ensures forall i :: 0 <= i < NUM_LOCKS ==> (s.slots[i].path == [] <==> slots[i].path == [])
  {
  }

  /** One lock and nine free slots: its refresh stores a second one. */
  lemma RefreshStoresTwice()
    ensures var slots: Slots := seq(NUM_LOCKS, i => if i == 0 then Slot(5, NoToken, [0x2F], [0x61]) else FREE);
            var r := Request([0x2F], [0x61], 20, 20);
            OneOwner(slots) && AtMostOne(slots, r.link) && !AtMostOne(Lock(slots, r).slots, r.link)
  {
    var slots: Slots := seq(NUM_LOCKS, i => if i == 0 then Slot(5, NoToken, [0x2F], [0x61]) else FREE);
    var r := Request([0x2F], [0x61], 20, 20);
    assert slots[0].path == r.link && slots[1] == FREE;
    hide Lock;
    RefreshMayStoreTwice(slots, r);
  }

  lemma LockKeepsOneOwner(slots: Slots, r: Request)
    requires OneOwner(slots) && r.link != []
    ensures OneOwner(Lock(slots, r).slots)
  {
    hide Scan;
    var s := Scan(slots, 0, r.link, r.user, r.now);
    ScanTouches(slots, 0, r.link, r.user, r.now);
    assert forall k :: 0 <= k < NUM_LOCKS ==>
      s.slots[k].path == [] || (s.slots[k].path == slots[k].path && s.slots[k].user == slots[k].user);
    assert OneOwner(s.slots);
    assert !s.Taken? ==> forall k :: 0 <= k < NUM_LOCKS && s.slots[k].path == r.link ==> s.slots[k].user == r.user;
  }

  // Runs

  datatype Call = LockCall(request: Request) | UnlockCall(link: bytes)

  /** Unlocking answers by path alone and changes nothing. */
  function Step(slots: Slots, c: Call): Slots {
    match c
    case LockCall(r) => Lock(slots, r).slots
    case UnlockCall(_) => slots
  }

  function Run(slots: Slots, calls: seq<Call>): Slots
    decreases |calls|
  {
    if calls == [] then slots else Run(Step(slots, calls[0]), calls[1..])
  }

  ghost predicate ProperCalls(calls: seq<Call>) {
    forall c :: c in calls && c.LockCall? ==> c.request.link != []
  }

  /** Over every run all locks on a path belong to one user. */
  lemma {:induction false} RunKeepsOneOwner(slots: Slots, calls: seq<Call>)
    requires OneOwner(slots) && ProperCalls(calls)
    ensures OneOwner(Run(slots, calls))
    decreases |calls|
  {
    hide OneOwner, Lock;
    if calls != [] {
      if calls[0].LockCall? {
        LockKeepsOneOwner(slots, calls[0].request);
      }
      RunKeepsOneOwner(Step(slots, calls[0]), calls[1..]);
    }
  }

  /** The user has a lock on the path, granted or refreshed at `since` or after. */
  ghost predicate Holds(slots: seq<Slot>, link: bytes, user: bytes, since: nat) {
    exists i :: 0 <= i < |slots| && slots[i].path == link && slots[i].user == user && slots[i].locktime >= since
  }

  /** The call comes while a lock granted at `since` lasts, and evicts nothing. */
  ghost predicate During(slots: Slots, c: Call, since: nat) {
    c.LockCall? ==> since <= c.request.now <= c.request.later && c.request.now <= since + LOCK_DURATION
                    && !Full(slots, c.request.link)
  }

  ghost predicate AllDuring(slots: Slots, calls: seq<Call>, since: nat)
    decreases |calls|
  {
    calls == [] || (During(slots, calls[0], since) && AllDuring(Step(slots, calls[0]), calls[1..], since))
  }

  lemma HoldStays(slots: Slots, r: Request, link: bytes, user: bytes, since: nat)
    requires OneOwner(slots) && link != [] && r.link != [] && Holds(slots, link, user, since)
    requires During(slots, LockCall(r), since)
    ensures Holds(Lock(slots, r).slots, link, user, since)
    ensures r.link == link && r.user != user ==> Lock(slots, r).response == Refused
  {
    var i :| 0 <= i < NUM_LOCKS && slots[i].path == link && slots[i].user == user && slots[i].locktime >= since;
    RefusedIff(slots, r);
    if r.link == link && r.user != user {
      assert HeldByOther(slots, r);
      assert Lock(slots, r).slots[i] == slots[i];
    } else {
      ScanTouches(slots, 0, r.link, r.user, r.now);
      ScanOfFull(slots, r);
      hide Scan, OneOwner, Full;
      var s := Scan(slots, 0, r.link, r.user, r.now);
      assert s.slots[i].path == link && s.slots[i].user == user && s.slots[i].locktime >= since;
      assert Lock(slots, r).slots[i] == s.slots[i];
    }
  }

  /** A lock keeps other users out for as long as it lasts: whatever is called in the meantime, short of an
      eviction, every lock request of another user for the path is refused at the end. Unlocking does not end it. */
  lemma {:induction false} LockExcludes(slots: Slots, calls: seq<Call>, link: bytes, user: bytes, since: nat,
      r: Request)
    requires OneOwner(slots) && link != [] && Holds(slots, link, user, since)
    requires ProperCalls(calls) && AllDuring(slots, calls, since)
    requires r.link == link && r.user != user && since <= r.now <= since + LOCK_DURATION
    ensures Holds(Run(slots, calls), link, user, since)
    ensures Lock(Run(slots, calls), r).response == Refused
    decreases |calls|
  {
    if calls == [] {
      var i :| 0 <= i < NUM_LOCKS && slots[i].path == link && slots[i].user == user && slots[i].locktime >= since;
      assert HeldByOther(slots, r);
      RefusedIff(slots, r);
    } else {
      hide Lock, OneOwner, Holds;
      if calls[0].LockCall? {
        LockKeepsOneOwner(slots, calls[0].request);
        HoldStays(slots, calls[0].request, link, user, since);
      }
      LockExcludes(Step(slots, calls[0]), calls[1..], link, user, since, r);
    }
  }
}

/** The lock slots of a server, overwritten in place by lock requests. */
module WebDav {
  import opened Bytes
  import opened LockModel

  class Locks {
    const davLock: array<Slot>

    constructor ()
      ensures Valid() && fresh(davLock) && OneOwner(davLock[..])
    {
      davLock := new Slot[NUM_LOCKS](_ => FREE);
    }

    predicate Valid() {
      davLock.Length == NUM_LOCKS
    }

    /** The search for an existing lock. */
    method Find(link: bytes, user: bytes, now: nat) returns (taken: bool, lockIndex: int)
      requires Valid()
      modifies davLock
      ensures var s := Scan(old(davLock[..]), 0, link, user, now);
              davLock[..] == s.slots && (taken <==> s.Taken?) && lockIndex == if s.Own? then s.index else -1
    {
      ghost var s := Scan(davLock[..], 0, link, user, now);
      for i := 0 to NUM_LOCKS
        invariant Scan(davLock[..], i, link, user, now) == s
      {
        ghost var slots := davLock[..];
        if davLock[i].path == link {
          if user == davLock[i].user {
            davLock[i] := davLock[i].(locktime := now);
            assert davLock[..] == slots[i := slots[i].(locktime := now)];
            return false, i;
          } else {
            if now > davLock[i].locktime + LOCK_DURATION {
              davLock[i] := davLock[i].(path := []);
              assert davLock[..] == slots[i := slots[i].(path := [])];
            } else {
              return true, -1;
            }
          }
        }
      }
      return false, -1;
    }

    /** A new lock in the first free slot. */
    method Create(r: Request, found: int) returns (lockIndex: int)
      requires Valid()
      modifies davLock
      ensures var slots := old(davLock[..]);
              var k := FirstFree(slots, 0);
              && davLock[..] == (if k < NUM_LOCKS then slots[k := LockModel.Fresh(r)] else slots)
              && lockIndex == if k < NUM_LOCKS then k else found
    {
      ghost var slots := davLock[..];
      for i := 0 to NUM_LOCKS
        invariant davLock[..] == slots && FirstFree(slots, 0) == FirstFree(slots, i)
      {
        if davLock[i].path == [] {
          davLock[i] := Slot(r.later, Token(r.link, r.later, r.user), r.link, Cut(r.user));
          assert davLock[..] == slots[i := LockModel.Fresh(r)];
          return i;
        }
      }
      return found;
    }

    /** The oldest lock is dropped. */
    method DropOldest() returns (lockIndex: nat)
      requires Valid()
      modifies davLock
      ensures var slots := old(davLock[..]);
              && lockIndex == Oldest(slots, NUM_LOCKS) < NUM_LOCKS
              && davLock[..] == slots[lockIndex := slots[lockIndex].(path := [])]
    {
      ghost var slots := davLock[..];
      var oldest := davLock[0].locktime;
      lockIndex := 0;
      for i := 1 to NUM_LOCKS
        invariant lockIndex == Oldest(slots, i) && oldest == slots[lockIndex].locktime && davLock[..] == slots
      {
        if davLock[i].locktime < oldest {
          oldest := davLock[i].locktime;
          lockIndex := i;
        }
      }
      davLock[lockIndex] := davLock[lockIndex].(path := []);
      assert davLock[..] == slots[lockIndex := slots[lockIndex].(path := [])];
    }

    /** `dav_lock_file` */
    method LockFile(r: Request) returns (response: Response)
      requires Valid() && r.link != []
      modifies davLock
      ensures Outcome(response, davLock[..]) == Lock(old(davLock[..]), r)
      ensures old(OneOwner(davLock[..])) ==> OneOwner(davLock[..])
      ensures old(OneOwner(davLock[..])) ==> (response == Refused <==> HeldByOther(old(davLock[..]), r))
    {
      ghost var slots: Slots := davLock[..];
      if OneOwner(slots) {
        LockKeepsOneOwner(slots, r);
        RefusedIff(slots, r);
      }
      hide Scan, OneOwner;
      var lockIndex := -1;
      while lockIndex < 0
        invariant lockIndex < 0 ==> davLock[..] == slots
        invariant lockIndex >= 0 ==> Lock(slots, r) == Outcome(Granted(lockIndex), davLock[..])
        decreases lockIndex < 0
      {
        var taken;
        taken, lockIndex := Find(r.link, r.user, r.now);
        if taken {
          return Refused;
        }
        lockIndex := Create(r, lockIndex);
        if lockIndex < 0 {
          lockIndex := DropOldest();
        }
      }
      return Granted(lockIndex);
    }

    /** `dav_unlock_file`: 204 if the path is locked, by whomever; no slot changes. */
    method UnlockFile(link: bytes) returns (noContent: bool)
      requires Valid() && link != []
      ensures noContent <==> exists i :: 0 <= i < NUM_LOCKS && davLock[i].path == link
    {
      for i := 0 to NUM_LOCKS
        invariant forall j :: 0 <= j < i ==> davLock[j].path != link
      {
        if davLock[i].path == link {
          return true;
        }
      }
      return false;
    }
  }
}

/**
 The table lock manager: a map from table name to the lock on that table.
 A lock has a type, a set of owners and a FIFO queue of requests that could
 not be granted. Conflicting requests are settled by Wait-Die or by
 Wound-Wait, both decided by transaction timestamps (a smaller timestamp is
 an older transaction, which has priority).

 A transaction is its identity and timestamp. Its status is owned by the
 transaction itself: a call passes the status in, and whatever the lock
 manager does to a transaction (put it to sleep, abort it, set it running
 again) is returned as an event.
 */
module Locking {
  import opened Common

  datatype LockType = Shared | Exclusive

  /** The deadlock avoidance scheme the manager is built with. */
  datatype Policy = NoAvoidance | WaitDie | WoundWait

  /** The status a transaction reports when it calls the manager. */
  datatype Status = Running | Waiting

  datatype Txn = Txn(id: nat, timestamp: int)

  datatype Request = Request(txn: Txn, lockType: LockType)

  datatype TableLock = TableLock(lockType: LockType, owners: set<Txn>, queue: seq<Request>)

  datatype LockManager = LockManager(policy: Policy, locks: map<string, TableLock>)

  /** What the manager does to a transaction besides changing its locks:
      sleep(), abort() and setStatus(Running). */
  datatype Event = Slept(txn: Txn) | Aborted(txn: Txn) | Resumed(txn: Txn)

  /** The manager after a call, and what it did to transactions. The order of
      the events is that of a hash set and so is not modelled. */
  datatype Outcome = Outcome(manager: LockManager, events: set<Event>)

  /* ---------------------------------------------------------------------- */
  /* Queries and helpers                                                    */
  /* ---------------------------------------------------------------------- */

  /** holds: the table is locked with type `ty` and `t` is among its owners. */
  predicate Holds(lm: LockManager, t: Txn, table: string, ty: LockType)
  {
    table in lm.locks && t in lm.locks[table].owners && lm.locks[table].lockType == ty
  }

  /** A transaction holds at most one type of lock on a table, and on a
      consistent manager an exclusive holder holds alone. */
  lemma HoldsOneType(lm: LockManager, t: Txn, table: string)
    ensures !(Holds(lm, t, table, Shared) && Holds(lm, t, table, Exclusive))
    ensures Consistent(lm) && Holds(lm, t, table, Exclusive) ==> lm.locks[table].owners == {t}
  {
    if Consistent(lm) && Holds(lm, t, table, Exclusive) {
      SingletonSet(lm.locks[table].owners, t);
    }
  }

  /** `t` has a request waiting in the queue of `table`. */
  predicate Queued(lm: LockManager, t: Txn, table: string)
  {
    table in lm.locks && exists i :: 0 <= i < |lm.locks[table].queue| && lm.locks[table].queue[i].txn == t
  }

  /** `t` is older than every transaction in `owners`. */
  predicate OlderThanAll(t: Txn, owners: set<Txn>)
  {
    forall x :: x in owners ==> x.timestamp > t.timestamp
  }

  /** An exclusive lock has exactly one owner. */
  ghost predicate Consistent(lm: LockManager)
  {
    forall n :: n in lm.locks && lm.locks[n].lockType == Exclusive ==> |lm.locks[n].owners| == 1
  }

  function Put(lm: LockManager, table: string, lock: TableLock): (lm': LockManager)
    ensures lm'.policy == lm.policy && table in lm'.locks && lm'.locks[table] == lock
    ensures lm'.locks - {table} == lm.locks - {table}
  {
    lm.(locks := lm.locks[table := lock])
  }

  /** The index of the first request satisfying `p`, as a stream's findFirst. */
  function FirstWhere(q: seq<Request>, p: Request -> bool): (r: Option<nat>)
    ensures r.Some? ==> r.value < |q| && p(q[r.value]) && forall i :: 0 <= i < r.value ==> !p(q[i])
    ensures r.None? ==> forall i :: 0 <= i < |q| ==> !p(q[i])
    decreases |q|
  {
    if q == [] then None
    else if p(q[0]) then Some(0)
    else
      var r := FirstWhere(q[1..], p);
      if r.Some? then
        assert forall i :: 1 <= i < r.value + 1 ==> q[i] == q[1..][i - 1];
        Some(r.value + 1)
      else
        assert forall i :: 1 <= i < |q| ==> q[i] == q[1..][i - 1];
        None
  }

  /** The queue with the request at index `i` removed. */
  function RemoveAt(q: seq<Request>, i: nat): (r: seq<Request>)
    requires i < |q|
    ensures |r| == |q| - 1 && multiset(r) == multiset(q) - multiset{q[i]}
  {
    assert q == q[..i] + [q[i]] + q[i + 1..];
    q[..i] + q[i + 1..]
  }

  /** The queue without the requests of `gone`: every other request stays,
      as often as it was queued, and nothing changes when nobody is gone. */
  function Without(q: seq<Request>, gone: set<Txn>): (r: seq<Request>)
    ensures forall x :: x in r <==> x in q && x.txn !in gone
    ensures forall x :: multiset(r)[x] == if x.txn in gone then 0 else multiset(q)[x]
    ensures (forall i :: 0 <= i < |q| ==> q[i].txn !in gone) ==> r == q
    ensures |r| <= |q|
    decreases |q|
  {
    if q == [] then []
    else
      assert q == [q[0]] + q[1..];
      (if q[0].txn in gone then [] else [q[0]]) + Without(q[1..], gone)
  }

  /** Removal works request by request, so the requests that stay keep their
      FIFO order: removing from two queues joined is joining the two
      removals. */
  lemma {:induction false} WithoutAppend(a: seq<Request>, b: seq<Request>, gone: set<Txn>)
    ensures Without(a + b, gone) == Without(a, gone) + Without(b, gone)
    decreases |a|
  {
    if a != [] {
      assert (a + b)[1..] == a[1..] + b;
      WithoutAppend(a[1..], b, gone);
      var h := if a[0].txn in gone then [] else [a[0]];
      AppendAssoc(h, Without(a[1..], gone), Without(b, gone));
    } else {
      assert a + b == b;
    }
  }

  /** The transactions with a request in `q`. */
  function Requesters(q: seq<Request>): (s: set<Txn>)
    ensures forall t :: t in s <==> exists i :: 0 <= i < |q| && q[i].txn == t
  {
    set i | 0 <= i < |q| :: q[i].txn
  }

  /* ---------------------------------------------------------------------- */
  /* Conflict resolution                                                    */
  /* ---------------------------------------------------------------------- */

  /** waitDie: an older requester waits at the back of the queue, a younger
      one aborts. */
  function WaitDieRule(lock: TableLock, t: Txn, ty: LockType): (r: (TableLock, set<Event>))
    ensures r.1 == {Slept(t)} || r.1 == {Aborted(t)}
    ensures r.0.owners == lock.owners && r.0.lockType == lock.lockType
  {
    if OlderThanAll(t, lock.owners) then (lock.(queue := lock.queue + [Request(t, ty)]), {Slept(t)})
    else (lock, {Aborted(t)})
  }

  /** woundWait: an older requester aborts every owner, drops their queued
      requests and takes the lock alone; a younger one waits at the back of
      the queue. */
  function WoundWaitRule(lock: TableLock, t: Txn, ty: LockType): (r: (TableLock, set<Event>))
    ensures r.1 == {Slept(t)} || r.0.owners == {t}
  {
    if OlderThanAll(t, lock.owners) then
      (TableLock(ty, {t}, Without(lock.queue, lock.owners)), set x | x in lock.owners :: Aborted(x))
    else (lock.(queue := lock.queue + [Request(t, ty)]), {Slept(t)})
  }

  /** Every scheme other than Wait-Die, None included, resolves by Wound-Wait. */
  function Resolve(policy: Policy, lock: TableLock, t: Txn, ty: LockType): (r: (TableLock, set<Event>))
    ensures Slept(t) in r.1 ==> r == (lock.(queue := lock.queue + [Request(t, ty)]), {Slept(t)})
    ensures Slept(t) in r.1 <==> OlderThanAll(t, lock.owners) == policy.WaitDie?
    ensures Aborted(t) in r.1 <==> policy.WaitDie? && !OlderThanAll(t, lock.owners)
    ensures policy.WaitDie? ==> r.0.owners == lock.owners
    ensures !policy.WaitDie? && OlderThanAll(t, lock.owners) ==>
              && r.0 == TableLock(ty, {t}, Without(lock.queue, lock.owners))
              && forall x :: x in lock.owners ==> Aborted(x) in r.1
  {
    if policy == WaitDie then WaitDieRule(lock, t, ty) else WoundWaitRule(lock, t, ty)
  }

  /* ---------------------------------------------------------------------- */
  /* acquire                                                                */
  /* ---------------------------------------------------------------------- */

  /** acquire: a waiting caller, a request for S while holding X and a
      request for the type already held throw IllegalArgumentException; an
      unlocked table is locked for the caller alone; a sole S owner asking
      for X is upgraded; S on an S-locked table joins the owners; every other
      request is a conflict for the deadlock avoidance scheme. */
  function Acquire(lm: LockManager, t: Txn, status: Status, table: string, ty: LockType): (r: Result<Outcome>)
    ensures r.Fail? <==>
              || status == Waiting
              || (table in lm.locks && t in lm.locks[table].owners
                  && (lm.locks[table].lockType == ty || (lm.locks[table].lockType == Exclusive && ty == Shared)))
    ensures r.Fail? ==> r.error == IllegalArgument
    ensures r.Ok? ==> r.value.manager.policy == lm.policy && table in r.value.manager.locks
    ensures r.Ok? ==> r.value.manager.locks - {table} == lm.locks - {table}
  {
    if status == Waiting then Fail(IllegalArgument)
    else if table !in lm.locks then Ok(Outcome(Put(lm, table, TableLock(ty, {t}, [])), {}))
    else
      var lock := lm.locks[table];
      if t in lock.owners && lock.lockType == Exclusive && ty == Shared then Fail(IllegalArgument)
      else if t in lock.owners && lock.lockType == ty then Fail(IllegalArgument)
      else if t in lock.owners && |lock.owners| == 1 && lock.lockType == Shared && ty == Exclusive then
        Ok(Outcome(Put(lm, table, lock.(lockType := Exclusive)), {}))
      else if lock.lockType == Shared && ty == Shared then
        Ok(Outcome(Put(lm, table, lock.(owners := lock.owners + {t})), {}))
      else
        var (lock', events) := Resolve(lm.policy, lock, t, ty);
        Ok(Outcome(Put(lm, table, lock'), events))
  }

  /** A call that neither sleeps nor aborts the caller leaves it holding the
      requested lock, and one that does leaves it not holding it. */
  lemma AcquireHoldsIff(lm: LockManager, t: Txn, status: Status, table: string, ty: LockType)
    requires Acquire(lm, t, status, table, ty).Ok?
    ensures var o := Acquire(lm, t, status, table, ty).value;
            Holds(o.manager, t, table, ty) <==> Slept(t) !in o.events && Aborted(t) !in o.events
  {
    var o := Acquire(lm, t, status, table, ty).value;
    if table in lm.locks {
      var lock := lm.locks[table];
      if !(t in lock.owners && |lock.owners| == 1 && lock.lockType == Shared && ty == Exclusive)
         && !(lock.lockType == Shared && ty == Shared)
         && !lm.policy.WaitDie? && OlderThanAll(t, lock.owners) {
        assert t !in lock.owners;
        assert Slept(t) !in o.events && Aborted(t) !in o.events by {
          assert forall e :: e in o.events ==> e.Aborted? && e.txn in lock.owners;
        }
      }
    }
  }

  /** A caller that is put to sleep waits at the back of the queue; a caller
      that aborts leaves the manager as it was. */
  lemma AcquireWaitsOrDies(lm: LockManager, t: Txn, status: Status, table: string, ty: LockType)
    requires Acquire(lm, t, status, table, ty).Ok?
    ensures var o := Acquire(lm, t, status, table, ty).value;
            && (Slept(t) in o.events ==>
                  && o.events == {Slept(t)} && table in lm.locks
                  && o.manager.locks[table] == lm.locks[table].(queue := lm.locks[table].queue + [Request(t, ty)]))
            && (Aborted(t) in o.events ==> o.events == {Aborted(t)} && o.manager == lm)
  {
    var o := Acquire(lm, t, status, table, ty).value;
    if table in lm.locks {
      var lock := lm.locks[table];
      if !(t in lock.owners && |lock.owners| == 1 && lock.lockType == Shared && ty == Exclusive)
         && !(lock.lockType == Shared && ty == Shared)
         && !lm.policy.WaitDie? && OlderThanAll(t, lock.owners) {
        assert t !in lock.owners;
        assert Slept(t) !in o.events && Aborted(t) !in o.events by {
          assert forall e :: e in o.events ==> e.Aborted? && e.txn in lock.owners;
        }
      } else if !(t in lock.owners && |lock.owners| == 1 && lock.lockType == Shared && ty == Exclusive)
         && !(lock.lockType == Shared && ty == Shared) && lm.policy.WaitDie? && !OlderThanAll(t, lock.owners) {
        assert lm.locks == lm.locks[table := lock];
      }
    }
  }

  /** On an unlocked table the caller becomes the sole owner with the
      requested type and nobody waits. */
  lemma AcquireFree(lm: LockManager, t: Txn, status: Status, table: string, ty: LockType)
    requires status != Waiting && table !in lm.locks
    ensures Acquire(lm, t, status, table, ty) == Ok(Outcome(Put(lm, table, TableLock(ty, {t}, [])), {}))
    ensures Holds(Acquire(lm, t, status, table, ty).value.manager, t, table, ty)
  {
  }

  /** A sole S owner asking for X is upgraded in place; S asked on an
      S-locked table by a non-owner joins the owners, even when requests are
      waiting. Owners and queue are otherwise unchanged and nobody waits. */
  lemma AcquireCompatible(lm: LockManager, t: Txn, status: Status, table: string, ty: LockType)
    requires status != Waiting && table in lm.locks && lm.locks[table].lockType == Shared
    requires (lm.locks[table].owners == {t} && ty == Exclusive) || (t !in lm.locks[table].owners && ty == Shared)
    ensures var lock := lm.locks[table];
            Acquire(lm, t, status, table, ty) ==
              Ok(Outcome(Put(lm, table, TableLock(ty, lock.owners + {t}, lock.queue)), {}))
  {
    var lock := lm.locks[table];
    if ty == Exclusive {
      assert |lock.owners| == 1 && lock.owners + {t} == lock.owners;
    }
  }

  /** Wait-Die on a conflict: the caller waits at the back of the queue when
      it is older than every owner, and otherwise aborts with nothing
      changed. */
  lemma AcquireWaitDie(lm: LockManager, t: Txn, status: Status, table: string, ty: LockType)
    requires status != Waiting && lm.policy == WaitDie && table in lm.locks
    requires var lock := lm.locks[table];
             && !(t in lock.owners && (lock.lockType == ty || lock.lockType == Exclusive))
             && (lock.lockType == Exclusive || ty == Exclusive) && !(lock.owners == {t})
    ensures var lock := lm.locks[table];
            Acquire(lm, t, status, table, ty) ==
              if OlderThanAll(t, lock.owners) then
                Ok(Outcome(Put(lm, table, lock.(queue := lock.queue + [Request(t, ty)])), {Slept(t)}))
              else Ok(Outcome(lm, {Aborted(t)}))
  {
    var lock := lm.locks[table];
    assert !(t in lock.owners && |lock.owners| == 1) by {
      if t in lock.owners && |lock.owners| == 1 {
        SingletonSet(lock.owners, t);
      }
    }
    assert lm.locks[table := lock] == lm.locks;
  }

  /** Wound-Wait (and None) on a conflict: a caller older than every owner
      aborts them all, removes their waiting requests and becomes the sole
      owner with the requested type; a younger one waits at the back of the
      queue. */
  lemma AcquireWoundWait(lm: LockManager, t: Txn, status: Status, table: string, ty: LockType)
    requires status != Waiting && lm.policy != WaitDie && table in lm.locks
    requires var lock := lm.locks[table];
             && !(t in lock.owners && (lock.lockType == ty || lock.lockType == Exclusive))
             && (lock.lockType == Exclusive || ty == Exclusive) && !(lock.owners == {t})
    ensures var lock := lm.locks[table];
            var o := Acquire(lm, t, status, table, ty).value;
            && Acquire(lm, t, status, table, ty).Ok?
            && (OlderThanAll(t, lock.owners) ==>
                  && o.manager.locks[table].owners == {t} && o.manager.locks[table].lockType == ty
                  && (forall e :: e in o.events <==> e.Aborted? && e.txn in lock.owners)
                  && (forall x :: x in o.manager.locks[table].queue <==> x in lock.queue && x.txn !in lock.owners))
            && (!OlderThanAll(t, lock.owners) ==>
                  o == Outcome(Put(lm, table, lock.(queue := lock.queue + [Request(t, ty)])), {Slept(t)}))
  {
    var lock := lm.locks[table];
    assert !(t in lock.owners && |lock.owners| == 1) by {
      if t in lock.owners && |lock.owners| == 1 {
        SingletonSet(lock.owners, t);
      }
    }
  }

  /** A one-element set containing `t` is `{t}`. */
  lemma SingletonSet(s: set<Txn>, t: Txn)
    requires t in s && |s| == 1
    ensures s == {t}
  {
    var rest := s - {t};
    assert |rest| == 0;
    assert rest == {};
  }

  /** acquire keeps every exclusive lock with exactly one owner. */
  lemma AcquireKeepsConsistent(lm: LockManager, t: Txn, status: Status, table: string, ty: LockType)
    requires Consistent(lm) && Acquire(lm, t, status, table, ty).Ok?
    ensures Consistent(Acquire(lm, t, status, table, ty).value.manager)
  {
    var lm' := Acquire(lm, t, status, table, ty).value.manager;
    forall n | n in lm'.locks && lm'.locks[n].lockType == Exclusive
      ensures |lm'.locks[n].owners| == 1
    {
      if n != table {
        assert n in lm'.locks - {table};
      }
    }
  }

  /* ---------------------------------------------------------------------- */
  /* release                                                                */
  /* ---------------------------------------------------------------------- */

  /** The promotion step of release on an S lock: the releaser's first
      waiting X request leaves the queue. The lock installed for it is
      always replaced by the grant that follows in the same call, so the
      removal is all that remains of it. */
  function Promote(q: seq<Request>, t: Txn): (r: seq<Request>)
    ensures Request(t, Exclusive) !in q ==> r == q
    ensures Request(t, Exclusive) in q ==>
              exists i :: 0 <= i < |q| && q[i] == Request(t, Exclusive) && Request(t, Exclusive) !in q[..i]
                          && r == q[..i] + q[i + 1..]
  {
    var i := FirstWhere(q, (x: Request) => x.txn == t && x.lockType == Exclusive);
    if i.Some? then
      assert q[i.value] == Request(t, Exclusive);
      assert forall k :: 0 <= k < i.value ==> q[..i.value][k] == q[k];
      RemoveAt(q, i.value)
    else q
  }


  /** The queue release grants from: on an S lock, the caller's first X
      request has been removed by the promotion step. */
  function GrantQueue(lock: TableLock, t: Txn): (q: seq<Request>)
    ensures forall x :: x in q ==> x in lock.queue
    ensures lock.lockType == Exclusive ==> q == lock.queue
    ensures lock.lockType == Shared ==>
              (|q| + 1 == |lock.queue| <==> exists i :: 0 <= i < |lock.queue| && lock.queue[i] == Request(t, Exclusive))
    ensures lock.lockType == Shared && |q| + 1 != |lock.queue| ==> q == lock.queue
  {
    if lock.lockType == Shared then Promote(lock.queue, t) else lock.queue
  }

  /** The request release grants: the first X request of a remaining owner,
      or else the first X request. */
  function Chosen(q: seq<Request>, owners: set<Txn>): (r: Option<nat>)
    ensures r.Some? ==> r.value < |q| && q[r.value].lockType == Exclusive
    ensures r.None? <==> forall i :: 0 <= i < |q| ==> q[i].lockType == Shared
    ensures r.Some? && q[r.value].txn !in owners ==>
              forall i :: 0 <= i < |q| && q[i].lockType == Exclusive ==> q[i].txn !in owners
    ensures r.Some? ==> forall i :: 0 <= i < r.value ==> !(q[i].lockType == Exclusive && q[i].txn in owners)
    ensures r.Some? && q[r.value].txn !in owners ==> forall i :: 0 <= i < r.value ==> q[i].lockType == Shared
  {
    var i := FirstWhere(q, (x: Request) => x.lockType == Exclusive && x.txn in owners);
    if i.Some? then i else FirstWhere(q, (x: Request) => x.lockType == Exclusive)
  }

  /** The lock after the grant: the chosen X request alone, or every waiting
      transaction sharing the lock with an emptied queue. Every transaction
      granted is set running. */
  function Grant(q: seq<Request>, owners: set<Txn>): (r: (TableLock, set<Event>))
    ensures Chosen(q, owners).Some? ==>
              var i := Chosen(q, owners).value;
              r == (TableLock(Exclusive, {q[i].txn}, RemoveAt(q, i)), {Resumed(q[i].txn)})
    ensures Chosen(q, owners).None? ==>
              && r.0 == TableLock(Shared, Requesters(q), [])
              && forall e :: e in r.1 <==> e.Resumed? && e.txn in Requesters(q)
  {
    match Chosen(q, owners)
    case Some(i) => (TableLock(q[i].lockType, {q[i].txn}, RemoveAt(q, i)), {Resumed(q[i].txn)})
    case None => (TableLock(Shared, Requesters(q), []), set x | x in q :: Resumed(x.txn))
  }

  /** release: a waiting caller or an unlocked table throws
      IllegalArgumentException. Otherwise the caller leaves the owners; with
      more than one owner left nothing else happens; with nobody waiting the
      lock keeps its one remaining owner or the table becomes unlocked;
      otherwise the lock goes to the waiting requests. */
  function Release(lm: LockManager, t: Txn, status: Status, table: string): (r: Result<Outcome>)
    ensures r.Fail? <==> status == Waiting || table !in lm.locks
    ensures r.Fail? ==> r.error == IllegalArgument
    ensures r.Ok? ==> r.value.manager.policy == lm.policy
    ensures r.Ok? ==> r.value.manager.locks - {table} == lm.locks - {table}
  {
    if status == Waiting then Fail(IllegalArgument)
    else if table !in lm.locks then Fail(IllegalArgument)
    else
      var lock := lm.locks[table];
      var owners := lock.owners - {t};
      if |owners| > 1 then Ok(Outcome(Put(lm, table, lock.(owners := owners)), {}))
      else if lock.queue == [] then
        if owners == {} then Ok(Outcome(lm.(locks := lm.locks - {table}), {}))
        else Ok(Outcome(Put(lm, table, lock.(owners := owners)), {}))
      else
        var (lock', events) := Grant(GrantQueue(lock, t), owners);
        Ok(Outcome(Put(lm, table, lock'), events))
  }

  /** With more than one other owner, release only removes the caller. */
  lemma ReleaseShared(lm: LockManager, t: Txn, status: Status, table: string)
    requires status != Waiting && table in lm.locks && |lm.locks[table].owners - {t}| > 1
    ensures var lock := lm.locks[table];
            Release(lm, t, status, table) == Ok(Outcome(Put(lm, table, lock.(owners := lock.owners - {t})), {}))
  {
  }

  /** With nobody waiting, the last owner's release unlocks the table, and a
      release that leaves one owner keeps the lock for it. */
  lemma ReleaseIdle(lm: LockManager, t: Txn, status: Status, table: string)
    requires status != Waiting && table in lm.locks && lm.locks[table].queue == []
    requires |lm.locks[table].owners - {t}| <= 1
    ensures var lock := lm.locks[table];
            var o := Release(lm, t, status, table).value;
            && Release(lm, t, status, table).Ok? && o.events == {}
            && (lock.owners - {t} == {} ==> table !in o.manager.locks)
            && (lock.owners - {t} != {} ==> o.manager.locks[table] == lock.(owners := lock.owners - {t}))
  {
  }

  /** With at most one other owner and requests waiting, release grants
      exactly one X request when one waits: the remaining owner's first, or
      else the first in the queue (the preference `Chosen` states). The
      grantee becomes the sole owner, is set running, and its request leaves
      the queue; every other owner loses the lock. */
  lemma ReleaseGrantsExclusive(lm: LockManager, t: Txn, status: Status, table: string)
    requires status != Waiting && table in lm.locks && lm.locks[table].queue != []
    requires |lm.locks[table].owners - {t}| <= 1
    requires Chosen(GrantQueue(lm.locks[table], t), lm.locks[table].owners - {t}).Some?
    ensures var q := GrantQueue(lm.locks[table], t);
            var i := Chosen(q, lm.locks[table].owners - {t}).value;
            Release(lm, t, status, table) ==
              Ok(Outcome(Put(lm, table, TableLock(Exclusive, {q[i].txn}, RemoveAt(q, i))), {Resumed(q[i].txn)}))
  {
  }

  /** With at most one other owner and only S requests waiting, release
      grants S to every waiting transaction, sets each running and empties
      the queue; the previous owners lose the lock. */
  lemma ReleaseGrantsShared(lm: LockManager, t: Txn, status: Status, table: string)
    requires status != Waiting && table in lm.locks && lm.locks[table].queue != []
    requires |lm.locks[table].owners - {t}| <= 1
    requires forall i :: 0 <= i < |GrantQueue(lm.locks[table], t)| ==> GrantQueue(lm.locks[table], t)[i].lockType == Shared
    ensures var q := GrantQueue(lm.locks[table], t);
            var o := Release(lm, t, status, table).value;
            && Release(lm, t, status, table).Ok?
            && o.manager == Put(lm, table, TableLock(Shared, Requesters(q), []))
            && forall e :: e in o.events <==> e.Resumed? && e.txn in Requesters(q)
  {
  }

  /** A caller with no waiting request holds nothing on the table after
      releasing it. */
  lemma ReleaseLetsGo(lm: LockManager, t: Txn, status: Status, table: string, ty: LockType)
    requires Release(lm, t, status, table).Ok? && !Queued(lm, t, table)
    ensures !Holds(Release(lm, t, status, table).value.manager, t, table, ty)
  {
    var lock := lm.locks[table];
    var owners := lock.owners - {t};
    if !(|owners| > 1) && lock.queue != [] {
        var q := GrantQueue(lock, t);
      var c := Chosen(q, owners);
      if c.Some? {
        assert q[c.value] in lock.queue;
      }
    }
  }

  /** release keeps every exclusive lock with exactly one owner. */
  lemma ReleaseKeepsConsistent(lm: LockManager, t: Txn, status: Status, table: string)
    requires Consistent(lm) && Release(lm, t, status, table).Ok?
    ensures Consistent(Release(lm, t, status, table).value.manager)
  {
    var lm' := Release(lm, t, status, table).value.manager;
    var lock := lm.locks[table];
    forall n | n in lm'.locks && lm'.locks[n].lockType == Exclusive
      ensures |lm'.locks[n].owners| == 1
    {
      if n != table {
        assert n in lm'.locks - {table};
      }
    }
  }

  /* ---------------------------------------------------------------------- */
  /* Behaviour as written                                                   */
  /* ---------------------------------------------------------------------- */

  /** A manager built with None resolves conflicts exactly as Wound-Wait. */
  lemma NoAvoidanceIsWoundWait(lm: LockManager, t: Txn, status: Status, table: string, ty: LockType)
    requires lm.policy == NoAvoidance
    ensures var a := Acquire(lm, t, status, table, ty);
            var b := Acquire(lm.(policy := WoundWait), t, status, table, ty);
            a.Ok? <==> b.Ok?
    ensures var a := Acquire(lm, t, status, table, ty);
            var b := Acquire(lm.(policy := WoundWait), t, status, table, ty);
            a.Ok? ==> a.value.events == b.value.events && a.value.manager.locks == b.value.manager.locks
  {
  }

  /** Under Wait-Die an S co-owner asking for X always aborts: it counts
      among the owners it must be older than, and it is not older than
      itself. */
  lemma CoOwnerUpgradeDies(lm: LockManager, t: Txn, status: Status, table: string)
    requires status != Waiting && lm.policy == WaitDie && table in lm.locks
    requires lm.locks[table].lockType == Shared && t in lm.locks[table].owners && |lm.locks[table].owners| >= 2
    ensures Acquire(lm, t, status, table, Exclusive) == Ok(Outcome(lm, {Aborted(t)}))
  {
    var lock := lm.locks[table];
    assert |{t}| == 1;
    AcquireWaitDie(lm, t, status, table, Exclusive);
  }

  /** When one owner remains and requests are waiting, release gives the lock
      to the waiting requests and the remaining owner loses it unless it is
      itself granted. */
  lemma ReleaseDropsLastOwner(lm: LockManager, t: Txn, status: Status, table: string, u: Txn, ty: LockType)
    requires status != Waiting && table in lm.locks && lm.locks[table].queue != []
    requires lm.locks[table].owners - {t} == {u} && !Queued(lm, u, table)
    ensures Release(lm, t, status, table).Ok?
    ensures !Holds(Release(lm, t, status, table).value.manager, u, table, ty)
  {
    var lock := lm.locks[table];
    var q := GrantQueue(lock, t);
    var c := Chosen(q, {u});
    if c.Some? {
      assert q[c.value] in lock.queue;
    }
  }

  /** A concrete run of the promotion step. Transactions 1 and 2 share the
      table and 1, running again, has an X request waiting. When 1 releases,
      its request leaves the queue, but the lock it was promoted to is
      replaced: the grant finds no X request left and installs an S lock
      with no owner at all, dropping 2. */
  lemma PromotionIsLost()
    ensures var t1, t2 := Txn(1, 1), Txn(2, 2);
            var lm := LockManager(WaitDie, map["t" := TableLock(Shared, {t1, t2}, [Request(t1, Exclusive)])]);
            Release(lm, t1, Running, "t") ==
              Ok(Outcome(LockManager(WaitDie, map["t" := TableLock(Shared, {}, [])]), {}))
  {
    var t1, t2 := Txn(1, 1), Txn(2, 2);
    var lm := LockManager(WaitDie, map["t" := TableLock(Shared, {t1, t2}, [Request(t1, Exclusive)])]);
    var lock := lm.locks["t"];
    assert lock.owners - {t1} == {t2};
    assert |lock.owners - {t1}| == 1;
    assert FirstWhere(lock.queue, (x: Request) => x.txn == t1 && x.lockType == Exclusive) == Some(0);
    var q := Promote(lock.queue, t1);
    assert q == [];
    assert Requesters(q) == {};
    assert Chosen(q, {t2}) == None;
    var g := Grant(q, {t2});
    assert g.0 == TableLock(Shared, {}, []);
    assert forall e :: e !in g.1;
    assert g.1 == {};
    assert lm.locks["t" := TableLock(Shared, {}, [])] == map["t" := TableLock(Shared, {}, [])];
  }
}

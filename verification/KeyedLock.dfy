/** The master's per-keyspace lock: a map of reference-counted mutexes under one map lock, with
    threads interleaving between the map section and the mutex operation. */
module KeyedLock {

  type Thread = nat

  /** A thread between calls; inside `lock`, waiting for its mutex; between `lock` and `unlock`;
      inside `unlock`, past the map section; or stopped by a failed mutex operation. */
  datatype Place =
    | Outside
    | Waiting(keyspace: string, mutex: nat)
    | Holding(keyspace: string, mutex: nat)
    | Releasing(keyspace: string, mutex: nat)
    | Crashed

  datatype Owner = Free | Held(thread: Thread)

  datatype Mutex = Mutex(counter: int, owner: Owner)

  /** `entries` is keyspaceMutexMap; a mutex object is known by when it was made. */
  datatype State = State(entries: map<string, nat>, mutexes: seq<Mutex>, places: map<Thread, Place>)

  datatype Action =
    | LockEnter(thread: Thread, keyspace: string)
    | LockAcquire(thread: Thread)
    | UnlockEnter(thread: Thread)
    | UnlockRelease(thread: Thread)

  /** Between the map section of `lock` and the map section of `unlock`. */
  predicate Uses(p: Place, keyspace: string) {
    (p.Waiting? || p.Holding?) && p.keyspace == keyspace
  }

  predicate Owns(p: Place, mutex: nat) {
    (p.Holding? || p.Releasing?) && p.mutex == mutex
  }

  /** Between `lock` and `unlock`. */
  predicate Inside(p: Place, keyspace: string) {
    p.Holding? && p.keyspace == keyspace
  }

  function Users(s: State, keyspace: string): set<Thread> {
    set t | t in s.places && Uses(s.places[t], keyspace)
  }

  // ---- the steps -----------------------------------------------------------------------------

  predicate Enabled(s: State, a: Action) {
    && a.thread in s.places
    && var p := s.places[a.thread];
       match a
       case LockEnter(_, _) => p.Outside?
       case LockAcquire(_) => p.Waiting? && (p.mutex < |s.mutexes| ==> s.mutexes[p.mutex].owner.Free?)
       case UnlockEnter(_) => p.Holding?
       case UnlockRelease(_) => p.Releasing?
  }

  function At(s: State, t: Thread, p: Place): State {
    s.(places := s.places[t := p])
  }

  /** The map section of `lock`: find or make the mutex, and count in. */
  function DoLockEnter(s: State, t: Thread, keyspace: string): State {
    if keyspace !in s.entries then
      At(s.(entries := s.entries[keyspace := |s.mutexes|], mutexes := s.mutexes + [Mutex(1, Free)]),
         t, Waiting(keyspace, |s.mutexes|))
    else
      var m := s.entries[keyspace];
      if m >= |s.mutexes| then At(s, t, Crashed)
      else
        var counted := s.mutexes[m].(counter := s.mutexes[m].counter + 1);
        At(s.(mutexes := s.mutexes[m := counted]), t, Waiting(keyspace, m))
  }

  function DoLockAcquire(s: State, t: Thread, keyspace: string, m: nat): State {
    if m >= |s.mutexes| then At(s, t, Crashed)
    else At(s.(mutexes := s.mutexes[m := s.mutexes[m].(owner := Held(t))]), t, Holding(keyspace, m))
  }

  /** The map section of `unlock`: look the mutex up again, count out, and drop the entry at zero. */
  function DoUnlockEnter(s: State, t: Thread, keyspace: string): State {
    if keyspace !in s.entries || s.entries[keyspace] >= |s.mutexes| then At(s, t, Crashed)
    else
      var m := s.entries[keyspace];
      var left := s.mutexes[m].counter - 1;
      At(s.(mutexes := s.mutexes[m := s.mutexes[m].(counter := left)],
            entries := if left == 0 then s.entries - {keyspace} else s.entries),
         t, Releasing(keyspace, m))
  }

  function DoUnlockRelease(s: State, t: Thread, m: nat): State {
    if m >= |s.mutexes| || s.mutexes[m].owner.Free? then At(s, t, Crashed)
    else At(s.(mutexes := s.mutexes[m := s.mutexes[m].(owner := Free)]), t, Outside)
  }

  function Do(s: State, a: Action): State
    requires Enabled(s, a)
  {
    var p := s.places[a.thread];
    match a
    case LockEnter(t, keyspace) => DoLockEnter(s, t, keyspace)
    case LockAcquire(t) => DoLockAcquire(s, t, p.keyspace, p.mutex)
    case UnlockEnter(t) => DoUnlockEnter(s, t, p.keyspace)
    case UnlockRelease(t) => DoUnlockRelease(s, t, p.mutex)
  }

  // ---- the invariant ---------------------------------------------------------------------------

  ghost predicate EntriesOk(s: State) {
    && (forall k | k in s.entries :: s.entries[k] < |s.mutexes|)
    && (forall j, k | j in s.entries && k in s.entries && j != k :: s.entries[j] != s.entries[k])
  }

  /** Waiters and holders use the very mutex the map names. */
  ghost predicate SharedOk(s: State) {
    forall t | t in s.places ::
      && !s.places[t].Crashed?
      && (s.places[t].Waiting? || s.places[t].Holding? ==>
            s.places[t].keyspace in s.entries && s.entries[s.places[t].keyspace] == s.places[t].mutex)
  }

  /** A mutex is held by exactly the thread that is past acquiring and before releasing it. */
  ghost predicate OwnersOk(s: State) {
    && (forall t | t in s.places && (s.places[t].Holding? || s.places[t].Releasing?) ::
          s.places[t].mutex < |s.mutexes| && s.mutexes[s.places[t].mutex].owner == Held(t))
    && (forall m | 0 <= m < |s.mutexes| && s.mutexes[m].owner.Held? ::
          s.mutexes[m].owner.thread in s.places && Owns(s.places[s.mutexes[m].owner.thread], m))
  }

  ghost predicate CountsOk(s: State)
    requires EntriesOk(s)
  {
    forall k | k in s.entries :: s.mutexes[s.entries[k]].counter == |Users(s, k)| > 0
  }

  ghost predicate Inv(s: State) {
    EntriesOk(s) && SharedOk(s) && OwnersOk(s) && CountsOk(s)
  }

  predicate Init(s: State) {
    s.entries == map[] && s.mutexes == [] && forall t | t in s.places :: s.places[t] == Outside
  }

  lemma NoUsers(s: State, keyspace: string)
    requires SharedOk(s) && keyspace !in s.entries
    ensures Users(s, keyspace) == {}
  {
  }

  lemma LockEnterKeepsEntries(s: State, t: Thread, keyspace: string)
    requires EntriesOk(s) && SharedOk(s) && t in s.places && s.places[t].Outside?
    ensures EntriesOk(DoLockEnter(s, t, keyspace))
    ensures SharedOk(DoLockEnter(s, t, keyspace))
  {
  }

  lemma LockEnterKeepsOwners(s: State, t: Thread, keyspace: string)
    requires EntriesOk(s) && OwnersOk(s) && t in s.places && s.places[t].Outside?
    ensures OwnersOk(DoLockEnter(s, t, keyspace))
  {
  }

  lemma LockEnterKeepsInv(s: State, t: Thread, keyspace: string)
    requires Inv(s) && t in s.places && s.places[t].Outside?
    ensures Inv(DoLockEnter(s, t, keyspace))
  {
    LockEnterKeepsEntries(s, t, keyspace);
    LockEnterKeepsOwners(s, t, keyspace);
    var r := DoLockEnter(s, t, keyspace);
    assert Users(r, keyspace) == Users(s, keyspace) + {t};
    assert CountsOk(r) by {
      hide OwnersOk;
      if keyspace !in s.entries {
        NoUsers(s, keyspace);
      }
      forall k | k in r.entries
        ensures r.mutexes[r.entries[k]].counter == |Users(r, k)| > 0
      {
        if k != keyspace {
          assert Users(r, k) == Users(s, k);
        }
      }
    }
  }

  lemma LockAcquireKeepsInv(s: State, t: Thread)
    requires Inv(s) && Enabled(s, LockAcquire(t))
    ensures Inv(Do(s, LockAcquire(t)))
  {
    var r := Do(s, LockAcquire(t));
    forall k | k in r.entries
      ensures r.mutexes[r.entries[k]].counter == |Users(r, k)| > 0
    {
      assert Users(r, k) == Users(s, k);
    }
  }

  lemma UnlockEnterKeepsInv(s: State, t: Thread)
    requires Inv(s) && Enabled(s, UnlockEnter(t))
    ensures Inv(Do(s, UnlockEnter(t)))
  {
    var keyspace := s.places[t].keyspace;
    var r := Do(s, UnlockEnter(t));
    assert Users(r, keyspace) == Users(s, keyspace) - {t};
    assert t in Users(s, keyspace);
    forall k | k in r.entries
      ensures r.mutexes[r.entries[k]].counter == |Users(r, k)| > 0
    {
      if k != keyspace {
        assert Users(r, k) == Users(s, k);
      }
    }
    forall u | u in r.places && Uses(r.places[u], keyspace)
      ensures keyspace in r.entries
    {
      assert u in Users(r, keyspace);
    }
  }

  lemma UnlockReleaseKeepsInv(s: State, t: Thread)
    requires Inv(s) && Enabled(s, UnlockRelease(t))
    ensures Inv(Do(s, UnlockRelease(t)))
  {
    var r := Do(s, UnlockRelease(t));
    forall k | k in r.entries
      ensures r.mutexes[r.entries[k]].counter == |Users(r, k)| > 0
    {
      assert Users(r, k) == Users(s, k);
    }
  }

  lemma StepKeepsInv(s: State, a: Action)
    requires Inv(s) && Enabled(s, a)
    ensures Inv(Do(s, a))
  {
    match a
    case LockEnter(t, keyspace) => LockEnterKeepsInv(s, t, keyspace);
    case LockAcquire(t) => LockAcquireKeepsInv(s, t);
    case UnlockEnter(t) => UnlockEnterKeepsInv(s, t);
    case UnlockRelease(t) => UnlockReleaseKeepsInv(s, t);
  }

  // ---- results over whole runs -------------------------------------------------------------------

  ghost predicate ValidRun(s: State, run: seq<Action>)
    decreases |run|
  {
    run == [] || (Enabled(s, run[0]) && ValidRun(Do(s, run[0]), run[1..]))
  }

  ghost function Final(s: State, run: seq<Action>): State
    requires ValidRun(s, run)
    decreases |run|
  {
    if run == [] then s else Final(Do(s, run[0]), run[1..])
  }

  lemma {:induction false} RunKeepsInv(s: State, run: seq<Action>)
    requires Inv(s) && ValidRun(s, run)
    ensures Inv(Final(s, run))
    decreases |run|
  {
    hide Inv;
    if run != [] {
      StepKeepsInv(s, run[0]);
      RunKeepsInv(Do(s, run[0]), run[1..]);
    }
  }

  lemma InitOk(s: State)
    requires Init(s)
    ensures Inv(s)
  {
  }

  /** Mutual exclusion, in every interleaving: two threads between `lock` and `unlock` of one
      keyspace are the same thread; no mutex operation ever fails. */
  lemma MutualExclusion(s0: State, run: seq<Action>, keyspace: string, t: Thread, u: Thread)
    requires Init(s0) && ValidRun(s0, run)
    ensures var s := Final(s0, run);
            && (t in s.places ==> !s.places[t].Crashed?)
            && (t in s.places && Inside(s.places[t], keyspace) ==>
                  u in s.places && Inside(s.places[u], keyspace) ==> t == u)
  {
    InitOk(s0);
    RunKeepsInv(s0, run);
  }

  /** Every waiter and the holder of a keyspace share the one mutex in the map, and the entry is
      there exactly while some thread waits or holds, although it is deleted before the mutex is
      released. */
  lemma EntryExactlyWhileUsed(s0: State, run: seq<Action>, keyspace: string)
    requires Init(s0) && ValidRun(s0, run)
    ensures var s := Final(s0, run);
            && (keyspace in s.entries <==> Users(s, keyspace) != {})
            && (forall t | t in Users(s, keyspace) ::
                  keyspace in s.entries && s.places[t].mutex == s.entries[keyspace] < |s.mutexes|)
            && (keyspace in s.entries ==> s.entries[keyspace] < |s.mutexes|
                                          && s.mutexes[s.entries[keyspace]].counter == |Users(s, keyspace)|)
  {
    InitOk(s0);
    RunKeepsInv(s0, run);
    var s := Final(s0, run);
    if keyspace !in s.entries {
      NoUsers(s, keyspace);
    }
  }

  /** A waiter is never stranded: its mutex is free for it, or some thread holds it that can take
      its own next step towards releasing it. */
  lemma WaiterNotStranded(s0: State, run: seq<Action>, t: Thread)
    requires Init(s0) && ValidRun(s0, run)
    requires var s := Final(s0, run); t in s.places && s.places[t].Waiting?
    ensures var s := Final(s0, run);
            || Enabled(s, LockAcquire(t))
            || exists u :: u in s.places && Owns(s.places[u], s.places[t].mutex)
                           && (Enabled(s, UnlockEnter(u)) || Enabled(s, UnlockRelease(u)))
  {
    InitOk(s0);
    RunKeepsInv(s0, run);
    var s := Final(s0, run);
    var m := s.places[t].mutex;
    if s.mutexes[m].owner.Held? {
      var u := s.mutexes[m].owner.thread;
      assert u in s.places && Owns(s.places[u], m);
      assert Enabled(s, UnlockEnter(u)) || Enabled(s, UnlockRelease(u));
    }
  }
}

/** Inode numbers of packages: pkgIno, allocInodes, getPkgTx and GetInode of
    apkgdb/lookup.go and apkgdb/package.go, as atomic steps of any number of
    concurrent lookups in a root database and its sub-databases. */
module InodeRanges {
  import opened Bytes

  type Hash = Bytes

  const FIRST_INODE := 1000
  const TWO64 := 0x1_0000_0000_0000_0000

  /** A spawned package; its numbers are start .. start + inodes. */
  datatype Package = Package(hash: Hash, start: nat, inodes: nat)

  /** What does not change during a run: the inode count the index records for
      a hash, whether the package table holds the hash, and which databases of
      the family (0 is the root) have the hash in their index. */
  datatype World = World(dbs: nat, count: Hash -> nat, stored: Hash -> bool, lives: (Hash, nat) -> bool)

  /** One call of internalLookup, after the index has named a package. */
  datatype Thread =
    | Idle
    | Check(db: nat, hash: Hash)               // before the read-locked look at pkgI
    | Want(db: nat, hash: Hash)                // missed; before taking the write lock
    | Locked(db: nat, hash: Hash)              // holds pkgIlk, checked again; before allocInodes
    | Alloced(db: nat, hash: Hash, ino: nat)   // holds pkgIlk; before storing into pkgI
    | Have(db: nat, hash: Hash, ino: nat)      // pkgIno returned; before the look at pkgCache
    | Miss(db: nat, hash: Hash, ino: nat)      // not cached; before the locked insertion
    | Done(db: nat, hash: Hash, ino: nat)      // the lookup succeeded
    | Failed

  datatype Range = Range(db: nat, hash: Hash, start: nat, len: nat)

  /** Shared memory, the threads, and the allocations made so far. */
  datatype State = State(
    nextI: nat,
    pkgI: seq<map<Hash, nat>>,
    lock: seq<Option<nat>>,
    cache: map<Hash, Package>,
    tree: map<nat, Package>,
    threads: seq<Thread>,
    log: seq<Range>)

  datatype Action = Begin(db: nat, hash: Hash) | Continue

  ghost predicate Init(w: World, s: State) {
    && s.nextI == FIRST_INODE && s.cache == map[] && s.tree == map[] && s.log == []
    && |s.pkgI| == |s.lock| == w.dbs
    && (forall d | 0 <= d < w.dbs :: s.pkgI[d] == map[] && s.lock[d] == None)
    && (forall t | 0 <= t < |s.threads| :: s.threads[t] == Idle)
  }

  predicate Shaped(w: World, s: State) {
    && |s.pkgI| == |s.lock| == w.dbs
    && (forall t | 0 <= t < |s.threads| && s.threads[t] != Idle && s.threads[t] != Failed ::
          s.threads[t].db < w.dbs)
  }

  /** allocInodes: the root's counter is an unsigned 64-bit number. */
  function Alloc(nextI: nat, c: nat): nat {
    (nextI + c) % TWO64
  }

  /** The next atomic step of thread `t`; None when it is blocked or finished. */
  function Next(w: World, s: State, t: nat, a: Action): Option<State>
    requires Shaped(w, s) && t < |s.threads|
  {
    match s.threads[t]
    case Idle =>
      if a.Begin? && a.db < w.dbs && w.lives(a.hash, a.db) then Some(Move(s, t, Check(a.db, a.hash)))
      else None
    case Check(d, h) =>
      if s.lock[d].Some? then None   // RLock waits for the writer
      else if h in s.pkgI[d] then Some(Move(s, t, Have(d, h, s.pkgI[d][h])))
      else Some(Move(s, t, Want(d, h)))
    case Want(d, h) =>
      if s.lock[d].Some? then None
      else if h in s.pkgI[d] then Some(Move(s, t, Have(d, h, s.pkgI[d][h])))
      else Some(Move(s, t, Locked(d, h)).(lock := s.lock[d := Some(t)]))
    case Locked(d, h) =>
      var c := (w.count(h) + 1) % TWO64;
      Some(Move(s, t, Alloced(d, h, s.nextI)).(
             nextI := Alloc(s.nextI, c),
             log := s.log + [Range(d, h, s.nextI, w.count(h) + 1)]))
    case Alloced(d, h, v) =>
      Some(Move(s, t, Have(d, h, v)).(
             pkgI := s.pkgI[d := Stored(s.pkgI[d], h, v)],
             lock := s.lock[d := None]))
    case Have(d, h, v) =>
      if h in s.cache then Some(Move(s, t, Done(d, h, v)))
      else Some(Move(s, t, Miss(d, h, v)))
    case Miss(d, h, v) =>
      if !w.stored(h) then Some(Move(s, t, Failed))
      else if h in s.cache then Some(Move(s, t, Done(d, h, v)))
      else
        var p := Package(h, v, w.count(h));
        Some(Move(s, t, Done(d, h, v)).(
               cache := s.cache[h := p],
               tree := s.tree[v := p]))   // ReplaceOrInsert orders by startIno
    case Done(_, _, _) => None
    case Failed => None
  }

  function Stored(m: map<Hash, nat>, h: Hash, v: nat): map<Hash, nat> {
    m[h := v]
  }

  function Move(s: State, t: nat, th: Thread): State
    requires t < |s.threads|
  {
    s.(threads := s.threads[t := th])
  }

  // ----- The invariant

  /** Where the allocations so far end. */
  function End(log: seq<Range>): nat {
    if log == [] then FIRST_INODE else log[|log| - 1].start + log[|log| - 1].len
  }

  /** The ranges lie end to end from 1000 on, one of size count + 1 for each hash of a database. */
  ghost predicate Tiled(w: World, log: seq<Range>) {
    && (forall i | 0 <= i < |log| ::
          log[i].start == End(log[..i]) && log[i].len == w.count(log[i].hash) + 1)
    && (forall i, j | 0 <= i < j < |log| :: log[i].hash == log[j].hash ==> log[i].db != log[j].db)
  }

  ghost predicate Logged(log: seq<Range>, d: nat, h: Hash, v: nat) {
    exists i :: 0 <= i < |log| && log[i].db == d && log[i].hash == h && log[i].start == v
  }

  ghost predicate Known(pkgI: seq<map<Hash, nat>>, d: nat, h: Hash, v: nat) {
    d < |pkgI| && h in pkgI[d] && pkgI[d][h] == v
  }

  ghost predicate Numbered(pkgI: seq<map<Hash, nat>>, h: Hash, v: nat) {
    exists d: nat :: Known(pkgI, d, h, v)
  }

  predicate Holding(th: Thread, d: nat) {
    (th.Locked? || th.Alloced?) && th.db == d
  }

  /** A held pkgIlk is held by a thread inside its critical section, and such a thread holds it. */
  ghost predicate LockInv(lock: seq<Option<nat>>, threads: seq<Thread>) {
    && (forall d | 0 <= d < |lock| && lock[d].Some? ::
          lock[d].value < |threads| && Holding(threads[lock[d].value], d))
    && (forall t, d | 0 <= t < |threads| && 0 <= d < |lock| && Holding(threads[t], d) ::
          lock[d] == Some(t))
  }

  ghost predicate ThreadInv(w: World, pkgI: seq<map<Hash, nat>>, cache: map<Hash, Package>, log: seq<Range>,
                            th: Thread)
  {
    && (th != Idle && th != Failed ==> th.db < |pkgI| == w.dbs && w.lives(th.hash, th.db))
    && match th
       case Locked(d, h) => h !in pkgI[d]
       case Alloced(d, h, v) => h !in pkgI[d] && Logged(log, d, h, v)
       case Have(d, h, v) => Known(pkgI, d, h, v)
       case Miss(d, h, v) => Known(pkgI, d, h, v)
       case Done(d, h, v) => Known(pkgI, d, h, v) && h in cache
       case _ => true
  }

  /** The owner of a range is stored in pkgI, or about to be stored by the lock holder. */
  ghost predicate Owned(pkgI: seq<map<Hash, nat>>, lock: seq<Option<nat>>, threads: seq<Thread>, r: Range) {
    && r.db < |pkgI| == |lock|
    && (r.hash in pkgI[r.db]
        || (&& lock[r.db].Some? && lock[r.db].value < |threads|
            && threads[lock[r.db].value].Alloced? && threads[lock[r.db].value].hash == r.hash))
  }

  ghost predicate StoredInv(w: World, pkgI: seq<map<Hash, nat>>, log: seq<Range>) {
    forall d, h, v | Known(pkgI, d, h, v) :: Logged(log, d, h, v) && w.lives(h, d)
  }

  ghost predicate CacheInv(w: World, pkgI: seq<map<Hash, nat>>, cache: map<Hash, Package>, tree: map<nat, Package>) {
    && (forall h | h in cache ::
          && cache[h].hash == h && cache[h].inodes == w.count(h) && w.stored(h)
          && Numbered(pkgI, h, cache[h].start)
          && cache[h].start in tree && tree[cache[h].start] == cache[h])
    && (forall k | k in tree :: tree[k].start == k && tree[k].hash in cache && cache[tree[k].hash] == tree[k])
  }

  ghost predicate Inv(w: World, s: State) {
    && |s.pkgI| == |s.lock| == w.dbs
    && Tiled(w, s.log) && s.nextI == End(s.log)
    && LockInv(s.lock, s.threads)
    && (forall i | 0 <= i < |s.log| :: Owned(s.pkgI, s.lock, s.threads, s.log[i]))
    && StoredInv(w, s.pkgI, s.log)
    && CacheInv(w, s.pkgI, s.cache, s.tree)
    && (forall t | 0 <= t < |s.threads| :: ThreadInv(w, s.pkgI, s.cache, s.log, s.threads[t]))
  }

  lemma InitInv(w: World, s: State)
    requires Init(w, s)
    ensures Inv(w, s)
  {
  }

  /** The counter has not reached 2^64. */
  predicate NoOverflow(s: State) {
    FIRST_INODE + Total(s.log) < TWO64
  }

  function Total(log: seq<Range>): nat {
    if log == [] then 0 else Total(log[..|log| - 1]) + log[|log| - 1].len
  }

  lemma {:induction false} TiledTotal(w: World, log: seq<Range>)
    requires Tiled(w, log)
    ensures End(log) == FIRST_INODE + Total(log)
  {
    if log != [] {
      var front := log[..|log| - 1];
      assert forall i | 0 <= i < |front| :: log[..i] == front[..i];
      TiledTotal(w, front);
    }
  }

  lemma {:induction false} TotalGrows(log: seq<Range>, log': seq<Range>)
    requires log <= log'
    ensures Total(log) <= Total(log')
    decreases |log'|
  {
    if log != log' {
      TotalGrows(log, log'[..|log'| - 1]);
    }
  }

  /** Every atomic step keeps the invariant. */
  lemma StepInv(w: World, s: State, t: nat, a: Action, s': State)
    requires Inv(w, s) && Shaped(w, s) && t < |s.threads| && Next(w, s, t, a) == Some(s')
    requires NoOverflow(s')
    ensures Inv(w, s')
  {
    hide Tiled, LockInv, StoredInv, CacheInv, Owned, End, Alloc;
    var th := s.threads[t];
    assert ThreadInv(w, s.pkgI, s.cache, s.log, th);
    match th
    case Want(d, h) =>
      if h in s.pkgI[d] {
        MoveInv(w, s, t, Have(d, h, s.pkgI[d][h]));
      } else {
        AcquireInv(w, s, t);
      }
    case Locked(d, h) => AllocInv(w, s, t, s');
    case Alloced(d, h, v) => StoreInv(w, s, t);
    case Miss(d, h, v) =>
      if w.stored(h) && h !in s.cache {
        SpawnInv(w, s, t);
      } else {
        MoveInv(w, s, t, if w.stored(h) then Done(d, h, v) else Failed);
      }
    case Idle => MoveInv(w, s, t, Check(a.db, a.hash));
    case Check(d, h) =>
      MoveInv(w, s, t, if h in s.pkgI[d] then Have(d, h, s.pkgI[d][h]) else Want(d, h));
    case Have(d, h, v) => MoveInv(w, s, t, if h in s.cache then Done(d, h, v) else Miss(d, h, v));
    case Done(_, _, _) =>
    case Failed =>
  }

  /** Steps that change nothing but the thread's own position. */
  lemma MoveInv(w: World, s: State, t: nat, th: Thread)
    requires Inv(w, s) && t < |s.threads|
    requires !s.threads[t].Locked? && !s.threads[t].Alloced? && !th.Locked? && !th.Alloced?
    requires ThreadInv(w, s.pkgI, s.cache, s.log, th)
    ensures Inv(w, Move(s, t, th))
  {
    var threads' := s.threads[t := th];
    assert LockInv(s.lock, threads');
    forall i | 0 <= i < |s.log|
      ensures Owned(s.pkgI, s.lock, threads', s.log[i])
    {
      assert Owned(s.pkgI, s.lock, s.threads, s.log[i]);
    }
  }

  lemma AcquireInv(w: World, s: State, t: nat)
    requires Inv(w, s) && t < |s.threads| && s.threads[t].Want?
    requires var th := s.threads[t];
             th.db < w.dbs && s.lock[th.db].None? && th.hash !in s.pkgI[th.db]
    ensures var th := s.threads[t];
            Inv(w, Move(s, t, Locked(th.db, th.hash)).(lock := s.lock[th.db := Some(t)]))
  {
    var d, h := s.threads[t].db, s.threads[t].hash;
    var threads', lock' := s.threads[t := Locked(d, h)], s.lock[d := Some(t)];
    AcquireLock(s.lock, s.threads, t, d, h);
    assert ThreadInv(w, s.pkgI, s.cache, s.log, s.threads[t]);
    forall i | 0 <= i < |s.log|
      ensures Owned(s.pkgI, lock', threads', s.log[i])
    {
      assert Owned(s.pkgI, s.lock, s.threads, s.log[i]);
    }
  }

  lemma AcquireLock(lock: seq<Option<nat>>, threads: seq<Thread>, t: nat, d: nat, h: Hash)
    requires LockInv(lock, threads) && t < |threads| && threads[t].Want?
    requires d < |lock| && lock[d].None?
    ensures LockInv(lock[d := Some(t)], threads[t := Locked(d, h)])
  {
  }

  lemma AllocInv(w: World, s: State, t: nat, s': State)
    requires Inv(w, s) && t < |s.threads| && s.threads[t].Locked? && s.threads[t].db < w.dbs
    requires var h := s.threads[t].hash;
             var d := s.threads[t].db;
             s' == Move(s, t, Alloced(d, h, s.nextI)).(
                     nextI := Alloc(s.nextI, (w.count(h) + 1) % TWO64),
                     log := s.log + [Range(d, h, s.nextI, w.count(h) + 1)])
    requires NoOverflow(s')
    ensures Inv(w, s')
  {
    hide Tiled, CacheInv, StoredInv, LockInv, End, Alloc, Total, Logged, Known;
    var d, h := s.threads[t].db, s.threads[t].hash;
    var r := Range(d, h, s.nextI, w.count(h) + 1);
    var th' := Alloced(d, h, s.nextI);
    assert ThreadInv(w, s.pkgI, s.cache, s.log, s.threads[t]);
    HolderLocks(s.lock, s.threads, t, d);
    StoredLogged(w, s.pkgI, s.log, r);
    AllocCounter(w, s.log, s.nextI, r);
    TiledAppend(w, s, r, t);
    SwapHolder(s.lock, s.threads, t, th');
    KeptLogged(s.log, r);
    forall i | 0 <= i < |s'.log|
      ensures Owned(s'.pkgI, s'.lock, s'.threads, s'.log[i])
    {
      if i < |s.log| {
        assert Owned(s.pkgI, s.lock, s.threads, s.log[i]);
        assert s'.log[i] == s.log[i];
      } else {
        assert s'.log[i] == r;
      }
    }
    forall i | 0 <= i < |s.threads|
      ensures ThreadInv(w, s'.pkgI, s'.cache, s'.log, s'.threads[i])
    {
      if i != t {
        LoggedThread(w, s.pkgI, s.cache, s.log, r, s.threads[i]);
      }
    }
  }

  lemma HolderLocks(lock: seq<Option<nat>>, threads: seq<Thread>, t: nat, d: nat)
    requires LockInv(lock, threads) && t < |threads| && d < |lock| && Holding(threads[t], d)
    ensures lock[d] == Some(t)
  {
  }

  lemma StoredLogged(w: World, pkgI: seq<map<Hash, nat>>, log: seq<Range>, r: Range)
    requires StoredInv(w, pkgI, log)
    ensures StoredInv(w, pkgI, log + [r])
  {
    KeptLogged(log, r);
  }

  lemma LoggedThread(w: World, pkgI: seq<map<Hash, nat>>, cache: map<Hash, Package>, log: seq<Range>, r: Range,
                     th: Thread)
    requires ThreadInv(w, pkgI, cache, log, th)
    ensures ThreadInv(w, pkgI, cache, log + [r], th)
  {
    KeptLogged(log, r);
  }

  lemma AllocCounter(w: World, log: seq<Range>, nextI: nat, r: Range)
    requires Tiled(w, log) && nextI == End(log) && r.start == nextI && r.len == w.count(r.hash) + 1
    requires FIRST_INODE + Total(log + [r]) < TWO64
    ensures Alloc(nextI, (w.count(r.hash) + 1) % TWO64) == End(log + [r])
  {
    TiledTotal(w, log);
    hide Tiled, Total, End;
    Grown(log, r);
  }

  lemma Grown(log: seq<Range>, r: Range)
    ensures Total(log + [r]) == Total(log) + r.len && End(log + [r]) == r.start + r.len
  {
    assert (log + [r])[..|log|] == log;
  }

  lemma SwapHolder(lock: seq<Option<nat>>, threads: seq<Thread>, t: nat, th: Thread)
    requires LockInv(lock, threads) && t < |threads| && threads[t].Locked? && th.Alloced?
    requires th.db == threads[t].db
    ensures LockInv(lock, threads[t := th])
  {
  }

  lemma TiledAppend(w: World, s: State, r: Range, t: nat)
    requires Inv(w, s) && r.start == s.nextI && r.len == w.count(r.hash) + 1
    requires r.db < w.dbs && r.hash !in s.pkgI[r.db]
    requires s.lock[r.db] == Some(t) && t < |s.threads| && s.threads[t].Locked?
    ensures Tiled(w, s.log + [r])
  {
    var log := s.log + [r];
    forall i | 0 <= i < |log|
      ensures log[i].start == End(log[..i]) && log[i].len == w.count(log[i].hash) + 1
    {
      assert log[..i] == s.log[..i];
      assert s.log[..|s.log|] == s.log;
    }
    forall i | 0 <= i < |s.log| && s.log[i].hash == r.hash
      ensures s.log[i].db != r.db
    {
      assert Owned(s.pkgI, s.lock, s.threads, s.log[i]);
    }
  }

  lemma KeptLogged(log: seq<Range>, r: Range)
    ensures Logged(log + [r], r.db, r.hash, r.start)
    ensures forall d, h, v | Logged(log, d, h, v) :: Logged(log + [r], d, h, v)
  {
    assert (log + [r])[|log|] == r;
    forall d, h, v | Logged(log, d, h, v)
      ensures Logged(log + [r], d, h, v)
    {
      var i :| 0 <= i < |log| && log[i].db == d && log[i].hash == h && log[i].start == v;
      assert (log + [r])[i] == log[i];
    }
  }

  lemma StoreInv(w: World, s: State, t: nat)
    requires Inv(w, s) && t < |s.threads| && s.threads[t].Alloced? && s.threads[t].db < w.dbs
    ensures var d, h, v := s.threads[t].db, s.threads[t].hash, s.threads[t].ino;
            Inv(w, Move(s, t, Have(d, h, v)).(
                     pkgI := s.pkgI[d := Stored(s.pkgI[d], h, v)],
                     lock := s.lock[d := None]))
  {
    var d, h, v := s.threads[t].db, s.threads[t].hash, s.threads[t].ino;
    hide Tiled, Known, StoredInv, CacheInv, Logged, End, Owned, ThreadInv, LockInv;
    var lock', threads' := s.lock[d := None], s.threads[t := Have(d, h, v)];
    AllocedHolds(w, s, t);
    ReleaseLock(s.lock, s.threads, t, Have(d, h, v));
    StoreThreads(w, s, t);
    forall i | 0 <= i < |s.log|
      ensures Owned(s.pkgI[d := Stored(s.pkgI[d], h, v)], lock', threads', s.log[i])
    {
      StoreOwned(s.pkgI, s.lock, s.threads, t, s.log[i]);
    }
    StoreStored(w, s.pkgI, s.log, d, h, v);
    StoreCache(w, s.pkgI, s.cache, s.tree, d, h, v);
  }

  lemma AllocedHolds(w: World, s: State, t: nat)
    requires Inv(w, s) && t < |s.threads| && s.threads[t].Alloced? && s.threads[t].db < w.dbs
    ensures var d, h, v := s.threads[t].db, s.threads[t].hash, s.threads[t].ino;
            s.lock[d] == Some(t) && h !in s.pkgI[d] && Logged(s.log, d, h, v) && w.lives(h, d)
  {
    assert ThreadInv(w, s.pkgI, s.cache, s.log, s.threads[t]);
    HolderLocks(s.lock, s.threads, t, s.threads[t].db);
  }

  lemma StoreThreads(w: World, s: State, t: nat)
    requires Inv(w, s) && t < |s.threads| && s.threads[t].Alloced? && s.threads[t].db < w.dbs
    ensures var d, h, v := s.threads[t].db, s.threads[t].hash, s.threads[t].ino;
            var threads' := s.threads[t := Have(d, h, v)];
            forall i | 0 <= i < |s.threads| ::
              ThreadInv(w, s.pkgI[d := Stored(s.pkgI[d], h, v)], s.cache, s.log, threads'[i])
  {
    hide Tiled, StoredInv, CacheInv, Logged, End, Owned;
    var d, h, v := s.threads[t].db, s.threads[t].hash, s.threads[t].ino;
    AllocedHolds(w, s, t);
    KeptKnown(s.pkgI, d, h, v);
    forall i | 0 <= i < |s.threads| && i != t
      ensures ThreadInv(w, s.pkgI[d := Stored(s.pkgI[d], h, v)], s.cache, s.log, s.threads[i])
    {
      assert ThreadInv(w, s.pkgI, s.cache, s.log, s.threads[i]);
      StoreThread(w, s, t, s.threads[i], i);
    }
  }

  lemma StoreThread(w: World, s: State, t: nat, th: Thread, i: nat)
    requires LockInv(s.lock, s.threads) && |s.pkgI| == |s.lock| == w.dbs
    requires t < |s.threads| && s.threads[t].Alloced? && s.threads[t].db < w.dbs
    requires i < |s.threads| && i != t && th == s.threads[i]
    requires s.threads[t].hash !in s.pkgI[s.threads[t].db]
    requires ThreadInv(w, s.pkgI, s.cache, s.log, th)
    ensures var d, h, v := s.threads[t].db, s.threads[t].hash, s.threads[t].ino;
            ThreadInv(w, s.pkgI[d := Stored(s.pkgI[d], h, v)], s.cache, s.log, th)
  {
    var d, h, v := s.threads[t].db, s.threads[t].hash, s.threads[t].ino;
    assert Holding(s.threads[t], d) && s.lock[d] == Some(t);
    assert Holding(s.threads[i], d) ==> s.lock[d] == Some(i);
    KeptKnown(s.pkgI, d, h, v);
  }

  lemma StoreOwned(pkgI: seq<map<Hash, nat>>, lock: seq<Option<nat>>, threads: seq<Thread>, t: nat, r: Range)
    requires Owned(pkgI, lock, threads, r)
    requires t < |threads| && threads[t].Alloced? && threads[t].db < |pkgI|
    requires lock[threads[t].db] == Some(t) && LockInv(lock, threads)
    ensures var d, h, v := threads[t].db, threads[t].hash, threads[t].ino;
            Owned(pkgI[d := Stored(pkgI[d], h, v)], lock[d := None], threads[t := Have(d, h, v)], r)
  {
  }

  lemma ReleaseLock(lock: seq<Option<nat>>, threads: seq<Thread>, t: nat, th: Thread)
    requires LockInv(lock, threads) && t < |threads| && threads[t].Alloced? && threads[t].db < |lock|
    requires th.Have?
    ensures LockInv(lock[threads[t].db := None], threads[t := th])
  {
    var d := threads[t].db;
    var lock', threads' := lock[d := None], threads[t := th];
    assert Holding(threads[t], d) && lock[d] == Some(t);
    forall e | 0 <= e < |lock'| && lock'[e].Some?
      ensures lock'[e].value < |threads'| && Holding(threads'[lock'[e].value], e)
    {
      assert Holding(threads[lock[e].value], e);
    }
    forall u, e | 0 <= u < |threads'| && 0 <= e < |lock'| && Holding(threads'[u], e)
      ensures lock'[e] == Some(u)
    {
      assert Holding(threads[u], e);
    }
  }

  lemma KeptKnown(pkgI: seq<map<Hash, nat>>, d: nat, h: Hash, v: nat)
    requires d < |pkgI| && h !in pkgI[d]
    ensures Known(pkgI[d := Stored(pkgI[d], h, v)], d, h, v)
    ensures forall e, g, u | Known(pkgI, e, g, u) :: Known(pkgI[d := Stored(pkgI[d], h, v)], e, g, u)
  {
  }

  lemma StoreStored(w: World, pkgI: seq<map<Hash, nat>>, log: seq<Range>, d: nat, h: Hash, v: nat)
    requires StoredInv(w, pkgI, log) && d < |pkgI| && w.lives(h, d) && Logged(log, d, h, v)
    ensures StoredInv(w, pkgI[d := Stored(pkgI[d], h, v)], log)
  {
    var pkgI' := pkgI[d := Stored(pkgI[d], h, v)];
    forall e, g, u | Known(pkgI', e, g, u)
      ensures Logged(log, e, g, u) && w.lives(g, e)
    {
      assert Known(pkgI, e, g, u) || (e == d && g == h && u == v);
    }
  }

  lemma StoreCache(w: World, pkgI: seq<map<Hash, nat>>, cache: map<Hash, Package>, tree: map<nat, Package>,
                   d: nat, h: Hash, v: nat)
    requires CacheInv(w, pkgI, cache, tree) && d < |pkgI| && h !in pkgI[d]
    ensures CacheInv(w, pkgI[d := Stored(pkgI[d], h, v)], cache, tree)
  {
    KeptKnown(pkgI, d, h, v);
  }

  lemma SpawnInv(w: World, s: State, t: nat)
    requires Inv(w, s) && t < |s.threads| && s.threads[t].Miss? && s.threads[t].hash !in s.cache
    requires w.stored(s.threads[t].hash)
    ensures var d, h, v := s.threads[t].db, s.threads[t].hash, s.threads[t].ino;
            var p := Package(h, v, w.count(h));
            Inv(w, Move(s, t, Done(d, h, v)).(cache := s.cache[h := p], tree := s.tree[v := p]))
  {
    var d, h, v := s.threads[t].db, s.threads[t].hash, s.threads[t].ino;
    var p := Package(h, v, w.count(h));
    assert ThreadInv(w, s.pkgI, s.cache, s.log, s.threads[t]);
    GrowInv(w, s, p);
    MoveInv(w, s.(cache := s.cache[h := p], tree := s.tree[v := p]), t, Done(d, h, v));
  }

  lemma GrowInv(w: World, s: State, p: Package)
    requires Inv(w, s) && p.hash !in s.cache && p.inodes == w.count(p.hash) && w.stored(p.hash)
    requires Numbered(s.pkgI, p.hash, p.start)
    ensures Inv(w, s.(cache := s.cache[p.hash := p], tree := s.tree[p.start := p]))
  {
    forall i | 0 <= i < |s.threads|
      ensures ThreadInv(w, s.pkgI, s.cache[p.hash := p], s.log, s.threads[i])
    {
      GrownCache(w, s.pkgI, s.cache, p, s.log, s.threads[i]);
    }
    FreshStart(w, s, p.hash, p.start);
    SpawnCache(w, s.pkgI, s.cache, s.tree, p);
  }

  lemma GrownCache(w: World, pkgI: seq<map<Hash, nat>>, cache: map<Hash, Package>, p: Package, log: seq<Range>,
                   th: Thread)
    requires ThreadInv(w, pkgI, cache, log, th)
    ensures ThreadInv(w, pkgI, cache[p.hash := p], log, th)
  {
  }

  lemma FreshStart(w: World, s: State, h: Hash, v: nat)
    requires Inv(w, s) && h !in s.cache && Numbered(s.pkgI, h, v)
    ensures v !in s.tree
  {
    if v in s.tree {
      SameStart(w, s, s.tree[v].hash, h, v);
    }
  }

  lemma SpawnCache(w: World, pkgI: seq<map<Hash, nat>>, cache: map<Hash, Package>, tree: map<nat, Package>, p: Package)
    requires CacheInv(w, pkgI, cache, tree)
    requires p.hash !in cache && p.start !in tree && p.inodes == w.count(p.hash) && w.stored(p.hash)
    requires Numbered(pkgI, p.hash, p.start)
    ensures CacheInv(w, pkgI, cache[p.hash := p], tree[p.start := p])
  {
  }

  /** A number starts at most one range. */
  lemma SameStart(w: World, s: State, g: Hash, h: Hash, v: nat)
    requires Inv(w, s)
    requires Numbered(s.pkgI, g, v) && Numbered(s.pkgI, h, v)
    ensures g == h
  {
    var i := RangeOf(w, s, g, v);
    var j := RangeOf(w, s, h, v);
    if i < j {
      Disjoint(w, s.log, i, j);
    } else if j < i {
      Disjoint(w, s.log, j, i);
    }
  }

  lemma RangeOf(w: World, s: State, h: Hash, v: nat) returns (i: nat)
    requires Inv(w, s) && Numbered(s.pkgI, h, v)
    ensures i < |s.log| && s.log[i].hash == h && s.log[i].start == v && s.log[i].len == w.count(h) + 1
  {
    var d: nat :| Known(s.pkgI, d, h, v);
    assert Logged(s.log, d, h, v);
    i :| 0 <= i < |s.log| && s.log[i].db == d && s.log[i].hash == h && s.log[i].start == v;
  }

  /** An earlier range ends before a later one starts. */
  lemma {:induction false} Disjoint(w: World, log: seq<Range>, i: nat, j: nat)
    requires Tiled(w, log) && i < j < |log|
    ensures log[i].start + log[i].len <= log[j].start
    decreases j
  {
    assert log[j].start == End(log[..j]);
    assert log[..j][j - 1] == log[j - 1];
    if i < j - 1 {
      Disjoint(w, log, i, j - 1);
    }
  }

  // ----- Whole runs

  ghost predicate IsRun(w: World, run: seq<State>) {
    && run != [] && Init(w, run[0])
    && forall i | 0 <= i < |run| - 1 :: StepOf(w, run[i], run[i + 1])
  }

  ghost predicate StepOf(w: World, s: State, s': State) {
    Shaped(w, s) && exists t: nat, a :: t < |s.threads| && Next(w, s, t, a) == Some(s')
  }

  /** What a step can only add to. */
  ghost predicate Grows(s: State, s': State) {
    && s.log <= s'.log && |s.pkgI| == |s'.pkgI| && |s.threads| == |s'.threads|
    && (forall d, h, v | Known(s.pkgI, d, h, v) :: Known(s'.pkgI, d, h, v))
    && (forall h | h in s.cache :: h in s'.cache && s'.cache[h] == s.cache[h])
    && (forall t | 0 <= t < |s.threads| && s.threads[t].Done? :: s'.threads[t] == s.threads[t])
  }

  /** What a step leaves alone. */
  lemma NextFrame(w: World, s: State, t: nat, a: Action, s': State)
    requires Shaped(w, s) && t < |s.threads| && Next(w, s, t, a) == Some(s')
    ensures !s.threads[t].Done? && |s'.threads| == |s.threads|
    ensures forall u | 0 <= u < |s.threads| && u != t :: s'.threads[u] == s.threads[u]
    ensures !s.threads[t].Alloced? ==> s'.pkgI == s.pkgI
    ensures s.log <= s'.log
    ensures forall h | h in s.cache :: h in s'.cache && s'.cache[h] == s.cache[h]
  {
  }

  lemma StepGrows(w: World, s: State, t: nat, a: Action, s': State)
    requires Inv(w, s) && Shaped(w, s) && t < |s.threads| && Next(w, s, t, a) == Some(s')
    ensures Grows(s, s')
  {
    NextFrame(w, s, t, a, s');
    if s.threads[t].Alloced? {
      assert ThreadInv(w, s.pkgI, s.cache, s.log, s.threads[t]);
      KeptKnown(s.pkgI, s.threads[t].db, s.threads[t].hash, s.threads[t].ino);
    }
  }

  lemma GrowsTransitive(s: State, u: State, v: State)
    requires Grows(s, u) && Grows(u, v)
    ensures Grows(s, v)
  {
  }

  /** Every state of a run satisfies the invariant and only adds to earlier states. */
  lemma {:induction false} RunInv(w: World, run: seq<State>, i: nat, j: nat)
    requires IsRun(w, run) && i <= j < |run| && NoOverflow(run[j])
    ensures Inv(w, run[j]) && Inv(w, run[i]) && Grows(run[i], run[j])
    decreases j
  {
    hide Inv, Grows, Next, Shaped, NoOverflow, Init;
    if j == 0 {
      InitInv(w, run[0]);
      GrowsReflexive(run[0]);
    } else {
      assert StepOf(w, run[j - 1], run[j - 1 + 1]);
      var t: nat, a :| t < |run[j - 1].threads| && Next(w, run[j - 1], t, a) == Some(run[j]);
      NextLog(w, run[j - 1], t, a, run[j]);
      RunInv(w, run, if i == j then j - 1 else i, j - 1);
      StepInv(w, run[j - 1], t, a, run[j]);
      StepGrows(w, run[j - 1], t, a, run[j]);
      if i < j {
        GrowsTransitive(run[i], run[j - 1], run[j]);
      } else {
        GrowsReflexive(run[j]);
      }
    }
  }

  lemma GrowsReflexive(s: State)
    ensures Grows(s, s)
  {
  }

  lemma NextLog(w: World, s: State, t: nat, a: Action, s': State)
    requires Shaped(w, s) && t < |s.threads| && Next(w, s, t, a) == Some(s')
    ensures s.log <= s'.log
    ensures NoOverflow(s') ==> NoOverflow(s)
  {
    TotalGrows(s.log, s'.log);
  }

  // ----- What the invariant means

  predicate Covers(r: Range, n: nat) {
    r.start <= n < r.start + r.len
  }

  /** The allocated ranges tile [1000, nextI): each number below the counter
      lies in exactly one of them, the others in none. */
  lemma RangesTile(w: World, s: State, n: nat)
    requires Inv(w, s)
    ensures 1000 <= n < s.nextI <==> exists i :: 0 <= i < |s.log| && Covers(s.log[i], n)
    ensures forall i, j | 0 <= i < |s.log| && 0 <= j < |s.log| && Covers(s.log[i], n) && Covers(s.log[j], n) :: i == j
  {
    forall i, j | 0 <= i < |s.log| && 0 <= j < |s.log| && Covers(s.log[i], n) && Covers(s.log[j], n)
      ensures i == j
    {
      if i < j {
        Disjoint(w, s.log, i, j);
      } else if j < i {
        Disjoint(w, s.log, j, i);
      }
    }
    Covering(w, s.log, n);
  }

  lemma TiledFront(w: World, log: seq<Range>)
    requires Tiled(w, log) && log != []
    ensures var front := log[..|log| - 1];
            Tiled(w, front) && log[|log| - 1].start == End(front) && FIRST_INODE <= End(front)
  {
    var front := log[..|log| - 1];
    assert forall i | 0 <= i < |front| :: log[..i] == front[..i];
    TiledTotal(w, front);
  }

  lemma {:induction false} Covering(w: World, log: seq<Range>, n: nat)
    requires Tiled(w, log)
    ensures FIRST_INODE <= n < End(log) <==> exists i :: 0 <= i < |log| && Covers(log[i], n)
  {
    hide Tiled;
    if log != [] {
      var k := |log| - 1;
      var front := log[..k];
      TiledFront(w, log);
      Covering(w, front, n);
      if exists i :: 0 <= i < |front| && Covers(front[i], n) {
        var i :| 0 <= i < |front| && Covers(front[i], n);
        assert Covers(log[i], n);
      } else {
        assert forall i | 0 <= i < k :: log[i] == front[i];
        assert Covers(log[k], n) <==> End(front) <= n < End(log);
      }
    }
  }

  predicate Numbering(th: Thread) {
    th.Have? || th.Miss? || th.Done?
  }

  /** Calls of pkgIno with one hash in one database return one number, at
      whatever times of the run they return. */
  lemma SameNumber(w: World, run: seq<State>, i: nat, t: nat, j: nat, u: nat)
    requires IsRun(w, run) && i <= j < |run| && NoOverflow(run[j])
    requires t < |run[i].threads| && u < |run[j].threads|
    requires Numbering(run[i].threads[t]) && Numbering(run[j].threads[u])
    requires run[i].threads[t].hash == run[j].threads[u].hash
    requires run[i].threads[t].db == run[j].threads[u].db
    ensures run[i].threads[t].ino == run[j].threads[u].ino
  {
    RunInv(w, run, i, j);
    assert ThreadInv(w, run[i].pkgI, run[i].cache, run[i].log, run[i].threads[t]);
    assert ThreadInv(w, run[j].pkgI, run[j].cache, run[j].log, run[j].threads[u]);
    var th := run[i].threads[t];
    assert Known(run[j].pkgI, th.db, th.hash, th.ino);
  }

  /** The predecessor search of the tree: its greatest key at or below `n`. */
  function Floor(tree: map<nat, Package>, n: nat): (k: Option<nat>)
    ensures k.Some? ==> k.value in tree && k.value <= n && forall m | m in tree && m <= n :: m <= k.value
    ensures k.None? ==> forall m | m in tree :: m > n
  {
    if n in tree then Some(n) else if n == 0 then None else Floor(tree, n - 1)
  }

  /** GetInode for the numbers of packages, 3 and up: which package answers. */
  function GetInode(tree: map<nat, Package>, n: nat): Option<Package> {
    var k := Floor(tree, n);
    if k.Some? && n < tree[k.value].start + tree[k.value].inodes + 1 then Some(tree[k.value])
    else None
  }

  predicate Spawned(s: State, p: Package) {
    p.hash in s.cache && s.cache[p.hash] == p
  }

  /** GetInode finds exactly the spawned package whose range holds the number. */
  lemma GetInodeExact(w: World, s: State, n: nat, p: Package)
    requires Inv(w, s)
    ensures GetInode(s.tree, n) == Some(p) <==> Spawned(s, p) && p.start <= n <= p.start + p.inodes
  {
    hide Tiled, LockInv, StoredInv, Owned, ThreadInv, Floor;
    if Spawned(s, p) && p.start <= n <= p.start + p.inodes {
      var k := Floor(s.tree, n).value;
      var q := s.tree[k];
      var i := RangeOf(w, s, p.hash, p.start);
      var j := RangeOf(w, s, q.hash, q.start);
      if i < j {
        Disjoint(w, s.log, i, j);
      } else if j < i {
        Disjoint(w, s.log, j, i);
      }
    }
  }

  /** Two spawned packages never share a number. */
  lemma SpawnedUnique(w: World, s: State, n: nat, p: Package, q: Package)
    requires Inv(w, s) && Spawned(s, p) && Spawned(s, q)
    requires p.start <= n <= p.start + p.inodes && q.start <= n <= q.start + q.inodes
    ensures p == q
  {
    GetInodeExact(w, s, n, p);
    GetInodeExact(w, s, n, q);
  }

  /** Two ranges of the size this hash needs fit the counter at all. */
  predicate TwoFit(w: World, h: Hash) {
    FIRST_INODE + 2 * (w.count(h) + 1) < TWO64
  }

  /** No two databases of the family index the package; one that could never
      get two ranges does not matter. */
  ghost predicate HomeOf(w: World, h: Hash) {
    w.stored(h) && TwoFit(w, h) ==>
      forall d: nat, e: nat | d < w.dbs && e < w.dbs && w.lives(h, d) && w.lives(h, e) :: d == e
  }

  /** The number a finished lookup has returned leads to its package. */
  predicate Resolves(w: World, s: State, t: nat)
    requires t < |s.threads| && s.threads[t].Done?
  {
    GetInode(s.tree, s.threads[t].ino)
    == Some(Package(s.threads[t].hash, s.threads[t].ino, w.count(s.threads[t].hash)))
  }

  /** A hash with numbers in two databases has two ranges. */
  lemma TwoHomesFit(w: World, s: State, h: Hash, d: nat, u: nat, e: nat, v: nat)
    requires Inv(w, s) && NoOverflow(s) && d != e
    requires Known(s.pkgI, d, h, u) && Known(s.pkgI, e, h, v)
    ensures TwoFit(w, h)
  {
    hide Tiled, Owned, ThreadInv, LockInv, CacheInv, Total;
    assert Logged(s.log, d, h, u) && Logged(s.log, e, h, v);
    var i :| 0 <= i < |s.log| && s.log[i].db == d && s.log[i].hash == h && s.log[i].start == u;
    var j :| 0 <= j < |s.log| && s.log[j].db == e && s.log[j].hash == h && s.log[j].start == v;
    TiledTotal(w, s.log);
    Lengths(w, s.log, i);
    Lengths(w, s.log, j);
    TwoRanges(w, s, if i < j then i else j, if i < j then j else i);
  }

  lemma Lengths(w: World, log: seq<Range>, i: nat)
    requires Tiled(w, log) && i < |log|
    ensures log[i].len == w.count(log[i].hash) + 1
  {
  }

  lemma TwoRanges(w: World, s: State, i: nat, j: nat)
    requires Inv(w, s) && i < j < |s.log| && s.log[i].len > 0 && s.log[j].len > 0
    ensures FIRST_INODE + s.log[i].len + s.log[j].len <= s.nextI
  {
    hide Tiled, Owned, ThreadInv, LockInv, CacheInv, StoredInv, End;
    Disjoint(w, s.log, i, j);
    assert Covers(s.log[i], s.log[i].start);
    RangesTile(w, s, s.log[i].start);
    var last := s.log[j].start + s.log[j].len - 1;
    assert Covers(s.log[j], last);
    RangesTile(w, s, last);
  }

  /** Once a lookup of a package with one home has returned, all the numbers of
      the package resolve to it, at the same offsets, for the rest of the run. */
  lemma NumbersStayResolved(w: World, run: seq<State>, i: nat, j: nat, t: nat, offset: nat)
    requires IsRun(w, run) && i <= j < |run| && NoOverflow(run[j])
    requires t < |run[i].threads| && run[i].threads[t].Done? && HomeOf(w, run[i].threads[t].hash)
    ensures var th := run[i].threads[t];
            GetInode(run[j].tree, th.ino + offset) == Some(Package(th.hash, th.ino, w.count(th.hash)))
            <==> offset <= w.count(th.hash)
  {
    DoneStays(w, run, i, j, t);
    DoneCached(w, run[j], t);
    GetInodeExact(w, run[j], run[i].threads[t].ino + offset, run[j].cache[run[i].threads[t].hash]);
  }

  lemma DoneStays(w: World, run: seq<State>, i: nat, j: nat, t: nat)
    requires IsRun(w, run) && i <= j < |run| && NoOverflow(run[j])
    requires t < |run[i].threads| && run[i].threads[t].Done?
    ensures Inv(w, run[j]) && t < |run[j].threads| && run[j].threads[t] == run[i].threads[t]
  {
    RunInv(w, run, i, j);
  }

  lemma DoneCached(w: World, s: State, t: nat)
    requires Inv(w, s) && NoOverflow(s) && t < |s.threads| && s.threads[t].Done? && HomeOf(w, s.threads[t].hash)
    ensures var th := s.threads[t];
            th.hash in s.cache && s.cache[th.hash] == Package(th.hash, th.ino, w.count(th.hash))
  {
    var th := s.threads[t];
    assert ThreadInv(w, s.pkgI, s.cache, s.log, th);
    var d: nat :| Known(s.pkgI, d, th.hash, s.cache[th.hash].start);
    assert Known(s.pkgI, th.db, th.hash, th.ino);
    assert w.lives(th.hash, d) && w.lives(th.hash, th.db);
    if d != th.db {
      TwoHomesFit(w, s, th.hash, d, s.cache[th.hash].start, th.db, th.ino);
    }
  }

  /** The number of an exact match is the one behind the symlink's: it belongs
      to the package exactly when the package has an inode at all. */
  lemma ExactMatchResolves(w: World, run: seq<State>, i: nat, j: nat, t: nat)
    requires IsRun(w, run) && i <= j < |run| && NoOverflow(run[j])
    requires t < |run[i].threads| && run[i].threads[t].Done? && HomeOf(w, run[i].threads[t].hash)
    ensures var th := run[i].threads[t];
            GetInode(run[j].tree, th.ino + 1) == Some(Package(th.hash, th.ino, w.count(th.hash)))
            <==> w.count(th.hash) > 0
  {
    NumbersStayResolved(w, run, i, j, t, 1);
  }
}

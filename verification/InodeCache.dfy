/** Reference counts of cached inodes: addToCache and removeFromCache of
    apkgfs/cache.go, called by doLookup and doForget of apkgfs/server.go, as
    atomic steps of any number of concurrent requests. All inodes are of the
    kind that counts its references. */
module InodeCache {
  import opened Bytes

  const TWO64 := 0x1_0000_0000_0000_0000
  const MAX_COUNT := 0xffff_ffff_ffff

  /** An inode object of a node, with its counter. */
  datatype Obj = Obj(node: nat, count: nat)

  /** One request: a lookup that resolves to `node`, or a forget of `k` lookups. */
  datatype Thread =
    | Idle
    | Missed(node: nat)                                   // not cached; before root.GetInode
    | Got(node: nat, obj: nat)                            // before AddRef(1)
    | Added(node: nat, obj: nat)                          // before addToCache takes the lock
    | Adding(node: nat, obj: nat, cached: nat)            // before o.AddRef(0)
    | Read(node: nat, obj: nat, cached: nat, v: nat)      // before c.AddRef(v)
    | Moved(node: nat, obj: nat, cached: nat, v: nat)     // before o.DelRef(v)
    | Finished(node: nat)                                 // the lookup is complete
    | Forgetting(node: nat, k: nat)                       // before removeFromCache takes the lock
    | Dropped(node: nat, k: nat, cached: nat, v: nat)     // DelRef returned v; before the delete
    | Forgot(node: nat, k: nat)

  datatype State = State(objs: seq<Obj>, cache: map<nat, nat>, lock: Option<nat>, threads: seq<Thread>)

  datatype Action = Lookup(node: nat) | Obtain(obj: Option<nat>) | Forget(node: nat, k: nat) | Go

  // ----- Sums over the threads

  /** What is summed: the references a request accounts for on its node, the
      same with a transfer under way counted once, the lookups midway on an
      object or on a node, and the completed lookups not yet claimed by a forget. */
  datatype Measure = Balance(n: nat) | Held(n: nat) | On(o: nat) | Pending(n: nat) | Claims(n: nat)

  predicate Midway(th: Thread) {
    th.Added? || th.Adding? || th.Read? || th.Moved?
  }

  function Weight(m: Measure, th: Thread): int {
    match m
    case On(o) => if Midway(th) && th.obj == o then 1 else 0
    case Pending(n) => if Midway(th) && th.node == n then 1 else 0
    case Claims(n) =>
      (match th
       case Finished(x) => if x == n then 1 else 0
       case Forgetting(x, k) => if x == n then 0 - k else 0
       case Dropped(x, k, _, _) => if x == n then 0 - k else 0
       case Forgot(x, k) => if x == n then 0 - k else 0
       case _ => 0)
    case Held(n) => References(n, th)
    case Balance(n) => References(n, th) + if th.Moved? && th.node == n then th.v else 0
  }

  /** One for a lookup past AddRef, minus what a forget has dropped. */
  function References(n: nat, th: Thread): int {
    match th
    case Added(x, _) => if x == n then 1 else 0
    case Adding(x, _, _) => if x == n then 1 else 0
    case Read(x, _, _, _) => if x == n then 1 else 0
    case Moved(x, _, _, _) => if x == n then 1 else 0
    case Finished(x) => if x == n then 1 else 0
    case Dropped(x, k, _, _) => if x == n then 0 - k else 0
    case Forgot(x, k) => if x == n then 0 - k else 0
    case _ => 0
  }

  function Sum(m: Measure, threads: seq<Thread>): int {
    if threads == [] then 0 else Weight(m, threads[0]) + Sum(m, threads[1..])
  }

  lemma {:induction false} SumUpdate(m: Measure, threads: seq<Thread>, t: nat, th: Thread)
    requires t < |threads|
    ensures Sum(m, threads[t := th]) == Sum(m, threads) - Weight(m, threads[t]) + Weight(m, th)
  {
    if t == 0 {
      assert threads[t := th][1..] == threads[1..];
    } else {
      assert threads[t := th][1..] == threads[1..][t - 1 := th];
      SumUpdate(m, threads[1..], t - 1, th);
    }
  }

  lemma {:induction false} SumOnNonNegative(o: nat, threads: seq<Thread>)
    ensures Sum(On(o), threads) >= 0
    ensures forall t | 0 <= t < |threads| && Midway(threads[t]) && threads[t].obj == o :: Sum(On(o), threads) >= 1
  {
    if threads != [] {
      SumOnNonNegative(o, threads[1..]);
      forall t | 0 <= t < |threads| && Midway(threads[t]) && threads[t].obj == o
        ensures Sum(On(o), threads) >= 1
      {
        assert t > 0 ==> threads[1..][t - 1] == threads[t];
      }
    }
  }

  /** What a request accounts for beyond its claim and its lookup midway. */
  function Extra(n: nat, th: Thread): int {
    Weight(Balance(n), th) - Weight(Claims(n), th) - Weight(Pending(n), th)
  }

  lemma {:induction false} BalanceCovers(n: nat, threads: seq<Thread>, t: nat)
    ensures Sum(Balance(n), threads) >= Sum(Claims(n), threads) + Sum(Pending(n), threads)
    ensures t < |threads| ==>
              Sum(Balance(n), threads) >= Sum(Claims(n), threads) + Sum(Pending(n), threads) + Extra(n, threads[t])
  {
    if threads != [] {
      BalanceCovers(n, threads[1..], if t > 0 then t - 1 else 0);
    }
  }

  /** Without a transfer under way the balance is what the requests hold. */
  lemma {:induction false} BalanceHeld(n: nat, threads: seq<Thread>)
    requires forall t | 0 <= t < |threads| :: !threads[t].Moved?
    ensures Sum(Balance(n), threads) == Sum(Held(n), threads)
  {
    if threads != [] {
      BalanceHeld(n, threads[1..]);
    }
  }

  lemma BalanceHeldMoved(n: nat, threads: seq<Thread>, t: nat)
    requires t < |threads| && threads[t].Moved?
    requires forall u | 0 <= u < |threads| && u != t :: !threads[u].Moved?
    ensures Sum(Balance(n), threads) <= Sum(Held(n), threads) + threads[t].v
  {
    var rest := threads[t := Finished(threads[t].node)];
    SumUpdate(Balance(n), threads, t, Finished(threads[t].node));
    SumUpdate(Held(n), threads, t, Finished(threads[t].node));
    BalanceHeld(n, rest);
  }

  // ----- Sums over the objects

  /** The references counted on the first `k` objects that belong to node `n`. */
  function Counts(objs: seq<Obj>, n: nat, k: nat): nat
    requires k <= |objs|
  {
    if k == 0 then 0
    else Counts(objs, n, k - 1) + if objs[k - 1].node == n then objs[k - 1].count else 0
  }

  function NodeSum(objs: seq<Obj>, n: nat): nat {
    Counts(objs, n, |objs|)
  }

  /** The lookups midway on the first `k` objects of node `n`. */
  function OnCounts(objs: seq<Obj>, threads: seq<Thread>, n: nat, k: nat): int
    requires k <= |objs|
  {
    if k == 0 then 0
    else OnCounts(objs, threads, n, k - 1) + if objs[k - 1].node == n then Sum(On(k - 1), threads) else 0
  }

  lemma {:induction false} CountsUpdate(objs: seq<Obj>, i: nat, c: nat, n: nat, k: nat)
    requires k <= |objs| && i < |objs|
    ensures Counts(objs[i := objs[i].(count := c)], n, k)
         == Counts(objs, n, k) + if i < k && objs[i].node == n then c - objs[i].count else 0
  {
    if k > 0 {
      CountsUpdate(objs, i, c, n, k - 1);
    }
  }

  lemma {:induction false} CountsFresh(objs: seq<Obj>, o: Obj, n: nat, k: nat)
    requires k <= |objs| && o.count == 0
    ensures Counts(objs + [o], n, k) == Counts(objs, n, k)
    ensures k == |objs| ==> NodeSum(objs + [o], n) == NodeSum(objs, n)
  {
    if k > 0 {
      CountsFresh(objs, o, n, k - 1);
    }
  }

  lemma {:induction false} CountBelowSum(objs: seq<Obj>, i: nat, k: nat)
    requires i < k <= |objs|
    ensures objs[i].count <= Counts(objs, objs[i].node, k)
  {
    if i < k - 1 {
      CountBelowSum(objs, i, k - 1);
    }
  }

  predicate Placed(objs: seq<Obj>, th: Thread) {
    Midway(th) ==> th.obj < |objs| && objs[th.obj].node == th.node
  }

  lemma {:induction false} OnCountsHead(objs: seq<Obj>, threads: seq<Thread>, n: nat, k: nat)
    requires k <= |objs| && threads != []
    requires Placed(objs, threads[0])
    ensures OnCounts(objs, threads, n, k) == OnCounts(objs, threads[1..], n, k)
              + if Midway(threads[0]) && threads[0].node == n && threads[0].obj < k then 1 else 0
  {
    if k > 0 {
      OnCountsHead(objs, threads, n, k - 1);
    }
  }

  lemma {:induction false} OnCountsNone(objs: seq<Obj>, n: nat, k: nat)
    requires k <= |objs|
    ensures OnCounts(objs, [], n, k) == 0
  {
    if k > 0 {
      OnCountsNone(objs, n, k - 1);
    }
  }

  /** Every lookup midway is on exactly one object of its node. */
  lemma {:induction false} OnCountsPending(objs: seq<Obj>, threads: seq<Thread>, n: nat)
    requires forall t | 0 <= t < |threads| :: Placed(objs, threads[t])
    ensures OnCounts(objs, threads, n, |objs|) == Sum(Pending(n), threads)
  {
    if threads == [] {
      OnCountsNone(objs, n, |objs|);
    } else {
      OnCountsHead(objs, threads, n, |objs|);
      OnCountsPending(objs, threads[1..], n);
    }
  }

  /** Objects other than `c` hold no more references than lookups midway on them. */
  predicate SlackExcept(objs: seq<Obj>, threads: seq<Thread>, n: nat, c: nat) {
    forall i | 0 <= i < |objs| && objs[i].node == n && i != c :: objs[i].count <= Sum(On(i), threads)
  }

  lemma {:induction false} SlackSum(objs: seq<Obj>, threads: seq<Thread>, n: nat, c: nat, k: nat)
    requires k <= |objs| && SlackExcept(objs, threads, n, c)
    requires c < |objs| ==> objs[c].node == n
    ensures Counts(objs, n, k) - (if c < k then objs[c].count else 0)
         <= OnCounts(objs, threads, n, k) - (if c < k then Sum(On(c), threads) else 0)
  {
    if k > 0 {
      SlackSum(objs, threads, n, c, k - 1);
    }
  }

  /** `c` holds at least what the node is owed beyond the lookups midway elsewhere. */
  lemma CachedHolds(objs: seq<Obj>, threads: seq<Thread>, n: nat, c: nat)
    requires c < |objs| && objs[c].node == n && SlackExcept(objs, threads, n, c)
    requires forall t | 0 <= t < |threads| :: Placed(objs, threads[t])
    ensures objs[c].count >= NodeSum(objs, n) - Sum(Pending(n), threads) + Sum(On(c), threads)
  {
    SlackSum(objs, threads, n, c, |objs|);
    OnCountsPending(objs, threads, n);
  }

  /** A node whose every object has slack is owed no more than its lookups midway. */
  lemma NothingCached(objs: seq<Obj>, threads: seq<Thread>, n: nat)
    requires SlackExcept(objs, threads, n, |objs|)
    requires forall t | 0 <= t < |threads| :: Placed(objs, threads[t])
    ensures NodeSum(objs, n) <= Sum(Pending(n), threads)
  {
    SlackSum(objs, threads, n, |objs|, |objs|);
    OnCountsPending(objs, threads, n);
  }

  // ----- The atomic steps

  /** atomic.AddUint64, also used for DelRef with the two's complement. */
  function Add64(c: nat, d: int): nat {
    (c + d) % TWO64
  }

  function Counted(objs: seq<Obj>, i: nat, d: int): seq<Obj>
    requires i < |objs|
  {
    objs[i := objs[i].(count := Add64(objs[i].count, d))]
  }

  lemma CountedDown(objs: seq<Obj>, i: nat, d: int)
    requires i < |objs| && 0 <= d <= objs[i].count < TWO64
    ensures Counted(objs, i, 0 - d) == objs[i := objs[i].(count := objs[i].count - d)]
  {
  }

  predicate Shaped(s: State) {
    && (forall n | n in s.cache :: s.cache[n] < |s.objs|)
    && (forall t | 0 <= t < |s.threads| ::
          match s.threads[t]
          case Got(_, o) => o < |s.objs|
          case Added(_, o) => o < |s.objs|
          case Adding(_, o, c) => o < |s.objs| && c < |s.objs|
          case Read(_, o, c, _) => o < |s.objs| && c < |s.objs|
          case Moved(_, o, c, _) => o < |s.objs| && c < |s.objs|
          case _ => true)
  }

  /** The next atomic step of request `t`; None when it is blocked or finished.
      A forget may claim only lookups that are complete and not yet forgotten. */
  function Next(s: State, t: nat, a: Action): Option<State>
    requires Shaped(s) && t < |s.threads|
  {
    match s.threads[t]
    case Idle =>
      (match a
       case Lookup(n) =>
         if s.lock.Some? then None   // RLock waits for the writer
         else if n in s.cache then Some(Move(s, t, Got(n, s.cache[n])))
         else Some(Move(s, t, Missed(n)))
       case Forget(n, k) =>
         if k <= Sum(Claims(n), s.threads) then Some(Move(s, t, Forgetting(n, k))) else None
       case _ => None)
    case Missed(n) =>
      (match a
       case Obtain(Some(o)) =>
         if o < |s.objs| && s.objs[o].node == n then Some(Move(s, t, Got(n, o))) else None
       case Obtain(None) =>
         Some(Move(s, t, Got(n, |s.objs|)).(objs := s.objs + [Obj(n, 0)]))
       case _ => None)
    case Got(n, o) =>
      Some(Move(s, t, Added(n, o)).(objs := Counted(s.objs, o, 1)))
    case Added(n, o) =>
      if s.lock.Some? then None
      else if n !in s.cache then Some(Move(s, t, Finished(n)).(cache := s.cache[n := o]))
      else Some(Move(s, t, Adding(n, o, s.cache[n])).(lock := Some(t)))
    case Adding(n, o, c) =>
      var v := s.objs[o].count;
      if v != 0 then Some(Move(s, t, Read(n, o, c, v)))
      else Some(Move(s, t, Finished(n)).(lock := None))
    case Read(n, o, c, v) =>
      Some(Move(s, t, Moved(n, o, c, v)).(objs := Counted(s.objs, c, v)))
    case Moved(n, o, c, v) =>
      Some(Move(s, t, Finished(n)).(objs := Counted(s.objs, o, 0 - v), lock := None))
    case Finished(_) => None
    case Forgetting(n, k) =>
      if s.lock.Some? then None
      else if n !in s.cache then Some(Move(s, t, Forgot(n, k)))
      else
        var c := s.cache[n];
        var objs := Counted(s.objs, c, 0 - k);
        Some(Move(s, t, Dropped(n, k, c, objs[c].count)).(objs := objs, lock := Some(t)))
    case Dropped(n, k, c, v) =>
      Some(Move(s, t, Forgot(n, k)).(
             cache := if v == 0 || v > MAX_COUNT then s.cache - {n} else s.cache,
             lock := None))
    case Forgot(_, _) => None
  }

  function Move(s: State, t: nat, th: Thread): State
    requires t < |s.threads|
  {
    s.(threads := s.threads[t := th])
  }

  ghost predicate Init(s: State) {
    && s.objs == [] && s.cache == map[] && s.lock == None
    && forall t | 0 <= t < |s.threads| :: s.threads[t] == Idle
  }

  // ----- The invariant

  predicate Critical(th: Thread) {
    th.Adding? || th.Read? || th.Moved? || th.Dropped?
  }

  predicate LockInv(lock: Option<nat>, threads: seq<Thread>) {
    && (lock.Some? ==> lock.value < |threads| && Critical(threads[lock.value]))
    && (forall t | 0 <= t < |threads| && Critical(threads[t]) :: lock == Some(t))
  }

  predicate CacheInv(objs: seq<Obj>, cache: map<nat, nat>) {
    forall n | n in cache :: cache[n] < |objs| && objs[cache[n]].node == n
  }

  /** Where a request's objects are, and what the cache holds while it has the lock. */
  predicate ThreadInv(objs: seq<Obj>, cache: map<nat, nat>, th: Thread) {
    && Placed(objs, th)
    && (th.Got? ==> th.obj < |objs| && objs[th.obj].node == th.node)
    && (Critical(th) ==> th.node in cache && th.cached == cache[th.node])
  }

  /** What a request with the lock has read is still covered by the counters. */
  predicate ValueInv(objs: seq<Obj>, threads: seq<Thread>, th: Thread)
    requires Midway(th) ==> th.obj < |objs|
    requires Critical(th) ==> th.cached < |objs|
  {
    match th
    case Read(n, o, c, v) =>
      1 <= v <= MAX_COUNT && v <= objs[o].count
      && (o != c ==> objs[o].count < v + Sum(On(o), threads))
    case Moved(n, o, c, v) =>
      1 <= v <= MAX_COUNT && v <= objs[o].count
      && (o != c ==> objs[o].count < v + Sum(On(o), threads))
      && (o == c ==> 2 * v <= objs[o].count)
    case Dropped(n, k, c, v) =>
      v <= objs[c].count && v <= MAX_COUNT && (v == 0 ==> objs[c].count <= Sum(On(c), threads))
    case _ => true
  }

  predicate Cached(objs: seq<Obj>, cache: map<nat, nat>, i: nat)
    requires i < |objs|
  {
    objs[i].node in cache && cache[objs[i].node] == i
  }

  predicate SlackInv(objs: seq<Obj>, cache: map<nat, nat>, threads: seq<Thread>) {
    forall i | 0 <= i < |objs| && !Cached(objs, cache, i) :: objs[i].count <= Sum(On(i), threads)
  }

  ghost predicate SumInv(objs: seq<Obj>, threads: seq<Thread>) {
    forall n: nat :: NodeSum(objs, n) == Sum(Balance(n), threads)
  }

  ghost predicate ClaimsInv(threads: seq<Thread>) {
    forall n: nat :: Sum(Claims(n), threads) >= 0
  }

  /** Only while its last reference is being dropped may a cached object have none. */
  predicate PositiveInv(objs: seq<Obj>, cache: map<nat, nat>, threads: seq<Thread>)
    requires CacheInv(objs, cache)
  {
    forall n | n in cache ::
      objs[cache[n]].count > 0 || exists t :: 0 <= t < |threads| && DropsLast(threads[t], n)
  }

  predicate DropsLast(th: Thread, n: nat) {
    th.Dropped? && th.node == n && th.v == 0
  }

  predicate ThreadsInv(objs: seq<Obj>, cache: map<nat, nat>, threads: seq<Thread>) {
    forall t | 0 <= t < |threads| ::
      ThreadInv(objs, cache, threads[t]) && CacheInv(objs, cache) && ValueInv(objs, threads, threads[t])
  }

  ghost predicate Inv(s: State) {
    && CacheInv(s.objs, s.cache) && LockInv(s.lock, s.threads)
    && ThreadsInv(s.objs, s.cache, s.threads)
    && SlackInv(s.objs, s.cache, s.threads)
    && SumInv(s.objs, s.threads) && ClaimsInv(s.threads)
    && PositiveInv(s.objs, s.cache, s.threads)
  }

  /** No node has more references outstanding than removeFromCache takes for
      plausible: lookups past AddRef, less what has been forgotten, below 2^48. */
  ghost predicate Small(s: State) {
    forall n: nat :: Sum(Held(n), s.threads) <= MAX_COUNT
  }

  lemma InitInv(s: State)
    requires Init(s)
    ensures Inv(s)
  {
    forall n: nat
      ensures NodeSum(s.objs, n) == Sum(Balance(n), s.threads) && Sum(Claims(n), s.threads) >= 0
    {
      IdleSum(Balance(n), s.threads);
      IdleSum(Claims(n), s.threads);
    }
  }

  lemma {:induction false} IdleSum(m: Measure, threads: seq<Thread>)
    requires forall t | 0 <= t < |threads| :: threads[t] == Idle
    ensures Sum(m, threads) == 0
  {
    if threads != [] {
      IdleSum(m, threads[1..]);
    }
  }

  // ----- How the parts of the invariant change

  /** The request stays midway on the same object, or stays not midway. */
  predicate SameOn(th: Thread, th': Thread) {
    (Midway(th) <==> Midway(th')) && (Midway(th) ==> th.obj == th'.obj)
  }

  lemma OnKept(threads: seq<Thread>, t: nat, th: Thread)
    requires t < |threads| && SameOn(threads[t], th)
    ensures forall o: nat :: Sum(On(o), threads[t := th]) == Sum(On(o), threads)
  {
    forall o: nat
      ensures Sum(On(o), threads[t := th]) == Sum(On(o), threads)
    {
      SumUpdate(On(o), threads, t, th);
    }
  }

  lemma SumInvMove(objs: seq<Obj>, threads: seq<Thread>, t: nat, th: Thread)
    requires SumInv(objs, threads) && t < |threads|
    requires forall n: nat :: Weight(Balance(n), th) == Weight(Balance(n), threads[t])
    ensures SumInv(objs, threads[t := th])
  {
    forall n: nat
      ensures NodeSum(objs, n) == Sum(Balance(n), threads[t := th])
    {
      SumUpdate(Balance(n), threads, t, th);
    }
  }

  lemma SumInvCount(objs: seq<Obj>, threads: seq<Thread>, t: nat, th: Thread, i: nat, c: nat)
    requires SumInv(objs, threads) && t < |threads| && i < |objs|
    requires forall n: nat :: Weight(Balance(n), th) - Weight(Balance(n), threads[t])
                              == if objs[i].node == n then c - objs[i].count else 0
    ensures SumInv(objs[i := objs[i].(count := c)], threads[t := th])
  {
    var objs' := objs[i := objs[i].(count := c)];
    forall n: nat
      ensures NodeSum(objs', n) == Sum(Balance(n), threads[t := th])
    {
      SumUpdate(Balance(n), threads, t, th);
      CountsUpdate(objs, i, c, n, |objs|);
      assert NodeSum(objs, n) == Sum(Balance(n), threads);
    }
  }

  lemma ClaimsMove(threads: seq<Thread>, t: nat, th: Thread)
    requires ClaimsInv(threads) && t < |threads|
    requires forall n: nat :: Sum(Claims(n), threads) + Weight(Claims(n), th) >= Weight(Claims(n), threads[t])
    ensures ClaimsInv(threads[t := th])
  {
    forall n: nat
      ensures Sum(Claims(n), threads[t := th]) >= 0
    {
      SumUpdate(Claims(n), threads, t, th);
    }
  }

  lemma CountBound(s: State, i: nat)
    requires Inv(s) && Small(s) && i < |s.objs|
    ensures s.objs[i].count <= 2 * MAX_COUNT
    ensures s.lock == None || (s.lock.value < |s.threads| && !s.threads[s.lock.value].Moved?) ==>
              s.objs[i].count <= MAX_COUNT
  {
    CountBelowSum(s.objs, i, |s.objs|);
    var n := s.objs[i].node;
    assert NodeSum(s.objs, n) == Sum(Balance(n), s.threads);
    assert Sum(Held(n), s.threads) <= MAX_COUNT;
    if s.lock.Some? && s.threads[s.lock.value].Moved? {
      assert ValueInv(s.objs, s.threads, s.threads[s.lock.value]);
      BalanceHeldMoved(n, s.threads, s.lock.value);
    } else {
      BalanceHeld(n, s.threads);
    }
  }

  // ----- Each step keeps the invariant

  /** Steps outside the lock that touch no object. */
  lemma QuietInv(s: State, t: nat, th: Thread)
    requires Inv(s) && t < |s.threads|
    requires !Midway(s.threads[t]) && !Critical(s.threads[t]) && !Midway(th) && !Critical(th)
    requires ThreadInv(s.objs, s.cache, th)
    requires forall n: nat :: Weight(Balance(n), th) == Weight(Balance(n), s.threads[t])
    requires forall n: nat :: Sum(Claims(n), s.threads) + Weight(Claims(n), th) >= Weight(Claims(n), s.threads[t])
    ensures Inv(Move(s, t, th))
  {
    var threads' := s.threads[t := th];
    OnKept(s.threads, t, th);
    SumInvMove(s.objs, s.threads, t, th);
    ClaimsMove(s.threads, t, th);
    QuietThreads(s, t, th);
    QuietPositive(s.objs, s.cache, s.threads, t, th);
  }

  lemma QuietThreads(s: State, t: nat, th: Thread)
    requires Inv(s) && t < |s.threads| && SameOn(s.threads[t], th)
    requires ThreadInv(s.objs, s.cache, th) && !Critical(th)
    ensures ThreadsInv(s.objs, s.cache, s.threads[t := th])
  {
    OnKept(s.threads, t, th);
  }

  lemma QuietPositive(objs: seq<Obj>, cache: map<nat, nat>, threads: seq<Thread>, t: nat, th: Thread)
    requires CacheInv(objs, cache) && PositiveInv(objs, cache, threads)
    requires t < |threads| && !threads[t].Dropped?
    ensures PositiveInv(objs, cache, threads[t := th])
  {
    var threads' := threads[t := th];
    forall n | n in cache && objs[cache[n]].count == 0
      ensures exists u :: 0 <= u < |threads'| && DropsLast(threads'[u], n)
    {
      var u :| 0 <= u < |threads| && DropsLast(threads[u], n);
      assert threads'[u] == threads[u];
    }
  }

  /** root.GetInode makes a new object. */
  lemma FreshInv(s: State, t: nat)
    requires Inv(s) && t < |s.threads| && s.threads[t].Missed?
    ensures var n := s.threads[t].node;
            Inv(Move(s, t, Got(n, |s.objs|)).(objs := s.objs + [Obj(n, 0)]))
  {
    var n := s.threads[t].node;
    var objs' := s.objs + [Obj(n, 0)];
    GrownInv(s, Obj(n, 0));
    QuietInv(s.(objs := objs'), t, Got(n, |s.objs|));
  }

  lemma GrownInv(s: State, o: Obj)
    requires Inv(s) && o.count == 0
    ensures Inv(s.(objs := s.objs + [o]))
  {
    var objs' := s.objs + [o];
    forall n: nat
      ensures NodeSum(objs', n) == Sum(Balance(n), s.threads)
    {
      CountsFresh(s.objs, o, n, |s.objs|);
      assert NodeSum(s.objs, n) == Sum(Balance(n), s.threads);
    }
    forall i | 0 <= i < |objs'| && !Cached(objs', s.cache, i)
      ensures objs'[i].count <= Sum(On(i), s.threads)
    {
      if i < |s.objs| {
        assert !Cached(s.objs, s.cache, i);
      } else {
        SumOnNonNegative(i, s.threads);
      }
    }
    forall u | 0 <= u < |s.threads|
      ensures ThreadInv(objs', s.cache, s.threads[u]) && ValueInv(objs', s.threads, s.threads[u])
    {
      assert ThreadInv(s.objs, s.cache, s.threads[u]);
      assert ValueInv(s.objs, s.threads, s.threads[u]);
    }
  }

  /** AddRef(1), outside the lock. */
  lemma AddRefInv(s: State, t: nat)
    requires Inv(s) && Small(s) && t < |s.threads| && s.threads[t].Got? && s.threads[t].obj < |s.objs|
    ensures var n, o := s.threads[t].node, s.threads[t].obj;
            Inv(Move(s, t, Added(n, o)).(objs := Counted(s.objs, o, 1)))
  {
    hide Sum, NodeSum, SumInv, SlackInv;
    var n, o := s.threads[t].node, s.threads[t].obj;
    var th := Added(n, o);
    assert ThreadInv(s.objs, s.cache, s.threads[t]);
    CountBound(s, o);
    var c := s.objs[o].count + 1;
    var objs', threads' := s.objs[o := s.objs[o].(count := c)], s.threads[t := th];
    assert Counted(s.objs, o, 1) == objs';
    SumInvCount(s.objs, s.threads, t, th, o, c);
    ClaimsMove(s.threads, t, th);
    AddRefThreads(s, t, n, o, c);
    AddRefSlack(s, t, n, o, c);
    QuietPositive(s.objs, s.cache, s.threads, t, th);
  }

  lemma OnRaised(threads: seq<Thread>, t: nat, n: nat, o: nat)
    requires t < |threads| && !Midway(threads[t])
    ensures forall i: nat :: Sum(On(i), threads[t := Added(n, o)]) == Sum(On(i), threads) + if i == o then 1 else 0
  {
    forall i: nat
      ensures Sum(On(i), threads[t := Added(n, o)]) == Sum(On(i), threads) + if i == o then 1 else 0
    {
      SumUpdate(On(i), threads, t, Added(n, o));
    }
  }

  lemma AddRefThreads(s: State, t: nat, n: nat, o: nat, c: nat)
    requires Inv(s) && t < |s.threads| && s.threads[t] == Got(n, o) && o < |s.objs| && c == s.objs[o].count + 1
    ensures var objs', threads' := s.objs[o := s.objs[o].(count := c)], s.threads[t := Added(n, o)];
            ThreadsInv(objs', s.cache, threads')
  {
    OnRaised(s.threads, t, n, o);
    var objs', threads' := s.objs[o := s.objs[o].(count := c)], s.threads[t := Added(n, o)];
    forall u | 0 <= u < |threads'|
      ensures ThreadInv(objs', s.cache, threads'[u]) && ValueInv(objs', threads', threads'[u])
    {
      assert ThreadInv(s.objs, s.cache, s.threads[u]);
      assert ValueInv(s.objs, s.threads, s.threads[u]);
    }
  }

  lemma AddRefSlack(s: State, t: nat, n: nat, o: nat, c: nat)
    requires Inv(s) && t < |s.threads| && s.threads[t] == Got(n, o) && o < |s.objs| && c == s.objs[o].count + 1
    ensures SlackInv(s.objs[o := s.objs[o].(count := c)], s.cache, s.threads[t := Added(n, o)])
  {
    OnRaised(s.threads, t, n, o);
    var objs' := s.objs[o := s.objs[o].(count := c)];
    forall i | 0 <= i < |objs'| && !Cached(objs', s.cache, i)
      ensures objs'[i].count <= Sum(On(i), s.threads[t := Added(n, o)])
    {
      assert !Cached(s.objs, s.cache, i);
    }
  }

  lemma OnLowered(threads: seq<Thread>, t: nat, n: nat)
    requires t < |threads| && Midway(threads[t])
    ensures forall i: nat ::
              Sum(On(i), threads[t := Finished(n)]) == Sum(On(i), threads) - if i == threads[t].obj then 1 else 0
  {
    forall i: nat
      ensures Sum(On(i), threads[t := Finished(n)]) == Sum(On(i), threads) - if i == threads[t].obj then 1 else 0
    {
      SumUpdate(On(i), threads, t, Finished(n));
    }
  }

  lemma SlackOf(s: State, n: nat, c: nat)
    requires Inv(s) && (n in s.cache ==> c == s.cache[n])
    ensures SlackExcept(s.objs, s.threads, n, c)
    ensures forall u | 0 <= u < |s.threads| :: Placed(s.objs, s.threads[u])
  {
    forall i | 0 <= i < |s.objs| && s.objs[i].node == n && i != c
      ensures s.objs[i].count <= Sum(On(i), s.threads)
    {
      assert !Cached(s.objs, s.cache, i);
    }
    forall u | 0 <= u < |s.threads|
      ensures Placed(s.objs, s.threads[u])
    {
      assert ThreadInv(s.objs, s.cache, s.threads[u]);
    }
  }

  /** An object about to be inserted into the cache carries a reference. */
  lemma InsertedPositive(s: State, t: nat)
    requires Inv(s) && t < |s.threads| && s.threads[t].Added? && s.threads[t].node !in s.cache
    ensures var o := s.threads[t].obj; o < |s.objs| && s.objs[o].count >= 1
  {
    var n, o := s.threads[t].node, s.threads[t].obj;
    SlackOf(s, n, o);
    assert Placed(s.objs, s.threads[t]);
    CachedHolds(s.objs, s.threads, n, o);
    assert NodeSum(s.objs, n) == Sum(Balance(n), s.threads);
    BalanceCovers(n, s.threads, t);
    assert Sum(Claims(n), s.threads) >= 0;
    SumOnNonNegative(o, s.threads);
  }

  lemma InsertInv(s: State, t: nat)
    requires Inv(s) && t < |s.threads| && s.threads[t].Added?
    requires s.lock.None? && s.threads[t].node !in s.cache
    ensures var n, o := s.threads[t].node, s.threads[t].obj;
            Inv(Move(s, t, Finished(n)).(cache := s.cache[n := o]))
  {
    var n, o := s.threads[t].node, s.threads[t].obj;
    var cache', threads' := s.cache[n := o], s.threads[t := Finished(n)];
    assert ThreadInv(s.objs, s.cache, s.threads[t]);
    InsertedPositive(s, t);
    OnLowered(s.threads, t, n);
    SumInvMove(s.objs, s.threads, t, Finished(n));
    ClaimsMove(s.threads, t, Finished(n));
    InsertSlack(s, t);
    UnlockedThreads(s.objs, s.cache, cache', s.threads, t, Finished(n));
    assert forall u | 0 <= u < |s.threads| :: !Critical(s.threads[u]);
  }

  lemma InsertSlack(s: State, t: nat)
    requires Inv(s) && t < |s.threads| && s.threads[t].Added? && s.threads[t].node !in s.cache
    ensures var n, o := s.threads[t].node, s.threads[t].obj;
            SlackInv(s.objs, s.cache[n := o], s.threads[t := Finished(n)])
  {
    var n, o := s.threads[t].node, s.threads[t].obj;
    assert ThreadInv(s.objs, s.cache, s.threads[t]);
    OnLowered(s.threads, t, n);
    forall i | 0 <= i < |s.objs| && !Cached(s.objs, s.cache[n := o], i)
      ensures s.objs[i].count <= Sum(On(i), s.threads[t := Finished(n)])
    {
      assert !Cached(s.objs, s.cache, i);
    }
  }

  /** Where no request is in a critical section, only placement is left to check. */
  lemma UnlockedThreads(objs: seq<Obj>, cache: map<nat, nat>, cache': map<nat, nat>, threads: seq<Thread>,
                        t: nat, th: Thread)
    requires ThreadsInv(objs, cache, threads) && t < |threads| && CacheInv(objs, cache')
    requires forall u | 0 <= u < |threads| && u != t :: !Critical(threads[u])
    requires !Critical(th) && ThreadInv(objs, cache, th)
    ensures ThreadsInv(objs, cache', threads[t := th])
  {
    var threads' := threads[t := th];
    forall u | 0 <= u < |threads'|
      ensures ThreadInv(objs, cache', threads'[u])
    {
      assert ThreadInv(objs, cache, threads[u]);
    }
  }

  lemma EnterInv(s: State, t: nat)
    requires Inv(s) && t < |s.threads| && s.threads[t].Added?
    requires s.lock.None? && s.threads[t].node in s.cache
    ensures var n, o := s.threads[t].node, s.threads[t].obj;
            Inv(Move(s, t, Adding(n, o, s.cache[n])).(lock := Some(t)))
  {
    var n, o := s.threads[t].node, s.threads[t].obj;
    var th := Adding(n, o, s.cache[n]);
    assert ThreadInv(s.objs, s.cache, s.threads[t]);
    OnKept(s.threads, t, th);
    SumInvMove(s.objs, s.threads, t, th);
    ClaimsMove(s.threads, t, th);
    QuietPositive(s.objs, s.cache, s.threads, t, th);
    AloneThreads(s.objs, s.cache, s.threads, t, th);
    assert forall u | 0 <= u < |s.threads| :: !Critical(s.threads[u]);
  }

  /** The request in its critical section is the only one whose values matter. */
  lemma AloneThreads(objs: seq<Obj>, cache: map<nat, nat>, threads: seq<Thread>, t: nat, th: Thread)
    requires ThreadsInv(objs, cache, threads) && t < |threads| && CacheInv(objs, cache)
    requires forall u | 0 <= u < |threads| && u != t :: !Critical(threads[u])
    requires ThreadInv(objs, cache, th) && ValueInv(objs, threads[t := th], th)
    ensures ThreadsInv(objs, cache, threads[t := th])
  {
    var threads' := threads[t := th];
    forall u | 0 <= u < |threads'|
      ensures ThreadInv(objs, cache, threads'[u])
    {
      assert ThreadInv(objs, cache, threads[u]);
    }
  }

  lemma OthersOutside(s: State, t: nat)
    requires Inv(s) && t < |s.threads| && Critical(s.threads[t])
    ensures s.lock == Some(t)
    ensures forall u | 0 <= u < |s.threads| && u != t :: !Critical(s.threads[u])
  {
  }

  lemma ReadZeroInv(s: State, t: nat)
    requires Inv(s) && t < |s.threads| && s.threads[t].Adding?
    requires s.threads[t].obj < |s.objs| && s.objs[s.threads[t].obj].count == 0
    ensures Inv(Move(s, t, Finished(s.threads[t].node)).(lock := None))
  {
    var n, o := s.threads[t].node, s.threads[t].obj;
    var th := Finished(n);
    OthersOutside(s, t);
    OnLowered(s.threads, t, n);
    SumOnNonNegative(o, s.threads[t := th]);
    SumInvMove(s.objs, s.threads, t, th);
    ClaimsMove(s.threads, t, th);
    QuietPositive(s.objs, s.cache, s.threads, t, th);
    UnlockedThreads(s.objs, s.cache, s.cache, s.threads, t, th);
  }

  lemma ReadSomeInv(s: State, t: nat)
    requires Inv(s) && Small(s) && t < |s.threads| && s.threads[t].Adding?
    requires s.threads[t].obj < |s.objs| && s.objs[s.threads[t].obj].count != 0
    ensures var n, o, c := s.threads[t].node, s.threads[t].obj, s.threads[t].cached;
            Inv(Move(s, t, Read(n, o, c, s.objs[o].count)))
  {
    var n, o, c := s.threads[t].node, s.threads[t].obj, s.threads[t].cached;
    var th := Read(n, o, c, s.objs[o].count);
    OthersOutside(s, t);
    CountBound(s, o);
    SumOnNonNegative(o, s.threads);
    assert ThreadInv(s.objs, s.cache, s.threads[t]);
    OnKept(s.threads, t, th);
    SumInvMove(s.objs, s.threads, t, th);
    ClaimsMove(s.threads, t, th);
    QuietPositive(s.objs, s.cache, s.threads, t, th);
    AloneThreads(s.objs, s.cache, s.threads, t, th);
  }

  /** A counter changes while `t` alone is in a critical section. */
  lemma RecountedThreads(objs: seq<Obj>, i: nat, c: nat, cache: map<nat, nat>, threads: seq<Thread>, t: nat, th: Thread)
    requires ThreadsInv(objs, cache, threads) && t < |threads| && i < |objs| && CacheInv(objs, cache)
    requires forall u | 0 <= u < |threads| && u != t :: !Critical(threads[u])
    requires ThreadInv(objs, cache, th)
    requires ValueInv(objs[i := objs[i].(count := c)], threads[t := th], th)
    ensures ThreadsInv(objs[i := objs[i].(count := c)], cache, threads[t := th])
  {
    var objs', threads' := objs[i := objs[i].(count := c)], threads[t := th];
    forall u | 0 <= u < |threads'|
      ensures ThreadInv(objs', cache, threads'[u]) && ValueInv(objs', threads', threads'[u])
    {
      assert ThreadInv(objs, cache, threads[u]);
      if u == t {
        assert threads'[u] == th;
      } else {
        assert !Critical(threads'[u]);
      }
    }
    assert CacheInv(objs', cache);
  }

  lemma TransferInv(s: State, t: nat)
    requires Inv(s) && Small(s) && t < |s.threads| && s.threads[t].Read? && s.threads[t].cached < |s.objs|
    ensures var n, o, c, v := s.threads[t].node, s.threads[t].obj, s.threads[t].cached, s.threads[t].v;
            Inv(Move(s, t, Moved(n, o, c, v)).(objs := Counted(s.objs, c, v)))
  {
    hide Sum, NodeSum, SumInv, SlackInv, PositiveInv;
    var n, o, c, v := s.threads[t].node, s.threads[t].obj, s.threads[t].cached, s.threads[t].v;
    var th, k := Moved(n, o, c, v), s.objs[c].count + v;
    OthersOutside(s, t);
    assert ThreadInv(s.objs, s.cache, s.threads[t]) && ValueInv(s.objs, s.threads, s.threads[t]);
    CountBound(s, c);
    assert Counted(s.objs, c, v) == s.objs[c := s.objs[c].(count := k)];
    OnKept(s.threads, t, th);
    SumInvCount(s.objs, s.threads, t, th, c, k);
    ClaimsMove(s.threads, t, th);
    RecountedThreads(s.objs, c, k, s.cache, s.threads, t, th);
    RecountedSlack(s, t, th, c, k);
    RecountedPositive(s, t, th, c, k);
  }

  lemma RecountedSlack(s: State, t: nat, th: Thread, c: nat, k: nat)
    requires Inv(s) && t < |s.threads| && SameOn(s.threads[t], th) && c < |s.objs| && Cached(s.objs, s.cache, c)
    ensures SlackInv(s.objs[c := s.objs[c].(count := k)], s.cache, s.threads[t := th])
  {
    var objs' := s.objs[c := s.objs[c].(count := k)];
    OnKept(s.threads, t, th);
    forall i | 0 <= i < |objs'| && !Cached(objs', s.cache, i)
      ensures objs'[i].count <= Sum(On(i), s.threads[t := th])
    {
      assert !Cached(s.objs, s.cache, i);
    }
  }

  lemma RecountedPositive(s: State, t: nat, th: Thread, c: nat, k: nat)
    requires Inv(s) && t < |s.threads| && !s.threads[t].Dropped? && c < |s.objs|
    requires k > 0 || DropsLast(th, s.objs[c].node)
    ensures CacheInv(s.objs[c := s.objs[c].(count := k)], s.cache)
    ensures PositiveInv(s.objs[c := s.objs[c].(count := k)], s.cache, s.threads[t := th])
  {
    var objs', threads' := s.objs[c := s.objs[c].(count := k)], s.threads[t := th];
    QuietPositive(s.objs, s.cache, s.threads, t, th);
    forall n | n in s.cache && objs'[s.cache[n]].count == 0
      ensures exists u :: 0 <= u < |threads'| && DropsLast(threads'[u], n)
    {
      if s.cache[n] == c {
        assert threads'[t] == th;
      } else {
        assert s.objs[s.cache[n]].count == 0;
      }
    }
  }

  lemma ReleaseInv(s: State, t: nat)
    requires Inv(s) && Small(s) && t < |s.threads| && s.threads[t].Moved? && s.threads[t].obj < |s.objs|
    ensures var n, o, v := s.threads[t].node, s.threads[t].obj, s.threads[t].v;
            Inv(Move(s, t, Finished(n)).(objs := Counted(s.objs, o, 0 - v), lock := None))
  {
    hide Sum, NodeSum, SumInv, SlackInv, PositiveInv;
    var n, o, c, v := s.threads[t].node, s.threads[t].obj, s.threads[t].cached, s.threads[t].v;
    var th := Finished(n);
    OthersOutside(s, t);
    assert ThreadInv(s.objs, s.cache, s.threads[t]) && ValueInv(s.objs, s.threads, s.threads[t]);
    CountBound(s, o);
    var k := s.objs[o].count - v;
    CountedDown(s.objs, o, v);
    SumInvCount(s.objs, s.threads, t, th, o, k);
    ClaimsMove(s.threads, t, th);
    RecountedThreads(s.objs, o, k, s.cache, s.threads, t, th);
    ReleaseSlack(s, t, k);
    ReleasePositive(s, t, k);
  }

  lemma ReleaseSlack(s: State, t: nat, k: nat)
    requires Inv(s) && t < |s.threads| && s.threads[t].Moved? && s.threads[t].obj < |s.objs|
    requires k == s.objs[s.threads[t].obj].count - s.threads[t].v
    ensures var n, o := s.threads[t].node, s.threads[t].obj;
            SlackInv(s.objs[o := s.objs[o].(count := k)], s.cache, s.threads[t := Finished(n)])
  {
    var n, o := s.threads[t].node, s.threads[t].obj;
    var objs' := s.objs[o := s.objs[o].(count := k)];
    assert ThreadInv(s.objs, s.cache, s.threads[t]) && ValueInv(s.objs, s.threads, s.threads[t]);
    OnLowered(s.threads, t, n);
    forall i | 0 <= i < |objs'| && !Cached(objs', s.cache, i)
      ensures objs'[i].count <= Sum(On(i), s.threads[t := Finished(n)])
    {
      assert !Cached(s.objs, s.cache, i);
    }
  }

  lemma ReleasePositive(s: State, t: nat, k: nat)
    requires Inv(s) && t < |s.threads| && s.threads[t].Moved? && s.threads[t].obj < |s.objs|
    requires k == s.objs[s.threads[t].obj].count - s.threads[t].v
    ensures var n, o := s.threads[t].node, s.threads[t].obj;
            var objs' := s.objs[o := s.objs[o].(count := k)];
            CacheInv(objs', s.cache) && PositiveInv(objs', s.cache, s.threads[t := Finished(n)])
  {
    var n, o := s.threads[t].node, s.threads[t].obj;
    assert ThreadInv(s.objs, s.cache, s.threads[t]) && ValueInv(s.objs, s.threads, s.threads[t]);
    OthersOutside(s, t);
    var objs' := s.objs[o := s.objs[o].(count := k)];
    forall m | m in s.cache
      ensures objs'[s.cache[m]].count > 0
    {
      if s.cache[m] == o {
        assert s.objs[o].node == m == n;
      }
    }
  }

  /** A forget never drops more than the cached object holds. */
  lemma ForgetCovered(s: State, t: nat)
    requires Inv(s) && t < |s.threads| && s.threads[t].Forgetting? && s.lock.None?
    ensures var n, k := s.threads[t].node, s.threads[t].k;
            if n in s.cache then s.cache[n] < |s.objs| && k <= s.objs[s.cache[n]].count else k == 0
  {
    var n, k := s.threads[t].node, s.threads[t].k;
    assert NodeSum(s.objs, n) == Sum(Balance(n), s.threads);
    BalanceCovers(n, s.threads, t);
    assert Sum(Claims(n), s.threads) >= 0;
    if n in s.cache {
      SlackOf(s, n, s.cache[n]);
      CachedHolds(s.objs, s.threads, n, s.cache[n]);
      SumOnNonNegative(s.cache[n], s.threads);
    } else {
      SlackOf(s, n, |s.objs|);
      NothingCached(s.objs, s.threads, n);
    }
  }

  lemma DropInv(s: State, t: nat)
    requires Inv(s) && Small(s) && t < |s.threads| && s.threads[t].Forgetting? && s.lock.None?
    requires s.threads[t].node in s.cache && s.cache[s.threads[t].node] < |s.objs|
    ensures var n, k := s.threads[t].node, s.threads[t].k;
            var c := s.cache[n];
            var objs' := Counted(s.objs, c, 0 - k);
            Inv(Move(s, t, Dropped(n, k, c, objs'[c].count)).(objs := objs', lock := Some(t)))
  {
    hide Sum, NodeSum, SumInv, SlackInv, PositiveInv;
    var n, k := s.threads[t].node, s.threads[t].k;
    var c := s.cache[n];
    ForgetCovered(s, t);
    CountBound(s, c);
    var v := s.objs[c].count - k;
    var th := Dropped(n, k, c, v);
    CountedDown(s.objs, c, k);
    assert forall u | 0 <= u < |s.threads| :: !Critical(s.threads[u]);
    SumInvCount(s.objs, s.threads, t, th, c, v);
    ClaimsMove(s.threads, t, th);
    SumOnNonNegative(c, s.threads[t := th]);
    RecountedThreads(s.objs, c, v, s.cache, s.threads, t, th);
    RecountedSlack(s, t, th, c, v);
    RecountedPositive(s, t, th, c, v);
  }

  lemma DeleteInv(s: State, t: nat)
    requires Inv(s) && t < |s.threads| && s.threads[t].Dropped?
    ensures var n, k, v := s.threads[t].node, s.threads[t].k, s.threads[t].v;
            Inv(Move(s, t, Forgot(n, k)).(
                     cache := if v == 0 || v > MAX_COUNT then s.cache - {n} else s.cache,
                     lock := None))
  {
    var n, k, c, v := s.threads[t].node, s.threads[t].k, s.threads[t].cached, s.threads[t].v;
    var th := Forgot(n, k);
    var cache' := if v == 0 then s.cache - {n} else s.cache;
    OthersOutside(s, t);
    assert ThreadInv(s.objs, s.cache, s.threads[t]) && ValueInv(s.objs, s.threads, s.threads[t]);
    OnKept(s.threads, t, th);
    SumInvMove(s.objs, s.threads, t, th);
    ClaimsMove(s.threads, t, th);
    UnlockedThreads(s.objs, s.cache, cache', s.threads, t, th);
    DeleteSlack(s, t, cache');
    DeletePositive(s, t, cache');
  }

  lemma DeleteSlack(s: State, t: nat, cache': map<nat, nat>)
    requires Inv(s) && t < |s.threads| && s.threads[t].Dropped?
    requires cache' == if s.threads[t].v == 0 then s.cache - {s.threads[t].node} else s.cache
    ensures SlackInv(s.objs, cache', s.threads[t := Forgot(s.threads[t].node, s.threads[t].k)])
  {
    var th := Forgot(s.threads[t].node, s.threads[t].k);
    assert ThreadInv(s.objs, s.cache, s.threads[t]) && ValueInv(s.objs, s.threads, s.threads[t]);
    OnKept(s.threads, t, th);
    forall i | 0 <= i < |s.objs| && !Cached(s.objs, cache', i)
      ensures s.objs[i].count <= Sum(On(i), s.threads[t := th])
    {
      assert !Cached(s.objs, s.cache, i) || i == s.threads[t].cached;
    }
  }

  lemma DeletePositive(s: State, t: nat, cache': map<nat, nat>)
    requires Inv(s) && t < |s.threads| && s.threads[t].Dropped?
    requires cache' == if s.threads[t].v == 0 then s.cache - {s.threads[t].node} else s.cache
    ensures CacheInv(s.objs, cache')
    ensures PositiveInv(s.objs, cache', s.threads[t := Forgot(s.threads[t].node, s.threads[t].k)])
  {
    OthersOutside(s, t);
    assert ThreadInv(s.objs, s.cache, s.threads[t]) && ValueInv(s.objs, s.threads, s.threads[t]);
    forall n | n in cache'
      ensures s.objs[cache'[n]].count > 0
    {
      assert forall u | 0 <= u < |s.threads| :: !DropsLast(s.threads[u], n);
    }
  }

  /** Every atomic step keeps the invariant. */
  lemma StepInv(s: State, t: nat, a: Action, s': State)
    requires Inv(s) && Small(s) && Shaped(s) && t < |s.threads| && Next(s, t, a) == Some(s')
    ensures Inv(s')
  {
    hide Sum, NodeSum, SumInv, SlackInv, PositiveInv, LockInv, Counted;
    assert ThreadInv(s.objs, s.cache, s.threads[t]);
    match s.threads[t]
    case Idle => StartInv(s, t, a, s');
    case Missed(n) =>
      if a.obj.Some? {
        QuietInv(s, t, Got(n, a.obj.value));
      } else {
        FreshInv(s, t);
      }
    case Got(n, o) => AddRefInv(s, t);
    case Added(n, o) =>
      if n in s.cache {
        EnterInv(s, t);
      } else {
        InsertInv(s, t);
      }
    case Adding(n, o, c) =>
      if s.objs[o].count == 0 {
        ReadZeroInv(s, t);
      } else {
        ReadSomeInv(s, t);
      }
    case Read(n, o, c, v) => TransferInv(s, t);
    case Moved(n, o, c, v) => ReleaseInv(s, t);
    case Finished(n) =>
    case Forgetting(n, k) =>
      if n in s.cache {
        DropInv(s, t);
      } else {
        ForgetCovered(s, t);
        QuietInv(s, t, Forgot(n, k));
      }
    case Dropped(n, k, c, v) => DeleteInv(s, t);
    case Forgot(n, k) =>
  }

  lemma StartInv(s: State, t: nat, a: Action, s': State)
    requires Inv(s) && Shaped(s) && t < |s.threads| && s.threads[t].Idle? && Next(s, t, a) == Some(s')
    ensures Inv(s')
  {
    match a
    case Lookup(n) => QuietInv(s, t, if n in s.cache then Got(n, s.cache[n]) else Missed(n));
    case Forget(n, k) => QuietInv(s, t, Forgetting(n, k));
    case Obtain(_) =>
    case Go =>
  }

  // ----- Whole runs

  ghost predicate IsRun(run: seq<State>) {
    && run != [] && Init(run[0])
    && forall i | 0 <= i < |run| - 1 :: StepOf(run[i], run[i + 1])
  }

  ghost predicate StepOf(s: State, s': State) {
    Shaped(s) && exists t: nat, a :: t < |s.threads| && Next(s, t, a) == Some(s')
  }

  /** Up to the `i`-th state the counts have stayed below 2^48. */
  ghost predicate SmallBefore(run: seq<State>, i: nat)
    requires i <= |run|
  {
    forall j | 0 <= j < i :: Small(run[j])
  }

  /** Runs may be of any length, with any number of requests. */
  lemma {:induction false} RunInv(run: seq<State>, i: nat)
    requires IsRun(run) && i < |run| && SmallBefore(run, i)
    ensures Inv(run[i])
  {
    if i == 0 {
      InitInv(run[0]);
    } else {
      RunInv(run, i - 1);
      assert StepOf(run[i - 1], run[i - 1 + 1]);
      var t: nat, a :| t < |run[i - 1].threads| && Next(run[i - 1], t, a) == Some(run[i]);
      StepInv(run[i - 1], t, a, run[i]);
    }
  }

  /** Lookups of the node that are complete. */
  function Completed(n: nat, threads: seq<Thread>): nat {
    if threads == [] then 0
    else (if threads[0] == Finished(n) then 1 else 0) + Completed(n, threads[1..])
  }

  /** What the forgets of the node have dropped. */
  function Forgotten(n: nat, threads: seq<Thread>): nat {
    if threads == [] then 0
    else (if threads[0].Forgot? && threads[0].node == n then threads[0].k else 0) + Forgotten(n, threads[1..])
  }

  /** The request is not at work on the references of node `n`: it is no lookup of
      it between AddRef and the end of addToCache, and no forget between DelRef
      and the end of removeFromCache. */
  predicate Still(n: nat, th: Thread) {
    (Midway(th) || th.Dropped?) ==> th.node != n
  }

  lemma {:induction false} StillBalance(n: nat, threads: seq<Thread>)
    requires forall t | 0 <= t < |threads| :: Still(n, threads[t])
    ensures Sum(Balance(n), threads) == Completed(n, threads) - Forgotten(n, threads)
    ensures Sum(Pending(n), threads) == 0
  {
    if threads != [] {
      StillBalance(n, threads[1..]);
    }
  }

  /** No lookup is midway on an object of a node that is still. */
  lemma {:induction false} StillObject(objs: seq<Obj>, threads: seq<Thread>, n: nat, o: nat)
    requires o < |objs| && objs[o].node == n
    requires forall t | 0 <= t < |threads| :: Still(n, threads[t]) && Placed(objs, threads[t])
    ensures Sum(On(o), threads) == 0
  {
    if threads != [] {
      assert Still(n, threads[0]) && Placed(objs, threads[0]);
      StillObject(objs, threads[1..], n, o);
    }
  }

  /** In every state of every run the counters of a node's objects add up to the
      references its requests account for: each lookup past AddRef, minus what
      the forgets dropped, plus what a transfer under way holds twice. */
  lemma Conservation(run: seq<State>, i: nat, n: nat)
    requires IsRun(run) && i < |run| && SmallBefore(run, i)
    ensures NodeSum(run[i].objs, n) == Sum(Balance(n), run[i].threads)
  {
    RunInv(run, i);
  }

  /** While no request is at work on a node's references, whatever the requests
      for other nodes are doing and whatever forgets wait for the lock, these
      references are completed lookups minus forgotten ones, all of them on the
      cached object, and the node is cached exactly when there are any. */
  lemma RestingState(run: seq<State>, i: nat, n: nat)
    requires IsRun(run) && i < |run| && SmallBefore(run, i)
    requires forall t | 0 <= t < |run[i].threads| :: Still(n, run[i].threads[t])
    ensures var s := run[i];
            var owed := Completed(n, s.threads) - Forgotten(n, s.threads);
            && owed == NodeSum(s.objs, n)
            && (n in s.cache <==> owed > 0)
            && (n in s.cache ==> s.cache[n] < |s.objs| && s.objs[s.cache[n]] == Obj(n, owed))
            && (forall o | 0 <= o < |s.objs| && s.objs[o].node == n && !(n in s.cache && s.cache[n] == o) ::
                  s.objs[o].count == 0)
  {
    RunInv(run, i);
    var s := run[i];
    StillBalance(n, s.threads);
    assert NodeSum(s.objs, n) == Sum(Balance(n), s.threads);
    SlackOf(s, n, if n in s.cache then s.cache[n] else |s.objs|);
    forall o | 0 <= o < |s.objs| && s.objs[o].node == n
      ensures Sum(On(o), s.threads) == 0
    {
      StillObject(s.objs, s.threads, n, o);
    }
    if n in s.cache {
      OnlyOne(s.objs, n, s.cache[n], |s.objs|);
      assert forall t | 0 <= t < |s.threads| :: !DropsLast(s.threads[t], n);
    } else {
      NothingCached(s.objs, s.threads, n);
    }
  }

  lemma {:induction false} OnlyOne(objs: seq<Obj>, n: nat, c: nat, k: nat)
    requires k <= |objs| && c < |objs| && objs[c].node == n
    requires forall i | 0 <= i < |objs| && objs[i].node == n && i != c :: objs[i].count == 0
    ensures Counts(objs, n, k) == if c < k then objs[c].count else 0
  {
    if k > 0 {
      OnlyOne(objs, n, c, k - 1);
    }
  }
}

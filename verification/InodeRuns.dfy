/** Runs of InodeRanges in which a lookup is not interrupted, and what happens to
    a package that two databases of the family index. */
module InodeRuns {
  import opened Bytes
  import opened InodeRanges

  ghost predicate Steps(w: World, run: seq<State>) {
    run != [] && forall i | 0 <= i < |run| - 1 :: StepOf(w, run[i], run[i + 1])
  }

  /** After pkgIno has returned to thread `t`. */
  function NumberedState(w: World, s: State, t: nat, d: nat, h: Bytes): State
    requires t < |s.threads| && d < |s.pkgI|
  {
    if h in s.pkgI[d] then Move(s, t, Have(d, h, s.pkgI[d][h]))
    else
      Move(s, t, Have(d, h, s.nextI)).(
        nextI := Alloc(s.nextI, (w.count(h) + 1) % TWO64),
        pkgI := s.pkgI[d := Stored(s.pkgI[d], h, s.nextI)],
        log := s.log + [Range(d, h, s.nextI, w.count(h) + 1)])
  }

  /** After getPkgTx has returned to thread `t`. */
  function SpawnedState(w: World, s: State, t: nat, d: nat, h: Bytes, v: nat): State
    requires t < |s.threads|
  {
    if h in s.cache then Move(s, t, Done(d, h, v))
    else if !w.stored(h) then Move(s, t, Failed)
    else
      var p := Package(h, v, w.count(h));
      Move(s, t, Done(d, h, v)).(cache := s.cache[h := p], tree := s.tree[v := p])
  }

  lemma MoveShaped(w: World, s: State, t: nat, th: Thread)
    requires Shaped(w, s) && t < |s.threads|
    requires th != Idle && th != Failed ==> th.db < w.dbs
    ensures Shaped(w, Move(s, t, th))
  {
  }

  lemma MoveTwice(s: State, t: nat, th: Thread, th': Thread)
    requires t < |s.threads|
    ensures Move(Move(s, t, th), t, th') == Move(s, t, th')
  {
  }

  /** The steps of pkgIno when the hash has a number. */
  lemma KnownSteps(w: World, s: State, t: nat, d: nat, h: Bytes) returns (run: seq<State>)
    requires Shaped(w, s) && t < |s.threads| && s.threads[t].Idle?
    requires d < w.dbs && s.lock[d] == None && w.lives(h, d) && h in s.pkgI[d]
    ensures Steps(w, run) && run[0] == s && run[|run| - 1] == NumberedState(w, s, t, d, h)
  {
    var s1 := Move(s, t, Check(d, h));
    var s2 := NumberedState(w, s, t, d, h);
    assert Next(w, s, t, Begin(d, h)) == Some(s1);
    MoveShaped(w, s, t, Check(d, h));
    MoveTwice(s, t, Check(d, h), Have(d, h, s.pkgI[d][h]));
    assert Next(w, s1, t, Continue) == Some(s2);
    run := [s, s1, s2];
  }

  /** The steps of pkgIno when it has none: the check, the lock and the second
      check, the allocation, and storing it. */
  lemma FreshSteps(w: World, s: State, t: nat, d: nat, h: Bytes) returns (run: seq<State>)
    requires Shaped(w, s) && t < |s.threads| && s.threads[t].Idle?
    requires d < w.dbs && s.lock[d] == None && w.lives(h, d) && h !in s.pkgI[d]
    ensures Steps(w, run) && run[0] == s && run[|run| - 1] == NumberedState(w, s, t, d, h)
  {
    hide Next;
    var s1 := Move(s, t, Check(d, h));
    var s2 := Move(s, t, Want(d, h));
    var s3 := LockedState(s, t, d, h);
    var s4 := AllocedState(w, s, t, d, h);
    var s5 := NumberedState(w, s, t, d, h);
    CheckSteps(w, s, t, d, h);
    LockStep(w, s, t, d, h);
    AllocStep(w, s, t, d, h);
    StoreStep(w, s, t, d, h);
    run := [s, s1, s2, s3, s4, s5];
  }

  function LockedState(s: State, t: nat, d: nat, h: Bytes): State
    requires t < |s.threads| && d < |s.lock|
  {
    Move(s, t, Locked(d, h)).(lock := s.lock[d := Some(t)])
  }

  function AllocedState(w: World, s: State, t: nat, d: nat, h: Bytes): State
    requires t < |s.threads| && d < |s.lock|
  {
    Move(s, t, Alloced(d, h, s.nextI)).(
      lock := s.lock[d := Some(t)],
      nextI := Alloc(s.nextI, (w.count(h) + 1) % TWO64),
      log := s.log + [Range(d, h, s.nextI, w.count(h) + 1)])
  }

  lemma CheckSteps(w: World, s: State, t: nat, d: nat, h: Bytes)
    requires Shaped(w, s) && t < |s.threads| && s.threads[t].Idle?
    requires d < w.dbs && s.lock[d] == None && w.lives(h, d) && h !in s.pkgI[d]
    ensures StepOf(w, s, Move(s, t, Check(d, h)))
    ensures StepOf(w, Move(s, t, Check(d, h)), Move(s, t, Want(d, h)))
  {
    var s1 := Move(s, t, Check(d, h));
    assert Next(w, s, t, Begin(d, h)) == Some(s1);
    MoveShaped(w, s, t, Check(d, h));
    MoveTwice(s, t, Check(d, h), Want(d, h));
    assert Next(w, s1, t, Continue) == Some(Move(s, t, Want(d, h)));
  }

  lemma LockStep(w: World, s: State, t: nat, d: nat, h: Bytes)
    requires Shaped(w, s) && t < |s.threads| && d < w.dbs && s.lock[d] == None && h !in s.pkgI[d]
    ensures StepOf(w, Move(s, t, Want(d, h)), LockedState(s, t, d, h))
  {
    var s2 := Move(s, t, Want(d, h));
    MoveShaped(w, s, t, Want(d, h));
    MoveTwice(s, t, Want(d, h), Locked(d, h));
    assert Next(w, s2, t, Continue) == Some(LockedState(s, t, d, h));
  }

  lemma AllocStep(w: World, s: State, t: nat, d: nat, h: Bytes)
    requires Shaped(w, s) && t < |s.threads| && d < w.dbs && s.lock[d] == None
    ensures StepOf(w, LockedState(s, t, d, h), AllocedState(w, s, t, d, h))
  {
    var s3 := LockedState(s, t, d, h);
    MoveShaped(w, s, t, Locked(d, h));
    assert Shaped(w, s3);
    MoveTwice(s, t, Locked(d, h), Alloced(d, h, s.nextI));
    assert Next(w, s3, t, Continue) == Some(AllocedState(w, s, t, d, h));
  }

  lemma StoreStep(w: World, s: State, t: nat, d: nat, h: Bytes)
    requires Shaped(w, s) && t < |s.threads| && d < w.dbs && s.lock[d] == None && h !in s.pkgI[d]
    ensures StepOf(w, AllocedState(w, s, t, d, h), NumberedState(w, s, t, d, h))
  {
    var s4 := AllocedState(w, s, t, d, h);
    MoveShaped(w, s, t, Alloced(d, h, s.nextI));
    assert Shaped(w, s4);
    MoveTwice(s, t, Alloced(d, h, s.nextI), Have(d, h, s.nextI));
    assert s.lock[d := Some(t)][d := None] == s.lock;
    assert Next(w, s4, t, Continue) == Some(NumberedState(w, s, t, d, h));
  }

  /** The steps of getPkgTx. */
  lemma SpawnSteps(w: World, s: State, t: nat, d: nat, h: Bytes, v: nat) returns (run: seq<State>)
    requires Shaped(w, s) && t < |s.threads| && s.threads[t] == Have(d, h, v)
    ensures Steps(w, run) && run[0] == s && run[|run| - 1] == SpawnedState(w, s, t, d, h, v)
  {
    var last := SpawnedState(w, s, t, d, h, v);
    if h in s.cache {
      assert Next(w, s, t, Continue) == Some(last);
      run := [s, last];
    } else {
      var s1 := Move(s, t, Miss(d, h, v));
      assert Next(w, s, t, Continue) == Some(s1);
      MissStep(w, s, t, d, h, v);
      run := [s, s1, last];
    }
  }

  lemma MissStep(w: World, s: State, t: nat, d: nat, h: Bytes, v: nat)
    requires Shaped(w, s) && t < |s.threads| && s.threads[t] == Have(d, h, v) && h !in s.cache
    ensures StepOf(w, Move(s, t, Miss(d, h, v)), SpawnedState(w, s, t, d, h, v))
  {
    var s1 := Move(s, t, Miss(d, h, v));
    MoveShaped(w, s, t, Miss(d, h, v));
    MoveTwice(s, t, Miss(d, h, v), Done(d, h, v));
    MoveTwice(s, t, Miss(d, h, v), Failed);
    assert Next(w, s1, t, Continue) == Some(SpawnedState(w, s, t, d, h, v));
  }

  lemma StepsJoin(w: World, run: seq<State>, more: seq<State>)
    requires Steps(w, run) && Steps(w, more) && run[|run| - 1] == more[0]
    ensures Steps(w, run + more[1..])
    ensures (run + more[1..])[0] == run[0] && (run + more[1..])[|run + more[1..]| - 1] == more[|more| - 1]
  {
    hide StepOf;
    var all := run + more[1..];
    forall i | 0 <= i < |all| - 1
      ensures StepOf(w, all[i], all[i + 1])
    {
      if i >= |run| - 1 {
        var j := i - (|run| - 1);
        assert all[i] == more[j] && all[i + 1] == more[j + 1];
      }
    }
  }

  lemma NotEmpty(w: World, run: seq<State>)
    requires Steps(w, run)
    ensures run != []
  {
  }

  lemma NumberedShaped(w: World, s: State, t: nat, d: nat, h: Bytes)
    requires Shaped(w, s) && t < |s.threads| && d < w.dbs
    ensures Shaped(w, NumberedState(w, s, t, d, h))
    ensures NumberedState(w, s, t, d, h).threads[t] == Have(d, h, if h in s.pkgI[d] then s.pkgI[d][h] else s.nextI)
  {
    var v := if h in s.pkgI[d] then s.pkgI[d][h] else s.nextI;
    MoveShaped(w, s, t, Have(d, h, v));
  }

  /** After a whole lookup of thread `t`. */
  function LookedUp(w: World, s: State, t: nat, d: nat, h: Bytes): State
    requires t < |s.threads| && d < |s.pkgI|
  {
    var n := NumberedState(w, s, t, d, h);
    SpawnedState(w, n, t, d, h, if h in s.pkgI[d] then s.pkgI[d][h] else s.nextI)
  }

  /** All steps of a lookup that nobody interrupts. */
  lemma LookupSteps(w: World, s: State, t: nat, d: nat, h: Bytes) returns (run: seq<State>)
    requires Shaped(w, s) && t < |s.threads| && s.threads[t].Idle?
    requires d < w.dbs && s.lock[d] == None && w.lives(h, d)
    ensures Steps(w, run) && run[0] == s && run[|run| - 1] == LookedUp(w, s, t, d, h)
  {
    hide Steps, StepOf;
    if h in s.pkgI[d] {
      run := KnownSteps(w, s, t, d, h);
    } else {
      run := FreshSteps(w, s, t, d, h);
    }
    NumberedShaped(w, s, t, d, h);
    var rest := SpawnSteps(w, NumberedState(w, s, t, d, h), t, d, h, if h in s.pkgI[d] then s.pkgI[d][h] else s.nextI);
    NotEmpty(w, run);
    NotEmpty(w, rest);
    StepsJoin(w, run, rest);
    run := run + rest[1..];
  }

  // ----- A package with two homes

  /** In every run, the number of every finished lookup of the package leads to it. */
  ghost predicate AlwaysResolves(w: World, h: Bytes) {
    forall run: seq<State>, i: nat, t: nat |
      IsRun(w, run) && i < |run| && NoOverflow(run[i])
      && t < |run[i].threads| && run[i].threads[t].Done? && run[i].threads[t].hash == h ::
      Resolves(w, run[i], t)
  }

  /** The numbers of a package always lead to it if and only if no two databases
      of the family index it, whatever other packages there are. */
  lemma ResolvesIff(w: World, h: Bytes)
    ensures AlwaysResolves(w, h) <==> HomeOf(w, h)
  {
    if HomeOf(w, h) {
      forall run: seq<State>, i: nat, t: nat |
        IsRun(w, run) && i < |run| && NoOverflow(run[i])
        && t < |run[i].threads| && run[i].threads[t].Done? && run[i].threads[t].hash == h
        ensures Resolves(w, run[i], t)
      {
        OwnResolves(w, run, i, t);
      }
    } else {
      var d: nat, e: nat :| d < w.dbs && e < w.dbs && w.lives(h, d) && w.lives(h, e) && d != e;
      var run := TwoHomes(w, h, d, e);
      var last := |run| - 1;
      assert !Resolves(w, run[last], 1);
    }
  }

  /** So all numbers in the family do if and only if every package has one home. */
  lemma FamilyResolvesIff(w: World)
    ensures (forall h :: AlwaysResolves(w, h)) <==> (forall h :: HomeOf(w, h))
  {
    hide AlwaysResolves, HomeOf;
    forall h
      ensures AlwaysResolves(w, h) <==> HomeOf(w, h)
    {
      ResolvesIff(w, h);
    }
  }

  lemma OwnResolves(w: World, run: seq<State>, i: nat, t: nat)
    requires IsRun(w, run) && i < |run| && NoOverflow(run[i])
    requires t < |run[i].threads| && run[i].threads[t].Done? && HomeOf(w, run[i].threads[t].hash)
    ensures Resolves(w, run[i], t)
  {
    hide IsRun, HomeOf, NoOverflow, GetInode;
    NumbersStayResolved(w, run, i, i, t, 0);
  }

  /** Two lookups of one package, one after the other, through two databases
      that both index it: the second one returns a number that leads nowhere. */
  lemma TwoHomes(w: World, h: Bytes, d: nat, e: nat) returns (run: seq<State>)
    requires w.stored(h) && TwoFit(w, h) && d < w.dbs && e < w.dbs && d != e && w.lives(h, d) && w.lives(h, e)
    ensures IsRun(w, run) && NoOverflow(run[|run| - 1])
    ensures var s := run[|run| - 1];
            |s.threads| == 2 && s.threads[1].Done? && s.threads[1].hash == h && s.threads[1].db == e
            && GetInode(s.tree, s.threads[1].ino) == None
  {
    hide Steps, LookedUp, IsRun, Init, NoOverflow, GetInode;
    var s0 := Fresh(w);
    FreshStart(w);
    var first := LookupSteps(w, s0, 0, d, h);
    var s1 := LookedUp(w, s0, 0, d, h);
    FirstLookup(w, h, d, e);
    var second := LookupSteps(w, s1, 1, e, h);
    NotEmpty(w, first);
    NotEmpty(w, second);
    StepsJoin(w, first, second);
    run := first + second[1..];
    StepsRun(w, run);
    SecondLookup(w, h, d, e);
  }

  lemma StepsRun(w: World, run: seq<State>)
    requires Steps(w, run) && Init(w, run[0])
    ensures IsRun(w, run)
  {
  }

  /** A start with two threads. */
  function Fresh(w: World): State {
    State(FIRST_INODE, seq(w.dbs, _ => map[]), seq(w.dbs, _ => None), map[], map[], [Idle, Idle], [])
  }

  lemma FreshStart(w: World)
    ensures Init(w, Fresh(w)) && Shaped(w, Fresh(w))
  {
  }

  /** What the first lookup leaves. */
  function OneNumber(w: World, h: Bytes, d: nat): State
    requires d < w.dbs
  {
    var p := Package(h, FIRST_INODE, w.count(h));
    State(FIRST_INODE + w.count(h) + 1, Fresh(w).pkgI[d := Stored(map[], h, FIRST_INODE)], Fresh(w).lock,
          map[h := p], map[FIRST_INODE := p], [Done(d, h, FIRST_INODE), Idle],
          [Range(d, h, FIRST_INODE, w.count(h) + 1)])
  }

  lemma FirstLookup(w: World, h: Bytes, d: nat, e: nat)
    requires w.stored(h) && TwoFit(w, h) && d < w.dbs && e < w.dbs && d != e
    ensures LookedUp(w, Fresh(w), 0, d, h) == OneNumber(w, h, d)
    ensures var s := OneNumber(w, h, d);
            Shaped(w, s) && s.threads[1].Idle? && s.lock[e] == None && h !in s.pkgI[e]
  {
    var have := Have(d, h, FIRST_INODE);
    assert [Idle, Idle][0 := have] == [have, Idle];
    assert [have, Idle][0 := Done(d, h, FIRST_INODE)] == [Done(d, h, FIRST_INODE), Idle];
  }

  lemma SecondLookup(w: World, h: Bytes, d: nat, e: nat)
    requires w.stored(h) && TwoFit(w, h) && d < w.dbs && e < w.dbs && d != e
    ensures var s := LookedUp(w, OneNumber(w, h, d), 1, e, h);
            && NoOverflow(s) && |s.threads| == 2
            && s.threads[1] == Done(e, h, FIRST_INODE + w.count(h) + 1)
            && GetInode(s.tree, FIRST_INODE + w.count(h) + 1) == None
  {
    hide Floor;
    FirstLookup(w, h, d, e);
    var s1 := OneNumber(w, h, d);
    var s := LookedUp(w, s1, 1, e, h);
    assert s.tree == s1.tree;
    var k := Floor(s.tree, FIRST_INODE + w.count(h) + 1);
    TwoRangesTotal(Range(d, h, FIRST_INODE, w.count(h) + 1), Range(e, h, FIRST_INODE + w.count(h) + 1, w.count(h) + 1));
  }

  lemma TwoRangesTotal(q: Range, r: Range)
    ensures Total([q] + [r]) == q.len + r.len
  {
    var log := [q] + [r];
    assert log[..1] == [q] && [q][..0] == [];
    assert Total([q]) == Total([q][..0]) + q.len;
    assert Total(log) == Total(log[..1]) + r.len;
  }
}

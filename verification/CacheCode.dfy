/** The objects behind InodeCache: the inode cache of apkgfs/cache.go and the
    requests of apkgfs/server.go that use it, called one at a time. */
module CacheCode {
  import opened Bytes
  import opened Codec
  import C = InodeCache

  // ----- Little-endian numbers of the FUSE protocol

  function LE(n: nat, w: nat): (b: Bytes)
    ensures |b| == w
  {
    if w == 0 then [] else [n % 256] + LE(n / 256, w - 1)
  }

  function FromLE(b: Bytes): nat {
    if b == [] then 0 else b[0] + 256 * FromLE(b[1..])
  }

  lemma {:induction false} LERoundTrip(n: nat, w: nat)
    requires n < Pow256(w)
    ensures FromLE(LE(n, w)) == n
  {
    if w > 0 {
      LERoundTrip(n / 256, w - 1);
      assert LE(n, w)[1..] == LE(n / 256, w - 1);
    }
  }

  // ----- What the cache holds

  /** Reference counts of the cached nodes. */
  type View = map<nat, nat>

  datatype Forget = Forget(node: nat, k: nat)

  /** removeFromCache: the count may wrap; a count of zero, or one that can only
      come from wrapping, ends the entry. */
  function Dropped(v: View, f: Forget): View {
    if f.node !in v then v
    else
      var left := C.Add64(v[f.node], 0 - f.k);
      if left == 0 || left > C.MAX_COUNT then v - {f.node} else v[f.node := left]
  }

  function AllDropped(v: View, fs: seq<Forget>): View {
    if fs == [] then v else AllDropped(Dropped(v, fs[0]), fs[1..])
  }

  /** A forget of more references than there are takes the counter below zero; the entry goes too. */
  lemma ForgetTooMuch(v: View, f: Forget)
    requires f.node in v && v[f.node] < 0x1_0000_0000_0000_0000 && v[f.node] <= f.k
    requires f.k - v[f.node] < 0xffff_0000_0000_0000
    ensures Dropped(v, f) == v - {f.node}
  {
  }

  /** A completed lookup; an inode that was not cached brings `held` references along. */
  function Looked(v: View, node: nat, held: nat): View {
    v[node := C.Add64(if node in v then v[node] else held, 1)]
  }

  /** The entries of a batch: as many as are announced, or as many as are there. */
  function Entries(body: Bytes, count: nat): seq<Forget>
    decreases count
  {
    if count == 0 || |body| < 16 then []
    else [Forget(FromLE(body[..8]), FromLE(body[8..16]))] + Entries(body[16..], count - 1)
  }

  function Batch(body: Bytes): seq<Forget> {
    if |body| < 8 then [] else Entries(body[8..], FromLE(body[..4]))
  }

  /** A batch as the kernel sends it. */
  function Encoded(fs: seq<Forget>): Bytes {
    if fs == [] then [] else LE(fs[0].node, 8) + LE(fs[0].k, 8) + Encoded(fs[1..])
  }

  function BatchBody(fs: seq<Forget>): Bytes {
    LE(|fs|, 4) + LE(0, 4) + Encoded(fs)
  }

  lemma {:induction false} EntriesRead(fs: seq<Forget>, count: nat)
    requires forall i | 0 <= i < |fs| :: fs[i].node < C.TWO64 && fs[i].k < C.TWO64
    ensures Entries(Encoded(fs), count) == fs[..if count < |fs| then count else |fs|]
    decreases |fs|
  {
    if fs == [] || count == 0 {
    } else {
      var body := Encoded(fs);
      Widths();
      LERoundTrip(fs[0].node, 8);
      LERoundTrip(fs[0].k, 8);
      assert body[..8] == LE(fs[0].node, 8) && body[8..16] == LE(fs[0].k, 8) && body[16..] == Encoded(fs[1..]);
      EntriesRead(fs[1..], count - 1);
      var n := if count < |fs| then count else |fs|;
      assert fs[..n] == [fs[0]] + fs[1..][..n - 1];
    }
  }

  /** A batch is read as it was sent. */
  lemma BatchRead(fs: seq<Forget>)
    requires |fs| < 0x1_0000_0000
    requires forall i | 0 <= i < |fs| :: fs[i].node < C.TWO64 && fs[i].k < C.TWO64
    ensures Batch(BatchBody(fs)) == fs
  {
    hide LE, FromLE, Encoded, Entries;
    var body := BatchBody(fs);
    Widths();
    LERoundTrip(|fs|, 4);
    assert body[..4] == LE(|fs|, 4) && body[8..] == Encoded(fs);
    EntriesRead(fs, |fs|);
    assert fs[..|fs|] == fs;
  }

  /** What a batch forgets of a node. */
  function Total(fs: seq<Forget>, node: nat): nat {
    if fs == [] then 0
    else (if fs[0].node == node then fs[0].k else 0) + Total(fs[1..], node)
  }

  /** What a batch leaves of a node is its count minus the batch's total for it,
      as long as that is covered; the node goes exactly when nothing is left. */
  lemma {:induction false} BatchTotal(v: View, fs: seq<Forget>, node: nat)
    requires node in v && 0 < v[node] <= C.MAX_COUNT && Total(fs, node) <= v[node]
    ensures var left := v[node] - Total(fs, node);
            if left > 0 then node in AllDropped(v, fs) && AllDropped(v, fs)[node] == left
            else node !in AllDropped(v, fs)
    decreases |fs|
  {
    if fs != [] {
      if node in Dropped(v, fs[0]) {
        BatchTotal(Dropped(v, fs[0]), fs[1..], node);
      } else {
        StaysGone(Dropped(v, fs[0]), fs[1..], node);
      }
    }
  }

  lemma {:induction false} StaysGone(v: View, fs: seq<Forget>, node: nat)
    requires node !in v
    ensures node !in AllDropped(v, fs)
    decreases |fs|
  {
    if fs != [] {
      StaysGone(Dropped(v, fs[0]), fs[1..], node);
    }
  }

  lemma Counters(r: nat)
    requires r < C.TWO64
    ensures C.Add64(r, 0) == r && C.Add64(r, 0 - r) == 0 && C.Add64(C.Add64(r, r), 0 - r) == r
  {
  }

  lemma CounterBound(r: nat, d: int)
    ensures C.Add64(r, d) < C.TWO64
  {
  }

  // ----- The objects

  /** An inode that counts its references. */
  class Inode {
    const node: nat
    var refs: nat

    constructor (node: nat)
      ensures this.node == node && refs == 0
    {
      this.node, refs := node, 0;
    }

    method AddRef(count: nat) returns (v: nat)
      modifies this
      ensures v == refs == C.Add64(old(refs), count) < C.TWO64
    {
      refs := (refs + count) % C.TWO64;
      v := refs;
    }

    method DelRef(count: nat) returns (v: nat)
      modifies this
      ensures v == refs == C.Add64(old(refs), 0 - count) < C.TWO64
    {
      refs := (refs - count) % C.TWO64;
      v := refs;
    }
  }

  class PkgFS {
    const root: Inode
    var inoCache: map<nat, Inode>

    constructor (root: Inode)
      requires root.node == 1
      ensures Valid() && inoCache == map[] && this.root == root
    {
      this.root, inoCache := root, map[];
    }

    /** Each object is cached under its own node. */
    ghost predicate Valid()
      reads this, inoCache.Values
    {
      && root.node == 1 && (1 in inoCache ==> inoCache[1] == root)
      && forall n | n in inoCache :: inoCache[n].node == n && inoCache[n].refs < C.TWO64
    }

    ghost function Counts(): View
      reads this, inoCache.Values
    {
      map n | n in inoCache :: inoCache[n].refs
    }

    /** addToCache: a new entry, or the references of `o` moved over to the
        cached object; if that is `o` itself, nothing changes. */
    method AddToCache(ino: nat, o: Inode)
      requires Valid() && o.node == ino && o.refs < C.TWO64 && (ino == 1 ==> o == root)
      modifies this, o, inoCache.Values
      ensures Valid()
      ensures inoCache == if ino in old(inoCache) then old(inoCache) else old(inoCache)[ino := o]
      ensures ino !in old(inoCache) || old(inoCache)[ino] == o ==> o.refs == old(o.refs)
      ensures ino in old(inoCache) && old(inoCache)[ino] != o ==>
                o.refs == 0 && inoCache[ino].refs == C.Add64(old(inoCache[ino].refs), old(o.refs))
      ensures forall n | n in inoCache && n != ino :: inoCache[n].refs == old(inoCache[n].refs)
    {
      hide C.Add64;
      if ino !in inoCache {
        inoCache := inoCache[ino := o];
        return;
      }
      var c := inoCache[ino];
      Counters(o.refs);
      Counters(c.refs);
      var v := o.AddRef(0);
      if v != 0 {
        var _ := c.AddRef(v);
        var _ := o.DelRef(v);
      }
    }

    method RemoveFromCache(nodeid: nat, nlookup: nat)
      requires Valid()
      modifies this, inoCache.Values
      ensures Valid() && inoCache.Values <= old(inoCache.Values)
      ensures Counts() == Dropped(old(Counts()), Forget(nodeid, nlookup))
    {
      if nodeid !in inoCache {
        return;
      }
      var c := inoCache[nodeid];
      var v := c.DelRef(nlookup);
      if v == 0 || v > C.MAX_COUNT {
        inoCache := inoCache - {nodeid};
      }
    }

    /** getInode; `made` is what the root's GetInode comes back with, null for an error. */
    method GetInode(ino: nat, made: Inode?) returns (o: Inode?)
      ensures o == if ino == 1 then root else if ino in inoCache then inoCache[ino] else made
    {
      if ino == 1 {
        return root;
      }
      if ino in inoCache {
        return inoCache[ino];
      }
      o := made;
    }

    /** doLookup, once the name has led to node `sub`. */
    method DoLookup(sub: nat, made: Inode?) returns (ok: bool)
      requires Valid()
      requires made != null && sub != 1 && sub !in inoCache ==> made.node == sub
      modifies this, root, made, inoCache.Values
      ensures Valid()
      ensures ok == (sub == 1 || made != null || sub in old(inoCache))
      ensures var held := if sub == 1 then old(root.refs) else if made == null then 0 else old(made.refs);
              Counts() == if ok then Looked(old(Counts()), sub, held) else old(Counts())
    {
      hide C.Add64;
      var o := GetInode(sub, made);
      if o == null {
        return false;
      }
      var _ := o.AddRef(1);
      AddToCache(sub, o);
      ok := true;
    }

    method DoForget(node: nat, body: Bytes)
      requires Valid()
      modifies this, inoCache.Values
      ensures Valid()
      ensures Counts() == if |body| < 8 then old(Counts()) else Dropped(old(Counts()), Forget(node, FromLE(body[..8])))
    {
      if |body| < 8 {
        return;
      }
      RemoveFromCache(node, FromLE(body[..8]));
    }

    method DoBatchForget(body: Bytes)
      requires Valid()
      modifies this, inoCache.Values
      ensures Valid()
      ensures Counts() == AllDropped(old(Counts()), Batch(body))
    {
      hide Dropped, FromLE;
      if |body| < 8 {
        return;
      }
      var count := FromLE(body[..4]);
      var rest := body[8..];
      var i := 0;
      while i < count
        invariant 0 <= i <= count && Valid() && inoCache.Values <= old(inoCache.Values)
        invariant AllDropped(Counts(), Entries(rest, count - i)) == AllDropped(old(Counts()), Batch(body))
      {
        if |rest| < 16 {
          break;
        }
        RemoveFromCache(FromLE(rest[..8]), FromLE(rest[8..16]));
        rest := rest[16..];
        i := i + 1;
      }
    }
  }

  // ----- One request at a time

  ghost predicate Steps(run: seq<C.State>) {
    run != [] && forall i | 0 <= i < |run| - 1 :: C.StepOf(run[i], run[i + 1])
  }

  /** What the machine has cached. */
  function CountsOf(s: C.State): View
    requires C.Shaped(s)
  {
    map n | n in s.cache :: s.objs[s.cache[n]].count
  }

  /** The machine, with the request at another point and the objects counted anew. */
  function At(s: C.State, t: nat, th: C.Thread, objs: seq<C.Obj>, lock: Option<nat>): C.State
    requires t < |s.threads|
  {
    C.Move(s, t, th).(objs := objs, lock := lock)
  }

  lemma AtShaped(s: C.State, t: nat, th: C.Thread, objs: seq<C.Obj>, lock: Option<nat>)
    requires C.Shaped(s) && t < |s.threads| && |s.objs| <= |objs|
    requires match th
             case Got(_, o) => o < |objs|
             case Added(_, o) => o < |objs|
             case Adding(_, o, c) => o < |objs| && c < |objs|
             case Read(_, o, c, _) => o < |objs| && c < |objs|
             case Moved(_, o, c, _) => o < |objs| && c < |objs|
             case _ => true
    ensures C.Shaped(At(s, t, th, objs, lock))
  {
  }

  lemma AtAgain(s: C.State, t: nat, th: C.Thread, objs: seq<C.Obj>, lock: Option<nat>, th': C.Thread)
    requires t < |s.threads|
    ensures C.Move(At(s, t, th, objs, lock), t, th') == At(s, t, th', objs, lock)
  {
  }

  /** A lookup of a node that is not cached: the root makes an object, or hands
      out one of the node's that there is. */
  lemma SoloInsert(s: C.State, t: nat, n: nat, made: Option<nat>) returns (run: seq<C.State>)
    requires C.Shaped(s) && s.lock == None && t < |s.threads| && s.threads[t].Idle? && n !in s.cache
    requires C.CacheInv(s.objs, s.cache)
    requires made.Some? ==> made.value < |s.objs| && s.objs[made.value].node == n
    ensures Steps(run) && run[0] == s
    ensures var s', held := run[|run| - 1], if made.Some? then s.objs[made.value].count else 0;
            && C.Shaped(s') && CountsOf(s') == Looked(CountsOf(s), n, held)
            && s'.lock == None && s'.threads == s.threads[t := C.Finished(n)]
  {
    hide C.Counted, C.StepOf;
    var o, objs := ObjectOf(s, made), ObjectsWith(s, n, made);
    var objs' := C.Counted(objs, o, 1);
    ObtainSteps(s, t, n, made);
    InsertSteps(s, t, n, o, objs);
    InsertView(s, t, n, made);
    run := [s, At(s, t, C.Missed(n), s.objs, None), At(s, t, C.Got(n, o), objs, None),
            At(s, t, C.Added(n, o), objs', None), Inserted(s, t, n, o, objs')];
  }

  /** The object the root comes back with, and all objects then. */
  function ObjectOf(s: C.State, made: Option<nat>): nat {
    if made.Some? then made.value else |s.objs|
  }

  function ObjectsWith(s: C.State, n: nat, made: Option<nat>): seq<C.Obj> {
    if made.Some? then s.objs else s.objs + [C.Obj(n, 0)]
  }

  function Inserted(s: C.State, t: nat, n: nat, o: nat, objs: seq<C.Obj>): C.State
    requires t < |s.threads|
  {
    At(s, t, C.Finished(n), objs, None).(cache := s.cache[n := o])
  }

  lemma ObtainSteps(s: C.State, t: nat, n: nat, made: Option<nat>)
    requires C.Shaped(s) && s.lock == None && t < |s.threads| && s.threads[t].Idle? && n !in s.cache
    requires made.Some? ==> made.value < |s.objs| && s.objs[made.value].node == n
    ensures var s1 := At(s, t, C.Missed(n), s.objs, None);
            && C.StepOf(s, s1)
            && C.StepOf(s1, At(s, t, C.Got(n, ObjectOf(s, made)), ObjectsWith(s, n, made), None))
  {
    var s1 := At(s, t, C.Missed(n), s.objs, None);
    AtShaped(s, t, C.Missed(n), s.objs, None);
    AtAgain(s, t, C.Missed(n), s.objs, None, C.Got(n, ObjectOf(s, made)));
    assert C.Next(s, t, C.Lookup(n)) == Some(s1);
    assert C.Next(s1, t, C.Obtain(made))
        == Some(At(s, t, C.Got(n, ObjectOf(s, made)), ObjectsWith(s, n, made), None));
  }

  lemma InsertSteps(s: C.State, t: nat, n: nat, o: nat, objs: seq<C.Obj>)
    requires C.Shaped(s) && t < |s.threads| && n !in s.cache && |s.objs| <= |objs| && o < |objs|
    ensures var objs' := C.Counted(objs, o, 1);
            var s2, s3 := At(s, t, C.Got(n, o), objs, None), At(s, t, C.Added(n, o), objs', None);
            C.StepOf(s2, s3) && C.StepOf(s3, Inserted(s, t, n, o, objs'))
  {
    hide C.Add64;
    var objs' := C.Counted(objs, o, 1);
    var s2, s3 := At(s, t, C.Got(n, o), objs, None), At(s, t, C.Added(n, o), objs', None);
    AtShaped(s, t, C.Got(n, o), objs, None);
    AtShaped(s, t, C.Added(n, o), objs', None);
    AtAgain(s, t, C.Got(n, o), objs, None, C.Added(n, o));
    AtAgain(s, t, C.Added(n, o), objs', None, C.Finished(n));
    assert C.Next(s2, t, C.Go) == Some(s3);
    assert C.Next(s3, t, C.Go) == Some(Inserted(s, t, n, o, objs'));
  }

  lemma InsertView(s: C.State, t: nat, n: nat, made: Option<nat>)
    requires C.Shaped(s) && t < |s.threads| && n !in s.cache && C.CacheInv(s.objs, s.cache)
    requires made.Some? ==> made.value < |s.objs| && s.objs[made.value].node == n
    ensures var o, objs := ObjectOf(s, made), ObjectsWith(s, n, made);
            o < |objs|
            && var s', held := Inserted(s, t, n, o, C.Counted(objs, o, 1)),
                               if made.Some? then s.objs[made.value].count else 0;
            C.Shaped(s') && CountsOf(s') == Looked(CountsOf(s), n, held)
  {
    hide C.Add64;
    var o, objs := ObjectOf(s, made), ObjectsWith(s, n, made);
    AtShaped(s, t, C.Finished(n), C.Counted(objs, o, 1), None);
  }

  /** A lookup of a cached node: the object found is the cached one, and the
      transfer moves its references to itself. */
  lemma SoloTransfer(s: C.State, t: nat, n: nat) returns (run: seq<C.State>)
    requires C.Shaped(s) && s.lock == None && t < |s.threads| && s.threads[t].Idle? && n in s.cache
    requires C.CacheInv(s.objs, s.cache)
    ensures Steps(run) && run[0] == s
    ensures var s' := run[|run| - 1];
            && C.Shaped(s') && CountsOf(s') == Looked(CountsOf(s), n, 0)
            && s'.lock == None && s'.threads == s.threads[t := C.Finished(n)] && s'.cache == s.cache
  {
    hide C.Add64, C.Next;
    var c := s.cache[n];
    var objs := C.Counted(s.objs, c, 1);
    var v := objs[c].count;
    var s1 := At(s, t, C.Got(n, c), s.objs, None);
    var s2 := At(s, t, C.Added(n, c), objs, None);
    var s3 := At(s, t, C.Adding(n, c, c), objs, Some(t));
    var last := At(s, t, C.Finished(n), objs, None);
    EnterSteps(s, t, n);
    AtShaped(s, t, C.Finished(n), objs, None);
    if v == 0 {
      NothingToMove(s, t, n, c, objs);
      run := [s, s1, s2, s3, last];
    } else {
      var s4 := At(s, t, C.Read(n, c, c, v), objs, Some(t));
      var s5 := At(s, t, C.Moved(n, c, c, v), C.Counted(objs, c, v), Some(t));
      CounterBound(s.objs[c].count, 1);
      MoveSteps(s, t, n, c, objs);
      run := [s, s1, s2, s3, s4, s5, last];
    }
  }

  lemma EnterSteps(s: C.State, t: nat, n: nat)
    requires C.Shaped(s) && s.lock == None && t < |s.threads| && s.threads[t].Idle? && n in s.cache
    ensures var c := s.cache[n];
            var objs := C.Counted(s.objs, c, 1);
            && C.StepOf(s, At(s, t, C.Got(n, c), s.objs, None))
            && C.StepOf(At(s, t, C.Got(n, c), s.objs, None), At(s, t, C.Added(n, c), objs, None))
            && C.StepOf(At(s, t, C.Added(n, c), objs, None), At(s, t, C.Adding(n, c, c), objs, Some(t)))
  {
    hide C.Add64;
    var c := s.cache[n];
    var objs := C.Counted(s.objs, c, 1);
    var s1 := At(s, t, C.Got(n, c), s.objs, None);
    var s2 := At(s, t, C.Added(n, c), objs, None);
    AtShaped(s, t, C.Got(n, c), s.objs, None);
    AtShaped(s, t, C.Added(n, c), objs, None);
    AtAgain(s, t, C.Got(n, c), s.objs, None, C.Added(n, c));
    AtAgain(s, t, C.Added(n, c), objs, None, C.Adding(n, c, c));
    assert C.Next(s, t, C.Lookup(n)) == Some(s1);
    assert C.Next(s1, t, C.Go) == Some(s2);
    assert C.Next(s2, t, C.Go) == Some(At(s, t, C.Adding(n, c, c), objs, Some(t)));
  }

  lemma NothingToMove(s: C.State, t: nat, n: nat, c: nat, objs: seq<C.Obj>)
    requires C.Shaped(s) && t < |s.threads| && |objs| == |s.objs| && c < |objs| && objs[c].count == 0
    ensures C.StepOf(At(s, t, C.Adding(n, c, c), objs, Some(t)), At(s, t, C.Finished(n), objs, None))
  {
    var s3 := At(s, t, C.Adding(n, c, c), objs, Some(t));
    AtShaped(s, t, C.Adding(n, c, c), objs, Some(t));
    AtAgain(s, t, C.Adding(n, c, c), objs, Some(t), C.Finished(n));
    assert C.Next(s3, t, C.Go) == Some(At(s, t, C.Finished(n), objs, None));
  }

  lemma MoveSteps(s: C.State, t: nat, n: nat, c: nat, objs: seq<C.Obj>)
    requires C.Shaped(s) && t < |s.threads| && |objs| == |s.objs| && c < |objs| && 0 < objs[c].count < C.TWO64
    ensures var v := objs[c].count;
            var s3 := At(s, t, C.Adding(n, c, c), objs, Some(t));
            var s4 := At(s, t, C.Read(n, c, c, v), objs, Some(t));
            var s5 := At(s, t, C.Moved(n, c, c, v), C.Counted(objs, c, v), Some(t));
            && C.StepOf(s3, s4) && C.StepOf(s4, s5)
            && C.StepOf(s5, At(s, t, C.Finished(n), objs, None))
  {
    hide C.Add64;
    var v := objs[c].count;
    var more := C.Counted(objs, c, v);
    AtShaped(s, t, C.Adding(n, c, c), objs, Some(t));
    AtShaped(s, t, C.Read(n, c, c, v), objs, Some(t));
    AtShaped(s, t, C.Moved(n, c, c, v), more, Some(t));
    AtAgain(s, t, C.Adding(n, c, c), objs, Some(t), C.Read(n, c, c, v));
    AtAgain(s, t, C.Read(n, c, c, v), objs, Some(t), C.Moved(n, c, c, v));
    AtAgain(s, t, C.Moved(n, c, c, v), more, Some(t), C.Finished(n));
    TakenBack(objs, c);
    var s3 := At(s, t, C.Adding(n, c, c), objs, Some(t));
    var s4 := At(s, t, C.Read(n, c, c, v), objs, Some(t));
    var s5 := At(s, t, C.Moved(n, c, c, v), more, Some(t));
    assert C.Next(s3, t, C.Go) == Some(s4);
    assert C.Next(s4, t, C.Go) == Some(s5);
    assert C.Next(s5, t, C.Go) == Some(At(s, t, C.Finished(n), objs, None));
  }

  lemma TakenBack(objs: seq<C.Obj>, c: nat)
    requires c < |objs| && objs[c].count < C.TWO64
    ensures C.Counted(C.Counted(objs, c, objs[c].count), c, 0 - objs[c].count) == objs
  {
    hide C.Add64;
    Counters(objs[c].count);
  }

  /** A lookup that nobody interrupts ends with the counts of Looked. */
  lemma SoloLookup(s: C.State, t: nat, n: nat, made: Option<nat>) returns (run: seq<C.State>)
    requires C.Shaped(s) && C.CacheInv(s.objs, s.cache)
    requires s.lock == None && t < |s.threads| && s.threads[t].Idle?
    requires made.Some? ==> made.value < |s.objs| && s.objs[made.value].node == n
    ensures Steps(run) && run[0] == s
    ensures var s', held := run[|run| - 1], if made.Some? then s.objs[made.value].count else 0;
            && C.Shaped(s') && CountsOf(s') == Looked(CountsOf(s), n, held)
            && s'.lock == None && s'.threads == s.threads[t := C.Finished(n)]
  {
    hide Steps, C.Shaped, C.CacheInv;
    if n in s.cache {
      run := SoloTransfer(s, t, n);
    } else {
      run := SoloInsert(s, t, n, made);
    }
  }

  /** And a forget of completed lookups, with those of Dropped. */
  lemma SoloForget(s: C.State, t: nat, n: nat, k: nat) returns (run: seq<C.State>)
    requires C.Shaped(s) && C.CacheInv(s.objs, s.cache)
    requires s.lock == None && t < |s.threads| && s.threads[t].Idle? && k <= C.Sum(C.Claims(n), s.threads)
    ensures Steps(run) && run[0] == s
    ensures var s' := run[|run| - 1];
            && C.Shaped(s') && CountsOf(s') == Dropped(CountsOf(s), Forget(n, k))
            && s'.lock == None && s'.threads == s.threads[t := C.Forgot(n, k)]
  {
    hide C.Add64, C.Sum;
    var s1 := At(s, t, C.Forgetting(n, k), s.objs, None);
    AtShaped(s, t, C.Forgetting(n, k), s.objs, None);
    assert C.Next(s, t, C.Forget(n, k)) == Some(s1);
    if n !in s.cache {
      var last := At(s, t, C.Forgot(n, k), s.objs, None);
      AtAgain(s, t, C.Forgetting(n, k), s.objs, None, C.Forgot(n, k));
      assert C.Next(s1, t, C.Go) == Some(last);
      run := [s, s1, last];
    } else {
      run := SoloDrop(s, s1, t, n, k);
    }
  }

  lemma SoloDrop(s: C.State, s1: C.State, t: nat, n: nat, k: nat) returns (run: seq<C.State>)
    requires C.Shaped(s) && C.CacheInv(s.objs, s.cache) && s.lock == None && t < |s.threads| && n in s.cache
    requires s1 == At(s, t, C.Forgetting(n, k), s.objs, None) && C.StepOf(s, s1)
    ensures Steps(run) && run[0] == s
    ensures var s' := run[|run| - 1];
            && C.Shaped(s') && CountsOf(s') == Dropped(CountsOf(s), Forget(n, k))
            && s'.lock == None && s'.threads == s.threads[t := C.Forgot(n, k)]
  {
    hide C.Add64;
    var c := s.cache[n];
    var objs := C.Counted(s.objs, c, 0 - k);
    var v := objs[c].count;
    var s2 := At(s, t, C.Dropped(n, k, c, v), objs, Some(t));
    var cache := if v == 0 || v > C.MAX_COUNT then s.cache - {n} else s.cache;
    var last := At(s, t, C.Forgot(n, k), objs, None).(cache := cache);
    AtShaped(s, t, C.Forgetting(n, k), s.objs, None);
    AtShaped(s, t, C.Dropped(n, k, c, v), objs, Some(t));
    AtShaped(s, t, C.Forgot(n, k), objs, None);
    AtAgain(s, t, C.Forgetting(n, k), s.objs, None, C.Dropped(n, k, c, v));
    AtAgain(s, t, C.Dropped(n, k, c, v), objs, Some(t), C.Forgot(n, k));
    assert C.Next(s1, t, C.Go) == Some(s2);
    assert C.Next(s2, t, C.Go) == Some(last);
    run := [s, s1, s2, last];
  }
}

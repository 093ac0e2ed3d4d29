/** The objects behind a lookup: databases with their inode counters and tables
    (apkgdb/lookup.go, apkgdb/sub.go, getPkgTx of apkgdb/package.go). Called one
    at a time, the methods do what uninterrupted runs of InodeRanges do. */
module LookupCode {
  import opened Bytes
  import opened Codec
  import opened Buckets
  import opened Records
  import opened Pins
  import opened Database
  import L = Lookup
  import R = Resolve
  import I = InodeRanges
  import U = InodeRuns

  /** What a lookup in one database works on: the root's counter and tree, the
      database's own numbers, and the packages spawned so far. */
  datatype Mem = Mem(nextI: nat, pkgI: map<Bytes, nat>, cache: map<Bytes, I.Package>, tree: map<nat, I.Package>)

  /** After pkgIno. */
  function WithNumber(m: Mem, v: Bytes): Mem
    requires IsP2pValue(v)
  {
    if P2pHash(v) in m.pkgI then m
    else m.(nextI := I.Alloc(m.nextI, (P2pInodes(v) + 1) % I.TWO64), pkgI := m.pkgI[P2pHash(v) := m.nextI])
  }

  /** The package getPkgTx builds from the `pkg` table. */
  function PackageAt(s: Store, hash: Bytes, ino: nat): Option<I.Package> {
    match Get(s.pkg, hash)
    case None => None
    case Some(pv) => if |pv| < 25 then None else Some(I.Package.Package(hash, ino, FromBE(pv[17..25])))
  }

  /** After getPkgTx; None when the table has no such package. */
  function WithPackage(m: Mem, s: Store, hash: Bytes, ino: nat): Option<Mem> {
    if hash in m.cache then Some(m)
    else
      match PackageAt(s, hash, ino)
      case None => None
      case Some(p) => Some(m.(cache := m.cache[hash := p], tree := m.tree[ino := p]))
  }

  datatype Ino = Number(n: nat) | NotExist | Invalid

  function Numbered(m: Mem, s: Store, v: Bytes, offset: nat): (Mem, Ino)
    requires IsP2pValue(v)
  {
    var m' := WithNumber(m, v);
    var ino := m'.pkgI[P2pHash(v)];
    match WithPackage(m', s, P2pHash(v), ino)
    case None => (m', Invalid)
    case Some(m'') => (m'', Number((ino + offset) % I.TWO64))
  }

  /** After internalLookup: the package's number, or the next one for an exact match. */
  function Outcome(m: Mem, s: Store, found: L.Found): (Mem, Ino)
    requires found.Exact? || found.Latest? ==> IsP2pValue(found.value)
  {
    match found
    case NotFound => (m, NotExist)
    case Exact(v) => Numbered(m, s, v, 1)
    case Latest(v) => Numbered(m, s, v, 0)
  }

  lemma FoundShaped(p2p: Bucket, pins: Bucket, channel: Bytes, name: Bytes)
    requires Indexed(p2p)
    ensures var f := L.Resolve(p2p, pins, channel, name);
            f.Exact? || f.Latest? ==> IsP2pValue(f.value)
  {
    hide L.Resolve;
    L.ResolveSound(p2p, pins, channel, name);
  }

  /** What a number leads to; in a package, number 0 is its link and the others
      those of its image. */
  datatype Node = RootNode | CacheNode | Within(package: I.Package, number: nat) | NoNode

  function NodeAt(tree: map<nat, I.Package>, n: nat): Node {
    if n == 1 then RootNode
    else if n == 2 then CacheNode
    else
      match I.GetInode(tree, n)
      case None => NoNode
      case Some(p) => Within(p, n - I.Floor(tree, n).value)
  }

  /** pkgCache. */
  class Packages {
    var spawned: map<Bytes, I.Package>

    constructor ()
      ensures spawned == map[]
    {
      spawned := map[];
    }
  }

  class DB {
    const at: R.ArchOS
    const cache: Packages
    var store: Store
    var channel: Bytes
    var parent: DB?
    var sub: map<R.ArchOS, DB>
    var nextI: nat
    var pkgI: map<Bytes, nat>
    var tree: map<nat, I.Package>

    constructor (at: R.ArchOS, cache: Packages, store: Store)
      ensures this.at == at && this.cache == cache && this.store == store && channel == [] && parent == null
      ensures sub == map[] && nextI == I.FIRST_INODE && pkgI == map[] && tree == map[]
    {
      this.at, this.cache, this.store, channel, parent := at, cache, store, [], null;
      sub, nextI, pkgI, tree := map[], I.FIRST_INODE, map[], map[];
    }

    /** A root, or a sub-database of one. */
    ghost predicate Linked()
      reads this, parent
    {
      parent != null ==> parent != this && parent.parent == null
    }

    function Root(): DB
      reads this
    {
      if parent == null then this else parent
    }

    ghost function Memory(): Mem
      reads this, parent, cache
    {
      Mem(Root().nextI, pkgI, cache.spawned, Root().tree)
    }

    method AllocInodes(c: nat) returns (r: nat)
      requires Linked()
      modifies Root()`nextI
      ensures r == old(Root().nextI) && Root().nextI == I.Alloc(r, c)
      decreases if parent == null then 0 else 1
    {
      if parent != null {
        r := parent.AllocInodes(c);
        return;
      }
      r := nextI;
      nextI := (nextI + c) % I.TWO64;
    }

    method PkgIno(v: Bytes) returns (n: nat)
      requires Linked() && IsP2pValue(v)
      modifies this`pkgI, Root()`nextI
      ensures Memory() == WithNumber(old(Memory()), v)
      ensures P2pHash(v) in pkgI && n == pkgI[P2pHash(v)]
    {
      var hash := v[..32];
      if hash in pkgI {
        return pkgI[hash];
      }
      var count := FromBE(v[32..32 + 8]);
      n := AllocInodes((count + 1) % I.TWO64);
      pkgI := pkgI[hash := n];
    }

    method GetPkgTx(startIno: nat, hash: Bytes) returns (ok: bool)
      requires Linked()
      modifies Root()`tree, cache
      ensures var m := WithPackage(old(Memory()), store, hash, startIno);
              ok == m.Some? && Memory() == if ok then m.value else old(Memory())
    {
      if hash in cache.spawned {
        return true;
      }
      var v := Get(store.pkg, hash);
      if v.None? || |v.value| < 25 {
        return false;
      }
      var p := I.Package.Package(hash, startIno, FromBE(v.value[17..25]));
      cache.spawned := cache.spawned[hash := p];
      if parent != null {
        parent.tree := parent.tree[startIno := p];
      } else {
        tree := tree[startIno := p];
      }
      ok := true;
    }

    method InternalLookup(name: Bytes) returns (r: Ino)
      requires Linked() && Indexed(store.p2p)
      modifies this`pkgI, Root()`nextI, Root()`tree, cache
      ensures var found := L.Resolve(store.p2p, store.pins, channel, name);
              && (found.Exact? || found.Latest? ==> IsP2pValue(found.value))
              && (Memory(), r) == Outcome(old(Memory()), store, found)
    {
      hide L.Resolve;
      FoundShaped(store.p2p, store.pins, channel, name);
      var pins := new PinTable(store.pins, channel);
      var found := L.InternalLookup(store.p2p, pins, name);
      match found
      case NotFound => r := NotExist;
      case Exact(v) =>
        var ino := PkgIno(v);
        var ok := GetPkgTx(ino, v[..32]);
        r := if ok then Number((ino + 1) % I.TWO64) else Invalid;
      case Latest(v) =>
        var ino := PkgIno(v);
        var ok := GetPkgTx(ino, v[..32]);
        r := if ok then Number(ino % I.TWO64) else Invalid;
    }

    /** internalLookup of a name and, if that does not exist, of another one. */
    method SearchTwice(name: Bytes, base: Bytes) returns (r: Ino)
      requires Linked() && Indexed(store.p2p)
      modifies this`pkgI, Root()`nextI, Root()`tree, cache
      ensures (Memory(), r) == Searched(old(Memory()), R.Db(store, channel), name, base)
    {
      hide L.Resolve, WithNumber, WithPackage;
      r := InternalLookup(name);
      if r == NotExist {
        r := InternalLookup(base);
      }
    }

    /** GetInode: the root, the linker cache, or the package whose range holds the number. */
    method GetInode(n: nat) returns (r: Node)
      ensures r == NodeAt(tree, n)
    {
      if n == 1 {
        return RootNode;
      }
      if n == 2 {
        return CacheNode;
      }
      var k := I.Floor(tree, n);
      if k.None? {
        return NoNode;
      }
      var found := tree[k.value];
      if n < found.start + found.inodes + 1 {
        return Within(found, n - k.value);
      }
      r := NoNode;
    }

    /** A root database and its sub-databases, each filed under its own OS and architecture. */
    ghost predicate IsRoot()
      reads this, sub.Values
    {
      && parent == null && Indexed(store.p2p)
      && forall a | a in sub :: sub[a] != this && sub[a].at == a && sub[a].parent == this
                                && sub[a].cache == cache && Indexed(sub[a].store.p2p)
    }

    /** A database just opened, and not part of any family. */
    ghost predicate IsOpened(a: R.ArchOS, root: DB)
      reads this, root
    {
      at == a && parent == null && this != root && this !in root.sub.Values
      && cache == root.cache && Indexed(store.p2p)
    }

    /** SubGet; `made` is what NewOsArch comes back with, null for an error. */
    method SubGet(a: R.ArchOS, made: DB?) returns (db: DB?)
      requires IsRoot() && (made != null ==> made.IsOpened(a, this))
      modifies this`sub, made
      ensures IsRoot()
      ensures db == if a == at then this else if a in old(sub) then old(sub)[a] else made
      ensures sub == if db == null || a == at then old(sub) else old(sub)[a := db]
      ensures db != null && db != this ==> sub[a] == db
      ensures made != null ==> made.store == old(made.store) && made.pkgI == old(made.pkgI)
      ensures made != null ==> made.channel == if db == made then channel else old(made.channel)
    {
      if a == at {
        return this;
      }
      if a in sub {
        assert sub == sub[a := sub[a]];
        return sub[a];
      }
      if made == null {
        return null;
      }
      db := made;
      db.parent := this;
      db.channel := channel;
      sub := sub[a := db];
    }

    /** The memory a lookup in `db`, one of this root's family, works on. */
    ghost function MemoryOf(db: DB): Mem
      reads this, db, cache
    {
      Mem(nextI, db.pkgI, cache.spawned, tree)
    }

    /** Lookup on a root: it picks a database by the name's OS and architecture,
        and the outcome is that of looking the name up there, or what is left of
        it without OS and architecture. */
    method Lookup(name: Bytes, made: DB?) returns (r: Ino, ghost db: DB?)
      requires IsRoot()
      requires made != null ==> R.SplitName(name).For? && made.IsOpened(R.SplitName(name).at, this)
      modifies this, sub.Values, made, cache
      ensures IsRoot()
      ensures DOT !in name ==> r == NotExist
      ensures name == R.LD_SO_CACHE ==> r == Number(2)
      ensures DOT in name && name != R.LD_SO_CACHE ==>
                match R.SplitName(name)
                case Plain =>
                  && db == this
                  && (MemoryOf(this), r) == Searched(old(MemoryOf(this)), R.Db(store, channel), name, name)
                case For(base, a) =>
                  && db == (if a == at then this else if a in old(sub) then old(sub)[a] else made)
                  && (if db == null then r == Invalid && MemoryOf(this) == old(MemoryOf(this))
                      else Indexed(db.store.p2p)
                           && (MemoryOf(db), r) == Searched(old(MemoryOf(db)), R.Db(db.store, db.channel), name, base))
    {
      hide R.SplitName, Outcome, L.Resolve;
      db := null;
      var v := R.LastDot(name);
      if v == -1 {
        return NotExist, null;
      }
      if name == R.LD_SO_CACHE {
        return Number(2), null;
      }
      var split := R.SplitName(name);
      if split.Plain? {
        db := this;
        r := InternalLookup(name);
        return;
      }
      var target := SubGet(split.at, made);
      db := target;
      if target == null {
        return Invalid, db;
      }
      r := target.SearchTwice(name, split.base);
    }
  }

  /** The outcome of looking up a name, and then another one if the first does not exist. */
  function Searched(m: Mem, db: R.Db, name: Bytes, base: Bytes): (Mem, Ino)
    requires Indexed(db.store.p2p)
  {
    FoundShaped(db.store.p2p, db.store.pins, db.channel, name);
    FoundShaped(db.store.p2p, db.store.pins, db.channel, base);
    Outcome(m, db.store, R.Twice(db, name, base))
  }

  /** The second name is looked up exactly when the index does not have the first. */
  lemma SearchedTwice(m: Mem, db: R.Db, name: Bytes, base: Bytes)
    requires Indexed(db.store.p2p)
    ensures var first := L.Resolve(db.store.p2p, db.store.pins, db.channel, name);
            var second := L.Resolve(db.store.p2p, db.store.pins, db.channel, base);
            var found := if first == L.NotFound then second else first;
            && (found.Exact? || found.Latest? ==> IsP2pValue(found.value))
            && Searched(m, db, name, base) == Outcome(m, db.store, found)
  {
    hide L.Resolve, Outcome;
    FoundShaped(db.store.p2p, db.store.pins, db.channel, name);
    FoundShaped(db.store.p2p, db.store.pins, db.channel, base);
  }

  /** So a lookup on the objects finds what RootLookup finds in the values they hold. */
  lemma SearchedRoot(m: Mem, f: R.Family, name: Bytes)
    requires R.GoodFamily(f) && R.RootLookup(f, name).In?
    ensures var r := R.RootLookup(f, name);
            && f.At(r.at).Some? && Indexed(f.At(r.at).value.store.p2p)
            && (r.found.Exact? || r.found.Latest? ==> IsP2pValue(r.found.value))
            && var db, split := f.At(r.at).value, R.SplitName(name);
            && Searched(m, db, name, if split.For? then split.base else name) == Outcome(m, db.store, r.found)
            && r.at == if split.For? then split.at else f.self
  {
    hide L.Resolve, Outcome, R.SplitName, Good;
    var db := f.At(R.RootLookup(f, name).at).value;
    GoodIndexed(db.store);
    match R.SplitName(name)
    case Plain =>
      R.TriedOnce(f, name);
      SearchedTwice(m, db, name, name);
    case For(base, a) =>
      R.TriedTwice(f, name, base, a);
      SearchedTwice(m, db, name, base);
  }

  /** Once a lookup has answered with the number of a package's link, the exact
      lookup of the package answers with the next number, as long as the number
      and the package are remembered (they are never forgotten: RunInv of
      InodeRanges). With Resolve.LinkTarget: the link at n leads to n + 1. */
  lemma LinkNumbers(m: Mem, s: Store, v: Bytes, m': Mem, s': Store)
    requires IsP2pValue(v) && Outcome(m, s, L.Latest(v)).1.Number?
    requires var after := Outcome(m, s, L.Latest(v)).0;
             && (forall h | h in after.pkgI :: h in m'.pkgI && m'.pkgI[h] == after.pkgI[h])
             && (forall h | h in after.cache :: h in m'.cache)
    requires forall h | h in m.pkgI :: m.pkgI[h] < I.TWO64 - 1
    requires m.nextI < I.TWO64 - 1
    ensures Outcome(m', s', L.Exact(v)) == (m', Number(Outcome(m, s, L.Latest(v)).1.n + 1))
  {
    hide Outcome, WithNumber;
    LatestKnown(m, s, v);
    NumberBound(m, v);
    ExactKnown(m', s', v);
  }

  /** The link and what it points to: a lookup on the root found a package by
      prefix and answered with the number n of its link. While the package stays
      indexed in its database, the root finds it under the link's text exactly
      when it asks that database for this text, and then answers with n + 1. */
  lemma LinkLeadsOn(f: R.Family, name: Bytes, m: Mem, f': R.Family, m': Mem)
    requires R.GoodFamily(f) && R.GoodFamily(f')
    requires R.RootLookup(f, name).In? && R.RootLookup(f, name).found.Latest?
    requires var r := R.RootLookup(f, name);
             && f.At(r.at).Some? && f'.At(r.at).Some? && IsP2pValue(r.found.value)
             && (exists e :: e in f'.At(r.at).value.store.p2p && e.value == r.found.value)
             && var (after, answer) := Outcome(m, f.At(r.at).value.store, r.found);
             && answer.Number?
             && (forall h | h in after.pkgI :: h in m'.pkgI && m'.pkgI[h] == after.pkgI[h])
             && (forall h | h in after.cache :: h in m'.cache)
    requires forall h | h in m.pkgI :: m.pkgI[h] < I.TWO64 - 1
    requires m.nextI < I.TWO64 - 1
    ensures var r := R.RootLookup(f, name);
            var found := L.Exact(r.found.value);
            && (R.RootLookup(f', P2pName(r.found.value)) == R.In(r.at, found)
                <==> R.AsksFor(f', r.at, P2pName(r.found.value)))
            && Outcome(m', f'.At(r.at).value.store, found)
            == (m', Number(Outcome(m, f.At(r.at).value.store, r.found).1.n + 1))
  {
    hide R.RootLookup, R.GoodFamily, R.AsksFor, Outcome;
    var r := R.RootLookup(f, name);
    R.LinkTarget(f, name, f');
    LinkNumbers(m, f.At(r.at).value.store, r.found.value, m', f'.At(r.at).value.store);
  }

  lemma LatestKnown(m: Mem, s: Store, v: Bytes)
    requires IsP2pValue(v)
    ensures var (after, r), h := Outcome(m, s, L.Latest(v)), P2pHash(v);
            && h in WithNumber(m, v).pkgI && after.pkgI == WithNumber(m, v).pkgI
            && (r.Number? ==> h in after.cache && r.n == after.pkgI[h] % I.TWO64)
  {
    hide PackageAt, I.Alloc;
  }

  lemma NumberBound(m: Mem, v: Bytes)
    requires IsP2pValue(v) && m.nextI < I.TWO64 - 1
    requires forall h | h in m.pkgI :: m.pkgI[h] < I.TWO64 - 1
    ensures P2pHash(v) in WithNumber(m, v).pkgI && WithNumber(m, v).pkgI[P2pHash(v)] < I.TWO64 - 1
  {
  }

  lemma ExactKnown(m: Mem, s: Store, v: Bytes)
    requires IsP2pValue(v) && P2pHash(v) in m.pkgI && P2pHash(v) in m.cache
    ensures Outcome(m, s, L.Exact(v)) == (m, Number((m.pkgI[P2pHash(v)] + 1) % I.TWO64))
  {
  }

  // ----- One call at a time

  /** The machine's memory, as one of its databases sees it. */
  function MemOf(s: I.State, d: nat): Mem
    requires d < |s.pkgI|
  {
    Mem(s.nextI, s.pkgI[d], s.cache, s.tree)
  }

  /** The world in which the hash of `v` has the number of inodes recorded both in the index and for the package. */
  ghost predicate WorldOf(w: I.World, s: Store, v: Bytes) {
    && IsP2pValue(v) && w.count(P2pHash(v)) == P2pInodes(v)
    && (w.stored(P2pHash(v)) <==> PackageAt(s, P2pHash(v), 0).Some?)
    && (w.stored(P2pHash(v)) ==> PackageAt(s, P2pHash(v), 0).value.inodes == P2pInodes(v))
  }

  /** A thread that nobody interrupts goes from a free lock to the memory the
      methods above compute, and leaves everything else as it was. */
  lemma SoloRun(w: I.World, s: I.State, t: nat, d: nat, store: Store, v: Bytes) returns (run: seq<I.State>)
    requires WorldOf(w, store, v) && I.Shaped(w, s)
    requires t < |s.threads| && s.threads[t].Idle?
    requires d < w.dbs && s.lock[d] == None && w.lives(P2pHash(v), d)
    ensures U.Steps(w, run) && run[0] == s
    ensures var s', r := run[|run| - 1], Outcome(MemOf(s, d), store, L.Latest(v));
            && |s'.pkgI| == |s.pkgI| && MemOf(s', d) == r.0
            && s'.lock == s.lock
            && s'.threads
               == s.threads[t := if r.1.Number? then I.Done(d, P2pHash(v), r.0.pkgI[P2pHash(v)]) else I.Failed]
            && (forall e | 0 <= e < |s.pkgI| && e != d :: s'.pkgI[e] == s.pkgI[e])
  {
    run := U.LookupSteps(w, s, t, d, P2pHash(v));
    SoloMemory(w, s, t, d, store, v);
  }

  /** The memory after both. */
  lemma SoloMemory(w: I.World, s: I.State, t: nat, d: nat, store: Store, v: Bytes)
    requires WorldOf(w, store, v) && I.Shaped(w, s) && t < |s.threads| && d < w.dbs
    ensures var h := P2pHash(v);
            var s', r := U.LookedUp(w, s, t, d, h), Outcome(MemOf(s, d), store, L.Latest(v));
            && |s'.pkgI| == |s.pkgI| && MemOf(s', d) == r.0
            && s'.lock == s.lock
            && s'.threads == s.threads[t := if r.1.Number? then I.Done(d, h, r.0.pkgI[h]) else I.Failed]
            && (forall e | 0 <= e < |s.pkgI| && e != d :: s'.pkgI[e] == s.pkgI[e])
  {
    var h := P2pHash(v);
    var n := U.NumberedState(w, s, t, d, h);
    assert MemOf(n, d) == WithNumber(MemOf(s, d), v);
    var ino := if h in s.pkgI[d] then s.pkgI[d][h] else s.nextI;
    U.MoveTwice(s, t, I.Have(d, h, ino), I.Done(d, h, ino));
    U.MoveTwice(s, t, I.Have(d, h, ino), I.Failed);
    SamePackage(w, store, v, ino);
  }

  lemma SamePackage(w: I.World, store: Store, v: Bytes, ino: nat)
    requires WorldOf(w, store, v)
    ensures PackageAt(store, P2pHash(v), ino) ==
              if w.stored(P2pHash(v)) then Some(I.Package.Package(P2pHash(v), ino, w.count(P2pHash(v)))) else None
  {
  }

  // ----- From the index to the nodes

  /** An indexed package is spawned with the inode count of its index entry. */
  lemma SpawnsWhole(s: Store, e: Entry, ino: nat)
    requires Good(s) && e in s.p2p
    ensures IsP2pValue(e.value)
    ensures PackageAt(s, P2pHash(e.value), ino)
         == Some(I.Package.Package(P2pHash(e.value), ino, P2pInodes(e.value)))
  {
    hide Good, Get;
    R.LinkText(s, e);
  }

  /** A world that has the index's own counts. */
  ghost predicate CountsOf(w: I.World, s: Store) {
    forall e | e in s.p2p && IsP2pValue(e.value) ::
      w.stored(P2pHash(e.value)) && w.count(P2pHash(e.value)) == P2pInodes(e.value)
  }

  /** So SoloRun holds for every entry of such a database. */
  lemma WorldOfIndex(w: I.World, s: Store, e: Entry)
    requires Good(s) && CountsOf(w, s) && e in s.p2p
    ensures WorldOf(w, s, e.value)
  {
    hide Good, PackageAt;
    SpawnsWhole(s, e, 0);
  }

  /** Each database has such a world: no two entries have one hash. */
  lemma CountsExist(s: Store, dbs: nat, lives: (Bytes, nat) -> bool) returns (w: I.World)
    requires Good(s)
    ensures CountsOf(w, s) && w.dbs == dbs && w.lives == lives
  {
    hide Backed, Get;
    var count := h => match Get(s.pkg, h) case Some(pv) => (if |pv| < 25 then 0 else FromBE(pv[17..25])) case None => 0;
    w := I.World(dbs, count, h => Get(s.pkg, h).Some?, lives);
    forall e | e in s.p2p && IsP2pValue(e.value)
      ensures w.stored(P2pHash(e.value)) && w.count(P2pHash(e.value)) == P2pInodes(e.value)
    {
      R.LinkText(s, e);
    }
  }

  lemma NoOverflowAfter(w: I.World, s: I.State, t: nat, d: nat, h: Bytes)
    requires I.Inv(w, s) && t < |s.threads| && d < w.dbs
    requires s.nextI + w.count(h) + 1 < I.TWO64
    ensures I.NoOverflow(U.LookedUp(w, s, t, d, h))
  {
    hide I.Tiled, I.LockInv, I.Owned, I.StoredInv, I.CacheInv, I.ThreadInv;
    I.TiledTotal(w, s.log);
    var r := I.Range(d, h, s.nextI, w.count(h) + 1);
    assert (s.log + [r])[..|s.log|] == s.log;
  }

  /** No number below 1000 belongs to a package. */
  lemma LowNumbers(w: I.World, s: I.State, n: nat)
    requires I.Inv(w, s) && n < 1000
    ensures NodeAt(s.tree, n) == if n == 1 then RootNode else if n == 2 then CacheNode else NoNode
  {
    hide I.Inv;
    var p := I.GetInode(s.tree, n);
    if p.Some? {
      I.GetInodeExact(w, s, n, p.value);
      SpawnedRange(w, s, p.value);
    }
  }

  lemma SpawnedRange(w: I.World, s: I.State, p: I.Package)
    requires I.Inv(w, s) && I.Spawned(s, p)
    ensures p.start >= 1000
  {
    hide I.LockInv, I.Tiled, I.StoredInv, I.Owned, I.ThreadInv, I.Known;
    var d: nat :| I.Known(s.pkgI, d, p.hash, s.cache[p.hash].start);
    KnownRange(w, s, d, p.hash, p.start);
  }

  /** A run, continued by a lookup that nobody interrupts. */
  lemma RunOn(w: I.World, before: seq<I.State>, t: nat, d: nat, h: Bytes) returns (run: seq<I.State>)
    requires I.IsRun(w, before) && w.stored(h) && w.lives(h, d)
    requires var s := before[|before| - 1];
             && I.NoOverflow(s) && s.nextI + w.count(h) + 1 < I.TWO64
             && t < |s.threads| && s.threads[t].Idle? && d < w.dbs && d < |s.lock| && s.lock[d] == None
    ensures d < |before[|before| - 1].pkgI| && I.IsRun(w, run)
    ensures var s, s' := before[|before| - 1], run[|run| - 1];
            && s' == U.LookedUp(w, s, t, d, h) && I.NoOverflow(s') && t < |s'.threads|
            && s'.threads[t].Done? && s'.threads[t].hash == h && s'.threads[t].db == d
  {
    hide I.NoOverflow, U.LookedUp, I.StepOf, I.Init, I.LockInv, I.Tiled, I.StoredInv, I.CacheInv, I.Owned;
    var s := before[|before| - 1];
    I.RunInv(w, before, |before| - 1, |before| - 1);
    assert forall u | 0 <= u < |s.threads| :: I.ThreadInv(w, s.pkgI, s.cache, s.log, s.threads[u]);
    var more := U.LookupSteps(w, s, t, d, h);
    U.NotEmpty(w, more);
    U.StepsJoin(w, before, more);
    run := before + more[1..];
    U.StepsRun(w, run);
    NoOverflowAfter(w, s, t, d, h);
    EndsDone(w, s, t, d, h);
  }

  lemma EndsDone(w: I.World, s: I.State, t: nat, d: nat, h: Bytes)
    requires w.stored(h) && t < |s.threads| && d < |s.pkgI|
    ensures var s' := U.LookedUp(w, s, t, d, h);
            && |s'.threads| == |s.threads|
            && s'.threads[t] == I.Done(d, h, if h in s.pkgI[d] then s.pkgI[d][h] else s.nextI)
  {
  }

  /** The numbers of a package lie between 1000 and the counter. */
  lemma KnownRange(w: I.World, s: I.State, d: nat, h: Bytes, v: nat)
    requires I.Inv(w, s) && I.Known(s.pkgI, d, h, v)
    ensures I.FIRST_INODE <= v && v + w.count(h) < s.nextI
  {
    hide I.Inv, I.Known;
    var i := I.RangeOf(w, s, h, v);
    assert I.Covers(s.log[i], v) && I.Covers(s.log[i], v + w.count(h));
    I.RangesTile(w, s, v);
    I.RangesTile(w, s, v + w.count(h));
  }

  /** The number leads to the link of the package, the next ones to its inodes, and no further ones to it. */
  ghost predicate LeadsIn(tree: map<nat, I.Package>, hash: Bytes, n: nat, inodes: nat) {
    forall k: nat :: NodeAt(tree, n + k) == Within(I.Package.Package(hash, n, inodes), k) <==> k <= inodes
  }

  /** After any run, a lookup of an indexed package with one home answers with a
      number of that package: the exact lookup with its first inode, which is
      there exactly when it has any, and the lookup of a prefix with its link.
      All its other inodes follow. */
  lemma LookupLeadsIn(w: I.World, before: seq<I.State>, t: nat, d: nat, store: Store, e: Entry)
    requires I.IsRun(w, before) && Good(store) && CountsOf(w, store) && e in store.p2p && IsP2pValue(e.value)
    requires var s := before[|before| - 1];
             && I.NoOverflow(s) && s.nextI + P2pInodes(e.value) + 1 < I.TWO64
             && t < |s.threads| && s.threads[t].Idle? && d < w.dbs && d < |s.lock| && s.lock[d] == None
    requires w.lives(P2pHash(e.value), d) && I.HomeOf(w, P2pHash(e.value))
    ensures d < |before[|before| - 1].pkgI|
    ensures var m := MemOf(before[|before| - 1], d);
            var exact, latest := Outcome(m, store, L.Exact(e.value)), Outcome(m, store, L.Latest(e.value));
            && exact.0 == latest.0 && latest.1.Number? && exact.1 == Number(latest.1.n + 1)
            && LeadsIn(exact.0.tree, P2pHash(e.value), latest.1.n, P2pInodes(e.value))
  {
    hide I.IsRun, I.Inv, U.LookedUp, I.NoOverflow, I.HomeOf, Outcome, LeadsIn, Good, I.Shaped, CountsOf, WorldOf;
    RunNotEmpty(w, before);
    CountOf(w, store, e);
    var s, h := before[|before| - 1], P2pHash(e.value);
    var run := RunOn(w, before, t, d, h);
    RunNotEmpty(w, run);
    WorldOfIndex(w, store, e);
    InvShaped(w, before);
    SoloMemory(w, s, t, d, store, e.value);
    BothOutcomes(MemOf(s, d), store, e);
    DoneLeadsIn(w, run, t);
  }

  lemma RunNotEmpty(w: I.World, run: seq<I.State>)
    requires I.IsRun(w, run)
    ensures run != []
  {
  }

  lemma CountOf(w: I.World, s: Store, e: Entry)
    requires CountsOf(w, s) && e in s.p2p && IsP2pValue(e.value)
    ensures w.stored(P2pHash(e.value)) && w.count(P2pHash(e.value)) == P2pInodes(e.value)
  {
  }

  /** The nodes at the numbers of a finished lookup. */
  lemma DoneLeadsIn(w: I.World, run: seq<I.State>, t: nat)
    requires I.IsRun(w, run) && I.NoOverflow(run[|run| - 1])
    requires t < |run[|run| - 1].threads| && run[|run| - 1].threads[t].Done?
    requires I.HomeOf(w, run[|run| - 1].threads[t].hash)
    ensures var s := run[|run| - 1];
            var h, ino := s.threads[t].hash, s.threads[t].ino;
            && I.FIRST_INODE <= ino && ino + w.count(h) + 1 < I.TWO64
            && LeadsIn(s.tree, h, ino, w.count(h))
  {
    hide I.IsRun, I.Inv, I.NoOverflow, I.HomeOf, NodeAt;
    RunNotEmpty(w, run);
    var s := run[|run| - 1];
    I.RunInv(w, run, |run| - 1, |run| - 1);
    var h, ino := s.threads[t].hash, s.threads[t].ino;
    DoneRange(w, s, t);
    forall k: nat
      ensures NodeAt(s.tree, ino + k) == Within(I.Package.Package(h, ino, w.count(h)), k) <==> k <= w.count(h)
    {
      I.NumbersStayResolved(w, run, |run| - 1, |run| - 1, t, k);
      NodeOf(w, s, I.Package.Package(h, ino, w.count(h)), k);
    }
  }

  lemma InvShaped(w: I.World, run: seq<I.State>)
    requires I.IsRun(w, run) && I.NoOverflow(run[|run| - 1])
    ensures I.Shaped(w, run[|run| - 1])
  {
    hide I.IsRun, I.NoOverflow, I.LockInv, I.Tiled, I.StoredInv, I.CacheInv, I.Owned;
    RunNotEmpty(w, run);
    I.RunInv(w, run, |run| - 1, |run| - 1);
    var s := run[|run| - 1];
    assert forall u | 0 <= u < |s.threads| :: I.ThreadInv(w, s.pkgI, s.cache, s.log, s.threads[u]);
  }

  lemma DoneRange(w: I.World, s: I.State, t: nat)
    requires I.Inv(w, s) && I.NoOverflow(s) && t < |s.threads| && s.threads[t].Done?
    ensures I.FIRST_INODE <= s.threads[t].ino && s.threads[t].ino + w.count(s.threads[t].hash) < s.nextI < I.TWO64
  {
    hide I.LockInv, I.Tiled, I.StoredInv, I.CacheInv, I.Owned, I.Known;
    var th := s.threads[t];
    assert I.ThreadInv(w, s.pkgI, s.cache, s.log, th);
    KnownRange(w, s, th.db, th.hash, th.ino);
    I.TiledTotal(w, s.log);
  }

  lemma BothOutcomes(m: Mem, s: Store, e: Entry)
    requires Good(s) && e in s.p2p && IsP2pValue(e.value)
    ensures var (after, exact), (after', latest) := Outcome(m, s, L.Exact(e.value)), Outcome(m, s, L.Latest(e.value));
            && after == after' && P2pHash(e.value) in after.pkgI
            && exact == Number((after.pkgI[P2pHash(e.value)] + 1) % I.TWO64)
            && latest == Number(after.pkgI[P2pHash(e.value)] % I.TWO64)
  {
    hide Good, PackageAt, I.Alloc;
    SpawnsWhole(s, e, WithNumber(m, e.value).pkgI[P2pHash(e.value)]);
  }

  lemma NodeOf(w: I.World, s: I.State, p: I.Package, k: nat)
    requires I.Inv(w, s) && p.start >= I.FIRST_INODE
    ensures NodeAt(s.tree, p.start + k) == Within(p, k) <==> I.GetInode(s.tree, p.start + k) == Some(p)
  {
    hide I.LockInv, I.Tiled, I.StoredInv, I.Owned, I.ThreadInv, I.Known, I.Floor;
  }
}

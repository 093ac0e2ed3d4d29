/** Names with an operating system and architecture at their end: Lookup of
    apkgdb/lookup.go over a root database and its sub-databases, and the target
    of a package's symbolic link. */
module Resolve {
  import opened Bytes
  import opened Collate
  import opened Buckets
  import opened Records
  import opened Database
  import L = Lookup

  datatype ArchOS = ArchOS(os: nat, arch: nat)

  const BAD := 0xffff_ffff
  const LD_SO_CACHE: Bytes := [108, 100, 46, 115, 111, 46, 99, 97, 99, 104, 101]

  // "any", "linux", "darwin", "windows"
  const OSES: seq<Bytes> := [[97, 110, 121], [108, 105, 110, 117, 120], [100, 97, 114, 119, 105, 110],
                             [119, 105, 110, 100, 111, 119, 115]]
  // "any", "386", "amd64", "arm", "arm64", "riscv64"
  const ARCHES: seq<Bytes> := [[97, 110, 121], [51, 56, 54], [97, 109, 100, 54, 52], [97, 114, 109],
                               [97, 114, 109, 54, 52], [114, 105, 115, 99, 118, 54, 52]]

  /** ParseOS and ParseArch: the position in the table, or 0xffffffff. */
  function Parse(table: seq<Bytes>, s: Bytes): (n: nat)
    ensures n == BAD || (n < |table| && table[n] == s)
    ensures s !in table ==> n == BAD
  {
    ParseFrom(table, s, 0)
  }

  function ParseFrom(table: seq<Bytes>, s: Bytes, i: nat): (n: nat)
    ensures n == BAD || (n < |table| && table[n] == s)
    ensures s !in table ==> n == BAD
    decreases |table| - i
  {
    if i >= |table| then BAD else if table[i] == s then i else ParseFrom(table, s, i + 1)
  }

  /** strings.LastIndexByte(name, '.') */
  function LastDot(s: Bytes): (i: int)
    ensures -1 <= i < |s|
    ensures i >= 0 ==> s[i] == DOT
    ensures DOT !in s[i + 1..]
  {
    if s == [] then -1
    else if s[|s| - 1] == DOT then |s| - 1
    else
      NoDotAdded(s, LastDot(s[..|s| - 1]));
      LastDot(s[..|s| - 1])
  }

  lemma NoDotAdded(s: Bytes, i: int)
    requires s != [] && s[|s| - 1] != DOT && -1 <= i < |s| - 1
    requires DOT !in s[..|s| - 1][i + 1..]
    ensures DOT !in s[i + 1..]
  {
    assert s[i + 1..] == s[..|s| - 1][i + 1..] + [s[|s| - 1]];
  }

  /** A name split into what precedes OS and architecture, and the database these ask for. */
  datatype Split = Plain | For(base: Bytes, at: ArchOS)

  function SplitName(name: Bytes): Split {
    var v := LastDot(name);
    if v == -1 then Plain
    else
      var arch := Parse(ARCHES, name[v + 1..]);
      var u := LastDot(name[..v]);
      if arch == BAD || u == -1 then Plain
      else
        var os := Parse(OSES, name[..v][u + 1..]);
        if os == BAD then Plain else For(name[..v][..u], ArchOS(os, arch))
  }

  lemma {:induction false} LastDotAt(x: Bytes, y: Bytes)
    requires DOT !in y
    ensures LastDot(x + [DOT] + y) == |x|
    decreases |y|
  {
    var s := x + [DOT] + y;
    if y != [] {
      assert s[..|s| - 1] == x + [DOT] + y[..|y| - 1];
      LastDotAt(x, y[..|y| - 1]);
    }
  }

  lemma SplitAtDot(s: Bytes, v: nat)
    requires v < |s| && s[v] == DOT
    ensures s == s[..v] + [DOT] + s[v + 1..]
  {
  }

  /** A name is split exactly when it ends with a known system and a known
      architecture, each behind a dot; what precedes them is all there is left. */
  lemma SplitsExactly(name: Bytes, base: Bytes, a: ArchOS)
    ensures SplitName(name) == For(base, a) <==>
              a.os < 4 && a.arch < 6 && name == base + [DOT] + OSES[a.os] + [DOT] + ARCHES[a.arch]
  {
    hide LastDot, Parse;
    if SplitName(name) == For(base, a) {
      var v := LastDot(name);
      var u := LastDot(name[..v]);
      SplitAtDot(name, v);
      SplitAtDot(name[..v], u);
    }
    if a.os < 4 && a.arch < 6 && name == base + [DOT] + OSES[a.os] + [DOT] + ARCHES[a.arch] {
      KnownNames(a);
      SuffixSplits(base, OSES[a.os], ARCHES[a.arch]);
    }
  }

  lemma KnownNames(a: ArchOS)
    requires a.os < 4 && a.arch < 6
    ensures DOT !in OSES[a.os] && DOT !in ARCHES[a.arch]
    ensures Parse(OSES, OSES[a.os]) == a.os && Parse(ARCHES, ARCHES[a.arch]) == a.arch
  {
    ParseAt(OSES, a.os, 0);
    ParseAt(ARCHES, a.arch, 0);
  }

  lemma {:induction false} ParseAt(table: seq<Bytes>, k: nat, i: nat)
    requires i <= k < |table| && forall j | 0 <= j < |table| && j != k :: table[j] != table[k]
    ensures ParseFrom(table, table[k], i) == k
    decreases k - i
  {
    if i < k {
      ParseAt(table, k, i + 1);
    }
  }

  lemma SuffixSplits(base: Bytes, os: Bytes, arch: Bytes)
    requires DOT !in os && DOT !in arch && Parse(OSES, os) != BAD && Parse(ARCHES, arch) != BAD
    ensures SplitName(base + [DOT] + os + [DOT] + arch) == For(base, ArchOS(Parse(OSES, os), Parse(ARCHES, arch)))
  {
    hide LastDot, Parse;
    var sname := base + [DOT] + os;
    var name := sname + [DOT] + arch;
    LastDotAt(sname, arch);
    LastDotAt(base, os);
    assert name[|sname| + 1..] == arch && name[..|sname|] == sname;
    assert sname[|base| + 1..] == os && sname[..|base|] == base;
  }

  /** An opened database: its tables and active channel. */
  datatype Db = Db(store: Store, channel: Bytes)

  /** A root database and what SubGet gives for each OS and architecture; None
      where no database can be opened. */
  datatype Family = Family(self: ArchOS, root: Db, sub: ArchOS -> Option<Db>) {
    function At(a: ArchOS): Option<Db> {
      if a == self then Some(root) else sub(a)
    }
  }

  ghost predicate GoodFamily(f: Family) {
    forall a | f.At(a).Some? :: Good(f.At(a).value.store)
  }

  datatype Answer = NotFound | LdCache | Failed | In(at: ArchOS, found: L.Found)

  function Answered(db: Db, name: Bytes): L.Found
    requires Indexed(db.store.p2p)
  {
    L.Resolve(db.store.p2p, db.store.pins, db.channel, name)
  }

  /** The name as it is, and otherwise without OS and architecture. */
  function Twice(db: Db, name: Bytes, base: Bytes): L.Found
    requires Indexed(db.store.p2p)
  {
    if Answered(db, name).NotFound? then Answered(db, base) else Answered(db, name)
  }

  /** Lookup. */
  function RootLookup(f: Family, name: Bytes): Answer
    requires GoodFamily(f)
  {
    if DOT !in name then NotFound
    else if name == LD_SO_CACHE then LdCache
    else
      match SplitName(name)
      case Plain =>
        assert f.At(f.self).Some?;
        GoodIndexed(f.root.store);
        In(f.self, Answered(f.root, name))
      case For(base, a) =>
        match f.At(a)
        case None => Failed
        case Some(db) => GoodIndexed(db.store); In(a, Twice(db, name, base))
  }

  /** What AddPackage has stored is found under its full name, on every
      channel; what RemovePackage has taken out is never found any more under
      any name. */
  lemma AddedFound(s: Store, p: Package, channel: Bytes)
    requires Good(s) && ValidPackage(p) && Added(s, p).Ok? && DOT in p.name
    ensures Indexed(Added(s, p).value.p2p)
    ensures L.Resolve(Added(s, p).value.p2p, s.pins, channel, p.name) == L.Exact(P2pValue(p.hash, p.inodes, p.name))
    ensures var v := P2pValue(p.hash, p.inodes, p.name);
            IsP2pValue(v) && P2pHash(v) == p.hash && P2pInodes(v) == p.inodes && P2pName(v) == p.name
  {
    P2pFields(p.hash, p.inodes, p.name);
    hide Get, Good, Collated, P2pValue, L.PrefixSearch;
    StoredGood(s, p);
    GoodIndexed(Added(s, p).value);
    AddedOnly(s, p, p.name, p.hash);
  }

  /** A package built again has a new hash: it can be added under the name that
      is already in the index, the name then leads to it on every channel, and
      no name leads to the old build any more. */
  lemma RebuiltFound(s: Store, p: Package, q: Package, channel: Bytes, name: Bytes)
    requires Good(s) && ValidPackage(p) && ValidPackage(q) && Added(s, p).Ok?
    requires q.name == p.name && DOT in q.name && q.hash != p.hash && Get(s.pkg, q.hash) == None
    requires |q.header| <= 0x7fff_fffe && |q.sig| <= 0x7fff_fffe && |q.meta| <= 0x7fff_fffe && |q.path| <= 0x7fff_fffe
    ensures var t := Added(s, p).value;
            && Added(t, q).Ok?
            && var u := Added(t, q).value;
            && Indexed(u.p2p)
            && L.Resolve(u.p2p, u.pins, channel, q.name) == L.Exact(P2pValue(q.hash, q.inodes, q.name))
            && var f := L.Resolve(u.p2p, u.pins, channel, name);
            f.Exact? || f.Latest? ==> IsP2pValue(f.value) && P2pHash(f.value) != p.hash
  {
    hide Get, Good, Collated, P2pValue, L.Resolve, L.Matches, Stored;
    var t := Added(s, p).value;
    AddSucceeds(s, p);
    AddedOnly(s, p, p.name, q.hash);
    AddSucceeds(t, q);
    StoredGood(s, p);
    AddedFound(t, q, channel);
    var u := Added(t, q).value;
    AddedOnly(t, q, p.name, q.hash);
    L.ResolveSound(u.p2p, u.pins, channel, name);
    var f := L.Resolve(u.p2p, u.pins, channel, name);
    if f.Exact? || f.Latest? {
      var e :| e in u.p2p && e.value == f.value;
      OldBuildGone(s, p, q, e);
    }
  }

  lemma OldBuildGone(s: Store, p: Package, q: Package, e: Entry)
    requires Good(s) && ValidPackage(p) && ValidPackage(q) && Added(s, p).Ok?
    requires q.name == p.name && q.hash != p.hash && Added(Added(s, p).value, q).Ok?
    requires e in Added(Added(s, p).value, q).value.p2p
    ensures IsP2pValue(e.value) && P2pHash(e.value) != p.hash
  {
    hide Get, Collated, P2pValue, Put, Accepted;
    var t := Added(s, p).value;
    P2pFields(p.hash, p.inodes, p.name);
    P2pFields(q.hash, q.inodes, q.name);
    var before, after := Entry(Collated(p.name), P2pValue(p.hash, p.inodes, p.name)),
                      Entry(Collated(q.name), P2pValue(q.hash, q.inodes, q.name));
    PutStored(t.p2p, after.key, after.value, e);
    StoredGood(s, p);
    if e != after {
      assert Backed(t, e);
      PutStored(s.p2p, before.key, before.value, before);
      assert before in t.p2p;
    }
  }

  lemma RemovedGone(s: Store, removed: Bytes, channel: Bytes, name: Bytes)
    requires Good(s)
    ensures Indexed(Removed(s, removed).p2p)
    ensures var f := L.Resolve(Removed(s, removed).p2p, s.pins, channel, name);
            f.Exact? || f.Latest? ==> IsP2pValue(f.value) && P2pName(f.value) != removed
  {
    hide Get, Good, Collated, L.Resolve, L.Matches;
    RemovedGood(s, removed);
    var t := Removed(s, removed);
    GoodIndexed(t);
    L.ResolveSound(t.p2p, t.pins, channel, name);
    var f := L.Resolve(t.p2p, t.pins, channel, name);
    if f.Exact? || f.Latest? {
      var e :| e in t.p2p && e.value == f.value;
      GetStored(t.p2p, e.key, e.value);
      RemovedOnly(s, removed, P2pName(e.value));
    }
  }

  // ----- The second try

  /** A name with OS and architecture is looked up in the database of these, and
      if it is not found there, once more without them. */
  lemma TriedTwice(f: Family, name: Bytes, base: Bytes, a: ArchOS)
    requires GoodFamily(f) && DOT in name && SplitName(name) == For(base, a) && f.At(a).Some?
    ensures Indexed(f.At(a).value.store.p2p)
    ensures var db := f.At(a).value;
            var first := L.Resolve(db.store.p2p, db.store.pins, db.channel, name);
            var second := L.Resolve(db.store.p2p, db.store.pins, db.channel, base);
            RootLookup(f, name) == In(a, if first == L.NotFound then second else first)
  {
    hide L.Resolve, SplitName, Good;
    GoodIndexed(f.At(a).value.store);
    CacheIsPlain();
  }

  /** A name that is not split is looked up in the root, once. */
  lemma TriedOnce(f: Family, name: Bytes)
    requires GoodFamily(f) && DOT in name && name != LD_SO_CACHE && SplitName(name) == Plain
    ensures Indexed(f.root.store.p2p)
    ensures RootLookup(f, name) == In(f.self, L.Resolve(f.root.store.p2p, f.root.store.pins, f.root.channel, name))
  {
    hide L.Resolve, SplitName, Good;
    assert f.At(f.self).Some?;
    GoodIndexed(f.root.store);
  }

  /** And what is not looked up in any database. */
  lemma NotTried(f: Family, name: Bytes)
    requires GoodFamily(f)
    ensures DOT !in name ==> RootLookup(f, name) == NotFound
    ensures name == [108, 100, 46, 115, 111, 46, 99, 97, 99, 104, 101] ==> RootLookup(f, name) == LdCache
    ensures DOT in name && SplitName(name).For? && f.At(SplitName(name).at).None? ==> RootLookup(f, name) == Failed
  {
    hide L.Resolve, SplitName, Good;
    CacheIsPlain();
  }

  /** No pin of this name is in force. */
  predicate Unpinned(db: Db, name: Bytes) {
    var pin := Get(db.store.pins, db.channel + [0] + name);
    db.channel == [] || db.channel == [108, 97, 116, 101, 115, 116] || pin.None? || pin.value == []
  }

  /** Said of the stored packages: a prefix with OS and architecture behind it
      finds the greatest package that continues the prefix. */
  lemma SecondTry(f: Family, name: Bytes, base: Bytes, a: ArchOS)
    requires GoodFamily(f) && DOT in name && DOT in base && SplitName(name) == For(base, a) && f.At(a).Some?
    requires Indexed(f.At(a).value.store.p2p)
    requires var db := f.At(a).value;
             && (forall e | e in db.store.p2p :: P2pName(e.value) != name && P2pName(e.value) != base)
             && Unpinned(db, name) && Unpinned(db, base)
             && !L.Reachable(db.store.p2p, name) && L.Reachable(db.store.p2p, base)
    ensures var r := RootLookup(f, name);
            r.In? && r.at == a && r.found.Latest? && L.IsLatest(f.At(a).value.store.p2p, base, r.found.value)
  {
    hide L.Resolve, SplitName, Good, L.Reachable, L.IsLatest, Get, RootLookup;
    var db := f.At(a).value;
    TriedTwice(f, name, base, a);
    L.PinnedLookup(db.store.p2p, db.store.pins, db.channel, name);
    L.PinnedLookup(db.store.p2p, db.store.pins, db.channel, base);
  }

  // ----- The link target

  /** So no lookup of any name ever finds a removed package again, whatever is
      added or indexed later. */
  lemma RemovedForGood(s: Store, e: Entry, ops: seq<Op>, channel: Bytes, name: Bytes)
    requires Good(s) && e in s.p2p && IsP2pValue(e.value)
    requires forall i | 0 <= i < |ops| && ops[i].Add? :: ValidPackage(ops[i].p)
    ensures var t := Run(Removed(s, P2pName(e.value)), ops);
            && Indexed(t.p2p)
            && var f := L.Resolve(t.p2p, t.pins, channel, name);
            f.Exact? || f.Latest? ==> IsP2pValue(f.value) && P2pHash(f.value) != P2pHash(e.value)
  {
    hide Get, Good, Collated, L.Resolve, L.Matches, Run, Removed;
    var removed := Removed(s, P2pName(e.value));
    var t := Run(removed, ops);
    RemovedGood(s, P2pName(e.value));
    RunGood(removed, ops);
    GoodIndexed(t);
    RemoveRetires(s, e);
    NeverBack(removed, ops, P2pHash(e.value));
    L.ResolveSound(t.p2p, t.pins, channel, name);
  }

  /** Whether a lookup on the root asks database `a` for this very name. */
  predicate AsksFor(f: Family, a: ArchOS, target: Bytes) {
    target != LD_SO_CACHE && match SplitName(target) case Plain => a == f.self case For(_, b) => a == b
  }

  lemma CacheIsPlain()
    ensures SplitName(LD_SO_CACHE).Plain?
  {
    hide LastDot, Parse;
    var x, y := LD_SO_CACHE[..5], LD_SO_CACHE[6..];
    assert LD_SO_CACHE == x + [DOT] + y;
    NotAnArch(y);
    LastDotAt(x, y);
  }

  /** "cache" is no architecture. */
  lemma NotAnArch(y: Bytes)
    requires y == [99, 97, 99, 104, 101]
    ensures DOT !in y && Parse(ARCHES, y) == BAD
  {
  }

  /** What a lookup of some name found is found again under the package's own
      name, by exact match and in the same database, exactly when the root asks
      that database for this name: as long as the package is indexed there, and
      whatever else has changed in the family since. */
  lemma LinkTarget(f: Family, name: Bytes, f': Family)
    requires GoodFamily(f) && GoodFamily(f')
    requires RootLookup(f, name).In? && RootLookup(f, name).found.Latest?
    requires var r := RootLookup(f, name);
             f'.At(r.at).Some? && exists e :: e in f'.At(r.at).value.store.p2p && e.value == r.found.value
    ensures var r := RootLookup(f, name);
            && IsP2pValue(r.found.value)
            && (RootLookup(f', P2pName(r.found.value)) == In(r.at, L.Exact(r.found.value))
                <==> AsksFor(f', r.at, P2pName(r.found.value)))
  {
    hide SplitName, L.Resolve, LastDot, Good;
    var r := RootLookup(f, name);
    var db := f'.At(r.at).value;
    var e :| e in db.store.p2p && e.value == r.found.value;
    GoodIndexed(db.store);
    FoundHasDot(f, name);
    L.PinKeepsExact(db.store.p2p, db.store.pins, db.channel, P2pName(e.value), e);
  }

  lemma FoundHasDot(f: Family, name: Bytes)
    requires GoodFamily(f) && RootLookup(f, name).In? && RootLookup(f, name).found.Latest?
    ensures var v := RootLookup(f, name).found.value;
            IsP2pValue(v) && DOT in P2pName(v)
  {
    hide SplitName, L.Resolve, LastDot, Good;
    var r := RootLookup(f, name);
    var db := f.At(r.at).value;
    GoodIndexed(db.store);
    match SplitName(name)
    case Plain => LatestHasDot(db, name);
    case For(base, _) =>
      LatestHasDot(db, name);
      LatestHasDot(db, base);
  }

  lemma LatestHasDot(db: Db, name: Bytes)
    requires Indexed(db.store.p2p)
    ensures Answered(db, name).Latest? ==>
              IsP2pValue(Answered(db, name).value) && DOT in P2pName(Answered(db, name).value)
  {
    hide L.Resolve;
    L.ResolveSound(db.store.p2p, db.store.pins, db.channel, name);
    if Answered(db, name).Latest? {
      var v := Answered(db, name).value;
      assert name + [DOT] <= P2pName(v);
      assert (name + [DOT])[|name|] == P2pName(v)[|name|];
    }
  }

  /** It does for a name that ends with the database's own OS and architecture. */
  lemma SuffixAsks(f: Family, a: ArchOS, target: Bytes)
    requires SplitName(target).For? && SplitName(target).at == a
    ensures AsksFor(f, a, target)
  {
    CacheIsPlain();
  }

  /** The text of the link: getPkgTx takes the name from the `pkg` table, where
      it is the name the index holds. */
  lemma LinkText(s: Store, e: Entry)
    requires Good(s) && e in s.p2p
    ensures IsP2pValue(e.value) && Get(s.pkg, P2pHash(e.value)).Some?
    ensures var v := Get(s.pkg, P2pHash(e.value)).value;
            |v| >= 25 && v[25..] == P2pName(e.value) && v[17..25] == e.value[32..40]
  {
    hide Get, Collated;
    assert Backed(s, e);
  }
}

/** What indexing an export does to a database that already holds packages: how
    databases are kept up to date (apkgdb/export.go, apkgdb/index.go). */
module Update {
  import opened Bytes
  import opened Collate
  import opened Varblob
  import opened Buckets
  import opened Records
  import opened Database
  import opened Export

  /** One of the exported packages, and one the other database has never heard of. */
  ghost predicate IsNew(es: seq<Entry>, base: Store, e: Entry) {
    e in es && IsP2pValue(e.value) && Get(base.pkg, P2pHash(e.value)).None?
  }

  /** The index entry under a key: that of the new package under it, cut to 32
      bits of inode count, or what was there. */
  ghost predicate EntryUpdated(es: seq<Entry>, base: Store, p2p: Bucket, k: Bytes) {
    && (forall e | IsNew(es, base, e) && e.key == k :: Get(p2p, k) == Some(Cut(e).value))
    && ((forall e | IsNew(es, base, e) :: e.key != k) ==> Get(p2p, k) == Get(base.p2p, k))
  }

  /** A table with an entry for each package: those of the new packages as they
      are exported, all others as they were. */
  ghost predicate TableUpdated(es: seq<Entry>, base: Store, was: Bucket, from: Bucket, now: Bucket) {
    forall h ::
      Get(now, h) == if IndexedHash(es, h) && Get(base.pkg, h).None? then Get(from, h) else Get(was, h)
  }

  ghost predicate Updated(s: Store, es: seq<Entry>, base: Store, t: Store) {
    && (forall k :: EntryUpdated(es, base, t.p2p, k))
    && (forall h :: Get(t.pkg, h).Some? <==> Get(base.pkg, h).Some? || IndexedHash(es, h))
    && TableUpdated(es, base, base.header, s.header, t.header) && TableUpdated(es, base, base.sig, s.sig, t.sig)
    && TableUpdated(es, base, base.meta, s.meta, t.meta) && TableUpdated(es, base, base.path, s.path, t.path)
  }

  lemma NothingUpdated(s: Store, base: Store)
    ensures Updated(s, [], base, base)
  {
    hide Get;
  }

  lemma TableStep(es: seq<Entry>, e: Entry, base: Store, was: Bucket, from: Bucket, now: Bucket, v: Bytes)
    requires TableUpdated(es, base, was, from, now) && IsP2pValue(e.value)
    requires Get(base.pkg, P2pHash(e.value)).None? && Get(from, P2pHash(e.value)) == Some(v)
    ensures TableUpdated(es + [e], base, was, from, Put(now, P2pHash(e.value), v))
  {
    hide Get, Put, IndexedHash;
    var h := P2pHash(e.value);
    forall k
      ensures Get(Put(now, h, v), k)
           == if IndexedHash(es + [e], k) && Get(base.pkg, k).None? then Get(from, k) else Get(was, k)
    {
      GetPut(now, h, v, k);
      HashAppended(es, e, k);
    }
  }

  lemma TableKept(es: seq<Entry>, e: Entry, base: Store, was: Bucket, from: Bucket, now: Bucket)
    requires TableUpdated(es, base, was, from, now) && IsP2pValue(e.value)
    requires Get(base.pkg, P2pHash(e.value)).Some?
    ensures TableUpdated(es + [e], base, was, from, now)
  {
    hide Get, IndexedHash;
    forall k
      ensures Get(now, k) == if IndexedHash(es + [e], k) && Get(base.pkg, k).None? then Get(from, k) else Get(was, k)
    {
      HashAppended(es, e, k);
    }
  }

  /** Keys of an index are distinct. */
  lemma FreshKey(s: Store, es: seq<Entry>, e: Entry)
    requires es + [e] <= s.p2p
    ensures forall f | f in es :: f.key != e.key
  {
    assert (es + [e])[|es|] == e && s.p2p[|es|] == e;
    forall f | f in es
      ensures f.key != e.key
    {
      var i :| 0 <= i < |es| && es[i] == f;
      assert (es + [e])[i] == f && s.p2p[i] == f;
      LexTotal(s.p2p[i].key, s.p2p[|es|].key);
    }
  }

  lemma EntriesStep(s: Store, es: seq<Entry>, e: Entry, base: Store, p2p: Bucket)
    requires es + [e] <= s.p2p && IsNew(es + [e], base, e)
    requires forall k :: EntryUpdated(es, base, p2p, k)
    ensures forall k :: EntryUpdated(es + [e], base, Put(p2p, e.key, Cut(e).value), k)
  {
    hide Get, Put, Cut;
    FreshKey(s, es, e);
    forall k
      ensures EntryUpdated(es + [e], base, Put(p2p, e.key, Cut(e).value), k)
    {
      GetPut(p2p, e.key, Cut(e).value, k);
      assert EntryUpdated(es, base, p2p, k);
      NewAppended(es, e, base);
    }
  }

  lemma NewAppended(es: seq<Entry>, e: Entry, base: Store)
    ensures forall f :: IsNew(es + [e], base, f) <==> IsNew(es, base, f) || (f == e && IsNew([e], base, e))
  {
    hide Get;
    assert e in es + [e];
  }

  lemma EntriesKept(es: seq<Entry>, e: Entry, base: Store, p2p: Bucket)
    requires IsP2pValue(e.value) && Get(base.pkg, P2pHash(e.value)).Some?
    requires forall k :: EntryUpdated(es, base, p2p, k)
    ensures forall k :: EntryUpdated(es + [e], base, p2p, k)
  {
    hide Get, Cut;
    NewAppended(es, e, base);
    forall k
      ensures EntryUpdated(es + [e], base, p2p, k)
    {
      assert EntryUpdated(es, base, p2p, k);
    }
  }

  /** The hash of the next record is not one of an earlier record. */
  lemma FreshHash(s: Store, es: seq<Entry>, e: Entry)
    requires Good(s) && es + [e] <= s.p2p
    ensures IsP2pValue(e.value) && !IndexedHash(es, P2pHash(e.value))
  {
    hide Get, Backed;
    LastOf(s, es, e);
    assert IsP2pValue(e.value) by { BackedShape(s, e); }
    FreshKey(s, es, e);
  }

  lemma HashesAppended(es: seq<Entry>, e: Entry, base: Store, pkg: Bucket, pkg': Bucket)
    requires IsP2pValue(e.value)
    requires forall h :: Get(pkg, h).Some? <==> Get(base.pkg, h).Some? || IndexedHash(es, h)
    requires forall h :: Get(pkg', h).Some? <==> Get(pkg, h).Some? || h == P2pHash(e.value)
    ensures forall h :: Get(pkg', h).Some? <==> Get(base.pkg, h).Some? || IndexedHash(es + [e], h)
  {
    hide Get, IndexedHash;
    forall h
      ensures Get(pkg', h).Some? <==> Get(base.pkg, h).Some? || IndexedHash(es + [e], h)
    {
      HashAppended(es, e, h);
    }
  }

  lemma KnownStep(s: Store, es: seq<Entry>, e: Entry, base: Store, t: Store)
    requires IsP2pValue(e.value) && Get(base.pkg, P2pHash(e.value)).Some? && Updated(s, es, base, t)
    ensures Get(t.pkg, P2pHash(e.value)).Some? && Updated(s, es + [e], base, t)
  {
    hide Get, IndexedHash, TableUpdated, EntryUpdated;
    EntriesKept(es, e, base, t.p2p);
    HashesAppended(es, e, base, t.pkg, t.pkg);
    TableKept(es, e, base, base.header, s.header, t.header);
    TableKept(es, e, base, base.sig, s.sig, t.sig);
    TableKept(es, e, base, base.meta, s.meta, t.meta);
    TableKept(es, e, base, base.path, s.path, t.path);
  }

  lemma NewStep(s: Store, es: seq<Entry>, e: Entry, base: Store, t: Store)
    requires Good(s) && es + [e] <= s.p2p && Exportable(s, e)
    requires Get(base.pkg, P2pHash(e.value)).None? && Updated(s, es, base, t)
    ensures Get(t.pkg, P2pHash(e.value)).None? && Updated(s, es + [e], base, Stored(t, Recorded(s, e)))
  {
    hide Get, Put, IndexedHash, TableUpdated, EntryUpdated, Good, Stored, Updated, Recorded;
    FreshHash(s, es, e);
    NewTables(s, es, e, base, t);
    NewEntries(s, es, e, base, t);
    NewHashes(s, es, e, base, t);
    NewJoin(s, es, e, base, Stored(t, Recorded(s, e)));
  }

  lemma NewJoin(s: Store, es: seq<Entry>, e: Entry, base: Store, t: Store)
    requires forall k :: EntryUpdated(es + [e], base, t.p2p, k)
    requires forall h :: Get(t.pkg, h).Some? <==> Get(base.pkg, h).Some? || IndexedHash(es + [e], h)
    requires TableUpdated(es + [e], base, base.header, s.header, t.header)
    requires TableUpdated(es + [e], base, base.sig, s.sig, t.sig)
    requires TableUpdated(es + [e], base, base.meta, s.meta, t.meta)
    requires TableUpdated(es + [e], base, base.path, s.path, t.path)
    ensures Updated(s, es + [e], base, t)
  {
  }

  lemma NewTables(s: Store, es: seq<Entry>, e: Entry, base: Store, t: Store)
    requires Good(s) && es + [e] <= s.p2p && Exportable(s, e)
    requires Get(base.pkg, P2pHash(e.value)).None? && Updated(s, es, base, t)
    ensures var t' := Stored(t, Recorded(s, e));
            && TableUpdated(es + [e], base, base.header, s.header, t'.header)
            && TableUpdated(es + [e], base, base.sig, s.sig, t'.sig)
            && TableUpdated(es + [e], base, base.meta, s.meta, t'.meta)
            && TableUpdated(es + [e], base, base.path, s.path, t'.path)
  {
    hide Get, Put, IndexedHash, TableUpdated, EntryUpdated, Collated, Field, PkgValue;
    LastOf(s, es, e);
    var h := P2pHash(e.value);
    StoredField(s.header, h);
    StoredField(s.sig, h);
    StoredField(s.meta, h);
    StoredField(s.path, h);
    TableStep(es, e, base, base.header, s.header, t.header, Field(s.header, h));
    TableStep(es, e, base, base.sig, s.sig, t.sig, Field(s.sig, h));
    TableStep(es, e, base, base.meta, s.meta, t.meta, Field(s.meta, h));
    TableStep(es, e, base, base.path, s.path, t.path, Field(s.path, h));
  }

  lemma NewEntries(s: Store, es: seq<Entry>, e: Entry, base: Store, t: Store)
    requires Good(s) && es + [e] <= s.p2p && Exportable(s, e)
    requires Get(base.pkg, P2pHash(e.value)).None? && Updated(s, es, base, t)
    ensures forall k :: EntryUpdated(es + [e], base, Stored(t, Recorded(s, e)).p2p, k)
  {
    hide Get, Put, IndexedHash, TableUpdated, EntryUpdated, Collated, Recorded, P2pValue, Cut;
    LastOf(s, es, e);
    RecordedCut(s, e);
    CutKey(e);
    assert e in es + [e];
    EntriesStep(s, es, e, base, t.p2p);
  }

  lemma CutKey(e: Entry)
    requires IsP2pValue(e.value)
    ensures Cut(e).key == e.key
  {
  }

  lemma NewHashes(s: Store, es: seq<Entry>, e: Entry, base: Store, t: Store)
    requires IsP2pValue(e.value) && Exportable(s, e) && !IndexedHash(es, P2pHash(e.value))
    requires Get(base.pkg, P2pHash(e.value)).None? && Updated(s, es, base, t)
    ensures Get(t.pkg, P2pHash(e.value)).None?
    ensures forall h ::
              Get(Stored(t, Recorded(s, e)).pkg, h).Some? <==> Get(base.pkg, h).Some? || IndexedHash(es + [e], h)
  {
    hide Get, Put, IndexedHash, TableUpdated, EntryUpdated, PkgValue;
    var p := Recorded(s, e);
    RecordedHash(s, e);
    var pkg := Put(t.pkg, p.hash, PkgValue(p.size, p.inodes, p.name));
    forall h
      ensures Get(pkg, h).Some? <==> Get(t.pkg, h).Some? || h == P2pHash(e.value)
    {
      GetPut(t.pkg, p.hash, PkgValue(p.size, p.inodes, p.name), h);
    }
    HashesAppended(es, e, base, t.pkg, pkg);
  }

  /** The records of the entries `later`, read after those of the entries `done`. */
  lemma {:induction false} RecordsUpdate(s: Store, done: seq<Entry>, later: seq<Entry>, base: Store, t: Store,
                                         tail: Bytes)
    requires Good(s) && done + later == s.p2p && AllExportable(s, later) && AllFitting(s, later)
    requires Updated(s, done, base, t) && t.pins == base.pins
    ensures var r := IndexPackages(t, PackageRecords(s, later) + tail, |later|);
            r.Ok? && r.value.rest == tail && Updated(s, s.p2p, base, r.value.value) && r.value.value.pins == base.pins
    decreases |later|
  {
    hide *;
    if later == [] {
      NoRecords(s, t, tail);
      assert done + [] == done;
    } else {
      var e, es := later[0], later[1..];
      assert later == [e] + es;
      Assoc(done, [e], es);
      assert s.p2p[|done|] == e && e in s.p2p;
      FirstOf(s, e, es);
      PartialAccepted(s, done, e);
      PackageStep(s, e, es, t, tail);
      FreshHash(s, done, e);
      RecordedHash(s, e);
      MergedPins(t, Recorded(s, e));
      if Get(base.pkg, P2pHash(e.value)).Some? {
        KnownStep(s, done, e, base, t);
        MergedKnownSame(t, Recorded(s, e));
      } else {
        NewStep(s, done, e, base, t);
        MergedFresh(t, Recorded(s, e));
      }
      RecordsUpdate(s, done + [e], es, base, Merged(t, Recorded(s, e)).value, tail);
    }
  }

  lemma MergedPins(t: Store, p: Package)
    ensures Merged(t, p).Ok? ==> Merged(t, p).value.pins == t.pins
  {
  }

  lemma MergedKnownSame(t: Store, p: Package)
    requires Get(t.pkg, p.hash).Some?
    ensures Merged(t, p) == Ok(t)
  {
  }

  /** Indexing the export of one database into any other: under each key the
      index then has the exported package if its hash was not known, and
      otherwise what it had; the known hashes are those known before and those
      exported; the other tables have the new packages' entries besides their
      own; and exported pins replace those of the same key. */
  lemma UpdateEffect(s: Store, base: Store)
    requires Good(s) && AllExportable(s, s.p2p) && AllFit(s)
    ensures IndexData(base, ExportData(s), |s.p2p|).Ok?
    ensures Updated(s, s.p2p, base, IndexData(base, ExportData(s), |s.p2p|).value)
    ensures PinsUpdated(s.pins, base.pins, IndexData(base, ExportData(s), |s.p2p|).value.pins)
  {
    ExportIndexed(s, base);
    hide Good, AllExportable, AllFitting, Updated, PackageRecords, PinRecords, IndexPackages, IndexPins, PinFits;
    NothingUpdated(s, base);
    assert [] + s.p2p == s.p2p;
    RecordsUpdate(s, [], s.p2p, base, base, PinRecords(s.pins));
    var r := IndexPackages(base, ExportData(s), |s.p2p|).value;
    PinsApart(s, s.p2p, base, r.value, IndexPins(r.value.pins, r.rest).value);
    PinsUpdate(s, base.pins);
  }

  /** Exported pins replace those of the same key; the others stay. */
  ghost predicate PinsUpdated(from: Bucket, was: Bucket, now: Bucket) {
    forall k :: Get(now, k) == if Get(from, k).Some? then Get(from, k) else Get(was, k)
  }

  lemma PinsUpdate(s: Store, pins: Bucket)
    requires Good(s) && IndexPins(pins, PinRecords(s.pins)).Ok?
    ensures PinsUpdated(s.pins, pins, IndexPins(pins, PinRecords(s.pins)).value)
  {
    hide Get, IndexPins, PinRecords, FilePin, Good, PinFits;
    AllPinsRead(s);
    PinsReadAnywhere(s, pins);
    var data := PinRecords(s.pins);
    forall k
      ensures Get(IndexPins(pins, data).value, k) == if Get(s.pins, k).Some? then Get(s.pins, k) else Get(pins, k)
    {
      NoEntry(k);
      PinsIndexed([], data, k);
      PinsIndexed(pins, data, k);
    }
  }

  lemma NoEntry(k: Bytes)
    ensures Get([], k) == None
  {
  }

  lemma PinsApart(s: Store, es: seq<Entry>, base: Store, t: Store, pins: Bucket)
    requires Updated(s, es, base, t)
    ensures Updated(s, es, base, t.(pins := pins))
  {
    hide Get, EntryUpdated, TableUpdated, IndexedHash;
  }

  /** A package removed at the exporter stays in every database that has it:
      no later export removes an index entry, and only another package of the
      same name replaces one. */
  lemma RemovalStays(s: Store, removed: Bytes, base: Store)
    requires Good(s) && AllExportable(Removed(s, removed), Removed(s, removed).p2p) && AllFit(Removed(s, removed))
    ensures var t := IndexData(base, ExportData(Removed(s, removed)), |Removed(s, removed).p2p|);
            t.Ok? && Get(t.value.p2p, Collated(removed)) == Get(base.p2p, Collated(removed))
  {
    hide Get, Collated, AllFit, AllExportable, ExportData, IndexData, Good, Delete;
    var s' := Removed(s, removed);
    RemovedGood(s, removed);
    UpdateEffect(s', base);
    forall e | IsNew(s'.p2p, base, e)
      ensures e.key != Collated(removed)
    {
      DeleteStored(s.p2p, Collated(removed), e);
    }
    var t := IndexData(base, ExportData(s'), |s'.p2p|).value;
    assert EntryUpdated(s'.p2p, base, t.p2p, Collated(removed));
  }
}

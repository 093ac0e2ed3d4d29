/** The data section ExportAndUpload writes (apkgdb/export.go), and that index
    reads it back. */
module Export {
  import opened Bytes
  import opened Codec
  import opened Collate
  import opened Varblob
  import opened Buckets
  import opened Records
  import opened Pins
  import opened Database

  // ----- The writer

  /** Get on a table: a missing entry reads as an empty one. */
  function Field(b: Bucket, h: Bytes): Bytes {
    match Get(b, h)
    case Some(v) => v
    case None => []
  }

  predicate Exportable(s: Store, e: Entry) {
    IsP2pValue(e.value) && |Field(s.pkg, P2pHash(e.value))| >= 25
  }

  predicate AllExportable(s: Store, es: seq<Entry>) {
    forall e | e in es :: Exportable(s, e)
  }

  /** One package record: type, hash, size, the low half of the inode count, and five blobs. */
  function PackageRecord(s: Store, e: Entry): Bytes
    requires Exportable(s, e)
  {
    var h := P2pHash(e.value);
    var pv := Field(s.pkg, h);
    [0] + (h + (pv[1..9] + (pv[21..25] + RecordFields(s, h, pv[25..]))))
  }

  function RecordFields(s: Store, h: Bytes, name: Bytes): Bytes {
    Blob(name)
    + (Blob(Field(s.path, h)) + (Blob(Field(s.header, h)) + (Blob(Field(s.sig, h)) + Blob(Field(s.meta, h)))))
  }

  /** Position of the first NUL. */
  function IndexNul(k: Bytes): (i: nat)
    ensures i <= |k| && NUL !in k[..i]
    ensures i < |k| ==> k[i] == NUL
  {
    if k == [] || k[0] == NUL then 0
    else
      var i := 1 + IndexNul(k[1..]);
      assert k[..i] == [k[0]] + k[1..][..i - 1];
      i
  }

  /** The bytes of a package record: type 0, the hash, size and the low half of
      the inode count as the `pkg` table has them, then name, path, header,
      signature and metadata. */
  lemma RecordBytes(s: Store, e: Entry)
    requires Exportable(s, e)
    ensures var r, h := PackageRecord(s, e), P2pHash(e.value);
            var pv := Field(s.pkg, h);
            && r[0] == 0 && r[1..33] == h && r[33..41] == pv[1..9] && r[41..45] == pv[21..25]
            && r[45..] == Blob(pv[25..]) + (Blob(Field(s.path, h)) + (Blob(Field(s.header, h))
                          + (Blob(Field(s.sig, h)) + Blob(Field(s.meta, h)))))
  {
    hide Field, Blob;
  }

  /** It is the only position with no NUL before it and NUL at it. */
  lemma {:induction false} FirstNul(k: Bytes, i: nat)
    requires i <= |k| && NUL !in k[..i] && (i < |k| ==> k[i] == NUL)
    ensures IndexNul(k) == i
  {
    if i > 0 {
      assert k[0] == k[..i][0];
      assert k[1..][..i - 1] == k[..i][1..];
      FirstNul(k[1..], i - 1);
    }
  }

  /** One pin record; a key without NUL leaves only the type byte. */
  function PinRecord(e: Entry): Bytes {
    var i := IndexNul(e.key);
    if i == |e.key| then [1]
    else [1] + (Blob(e.key[..i]) + (Blob(e.key[i + 1..]) + Blob(e.value)))
  }

  /** The bytes of a pin record: type 1, then channel, prefix and version. */
  lemma PinBytes(channel: Bytes, prefix: Bytes, version: Bytes)
    requires NUL !in channel
    ensures PinRecord(Entry(PinKey(channel, prefix), version))
         == [1] + (Blob(channel) + (Blob(prefix) + Blob(version)))
  {
    hide Blob, IndexNul;
    var k := PinKey(channel, prefix);
    assert k[..|channel|] == channel && k[|channel|] == NUL && k[|channel| + 1..] == prefix;
    FirstNul(k, |channel|);
  }

  function PackageRecords(s: Store, es: seq<Entry>): Bytes
    requires AllExportable(s, es)
  {
    if es == [] then [] else PackageRecord(s, es[0]) + PackageRecords(s, es[1..])
  }

  function PinRecords(es: seq<Entry>): Bytes {
    if es == [] then [] else PinRecord(es[0]) + PinRecords(es[1..])
  }

  function ExportData(s: Store): Bytes
    requires AllExportable(s, s.p2p)
  {
    PackageRecords(s, s.p2p) + PinRecords(s.pins)
  }

  lemma {:induction false} PackageRecordsAppend(s: Store, es: seq<Entry>, e: Entry)
    requires AllExportable(s, es) && AllExportable(s, es + [e]) && Exportable(s, e)
    ensures PackageRecords(s, es + [e]) == PackageRecords(s, es) + PackageRecord(s, e)
  {
    hide Exportable, PackageRecord;
    if es == [] {
      assert es + [e] == [e];
    } else {
      assert (es + [e])[0] == es[0] && (es + [e])[1..] == es[1..] + [e];
      PackageRecordsAppend(s, es[1..], e);
      Assoc(PackageRecord(s, es[0]), PackageRecords(s, es[1..]), PackageRecord(s, e));
    }
  }

  lemma {:induction false} PinRecordsAppend(es: seq<Entry>, e: Entry)
    ensures PinRecords(es + [e]) == PinRecords(es) + PinRecord(e)
  {
    hide PinRecord;
    if es == [] {
      assert es + [e] == [e];
    } else {
      assert (es + [e])[0] == es[0] && (es + [e])[1..] == es[1..] + [e];
      PinRecordsAppend(es[1..], e);
      Assoc(PinRecord(es[0]), PinRecords(es[1..]), PinRecord(e));
    }
  }

  /** The transaction of ExportAndUpload: what goes through the writer that
      feeds both the file and the hash, and the number of packages. */
  method WriteData(s: Store) returns (w: Bytes, count: nat)
    requires AllExportable(s, s.p2p)
    ensures w == ExportData(s) && count == |s.p2p| % TWO32
  {
    w, count := WritePackages(s);
    w := WritePins(s.pins, w);
  }

  method WritePackages(s: Store) returns (w: Bytes, count: nat)
    requires AllExportable(s, s.p2p)
    ensures w == PackageRecords(s, s.p2p) && count == |s.p2p| % TWO32
  {
    hide PackageRecord, PackageRecords, Exportable, AllExportable;
    w, count := [], 0;
    NoRecordsYet(s);
    for i := 0 to |s.p2p|
      invariant AllExportable(s, s.p2p[..i])
      invariant w == PackageRecords(s, s.p2p[..i]) && count == i % TWO32
    {
      NextRecord(s, i);
      w := WritePackage(s, s.p2p[i], w);
      count := (count + 1) % TWO32;
    }
    assert s.p2p[..|s.p2p|] == s.p2p;
  }

  lemma NoRecordsYet(s: Store)
    ensures AllExportable(s, s.p2p[..0]) && PackageRecords(s, s.p2p[..0]) == []
  {
  }

  lemma NextRecord(s: Store, i: nat)
    requires AllExportable(s, s.p2p) && i < |s.p2p|
    ensures AllExportable(s, s.p2p[..i]) && AllExportable(s, s.p2p[..i + 1]) && Exportable(s, s.p2p[i])
    ensures PackageRecords(s, s.p2p[..i + 1]) == PackageRecords(s, s.p2p[..i]) + PackageRecord(s, s.p2p[i])
  {
    hide PackageRecord, PackageRecords, Exportable;
    assert s.p2p[..i + 1] == s.p2p[..i] + [s.p2p[i]];
    PackageRecordsAppend(s, s.p2p[..i], s.p2p[i]);
  }

  method WritePins(pins: Bucket, w: Bytes) returns (out: Bytes)
    ensures out == w + PinRecords(pins)
  {
    hide PinRecord;
    out := w;
    for i := 0 to |pins|
      invariant out == w + PinRecords(pins[..i])
    {
      assert pins[..i + 1] == pins[..i] + [pins[i]];
      PinRecordsAppend(pins[..i], pins[i]);
      Assoc(w, PinRecords(pins[..i]), PinRecord(pins[i]));
      out := WritePin(pins[i], out);
    }
    assert pins[..|pins|] == pins;
  }

  method WritePackage(s: Store, e: Entry, w: Bytes) returns (out: Bytes)
    requires Exportable(s, e)
    ensures out == w + PackageRecord(s, e)
  {
    hide Blob, Field;
    var h := e.value[..32];
    var pv := Field(s.pkg, h);
    var head := [0] + h + pv[1..9] + pv[17 + 4..25];
    var b := WriteVarblob([], pv[25..]);
    b := WriteVarblob(b, Field(s.path, h));
    b := WriteVarblob(b, Field(s.header, h));
    b := WriteVarblob(b, Field(s.sig, h));
    b := WriteVarblob(b, Field(s.meta, h));
    FieldsJoined(s, h, pv[25..]);
    HeadJoined(h, pv[1..9], pv[21..25], b);
    out := w + (head + b);
  }

  lemma FieldsJoined(s: Store, h: Bytes, name: Bytes)
    ensures [] + Blob(name) + Blob(Field(s.path, h)) + Blob(Field(s.header, h)) + Blob(Field(s.sig, h))
            + Blob(Field(s.meta, h))
         == RecordFields(s, h, name)
  {
    hide Blob, Field;
    FiveJoined(Blob(name), Blob(Field(s.path, h)), Blob(Field(s.header, h)), Blob(Field(s.sig, h)),
               Blob(Field(s.meta, h)));
  }

  lemma FiveJoined(a: Bytes, b: Bytes, c: Bytes, d: Bytes, e: Bytes)
    ensures [] + a + b + c + d + e == a + (b + (c + (d + e)))
  {
    assert [] + a == a;
    Assoc(a + b + c, d, e);
    Assoc(a + b, c, d + e);
    Assoc(a, b, c + (d + e));
  }

  lemma HeadJoined(h: Bytes, size: Bytes, inodes: Bytes, fields: Bytes)
    ensures [0] + h + size + inodes + fields == [0] + (h + (size + (inodes + fields)))
  {
    Assoc([0] + h + size, inodes, fields);
    Assoc([0] + h, size, inodes + fields);
    Assoc([0], h, size + (inodes + fields));
  }

  method WritePin(e: Entry, w: Bytes) returns (out: Bytes)
    ensures out == w + PinRecord(e)
  {
    hide Blob, IndexNul;
    var sep := IndexNul(e.key);
    if sep == |e.key| {
      return w + [1];
    }
    var b := WriteVarblob([1], e.key[..sep]);
    b := WriteVarblob(b, e.key[sep + 1..]);
    b := WriteVarblob(b, e.value);
    Assoc([1] + Blob(e.key[..sep]), Blob(e.key[sep + 1..]), Blob(e.value));
    Assoc([1], Blob(e.key[..sep]), Blob(e.key[sep + 1..]) + Blob(e.value));
    out := w + b;
  }

  // ----- The length limits of the reader

  predicate Fits(s: Store, e: Entry)
    requires Exportable(s, e)
  {
    var h := P2pHash(e.value);
    && |Field(s.pkg, h)[25..]| <= 256 && |Field(s.path, h)| <= 256 && |Field(s.header, h)| <= 256
    && |Field(s.sig, h)| <= 99 && |Field(s.meta, h)| <= 1048576
  }

  predicate AllFitting(s: Store, es: seq<Entry>)
    requires AllExportable(s, es)
  {
    forall e | e in es :: Fits(s, e)
  }

  predicate PinFits(e: Entry) {
    var i := IndexNul(e.key);
    i < |e.key| && i <= 256 && |e.key| - i - 1 <= 256 && |e.value| <= 256
  }

  predicate AllFit(s: Store)
    requires AllExportable(s, s.p2p)
  {
    AllFitting(s, s.p2p) && (forall e | e in s.pins :: PinFits(e))
  }

  lemma GoodExportable(s: Store)
    requires Good(s)
    ensures AllExportable(s, s.p2p)
  {
    forall e | e in s.p2p
      ensures Exportable(s, e)
    {
      assert Backed(s, e);
    }
  }

  // ----- One record

  /** The package a record stands for. */
  function Recorded(s: Store, e: Entry): Package
    requires Exportable(s, e)
  {
    var h := P2pHash(e.value);
    var pv := Field(s.pkg, h);
    Package(h, FromBE(pv[1..9]), FromBE(pv[21..25]), pv[25..],
            Field(s.path, h), Field(s.header, h), Field(s.sig, h), Field(s.meta, h))
  }

  lemma TakeFront(a: Bytes, b: Bytes)
    ensures Take(a + b, |a|) == Ok(Parsed(a, b))
  {
    assert (a + b)[..|a|] == a && (a + b)[|a|..] == b;
  }

  /** The fields are shorter than 2^64, as every stored value is. */
  ghost predicate Storables(s: Store, h: Bytes, name: Bytes) {
    && |name| < Varblob.TWO64 && |Field(s.path, h)| < Varblob.TWO64 && |Field(s.header, h)| < Varblob.TWO64
    && |Field(s.sig, h)| < Varblob.TWO64 && |Field(s.meta, h)| < Varblob.TWO64
  }

  /** How a parser continues after a blob. */
  lemma BlobThen(v: Bytes, tail: Bytes, rest: Bytes, maxLen: nat)
    requires |v| < Varblob.TWO64
    ensures ParseBlob((Blob(v) + tail) + rest, maxLen) ==
              if |v| <= maxLen then Ok(Parsed(v, tail + rest)) else Err(Oversized)
  {
    hide ParseBlob, Blob;
    Assoc(Blob(v), tail, rest);
    BlobRoundTrip(v, tail + rest, maxLen);
  }

  lemma FieldsParsed(s: Store, h: Bytes, size: nat, inodes: nat, name: Bytes, rest: Bytes)
    requires Storables(s, h, name)
    ensures var r := ParseFields(h, size, inodes, RecordFields(s, h, name) + rest);
            if |name| <= MAX_FIELD && |Field(s.path, h)| <= MAX_FIELD && |Field(s.header, h)| <= MAX_FIELD
               && |Field(s.sig, h)| <= SIGNATURE_SIZE && |Field(s.meta, h)| <= MAX_META
            then r == Ok(Parsed(Package(h, size, inodes, name, Field(s.path, h), Field(s.header, h), Field(s.sig, h),
                                        Field(s.meta, h)),
                                rest))
            else r.Err?
  {
    hide ParseBlob, Blob, Field;
    var path, header, sig, meta := Field(s.path, h), Field(s.header, h), Field(s.sig, h), Field(s.meta, h);
    BlobThen(name, Blob(path) + (Blob(header) + (Blob(sig) + Blob(meta))), rest, MAX_FIELD);
    BlobThen(path, Blob(header) + (Blob(sig) + Blob(meta)), rest, MAX_FIELD);
    BlobThen(header, Blob(sig) + Blob(meta), rest, MAX_FIELD);
    BlobThen(sig, Blob(meta), rest, SIGNATURE_SIZE);
    BlobRoundTrip(meta, rest, MAX_META);
  }

  lemma TakeThen(a: Bytes, tail: Bytes, rest: Bytes)
    ensures Take((a + tail) + rest, |a|) == Ok(Parsed(a, tail + rest))
  {
    Assoc(a, tail, rest);
    TakeFront(a, tail + rest);
  }

  /** A record is read back whatever follows it, exactly when its fields fit. */
  lemma RecordParsed(s: Store, e: Entry, rest: Bytes)
    requires Exportable(s, e) && Storables(s, P2pHash(e.value), Field(s.pkg, P2pHash(e.value))[25..])
    ensures var r := ParsePackage(PackageRecord(s, e) + rest);
            if Fits(s, e) then r == Ok(Parsed(Recorded(s, e), rest)) else r.Err?
  {
    hide ParseFields, RecordFields, Take, Field, FromBE;
    var h := P2pHash(e.value);
    var pv := Field(s.pkg, h);
    var fields := RecordFields(s, h, pv[25..]);
    TakeThen([0], h + (pv[1..9] + (pv[21..25] + fields)), rest);
    TakeThen(h, pv[1..9] + (pv[21..25] + fields), rest);
    TakeThen(pv[1..9], pv[21..25] + fields, rest);
    TakeThen(pv[21..25], fields, rest);
    FieldsParsed(s, h, FromBE(pv[1..9]), FromBE(pv[21..25]), pv[25..], rest);
  }

  // ----- The packages

  /** An index entry as it comes back: the inode count cut to 32 bits. */
  function Cut(e: Entry): Entry
    requires IsP2pValue(e.value)
  {
    Entry(e.key, P2pValue(P2pHash(e.value), FromBE(e.value[36..40]), P2pName(e.value)))
  }

  lemma CutSame(e: Entry)
    requires IsP2pValue(e.value)
    ensures Cut(e) == e <==> P2pInodes(e.value) < TWO32
  {
    hide BE, FromBE;
    var b, lo := e.value[32..40], e.value[36..40];
    assert lo == b[4..];
    SmallCount(b);
    assert e.value == e.value[..32] + b + e.value[40..];
    assert Cut(e).value[32..40] == BE(FromBE(lo), 8);
  }

  /** The low half of a 64-bit count carries all of it exactly when the count fits 32 bits. */
  lemma SmallCount(b: Bytes)
    requires |b| == 8
    ensures BE(FromBE(b[4..]), 8) == b <==> FromBE(b) < TWO32
  {
    hide BE, FromBE;
    var lo := b[4..];
    FromBERoundTrip(b);
    FromBERoundTrip(lo);
    Widths();
    BE8(FromBE(lo));
    if FromBE(b) < TWO32 {
      LowHalf(FromBE(b), 4, 4);
      BE4(FromBE(b));
    }
  }

  function CutAll(es: seq<Entry>): seq<Entry>
    requires forall e | e in es :: IsP2pValue(e.value)
  {
    seq(|es|, i requires 0 <= i < |es| => Cut(es[i]))
  }

  ghost predicate IndexedHash(es: seq<Entry>, h: Bytes) {
    exists e :: e in es && IsP2pValue(e.value) && P2pHash(e.value) == h
  }

  /** Of table `b` the reader has restored exactly the entries of the given packages. */
  ghost predicate Restored(b: Bucket, b': Bucket, es: seq<Entry>) {
    forall h :: Get(b', h) == if IndexedHash(es, h) then Get(b, h) else None
  }

  /** The tables after the records of `es` have been indexed into an empty database. */
  ghost predicate Partial(s: Store, es: seq<Entry>, t: Store) {
    && (forall e | e in es :: IsP2pValue(e.value))
    && t.p2p == CutAll(es) && t.pins == []
    && Restored(s.header, t.header, es) && Restored(s.sig, t.sig, es)
    && Restored(s.meta, t.meta, es) && Restored(s.path, t.path, es)
    && (forall h :: Get(t.pkg, h).Some? <==> IndexedHash(es, h))
    && (forall e | e in es && P2pInodes(e.value) < TWO32 ::
          Get(t.pkg, P2pHash(e.value)) == Get(s.pkg, P2pHash(e.value)))
  }

  lemma RestoredPut(b: Bucket, b': Bucket, es: seq<Entry>, e: Entry, v: Bytes)
    requires Restored(b, b', es) && IsP2pValue(e.value) && Get(b, P2pHash(e.value)) == Some(v)
    ensures Restored(b, Put(b', P2pHash(e.value), v), es + [e])
  {
    hide Get, Put;
    var h := P2pHash(e.value);
    forall k
      ensures Get(Put(b', h, v), k) == if IndexedHash(es + [e], k) then Get(b, k) else None
    {
      GetPut(b', h, v, k);
      HashAppended(es, e, k);
    }
  }

  lemma HashAppended(es: seq<Entry>, e: Entry, k: Bytes)
    requires IsP2pValue(e.value)
    ensures IndexedHash(es + [e], k) <==> IndexedHash(es, k) || k == P2pHash(e.value)
  {
    assert e in es + [e];
    if IndexedHash(es, k) {
      var f :| f in es && IsP2pValue(f.value) && P2pHash(f.value) == k;
      assert f in es + [e];
    }
  }

  /** The stored `pkg` value is written back unchanged for a 32-bit inode count. */
  lemma PkgWritten(pv: Bytes, e: Entry)
    requires IsP2pValue(e.value) && PkgValueFor(pv, e.value) && P2pInodes(e.value) < TWO32
    ensures PkgValue(FromBE(pv[1..9]), FromBE(pv[21..25]), pv[25..]) == pv
  {
    hide BE, FromBE;
    assert pv[21..25] == pv[17..25][4..];
    SmallCount(pv[17..25]);
    FromBERoundTrip(pv[1..9]);
    assert pv == [pv[0]] + pv[1..9] + pv[9..17] + pv[17..25] + pv[25..];
  }

  /** What storing a record adds. */
  lemma StoredPartial(s: Store, es: seq<Entry>, e: Entry, t: Store)
    requires Good(s) && es + [e] <= s.p2p && Exportable(s, e) && Partial(s, es, t)
    ensures Get(t.pkg, P2pHash(e.value)).None? && Accepted(Recorded(s, e))
    ensures Partial(s, es + [e], Stored(t, Recorded(s, e)))
  {
    hide Good, Partial, Accepted, Stored;
    PartialFresh(s, es, e, t);
    PartialAccepted(s, es, e);
    PartialIndex(s, es, e, t);
    PartialTables(s, es, e, t);
    PartialPkg(s, es, e, t);
    PartialJoin(s, es, e, t);
  }

  lemma LastOf(s: Store, es: seq<Entry>, e: Entry)
    requires Good(s) && es + [e] <= s.p2p
    ensures e in s.p2p && Backed(s, e) && s.p2p[|es|] == e
    ensures forall f | f in es :: f in s.p2p && Backed(s, f)
    ensures forall i | 0 <= i < |es| :: es[i] == s.p2p[i]
  {
    assert (es + [e])[|es|] == e;
    assert forall i | 0 <= i < |es| :: (es + [e])[i] == es[i];
  }

  lemma PartialFresh(s: Store, es: seq<Entry>, e: Entry, t: Store)
    requires Good(s) && es + [e] <= s.p2p && Partial(s, es, t)
    ensures IsP2pValue(e.value) && !IndexedHash(es, P2pHash(e.value)) && Get(t.pkg, P2pHash(e.value)).None?
  {
    hide Get, Restored, Backed;
    LastOf(s, es, e);
    assert IsP2pValue(e.value) by { BackedShape(s, e); }
    if IndexedHash(es, P2pHash(e.value)) {
      var f :| f in es && IsP2pValue(f.value) && P2pHash(f.value) == P2pHash(e.value);
      var i :| 0 <= i < |es| && es[i] == f;
      assert f == e;
      LexTotal(s.p2p[i].key, s.p2p[|es|].key);
    }
  }

  lemma BackedShape(s: Store, e: Entry)
    requires Backed(s, e)
    ensures IsP2pValue(e.value) && e.key == Collated(P2pName(e.value)) && Exportable(s, e)
    ensures PkgValueFor(Field(s.pkg, P2pHash(e.value)), e.value)
  {
  }

  lemma StoredField(b: Bucket, h: Bytes)
    requires AllStorable(b) && Get(b, h).Some?
    ensures Storable(h, Field(b, h)) && Get(b, h) == Some(Field(b, h))
  {
    GetStored(b, h, Get(b, h).value);
  }

  lemma PartialAccepted(s: Store, es: seq<Entry>, e: Entry)
    requires Good(s) && es + [e] <= s.p2p && Exportable(s, e)
    ensures Accepted(Recorded(s, e))
  {
    hide Get, Field, Collated;
    LastOf(s, es, e);
    var h := P2pHash(e.value);
    StoredField(s.pkg, h);
    StoredField(s.header, h);
    StoredField(s.sig, h);
    StoredField(s.meta, h);
    StoredField(s.path, h);
    BackedShape(s, e);
    assert Storable(e.key, e.value);
  }

  lemma RecordedCut(s: Store, e: Entry)
    requires Backed(s, e) && Exportable(s, e)
    ensures var p := Recorded(s, e);
            Entry(Collated(p.name), P2pValue(p.hash, p.inodes, p.name)) == Cut(e)
  {
    hide Get, Collated, FromBE;
    BackedShape(s, e);
    var pv := Field(s.pkg, P2pHash(e.value));
    assert pv[21..25] == pv[17..25][4..] && e.value[36..40] == e.value[32..40][4..];
  }

  lemma PartialIndex(s: Store, es: seq<Entry>, e: Entry, t: Store)
    requires Good(s) && es + [e] <= s.p2p && Exportable(s, e) && Partial(s, es, t)
    ensures forall f | f in es + [e] :: IsP2pValue(f.value)
    ensures Stored(t, Recorded(s, e)).p2p == CutAll(es + [e])
  {
    hide Get, Put, Restored, Collated, Recorded, P2pValue, LexLess;
    LastOf(s, es, e);
    BackedShape(s, e);
    RecordedCut(s, e);
    forall i | 0 <= i < |t.p2p|
      ensures LexLess(t.p2p[i].key, e.key)
    {
      assert t.p2p[i] == Cut(es[i]) && es[i] == s.p2p[i];
    }
    PutLast(t.p2p, e.key, Cut(e).value);
    CutAppend(es, e);
  }

  lemma CutAppend(es: seq<Entry>, e: Entry)
    requires (forall f | f in es :: IsP2pValue(f.value)) && IsP2pValue(e.value)
    ensures forall f | f in es + [e] :: IsP2pValue(f.value)
    ensures CutAll(es + [e]) == CutAll(es) + [Cut(e)]
  {
    hide Cut;
    assert forall f | f in es + [e] :: f in es || f == e;
  }

  lemma PartialTables(s: Store, es: seq<Entry>, e: Entry, t: Store)
    requires Good(s) && es + [e] <= s.p2p && Exportable(s, e) && Partial(s, es, t)
    ensures var t' := Stored(t, Recorded(s, e));
            && Restored(s.header, t'.header, es + [e]) && Restored(s.sig, t'.sig, es + [e])
            && Restored(s.meta, t'.meta, es + [e]) && Restored(s.path, t'.path, es + [e])
            && t'.pins == []
  {
    hide Get, Put, Restored, Collated, FromBE, Field, PkgValue;
    LastOf(s, es, e);
    var h := P2pHash(e.value);
    StoredField(s.header, h);
    StoredField(s.sig, h);
    StoredField(s.meta, h);
    StoredField(s.path, h);
    RestoredPut(s.header, t.header, es, e, Field(s.header, h));
    RestoredPut(s.sig, t.sig, es, e, Field(s.sig, h));
    RestoredPut(s.meta, t.meta, es, e, Field(s.meta, h));
    RestoredPut(s.path, t.path, es, e, Field(s.path, h));
  }

  lemma PartialPkg(s: Store, es: seq<Entry>, e: Entry, t: Store)
    requires Good(s) && es + [e] <= s.p2p && Exportable(s, e) && Partial(s, es, t)
    requires !IndexedHash(es, P2pHash(e.value))
    ensures var t' := Stored(t, Recorded(s, e));
            && (forall h :: Get(t'.pkg, h).Some? <==> IndexedHash(es + [e], h))
            && (forall f | f in es + [e] && IsP2pValue(f.value) && P2pInodes(f.value) < TWO32 ::
                  Get(t'.pkg, P2pHash(f.value)) == Get(s.pkg, P2pHash(f.value)))
  {
    hide Get, Put, Restored, Collated, FromBE, CutAll, IndexedHash;
    LastOf(s, es, e);
    BackedShape(s, e);
    var h, p := P2pHash(e.value), Recorded(s, e);
    var pv := PkgValue(p.size, p.inodes, p.name);
    StoredField(s.pkg, h);
    forall k
      ensures Get(Put(t.pkg, h, pv), k).Some? <==> IndexedHash(es + [e], k)
    {
      GetPut(t.pkg, h, pv, k);
      HashAppended(es, e, k);
    }
    forall f | f in es + [e] && IsP2pValue(f.value) && P2pInodes(f.value) < TWO32
      ensures Get(Put(t.pkg, h, pv), P2pHash(f.value)) == Get(s.pkg, P2pHash(f.value))
    {
      GetPut(t.pkg, h, pv, P2pHash(f.value));
      if f in es {
        MemberHash(es, f);
      } else {
        PkgWritten(Field(s.pkg, h), e);
      }
    }
  }

  lemma MemberHash(es: seq<Entry>, f: Entry)
    requires f in es && IsP2pValue(f.value)
    ensures IndexedHash(es, P2pHash(f.value))
  {
  }

  lemma PartialJoin(s: Store, es: seq<Entry>, e: Entry, t: Store)
    requires Exportable(s, e)
    requires var t' := Stored(t, Recorded(s, e));
             && (forall f | f in es + [e] :: IsP2pValue(f.value))
             && t'.p2p == CutAll(es + [e]) && t'.pins == []
             && Restored(s.header, t'.header, es + [e]) && Restored(s.sig, t'.sig, es + [e])
             && Restored(s.meta, t'.meta, es + [e]) && Restored(s.path, t'.path, es + [e])
             && (forall h :: Get(t'.pkg, h).Some? <==> IndexedHash(es + [e], h))
             && (forall f | f in es + [e] && IsP2pValue(f.value) && P2pInodes(f.value) < TWO32 ::
                   Get(t'.pkg, P2pHash(f.value)) == Get(s.pkg, P2pHash(f.value)))
    ensures Partial(s, es + [e], Stored(t, Recorded(s, e)))
  {
  }

  /** The records of the entries `later`, read after those of the entries `done`. */
  lemma {:induction false} PackagesRead(s: Store, done: seq<Entry>, later: seq<Entry>, t: Store, tail: Bytes)
    requires Good(s) && done + later == s.p2p && Partial(s, done, t) && AllExportable(s, later)
    ensures var r := IndexPackages(t, PackageRecords(s, later) + tail, |later|);
            if AllFitting(s, later)
            then r.Ok? && r.value.rest == tail && Partial(s, s.p2p, r.value.value)
            else r.Err?
    decreases |later|
  {
    hide Good, Partial, Exportable, AllExportable, AllFitting, PackageRecords, IndexPackages, Stored;
    if later == [] {
      NoRecords(s, t, tail);
      assert done == s.p2p;
    } else {
      var e, es := later[0], later[1..];
      assert later == [e] + es;
      Assoc(done, [e], es);
      assert s.p2p[|done|] == e;
      FirstOf(s, e, es);
      StoredPartial(s, done, e, t);
      PackageStep(s, e, es, t, tail);
      MergedFresh(t, Recorded(s, e));
      RecordedHash(s, e);
      if Fits(s, e) {
        PackagesRead(s, done + [e], es, Stored(t, Recorded(s, e)), tail);
      }
    }
  }

  lemma NoRecords(s: Store, t: Store, tail: Bytes)
    ensures AllExportable(s, []) && AllFitting(s, [])
    ensures IndexPackages(t, PackageRecords(s, []) + tail, 0) == Ok(Parsed(t, tail))
  {
    assert PackageRecords(s, []) + tail == tail;
  }

  lemma FirstOf(s: Store, e: Entry, es: seq<Entry>)
    requires AllExportable(s, [e] + es)
    ensures Exportable(s, e) && AllExportable(s, es)
    ensures AllFitting(s, [e] + es) <==> Fits(s, e) && AllFitting(s, es)
  {
    hide Exportable, Fits;
    assert ([e] + es)[0] == e;
    assert forall f | f in es :: f in [e] + es;
    assert forall f | f in [e] + es :: f == e || f in es;
  }

  lemma MergedFresh(t: Store, p: Package)
    requires Get(t.pkg, p.hash).None? && Accepted(p)
    ensures Merged(t, p) == Ok(Stored(t, p))
  {
  }

  /** What reading one record does to any database. */
  lemma PackageStep(s: Store, e: Entry, es: seq<Entry>, t: Store, tail: Bytes)
    requires Good(s) && e in s.p2p && AllExportable(s, [e] + es) && Exportable(s, e) && AllExportable(s, es)
    requires Accepted(Recorded(s, e))
    ensures Merged(t, Recorded(s, e)).Ok?
    ensures var r := IndexPackages(t, PackageRecords(s, [e] + es) + tail, |es| + 1);
            if Fits(s, e)
            then r == IndexPackages(Merged(t, Recorded(s, e)).value, PackageRecords(s, es) + tail, |es|)
            else r.Err?
  {
    hide Good, Exportable, AllExportable, Fits, ParsePackage, PackageRecord, Recorded, Stored, Accepted, Get;
    assert ([e] + es)[0] == e && ([e] + es)[1..] == es;
    Assoc(PackageRecord(s, e), PackageRecords(s, es), tail);
    EntryStorables(s, e);
    RecordParsed(s, e, PackageRecords(s, es) + tail);
  }

  lemma RecordedHash(s: Store, e: Entry)
    requires Exportable(s, e)
    ensures Recorded(s, e).hash == P2pHash(e.value)
  {
  }

  lemma EntryStorables(s: Store, e: Entry)
    requires Good(s) && e in s.p2p && Exportable(s, e)
    ensures Storables(s, P2pHash(e.value), Field(s.pkg, P2pHash(e.value))[25..])
  {
    hide Get, Field, PkgValueFor;
    assert Backed(s, e);
    var h := P2pHash(e.value);
    StoredField(s.pkg, h);
    StoredField(s.header, h);
    StoredField(s.sig, h);
    StoredField(s.meta, h);
    StoredField(s.path, h);
  }

  // ----- The pins

  lemma PinRecordParsed(e: Entry, rest: Bytes)
    requires NUL in e.key && |e.key| < Varblob.TWO64 && |e.value| < Varblob.TWO64
    ensures var i := IndexNul(e.key);
            var r := ParsePin(PinRecord(e) + rest);
            i < |e.key|
            && if PinFits(e) then r == Ok(Parsed(Pin(e.key[..i], e.key[i + 1..], e.value), rest)) else r.Err?
  {
    hide ParseBlob, Blob, IndexNul;
    var i := IndexNul(e.key);
    assert e.key[..|e.key|] == e.key;
    var ch, pfx := e.key[..i], e.key[i + 1..];
    TakeThen([1], Blob(ch) + (Blob(pfx) + Blob(e.value)), rest);
    BlobThen(ch, Blob(pfx) + Blob(e.value), rest, MAX_FIELD);
    BlobThen(pfx, Blob(e.value), rest, MAX_FIELD);
    BlobRoundTrip(e.value, rest, MAX_FIELD);
  }

  lemma SplitKey(k: Bytes)
    requires NUL in k
    ensures var i := IndexNul(k); i < |k| && PinKey(k[..i], k[i + 1..]) == k
  {
    NulFound(k);
    SplitAt(k, IndexNul(k));
  }

  lemma NulFound(k: Bytes)
    requires NUL in k
    ensures IndexNul(k) < |k|
  {
    hide IndexNul;
    assert k[..|k|] == k;
  }

  lemma SplitAt(k: Bytes, i: nat)
    requires i < |k| && k[i] == NUL
    ensures PinKey(k[..i], k[i + 1..]) == k
  {
  }

  /** What one pin record does to the bucket. */
  lemma PinStep(pins: Bucket, e: Entry, rest: Bytes)
    requires NUL in e.key && Storable(e.key, e.value)
    ensures var r := IndexPins(pins, PinRecord(e) + rest);
            if PinFits(e) then r == IndexPins(Put(pins, e.key, e.value), rest) else r.Err?
  {
    hide ParsePin, PinFits, Put, PinKey;
    PinRecordParsed(e, rest);
    SplitKey(e.key);
    assert PinRecord(e)[0] == 1;
  }

  lemma {:induction false} PinsRead(pins: Bucket, i: nat)
    requires AllStorable(pins) && PinShaped(pins) && i <= |pins|
    ensures var r := IndexPins(pins[..i], PinRecords(pins[i..]));
            if forall e | e in pins[i..] :: PinFits(e) then r == Ok(pins) else r.Err?
    decreases |pins| - i
  {
    hide PinFits, PinRecord, PinRecords, IndexPins, Put, Storable;
    if i == |pins| {
      NoPins(pins);
      assert pins[..i] == pins && pins[i..] == [];
    } else {
      var e, es := pins[i], pins[i + 1..];
      assert pins[i..] == [e] + es && pins[..i] + [e] == pins[..i + 1];
      assert e in pins;
      FirstPin(e, es);
      PinStep(pins[..i], e, PinRecords(es));
      PutLast(pins[..i], e.key, e.value);
      PinsRead(pins, i + 1);
    }
  }

  lemma NoPins(pins: Bucket)
    ensures IndexPins(pins, PinRecords([])) == Ok(pins)
  {
  }

  lemma FirstPin(e: Entry, es: seq<Entry>)
    ensures PinRecords([e] + es) == PinRecord(e) + PinRecords(es)
    ensures (forall f | f in [e] + es :: PinFits(f)) <==> PinFits(e) && forall f | f in es :: PinFits(f)
  {
    hide PinFits, PinRecord;
    assert ([e] + es)[0] == e && ([e] + es)[1..] == es;
    assert forall f | f in es :: f in [e] + es;
  }

  lemma {:induction false} PinsReread(pins: Bucket, i: nat)
    requires AllStorable(pins) && PinShaped(pins) && i <= |pins|
    requires forall e | e in pins :: PinFits(e)
    ensures IndexPins(pins, PinRecords(pins[i..])) == Ok(pins)
    decreases |pins| - i
  {
    hide PinFits, PinRecord, Put, Storable, Get;
    if i < |pins| {
      var e, es := pins[i], pins[i..];
      assert es[0] == e && es[1..] == pins[i + 1..];
      PinStep(pins, e, PinRecords(es[1..]));
      GetStored(pins, e.key, e.value);
      PutSame(pins, e.key, e.value);
      PinsReread(pins, i + 1);
    }
  }

  // ----- Export, then index

  lemma EmptyPartial(s: Store)
    ensures Partial(s, [], EMPTY_STORE)
  {
  }

  /** The exported data section is readable exactly when every field and pin
      fits the reader's limits. */
  lemma ExportReadable(s: Store)
    requires Good(s)
    ensures AllExportable(s, s.p2p)
    ensures IndexData(EMPTY_STORE, ExportData(s), |s.p2p|).Ok? <==> AllFit(s)
    ensures AllFit(s) ==>
              IndexData(EMPTY_STORE, ExportData(s), |s.p2p|).value.pins == s.pins
              && Partial(s, s.p2p, IndexData(EMPTY_STORE, ExportData(s), |s.p2p|).value.(pins := []))
  {
    GoodExportable(s);
    hide Good, Exportable, PackageRecords, PinRecords, IndexPackages, IndexPins, Fits, PinFits, Partial;
    AllPackagesRead(s);
    AllPinsRead(s);
    if IndexPackages(EMPTY_STORE, ExportData(s), |s.p2p|).Ok? {
      PartialNoPins(s, IndexPackages(EMPTY_STORE, ExportData(s), |s.p2p|).value.value);
    }
  }

  lemma DataParts(s: Store)
    requires AllExportable(s, s.p2p)
    ensures ExportData(s) == PackageRecords(s, s.p2p) + PinRecords(s.pins)
  {
  }

  lemma AllPackagesRead(s: Store)
    requires Good(s)
    ensures AllExportable(s, s.p2p)
    ensures var r := IndexPackages(EMPTY_STORE, ExportData(s), |s.p2p|);
            && r.Ok? == AllFitting(s, s.p2p)
            && (r.Ok? ==> r.value.rest == PinRecords(s.pins) && Partial(s, s.p2p, r.value.value))
  {
    hide *;
    GoodExportable(s);
    EmptyPartial(s);
    assert [] + s.p2p == s.p2p;
    PackagesRead(s, [], s.p2p, EMPTY_STORE, PinRecords(s.pins));
    DataParts(s);
  }

  lemma AllPinsRead(s: Store)
    requires Good(s)
    ensures var r := IndexPins([], PinRecords(s.pins));
            if forall e | e in s.pins :: PinFits(e) then r == Ok(s.pins) else r.Err?
  {
    hide PinRecords, IndexPins, PinFits, Backed, DistinctHashes;
    assert s.pins[..0] == [] && s.pins[0..] == s.pins;
    PinsRead(s.pins, 0);
  }

  lemma PartialNoPins(s: Store, t: Store)
    requires Partial(s, s.p2p, t)
    ensures t.pins == []
    ensures forall pins: Bucket :: Partial(s, s.p2p, t.(pins := pins).(pins := []))
  {
    hide Restored, CutAll, Get;
    forall pins: Bucket
      ensures t.(pins := pins).(pins := []) == t
    {
    }
  }

  /** Every inode count fits the 32 bits of a record. */
  ghost predicate SmallCounts(s: Store) {
    forall e | e in s.p2p && IsP2pValue(e.value) :: P2pInodes(e.value) < TWO32
  }

  lemma CutAllSame(es: seq<Entry>)
    requires forall e | e in es :: IsP2pValue(e.value)
    ensures CutAll(es) == es <==> forall e | e in es :: P2pInodes(e.value) < TWO32
  {
    hide Cut, P2pInodes;
    forall e | e in es
      ensures Cut(e) == e <==> P2pInodes(e.value) < TWO32
    {
      CutSame(e);
    }
    if CutAll(es) == es {
      forall e | e in es
        ensures Cut(e) == e
      {
        var i :| 0 <= i < |es| && es[i] == e;
        assert CutAll(es)[i] == Cut(e);
      }
    }
  }

  /** Indexing a database's export into an empty one gives back the pins and,
      for exactly the indexed packages, the header, signature, metadata and path
      entries; the index itself comes back unchanged exactly when every inode
      count fits 32 bits, and then the package entries do too. */
  lemma ExportRoundTrip(s: Store)
    requires Good(s)
    requires AllExportable(s, s.p2p)
    requires AllFit(s)
    ensures IndexData(EMPTY_STORE, ExportData(s), |s.p2p|).Ok?
    ensures var t := IndexData(EMPTY_STORE, ExportData(s), |s.p2p|).value;
            && t.pins == s.pins
            && Restored(s.header, t.header, s.p2p) && Restored(s.sig, t.sig, s.p2p)
            && Restored(s.meta, t.meta, s.p2p) && Restored(s.path, t.path, s.p2p)
            && (t.p2p == s.p2p <==> SmallCounts(s))
            && (SmallCounts(s) ==> Restored(s.pkg, t.pkg, s.p2p))
  {
    ExportReadable(s);
    hide Exportable, ExportData, IndexData, AllFit, Restored, CutAll;
    var t := IndexData(EMPTY_STORE, ExportData(s), |s.p2p|).value;
    CutAllSame(s.p2p);
    if SmallCounts(s) {
      PkgRestored(s, t.(pins := []));
    }
  }

  lemma PkgRestored(s: Store, t: Store)
    requires Partial(s, s.p2p, t) && SmallCounts(s)
    ensures Restored(s.pkg, t.pkg, s.p2p)
  {
    hide Get;
    forall h
      ensures Get(t.pkg, h) == if IndexedHash(s.p2p, h) then Get(s.pkg, h) else None
    {
      if IndexedHash(s.p2p, h) {
        var e :| e in s.p2p && IsP2pValue(e.value) && P2pHash(e.value) == h;
        assert Get(t.pkg, P2pHash(e.value)) == Get(s.pkg, P2pHash(e.value));
      }
    }
  }

  /** The records of a database can be read into any other one exactly when their fields fit. */
  lemma {:induction false} RecordsRead(s: Store, done: seq<Entry>, later: seq<Entry>, t: Store, tail: Bytes)
    requires Good(s) && done + later == s.p2p && AllExportable(s, later)
    ensures var r := IndexPackages(t, PackageRecords(s, later) + tail, |later|);
            r.Ok? == AllFitting(s, later) && (r.Ok? ==> r.value.rest == tail)
    decreases |later|
  {
    hide *;
    if later == [] {
      NoRecords(s, t, tail);
    } else {
      var e, es := later[0], later[1..];
      assert later == [e] + es;
      Assoc(done, [e], es);
      assert s.p2p[|done|] == e && e in s.p2p;
      FirstOf(s, e, es);
      PartialAccepted(s, done, e);
      PackageStep(s, e, es, t, tail);
      if Fits(s, e) {
        RecordsRead(s, done + [e], es, Merged(t, Recorded(s, e)).value, tail);
      }
    }
  }

  /** And so can its pins. */
  lemma PinsReadAnywhere(s: Store, pins: Bucket)
    requires Good(s)
    ensures IndexPins(pins, PinRecords(s.pins)).Ok? <==> forall e | e in s.pins :: PinFits(e)
  {
    hide IndexPins, PinRecords, PinFits, Good;
    AllPinsRead(s);
    if IndexPins([], PinRecords(s.pins)).Ok? {
      PinsReadable([], pins, PinRecords(s.pins));
    }
    if IndexPins(pins, PinRecords(s.pins)).Ok? {
      PinsReadable(pins, [], PinRecords(s.pins));
    }
  }

  /** Whatever the database it is indexed into, an export can be read exactly
      when every field and pin fits the reader's limits. */
  lemma ExportIndexed(s: Store, t: Store)
    requires Good(s)
    ensures AllExportable(s, s.p2p)
    ensures IndexData(t, ExportData(s), |s.p2p|).Ok? <==> AllFit(s)
  {
    GoodExportable(s);
    hide Good, Exportable, AllExportable, AllFitting, PackageRecords, PinRecords, IndexPackages, IndexPins, PinFits;
    assert [] + s.p2p == s.p2p;
    RecordsRead(s, [], s.p2p, t, PinRecords(s.pins));
    var r := IndexPackages(t, ExportData(s), |s.p2p|);
    if r.Ok? {
      PinsReadAnywhere(s, r.value.value.pins);
    }
  }

  /** Indexing a database's own export never changes it: it fails exactly when
      an empty database could not read the export either, and otherwise finds
      everything there already. */
  lemma OwnExport(s: Store)
    requires Good(s)
    ensures AllExportable(s, s.p2p)
    ensures IndexData(s, ExportData(s), |s.p2p|).Ok? <==> AllFit(s)
    ensures IndexData(s, ExportData(s), |s.p2p|).Ok? <==> IndexData(EMPTY_STORE, ExportData(s), |s.p2p|).Ok?
    ensures Applied(s, Op.Index(ExportData(s), |s.p2p|)) == s
  {
    hide ExportData, IndexData, AllFit, AllExportable, Good;
    ExportIndexed(s, s);
    ExportIndexed(s, EMPTY_STORE);
    if AllFit(s) {
      OwnUnchanged(s);
    }
  }

  lemma OwnUnchanged(s: Store)
    requires Good(s) && AllExportable(s, s.p2p) && AllFit(s)
    ensures IndexData(s, ExportData(s), |s.p2p|) == Ok(s)
  {
    ExportReadable(s);
    hide Good, Exportable, AllExportable, AllFitting, PackageRecords, PinRecords, IndexPackages, IndexPins;
    hide PinFits, Partial;
    var first := IndexPackages(EMPTY_STORE, ExportData(s), |s.p2p|).value;
    assert s.pins[0..] == s.pins;
    AllPackagesRead(s);
    PinsOf(s);
    IndexedKnown(s, first.value);
    PackagesAgain(EMPTY_STORE, ExportData(s), |s.p2p|, s);
    PinsReread(s.pins, 0);
    assert s.(pins := s.pins) == s;
  }

  lemma PinsOf(s: Store)
    requires Good(s)
    ensures AllStorable(s.pins) && PinShaped(s.pins)
  {
  }

  lemma IndexedKnown(s: Store, t: Store)
    requires Good(s) && Partial(s, s.p2p, t)
    ensures KnownIn(t, s)
  {
    hide Get, Restored;
    forall h | Get(t.pkg, h).Some?
      ensures Get(s.pkg, h).Some?
    {
      var e :| e in s.p2p && IsP2pValue(e.value) && P2pHash(e.value) == h;
      assert Backed(s, e);
    }
  }
}

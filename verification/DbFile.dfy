/** Database files: the header, signature space and data section that
    ExportAndUpload (apkgdb/export.go) writes and patches, and that index
    (apkgdb/index.go) checks before it reads the packages. */
module DbFile {
  import opened Bytes
  import opened Codec
  import opened Varblob
  import opened Buckets
  import opened Files
  import opened Signatures
  import opened Database
  import opened Export
  import opened Index

  const HEADER_SIZE := 196
  const NAME_SIZE := 32
  const DATA_START := HEADER_SIZE + Signatures.SIGNATURE_SIZE
  const MAGIC: Bytes := [65, 80, 68, 66]   // "APDB"
  const EMPTY_HASH: Bytes := [
    0xe3, 0xb0, 0xc4, 0x42, 0x98, 0xfc, 0x1c, 0x14, 0x9a, 0xfb, 0xf4, 0xc8, 0x99, 0x6f, 0xb9, 0x24,
    0x27, 0xae, 0x41, 0xe4, 0x64, 0x9b, 0x93, 0x4c, 0xa4, 0x95, 0x99, 0x1b, 0x78, 0x52, 0xb8, 0x55]

  /** What a header says about its database. */
  datatype Info = Info(seconds: nat, nanos: nat, os: nat, arch: nat, name: Bytes)

  // ----- The header: 40 + 4 + 36 + 4 + 32 + 80 bytes

  function Front(i: Info): (b: Bytes)
    ensures |b| == 40
  {
    MAGIC + BE(1, 4) + BE(0, 8) + BE(i.seconds, 8) + BE(i.nanos, 8) + BE(i.os, 4) + BE(i.arch, 4)
  }

  /** make([]byte, 32), then copy: cut or padded with NUL. */
  function NameField(name: Bytes): (b: Bytes)
    ensures |b| == NAME_SIZE
  {
    if |name| >= NAME_SIZE then name[..NAME_SIZE] else name + Zeros(NAME_SIZE - |name|)
  }

  function Middle(i: Info): (b: Bytes)
    ensures |b| == 36
  {
    NameField(i.name) + BE(DATA_START, 4)
  }

  /** Locations and hashes of the two indices, which are not used. */
  function Indices(): (b: Bytes)
    ensures |b| == 80
  {
    BE(0, 4) + BE(0, 4) + EMPTY_HASH + BE(0, 4) + BE(0, 4) + EMPTY_HASH
  }

  function Header(i: Info, count: nat, len: nat, hash: Bytes): Bytes {
    Front(i) + (BE(count, 4) + (Middle(i) + (BE(len, 4) + (hash + Indices()))))
  }

  /** A whole file: header, 99 bytes for the signature, data. */
  function Layout(i: Info, count: nat, len: nat, hash: Bytes, sig: Bytes, data: Bytes): Bytes {
    Front(i) + (BE(count, 4) + (Middle(i) + (BE(len, 4) + (hash + (Indices() + (sig + data))))))
  }

  lemma LayoutParts(i: Info, count: nat, len: nat, hash: Bytes, sig: Bytes, data: Bytes)
    requires |hash| == 32
    ensures |Header(i, count, len, hash)| == HEADER_SIZE
    ensures Layout(i, count, len, hash, sig, data) == Header(i, count, len, hash) + (sig + data)
  {
    hide Front, Middle, Indices;
    var x := sig + data;
    Assoc(hash, Indices(), x);
    Assoc(BE(len, 4), hash + Indices(), x);
    Assoc(Middle(i), BE(len, 4) + (hash + Indices()), x);
    Assoc(BE(count, 4), Middle(i) + (BE(len, 4) + (hash + Indices())), x);
    Assoc(Front(i), BE(count, 4) + (Middle(i) + (BE(len, 4) + (hash + Indices()))), x);
  }

  function Padded(sig: Bytes): (b: Bytes)
    requires |sig| <= Signatures.SIGNATURE_SIZE
    ensures |b| == Signatures.SIGNATURE_SIZE
  {
    sig + Zeros(Signatures.SIGNATURE_SIZE - |sig|)
  }

  // ----- The writer

  /** The final header: package count, data length and data hash are in place. */
  function FinalHeader(i: Info, s: Store, sha: Digest): Bytes
    requires AllExportable(s, s.p2p)
  {
    Header(i, |s.p2p| % TWO32, |ExportData(s)| % TWO32, sha(ExportData(s)))
  }

  /** The file a successful export leaves. */
  function Exported(i: Info, s: Store, sha: Digest, sig: Bytes): Bytes
    requires AllExportable(s, s.p2p) && |sig| <= Signatures.SIGNATURE_SIZE
  {
    FinalHeader(i, s, sha) + (Padded(sig) + ExportData(s))
  }

  /** One write at the end of the file, after `done` has been appended to `base`. */
  method Append(f: File, b: Bytes, ghost base: Bytes, ghost done: Bytes)
    requires f.data == base + done && f.pos == |f.data|
    modifies f
    ensures f.data == base + (done + b) && f.pos == |f.data|
  {
    OverwriteEnd(f.data, b);
    Assoc(base, done, b);
    f.Write(b);
  }

  method WriteFront(f: File, i: Info)
    requires f.data == [] && f.pos == 0
    modifies f
    ensures f.data == Front(i) && f.pos == 40
  {
    hide BE, Overwrite;
    Append(f, MAGIC, [], []);
    Append(f, BE(1, 4), [], MAGIC);
    Append(f, BE(0, 8), [], MAGIC + BE(1, 4));
    Append(f, BE(i.seconds, 8), [], MAGIC + BE(1, 4) + BE(0, 8));
    Append(f, BE(i.nanos, 8), [], MAGIC + BE(1, 4) + BE(0, 8) + BE(i.seconds, 8));
    Append(f, BE(i.os, 4), [], MAGIC + BE(1, 4) + BE(0, 8) + BE(i.seconds, 8) + BE(i.nanos, 8));
    Append(f, BE(i.arch, 4), [], MAGIC + BE(1, 4) + BE(0, 8) + BE(i.seconds, 8) + BE(i.nanos, 8) + BE(i.os, 4));
  }

  method WriteMiddle(f: File, i: Info)
    requires f.pos == |f.data|
    modifies f
    ensures f.data == old(f.data) + Middle(i) && f.pos == |f.data|
  {
    hide BE, Overwrite, NameField;
    ghost var base := f.data;
    Append(f, NameField(i.name), base, []);
    Append(f, BE(DATA_START, 4), base, NameField(i.name));
  }

  method WriteIndices(f: File)
    requires f.pos == |f.data|
    modifies f
    ensures f.data == old(f.data) + Indices() && f.pos == |f.data|
  {
    hide BE, Overwrite;
    ghost var base := f.data;
    Append(f, BE(0, 4), base, []);
    Append(f, BE(0, 4), base, BE(0, 4));
    Append(f, EMPTY_HASH, base, BE(0, 4) + BE(0, 4));
    Append(f, BE(0, 4), base, BE(0, 4) + BE(0, 4) + EMPTY_HASH);
    Append(f, BE(0, 4), base, BE(0, 4) + BE(0, 4) + EMPTY_HASH + BE(0, 4));
    Append(f, EMPTY_HASH, base, BE(0, 4) + BE(0, 4) + EMPTY_HASH + BE(0, 4) + BE(0, 4));
  }

  /** The provisional header, with zero for what is not known yet. */
  method WriteHeader(f: File, i: Info)
    requires f.data == [] && f.pos == 0
    modifies f
    ensures f.data == Header(i, 0, 0, EMPTY_HASH) && f.pos == |f.data| == HEADER_SIZE
  {
    hide BE, Overwrite, Front, Middle, Indices;
    WriteFront(f, i);
    Append(f, BE(0, 4), Front(i), []);
    WriteMiddle(f, i);
    ghost var base := f.data;
    Append(f, BE(0, 4), base, []);
    Append(f, EMPTY_HASH, base, BE(0, 4));
    WriteIndices(f);
    Grouped(Front(i), BE(0, 4), Middle(i), BE(0, 4), EMPTY_HASH, Indices());
  }

  lemma Grouped(a: Bytes, b: Bytes, c: Bytes, d: Bytes, e: Bytes, g: Bytes)
    ensures a + ([] + b) + c + ([] + d + e) + g == a + (b + (c + (d + (e + g))))
  {
    assert [] + b == b && [] + d == d;
    Assoc(a + b + c, d + e, g);
    Assoc(d, e, g);
    Assoc(a + b, c, d + (e + g));
    Assoc(a, b, c + (d + (e + g)));
  }

  /** Seek(40) and the package count. */
  method PatchCount(f: File, i: Info, count: nat,
                    ghost len: nat, ghost hash: Bytes, ghost sig: Bytes, ghost data: Bytes)
    requires f.data == Layout(i, 0, len, hash, sig, data)
    modifies f
    ensures f.data == Layout(i, count, len, hash, sig, data)
  {
    hide BE, Overwrite, Front, Middle, Indices;
    f.Seek(40);
    ghost var rest := Middle(i) + (BE(len, 4) + (hash + (Indices() + (sig + data))));
    OverwriteAfter(Front(i), BE(0, 4) + rest, 0, BE(count, 4));
    OverwriteStart(BE(0, 4), rest, BE(count, 4));
    f.Write(BE(count, 4));
  }

  /** Seek(76), reading back where the data starts, and the data's length and hash. */
  method PatchData(f: File, i: Info, end: nat, hash: Bytes, ghost count: nat, ghost sig: Bytes, ghost data: Bytes)
    requires f.data == Layout(i, count, 0, EMPTY_HASH, sig, data) && |hash| == 32 && end >= DATA_START
    modifies f
    ensures f.data == Layout(i, count, (end - DATA_START) % TWO32, hash, sig, data)
  {
    hide BE, FromBE, Overwrite, Front, Middle, Indices;
    f.Seek(76);
    ghost var x := Indices() + (sig + data);
    StartRead(i, BE(count, 4), BE(0, 4) + (EMPTY_HASH + x));
    var b := f.Read(4);
    var start := FromBE(b.value);
    var len := (end % TWO32 - start) % TWO32;
    WrappedLength(end);
    PatchAt80(i, BE(count, 4), BE(0, 4), EMPTY_HASH + x, BE(len, 4));
    f.Write(BE(len, 4));
    PatchAt84(i, BE(count, 4), BE(len, 4), EMPTY_HASH, x, hash);
    f.Write(hash);
  }

  lemma WrappedLength(end: nat)
    requires end >= DATA_START
    ensures (end % TWO32 - DATA_START) % TWO32 == (end - DATA_START) % TWO32
  {
    var q := end / TWO32;
    assert end == q * TWO32 + end % TWO32;
    assert end - DATA_START == q * TWO32 + (end % TWO32 - DATA_START);
  }

  lemma StartRead(i: Info, c: Bytes, rest: Bytes)
    requires |c| == 4
    ensures Window(Front(i) + (c + (Middle(i) + rest)), 76, 4) == Some(BE(DATA_START, 4))
    ensures FromBE(BE(DATA_START, 4)) == DATA_START
  {
    hide BE, FromBE, Front, NameField;
    BE4(DATA_START);
    Assoc(NameField(i.name), BE(DATA_START, 4), rest);
    SliceMiddle(NameField(i.name), BE(DATA_START, 4), rest);
    SliceLater(c, Middle(i) + rest, 32, 36);
    SliceLater(Front(i), c + (Middle(i) + rest), 36, 40);
  }

  lemma PatchAt80(i: Info, c: Bytes, was: Bytes, rest: Bytes, b: Bytes)
    requires |c| == |was| == |b| == 4
    ensures Overwrite(Front(i) + (c + (Middle(i) + (was + rest))), 80, b) == Front(i) + (c + (Middle(i) + (b + rest)))
  {
    hide Overwrite, Front, Middle;
    OverwriteStart(was, rest, b);
    OverwriteAfter(Middle(i), was + rest, 0, b);
    OverwriteAfter(c, Middle(i) + (was + rest), 36, b);
    OverwriteAfter(Front(i), c + (Middle(i) + (was + rest)), 40, b);
  }

  lemma PatchAt84(i: Info, c: Bytes, l: Bytes, was: Bytes, rest: Bytes, b: Bytes)
    requires |c| == |l| == 4 && |was| == |b| == 32
    ensures Overwrite(Front(i) + (c + (Middle(i) + (l + (was + rest)))), 84, b)
         == Front(i) + (c + (Middle(i) + (l + (b + rest))))
  {
    hide Overwrite, Front, Middle;
    OverwriteStart(was, rest, b);
    OverwriteAfter(l, was + rest, 0, b);
    OverwriteAfter(Middle(i), l + (was + rest), 4, b);
    OverwriteAfter(c, Middle(i) + (l + (was + rest)), 40, b);
    OverwriteAfter(Front(i), c + (Middle(i) + (l + (was + rest))), 44, b);
  }

  /** Seek(196) and the signature, over the space reserved for it. */
  method PatchSignature(f: File, sig: Bytes, ghost header: Bytes, ghost data: Bytes)
    requires |header| == HEADER_SIZE && |sig| <= Signatures.SIGNATURE_SIZE
    requires f.data == header + (Zeros(Signatures.SIGNATURE_SIZE) + data)
    modifies f
    ensures f.data == header + (Padded(sig) + data)
  {
    hide Overwrite;
    f.Seek(HEADER_SIZE);
    ghost var z := Zeros(Signatures.SIGNATURE_SIZE - |sig|);
    assert Zeros(Signatures.SIGNATURE_SIZE) == Zeros(|sig|) + z;
    Assoc(Zeros(|sig|), z, data);
    Assoc(sig, z, data);
    OverwriteAfter(header, Zeros(Signatures.SIGNATURE_SIZE) + data, 0, sig);
    OverwriteStart(Zeros(|sig|), z + data, sig);
    f.Write(sig);
  }

  /** ExportAndUpload up to the closing of the file. It succeeds exactly when the
      signature can be made and verifies; then the file is the final header,
      the signature and the data, as if written in one go. */
  method ExportFile(i: Info, s: Store, sha: Digest, k: Key, t: Trust) returns (ok: bool, f: File)
    requires IsDigest(sha) && AllExportable(s, s.p2p)
    ensures fresh(f)
    ensures var header := FinalHeader(i, s, sha);
            var sig := Signed(k, header);
            && ok == (sig.Some? && Signer(t, header, sig.value).Some?)
            && (ok ==> |sig.value| <= Signatures.SIGNATURE_SIZE && f.data == Exported(i, s, sha, sig.value))
  {
    hide Header, Layout, ExportData, Exportable, Overwrite, Signer, Signature, BE, Zeros;
    f := new File([]);
    WriteHeader(f, i);
    ghost var header := f.data;
    Append(f, Zeros(Signatures.SIGNATURE_SIZE), header, []);
    var w, count := WriteData(s);
    Append(f, w, header, [] + Zeros(Signatures.SIGNATURE_SIZE));
    var end, hash := f.pos, sha(w);
    Reserved(i, w);
    PatchCount(f, i, count, 0, EMPTY_HASH, Zeros(Signatures.SIGNATURE_SIZE), w);
    PatchData(f, i, end, hash, count, Zeros(Signatures.SIGNATURE_SIZE), w);
    LayoutParts(i, count, |w| % TWO32, hash, Zeros(Signatures.SIGNATURE_SIZE), w);
    var signed := f.ReadAt(HEADER_SIZE, 0);
    assert signed == Some(FinalHeader(i, s, sha));
    var sig := Sign(k, signed.value);
    if sig.None? {
      return false, f;
    }
    var r := new Reader(sig.value);
    var signer := Verify(t, signed.value, r);
    if signer.None? {
      return false, f;
    }
    PatchSignature(f, sig.value, signed.value, w);
    ok := true;
  }

  lemma Reserved(i: Info, w: Bytes)
    ensures Header(i, 0, 0, EMPTY_HASH) + ([] + Zeros(Signatures.SIGNATURE_SIZE) + w)
         == Layout(i, 0, 0, EMPTY_HASH, Zeros(Signatures.SIGNATURE_SIZE), w)
  {
    hide Header, Layout;
    assert [] + Zeros(Signatures.SIGNATURE_SIZE) == Zeros(Signatures.SIGNATURE_SIZE);
    LayoutParts(i, 0, 0, EMPTY_HASH, Zeros(Signatures.SIGNATURE_SIZE), w);
  }

  // ----- The reader

  /** What index takes from the file: the number of packages and the data section. */
  datatype Section = Section(count: nat, data: Bytes)

  /** The stored name ends at its first NUL. */
  function NameRead(field: Bytes): Bytes {
    field[..IndexNul(field)]
  }

  /** The checks of index before it opens its transaction. */
  function Opened(sha: Digest, t: Trust, name: Bytes, file: Bytes): Option<Section> {
    if |file| < HEADER_SIZE || file[..4] != MAGIC || FromBE(file[4..8]) != 1 || NameRead(file[44..76]) != name then None
    else
      match Window(file, FromBE(file[76..80]), FromBE(file[80..84]))
      case None => None
      case Some(data) =>
        if sha(data) != file[84..116] || Signer(t, file[..HEADER_SIZE], file[HEADER_SIZE..]).None? then None
        else Some(Section(FromBE(file[40..44]), data))
  }

  method ReadFixed(f: File) returns (ok: bool)
    requires f.pos == 0
    modifies f`pos
    ensures ok ==> f.pos == 40 <= |f.data| && f.data[..4] == MAGIC && FromBE(f.data[4..8]) == 1
    ensures !ok ==> |f.data| < 40 || f.data[..4] != MAGIC || FromBE(f.data[4..8]) != 1
  {
    hide FromBE;
    var b := f.Read(4);
    if b.None? || b.value != MAGIC {
      return false;
    }
    b := f.Read(4);
    if b.None? || FromBE(b.value) != 1 {
      return false;
    }
    b := f.Read(8);   // flags
    if b.None? {
      return false;
    }
    b := f.Read(16);  // creation time
    if b.None? {
      return false;
    }
    b := f.Read(8);   // OS and architecture, not checked
    ok := b.Some?;
  }

  /** index, up to its transaction. */
  method OpenSection(f: File, sha: Digest, t: Trust, name: Bytes) returns (r: Option<Section>)
    requires f.pos == 0
    modifies f`pos
    ensures r == Opened(sha, t, name, f.data)
  {
    hide FromBE, Signer, IndexNul;
    var ok := ReadFixed(f);
    if !ok {
      return None;
    }
    var count := f.Read(4);
    if count.None? {
      return None;
    }
    var field := f.Read(NAME_SIZE);
    if field.None? || field.value[..IndexNul(field.value)] != name {
      return None;
    }
    var loc := f.Read(8);
    if loc.None? {
      return None;
    }
    var start, len := FromBE(loc.value[..4]), FromBE(loc.value[4..]);
    assert loc.value[..4] == f.data[76..80] && loc.value[4..] == f.data[80..84];
    var hash := f.Read(32);
    if hash.None? {
      return None;
    }
    f.Seek(start);
    var data := f.Read(len);
    if data.None? || sha(data.value) != hash.value {
      return None;
    }
    f.Seek(0);
    var header := f.Read(HEADER_SIZE);
    if header.None? {
      return None;
    }
    f.Seek(HEADER_SIZE);
    var sig := new Reader(f.data[f.pos..]);
    var signer := Verify(t, header.value, sig);
    if signer.None? {
      return None;
    }
    r := Some(Section(FromBE(count.value), data.value));
  }

  /** The effect of index on a database. */
  function IndexedFile(sha: Digest, t: Trust, name: Bytes, file: Bytes, s: Store): Result<Store> {
    match Opened(sha, t, name, file)
    case None => Err(Malformed)
    case Some(section) => IndexData(s, section.data, section.count)
  }

  /** index: a file that fails a check, or whose data cannot be read, changes nothing. */
  method IndexFile(db: DB, f: File, sha: Digest, t: Trust, name: Bytes) returns (ok: bool)
    requires f.pos == 0
    modifies db, f`pos
    ensures ok == IndexedFile(sha, t, name, f.data, old(db.store)).Ok?
    ensures db.store == if ok then IndexedFile(sha, t, name, f.data, old(db.store)).value else old(db.store)
  {
    hide Opened, IndexData;
    var section := OpenSection(f, sha, t, name);
    if section.None? {
      return false;
    }
    ok := db.IndexSection(section.value.data, section.value.count);
  }

  // ----- What is refused

  /** A file opens exactly when it has the magic number, version 1, the
      database's name, the announced data with the hash in the header, and a
      signer of the header. */
  lemma OpensExactly(sha: Digest, t: Trust, name: Bytes, file: Bytes, count: nat, data: Bytes)
    ensures Opened(sha, t, name, file) == Some(Section(count, data)) <==>
              && |file| >= 196 && file[..4] == [65, 80, 68, 66] && FromBE(file[4..8]) == 1
              && |name| <= 32 && name == file[44..44 + |name|] && 0 !in name
              && (|name| < 32 ==> file[44 + |name|] == 0)
              && count == FromBE(file[40..44])
              && |data| == FromBE(file[80..84]) && sha(data) == file[84..116]
              && (var start := FromBE(file[76..80]);
                  data != [] ==> start + |data| <= |file| && data == file[start..start + |data|])
              && Signer(t, file[..196], file[196..]).Some?
  {
    hide FromBE, Signer, NameRead;
    if |file| >= 196 {
      NameAt(file[44..76], name);
      assert |name| <= 32 ==> file[44..76][..|name|] == file[44..44 + |name|];
    }
  }

  lemma NameAt(field: Bytes, name: Bytes)
    requires |field| == 32
    ensures NameRead(field) == name <==>
              |name| <= 32 && name == field[..|name|] && 0 !in name && (|name| < 32 ==> field[|name|] == 0)
  {
    hide IndexNul;
    if |name| <= 32 && name == field[..|name|] && 0 !in name && (|name| < 32 ==> field[|name|] == 0) {
      FirstNul(field, |name|);
    }
  }

  /** Nothing gets into a database from a file unless a trusted key has signed
      the header, and the header has the hash of the data: a header changed after
      signing is refused, and so is changed data, unless it has the same hash. */
  lemma OnlySigned(sha: Digest, t: Trust, name: Bytes, file: Bytes, s: Store)
    requires IndexedFile(sha, t, name, file, s).Ok?
    ensures |file| >= 196
    ensures VouchedFor(t, file[..196], file[196..])
    ensures exists count, data ::
              && IndexedFile(sha, t, name, file, s) == IndexData(s, data, count)
              && count == FromBE(file[40..44]) && |data| == FromBE(file[80..84]) && sha(data) == file[84..116]
  {
    hide IndexData, FromBE, Signer, Vouched, Opened;
    var section := Opened(sha, t, name, file).value;
    OpensExactly(sha, t, name, file, section.count, section.data);
    SignerVouches(t, file[..196], file[196..]);
  }

  // ----- Exporting, then indexing

  lemma HeaderFields(i: Info, count: nat, len: nat, hash: Bytes)
    requires |hash| == 32
    ensures var h := Header(i, count, len, hash);
            && |h| == HEADER_SIZE && h[..4] == MAGIC && h[4..8] == BE(1, 4) && h[40..44] == BE(count, 4)
            && h[8..16] == BE(0, 8) && h[16..24] == BE(i.seconds, 8) && h[24..32] == BE(i.nanos, 8)
            && h[32..36] == BE(i.os, 4) && h[36..40] == BE(i.arch, 4)
            && h[44..76] == NameField(i.name) && h[76..80] == BE(295, 4)
            && h[80..84] == BE(len, 4) && h[84..116] == hash
            && h[116..] == Indices()
  {
    hide BE, Indices, Front, Middle;
    var h5 := hash + Indices();
    var h4 := BE(len, 4) + h5;
    var h3 := Middle(i) + h4;
    var h2 := BE(count, 4) + h3;
    SliceMiddle(Front(i), BE(count, 4), h3);
    FrontFields(i, h2);
    assert (Front(i) + h2)[..40] == Front(i);
    SliceLater(Front(i), h2, 4, 36);
    SliceLater(Front(i), h2, 36, 40);
    SliceLater(Front(i), h2, 40, 44);
    SliceLater(Front(i), h2, 44, 76);
    SliceLater(BE(count, 4), h3, 0, 32);
    SliceLater(BE(count, 4), h3, 32, 36);
    SliceLater(BE(count, 4), h3, 36, 40);
    SliceLater(BE(count, 4), h3, 40, 72);
    MiddleFields(i, h4);
    SliceMiddle(Middle(i), BE(len, 4), h5);
    SliceLater(Middle(i), h4, 4, 36);
    SliceMiddle(BE(len, 4), hash, Indices());
    TailOf(Front(i), BE(count, 4), Middle(i), BE(len, 4), hash, Indices());
  }

  lemma TailOf(a: Bytes, b: Bytes, c: Bytes, d: Bytes, e: Bytes, tail: Bytes)
    requires |a| == 40 && |b| == |d| == 4 && |c| == 36 && |e| == 32
    ensures (a + (b + (c + (d + (e + tail)))))[116..] == tail
  {
  }

  /** The unused indices: nowhere, and the hash of nothing, twice. */
  lemma IndexFields()
    ensures var b := Indices();
            b[..8] == b[40..48] == [0, 0, 0, 0, 0, 0, 0, 0] && b[8..40] == b[48..80] == EMPTY_HASH
  {
    hide EMPTY_HASH;
    assert BE(0, 4) == [0, 0, 0, 0];
  }

  lemma FrontFields(i: Info, rest: Bytes)
    ensures var h := Front(i) + rest;
            && h[..4] == MAGIC && h[4..8] == BE(1, 4) && h[8..16] == BE(0, 8)
            && h[16..24] == BE(i.seconds, 8) && h[24..32] == BE(i.nanos, 8)
            && h[32..36] == BE(i.os, 4) && h[36..40] == BE(i.arch, 4)
  {
    hide BE;
    var h := Front(i) + rest;
    assert h[..40] == Front(i);
    SevenFields(MAGIC, BE(1, 4), BE(0, 8), BE(i.seconds, 8), BE(i.nanos, 8), BE(i.os, 4), BE(i.arch, 4));
  }

  lemma MiddleFields(i: Info, rest: Bytes)
    ensures (Middle(i) + rest)[..32] == NameField(i.name) && (Middle(i) + rest)[32..36] == BE(DATA_START, 4)
  {
    hide BE, NameField;
    Assoc(NameField(i.name), BE(DATA_START, 4), rest);
    SliceMiddle(NameField(i.name), BE(DATA_START, 4), rest);
  }

  /** A database name comes back from the header exactly when it has at most 32 bytes and no NUL. */
  lemma NameReadBack(name: Bytes)
    ensures NameRead(NameField(name)) == name <==> |name| <= NAME_SIZE && NUL !in name
  {
    hide IndexNul;
    var field := NameField(name);
    if |name| <= NAME_SIZE && NUL !in name {
      assert field[..|name|] == name;
      FirstNul(field, |name|);
    }
  }

  lemma {:induction false} RecordsLong(s: Store, es: seq<Entry>)
    requires AllExportable(s, es)
    ensures |PackageRecords(s, es)| >= |es|
  {
    hide Exportable, RecordFields;
    if es != [] {
      RecordsLong(s, es[1..]);
      RecordLong(s, es[0]);
    }
  }

  lemma RecordLong(s: Store, e: Entry)
    requires Exportable(s, e)
    ensures |PackageRecord(s, e)| >= 1
  {
    hide RecordFields;
  }

  /** As much of a data section as its 32-bit length field says. */
  function Announced(data: Bytes): Bytes {
    data[..|data| % TWO32]
  }

  /** What index sees of an exported file: for the database's own name and no
      other, the package count and the data that were written, each cut to the
      width of its field. A section of 4 GB and more is refused, unless the part
      that is read happens to have the hash of the whole. */
  lemma ExportOpens(i: Info, s: Store, sha: Digest, t: Trust, pub: Bytes, blob: Bytes, name: Bytes)
    requires IsDigest(sha) && AllExportable(s, s.p2p)
    requires |pub| < Varblob.TWO64 && |blob| < Varblob.TWO64
    requires |Signature(pub, blob)| <= Signatures.SIGNATURE_SIZE
    requires Signer(t, FinalHeader(i, s, sha), Signature(pub, blob)).Some?
    ensures var data := ExportData(s);
            Opened(sha, t, name, Exported(i, s, sha, Signature(pub, blob))) ==
              if NameRead(NameField(i.name)) == name && sha(Announced(data)) == sha(data)
              then Some(Section(|s.p2p| % TWO32, Announced(data))) else None
  {
    hide Header, AllExportable, ExportData, Signer, Signature, BE, FromBE, NameField, NameRead;
    var data, sig, header := ExportData(s), Signature(pub, blob), FinalHeader(i, s, sha);
    var file := Exported(i, s, sha, sig);
    HeaderFields(i, |s.p2p| % TWO32, |data| % TWO32, sha(data));
    OpenedFields(file, header, Padded(sig) + data);
    BE4(1);
    BE4(|s.p2p| % TWO32);
    BE4(|data| % TWO32);
    BE4(DATA_START);
    DataWindow(header, Padded(sig), data, |data| % TWO32);
    VerifiedFits(t, header, pub, blob);
    Assoc(sig, Zeros(Signatures.SIGNATURE_SIZE - |sig|), data);
  }

  lemma CountSmall(s: Store)
    requires AllExportable(s, s.p2p) && |ExportData(s)| < TWO32
    ensures |s.p2p| < TWO32
  {
    hide PackageRecords, PinRecords, AllExportable;
    RecordsLong(s, s.p2p);
  }

  lemma OpenedFields(file: Bytes, header: Bytes, rest: Bytes)
    requires file == header + rest && |header| == HEADER_SIZE
    ensures file[..HEADER_SIZE] == header && file[HEADER_SIZE..] == rest
    ensures file[..4] == header[..4] && file[4..8] == header[4..8] && file[40..44] == header[40..44]
    ensures file[44..76] == header[44..76] && file[76..80] == header[76..80]
    ensures file[80..84] == header[80..84] && file[84..116] == header[84..116]
  {
  }

  lemma DataWindow(header: Bytes, sig: Bytes, data: Bytes, n: nat)
    requires |header| == HEADER_SIZE && |sig| == Signatures.SIGNATURE_SIZE && n <= |data|
    ensures Window(header + (sig + data), DATA_START, n) == Some(data[..n])
  {
    var file := header + (sig + data);
    assert file[DATA_START..DATA_START + n] == data[..n];
  }

  /** What index makes of an exported file, for sections of any size. */
  lemma FileIndexed(i: Info, s: Store, sha: Digest, k: Key, t: Trust, d: Store)
    requires IsDigest(sha) && AllExportable(s, s.p2p)
    requires Verifies(k, t, FinalHeader(i, s, sha))
    ensures var data := ExportData(s);
            var file := Exported(i, s, sha, Signed(k, FinalHeader(i, s, sha)).value);
            IndexedFile(sha, t, i.name, file, d) ==
              if NameFits(i.name) && sha(Announced(data)) == sha(data)
              then IndexData(d, Announced(data), |s.p2p| % TWO32) else Err(Malformed)
  {
    hide Exported, ExportData, IndexData, Opened, FinalHeader, Signer, Signature, AllExportable, NameRead;
    ExportOpens(i, s, sha, t, k.pub.value, k.sign(FinalHeader(i, s, sha)).value, i.name);
    NameReadBack(i.name);
  }

  /** A database name the header can hold. */
  predicate NameFits(name: Bytes) {
    |name| <= 32 && 0 !in name
  }

  /** The key's signature of the data can be made and verifies; keys and
      signatures are shorter than 2^64 bytes. */
  ghost predicate Verifies(k: Key, t: Trust, data: Bytes) {
    && (k.pub.Some? ==> |k.pub.value| < Varblob.TWO64)
    && (k.sign(data).Some? ==> |k.sign(data).value| < Varblob.TWO64)
    && Signed(k, data).Some? && Signer(t, data, Signed(k, data).value).Some?
  }

  /** Whatever the database it is indexed into, a file can be read exactly when
      the database name fits the header, and every field and pin the limits of
      the reader; its effect is then that of its data section. */
  lemma FileReadable(i: Info, s: Store, sha: Digest, k: Key, t: Trust, d: Store)
    requires IsDigest(sha) && Good(s) && AllExportable(s, s.p2p) && |ExportData(s)| < TWO32
    requires Verifies(k, t, FinalHeader(i, s, sha))
    ensures var file := Exported(i, s, sha, Signed(k, FinalHeader(i, s, sha)).value);
            && (IndexedFile(sha, t, i.name, file, d).Ok? <==> NameFits(i.name) && AllFit(s))
            && (NameFits(i.name) ==> IndexedFile(sha, t, i.name, file, d) == IndexData(d, ExportData(s), |s.p2p|))
  {
    hide *;
    FileIndexed(i, s, sha, k, t, d);
    CountSmall(s);
    AllAnnounced(ExportData(s));
    ExportIndexed(s, d);
  }

  lemma AllAnnounced(data: Bytes)
    requires |data| < TWO32
    ensures Announced(data) == data
  {
  }

  /** The check at the end of ExportAndUpload, indexing the new file into the
      database it came from: it succeeds exactly when an empty database could
      read the file, that is when name, fields and pins fit, and never changes anything. */
  lemma OwnFile(i: Info, s: Store, sha: Digest, k: Key, t: Trust)
    requires IsDigest(sha) && Good(s) && AllExportable(s, s.p2p) && |ExportData(s)| < TWO32
    requires Verifies(k, t, FinalHeader(i, s, sha))
    ensures var file := Exported(i, s, sha, Signed(k, FinalHeader(i, s, sha)).value);
            && (IndexedFile(sha, t, i.name, file, s).Ok? <==> NameFits(i.name) && AllFit(s))
            && (IndexedFile(sha, t, i.name, file, s).Ok? <==> IndexedFile(sha, t, i.name, file, EMPTY_STORE).Ok?)
            && (IndexedFile(sha, t, i.name, file, s).Ok? ==> IndexedFile(sha, t, i.name, file, s) == Ok(s))
  {
    hide *;
    FileReadable(i, s, sha, k, t, s);
    FileReadable(i, s, sha, k, t, EMPTY_STORE);
    if NameFits(i.name) && AllFit(s) {
      OwnUnchanged(s);
    }
  }
}

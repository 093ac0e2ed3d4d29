/** Package files: the writer of cmd/apkg-convert/process.go, and the readers
    OpenPackage and validate of apkgdb/package.go. */
module PackageFile {
  import opened Bytes
  import opened Codec
  import opened Varblob
  import opened Files
  import opened Signatures
  import opened Buckets
  import opened Records
  import Collate
  import Database
  import Export

  type Package = Database.Package

  const HEADER_LEN := 124
  const MIN_BLOCK := 4096
  const MAX_BLOCK := 131072
  const MAX_BLOCKS := 1500
  const SECTOR := 512
  const TWO32 := Database.TWO32
  const MAGIC: Bytes := [65, 80, 75, 71]   // "APKG"

  // ----- Block size

  function Pow2(k: nat): (p: nat)
    ensures p >= 1
  {
    if k == 0 then 1 else 2 * Pow2(k - 1)
  }

  predicate Tabled(size: nat, block: nat)
    requires block > 0
  {
    size / block <= 1500
  }

  /** The least 4096 * 2^k with at most 1500 full blocks, but not above 131072. */
  method ChooseBlockSize(size: nat) returns (block: nat, ghost k: nat)
    ensures block == 4096 * Pow2(k) <= 131072
    ensures Tabled(size, block) || block == 131072
    ensures forall j: nat | j < k :: !Tabled(size, 4096 * Pow2(j))
  {
    block, k := MIN_BLOCK, 0;
    while size / block > MAX_BLOCKS && block < MAX_BLOCK
      invariant k <= 5 && block == MIN_BLOCK * Pow2(k) <= MAX_BLOCK
      invariant forall j: nat | j < k :: !Tabled(size, MIN_BLOCK * Pow2(j))
      decreases MAX_BLOCK - block
    {
      Doubled(k);
      block, k := block * 2, k + 1;
    }
  }

  lemma Doubled(k: nat)
    requires k <= 5 && MIN_BLOCK * Pow2(k) < MAX_BLOCK
    ensures k < 5 && MIN_BLOCK * Pow2(k + 1) <= MAX_BLOCK
  {
    assert Pow2(1) == 2 && Pow2(2) == 4 && Pow2(3) == 8;
    assert Pow2(4) == 16 && Pow2(5) == 32;
  }

  // ----- Hash table

  /** A file cut into blocks; the last one may be shorter. */
  function Blocks(data: Bytes, block: nat): seq<Bytes>
    requires block > 0
    decreases |data|
  {
    if data == [] then []
    else if |data| <= block then [data]
    else [data[..block]] + Blocks(data[block..], block)
  }

  function Joined(bs: seq<Bytes>): Bytes {
    if bs == [] then [] else bs[0] + Joined(bs[1..])
  }

  /** Hashes of the blocks, one after the other. */
  function Table(sha: Digest, bs: seq<Bytes>): Bytes {
    if bs == [] then [] else Table(sha, bs[..|bs| - 1]) + sha(bs[|bs| - 1])
  }

  /** The blocks cover every byte exactly once, in order, and all but the last are full. */
  lemma {:induction false} BlocksCover(data: Bytes, block: nat)
    requires block > 0
    ensures Joined(Blocks(data, block)) == data
    ensures forall i | 0 <= i < |Blocks(data, block)| :: 0 < |Blocks(data, block)[i]| <= block
    ensures forall i | 0 <= i < |Blocks(data, block)| - 1 :: |Blocks(data, block)[i]| == block
    decreases |data|
  {
    if data == [] {
    } else if |data| <= block {
      assert Joined([data]) == data + Joined([]) == data;
    } else {
      BlocksCover(data[block..], block);
      BlocksHead(data, block);
    }
  }

  lemma BlocksHead(data: Bytes, block: nat)
    requires 0 < block < |data|
    ensures Joined(Blocks(data, block)) == data[..block] + Joined(Blocks(data[block..], block))
  {
    assert Blocks(data, block)[1..] == Blocks(data[block..], block);
  }

  /** There are as many blocks as the size divided by the block size, rounded up. */
  lemma {:induction false} BlockCount(data: Bytes, block: nat)
    requires block > 0
    ensures |Blocks(data, block)| == (|data| + block - 1) / block
    decreases |data|
  {
    if data == [] {
      Quotient(block - 1, block, 0);
    } else if |data| <= block {
      Quotient(|data| - 1, block, 1);
    } else {
      BlockCount(data[block..], block);
      var q := (|data| - 1) / block;
      assert |data| - 1 == q * block + (|data| - 1) % block;
      Quotient((|data| - 1) % block, block, q + 1);
      assert (q + 1) * block == q * block + block;
    }
  }

  lemma {:induction false} TableSize(sha: Digest, bs: seq<Bytes>)
    requires IsDigest(sha)
    ensures |Table(sha, bs)| == 32 * |bs|
  {
    if bs != [] {
      TableSize(sha, bs[..|bs| - 1]);
    }
  }

  /** The hashes stand in the order of the blocks. */
  lemma {:induction false} TableAt(sha: Digest, bs: seq<Bytes>, i: nat)
    requires IsDigest(sha) && i < |bs|
    ensures |Table(sha, bs)| == 32 * |bs| && Table(sha, bs)[32 * i..32 * i + 32] == sha(bs[i])
  {
    TableSize(sha, bs);
    var front := bs[..|bs| - 1];
    TableSize(sha, front);
    if i < |front| {
      TableAt(sha, front, i);
      assert Table(sha, bs)[32 * i..32 * i + 32] == Table(sha, front)[32 * i..32 * i + 32];
    }
  }

  lemma EmptyTable(sha: Digest)
    ensures Table(sha, []) == []
  {
  }

  lemma TableAppend(sha: Digest, bs: seq<Bytes>, b: Bytes)
    ensures Table(sha, bs + [b]) == Table(sha, bs) + sha(b)
  {
    assert (bs + [b])[..|bs|] == bs;
  }

  /** The hash loop. */
  method HashBlocks(sha: Digest, data: Bytes, block: nat) returns (table: Bytes, blocks: nat)
    requires block > 0
    ensures table == Table(sha, Blocks(data, block)) && blocks == |Blocks(data, block)|
  {
    hide Table;
    hide Blocks, BlocksFrom;
    EmptyTable(sha);
    BlocksEnds(data, block);
    table, blocks := [], 0;
    ghost var done: seq<Bytes> := [];
    var i := 0;
    while i < |data|
      invariant 0 <= i && blocks == |done| && table == Table(sha, done)
      invariant Blocks(data, block) == done + BlocksFrom(data, i, block)
      decreases |data| - i
    {
      var n := if |data| - i < block then |data| - i else block;
      var b := data[i..i + n];
      TableAppend(sha, done, b);
      NextBlock(data, i, block, n);
      Assoc(done, [b], BlocksFrom(data, i + block, block));
      done := done + [b];
      table := table + sha(b);
      i, blocks := i + block, blocks + 1;
    }
    AfterLast(data, i, block);
    assert done + [] == done;
  }

  lemma BlocksEnds(data: Bytes, block: nat)
    requires block > 0
    ensures [] + BlocksFrom(data, 0, block) == Blocks(data, block)
  {
    assert data[0..] == data;
  }

  lemma AfterLast(data: Bytes, i: nat, block: nat)
    requires block > 0 && i >= |data|
    ensures BlocksFrom(data, i, block) == []
  {
  }

  function BlocksFrom(data: Bytes, i: nat, block: nat): seq<Bytes>
    requires block > 0
  {
    if i < |data| then Blocks(data[i..], block) else []
  }

  lemma NextBlock(data: Bytes, i: nat, block: nat, n: nat)
    requires block > 0 && i < |data| && n == if |data| - i < block then |data| - i else block
    ensures BlocksFrom(data, i, block) == [data[i..i + n]] + BlocksFrom(data, i + block, block)
  {
    assert data[i..][..n] == data[i..i + n];
    if |data| - i <= block {
      assert data[i..] == data[i..i + n];
    } else {
      assert data[i..][n..] == data[i + block..];
    }
  }

  // ----- Layout: header, metadata, hash table, signature gap, data

  /** Distance from the signature to the data. */
  function Gap(signOffset: nat): nat {
    var padding := SECTOR - signOffset % SECTOR;
    if padding < Signatures.SIGNATURE_SIZE then padding + SECTOR else padding
  }

  /** The gap holds a signature and reaches the next sector boundary but one at most. */
  lemma GapBounds(signOffset: nat)
    ensures 99 <= Gap(signOffset) <= 610
    ensures (signOffset + Gap(signOffset)) % 512 == 0
  {
    var q := signOffset / SECTOR;
    assert signOffset == SECTOR * q + signOffset % SECTOR;
  }

  /** What a package file is made of. */
  datatype Parts = Parts(created: nat, block: nat, meta: Bytes, table: Bytes, data: Bytes) {
    function SignOffset(): nat {
      HEADER_LEN + |meta| + |table|
    }

    function DataOffset(): nat {
      SignOffset() + Gap(SignOffset())
    }
  }

  function Front(p: Parts): (b: Bytes)
    ensures |b| == 40
  {
    MAGIC + BE(1, 4) + BE(0, 8) + BE(p.created, 8) + BE(0, 8) + BE(HEADER_LEN, 4) + BE(|p.meta|, 4)
  }

  function TableField(p: Parts): (b: Bytes)
    ensures |b| == 8
  {
    BE(HEADER_LEN + |p.meta|, 4) + BE(|p.table|, 4)
  }

  function Offsets(p: Parts): (b: Bytes)
    ensures |b| == 12
  {
    BE(p.SignOffset(), 4) + BE(p.DataOffset(), 4) + BE(p.block, 4)
  }

  function Header(p: Parts, sha: Digest): Bytes {
    Front(p) + (sha(p.meta) + (TableField(p) + (sha(p.table) + Offsets(p))))
  }

  function SignBuf(p: Parts, sig: Bytes): Bytes
    requires |sig| <= Gap(p.SignOffset())
  {
    sig + Zeros(Gap(p.SignOffset()) - |sig|)
  }

  function Contents(p: Parts, sha: Digest, sig: Bytes): Bytes
    requires |sig| <= Gap(p.SignOffset())
  {
    Header(p, sha) + (p.meta + (p.table + (SignBuf(p, sig) + p.data)))
  }

  // ----- The writer

  /** The metadata, as JSON of block size, number of blocks and table hash. */
  type Json = (nat, nat, Bytes) -> Bytes

  /** What process puts into the file of a squashfs image. */
  ghost predicate PartsOf(p: Parts, data: Bytes, created: nat, json: Json, sha: Digest) {
    && p.data == data && p.created == created
    && (exists k :: ChosenBlock(|data|, p.block, k))
    && p.table == Table(sha, Blocks(data, p.block))
    && p.meta == json(p.block, |Blocks(data, p.block)|, sha(p.table))
  }

  ghost predicate ChosenBlock(size: nat, block: nat, k: nat) {
    && block == 4096 * Pow2(k) <= 131072
    && (Tabled(size, block) || block == 131072)
    && forall j: nat | j < k :: !Tabled(size, 4096 * Pow2(j))
  }

  method BuildHeader(p: Parts, sha: Digest) returns (h: Bytes)
    ensures h == Header(p, sha)
  {
    hide BE;
    h := MAGIC + BE(1, 4) + BE(0, 8) + BE(p.created, 8) + BE(0, 8) + BE(HEADER_LEN, 4) + BE(|p.meta|, 4);
    h := h + sha(p.meta);
    h := h + BE(HEADER_LEN + |p.meta|, 4) + BE(|p.table|, 4);
    h := h + sha(p.table);
    h := h + BE(p.SignOffset(), 4) + BE(p.DataOffset(), 4) + BE(p.block, 4);
    HeaderGrouped(Front(p), sha(p.meta), BE(HEADER_LEN + |p.meta|, 4), BE(|p.table|, 4), sha(p.table),
                  BE(p.SignOffset(), 4), BE(p.DataOffset(), 4), BE(p.block, 4));
  }

  lemma HeaderGrouped(a: Bytes, b: Bytes, c: Bytes, d: Bytes, e: Bytes, u: Bytes, v: Bytes, w: Bytes)
    ensures (((a + b) + c + d) + e) + u + v + w == a + (b + ((c + d) + (e + (u + v + w))))
  {
    Assoc(a + b, c, d);
    Assoc(a + b + c + d + e, u, v);
    Assoc(a + b + c + d + e, u + v, w);
    Assoc(a + b + (c + d), e, u + v + w);
    Assoc(a + b, c + d, e + (u + v + w));
    Assoc(a, b, (c + d) + (e + (u + v + w)));
  }

  /** The signature blob process builds itself. */
  method BuildSignature(k: Key, header: Bytes) returns (s: Option<Bytes>)
    ensures s == if k.pub.Some? && k.sign(header).Some? then Some(Signature(k.pub.value, k.sign(header).value))
                 else None
  {
    hide Blob;
    var b := PutUvarint(1);
    if k.pub.None? {
      return None;
    }
    b := WriteVarblob(b, k.pub.value);
    var blob := k.sign(header);
    if blob.None? {
      return None;
    }
    b := WriteVarblob(b, blob.value);
    Assoc(Uvarint(1), Blob(k.pub.value), Blob(blob.value));
    s := Some(b);
  }

  /** Whether process gets a signature that verifies. */
  predicate Signable(p: Parts, sha: Digest, k: Key, t: Trust) {
    var h := Header(p, sha);
    k.pub.Some? && k.sign(h).Some? && Signer(t, h, Signature(k.pub.value, k.sign(h).value)).Some?
  }

  ghost predicate KeySized(k: Key) {
    && (k.pub.Some? ==> |k.pub.value| < Varblob.TWO64)
    && (forall b: Bytes :: k.sign(b).Some? ==> |k.sign(b).value| < Varblob.TWO64)
  }

  /** The signature in a file of these parts. */
  function SignatureOf(p: Parts, sha: Digest, k: Key): Bytes {
    var h := Header(p, sha);
    if k.pub.Some? && k.sign(h).Some? then Signature(k.pub.value, k.sign(h).value) else []
  }

  /** A signature that verifies always fits the gap: process never gives up for lack of space. */
  lemma SignatureFitsGap(p: Parts, sha: Digest, k: Key, t: Trust)
    requires KeySized(k) && Signable(p, sha, k, t)
    ensures |SignatureOf(p, sha, k)| == Signatures.SIGNATURE_SIZE <= Gap(p.SignOffset())
  {
    hide Signature, Signer, Header;
    var h := Header(p, sha);
    VerifiedFits(t, h, k.pub.value, k.sign(h).value);
    GapBounds(p.SignOffset());
  }

  /** Block size, hash table and metadata of an image. */
  method Prepare(data: Bytes, created: nat, json: Json, sha: Digest) returns (p: Parts)
    ensures PartsOf(p, data, created, json, sha)
  {
    hide Table, Blocks, Pow2;
    var block;
    ghost var j;
    block, j := ChooseBlockSize(|data|);
    assert ChosenBlock(|data|, block, j);
    var table, blocks := HashBlocks(sha, data, block);
    p := Parts(created, block, json(block, blocks, sha(table)), table, data);
  }

  /** A signature of the header that has been checked, as the source does before it writes anything. */
  method CheckedSignature(p: Parts, header: Bytes, sha: Digest, k: Key, t: Trust) returns (s: Option<Bytes>)
    requires header == Header(p, sha)
    ensures s == if Signable(p, sha, k, t) then Some(SignatureOf(p, sha, k)) else None
  {
    hide Header, Signature, Signer;
    s := BuildSignature(k, header);
    if s.Some? {
      var r := new Reader(s.value);
      var signer := Verify(t, header, r);
      if signer.None? {
        s := None;
      }
    }
  }

  /** process, from the block size loop on. It gives up on metadata over 1 MB
      and without a signature that verifies, and for no other reason. */
  method Process(data: Bytes, created: nat, json: Json, sha: Digest, k: Key, t: Trust)
    returns (out: Option<File>, ghost p: Parts)
    requires IsDigest(sha) && KeySized(k)
    ensures PartsOf(p, data, created, json, sha)
    ensures out.Some? <==> |p.meta| <= 1048576 && Signable(p, sha, k, t)
    ensures out.Some? ==> |SignatureOf(p, sha, k)| <= Gap(p.SignOffset())
                          && fresh(out.value) && out.value.data == Contents(p, sha, SignatureOf(p, sha, k))
  {
    hide Header, SignatureOf, Signable, Gap, PartsOf, KeySized, IsDigest;
    var parts := Prepare(data, created, json, sha);
    p := parts;
    if |parts.meta| > Database.MAX_META {
      return None, p;
    }
    var header := BuildHeader(parts, sha);
    var sig := CheckedSignature(parts, header, sha, k, t);
    if sig.None? {
      return None, p;
    }
    SignatureFitsGap(parts, sha, k, t);
    var gap := Gap(parts.SignOffset());
    if |sig.value| > gap {
      return None, p;
    }
    var f := WriteParts(header, parts.meta, parts.table, sig.value + Zeros(gap - |sig.value|), data);
    PartsData(parts, data, created, json, sha);
    out := Some(f);
  }

  lemma PartsData(p: Parts, data: Bytes, created: nat, json: Json, sha: Digest)
    requires PartsOf(p, data, created, json, sha)
    ensures p.data == data
  {
  }

  method WriteParts(header: Bytes, meta: Bytes, table: Bytes, signbuf: Bytes, data: Bytes) returns (f: File)
    ensures fresh(f) && f.data == header + (meta + (table + (signbuf + data)))
  {
    hide Overwrite;
    f := new File([]);
    OverwriteEnd([], header);
    f.Write(header);
    assert [] + header == header;
    OverwriteEnd(header, meta);
    f.Write(meta);
    OverwriteEnd(header + meta, table);
    f.Write(table);
    OverwriteEnd(header + meta + table, signbuf);
    f.Write(signbuf);
    OverwriteEnd(header + meta + table + signbuf, data);
    f.Write(data);
    Assoc(header + meta + table, signbuf, data);
    Assoc(header + meta, table, signbuf + data);
    Assoc(header, meta, table + (signbuf + data));
  }

  // ----- The readers

  /** Name and inode count, taken from the metadata; None when it is no JSON. */
  type Meta = Bytes -> Option<(Bytes, nat)>

  function Num(b: Bytes, at: nat): nat
    requires at + 4 <= |b|
  {
    FromBE(b[at..at + 4])
  }

  /** Magic number and version. */
  predicate IsHeader(h: Bytes) {
    |h| == HEADER_LEN && h[..4] == MAGIC && Num(h, 4) == 1
  }

  /** OpenPackage: what it finds in a file that passes all its checks. */
  function Opened(file: Bytes, sha: Digest, t: Trust, info: Meta): Option<Package> {
    if |file| < HEADER_LEN then None
    else
      var h := file[..HEADER_LEN];
      if !IsHeader(h) then None
      else
        var sig := Window(file, Num(h, 112), Signatures.SIGNATURE_SIZE);
        var meta := Window(file, Num(h, 32), Num(h, 36));
        var table := Window(file, Num(h, 72), Num(h, 76));
        if sig.None? || Signer(t, h, sig.value).None? || meta.None? || sha(meta.value) != h[40..72]
           || table.None? || sha(table.value) != h[80..112] || info(meta.value).None? then None
        else
          var named := info(meta.value).value;
          Some(Package.Package(sha(h), |file|, named.1, named.0, [], h, sig.value, meta.value))
  }

  /** The header fields OpenPackage reads after magic number and version. */
  datatype Fields = Fields(metaAt: nat, metaLen: nat, metaHash: Bytes,
                           tableAt: nat, tableLen: nat, tableHash: Bytes, signAt: nat)

  function FieldsOf(h: Bytes): Fields
    requires |h| == HEADER_LEN
  {
    Fields(Num(h, 32), Num(h, 36), h[40..72], Num(h, 72), Num(h, 76), h[80..112], Num(h, 112))
  }

  /** A 32-bit offset or length. */
  method ReadNumber(r: Reader, ghost h: Bytes, ghost at: nat) returns (n: nat)
    requires at + 4 <= |h| && r.rest == h[at..]
    modifies r
    ensures n == Num(h, at) && r.rest == h[at + 4..]
  {
    var b := r.ReadFull(4);
    n := FromBE(b.value);
    assert b.value == h[at..at + 4];
  }

  method ReadBytes(r: Reader, len: nat, ghost h: Bytes, ghost at: nat) returns (b: Bytes)
    requires at + len <= |h| && r.rest == h[at..]
    modifies r
    ensures b == h[at..at + len] && r.rest == h[at + len..]
  {
    var full := r.ReadFull(len);
    b := full.value;
  }

  method ReadHeader(h: Bytes) returns (r: Option<Fields>)
    requires |h| == HEADER_LEN
    ensures r == if IsHeader(h) then Some(FieldsOf(h)) else None
  {
    hide Num;
    if h[..4] != MAGIC {
      return None;
    }
    var rd := new Reader(h[4..]);
    var version := ReadNumber(rd, h, 4);
    if version != 1 {
      return None;
    }
    var _ := ReadBytes(rd, 8, h, 8);     // flags
    var _ := ReadBytes(rd, 16, h, 16);   // creation time
    var metaAt := ReadNumber(rd, h, 32);
    var metaLen := ReadNumber(rd, h, 36);
    var metaHash := ReadBytes(rd, 32, h, 40);
    var tableAt := ReadNumber(rd, h, 72);
    var tableLen := ReadNumber(rd, h, 76);
    var tableHash := ReadBytes(rd, 32, h, 80);
    var signAt := ReadNumber(rd, h, 112);
    r := Some(Fields(metaAt, metaLen, metaHash, tableAt, tableLen, tableHash, signAt));
  }

  /** OpenPackage. */
  method OpenPackage(f: File, sha: Digest, t: Trust, info: Meta) returns (p: Option<Package>)
    ensures p == Opened(f.data, sha, t, info)
  {
    hide FromBE, Signer, Num, IsHeader;
    var header := f.ReadAt(HEADER_LEN, 0);
    if header.None? {
      return None;
    }
    var fields := ReadHeader(header.value);
    if fields.None? {
      return None;
    }
    var sig := f.ReadAt(Signatures.SIGNATURE_SIZE, fields.value.signAt);
    if sig.None? {
      return None;
    }
    var r := new Reader(sig.value);
    var signer := Verify(t, header.value, r);
    if signer.None? {
      return None;
    }
    var meta := f.ReadAt(fields.value.metaLen, fields.value.metaAt);
    if meta.None? || sha(meta.value) != fields.value.metaHash {
      return None;
    }
    var table := f.ReadAt(fields.value.tableLen, fields.value.tableAt);
    if table.None? || sha(table.value) != fields.value.tableHash {
      return None;
    }
    var named := info(meta.value);
    if named.None? {
      return None;
    }
    p := Some(Package.Package(sha(header.value), |f.data|, named.value.1, named.value.0, [],
                              header.value, sig.value, meta.value));
  }

  /** validate, on a downloaded file: where the data starts, and its block size. */
  function Validated(file: Bytes, hash: Bytes, sha: Digest, t: Trust): Option<(nat, nat)> {
    if |file| < HEADER_LEN then None
    else
      var h := file[..HEADER_LEN];
      if sha(h) != hash || !IsHeader(h) then None
      else
        var sig := Window(file, Num(h, 112), 128);
        if sig.None? || Signer(t, h, sig.value).None? then None else Some((Num(h, 116), Num(h, 120)))
  }

  /** validate. */
  method Validate(f: File, hash: Bytes, sha: Digest, t: Trust) returns (r: Option<(nat, nat)>)
    ensures r == Validated(f.data, hash, sha, t)
  {
    hide FromBE, Signer;
    var header := f.ReadAt(HEADER_LEN, 0);
    if header.None? || sha(header.value) != hash {
      return None;
    }
    var fields := ReadHeader(header.value);
    if fields.None? {
      return None;
    }
    var sig := f.ReadAt(128, fields.value.signAt);
    if sig.None? {
      return None;
    }
    var rd := new Reader(sig.value);
    var signer := Verify(t, header.value, rd);
    if signer.None? {
      return None;
    }
    r := Some((Num(header.value, 116), Num(header.value, 120)));
  }

  // ----- What is refused

  /** Magic number and version 1. */
  predicate Marked(h: Bytes) {
    |h| == 124 && h[..4] == [65, 80, 75, 71] && FromBE(h[4..8]) == 1
  }

  /** OpenPackage gives a package only if a trusted key has signed the header,
      the header has the hashes of metadata and table, and the metadata says
      this name and inode count. */
  lemma OpenedSound(file: Bytes, sha: Digest, t: Trust, info: Meta)
    requires Opened(file, sha, t, info).Some?
    ensures var p := Opened(file, sha, t, info).value;
            && |file| >= 124 && p.header == file[..124] && Marked(p.header)
            && p.hash == sha(p.header) && p.size == |file| && p.path == []
            && info(p.meta) == Some((p.name, p.inodes))
            && |p.meta| == FromBE(file[36..40]) && sha(p.meta) == file[40..72]
            && (exists table :: |table| == FromBE(file[76..80]) && sha(table) == file[80..112])
            && |p.sig| == 99 && VouchedFor(t, p.header, p.sig)
  {
    hide FromBE, Signer, Vouched;
    var p := Opened(file, sha, t, info).value;
    var h := file[..124];
    assert h[36..40] == file[36..40] && h[76..80] == file[76..80] && h[40..72] == file[40..72];
    assert h[80..112] == file[80..112];
    var table := Window(file, Num(h, 72), Num(h, 76)).value;
    assert |table| == FromBE(file[76..80]) && sha(table) == file[80..112];
    SignerVouches(t, h, p.sig);
  }

  /** A download is valid only if its header has the hash the database has for
      the package, and a trusted key has signed it. */
  lemma ValidatedSound(file: Bytes, hash: Bytes, sha: Digest, t: Trust)
    requires Validated(file, hash, sha, t).Some?
    ensures |file| >= 124 && sha(file[..124]) == hash && Marked(file[..124])
    ensures Validated(file, hash, sha, t).value == (FromBE(file[116..120]), FromBE(file[120..124]))
    ensures var at := FromBE(file[112..116]);
            at + 128 <= |file| && VouchedFor(t, file[..124], file[at..at + 128])
  {
    hide FromBE, Signer, Vouched;
    var h := file[..124];
    assert h[112..116] == file[112..116] && h[116..120] == file[116..120] && h[120..124] == file[120..124];
    SignerVouches(t, h, Window(file, Num(h, 112), 128).value);
  }

  // ----- What was written is read back

  lemma HeaderFields(p: Parts, sha: Digest)
    requires IsDigest(sha)
    ensures var h := Header(p, sha);
            && |h| == HEADER_LEN && h[..4] == MAGIC && h[4..8] == BE(1, 4)
            && h[8..16] == BE(0, 8) && h[16..24] == BE(p.created, 8) && h[24..32] == BE(0, 8)
            && h[32..36] == BE(124, 4) && h[36..40] == BE(|p.meta|, 4) && h[40..72] == sha(p.meta)
            && h[72..76] == BE(HEADER_LEN + |p.meta|, 4) && h[76..80] == BE(|p.table|, 4) && h[80..112] == sha(p.table)
            && h[112..116] == BE(p.SignOffset(), 4) && h[116..120] == BE(p.DataOffset(), 4)
            && h[120..124] == BE(p.block, 4)
  {
    hide Front, TableField, Offsets, BE;
    var h4 := sha(p.table) + Offsets(p);
    var h3 := TableField(p) + h4;
    var h2 := sha(p.meta) + h3;
    var h := Front(p) + h2;
    assert h[..40] == Front(p);
    FrontFields(p);
    assert h[..4] == Front(p)[..4] && h[4..8] == Front(p)[4..8];
    assert h[8..16] == Front(p)[8..16] && h[16..24] == Front(p)[16..24] && h[24..32] == Front(p)[24..32];
    assert h[32..36] == Front(p)[32..36] && h[36..40] == Front(p)[36..40];
    SliceMiddle(Front(p), sha(p.meta), h3);
    LaterFields(p, sha, h);
  }

  lemma FrontFields(p: Parts)
    ensures Front(p)[..4] == MAGIC && Front(p)[4..8] == BE(1, 4)
    ensures Front(p)[8..16] == BE(0, 8) && Front(p)[16..24] == BE(p.created, 8) && Front(p)[24..32] == BE(0, 8)
    ensures Front(p)[32..36] == BE(HEADER_LEN, 4) && Front(p)[36..40] == BE(|p.meta|, 4)
  {
    hide BE;
    SevenFields(MAGIC, BE(1, 4), BE(0, 8), BE(p.created, 8), BE(0, 8), BE(HEADER_LEN, 4), BE(|p.meta|, 4));
  }

  lemma LaterFields(p: Parts, sha: Digest, h: Bytes)
    requires IsDigest(sha) && h == Header(p, sha)
    ensures |h| == HEADER_LEN
    ensures h[72..76] == BE(HEADER_LEN + |p.meta|, 4) && h[76..80] == BE(|p.table|, 4) && h[80..112] == sha(p.table)
    ensures h[112..116] == BE(p.SignOffset(), 4) && h[116..120] == BE(p.DataOffset(), 4)
    ensures h[120..124] == BE(p.block, 4)
  {
    hide Front, BE;
    assert h[72..] == TableField(p) + (sha(p.table) + Offsets(p));
    TailFields(TableField(p), sha(p.table), Offsets(p));
    var tail := h[72..];
    assert h[72..76] == tail[..4] && h[76..80] == tail[4..8] && h[80..112] == tail[8..40];
    assert h[112..116] == tail[40..44] && h[116..120] == tail[44..48] && h[120..124] == tail[48..52];
    assert TableField(p)[..4] == BE(HEADER_LEN + |p.meta|, 4) && TableField(p)[4..8] == BE(|p.table|, 4);
    OffsetFields(p);
  }

  lemma TailFields(a: Bytes, b: Bytes, c: Bytes)
    requires |a| == 8 && |b| == 32 && |c| == 12
    ensures var d := a + (b + c);
            && d[..4] == a[..4] && d[4..8] == a[4..8] && d[8..40] == b
            && d[40..44] == c[..4] && d[44..48] == c[4..8] && d[48..52] == c[8..12]
  {
  }

  lemma OffsetFields(p: Parts)
    ensures var c := Offsets(p);
            c[..4] == BE(p.SignOffset(), 4) && c[4..8] == BE(p.DataOffset(), 4) && c[8..12] == BE(p.block, 4)
  {
    hide BE;
    var c := Offsets(p);
    assert c[..4] == BE(p.SignOffset(), 4);
    assert c[4..8] == BE(p.DataOffset(), 4);
    assert c[8..12] == BE(p.block, 4);
  }

  /** The fields as numbers, when everything up to the data fits 32 bits. */
  lemma HeaderNumbers(p: Parts, sha: Digest)
    requires IsDigest(sha) && p.DataOffset() < TWO32 && p.block < TWO32
    ensures var h := Header(p, sha);
            && IsHeader(h) && h[40..72] == sha(p.meta) && h[80..112] == sha(p.table)
            && Num(h, 32) == HEADER_LEN && Num(h, 36) == |p.meta|
            && Num(h, 72) == HEADER_LEN + |p.meta| && Num(h, 76) == |p.table|
            && Num(h, 112) == p.SignOffset() && Num(h, 116) == p.DataOffset() && Num(h, 120) == p.block
  {
    hide Header, BE, FromBE, Gap;
    HeaderFields(p, sha);
    BE4(1);
    BE4(HEADER_LEN);
    BE4(|p.meta|);
    BE4(HEADER_LEN + |p.meta|);
    BE4(|p.table|);
    BE4(p.SignOffset());
    BE4(p.DataOffset());
    BE4(p.block);
  }

  /** The sections lie one behind the other. */
  lemma Sections(p: Parts, sha: Digest, sig: Bytes)
    requires IsDigest(sha) && |sig| <= Gap(p.SignOffset())
    ensures var file := Contents(p, sha, sig);
            && |file| == p.DataOffset() + |p.data|
            && file[..HEADER_LEN] == Header(p, sha)
            && Window(file, HEADER_LEN, |p.meta|) == Some(p.meta)
            && Window(file, HEADER_LEN + |p.meta|, |p.table|) == Some(p.table)
            && file[p.SignOffset()..] == SignBuf(p, sig) + p.data
  {
    hide Header, Gap;
    HeaderLength(p, sha);
    var rest := SignBuf(p, sig) + p.data;
    var h := Header(p, sha);
    SliceMiddle(h, p.meta, p.table + rest);
    Assoc(h, p.meta, p.table + rest);
    SliceMiddle(h + p.meta, p.table, rest);
    Assoc(h + p.meta, p.table, rest);
    AfterPrefix(h + p.meta + p.table, rest);
    assert Contents(p, sha, sig)[..HEADER_LEN] == h;
  }

  lemma HeaderLength(p: Parts, sha: Digest)
    requires IsDigest(sha)
    ensures |Header(p, sha)| == HEADER_LEN
  {
    hide Front, TableField, Offsets;
  }

  lemma AfterPrefix(a: Bytes, b: Bytes)
    ensures (a + b)[|a|..] == b
  {
  }

  lemma SigWindow(p: Parts, sha: Digest, sig: Bytes, n: nat)
    requires IsDigest(sha) && |sig| == Signatures.SIGNATURE_SIZE <= n
    ensures |sig| <= Gap(p.SignOffset())
    ensures var w := Window(Contents(p, sha, sig), p.SignOffset(), n);
            && (w.Some? <==> n <= Gap(p.SignOffset()) + |p.data|)
            && (w.Some? ==> sig <= w.value)
            && (n == Signatures.SIGNATURE_SIZE ==> w == Some(sig))
  {
    GapBounds(p.SignOffset());
    hide Contents, Header, Gap;
    Sections(p, sha, sig);
    var file, at, rest := Contents(p, sha, sig), p.SignOffset(), SignBuf(p, sig) + p.data;
    if n <= |rest| {
      assert file[at..at + n] == file[at..][..n] == rest[..n];
      assert rest[..|sig|] == sig;
      assert rest[..n][..|sig|] == sig;
      if n == Signatures.SIGNATURE_SIZE {
        assert rest[..n] == sig;
      }
    }
  }

  /** OpenPackage gives back what process wrote: the metadata, the signature,
      the header and its hash, and the size; it fails only if the metadata is no JSON. */
  lemma ProcessedOpens(p: Parts, sha: Digest, k: Key, t: Trust, info: Meta)
    requires IsDigest(sha) && KeySized(k) && Signable(p, sha, k, t)
    requires p.DataOffset() < TWO32 && p.block < TWO32
    ensures var sig := SignatureOf(p, sha, k);
            && |sig| == Signatures.SIGNATURE_SIZE && |sig| <= Gap(p.SignOffset())
            && Opened(Contents(p, sha, sig), sha, t, info) ==
                 match info(p.meta)
                 case None => None
                 case Some(named) =>
                   Some(Package.Package(sha(Header(p, sha)), p.DataOffset() + |p.data|, named.1, named.0, [],
                                        Header(p, sha), sig, p.meta))
  {
    hide Header, Contents, Num, Gap, Signature, Signer, IsHeader;
    SignatureFitsGap(p, sha, k, t);
    var h, sig := Header(p, sha), SignatureOf(p, sha, k);
    HeaderNumbers(p, sha);
    Sections(p, sha, sig);
    SigWindow(p, sha, sig, Signatures.SIGNATURE_SIZE);
    RawVerifies(p, sha, k, t, sig);
  }

  lemma RawVerifies(p: Parts, sha: Digest, k: Key, t: Trust, w: Bytes)
    requires KeySized(k) && Signable(p, sha, k, t) && SignatureOf(p, sha, k) <= w
    ensures Signer(t, Header(p, sha), w).Some?
  {
    hide Header, Signer, Signature;
    var h, sig := Header(p, sha), SignatureOf(p, sha, k);
    VerifiedFits(t, h, k.pub.value, k.sign(h).value);
    assert w == sig + w[|sig|..];
  }

  /** validate reads 128 bytes at the signature, more than a signature has: it
      accepts the file exactly when gap and data have that many together; then
      it knows where the data starts. */
  lemma ProcessedValid(p: Parts, sha: Digest, k: Key, t: Trust)
    requires IsDigest(sha) && KeySized(k) && Signable(p, sha, k, t)
    requires p.DataOffset() < TWO32 && p.block < TWO32
    ensures var sig := SignatureOf(p, sha, k);
            && |sig| <= Gap(p.SignOffset())
            && Validated(Contents(p, sha, sig), sha(Header(p, sha)), sha, t) ==
                 if 128 <= Gap(p.SignOffset()) + |p.data| then Some((p.DataOffset(), p.block)) else None
  {
    hide Header, Contents, Num, Gap, Signature, Signer, IsHeader;
    SignatureFitsGap(p, sha, k, t);
    var sig := SignatureOf(p, sha, k);
    HeaderNumbers(p, sha);
    Sections(p, sha, sig);
    SigWindow(p, sha, sig, 128);
    var w := Window(Contents(p, sha, sig), p.SignOffset(), 128);
    if w.Some? {
      RawVerifies(p, sha, k, t, w.value);
    }
  }

  /** So every written file with 29 bytes of image or more validates. A squashfs
      image has them: its superblock alone is longer. */
  lemma ProcessedValidates(p: Parts, sha: Digest, k: Key, t: Trust)
    requires IsDigest(sha) && KeySized(k) && Signable(p, sha, k, t)
    requires p.DataOffset() < TWO32 && p.block < TWO32 && |p.data| >= 29
    ensures |SignatureOf(p, sha, k)| <= Gap(p.SignOffset())
    ensures Validated(Contents(p, sha, SignatureOf(p, sha, k)), sha(Header(p, sha)), sha, t)
         == Some((p.DataOffset(), p.block))
  {
    hide Contents, Header, Validated, Signable, SignatureOf, Gap;
    ProcessedValid(p, sha, k, t);
    GapBounds(p.SignOffset());
  }

  /** ReadAt of a validated package: byte ranges of the squashfs image itself. */
  lemma ReadsImage(p: Parts, sha: Digest, sig: Bytes, off: nat, n: nat)
    requires IsDigest(sha) && |sig| <= Gap(p.SignOffset())
    ensures Window(Contents(p, sha, sig), off + p.DataOffset(), n) == Window(p.data, off, n)
  {
    hide Header, Gap, Contents;
    Sections(p, sha, sig);
    var file, at := Contents(p, sha, sig), p.DataOffset();
    AfterPrefix(SignBuf(p, sig), p.data);
    assert file[at..] == file[p.SignOffset()..][Gap(p.SignOffset())..];
    if n > 0 && off + n <= |p.data| {
      assert file[off + at..off + at + n] == file[at..][off..off + n];
    }
  }

  /** For images below 2^43 bytes the offsets of the header never wrap. */
  lemma OffsetsFit(p: Parts, data: Bytes, created: nat, json: Json, sha: Digest)
    requires IsDigest(sha) && PartsOf(p, data, created, json, sha)
    requires |data| < 0x800_0000_0000 && |p.meta| <= Database.MAX_META
    ensures p.DataOffset() < TWO32 && p.block < TWO32
  {
    hide Gap, Table, Blocks, Pow2;
    TableSize(sha, Blocks(data, p.block));
    BlockCount(data, p.block);
    GapBounds(p.SignOffset());
    var n, b := |data|, p.block;
    var c := (n + b - 1) / b;
    if Tabled(n, b) {
      RoundedUp(n, b);
    } else {
      assert c <= 0x400_0001;
    }
  }

  lemma RoundedUp(n: nat, b: nat)
    requires b > 0
    ensures (n + b - 1) / b <= n / b + 1
  {
    var q := n / b;
    assert n == q * b + n % b;
    if n % b == 0 {
      Quotient(b - 1, b, q);
    } else {
      assert (q + 1) * b == q * b + b;
      Quotient(n % b - 1, b, q + 1);
    }
  }

  /** A package made by process and added to a database can be exported again
      exactly when its name and path are short enough: header, signature and
      metadata always are. */
  lemma ProcessedFits(s: Database.Store, p: Parts, sha: Digest, k: Key, t: Trust, info: Meta, path: Bytes)
    requires IsDigest(sha) && KeySized(k) && Signable(p, sha, k, t)
    requires p.DataOffset() < TWO32 && p.block < TWO32 && |p.meta| <= Database.MAX_META
    requires |SignatureOf(p, sha, k)| <= Gap(p.SignOffset())
    requires var o := Opened(Contents(p, sha, SignatureOf(p, sha, k)), sha, t, info);
             o.Some? && Database.Added(s, o.value.(path := path)).Ok?
    ensures var q := Opened(Contents(p, sha, SignatureOf(p, sha, k)), sha, t, info).value.(path := path);
            var s' := Database.Stored(s, q);
            var e := Entry(Collate.Collated(q.name), P2pValue(q.hash, q.inodes, q.name));
            && Database.Added(s, q) == Ok(s')
            && e in s'.p2p && Export.Exportable(s', e)
            && (Export.Fits(s', e) <==> |q.name| <= 256 && |path| <= 256)
  {
    hide Contents, Header, Opened, Signer, Signature, Gap, Put, Collate.Collated, BE, Get;
    ProcessedOpens(p, sha, k, t, info);
    var q := Opened(Contents(p, sha, SignatureOf(p, sha, k)), sha, t, info).value.(path := path);
    HeaderLength(p, sha);
    var e := Entry(Collate.Collated(q.name), P2pValue(q.hash, q.inodes, q.name));
    PutStored(s.p2p, e.key, e.value, e);
    Database.PkgValueFields(q.size, q.inodes, q.name, q.hash);
    GetPut(s.pkg, q.hash, Database.PkgValue(q.size, q.inodes, q.name), q.hash);
    GetPut(s.header, q.hash, q.header, q.hash);
    GetPut(s.sig, q.hash, q.sig, q.hash);
    GetPut(s.meta, q.hash, q.meta, q.hash);
    GetPut(s.path, q.hash, q.path, q.hash);
  }
}

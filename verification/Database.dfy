/** The package tables of a database: AddPackage, RemovePackage and the data
    section parser of index (apkgdb/index.go). */
module Database {
  import opened Bytes
  import opened Codec
  import opened Collate
  import opened Varblob
  import opened Buckets
  import opened Records
  import opened Pins
  import Signatures

  const TWO32 := 0x1_0000_0000
  const MAX_FIELD := 256
  const SIGNATURE_SIZE := Signatures.SIGNATURE_SIZE
  const MAX_META := 1024 * 1024

  /** The bolt buckets that hold packages and pins. */
  datatype Store = Store(p2p: Bucket, pkg: Bucket, header: Bucket, sig: Bucket, meta: Bucket, path: Bucket,
                         pins: Bucket)

  const EMPTY_STORE := Store([], [], [], [], [], [], [])

  /** A package to be stored. */
  datatype Package = Package(hash: Bytes, size: nat, inodes: nat, name: Bytes, path: Bytes,
                             header: Bytes, sig: Bytes, meta: Bytes)

  predicate ValidPackage(p: Package) {
    |p.hash| == HASH_SIZE && p.size < Varblob.TWO64 && p.inodes < Varblob.TWO64
  }

  /** Value of `pkg`: type, size, inode number (unused), inode count, name. */
  function PkgValue(size: nat, inodes: nat, name: Bytes): Bytes {
    [0] + BE(size, 8) + BE(0, 8) + BE(inodes, 8) + name
  }

  /** The bytes of a `pkg` value. */
  lemma PkgBytes(size: nat, inodes: nat, name: Bytes)
    requires size < 0x1_0000_0000_0000_0000 && inodes < 0x1_0000_0000_0000_0000
    ensures var v := PkgValue(size, inodes, name);
            && |v| == 25 + |name| && v[0] == 0 && FromBE(v[1..9]) == size && v[9..17] == [0, 0, 0, 0, 0, 0, 0, 0]
            && FromBE(v[17..25]) == inodes && v[25..] == name
  {
    var v := PkgValue(size, inodes, name);
    BE8(size);
    BE8(inodes);
    assert v[1..9] == BE(size, 8) && v[17..25] == BE(inodes, 8);
  }

  /** The value `pkg` holds for an indexed package. */
  predicate PkgValueFor(pv: Bytes, v: Bytes)
    requires IsP2pValue(v)
  {
    |pv| >= 25 && pv[0] == 0 && pv[9..17] == BE(0, 8) && pv[17..25] == v[32..40] && pv[25..] == v[40..]
  }

  // ----- Storing one package

  /** Whether bbolt accepts the six entries of a package. */
  predicate Accepted(p: Package) {
    && Storable(Collated(p.name), P2pValue(p.hash, p.inodes, p.name))
    && Storable(p.hash, PkgValue(p.size, p.inodes, p.name))
    && Storable(p.hash, p.header) && Storable(p.hash, p.sig)
    && Storable(p.hash, p.meta) && Storable(p.hash, p.path)
  }

  function Stored(s: Store, p: Package): Store {
    s.(p2p := Put(s.p2p, Collated(p.name), P2pValue(p.hash, p.inodes, p.name)),
       pkg := Put(s.pkg, p.hash, PkgValue(p.size, p.inodes, p.name)),
       header := Put(s.header, p.hash, p.header),
       sig := Put(s.sig, p.hash, p.sig),
       meta := Put(s.meta, p.hash, p.meta),
       path := Put(s.path, p.hash, p.path))
  }

  /** AddPackage: an error, and then no change, if the hash is known or bbolt refuses. */
  function Added(s: Store, p: Package): Result<Store> {
    if Get(s.pkg, p.hash).Some? || !Accepted(p) then Err(Malformed) else Ok(Stored(s, p))
  }

  function Removed(s: Store, name: Bytes): Store {
    s.(p2p := Delete(s.p2p, Collated(name)))
  }

  // ----- The invariant

  /** What the tables hold for an entry of the index. */
  ghost predicate Backed(s: Store, e: Entry) {
    && IsP2pValue(e.value) && e.key == Collated(P2pName(e.value))
    && Get(s.pkg, P2pHash(e.value)).Some?
    && PkgValueFor(Get(s.pkg, P2pHash(e.value)).value, e.value)
    && Get(s.header, P2pHash(e.value)).Some? && Get(s.sig, P2pHash(e.value)).Some?
    && Get(s.meta, P2pHash(e.value)).Some? && Get(s.path, P2pHash(e.value)).Some?
  }

  ghost predicate DistinctHashes(p2p: Bucket) {
    forall e, f |
      e in p2p && f in p2p && IsP2pValue(e.value) && IsP2pValue(f.value) && P2pHash(e.value) == P2pHash(f.value) ::
      e == f
  }

  ghost predicate AllStorable(b: Bucket) {
    forall e | e in b :: Storable(e.key, e.value)
  }

  ghost predicate Good(s: Store) {
    && (forall e | e in s.p2p :: Backed(s, e))
    && DistinctHashes(s.p2p)
    && AllStorable(s.p2p) && AllStorable(s.pkg) && AllStorable(s.header) && AllStorable(s.sig)
    && AllStorable(s.meta) && AllStorable(s.path)
    && AllStorable(s.pins) && PinShaped(s.pins)
  }

  /** Every pin key has the NUL between channel and prefix. */
  ghost predicate PinShaped(pins: Bucket) {
    forall e | e in pins :: NUL in e.key
  }

  lemma EmptyGood()
    ensures Good(EMPTY_STORE)
  {
  }

  /** A package that has been added is in all six tables, with its own data,
      and no other entry of any table has changed. */
  lemma AddedOnly(s: Store, p: Package, name: Bytes, h: Bytes)
    requires Added(s, p).Ok?
    ensures var t := Added(s, p).value;
            && Get(t.p2p, Collated(name)) ==
                 (if name == p.name then Some(P2pValue(p.hash, p.inodes, p.name)) else Get(s.p2p, Collated(name)))
            && Get(t.pkg, h) == (if h == p.hash then Some(PkgValue(p.size, p.inodes, p.name)) else Get(s.pkg, h))
            && Get(t.header, h) == (if h == p.hash then Some(p.header) else Get(s.header, h))
            && Get(t.sig, h) == (if h == p.hash then Some(p.sig) else Get(s.sig, h))
            && Get(t.meta, h) == (if h == p.hash then Some(p.meta) else Get(s.meta, h))
            && Get(t.path, h) == (if h == p.hash then Some(p.path) else Get(s.path, h))
            && t.pins == s.pins
  {
    hide Get, Put, Collated, PkgValue, P2pValue;
    if Collated(name) == Collated(p.name) {
      CollatedInjective(name, p.name);
    }
    GetPut(s.p2p, Collated(p.name), P2pValue(p.hash, p.inodes, p.name), Collated(name));
    GetPut(s.pkg, p.hash, PkgValue(p.size, p.inodes, p.name), h);
    GetPut(s.header, p.hash, p.header, h);
    GetPut(s.sig, p.hash, p.sig, h);
    GetPut(s.meta, p.hash, p.meta, h);
    GetPut(s.path, p.hash, p.path, h);
  }

  /** AddPackage succeeds exactly for a hash that is not known, if bbolt takes
      keys and values of these sizes; what the index has under the name does not matter. */
  lemma AddSucceeds(s: Store, p: Package)
    requires |p.hash| == 32
    ensures Added(s, p).Ok? <==>
              && Get(s.pkg, p.hash) == None
              && 0 < |Collated(p.name)| <= 32768 && 40 + |p.name| <= 0x7fff_fffe
              && |p.header| <= 0x7fff_fffe && |p.sig| <= 0x7fff_fffe
              && |p.meta| <= 0x7fff_fffe && |p.path| <= 0x7fff_fffe
    ensures Added(s, p).Err? ==> Applied(s, Add(p)) == s
  {
    hide Get, Collated, BE;
  }

  /** So does index, for packages it does not know yet. */
  lemma MergeSucceeds(s: Store, p: Package)
    ensures Get(s.pkg, p.hash).Some? ==> Merged(s, p) == Ok(s)
    ensures Get(s.pkg, p.hash).None? ==> Merged(s, p) == Added(s, p)
  {
    hide Get;
  }

  /** Removing a name removes no other one. */
  lemma RemovedOnly(s: Store, removed: Bytes, name: Bytes)
    ensures Get(Removed(s, removed).p2p, Collated(name)) == if name == removed then None else Get(s.p2p, Collated(name))
    ensures Removed(s, removed).(p2p := s.p2p) == s
  {
    hide Get, Delete, Collated;
    if Collated(name) == Collated(removed) {
      CollatedInjective(name, removed);
    }
    GetDelete(s.p2p, Collated(removed), Collated(name));
  }

  lemma GoodIndexed(s: Store)
    requires Good(s)
    ensures Indexed(s.p2p)
  {
    forall e | e in s.p2p
      ensures IsP2pValue(e.value) && e.key == Collated(P2pName(e.value))
    {
      assert Backed(s, e);
    }
  }

  lemma PkgValueFields(size: nat, inodes: nat, name: Bytes, hash: Bytes)
    requires |hash| == HASH_SIZE
    ensures IsP2pValue(P2pValue(hash, inodes, name))
    ensures P2pHash(P2pValue(hash, inodes, name)) == hash && P2pName(P2pValue(hash, inodes, name)) == name
    ensures PkgValueFor(PkgValue(size, inodes, name), P2pValue(hash, inodes, name))
  {
    var pv, v := PkgValue(size, inodes, name), P2pValue(hash, inodes, name);
    assert pv[17..25] == BE(inodes, 8) == v[32..40];
    assert pv[9..17] == BE(0, 8);
  }

  lemma PutStorable(b: Bucket, k: Bytes, v: Bytes)
    requires AllStorable(b) && Storable(k, v)
    ensures AllStorable(Put(b, k, v))
  {
    forall e | e in Put(b, k, v)
      ensures Storable(e.key, e.value)
    {
      PutStored(b, k, v, e);
    }
  }

  /** A package with a new hash keeps the invariant. */
  lemma StoredGood(s: Store, p: Package)
    requires Good(s) && ValidPackage(p) && Accepted(p) && Get(s.pkg, p.hash).None?
    ensures Good(Stored(s, p))
  {
    var s' := Stored(s, p);
    var entry := Entry(Collated(p.name), P2pValue(p.hash, p.inodes, p.name));
    PkgValueFields(p.size, p.inodes, p.name, p.hash);
    forall e | e in s'.p2p
      ensures Backed(s', e)
      ensures IsP2pValue(e.value) && (P2pHash(e.value) == p.hash ==> e == entry)
    {
      PutStored(s.p2p, entry.key, entry.value, e);
      if e == entry {
        NewBacked(s, p);
      } else {
        assert Backed(s, e);
        OldBacked(s, p, e);
      }
    }
    StoredDistinct(s, p);
    StoredStorable(s, p);
  }

  lemma NewBacked(s: Store, p: Package)
    requires |p.hash| == HASH_SIZE
    ensures Backed(Stored(s, p), Entry(Collated(p.name), P2pValue(p.hash, p.inodes, p.name)))
  {
    PkgValueFields(p.size, p.inodes, p.name, p.hash);
    GetPut(s.pkg, p.hash, PkgValue(p.size, p.inodes, p.name), p.hash);
    GetPut(s.header, p.hash, p.header, p.hash);
    GetPut(s.sig, p.hash, p.sig, p.hash);
    GetPut(s.meta, p.hash, p.meta, p.hash);
    GetPut(s.path, p.hash, p.path, p.hash);
  }

  lemma OldBacked(s: Store, p: Package, e: Entry)
    requires Backed(s, e) && Get(s.pkg, p.hash).None?
    ensures Backed(Stored(s, p), e) && P2pHash(e.value) != p.hash
  {
    var h := P2pHash(e.value);
    GetPut(s.pkg, p.hash, PkgValue(p.size, p.inodes, p.name), h);
    GetPut(s.header, p.hash, p.header, h);
    GetPut(s.sig, p.hash, p.sig, h);
    GetPut(s.meta, p.hash, p.meta, h);
    GetPut(s.path, p.hash, p.path, h);
  }

  lemma StoredDistinct(s: Store, p: Package)
    requires Good(s) && |p.hash| == HASH_SIZE && Get(s.pkg, p.hash).None?
    ensures DistinctHashes(Stored(s, p).p2p)
  {
    var entry := Entry(Collated(p.name), P2pValue(p.hash, p.inodes, p.name));
    PkgValueFields(p.size, p.inodes, p.name, p.hash);
    var p2p := Stored(s, p).p2p;
    forall e, f |
      e in p2p && f in p2p && IsP2pValue(e.value) && IsP2pValue(f.value) && P2pHash(e.value) == P2pHash(f.value)
      ensures e == f
    {
      PutStored(s.p2p, entry.key, entry.value, e);
      PutStored(s.p2p, entry.key, entry.value, f);
      if e != entry {
        assert Backed(s, e);
      }
      if f != entry {
        assert Backed(s, f);
      }
    }
  }

  lemma StoredStorable(s: Store, p: Package)
    requires Good(s) && Accepted(p)
    ensures var t := Stored(s, p);
            AllStorable(t.p2p) && AllStorable(t.pkg) && AllStorable(t.header) && AllStorable(t.sig)
            && AllStorable(t.meta) && AllStorable(t.path)
  {
    PutStorable(s.p2p, Collated(p.name), P2pValue(p.hash, p.inodes, p.name));
    PutStorable(s.pkg, p.hash, PkgValue(p.size, p.inodes, p.name));
    PutStorable(s.header, p.hash, p.header);
    PutStorable(s.sig, p.hash, p.sig);
    PutStorable(s.meta, p.hash, p.meta);
    PutStorable(s.path, p.hash, p.path);
  }

  lemma RemovedGood(s: Store, name: Bytes)
    requires Good(s)
    ensures Good(Removed(s, name))
  {
    var s' := Removed(s, name);
    forall e | e in s'.p2p
      ensures e in s.p2p && Backed(s', e)
    {
      DeleteStored(s.p2p, Collated(name), e);
      assert Backed(s, e);
    }
  }

  // ----- The data section

  /** binary.Read of a big-endian number, and io.ReadFull. */
  function Take(s: Bytes, n: nat): Result<Parsed<Bytes>> {
    if |s| < n then Err(Eof) else Ok(Parsed(s[..n], s[n..]))
  }

  /** One package record, type byte included. */
  function ParsePackage(s: Bytes): Result<Parsed<Package>> {
    match Take(s, 1)
    case Err(e) => Err(e)
    case Ok(t) =>
      if t.value != [0] then Err(Malformed)
      else
        match Take(t.rest, HASH_SIZE)
        case Err(e) => Err(e)
        case Ok(h) =>
          match Take(h.rest, 8)
          case Err(e) => Err(e)
          case Ok(size) =>
            match Take(size.rest, 4)
            case Err(e) => Err(e)
            case Ok(inodes) => ParseFields(h.value, FromBE(size.value), FromBE(inodes.value), inodes.rest)
  }

  function ParseFields(hash: Bytes, size: nat, inodes: nat, s: Bytes): Result<Parsed<Package>> {
    match ParseBlob(s, MAX_FIELD)
    case Err(e) => Err(e)
    case Ok(name) =>
      match ParseBlob(name.rest, MAX_FIELD)
      case Err(e) => Err(e)
      case Ok(path) =>
        match ParseBlob(path.rest, MAX_FIELD)
        case Err(e) => Err(e)
        case Ok(header) =>
          match ParseBlob(header.rest, SIGNATURE_SIZE)
          case Err(e) => Err(e)
          case Ok(sig) =>
            match ParseBlob(sig.rest, MAX_META)
            case Err(e) => Err(e)
            case Ok(meta) =>
              Ok(Parsed(Package(hash, size, inodes, name.value, path.value, header.value, sig.value, meta.value),
                        meta.rest))
  }

  /** What a package record must be to be read. */
  lemma PackageParsed(s: Bytes)
    requires ParsePackage(s).Ok?
    ensures var p := ParsePackage(s).value.value;
            && |s| > 45 && s[0] == 0 && p.hash == s[1..33]
            && p.size == FromBE(s[33..41]) && p.inodes == FromBE(s[41..45])
            && |p.name| <= 256 && |p.path| <= 256 && |p.header| <= 256 && |p.sig| <= 99 && |p.meta| <= 1048576
  {
    hide ParseUvarint, FromBE;
    var t := s[1..];
    var u := t[32..];
    var w := u[8..];
    assert s[0] == s[..1][0];
    assert t[..32] == s[1..33] && u[..8] == s[33..41] && w[..4] == s[41..45];
    BlobShorter(w[4..], MAX_FIELD);
  }

  /** And a pin record. */
  lemma PinParsed(s: Bytes)
    requires ParsePin(s).Ok?
    ensures var p := ParsePin(s).value.value;
            s != [] && s[0] == 1 && |p.channel| <= 256 && |p.prefix| <= 256 && |p.version| <= 256
  {
    hide ParseUvarint;
    assert s[0] == s[..1][0];
  }

  /** A package of the file: known hashes are skipped. */
  function Merged(s: Store, p: Package): Result<Store> {
    if Get(s.pkg, p.hash).Some? then Ok(s)
    else if !Accepted(p) then Err(Malformed)
    else Ok(Stored(s, p))
  }

  /** The loop over `count` package records. */
  function IndexPackages(s: Store, data: Bytes, count: nat): Result<Parsed<Store>>
    decreases count
  {
    if count == 0 then Ok(Parsed(s, data))
    else
      match ParsePackage(data)
      case Err(e) => Err(e)
      case Ok(p) =>
        match Merged(s, p.value)
        case Err(e) => Err(e)
        case Ok(s') => IndexPackages(s', p.rest, count - 1)
  }

  datatype Pin = Pin(channel: Bytes, prefix: Bytes, version: Bytes)

  function ParsePin(s: Bytes): Result<Parsed<Pin>> {
    match Take(s, 1)
    case Err(e) => Err(e)
    case Ok(t) =>
      if t.value != [1] then Err(Malformed)
      else
        match ParseBlob(t.rest, MAX_FIELD)
        case Err(e) => Err(e)
        case Ok(ch) =>
          match ParseBlob(ch.rest, MAX_FIELD)
          case Err(e) => Err(e)
          case Ok(pfx) =>
            match ParseBlob(pfx.rest, MAX_FIELD)
            case Err(e) => Err(e)
            case Ok(v) => Ok(Parsed(Pin(ch.value, pfx.value, v.value), v.rest))
  }

  lemma BlobShorter(s: Bytes, maxLen: nat)
    ensures ParseBlob(s, maxLen).Ok? ==> |ParseBlob(s, maxLen).value.rest| < |s|
  {
    UvarintFits(s, 0);
  }

  lemma PinShorter(s: Bytes)
    ensures ParsePin(s).Ok? ==> |ParsePin(s).value.rest| < |s|
  {
    if ParsePin(s).Ok? {
      BlobShorter(s[1..], MAX_FIELD);
      var ch := ParseBlob(s[1..], MAX_FIELD).value;
      BlobShorter(ch.rest, MAX_FIELD);
      BlobShorter(ParseBlob(ch.rest, MAX_FIELD).value.rest, MAX_FIELD);
    }
  }

  /** The loop over the pins, up to the end of the data section. */
  function IndexPins(pins: Bucket, data: Bytes): Result<Bucket>
    decreases |data|
  {
    if data == [] then Ok(pins)
    else
      PinShorter(data);
      match ParsePin(data)
      case Err(e) => Err(e)
      case Ok(p) =>
        var k := PinKey(p.value.channel, p.value.prefix);
        if !Storable(k, p.value.version) then Err(Malformed)
        else IndexPins(Put(pins, k, p.value.version), p.rest)
  }

  function IndexData(s: Store, data: Bytes, count: nat): Result<Store> {
    match IndexPackages(s, data, count)
    case Err(e) => Err(e)
    case Ok(p) =>
      match IndexPins(p.value.pins, p.rest)
      case Err(e) => Err(e)
      case Ok(pins) => Ok(p.value.(pins := pins))
  }

  lemma TakeBound(b: Bytes)
    ensures |b| == 8 ==> FromBE(b) < Varblob.TWO64
    ensures |b| == 4 ==> FromBE(b) < TWO32
  {
    FromBERoundTrip(b);
    Widths();
  }

  lemma ParsedValid(s: Bytes)
    ensures ParsePackage(s).Ok? ==>
              ValidPackage(ParsePackage(s).value.value) && ParsePackage(s).value.value.inodes < TWO32
  {
    if ParsePackage(s).Ok? {
      var t := s[1..];
      TakeBound(t[32..][..8]);
      TakeBound(t[32..][8..][..4]);
    }
  }

  lemma {:induction false} IndexPackagesGood(s: Store, data: Bytes, count: nat)
    requires Good(s)
    ensures IndexPackages(s, data, count).Ok? ==> Good(IndexPackages(s, data, count).value.value)
    decreases count
  {
    hide ParsePackage, Good, Merged, ValidPackage;
    if count > 0 && ParsePackage(data).Ok? {
      var p := ParsePackage(data).value;
      ParsedValid(data);
      MergedGood(s, p.value);
      if Merged(s, p.value).Ok? {
        IndexPackagesGood(Merged(s, p.value).value, p.rest, count - 1);
      }
    }
  }

  lemma MergedGood(s: Store, p: Package)
    requires Good(s) && ValidPackage(p)
    ensures Merged(s, p).Ok? ==> Good(Merged(s, p).value)
  {
    if Get(s.pkg, p.hash).None? && Accepted(p) {
      StoredGood(s, p);
    }
  }

  lemma {:induction false} IndexPinsStorable(pins: Bucket, data: Bytes)
    requires AllStorable(pins) && PinShaped(pins)
    ensures IndexPins(pins, data).Ok? ==>
              AllStorable(IndexPins(pins, data).value) && PinShaped(IndexPins(pins, data).value)
    decreases |data|
  {
    if data != [] && ParsePin(data).Ok? {
      PinShorter(data);
      var p := ParsePin(data).value;
      var k := PinKey(p.value.channel, p.value.prefix);
      if Storable(k, p.value.version) {
        PutStorable(pins, k, p.value.version);
        PutShaped(pins, p.value.channel, p.value.prefix, p.value.version);
        IndexPinsStorable(Put(pins, k, p.value.version), p.rest);
      }
    }
  }

  lemma PutShaped(pins: Bucket, channel: Bytes, prefix: Bytes, version: Bytes)
    requires PinShaped(pins)
    ensures PinShaped(Put(pins, PinKey(channel, prefix), version))
  {
    var k := PinKey(channel, prefix);
    assert k[|channel|] == NUL;
    forall e | e in Put(pins, k, version)
      ensures NUL in e.key
    {
      PutStored(pins, k, version, e);
    }
  }

  lemma IndexGood(s: Store, data: Bytes, count: nat)
    requires Good(s)
    ensures IndexData(s, data, count).Ok? ==> Good(IndexData(s, data, count).value)
  {
    IndexPackagesGood(s, data, count);
    if IndexPackages(s, data, count).Ok? {
      var p := IndexPackages(s, data, count).value;
      IndexPinsStorable(p.value.pins, p.rest);
      if IndexPins(p.value.pins, p.rest).Ok? {
        PinsChanged(p.value, IndexPins(p.value.pins, p.rest).value);
      }
    }
  }

  lemma PinsChanged(s: Store, pins: Bucket)
    requires Good(s) && AllStorable(pins) && PinShaped(pins)
    ensures Good(s.(pins := pins))
  {
    forall e | e in s.p2p
      ensures Backed(s.(pins := pins), e)
    {
      assert Backed(s, e);
    }
  }

  // ----- Runs

  datatype Op = Add(p: Package) | Remove(name: Bytes) | Index(data: Bytes, count: nat) | ChangePin(change: Change)

  /** One call; a failing one changes nothing. */
  function Applied(s: Store, op: Op): Store {
    match op
    case Add(p) => (match Added(s, p) case Ok(s') => s' case Err(_) => s)
    case Remove(name) => Removed(s, name)
    case Index(data, count) => (match IndexData(s, data, count) case Ok(s') => s' case Err(_) => s)
    case ChangePin(c) => s.(pins := Changed(s.pins, c))
  }

  function Run(s: Store, ops: seq<Op>): Store
    decreases |ops|
  {
    if ops == [] then s else Run(Applied(s, ops[0]), ops[1..])
  }

  /** After any sequence of calls on an empty database, each indexed key is the
      collation of its stored name, its hash has an entry with the same name
      and inode count in `pkg` and entries in the other tables, and distinct
      keys have distinct hashes. */
  lemma {:induction false} RunGood(s: Store, ops: seq<Op>)
    requires Good(s)
    requires forall i | 0 <= i < |ops| && ops[i].Add? :: ValidPackage(ops[i].p)
    ensures Good(Run(s, ops))
    decreases |ops|
  {
    if ops != [] {
      AppliedGood(s, ops[0]);
      RunGood(Applied(s, ops[0]), ops[1..]);
    }
  }

  lemma AppliedGood(s: Store, op: Op)
    requires Good(s) && (op.Add? ==> ValidPackage(op.p))
    ensures Good(Applied(s, op))
  {
    match op
    case Add(p) =>
      if Added(s, p).Ok? {
        StoredGood(s, p);
      }
    case Remove(name) => RemovedGood(s, name);
    case Index(data, count) => IndexGood(s, data, count);
    case ChangePin(c) =>
      var pins := Changed(s.pins, c);
      ChangedShaped(s.pins, c);
      PinsChanged(s, pins);
  }

  lemma ChangedShaped(pins: Bucket, c: Change)
    requires AllStorable(pins) && PinShaped(pins)
    ensures AllStorable(Changed(pins, c)) && PinShaped(Changed(pins, c))
  {
    var k := PinKey(c.channel, c.prefix);
    if c.SetPin? {
      if Storable(k, c.version) {
        PutStorable(pins, k, c.version);
        PutShaped(pins, c.channel, c.prefix, c.version);
      }
    } else {
      forall e | e in Delete(pins, k)
        ensures e in pins
      {
        DeleteStored(pins, k, e);
      }
    }
  }

  // ----- Removed packages

  /** The hash is known, but no index entry has it. */
  ghost predicate Retired(s: Store, h: Bytes) {
    Get(s.pkg, h).Some? && forall e | e in s.p2p && IsP2pValue(e.value) :: P2pHash(e.value) != h
  }

  /** Removing a package retires its hash. */
  lemma RemoveRetires(s: Store, e: Entry)
    requires Good(s) && e in s.p2p && IsP2pValue(e.value)
    ensures Retired(Removed(s, P2pName(e.value)), P2pHash(e.value))
  {
    hide Get, Delete, Collated;
    assert Backed(s, e);
    var t := Removed(s, P2pName(e.value));
    forall f | f in t.p2p && IsP2pValue(f.value)
      ensures P2pHash(f.value) != P2pHash(e.value)
    {
      DeleteStored(s.p2p, Collated(P2pName(e.value)), f);
    }
  }

  lemma StoredRetired(s: Store, p: Package, h: Bytes)
    requires Retired(s, h) && |p.hash| == HASH_SIZE && Get(s.pkg, p.hash).None?
    ensures Retired(Stored(s, p), h)
  {
    hide Get, Put, Collated, PkgValue, P2pValue;
    var t := Stored(s, p);
    GetPut(s.pkg, p.hash, PkgValue(p.size, p.inodes, p.name), h);
    PkgValueFields(p.size, p.inodes, p.name, p.hash);
    forall e | e in t.p2p && IsP2pValue(e.value)
      ensures P2pHash(e.value) != h
    {
      PutStored(s.p2p, Collated(p.name), P2pValue(p.hash, p.inodes, p.name), e);
    }
  }

  lemma MergedRetired(s: Store, p: Package, h: Bytes)
    requires Retired(s, h) && ValidPackage(p)
    ensures Merged(s, p).Ok? ==> Retired(Merged(s, p).value, h)
  {
    hide Retired, Stored;
    if Get(s.pkg, p.hash).None? {
      StoredRetired(s, p, h);
    }
  }

  lemma {:induction false} IndexPackagesRetired(s: Store, data: Bytes, count: nat, h: Bytes)
    requires Retired(s, h)
    ensures IndexPackages(s, data, count).Ok? ==> Retired(IndexPackages(s, data, count).value.value, h)
    decreases count
  {
    hide ParsePackage, Retired, Merged, ValidPackage;
    if count > 0 && ParsePackage(data).Ok? {
      var p := ParsePackage(data).value;
      ParsedValid(data);
      MergedRetired(s, p.value, h);
      if Merged(s, p.value).Ok? {
        IndexPackagesRetired(Merged(s, p.value).value, p.rest, count - 1, h);
      }
    }
  }

  lemma AppliedRetired(s: Store, op: Op, h: Bytes)
    requires Retired(s, h) && (op.Add? ==> ValidPackage(op.p))
    ensures Retired(Applied(s, op), h)
  {
    match op
    case Add(p) =>
      hide Retired;
      if Added(s, p).Ok? {
        StoredRetired(s, p, h);
      }
    case Remove(name) =>
      forall e | e in Removed(s, name).p2p && IsP2pValue(e.value)
        ensures P2pHash(e.value) != h
      {
        DeleteStored(s.p2p, Collated(name), e);
      }
    case Index(data, count) =>
      hide IndexPackages, IndexPins;
      IndexPackagesRetired(s, data, count, h);
    case ChangePin(c) =>
  }

  /** A removed package never comes back: RemovePackage leaves its hash behind,
      so no run of calls, adding it again or indexing files that hold it
      included, ever puts it into the index again. */
  lemma {:induction false} NeverBack(s: Store, ops: seq<Op>, h: Bytes)
    requires Retired(s, h)
    requires forall i | 0 <= i < |ops| && ops[i].Add? :: ValidPackage(ops[i].p)
    ensures Retired(Run(s, ops), h)
    decreases |ops|
  {
    hide Retired, Applied;
    if ops != [] {
      AppliedRetired(s, ops[0], h);
      NeverBack(Applied(s, ops[0]), ops[1..], h);
    }
  }

  // ----- Indexing the same file again

  ghost predicate KnownIn(s: Store, t: Store) {
    forall h :: Get(s.pkg, h).Some? ==> Get(t.pkg, h).Some?
  }

  lemma MergedKnown(s: Store, p: Package)
    requires Merged(s, p).Ok?
    ensures KnownIn(s, Merged(s, p).value) && Get(Merged(s, p).value.pkg, p.hash).Some?
  {
    if Get(s.pkg, p.hash).None? {
      forall h | Get(s.pkg, h).Some?
        ensures Get(Stored(s, p).pkg, h).Some?
      {
        GetPut(s.pkg, p.hash, PkgValue(p.size, p.inodes, p.name), h);
      }
      GetPut(s.pkg, p.hash, PkgValue(p.size, p.inodes, p.name), p.hash);
    }
  }

  lemma {:induction false} IndexKnown(s: Store, data: Bytes, count: nat)
    requires IndexPackages(s, data, count).Ok?
    ensures KnownIn(s, IndexPackages(s, data, count).value.value)
    decreases count
  {
    hide ParsePackage, Merged;
    if count > 0 {
      var p := ParsePackage(data).value;
      MergedKnown(s, p.value);
      IndexKnown(Merged(s, p.value).value, p.rest, count - 1);
    }
  }

  lemma KnownTwice(s: Store, mid: Store, t: Store, p: Package)
    requires KnownIn(s, mid) && KnownIn(mid, t) && Get(s.pkg, p.hash).Some?
    ensures Merged(t, p) == Ok(t)
  {
    hide Get;
  }

  /** A database that knows all packages of a file is not changed by its package section. */
  lemma {:induction false} PackagesAgain(s: Store, data: Bytes, count: nat, t: Store)
    requires IndexPackages(s, data, count).Ok?
    requires KnownIn(IndexPackages(s, data, count).value.value, t)
    ensures IndexPackages(t, data, count) == Ok(Parsed(t, IndexPackages(s, data, count).value.rest))
    decreases count
  {
    hide ParsePackage, Merged, Get, KnownIn;
    if count > 0 {
      var p := ParsePackage(data).value;
      var s' := Merged(s, p.value).value;
      MergedKnown(s, p.value);
      IndexKnown(s', p.rest, count - 1);
      KnownTwice(s', IndexPackages(s, data, count).value.value, t, p.value);
      PackagesAgain(Merged(s, p.value).value, p.rest, count - 1, t);
    }
  }

  /** The version the file's pin records leave under a key, if it has one. */
  function FilePin(data: Bytes, k: Bytes): Option<Bytes>
    decreases |data|
  {
    if data == [] then None
    else
      PinShorter(data);
      match ParsePin(data)
      case Err(_) => None
      case Ok(p) =>
        if FilePin(p.rest, k).Some? then FilePin(p.rest, k)
        else if PinKey(p.value.channel, p.value.prefix) == k then Some(p.value.version)
        else None
  }

  lemma {:induction false} PinsIndexed(pins: Bucket, data: Bytes, k: Bytes)
    requires IndexPins(pins, data).Ok?
    ensures Get(IndexPins(pins, data).value, k) ==
              if FilePin(data, k).Some? then FilePin(data, k) else Get(pins, k)
    decreases |data|
  {
    hide ParsePin, PinKey, Get, Put;
    if data != [] {
      PinShorter(data);
      var p := ParsePin(data).value;
      var key := PinKey(p.value.channel, p.value.prefix);
      GetPut(pins, key, p.value.version, k);
      PinsIndexed(Put(pins, key, p.value.version), p.rest, k);
    }
  }

  /** Whether pin records can be indexed does not depend on the pins there are. */
  lemma {:induction false} PinsReadable(pins: Bucket, pins': Bucket, data: Bytes)
    requires IndexPins(pins, data).Ok?
    ensures IndexPins(pins', data).Ok?
    decreases |data|
  {
    hide ParsePin, PinKey, Put;
    if data != [] {
      PinShorter(data);
      var p := ParsePin(data).value;
      var key := PinKey(p.value.channel, p.value.prefix);
      PinsReadable(Put(pins, key, p.value.version), Put(pins', key, p.value.version), p.rest);
    }
  }

  lemma PinsAgain(pins: Bucket, data: Bytes)
    requires IndexPins(pins, data).Ok?
    ensures IndexPins(IndexPins(pins, data).value, data) == Ok(IndexPins(pins, data).value)
  {
    hide IndexPins, Get, FilePin;
    var once := IndexPins(pins, data).value;
    PinsReadable(pins, once, data);
    var twice := IndexPins(once, data).value;
    forall k
      ensures Get(twice, k) == Get(once, k)
    {
      PinsIndexed(pins, data, k);
      PinsIndexed(once, data, k);
    }
    SameContent(twice, once);
  }

  /** Indexing the same file twice is indexing it once. */
  lemma IndexTwice(s: Store, data: Bytes, count: nat)
    requires IndexData(s, data, count).Ok?
    ensures IndexData(IndexData(s, data, count).value, data, count) == Ok(IndexData(s, data, count).value)
  {
    hide IndexPackages, IndexPins;
    var p := IndexPackages(s, data, count).value;
    var t := IndexData(s, data, count).value;
    PackagesAgain(s, data, count, t);
    PinsAgain(p.value.pins, p.rest);
  }
}

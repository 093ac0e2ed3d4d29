/** The code that changes a database: AddPackage, RemovePackage and index of
    apkgdb/index.go, with bolt's all-or-nothing transactions. */
module Index {
  import opened Bytes
  import opened Codec
  import opened Collate
  import opened Varblob
  import opened Buckets
  import opened Records
  import opened Pins
  import opened Database

  /** Put within a transaction: refused keys and values make it fail. */
  method PutChecked(b: Bucket, k: Bytes, v: Bytes) returns (ok: bool, b': Bucket)
    ensures ok == Storable(k, v)
    ensures b' == if ok then Put(b, k, v) else b
  {
    ok := Storable(k, v);
    b' := if ok then Put(b, k, v) else b;
  }

  /** The six Puts of a package. */
  method StorePackage(s: Store, p: Package) returns (r: Result<Store>)
    ensures r == if Accepted(p) then Ok(Stored(s, p)) else Err(Malformed)
  {
    hide Put, Collated, Storable, BE;
    var name := CollatedVersion(p.name);
    var tx, ok := s, false;
    ok, tx := PutP2p(tx, name, p);
    if !ok { return Err(Malformed); }
    var b: Bucket;
    ok, b := PutChecked(tx.pkg, p.hash, [0] + BE(p.size, 8) + BE(0, 8) + BE(p.inodes, 8) + p.name);
    if !ok { return Err(Malformed); }
    tx := tx.(pkg := b);
    ok, b := PutChecked(tx.header, p.hash, p.header);
    if !ok { return Err(Malformed); }
    tx := tx.(header := b);
    ok, b := PutChecked(tx.sig, p.hash, p.sig);
    if !ok { return Err(Malformed); }
    tx := tx.(sig := b);
    ok, b := PutChecked(tx.meta, p.hash, p.meta);
    if !ok { return Err(Malformed); }
    tx := tx.(meta := b);
    ok, b := PutChecked(tx.path, p.hash, p.path);
    if !ok { return Err(Malformed); }
    tx := tx.(path := b);
    r := Ok(tx);
  }

  method PutP2p(s: Store, key: Bytes, p: Package) returns (ok: bool, s': Store)
    ensures ok == Storable(key, P2pValue(p.hash, p.inodes, p.name))
    ensures s' == if ok then s.(p2p := Put(s.p2p, key, P2pValue(p.hash, p.inodes, p.name))) else s
  {
    var b: Bucket;
    ok, b := PutChecked(s.p2p, key, p.hash + BE(p.inodes, 8) + p.name);
    s' := if ok then s.(p2p := b) else s;
  }

  /** One package record, read field by field. */
  method ReadPackage(r: Reader) returns (p: Result<Package>)
    modifies r
    ensures match ParsePackage(old(r.rest))
            case Ok(q) => p == Ok(q.value) && r.rest == q.rest
            case Err(e) => p == Err(e)
  {
    hide FromBE, ParseBlob;
    var t := r.ReadFull(1);
    if t.Err? { return Err(t.error); }
    if t.value != [0] { return Err(Malformed); }
    var hash := r.ReadFull(HASH_SIZE);
    if hash.Err? { return Err(hash.error); }
    var size := r.ReadFull(8);
    if size.Err? { return Err(size.error); }
    var inodes := r.ReadFull(4);
    if inodes.Err? { return Err(inodes.error); }
    p := ReadFields(r, hash.value, FromBE(size.value), FromBE(inodes.value));
  }

  method ReadFields(r: Reader, hash: Bytes, size: nat, inodes: nat) returns (p: Result<Package>)
    modifies r
    ensures match ParseFields(hash, size, inodes, old(r.rest))
            case Ok(q) => p == Ok(q.value) && r.rest == q.rest
            case Err(e) => p == Err(e)
  {
    hide ParseBlob;
    var name := ReadVarblob(r, MAX_FIELD);
    if name.Err? { return Err(name.error); }
    var path := ReadVarblob(r, MAX_FIELD);
    if path.Err? { return Err(path.error); }
    var header := ReadVarblob(r, MAX_FIELD);
    if header.Err? { return Err(header.error); }
    var sig := ReadVarblob(r, SIGNATURE_SIZE);
    if sig.Err? { return Err(sig.error); }
    var meta := ReadVarblob(r, MAX_META);
    if meta.Err? { return Err(meta.error); }
    p := Ok(Package(hash, size, inodes, name.value, path.value, header.value, sig.value, meta.value));
  }

  /** The loop over the packages of a data section. */
  method ReadPackages(s: Store, r: Reader, count: nat) returns (tx: Result<Store>)
    modifies r
    ensures match IndexPackages(s, old(r.rest), count)
            case Ok(q) => tx == Ok(q.value) && r.rest == q.rest
            case Err(e) => tx == Err(e)
  {
    hide ParsePackage, Get, Accepted, Stored;
    var cur := s;
    var i := 0;
    while i < count
      invariant 0 <= i <= count
      invariant IndexPackages(cur, r.rest, count - i) == IndexPackages(s, old(r.rest), count)
    {
      var p := ReadPackage(r);
      if p.Err? { return Err(p.error); }
      var known := Get(cur.pkg, p.value.hash);
      if known.None? {
        var stored := StorePackage(cur, p.value);
        if stored.Err? { return Err(stored.error); }
        cur := stored.value;
      }
      i := i + 1;
    }
    tx := Ok(cur);
  }

  /** The loop over the pins: it ends where the section ends. */
  method ReadPins(pins: Bucket, r: Reader) returns (b: Result<Bucket>)
    modifies r
    ensures b == IndexPins(pins, old(r.rest))
  {
    hide ParseBlob, Put, Storable, PinKey;
    var cur := pins;
    while true
      invariant IndexPins(cur, r.rest) == IndexPins(pins, old(r.rest))
      decreases |r.rest|
    {
      ghost var before := r.rest;
      PinShorter(before);
      var t := r.ReadByte();
      if t.Err? { break; }
      if t.value != 1 { return Err(Malformed); }
      assert before[..1] == [t.value];
      var channel := ReadVarblob(r, MAX_FIELD);
      if channel.Err? { return Err(channel.error); }
      var prefix := ReadVarblob(r, MAX_FIELD);
      if prefix.Err? { return Err(prefix.error); }
      var version := ReadVarblob(r, MAX_FIELD);
      if version.Err? { return Err(version.error); }
      assert ParsePin(before) == Ok(Parsed(Pin(channel.value, prefix.value, version.value), r.rest));
      var key := MakePinKey(channel.value, prefix.value);
      var ok;
      ok, cur := PutChecked(cur, key, version.value);
      if !ok { return Err(Malformed); }
    }
    b := Ok(cur);
  }

  class DB {
    var store: Store

    constructor ()
      ensures store == EMPTY_STORE
    {
      store := EMPTY_STORE;
    }

    /** AddPackage: refused, and without effect, if the hash is known. */
    method AddPackage(p: Package) returns (ok: bool)
      modifies this
      ensures ok == Added(old(store), p).Ok?
      ensures store == if ok then Added(old(store), p).value else old(store)
    {
      var known := Get(store.pkg, p.hash);
      if known.Some? { return false; }
      var tx := StorePackage(store, p);
      if tx.Err? { return false; }
      store := tx.value;
      ok := true;
    }

    /** RemovePackage takes a package out of the index only. */
    method RemovePackage(name: Bytes)
      modifies this
      ensures store == Removed(old(store), name)
    {
      var key := CollatedVersion(name);
      store := store.(p2p := Delete(store.p2p, key));
    }

    /** index, on a data section that has passed the hash check: all of it or nothing. */
    method IndexSection(data: Bytes, count: nat) returns (ok: bool)
      modifies this
      ensures ok == IndexData(old(store), data, count).Ok?
      ensures store == if ok then IndexData(old(store), data, count).value else old(store)
    {
      hide IndexPackages, IndexPins;
      var r := new Reader(data);
      var tx := ReadPackages(store, r, count);
      if tx.Err? { return false; }
      var pins := ReadPins(tx.value.pins, r);
      if pins.Err? { return false; }
      store := tx.value.(pins := pins.value);
      ok := true;
    }
  }
}

/** Signature blobs: apkgsig/sign.go and apkgsig/verify.go. Ed25519 and the
    table of trusted keys are parameters. */
module Signatures {
  import opened Bytes
  import opened Varblob

  const PUBLIC_KEY_SIZE := 32
  const ED25519_SIZE := 64
  const SIGNATURE_SIZE := 3 + PUBLIC_KEY_SIZE + ED25519_SIZE

  /** A signing key; the hardware behind it may fail. */
  datatype Key = Key(pub: Option<Bytes>, sign: Bytes -> Option<Bytes>)

  /** Ed25519 verification of (key, data, signature), and the keys that are trusted. */
  datatype Trust = Trust(ed25519: (Bytes, Bytes, Bytes) -> bool, known: Bytes -> bool)

  /** Type 1, public key, signature. */
  function Signature(pub: Bytes, blob: Bytes): Bytes {
    Uvarint(1) + (Blob(pub) + Blob(blob))
  }

  /** Sign: refused when the key fails or the blob would be larger than the space for it. */
  function Signed(k: Key, data: Bytes): Option<Bytes> {
    if k.pub.None? || k.sign(data).None? then None
    else
      var s := Signature(k.pub.value, k.sign(data).value);
      if |s| > SIGNATURE_SIZE then None else Some(s)
  }

  /** Go's ed25519.Verify: a signature of another size is not valid. It panics
      on a key of another size, which counts as no signer here. */
  predicate Accepts(t: Trust, pub: Bytes, data: Bytes, blob: Bytes) {
    |pub| == PUBLIC_KEY_SIZE && |blob| == ED25519_SIZE && t.ed25519(pub, data, blob)
  }

  /** verify: the signer's key, if the signature is valid and the key trusted.
      An error in reading the version number is ignored. */
  function Signer(t: Trust, data: Bytes, s: Bytes): Option<Bytes> {
    var version := AnyUvarint(s, 0);
    if version.value != 1 then None
    else
      match ParseBlob(version.rest, PUBLIC_KEY_SIZE)
      case Err(_) => None
      case Ok(pub) =>
        match ParseBlob(pub.rest, ED25519_SIZE)
        case Err(_) => None
        case Ok(blob) =>
          if Accepts(t, pub.value, data, blob.value) && t.known(pub.value) then Some(pub.value) else None
  }

  lemma VersionRead(rest: Bytes)
    ensures AnyUvarint(Uvarint(1) + rest, 0) == Parsed(1, rest)
  {
    UvarintRoundTrip(1, rest, 0);
    AnyUvarintOk(Uvarint(1) + rest, 0);
  }

  /** A signature verifies, whatever follows it in the file, exactly when its
      parts have the sizes of Ed25519, the key is trusted and Ed25519 accepts it. */
  lemma SignatureVerifies(t: Trust, data: Bytes, pub: Bytes, blob: Bytes, rest: Bytes)
    requires |pub| < Varblob.TWO64 && |blob| < Varblob.TWO64
    ensures Signer(t, data, Signature(pub, blob) + rest) ==
              if |pub| == 32 && |blob| == 64 && t.ed25519(pub, data, blob) && t.known(pub)
              then Some(pub) else None
  {
    hide ParseBlob, Blob, Uvarint, AnyUvarint;
    Assoc(Uvarint(1), Blob(pub) + Blob(blob), rest);
    VersionRead((Blob(pub) + Blob(blob)) + rest);
    Assoc(Blob(pub), Blob(blob), rest);
    BlobRoundTrip(pub, Blob(blob) + rest, PUBLIC_KEY_SIZE);
    BlobRoundTrip(blob, rest, ED25519_SIZE);
  }

  /** Key and signature, one behind the other, with something around them. */
  ghost predicate Holds(s: Bytes, pub: Bytes, blob: Bytes) {
    exists x: Bytes, y: Bytes, z: Bytes :: s == x + (pub + (y + (blob + z)))
  }

  /** A trusted key has signed the data; key and signature are in `s`. */
  ghost predicate Vouched(t: Trust, data: Bytes, s: Bytes, pub: Bytes) {
    |pub| == 32 && t.known(pub)
    && exists blob: Bytes :: |blob| == 64 && t.ed25519(pub, data, blob) && Holds(s, pub, blob)
  }

  ghost predicate VouchedFor(t: Trust, data: Bytes, s: Bytes) {
    exists pub :: Vouched(t, data, s, pub)
  }

  /** Whatever the bytes, a signer is found only if a trusted key has signed this very data. */
  lemma SignerVouches(t: Trust, data: Bytes, s: Bytes)
    ensures Signer(t, data, s).Some? ==> Vouched(t, data, s, Signer(t, data, s).value)
    ensures Signer(t, data, s).Some? ==> s != [] && s[0] % 128 == 1
  {
    hide AnyUvarint, ParseBlob;
    VersionByte(s);
    if Signer(t, data, s).Some? {
      var version := AnyUvarint(s, 0);
      var pub := ParseBlob(version.rest, PUBLIC_KEY_SIZE).value;
      var blob := ParseBlob(pub.rest, ED25519_SIZE).value;
      var w := AnyRest(s, 0);
      var x := BlobIn(version.rest, PUBLIC_KEY_SIZE);
      var y := BlobIn(pub.rest, ED25519_SIZE);
      Assoc(w, x, pub.value + (y + (blob.value + blob.rest)));
      assert Holds(s, pub.value, blob.value);
    }
  }

  lemma VersionByte(s: Bytes)
    ensures AnyUvarint(s, 0).value == 1 ==> s != [] && s[0] % 128 == 1
  {
    hide AnyUvarint;
    FirstGroup(s);
  }

  lemma FirstGroup(s: Bytes)
    ensures AnyUvarint(s, 0).value % 128 == if s == [] then 0 else s[0] % 128
  {
  }

  /** The version's read error is ignored: with a version number of ten bytes,
      all with the top bit, a signature verifies like any other. */
  lemma OverlongVersion(t: Trust, data: Bytes, pub: Bytes, blob: Bytes, rest: Bytes)
    requires |pub| < Varblob.TWO64 && |blob| < Varblob.TWO64
    ensures var v: Bytes := [129, 128, 128, 128, 128, 128, 128, 128, 128, 128];
            && ParseUvarint(v, 0) == Err(Overflow)
            && Signer(t, data, v + (Blob(pub) + (Blob(blob) + rest))) == Signer(t, data, Signature(pub, blob) + rest)
  {
    hide ParseBlob, Blob, Uvarint, AnyUvarint, ParseUvarint;
    var v: Bytes := [129, 128, 128, 128, 128, 128, 128, 128, 128, 128];
    UvarintEndless(v, 0);
    var tail := Blob(pub) + (Blob(blob) + rest);
    TenBytes(tail);
    Assoc(Uvarint(1), Blob(pub) + Blob(blob), rest);
    Assoc(Blob(pub), Blob(blob), rest);
    VersionRead(tail);
  }

  lemma TenBytes(tail: Bytes)
    ensures AnyUvarint([129, 128, 128, 128, 128, 128, 128, 128, 128, 128] + tail, 0) == Parsed(1, tail)
  {
    var z: Bytes := [128, 128, 128, 128, 128, 128, 128, 128, 128];
    var s: Bytes := [129, 128, 128, 128, 128, 128, 128, 128, 128, 128] + tail;
    assert s[1..] == z + tail;
    ZeroGroups(z, tail, 1);
  }

  /** Groups of zeros up to the tenth byte add nothing. */
  lemma {:induction false} ZeroGroups(z: Bytes, tail: Bytes, i: nat)
    requires 1 <= |z| && i + |z| == 10 && forall k | 0 <= k < |z| :: z[k] == 128
    ensures AnyUvarint(z + tail, i) == Parsed(0, tail)
    decreases |z|
  {
    assert (z + tail)[1..] == z[1..] + tail;
    if |z| > 1 {
      ZeroGroups(z[1..], tail, i + 1);
    } else {
      assert z[1..] + tail == tail;
    }
  }

  lemma {:induction false} AnyRest(s: Bytes, i: nat) returns (x: Bytes)
    ensures s == x + AnyUvarint(s, i).rest
    decreases |s|
  {
    if i >= MAX_VARINT || s == [] {
      x := [];
    } else if s[0] < 128 || i == MAX_VARINT - 1 {
      x := [s[0]];
    } else {
      x := AnyRest(s[1..], i + 1);
      Assoc([s[0]], x, AnyUvarint(s, i).rest);
      x := [s[0]] + x;
    }
  }

  /** A blob is a piece of the input, and the rest what follows it. */
  lemma BlobIn(s: Bytes, maxLen: nat) returns (x: Bytes)
    requires ParseBlob(s, maxLen).Ok?
    ensures var b := ParseBlob(s, maxLen).value; s == x + (b.value + b.rest)
  {
    hide AnyUvarint;
    AnyUvarintOk(s, 0);
    x := AnyRest(s, 0);
  }

  /** The bytes Sign gives for keys and signatures below 128 bytes: 99 in all
      for the sizes of Ed25519, which is the most there may be. */
  lemma SignedParts(k: Key, data: Bytes)
    ensures k.pub.None? || k.sign(data).None? ==> Signed(k, data) == None
    ensures k.pub.Some? && |k.pub.value| < 128 && k.sign(data).Some? && |k.sign(data).value| < 128 ==>
              var pub, sig := k.pub.value, k.sign(data).value;
              Signed(k, data) == if |pub| + |sig| <= 96 then Some([1, |pub|] + pub + ([|sig|] + sig)) else None
    ensures Signed(k, data).Some? ==> |Signed(k, data).value| <= 99
  {
    hide Blob;
    if k.pub.Some? && |k.pub.value| < 128 && k.sign(data).Some? && |k.sign(data).value| < 128 {
      ShortBlob(k.pub.value);
      ShortBlob(k.sign(data).value);
      assert Uvarint(1) == [1];
      var pub, sig := k.pub.value, k.sign(data).value;
      Assoc([1], [|pub|] + pub, [|sig|] + sig);
      assert [1] + ([|pub|] + pub) == [1, |pub|] + pub;
      assert Signature(pub, sig) == [1, |pub|] + pub + ([|sig|] + sig);
    }
  }

  lemma ShortBlob(v: Bytes)
    requires |v| < 128
    ensures Blob(v) == [|v|] + v
  {
  }

  lemma SignatureSize(pub: Bytes, blob: Bytes)
    requires |pub| == PUBLIC_KEY_SIZE && |blob| == ED25519_SIZE
    ensures |Signature(pub, blob)| == SIGNATURE_SIZE
  {
  }

  /** So what verifies, wherever it was signed, fills the reserved space exactly. */
  lemma VerifiedFits(t: Trust, data: Bytes, pub: Bytes, blob: Bytes)
    requires |pub| < Varblob.TWO64 && |blob| < Varblob.TWO64
    requires Signer(t, data, Signature(pub, blob)).Some?
    ensures |Signature(pub, blob)| == SIGNATURE_SIZE
    ensures forall rest: Bytes :: Signer(t, data, Signature(pub, blob) + rest) == Signer(t, data, Signature(pub, blob))
  {
    hide Signer, Signature;
    var s := Signature(pub, blob);
    assert s + [] == s;
    SignatureVerifies(t, data, pub, blob, []);
    SignatureSize(pub, blob);
    forall rest: Bytes
      ensures Signer(t, data, s + rest) == Signer(t, data, s)
    {
      SignatureVerifies(t, data, pub, blob, rest);
    }
  }

  /** Sign. */
  method Sign(k: Key, data: Bytes) returns (s: Option<Bytes>)
    ensures s == Signed(k, data)
  {
    hide Blob;
    var b := PutUvarint(1);
    if k.pub.None? {
      return None;
    }
    b := WriteVarblob(b, k.pub.value);
    var blob := k.sign(data);
    if blob.None? {
      return None;
    }
    b := WriteVarblob(b, blob.value);
    Assoc(Uvarint(1), Blob(k.pub.value), Blob(blob.value));
    if |b| > SIGNATURE_SIZE {
      return None;
    }
    s := Some(b);
  }

  /** verify. */
  method Verify(t: Trust, data: Bytes, r: Reader) returns (key: Option<Bytes>)
    modifies r
    ensures key == Signer(t, data, old(r.rest))
  {
    hide AnyUvarint, ParseUvarint, ParseBlob;
    var version, _ := ReadUvarint(r);
    if version != 1 {
      return None;
    }
    var pub := ReadVarblob(r, PUBLIC_KEY_SIZE);
    if pub.Err? {
      return None;
    }
    var blob := ReadVarblob(r, ED25519_SIZE);
    if blob.Err? {
      return None;
    }
    if !Accepts(t, pub.value, data, blob.value) {
      return None;
    }
    if !t.known(pub.value) {
      return None;
    }
    key := Some(pub.value);
  }
}

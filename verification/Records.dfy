/** The values of the `p2p` and `pkg` buckets. */
module Records {
  import opened Bytes
  import opened Codec
  import opened Collate
  import opened Buckets

  const HASH_SIZE := 32

  /** Value of `p2p`: package hash, inode count, name. */
  function P2pValue(hash: Bytes, inodes: nat, name: Bytes): Bytes {
    hash + BE(inodes, 8) + name
  }

  predicate IsP2pValue(v: Bytes) {
    |v| >= 40
  }

  function P2pHash(v: Bytes): Bytes
    requires IsP2pValue(v)
  {
    v[..32]
  }

  function P2pInodes(v: Bytes): nat
    requires IsP2pValue(v)
  {
    FromBE(v[32..40])
  }

  function P2pName(v: Bytes): Bytes
    requires IsP2pValue(v)
  {
    v[40..]
  }

  lemma P2pFields(hash: Bytes, inodes: nat, name: Bytes)
    requires |hash| == HASH_SIZE && inodes < 0x1_0000_0000_0000_0000
    ensures var v := P2pValue(hash, inodes, name);
            IsP2pValue(v) && P2pHash(v) == hash && P2pInodes(v) == inodes && P2pName(v) == name
  {
    var v := P2pValue(hash, inodes, name);
    assert v[32..40] == BE(inodes, 8);
    BE8(inodes);
  }

  /** Every value of `p2p` is stored under the collation of the name it holds. */
  ghost predicate Indexed(p2p: Bucket) {
    forall e | e in p2p :: IsP2pValue(e.value) && e.key == Collated(P2pName(e.value))
  }
}

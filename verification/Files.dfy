/** Files, and SHA-256 as a parameter. */
module Files {
  import opened Bytes

  type Digest = Bytes -> Bytes

  ghost predicate IsDigest(sha: Digest) {
    forall b: Bytes :: |sha(b)| == 32
  }

  function Zeros(n: nat): (z: Bytes)
    ensures |z| == n
    ensures forall i | 0 <= i < n :: z[i] == 0
  {
    seq(n, _ => 0)
  }

  /** `n` bytes from `off` on, if the file has them. */
  function Window(data: Bytes, off: nat, n: nat): Option<Bytes> {
    if n == 0 then Some([]) else if off + n <= |data| then Some(data[off..off + n]) else None
  }

  /** What a write of `b` at `pos` leaves of the contents. */
  function Overwrite(data: Bytes, pos: nat, b: Bytes): (r: Bytes)
    requires pos <= |data|
    ensures |r| >= pos + |b|
  {
    data[..pos] + b + if pos + |b| <= |data| then data[pos + |b|..] else []
  }

  lemma OverwriteEnd(data: Bytes, b: Bytes)
    ensures Overwrite(data, |data|, b) == data + b
  {
  }

  lemma OverwriteStart(was: Bytes, rest: Bytes, b: Bytes)
    requires |b| == |was|
    ensures Overwrite(was + rest, 0, b) == b + rest
  {
  }

  lemma OverwriteAfter(p: Bytes, data: Bytes, pos: nat, b: Bytes)
    requires pos <= |data|
    ensures Overwrite(p + data, |p| + pos, b) == p + Overwrite(data, pos, b)
  {
    assert (p + data)[..|p| + pos] == p + data[..pos];
    if pos + |b| <= |data| {
      assert (p + data)[|p| + pos + |b|..] == data[pos + |b|..];
      Assoc(p, data[..pos] + b, data[pos + |b|..]);
    }
    Assoc(p, data[..pos], b);
  }

  lemma SliceMiddle(a: Bytes, b: Bytes, c: Bytes)
    ensures (a + (b + c))[|a|..|a| + |b|] == b
  {
  }

  /** The fields both headers begin with. */
  lemma SevenFields(a: Bytes, b: Bytes, c: Bytes, d: Bytes, e: Bytes, u: Bytes, v: Bytes)
    requires |a| == |b| == |u| == |v| == 4 && |c| == |d| == |e| == 8
    ensures var s := a + b + c + d + e + u + v;
            && |s| == 40 && s[..4] == a && s[4..8] == b && s[8..16] == c && s[16..24] == d && s[24..32] == e
            && s[32..36] == u && s[36..40] == v
  {
  }

  lemma SliceLater(a: Bytes, d: Bytes, i: nat, j: nat)
    requires i <= j <= |d|
    ensures (a + d)[|a| + i..|a| + j] == d[i..j]
  {
  }

  /** An os.File. */
  class File {
    var data: Bytes
    var pos: nat

    constructor (data: Bytes)
      ensures this.data == data && pos == 0
    {
      this.data, pos := data, 0;
    }

    method Write(b: Bytes)
      requires pos <= |data|
      modifies this
      ensures data == Overwrite(old(data), old(pos), b) && pos == old(pos) + |b|
    {
      data := Overwrite(data, pos, b);
      pos := pos + |b|;
    }

    method Seek(to: nat)
      modifies this`pos
      ensures pos == to
    {
      pos := to;
    }

    /** io.ReadFull: all `n` bytes or an error. */
    method Read(n: nat) returns (b: Option<Bytes>)
      modifies this`pos
      ensures b == Window(data, old(pos), n)
      ensures b.Some? ==> pos == old(pos) + n
    {
      b := Window(data, pos, n);
      if b.Some? {
        pos := pos + n;
      }
    }

    method ReadAt(n: nat, off: nat) returns (b: Option<Bytes>)
      ensures b == Window(data, off, n)
    {
      b := Window(data, off, n);
    }
  }
}

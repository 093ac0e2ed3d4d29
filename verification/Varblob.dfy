/** Length-prefixed blobs: apkgsig/varblob.go. */
module Varblob {
  import opened Bytes
  import opened Codec

  const MAX_VARINT := 10
  const TWO64 := 0x1_0000_0000_0000_0000

  datatype Error = Eof | Overflow | Oversized | Malformed

  datatype Result<+T> = Ok(value: T) | Err(error: Error)

  /** A value read, and what is left of the input. */
  datatype Parsed<+T> = Parsed(value: T, rest: Bytes)

  // ----- Unsigned LEB128 (section 7.6 of DWARF version 5)

  function Uvarint(n: nat): (b: Bytes)
    ensures b != []
  {
    if n < 128 then [n] else [n % 128 + 128] + Uvarint(n / 128)
  }

  /** Weight of the `i`-th seven bits: 2^(7i). */
  function Scale(i: nat): (s: nat)
    ensures s >= 1
  {
    if i == 0 then 1 else 128 * Scale(i - 1)
  }

  /** The bytes of a number have seven bits each, the least significant first;
      all but the last have the top bit, and no more bytes are used than needed. */
  lemma {:induction false} UvarintBytes(n: nat, i: nat)
    requires i < |Uvarint(n)|
    ensures Uvarint(n)[i] == n / Scale(i) % 128 + if i == |Uvarint(n)| - 1 then 0 else 128
    ensures n < Scale(|Uvarint(n)|) && (|Uvarint(n)| > 1 ==> n >= Scale(|Uvarint(n)| - 1))
    decreases n
  {
    var w := |Uvarint(n)|;
    if n >= 128 {
      UvarintBytes(n / 128, if i == 0 then 0 else i - 1);
      assert Scale(w) == 128 * Scale(w - 1);
      if i > 0 {
        DivTwice(n, 128, Scale(i - 1));
      }
      assert w > 2 ==> Scale(w - 1) == 128 * Scale(w - 2);
      assert Scale(1) == 128 * Scale(0);
    }
  }

  /** binary.ReadUvarint from its `i`-th byte on. */
  function ParseUvarint(s: Bytes, i: nat): Result<Parsed<nat>>
    decreases |s|
  {
    if i >= MAX_VARINT then Err(Overflow)
    else if s == [] then Err(Eof)
    else if s[0] < 128 then
      if i == MAX_VARINT - 1 && s[0] > 1 then Err(Overflow) else Ok(Parsed(s[0], s[1..]))
    else
      match ParseUvarint(s[1..], i + 1)
      case Ok(p) => Ok(Parsed(s[0] - 128 + 128 * p.value, p.rest))
      case Err(e) => Err(e)
  }

  /** The number binary.ReadUvarint returns even next to an error, wrapped to
      64 bits, and what is left of the input then. */
  function AnyUvarint(s: Bytes, i: nat): Parsed<nat>
    decreases |s|
  {
    if i >= MAX_VARINT || s == [] then Parsed(0, s)
    else if s[0] < 128 then
      if i == MAX_VARINT - 1 && s[0] > 1 then Parsed(0, s[1..]) else Parsed(s[0], s[1..])
    else if i == MAX_VARINT - 1 then Parsed(s[0] % 2, s[1..])
    else
      var p := AnyUvarint(s[1..], i + 1);
      Parsed(s[0] - 128 + 128 * p.value, p.rest)
  }

  lemma {:induction false} AnyUvarintOk(s: Bytes, i: nat)
    ensures ParseUvarint(s, i).Ok? ==> ParseUvarint(s, i).value == AnyUvarint(s, i)
    decreases |s|
  {
    if i < MAX_VARINT - 1 && s != [] && s[0] >= 128 {
      AnyUvarintOk(s[1..], i + 1);
    } else if i == MAX_VARINT - 1 && s != [] && s[0] >= 128 {
      assert ParseUvarint(s[1..], i + 1).Err?;
    }
  }

  /** What fits when `i` of the ten bytes are used: 2^(64 - 7i). */
  function Capacity(i: nat): nat
    requires i <= 9
  {
    [TWO64, 0x200_0000_0000_0000, 0x4_0000_0000_0000, 0x800_0000_0000, 0x10_0000_0000,
     0x2000_0000, 0x40_0000, 0x8000, 0x100, 2][i]
  }

  lemma {:induction false} UvarintRoundTrip(n: nat, rest: Bytes, i: nat)
    requires i <= 9 && n < Capacity(i)
    ensures ParseUvarint(Uvarint(n) + rest, i) == Ok(Parsed(n, rest))
    decreases n
  {
    var s := Uvarint(n) + rest;
    if n < 128 {
      assert s[1..] == rest;
    } else {
      assert s[1..] == Uvarint(n / 128) + rest;
      UvarintRoundTrip(n / 128, rest, i + 1);
    }
  }

  /** All bytes but the last have the top bit. */
  predicate Terminated(g: Bytes) {
    g != [] && g[|g| - 1] < 128 && forall i | 0 <= i < |g| - 1 :: g[i] >= 128
  }

  function Weighed(g: Bytes): nat {
    if g == [] then 0 else g[0] % 128 + 128 * Weighed(g[1..])
  }

  /** What is read from any input with an end in it: numbers of ten bytes at
      most, the tenth at most 1, superfluous zeros or not. */
  lemma {:induction false} UvarintRead(g: Bytes, rest: Bytes, i: nat)
    requires Terminated(g)
    ensures ParseUvarint(g + rest, i) ==
              if i + |g| < 10 || (i + |g| == 10 && g[|g| - 1] <= 1) then Ok(Parsed(Weighed(g), rest)) else Err(Overflow)
    decreases |g|
  {
    var s := g + rest;
    if |g| == 1 {
      assert s[1..] == rest;
      assert Weighed(g[1..]) == 0;
    } else if i < MAX_VARINT {
      assert s[1..] == g[1..] + rest;
      UvarintRead(g[1..], rest, i + 1);
    }
  }

  /** And from an input without one. */
  lemma {:induction false} UvarintEndless(s: Bytes, i: nat)
    requires i <= 10 && forall k | 0 <= k < |s| :: s[k] >= 128
    ensures ParseUvarint(s, i) == Err(if i + |s| < 10 then Eof else Overflow)
    decreases |s|
  {
    if s != [] && i < MAX_VARINT {
      UvarintEndless(s[1..], i + 1);
    }
  }

  /** Whatever the input, a length that is read fits 64 bits and consumes input. */
  lemma {:induction false} UvarintFits(s: Bytes, i: nat)
    requires i <= 9
    ensures ParseUvarint(s, i).Ok? ==>
              ParseUvarint(s, i).value.value < Capacity(i) && |ParseUvarint(s, i).value.rest| < |s|
    decreases |s|
  {
    if s != [] && s[0] >= 128 && i < 9 {
      UvarintFits(s[1..], i + 1);
    }
  }

  // ----- Blobs

  function Blob(v: Bytes): Bytes {
    Uvarint(|v|) + v
  }

  function ParseBlob(s: Bytes, maxLen: nat): Result<Parsed<Bytes>> {
    match ParseUvarint(s, 0)
    case Err(e) => Err(e)
    case Ok(p) =>
      if p.value > maxLen then Err(Oversized)
      else if |p.rest| < p.value then Err(Eof)
      else Ok(Parsed(p.rest[..p.value], p.rest[p.value..]))
  }

  /** A blob is read back whatever follows it, exactly when it is not too long for the reader. */
  lemma BlobRoundTrip(v: Bytes, rest: Bytes, maxLen: nat)
    requires |v| < TWO64
    ensures ParseBlob(Blob(v) + rest, maxLen) ==
              if |v| <= maxLen then Ok(Parsed(v, rest)) else Err(Oversized)
  {
    assert Blob(v) + rest == Uvarint(|v|) + (v + rest);
    UvarintRoundTrip(|v|, v + rest, 0);
    assert (v + rest)[..|v|] == v && (v + rest)[|v|..] == rest;
  }

  /** A blob is read only with its length, not above the limit, and all its bytes. */
  lemma ParsedBlob(s: Bytes, maxLen: nat, v: Bytes, rest: Bytes)
    ensures ParseBlob(s, maxLen) == Ok(Parsed(v, rest)) <==>
              ParseUvarint(s, 0) == Ok(Parsed(|v|, v + rest)) && |v| <= maxLen
  {
    if ParseUvarint(s, 0) == Ok(Parsed(|v|, v + rest)) {
      assert (v + rest)[..|v|] == v && (v + rest)[|v|..] == rest;
    }
    if ParseBlob(s, maxLen) == Ok(Parsed(v, rest)) {
      var p := ParseUvarint(s, 0).value;
      assert p.rest == p.rest[..p.value] + p.rest[p.value..];
    }
  }

  // ----- The code, on streams

  /** A bufio.Reader over the bytes not read yet. */
  class Reader {
    var rest: Bytes

    constructor (data: Bytes)
      ensures rest == data
    {
      rest := data;
    }

    method ReadByte() returns (r: Result<byte>)
      modifies this
      ensures old(rest) == [] ==> r == Err(Eof) && rest == []
      ensures old(rest) != [] ==> r == Ok(old(rest)[0]) && rest == old(rest)[1..]
    {
      if rest == [] {
        return Err(Eof);
      }
      r := Ok(rest[0]);
      rest := rest[1..];
    }

    /** io.ReadFull: a short read is an error and uses up the input. */
    method ReadFull(n: nat) returns (r: Result<Bytes>)
      modifies this
      ensures |old(rest)| < n ==> r == Err(Eof) && rest == []
      ensures n <= |old(rest)| ==> r == Ok(old(rest)[..n]) && rest == old(rest)[n..]
    {
      if |rest| < n {
        rest := [];
        return Err(Eof);
      }
      r := Ok(rest[..n]);
      rest := rest[n..];
    }
  }

  /** The number accumulated by the loop of ReadUvarint, put in front of what is still to come. */
  function Shifted(p: Parsed<nat>, x: nat, scale: nat): Parsed<nat> {
    Parsed(x + scale * p.value, p.rest)
  }

  lemma Scales()
    ensures Scale(9) == 0x8000_0000_0000_0000
  {
    assert Scale(2) == 0x4000;
    assert Scale(4) == 0x1000_0000;
    assert Scale(6) == 0x400_0000_0000;
    assert Scale(8) == 0x100_0000_0000_0000;
  }

  lemma {:induction false} ScaleGrows(i: nat, j: nat)
    requires i <= j
    ensures Scale(i) <= Scale(j)
  {
    if i < j {
      ScaleGrows(i, j - 1);
    }
  }

  /** binary.ReadUvarint: a number, and what went wrong if anything did. */
  method ReadUvarint(r: Reader) returns (n: nat, err: Option<Error>)
    modifies r
    ensures Parsed(n, r.rest) == AnyUvarint(old(r.rest), 0)
    ensures match ParseUvarint(old(r.rest), 0)
            case Ok(p) => err == None && n == p.value && r.rest == p.rest
            case Err(e) => err == Some(e)
  {
    hide Scale, Uvarint, Blob;
    AnyUvarintOk(r.rest, 0);
    FirstScale();
    ShiftedBy(AnyUvarint(r.rest, 0), 0, 1);
    hide AnyUvarint, ParseUvarint, Shifted;
    var x: nat, scale: nat := 0, 1;
    var i := 0;
    while i < MAX_VARINT
      invariant 0 <= i <= MAX_VARINT
      invariant i < MAX_VARINT ==> scale == Scale(i) && x < scale
      invariant Shifted(AnyUvarint(r.rest, i), x, scale) == AnyUvarint(old(r.rest), 0)
      invariant SameError(ParseUvarint(r.rest, i), ParseUvarint(old(r.rest), 0))
    {
      ghost var before := r.rest;
      FirstByte(before, i);
      ShiftedBy(AnyUvarint(before, i), x, scale);
      var b := r.ReadByte();
      if b.Err? {
        return x, Some(b.error);
      }
      if b.value < 128 {
        if i == MAX_VARINT - 1 && b.value > 1 {
          return x, Some(Overflow);
        }
        return x + scale * b.value, None;
      }
      var low: nat := b.value - 128;
      ShiftStep(before, i, x, scale);
      x := (x + scale * low) % TWO64;
      scale := scale * 128;
      i := i + 1;
    }
    FirstByte(r.rest, i);
    ShiftedBy(AnyUvarint(r.rest, i), x, scale);
    return x, Some(Overflow);
  }

  lemma ShiftedBy(p: Parsed<nat>, x: nat, scale: nat)
    ensures Shifted(p, x, scale) == Parsed(x + scale * p.value, p.rest)
    ensures p.value == 0 ==> Shifted(p, x, scale) == Parsed(x, p.rest)
    ensures x == 0 && scale == 1 ==> Shifted(p, x, scale) == p
  {
  }

  /** What the next byte decides. */
  lemma FirstByte(s: Bytes, i: nat)
    ensures i >= MAX_VARINT ==> ParseUvarint(s, i) == Err(Overflow) && AnyUvarint(s, i) == Parsed(0, s)
    ensures i < MAX_VARINT && s == [] ==> ParseUvarint(s, i) == Err(Eof) && AnyUvarint(s, i) == Parsed(0, s)
    ensures i < MAX_VARINT && s != [] && s[0] < 128 ==>
              if i == MAX_VARINT - 1 && s[0] > 1
              then ParseUvarint(s, i) == Err(Overflow) && AnyUvarint(s, i) == Parsed(0, s[1..])
              else ParseUvarint(s, i) == Ok(Parsed(s[0], s[1..])) && AnyUvarint(s, i) == Parsed(s[0], s[1..])
    ensures i < MAX_VARINT && s != [] && s[0] >= 128 ==> SameError(ParseUvarint(s[1..], i + 1), ParseUvarint(s, i))
  {
  }

  predicate SameError(r: Result<Parsed<nat>>, r': Result<Parsed<nat>>) {
    match r
    case Ok(_) => r'.Ok?
    case Err(e) => r' == Err(e)
  }

  lemma ShiftStep(s: Bytes, i: nat, x: nat, scale: nat)
    requires i < MAX_VARINT && s != [] && s[0] >= 128 && scale == Scale(i) && x < scale
    ensures var x' := (x + scale * (s[0] - 128)) % TWO64;
            && scale * 128 == Scale(i + 1)
            && (i < 9 ==> x' < scale * 128)
            && Shifted(AnyUvarint(s, i), x, scale) == Shifted(AnyUvarint(s[1..], i + 1), x', scale * 128)
  {
    hide AnyUvarint, Scale;
    NextScale(i);
    if i < 9 {
      ShiftOn(s, i, x);
    } else {
      Continues(s, i);
      LastBit(x, s[0] - 128);
    }
  }

  lemma ShiftOn(s: Bytes, i: nat, x: nat)
    requires i < 9 && s != [] && s[0] >= 128 && x < Scale(i)
    ensures var x' := x + Scale(i) * (s[0] - 128);
            && x' < Scale(i) * 128 && x' < TWO64 && x' % TWO64 == x'
            && Shifted(AnyUvarint(s, i), x, Scale(i)) == Shifted(AnyUvarint(s[1..], i + 1), x', Scale(i) * 128)
  {
    hide AnyUvarint, Scale;
    Continues(s, i);
    NoWrap(i, x, s[0] - 128);
    Distribute(Scale(i), s[0] - 128, AnyUvarint(s[1..], i + 1).value);
  }

  lemma FirstScale()
    ensures Scale(0) == 1
  {
  }

  lemma NextScale(i: nat)
    ensures Scale(i + 1) == 128 * Scale(i)
  {
  }

  lemma Continues(s: Bytes, i: nat)
    requires i < MAX_VARINT && s != [] && s[0] >= 128
    ensures i < 9 ==>
              var p := AnyUvarint(s[1..], i + 1);
              AnyUvarint(s, i) == Parsed(s[0] - 128 + 128 * p.value, p.rest)
    ensures i == 9 ==>
              AnyUvarint(s, i) == Parsed((s[0] - 128) % 2, s[1..]) && AnyUvarint(s[1..], i + 1) == Parsed(0, s[1..])
  {
  }

  lemma Distribute(scale: nat, low: nat, v: nat)
    ensures scale * (low + 128 * v) == scale * low + scale * 128 * v
  {
  }

  lemma NoWrap(i: nat, x: nat, low: nat)
    requires i < 9 && x < Scale(i) && low < 128
    ensures x + Scale(i) * low < Scale(i) * 128 && x + Scale(i) * low < TWO64
  {
    hide Scale;
    Scales();
    NextScale(i);
    ScaleGrows(i + 1, 9);
    Times(Scale(i), low);
  }

  lemma Times(scale: nat, low: nat)
    requires low < 128
    ensures scale * low <= scale * 127
  {
  }

  lemma LastBit(x: nat, low: nat)
    requires x < Scale(9) && low < 128
    ensures (x + Scale(9) * low) % TWO64 == x + Scale(9) * (low % 2)
  {
    Scales();
    hide Scale;
    assert low == 2 * (low / 2) + low % 2;
    assert Scale(9) * low == TWO64 * (low / 2) + Scale(9) * (low % 2);
  }

  /** ReadVarblob. */
  method ReadVarblob(r: Reader, maxLen: nat) returns (b: Result<Bytes>)
    modifies r
    ensures match ParseBlob(old(r.rest), maxLen)
            case Ok(p) => b == Ok(p.value) && r.rest == p.rest
            case Err(e) => b == Err(e)
  {
    var l, err := ReadUvarint(r);
    if err.Some? {
      return Err(err.value);
    }
    if l > maxLen {
      return Err(Oversized);
    }
    b := r.ReadFull(l);
  }

  /** binary.PutUvarint. */
  method PutUvarint(n: nat) returns (b: Bytes)
    ensures b == Uvarint(n)
  {
    b := [];
    var x := n;
    while x >= 128
      invariant x >= 0 && b + Uvarint(x) == Uvarint(n)
    {
      b := b + [x % 128 + 128];
      x := x / 128;
    }
    b := b + [x];
  }

  /** WriteVarblob: appends to what the writer holds. */
  method WriteVarblob(w: Bytes, v: Bytes) returns (out: Bytes)
    ensures out == w + Blob(v)
  {
    var l := PutUvarint(|v|);
    out := w + l;
    out := out + v;
  }
}

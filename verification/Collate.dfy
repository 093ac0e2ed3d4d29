/** The index key of a package name: apkgdb/collate.go. */
module Collate {
  import opened Bytes

  const MAX_CHUNK := 33

  /** Length of the digit run a string starts with. */
  function DigitRun(v: Bytes): (n: nat)
    ensures n <= |v|
    ensures AllDigits(v[..n])
    ensures n < |v| ==> !IsDigit(v[n])
  {
    if v == [] || !IsDigit(v[0]) then 0 else 1 + DigitRun(v[1..])
  }

  /** How much of a nonempty name one step of the encoder consumes: a byte
      that is not a digit, or at most 33 digits. */
  function Step(v: Bytes): (n: nat)
    requires v != []
    ensures 1 <= n <= |v|
    ensures IsStep(v[..n])
  {
    if !IsDigit(v[0]) then 1
    else if DigitRun(v) <= MAX_CHUNK then DigitRun(v)
    else MAX_CHUNK
  }

  predicate IsStep(c: Bytes) {
    1 <= |c| <= MAX_CHUNK && if IsDigit(c[0]) then AllDigits(c) else |c| == 1
  }

  /** The key bytes of one step: a chunk of digits is preceded by 0x7f plus its length. */
  function Encoded(c: Bytes): Bytes
    requires IsStep(c)
  {
    if IsDigit(c[0]) then [0x7f + |c|] + c else c
  }

  function Collated(v: Bytes): Bytes
    decreases |v|
  {
    if v == [] then [] else Encoded(v[..Step(v)]) + Collated(v[Step(v)..])
  }

  /** Position of the first digit, or -1: strings.IndexAny(v, "0123456789"). */
  method IndexDigit(v: Bytes) returns (n: int)
    ensures -1 <= n < |v|
    ensures n == -1 ==> NoDigits(v)
    ensures n >= 0 ==> IsDigit(v[n]) && NoDigits(v[..n])
  {
    n := 0;
    while n < |v|
      invariant 0 <= n <= |v|
      invariant NoDigits(v[..n])
    {
      if IsDigit(v[n]) {
        return;
      }
      n := n + 1;
    }
    n := -1;
  }

  predicate NoDigits(s: Bytes) {
    forall i | 0 <= i < |s| :: !IsDigit(s[i])
  }

  predicate StartsWithDigit(s: Bytes) {
    s != [] && IsDigit(s[0])
  }

  lemma {:induction false} CollatedNoDigits(p: Bytes, v: Bytes)
    requires NoDigits(p)
    ensures Collated(p + v) == p + Collated(v)
  {
    hide Collated;
    if p == [] {
      assert p + v == v;
    } else {
      assert (p + v)[1..] == p[1..] + v;
      assert (p + v)[..1] == [p[0]];
      CollatedStep(p + v);
      CollatedNoDigits(p[1..], v);
      assert p == [p[0]] + p[1..];
      Assoc([p[0]], p[1..], Collated(v));
    }
  }

  lemma {:induction false} DigitRunIs(v: Bytes, i: nat)
    requires i <= |v| && AllDigits(v[..i])
    ensures i <= DigitRun(v)
    ensures i < |v| && !IsDigit(v[i]) ==> DigitRun(v) == i
  {
    if i > 0 {
      assert v[0] == v[..i][0];
      assert v[1..][..i - 1] == v[..i][1..];
      DigitRunIs(v[1..], i - 1);
    }
  }

  /** The inner loop of collatedVersion: how many digits go into one chunk. */
  method CountDigits(v: Bytes) returns (i: nat)
    requires v != [] && IsDigit(v[0])
    ensures i == Step(v)
  {
    i := 1;
    while i <= 32
      invariant 1 <= i <= 33 && i <= |v|
      invariant AllDigits(v[..i])
    {
      if |v| <= i {
        break;
      }
      if !IsDigit(v[i]) {
        break;
      }
      i := i + 1;
    }
    DigitRunIs(v, i);
  }

  lemma LiteralsDone(r: Bytes, v: Bytes, n: nat)
    requires n <= |v| && NoDigits(v[..n])
    ensures r + Collated(v) == r + v[..n] + Collated(v[n..])
  {
    hide Collated;
    CollatedNoDigits(v[..n], v[n..]);
    assert v[..n] + v[n..] == v;
    Assoc(r, v[..n], Collated(v[n..]));
  }

  lemma ChunkDone(r: Bytes, v: Bytes)
    requires v != [] && IsDigit(v[0])
    ensures r + Collated(v) == r + [0x7f + Step(v)] + v[..Step(v)] + Collated(v[Step(v)..])
  {
    var n := Step(v);
    assert Encoded(v[..n]) == [0x7f + n] + v[..n] by {
      assert v[..n][0] == v[0];
    }
    ChunkJoin(r, [0x7f + n], v[..n], Collated(v[n..]));
  }

  lemma ChunkJoin(r: Bytes, l: Bytes, c: Bytes, k: Bytes)
    ensures r + ((l + c) + k) == r + l + c + k
  {
    Assoc(r, l + c, k);
    Assoc(r, l, c);
  }

  lemma EmptyName()
    ensures Uncollated([]) == []
  {
  }

  lemma EmptyKey()
    ensures Collated([]) == []
  {
  }

  /** collatedVersion: the outer loop shrinks `v` and appends to `r`. */
  method CollatedVersion(name: Bytes) returns (r: Bytes)
    ensures r == Collated(name)
  {
    hide Collated, Encoded;
    r := [];
    var v := name;
    EmptyKey();
    while |v| > 0
      invariant r + Collated(v) == Collated(name)
      decreases |v|
    {
      var n := IndexDigit(v);
      if n == -1 {
        LiteralsDone(r, v, |v|);
        assert v[..|v|] == v && v[|v|..] == [];
        r := r + v;
        return;
      }
      LiteralsDone(r, v, n);
      r := r + v[..n];
      v := v[n..];
      var i := CountDigits(v);
      ChunkDone(r, v);
      r := r + [0x7f + i];
      r := r + v[..i];
      v := v[i..];
    }
  }

  // ----- The key determines the name

  /** Drops the byte just before each maximal digit run. */
  function Uncollated(k: Bytes): Bytes {
    if k == [] then []
    else if |k| >= 2 && !IsDigit(k[0]) && IsDigit(k[1]) then Uncollated(k[1..])
    else [k[0]] + Uncollated(k[1..])
  }

  predicate EndsWithDigit(s: Bytes) {
    s != [] && IsDigit(s[|s| - 1])
  }

  lemma {:induction false} UncollatedSplit(p: Bytes, q: Bytes)
    requires StartsWithDigit(q) ==> p == [] || EndsWithDigit(p)
    ensures Uncollated(p + q) == Uncollated(p) + Uncollated(q)
  {
    if p == [] {
      assert p + q == q;
    } else {
      assert (p + q)[1..] == p[1..] + q;
      UncollatedSplit(p[1..], q);
    }
  }

  lemma {:induction false} UncollatedDigits(d: Bytes)
    requires AllDigits(d)
    ensures Uncollated(d) == d
  {
    if d != [] {
      UncollatedDigits(d[1..]);
    }
  }

  lemma UncollatedStep(c: Bytes)
    requires IsStep(c)
    ensures Uncollated(Encoded(c)) == c
    ensures Encoded(c) != [] && !IsDigit(Encoded(c)[0])
  {
    if IsDigit(c[0]) {
      UncollatedDigits(c);
      assert Encoded(c)[1..] == c;
    }
  }

  /** The name is recovered from its key, whatever its bytes and run lengths. */
  lemma {:induction false} UncollateCollated(v: Bytes)
    ensures Uncollated(Collated(v)) == v
    ensures !StartsWithDigit(Collated(v))
    decreases |v|
  {
    hide Collated, Encoded, Step, Uncollated;
    EmptyKey();
    EmptyName();
    if v != [] {
      var n := Step(v);
      UncollateCollated(v[n..]);
      UncollatedStep(v[..n]);
      UncollatedSplit(Encoded(v[..n]), Collated(v[n..]));
      CollatedStep(v);
      assert v[..n] + v[n..] == v;
    }
  }

  /** Different names have different keys. */
  lemma CollatedInjective(a: Bytes, b: Bytes)
    requires Collated(a) == Collated(b)
    ensures a == b
  {
    UncollateCollated(a);
    UncollateCollated(b);
  }

  // ----- Keys of concatenations

  lemma StepAppend(x: Bytes, y: Bytes)
    requires x != [] && !StartsWithDigit(y)
    ensures Step(x + y) == Step(x)
  {
    var n := DigitRun(x);
    assert (x + y)[..n] == x[..n];
    assert n < |x| ==> (x + y)[n] == x[n];
    DigitRunIs(x + y, n);
  }

  /** The key of a concatenation is the concatenation of the keys when the
      second part does not continue a digit run. */
  lemma {:induction false} CollatedAppend(x: Bytes, y: Bytes)
    requires !StartsWithDigit(y)
    ensures Collated(x + y) == Collated(x) + Collated(y)
    decreases |x|
  {
    hide Collated, Encoded, Step;
    EmptyKey();
    if x == [] {
      assert x + y == y;
    } else {
      StepAppend(x, y);
      var n := Step(x);
      CollatedAppend(x[n..], y);
      assert (x + y)[..n] == x[..n] && (x + y)[n..] == x[n..] + y;
      CollatedStep(x);
      CollatedStep(x + y);
      Assoc(Encoded(x[..n]), Collated(x[n..]), Collated(y));
    }
  }

  /** So it is when the first part does not end in a digit. */
  lemma {:induction false} CollatedJoin(x: Bytes, y: Bytes)
    requires !EndsWithDigit(x)
    ensures Collated(x + y) == Collated(x) + Collated(y)
    decreases |x|
  {
    hide Collated, Encoded, Step;
    EmptyKey();
    if x == [] {
      assert x + y == y;
    } else {
      StepWithin(x, y);
      var n := Step(x);
      CollatedJoin(x[n..], y);
      assert (x + y)[..n] == x[..n] && (x + y)[n..] == x[n..] + y;
      CollatedStep(x);
      CollatedStep(x + y);
      Assoc(Encoded(x[..n]), Collated(x[n..]), Collated(y));
    }
  }

  lemma StepWithin(x: Bytes, y: Bytes)
    requires x != [] && !EndsWithDigit(x)
    ensures Step(x + y) == Step(x)
  {
    var n := DigitRun(x);
    assert !AllDigits(x[..|x|]) by {
      assert x[..|x|] == x;
    }
    assert (x + y)[..n] == x[..n] && (x + y)[n] == x[n];
    DigitRunIs(x + y, n);
  }

  lemma CollatedStep(v: Bytes)
    requires v != []
    ensures Collated(v) == Encoded(v[..Step(v)]) + Collated(v[Step(v)..])
  {
  }

  /** Keys of dotted names split at every dot. */
  lemma CollatedDot(x: Bytes, y: Bytes)
    ensures Collated(x + [DOT] + y) == Collated(x) + [DOT] + Collated(y)
  {
    hide Collated;
    assert x + [DOT] + y == x + ([DOT] + y);
    CollatedAppend(x, [DOT] + y);
    CollatedNoDigits([DOT], y);
    Assoc(Collated(x), [DOT], Collated(y));
  }

  /** A byte that can stand for the length of a chunk. */
  predicate LengthByte(b: byte) {
    0x80 <= b <= 0xa0
  }

  /** In a key every digit follows a digit or a length byte. */
  ghost predicate Marked(k: Bytes) {
    !StartsWithDigit(k) &&
    forall i | 0 < i < |k| && IsDigit(k[i]) :: IsDigit(k[i - 1]) || LengthByte(k[i - 1])
  }

  lemma MarkedAppend(p: Bytes, q: Bytes)
    requires Marked(p) && Marked(q)
    ensures Marked(p + q)
  {
    forall i | 0 < i < |p + q| && IsDigit((p + q)[i])
      ensures IsDigit((p + q)[i - 1]) || LengthByte((p + q)[i - 1])
    {
      if i < |p| {
        assert (p + q)[i] == p[i];
      } else {
        assert (p + q)[i] == q[i - |p|];
      }
    }
  }

  lemma {:induction false} CollatedMarked(v: Bytes)
    ensures Marked(Collated(v))
    decreases |v|
  {
    if v != [] {
      var n := Step(v);
      CollatedMarked(v[n..]);
      MarkedAppend(Encoded(v[..n]), Collated(v[n..]));
    }
  }

  lemma DotPrefixName(x: Bytes, s: Bytes)
    requires Collated(x) + [DOT] <= Collated(s)
    ensures x + [DOT] <= s
  {
    hide Collated, Uncollated;
    var p := Collated(x) + [DOT];
    var q := Collated(s)[|p|..];
    assert Collated(s) == p + q;
    assert !StartsWithDigit(q) by {
      CollatedMarked(s);
      assert Collated(s)[|p| - 1] == DOT;
      assert q != [] ==> Collated(s)[|p|] == q[0];
    }
    UncollatedSplit(p, q);
    UncollatedSplit(Collated(x), [DOT]);
    UncollatedDot();
    UncollateCollated(x);
    UncollateCollated(s);
    assert s == x + [DOT] + Uncollated(q);
  }

  lemma UncollatedDot()
    ensures Uncollated([DOT]) == [DOT]
  {
  }

  /** A key continues the key of `x` with a dot exactly when its name continues
      `x` with a dot, whatever bytes the names hold. */
  lemma DotPrefixReflected(x: Bytes, s: Bytes)
    ensures Collated(x) + [DOT] <= Collated(s) <==> x + [DOT] <= s
  {
    hide Collated;
    if x + [DOT] <= s {
      var y := s[|x| + 1..];
      CollatedDot(x, y);
      assert s == x + [DOT] + y;
    }
    if Collated(x) + [DOT] <= Collated(s) {
      DotPrefixName(x, s);
    }
  }

  lemma {:induction false} LastKeyByte(v: Bytes)
    requires v != []
    ensures Collated(v) != [] && Collated(v)[|Collated(v)| - 1] == v[|v| - 1]
    decreases |v|
  {
    hide Collated, Encoded, Step;
    EmptyKey();
    var n := Step(v);
    CollatedStep(v);
    EncodedLast(v[..n]);
    if n < |v| {
      LastKeyByte(v[n..]);
    } else {
      assert v[n..] == [];
    }
  }

  lemma EncodedLast(c: Bytes)
    requires IsStep(c)
    ensures Encoded(c) != [] && Encoded(c)[|Encoded(c)| - 1] == c[|c| - 1]
  {
  }

  /** A key that is a prefix of another belongs to a prefix, unless its name ends
      with a byte that could be a length byte: always among ASCII names. */
  lemma KeyPrefixReflected(a: Bytes, b: Bytes)
    requires a != [] ==> !LengthByte(a[|a| - 1])
    requires Collated(a) <= Collated(b)
    ensures a <= b
  {
    hide Collated, Uncollated;
    EmptyKey();
    var p, k := Collated(a), Collated(b);
    var q := k[|p|..];
    assert k == p + q;
    CollatedMarked(b);
    if a != [] {
      LastKeyByte(a);
      assert k[|p| - 1] == a[|a| - 1];
      assert q != [] ==> k[|p|] == q[0];
    }
    UncollatedSplit(p, q);
    UncollateCollated(a);
    UncollateCollated(b);
  }

  /** With a length byte at the end it need not: the key of that byte alone starts
      the key of every number of that length. */
  lemma LengthBytePrefix(d: Bytes)
    requires 1 <= |d| <= MAX_CHUNK && AllDigits(d)
    ensures Collated([0x7f + |d|]) <= Collated(d) && !([0x7f + |d|] <= d)
  {
    hide Collated, DigitRun;
    EmptyKey();
    OneChunkKey(d);
    var h := [0x7f + |d|];
    CollatedStep(h);
    assert h[..1] == h && h[1..] == [];
  }

  lemma OneChunkKey(d: Bytes)
    requires 1 <= |d| <= MAX_CHUNK && AllDigits(d)
    ensures Collated(d) == [0x7f + |d|] + d
  {
    hide Collated, DigitRun;
    EmptyKey();
    assert d[..|d|] == d && d[|d|..] == [];
    DigitRunIs(d, |d|);
    CollatedStep(d);
  }
}

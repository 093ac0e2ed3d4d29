/** How the byte order of index keys relates to the natural order of names:
    apkgdb/collate.go against apkgdb/natsort.go. */
module VersionOrder {
  import opened Bytes
  import opened Collate
  import opened Natsort

  predicate KeyLess(a: Bytes, b: Bytes) {
    LexLess(Collated(a), Collated(b))
  }

  /** The keys of different names are never tied. */
  lemma KeysTotal(a: Bytes, b: Bytes)
    ensures KeyLess(a, b) || KeyLess(b, a) <==> a != b
    ensures !(KeyLess(a, b) && KeyLess(b, a))
  {
    LexTotal(Collated(a), Collated(b));
    if Collated(a) == Collated(b) {
      CollatedInjective(a, b);
    }
  }

  // ----- Where the orders agree

  /** The byte that precedes the first digits of a number in a key. */
  function Mark(e: Bytes): byte
    requires e != []
  {
    0x7f + if |e| <= MAX_CHUNK then |e| else MAX_CHUNK
  }

  /** Whether the key of a name that does not start with a digit comes before
      the key of the number `e`: its first byte decides, and if that is the
      number's own length byte, the second one does. */
  predicate BeforeNumber(x: Bytes, e: Bytes)
    requires e != []
  {
    x == [] || x[0] < Mark(e) || (x[0] == Mark(e) && (|x| == 1 || x[1] < 48))
  }

  /** Whether the key of the digits `d` followed by `x` comes before that of `e`
      followed by `y`: chunk by chunk, and where one number ends first, what follows it. */
  predicate RunsLess(d: Bytes, x: Bytes, e: Bytes, y: Bytes)
    requires d != e
    decreases |d|
  {
    if d == [] then BeforeNumber(x, e)
    else if e == [] then !BeforeNumber(y, d)
    else if Mark(d) != Mark(e) then Mark(d) < Mark(e)
    else if d[..Mark(d) - 0x7f] != e[..Mark(d) - 0x7f] then LexLess(d[..Mark(d) - 0x7f], e[..Mark(d) - 0x7f])
    else
      assert d == d[..Mark(d) - 0x7f] + d[Mark(d) - 0x7f..] && e == e[..Mark(d) - 0x7f] + e[Mark(d) - 0x7f..];
      RunsLess(d[Mark(d) - 0x7f..], x, e[Mark(d) - 0x7f..], y)
  }

  /** The natural order of two names that start with the numbers `d` and `e`. */
  predicate ValuesLess(d: Bytes, x: Bytes, e: Bytes, y: Bytes)
    requires AllDigits(d) && AllDigits(e)
  {
    if Value(d) == Value(e) then NatLess(x, y) else Value(d) < Value(e)
  }

  /** Looks at the first place where two names differ. Two different numbers
      there must be ordered by their chunks as they are by their values; where a
      number stands against another byte, that byte must be below the number's
      length byte. */
  predicate OrdersAgree(a: Bytes, b: Bytes)
    decreases |a|
  {
    if a == [] || b == [] then true
    else if IsDigit(a[0]) && IsDigit(b[0]) then
      var (d, x), (e, y) := (Run(a), a[DigitRun(a)..]), (Run(b), b[DigitRun(b)..]);
      if d == e then OrdersAgree(x, y) else ValuesLess(d, x, e, y) == RunsLess(d, x, e, y)
    else if a[0] == b[0] then OrdersAgree(a[1..], b[1..])
    else if IsDigit(b[0]) then BeforeNumber(a, Run(b))
    else if IsDigit(a[0]) then BeforeNumber(b, Run(a))
    else true
  }

  /** ASCII, and no number is written with superfluous leading zeros. */
  predicate Clean(s: Bytes)
    decreases |s|
  {
    if s == [] then true
    else if IsDigit(s[0]) then Plain(Run(s)) && Clean(s[DigitRun(s)..])
    else s[0] < 0x80 && Clean(s[1..])
  }

  /** No number is longer than one chunk of the key. */
  predicate ShortNumbers(s: Bytes)
    decreases |s|
  {
    if s == [] then true
    else if IsDigit(s[0]) then DigitRun(s) <= 33 && ShortNumbers(s[DigitRun(s)..])
    else ShortNumbers(s[1..])
  }

  /** The complete chunks of a digit string. */
  function FullChunks(d: Bytes): (m: nat)
    ensures m <= |d| && m % 33 == 0
  {
    |d| / 33 * 33
  }

  /** The complete chunks of the shorter number do not exceed the digits the
      longer one has in their place. */
  predicate ChunksInOrder(d: Bytes, e: Bytes)
  {
    if |d| == |e| then true
    else if |d| < |e| then !LexLess(e[..FullChunks(d)], d[..FullChunks(d)])
    else !LexLess(d[..FullChunks(e)], e[..FullChunks(e)])
  }

  /** The same for clean names: if the first place where they differ holds two
      numbers, their chunks must be in order. */
  predicate ChunksAgree(a: Bytes, b: Bytes)
    decreases |a|
  {
    if a == [] || b == [] then true
    else if IsDigit(a[0]) && IsDigit(b[0]) then
      if Run(a) == Run(b) then ChunksAgree(a[DigitRun(a)..], b[DigitRun(b)..])
      else ChunksInOrder(Run(a), Run(b))
    else a[0] == b[0] ==> ChunksAgree(a[1..], b[1..])
  }

  // ----- Keys of numbers

  /** The key bytes of a digit string of any length. */
  function Digits(d: Bytes): Bytes
    requires AllDigits(d)
    decreases |d|
  {
    if d == [] then []
    else if |d| <= MAX_CHUNK then [0x7f + |d|] + d
    else [0x7f + MAX_CHUNK] + d[..MAX_CHUNK] + Digits(d[MAX_CHUNK..])
  }

  lemma EmptyDigits()
    ensures Digits([]) == []
  {
  }

  lemma {:induction false} CollatedNumber(d: Bytes, t: Bytes)
    requires AllDigits(d) && !StartsWithDigit(t)
    ensures Collated(d + t) == Digits(d) + Collated(t)
    decreases |d|
  {
    hide Collated, Encoded, Digits;
    EmptyDigits();
    if d == [] {
      assert d + t == t;
    } else {
      DigitRunOf(d, t);
      assert (d + t)[0] == d[0];
      var n := Step(d + t);
      assert n == if |d| <= MAX_CHUNK then |d| else MAX_CHUNK;
      assert (d + t)[..n] == d[..n] && (d + t)[n..] == d[n..] + t;
      CollatedNumber(d[n..], t);
      CollatedStep(d + t);
      DigitsStep(d, n);
      Assoc(Encoded(d[..n]), Digits(d[n..]), Collated(t));
    }
  }

  lemma DigitsStep(d: Bytes, n: nat)
    requires AllDigits(d) && d != [] && n == if |d| <= MAX_CHUNK then |d| else MAX_CHUNK
    ensures IsStep(d[..n]) && Digits(d) == Encoded(d[..n]) + Digits(d[n..])
  {
    assert d[..|d|] == d;
  }

  lemma CollatedAtNumber(s: Bytes)
    requires StartsWithDigit(s)
    ensures Collated(s) == Digits(Run(s)) + Collated(s[DigitRun(s)..])
  {
    hide Collated, Digits;
    assert s == Run(s) + s[DigitRun(s)..];
    CollatedNumber(Run(s), s[DigitRun(s)..]);
  }

  lemma CollatedAtByte(s: Bytes)
    requires s != [] && !IsDigit(s[0])
    ensures Collated(s) == [s[0]] + Collated(s[1..])
  {
  }

  /** The order of the keys of two different numbers, whatever follows them. */
  predicate DigitsLess(d: Bytes, e: Bytes) {
    if |d| == |e| then LexLess(d, e)
    else if |d| < |e| then !LexLess(e[..FullChunks(d)], d[..FullChunks(d)])
    else LexLess(d[..FullChunks(e)], e[..FullChunks(e)])
  }

  lemma ConsLexLess(x: byte, xs: Bytes, y: byte, ys: Bytes)
    ensures LexLess([x] + xs, [y] + ys) == if x != y then x < y else LexLess(xs, ys)
  {
    assert ([x] + xs)[1..] == xs && ([y] + ys)[1..] == ys;
  }

  lemma FirstKeyByte(s: Bytes)
    requires s != []
    ensures Collated(s) != []
    ensures Collated(s)[0] == if IsDigit(s[0]) then 0x7f + Step(s) else s[0]
  {
    assert s[..Step(s)][0] == s[0];
  }

  lemma ChunkEncoded(d: Bytes)
    requires AllDigits(d) && d != []
    ensures var n := Mark(d) - 0x7f;
            n == (if |d| <= MAX_CHUNK then |d| else MAX_CHUNK)
            && IsStep(d[..n]) && Encoded(d[..n]) == [Mark(d)] + d[..n]
  {
    var n := Mark(d) - 0x7f;
    assert d[..n][0] == d[0];
  }

  lemma FourParts(m: byte, c: Bytes, x: Bytes, k: Bytes)
    ensures (([m] + c) + x) + k == [m] + (c + (x + k))
  {
    Assoc([m] + c, x, k);
    Assoc([m], c, x + k);
  }

  lemma DigitsHead(d: Bytes, k: Bytes)
    requires AllDigits(d) && d != []
    ensures Mark(d) - 0x7f <= |d|
    ensures var n := Mark(d) - 0x7f;
            Digits(d) + k == [Mark(d)] + (d[..n] + (Digits(d[n..]) + k))
  {
    hide Digits, Encoded, IsStep, Mark;
    ChunkEncoded(d);
    var n := Mark(d) - 0x7f;
    DigitsStep(d, n);
    FourParts(Mark(d), d[..n], Digits(d[n..]), k);
  }

  /** A name that does not start with a digit against a number, in the index. */
  lemma NumberKey(x: Bytes, e: Bytes, k: Bytes)
    requires !StartsWithDigit(x) && AllDigits(e) && e != []
    ensures LexLess(Collated(x), Digits(e) + k) == BeforeNumber(x, e)
    ensures LexLess(Digits(e) + k, Collated(x)) == !BeforeNumber(x, e)
  {
    hide Collated, Digits;
    EmptyKey();
    DigitsHead(e, k);
    var q := e[..Mark(e) - 0x7f] + (Digits(e[Mark(e) - 0x7f..]) + k);
    assert q[0] == e[0];
    if x != [] {
      CollatedAtByte(x);
      ConsLexLess(x[0], Collated(x[1..]), Mark(e), q);
      ConsLexLess(Mark(e), q, x[0], Collated(x[1..]));
      if |x| > 1 {
        FirstKeyByte(x[1..]);
      }
    }
  }

  lemma SplitLess(d: Bytes, e: Bytes, n: nat)
    requires n <= |d| && n <= |e|
    ensures d[..n] == e[..n] ==> LexLess(d, e) == LexLess(d[n..], e[n..])
    ensures d[..n] != e[..n] ==> LexLess(d, e) == LexLess(d[..n], e[..n])
  {
    assert d == d[..n] + d[n..] && e == e[..n] + e[n..];
    if d[..n] == e[..n] {
      LexPrefix(d[..n], d[n..], e[n..]);
    } else {
      LexSameLength(d[..n], e[..n], d[n..], e[n..]);
    }
  }

  /** DigitsLess, one chunk at a time. */
  lemma DigitsLessChunk(d: Bytes, e: Bytes)
    requires |d| >= MAX_CHUNK && |e| >= MAX_CHUNK
    ensures d[..MAX_CHUNK] == e[..MAX_CHUNK] ==> DigitsLess(d, e) == DigitsLess(d[MAX_CHUNK..], e[MAX_CHUNK..])
    ensures d[..MAX_CHUNK] != e[..MAX_CHUNK] ==> DigitsLess(d, e) == LexLess(d[..MAX_CHUNK], e[..MAX_CHUNK])
  {
    if |d| == |e| {
      SplitLess(d, e, MAX_CHUNK);
    } else if |d| < |e| {
      ChunkPrefixes(d, e);
      LexTotal(d[..MAX_CHUNK], e[..MAX_CHUNK]);
    } else {
      ChunkPrefixes(e, d);
      LexTotal(d[..MAX_CHUNK], e[..MAX_CHUNK]);
    }
  }

  lemma ChunkPrefixes(d: Bytes, e: Bytes)
    requires MAX_CHUNK <= |d| <= |e|
    ensures FullChunks(d) == MAX_CHUNK + FullChunks(d[MAX_CHUNK..])
    ensures var n, m := FullChunks(d), FullChunks(d[MAX_CHUNK..]);
            && (d[..MAX_CHUNK] == e[..MAX_CHUNK] ==>
                  LexLess(e[..n], d[..n]) == LexLess(e[MAX_CHUNK..][..m], d[MAX_CHUNK..][..m]))
            && (d[..MAX_CHUNK] != e[..MAX_CHUNK] ==>
                  LexLess(e[..n], d[..n]) == LexLess(e[..MAX_CHUNK], d[..MAX_CHUNK]))
  {
    var n, m := FullChunks(d), FullChunks(d[MAX_CHUNK..]);
    assert n == MAX_CHUNK + m;
    assert d[..n][..MAX_CHUNK] == d[..MAX_CHUNK] && e[..n][..MAX_CHUNK] == e[..MAX_CHUNK];
    assert d[..n][MAX_CHUNK..] == d[MAX_CHUNK..][..m] && e[..n][MAX_CHUNK..] == e[MAX_CHUNK..][..m];
    SplitLess(e[..n], d[..n], MAX_CHUNK);
  }

  /** Two different numbers in the index, whatever follows them. */
  lemma {:induction false} RunKeys(d: Bytes, x: Bytes, e: Bytes, y: Bytes)
    requires AllDigits(d) && AllDigits(e) && d != e && !StartsWithDigit(x) && !StartsWithDigit(y)
    ensures LexLess(Digits(d) + Collated(x), Digits(e) + Collated(y)) == RunsLess(d, x, e, y)
    decreases |d|
  {
    hide Digits, Collated, BeforeNumber;
    EmptyDigits();
    if d == [] {
      assert Digits(d) + Collated(x) == Collated(x);
      NumberKey(x, e, Collated(y));
    } else if e == [] {
      assert Digits(e) + Collated(y) == Collated(y);
      NumberKey(y, d, Collated(x));
    } else {
      ChunkKeys(d, Collated(x), e, Collated(y));
      var n := Mark(d) - 0x7f;
      if Mark(d) == Mark(e) && d[..n] == e[..n] {
        assert d == d[..n] + d[n..] && e == e[..n] + e[n..];
        RunKeys(d[n..], x, e[n..], y);
      }
    }
  }

  /** What the first chunks decide. */
  lemma ChunkKeys(d: Bytes, k: Bytes, e: Bytes, l: Bytes)
    requires AllDigits(d) && AllDigits(e) && d != [] && e != []
    ensures var n := Mark(d) - 0x7f;
            n <= |d| && (Mark(d) == Mark(e) ==> n <= |e|)
            && LexLess(Digits(d) + k, Digits(e) + l) ==
                 if Mark(d) != Mark(e) then Mark(d) < Mark(e)
                 else if d[..n] != e[..n] then LexLess(d[..n], e[..n])
                 else LexLess(Digits(d[n..]) + k, Digits(e[n..]) + l)
  {
    hide Digits;
    DigitsHead(d, k);
    DigitsHead(e, l);
    var n, m := Mark(d) - 0x7f, Mark(e) - 0x7f;
    var p, q := Digits(d[n..]) + k, Digits(e[m..]) + l;
    ConsLexLess(Mark(d), d[..n] + p, Mark(e), e[..m] + q);
    if n == m && d[..n] == e[..n] {
      LexPrefix(d[..n], p, q);
    } else if n == m {
      LexSameLength(d[..n], e[..n], p, q);
    }
  }

  predicate LowStart(x: Bytes) {
    x != [] ==> x[0] < 0x80
  }

  /** Numbers followed by ASCII: the order of their keys depends on the digits alone. */
  lemma {:induction false} AsciiRuns(d: Bytes, x: Bytes, e: Bytes, y: Bytes)
    requires d != e && LowStart(x) && LowStart(y)
    ensures RunsLess(d, x, e, y) == DigitsLess(d, e)
    decreases |d|
  {
    if |d| < MAX_CHUNK || |e| < MAX_CHUNK {
      ShortRuns(d, x, e, y);
    } else {
      DigitsLessChunk(d, e);
      if d[..MAX_CHUNK] == e[..MAX_CHUNK] {
        assert d == d[..MAX_CHUNK] + d[MAX_CHUNK..] && e == e[..MAX_CHUNK] + e[MAX_CHUNK..];
        AsciiRuns(d[MAX_CHUNK..], x, e[MAX_CHUNK..], y);
      }
    }
  }

  lemma ShortRuns(d: Bytes, x: Bytes, e: Bytes, y: Bytes)
    requires d != e && LowStart(x) && LowStart(y)
    requires |d| < MAX_CHUNK || |e| < MAX_CHUNK
    ensures RunsLess(d, x, e, y) == DigitsLess(d, e)
  {
    if |d| == |e| {
      assert d[..|d|] == d && e[..|e|] == e;
    } else if |d| < |e| {
      NoFullChunk(d, e);
    } else {
      NoFullChunk(e, d);
    }
  }

  lemma NoFullChunk(d: Bytes, e: Bytes)
    requires |d| < |e| && |d| < MAX_CHUNK
    ensures DigitsLess(d, e) && !DigitsLess(e, d)
  {
    assert FullChunks(d) == 0;
  }

  // ----- The two orders

  /** Numbers without superfluous zeros: the two orders agree exactly when the
      chunks are in order. */
  lemma NumbersAgree(d: Bytes, e: Bytes)
    requires Plain(d) && Plain(e) && d != e
    ensures (Value(d) < Value(e)) == DigitsLess(d, e) <==> ChunksInOrder(d, e)
  {
    PlainValues(d, e);
    LexTotal(d, e);
    if |d| > |e| {
      LexTotal(d[..FullChunks(e)], e[..FullChunks(e)]);
    }
  }

  /** For all names, whatever their bytes and numbers: natsortCompare and the
      byte order of the keys give the same answer if and only if OrdersAgree. */
  lemma {:induction false} OrdersAgreeExactly(a: Bytes, b: Bytes)
    ensures NatLess(a, b) == KeyLess(a, b) <==> OrdersAgree(a, b)
    decreases |a|
  {
    hide NatLess, Collated, RunsLess, ValuesLess, BeforeNumber;
    if a == [] || b == [] {
      EmptyKeys(a, b);
    } else if IsDigit(a[0]) && IsDigit(b[0]) {
      NumbersFirst(a, b);
      if Run(a) == Run(b) {
        OrdersAgreeExactly(a[DigitRun(a)..], b[DigitRun(b)..]);
      }
    } else {
      ByteFirst(a, b);
      if a[0] == b[0] {
        OrdersAgreeExactly(a[1..], b[1..]);
      }
    }
  }

  lemma EmptyKeys(a: Bytes, b: Bytes)
    requires a == [] || b == []
    ensures NatLess(a, b) == KeyLess(a, b)
  {
    if a != [] {
      UncollatedStep(a[..Step(a)]);
    }
    if b != [] {
      UncollatedStep(b[..Step(b)]);
    }
  }

  lemma NumbersFirst(a: Bytes, b: Bytes)
    requires StartsWithDigit(a) && StartsWithDigit(b)
    ensures var (d, x), (e, y) := (Run(a), a[DigitRun(a)..]), (Run(b), b[DigitRun(b)..]);
            && (d == e ==> NatLess(a, b) == NatLess(x, y) && KeyLess(a, b) == KeyLess(x, y))
            && (d != e ==> NatLess(a, b) == ValuesLess(d, x, e, y) && KeyLess(a, b) == RunsLess(d, x, e, y))
  {
    hide Collated, Digits, RunsLess;
    var d, e := Run(a), Run(b);
    var x, y := a[|d|..], b[|e|..];
    ConsLess(Num(Value(d)), Tokens(x), Num(Value(e)), Tokens(y));
    CollatedAtNumber(a);
    CollatedAtNumber(b);
    if d == e {
      LexPrefix(Digits(d), Collated(x), Collated(y));
    } else {
      RunKeys(d, x, e, y);
    }
  }

  lemma ByteFirst(a: Bytes, b: Bytes)
    requires a != [] && b != [] && !(IsDigit(a[0]) && IsDigit(b[0]))
    ensures a[0] == b[0] ==>
              && NatLess(a, b) == NatLess(a[1..], b[1..])
              && KeyLess(a, b) == KeyLess(a[1..], b[1..])
    ensures a[0] != b[0] ==>
              (NatLess(a, b) == KeyLess(a, b) <==>
                 if IsDigit(b[0]) then BeforeNumber(a, Run(b))
                 else if IsDigit(a[0]) then BeforeNumber(b, Run(a))
                 else true)
  {
    hide NatLess, Collated, Digits;
    ByteStep(a, b);
    if IsDigit(b[0]) {
      CollatedAtNumber(b);
      NumberKey(a, Run(b), Collated(b[DigitRun(b)..]));
    } else if IsDigit(a[0]) {
      CollatedAtNumber(a);
      NumberKey(b, Run(a), Collated(a[DigitRun(a)..]));
    } else {
      CollatedAtByte(a);
      CollatedAtByte(b);
      ConsLexLess(a[0], Collated(a[1..]), b[0], Collated(b[1..]));
    }
  }

  // ----- Names the orders agree on

  lemma CleanTail(s: Bytes)
    requires Clean(s) && StartsWithDigit(s)
    ensures Plain(Run(s)) && Clean(s[DigitRun(s)..]) && LowStart(s[DigitRun(s)..])
  {
  }

  /** For clean names the condition comes down to the chunks. */
  lemma {:induction false} CleanAgree(a: Bytes, b: Bytes)
    requires Clean(a) && Clean(b)
    ensures OrdersAgree(a, b) <==> ChunksAgree(a, b)
    decreases |a|
  {
    hide RunsLess, ValuesLess;
    if a != [] && b != [] {
      if IsDigit(a[0]) && IsDigit(b[0]) {
        CleanTail(a);
        CleanTail(b);
        var d, e := Run(a), Run(b);
        var x, y := a[|d|..], b[|e|..];
        if d == e {
          CleanAgree(x, y);
        } else {
          CleanValues(d, x, e, y);
          AsciiRuns(d, x, e, y);
          NumbersAgree(d, e);
        }
      } else if a[0] == b[0] {
        CleanAgree(a[1..], b[1..]);
      }
    }
  }

  lemma CleanValues(d: Bytes, x: Bytes, e: Bytes, y: Bytes)
    requires Plain(d) && Plain(e) && d != e
    ensures ValuesLess(d, x, e, y) == (Value(d) < Value(e))
  {
    PlainValues(d, e);
  }

  lemma {:induction false} ShortNumbersAgree(a: Bytes, b: Bytes)
    requires ShortNumbers(a) && ShortNumbers(b)
    ensures ChunksAgree(a, b)
    decreases |a|
  {
    if a != [] && b != [] {
      if IsDigit(a[0]) && IsDigit(b[0]) {
        ShortNumbersAgree(a[DigitRun(a)..], b[DigitRun(b)..]);
      } else if a[0] == b[0] {
        ShortNumbersAgree(a[1..], b[1..]);
      }
    }
  }

  /** On ASCII names whose numbers have no superfluous zeros and at most 33
      digits, the two implementations compute one order. */
  lemma OneOrder(a: Bytes, b: Bytes)
    requires Clean(a) && Clean(b) && ShortNumbers(a) && ShortNumbers(b)
    ensures NatLess(a, b) <==> KeyLess(a, b)
  {
    ShortNumbersAgree(a, b);
    CleanAgree(a, b);
    OrdersAgreeExactly(a, b);
  }

  /** Different spellings of the same numbers: natsortCompare ties them, the
      index does not, so leading zeros have to be excluded. */
  lemma PaddingSeparates(a: Bytes, b: Bytes)
    requires Unpadded(a) == Unpadded(b) && a != b
    ensures !NatLess(a, b) && !NatLess(b, a)
    ensures KeyLess(a, b) || KeyLess(b, a)
  {
    NatIncomparable(a, b);
    KeysTotal(a, b);
  }

  /** A byte above the length bytes sorts before every number in natural order
      but after every number in the index. */
  lemma HighByteReverses(h: byte, s: Bytes)
    requires h > 0xa0 && StartsWithDigit(s)
    ensures NatLess([h], s) && KeyLess(s, [h])
  {
    ByteStep([h], s);
    CollatedAtByte([h]);
    var k := Collated(s);
    assert k[0] == 0x7f + Step(s) by {
      assert s[..Step(s)][0] == s[0];
    }
  }
}

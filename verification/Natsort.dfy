/** Natural order of names: apkgdb/natsort.go. */
module Natsort {
  import opened Bytes
  import opened Collate

  // ----- The order, on token sequences

  /** A name read as a sequence of bytes that are not digits, and numbers. */
  datatype Token = Lit(b: byte) | Num(n: nat)

  function Pow10(n: nat): (p: nat)
    ensures p >= 1
  {
    if n == 0 then 1 else 10 * Pow10(n - 1)
  }

  function Value(d: Bytes): nat
    requires AllDigits(d)
  {
    if d == [] then 0 else (d[0] - 48) * Pow10(|d| - 1) + Value(d[1..])
  }

  /** The number a string starts with. */
  function Run(s: Bytes): (d: Bytes)
    requires StartsWithDigit(s)
    ensures d != [] && AllDigits(d)
  {
    s[..DigitRun(s)]
  }

  function Tokens(s: Bytes): seq<Token>
    decreases |s|
  {
    if s == [] then []
    else if IsDigit(s[0]) then
      [Num(Value(Run(s)))] + Tokens(s[DigitRun(s)..])
    else [Lit(s[0])] + Tokens(s[1..])
  }

  /** Every number comes after every byte. */
  predicate TokenLess(x: Token, y: Token) {
    match (x, y)
    case (Lit(a), Lit(b)) => a < b
    case (Lit(_), Num(_)) => true
    case (Num(_), Lit(_)) => false
    case (Num(a), Num(b)) => a < b
  }

  predicate TokensLess(x: seq<Token>, y: seq<Token>) {
    if y == [] then false
    else if x == [] then true
    else if x[0] != y[0] then TokenLess(x[0], y[0])
    else TokensLess(x[1..], y[1..])
  }

  predicate NatLess(a: Bytes, b: Bytes) {
    TokensLess(Tokens(a), Tokens(b))
  }

  lemma {:induction false} TokensTotal(x: seq<Token>, y: seq<Token>)
    ensures TokensLess(x, y) || TokensLess(y, x) || x == y
    ensures !(TokensLess(x, y) && TokensLess(y, x))
    ensures x == y ==> !TokensLess(x, y)
  {
    if x != [] && y != [] && x[0] == y[0] {
      TokensTotal(x[1..], y[1..]);
      assert x == [x[0]] + x[1..] && y == [y[0]] + y[1..];
    }
  }

  lemma {:induction false} TokensTransitive(x: seq<Token>, y: seq<Token>, z: seq<Token>)
    requires TokensLess(x, y) && TokensLess(y, z)
    ensures TokensLess(x, z)
  {
    if x != [] && x[0] == y[0] == z[0] {
      TokensTransitive(x[1..], y[1..], z[1..]);
    }
  }

  // ----- Decimal numerals

  lemma DigitTimes(h: nat, p: nat)
    requires h <= 9
    ensures h * p <= 9 * p
    ensures h > 0 ==> p <= h * p
  {
  }

  lemma {:induction false} ValueBound(d: Bytes)
    requires AllDigits(d)
    ensures Value(d) < Pow10(|d|)
    ensures d != [] && d[0] != 48 ==> Pow10(|d| - 1) <= Value(d)
  {
    if d != [] {
      ValueBound(d[1..]);
      DigitTimes(d[0] - 48, Pow10(|d| - 1));
    }
  }

  lemma {:induction false} Pow10Monotone(m: nat, n: nat)
    requires m <= n
    ensures Pow10(m) <= Pow10(n)
  {
    if m < n {
      Pow10Monotone(m, n - 1);
    }
  }

  /** Among numerals of one length, byte order is numeric order. */
  lemma {:induction false} SameLengthValues(d: Bytes, e: Bytes)
    requires AllDigits(d) && AllDigits(e) && |d| == |e|
    ensures LexLess(d, e) == (Value(d) < Value(e))
    ensures d == e <==> Value(d) == Value(e)
  {
    if d != [] {
      SameLengthValues(d[1..], e[1..]);
      assert d == [d[0]] + d[1..] && e == [e[0]] + e[1..];
      if d[0] < e[0] {
        HeadDecides(d, e);
      } else if e[0] < d[0] {
        HeadDecides(e, d);
      }
    }
  }

  lemma HeadDecides(d: Bytes, e: Bytes)
    requires AllDigits(d) && AllDigits(e) && |d| == |e| > 0 && d[0] < e[0]
    ensures Value(d) < Value(e)
  {
    ValueBound(d[1..]);
    ScaleLess(d[0] - 48, e[0] - 48, Pow10(|d| - 1));
  }

  lemma ScaleLess(h: nat, k: nat, p: nat)
    requires h < k
    ensures h * p + p <= k * p
  {
    var m := k - h;
    assert k * p == h * p + m * p;
    assert m * p == p + (m - 1) * p;
  }

  /** A numeral without superfluous zeros: one digit, or a first digit that is not 0. */
  predicate Plain(d: Bytes) {
    d != [] && AllDigits(d) && (|d| > 1 ==> d[0] != 48)
  }

  lemma ShorterIsSmaller(d: Bytes, e: Bytes)
    requires Plain(d) && Plain(e) && |d| < |e|
    ensures Value(d) < Value(e)
  {
    ValueBound(d);
    ValueBound(e);
    Pow10Monotone(|d|, |e| - 1);
  }

  /** Drops leading zeros, keeping at least one digit. */
  function Strip(d: Bytes): (r: Bytes)
    requires d != [] && AllDigits(d)
    ensures Plain(r) && Value(r) == Value(d)
  {
    if |d| > 1 && d[0] == 48 then
      assert Value(d) == 0 * Pow10(|d| - 1) + Value(d[1..]);
      Strip(d[1..])
    else d
  }

  lemma PlainValues(d: Bytes, e: Bytes)
    requires Plain(d) && Plain(e)
    ensures Value(d) == Value(e) <==> d == e
    ensures Value(d) < Value(e) <==> |d| < |e| || (|d| == |e| && LexLess(d, e))
  {
    if |d| == |e| {
      SameLengthValues(d, e);
    } else if |d| < |e| {
      ShorterIsSmaller(d, e);
    } else {
      ShorterIsSmaller(e, d);
    }
  }

  lemma {:induction false} StripExtends(d: Bytes, x: byte)
    requires d != [] && AllDigits(d) && IsDigit(x)
    ensures Strip(d + [x]) == if Strip(d)[0] == 48 then [x] else Strip(d) + [x]
  {
    if |d| > 1 && d[0] == 48 {
      assert (d + [x])[1..] == d[1..] + [x];
      StripExtends(d[1..], x);
    } else if d[0] == 48 {
      assert (d + [x])[1..] == [x];
    }
  }

  // ----- natsortCompare

  /** The loop that measures a number and steps over its leading zeros
      (written out once for each operand in natsortCompare): `p` and `ln` are
      the position and the length of what is left of the number. */
  method MeasureNumber(s: Bytes, pos: nat) returns (p: nat, ln: nat)
    requires pos < |s| && StartsWithDigit(s[pos..])
    ensures p < p + ln == pos + DigitRun(s[pos..]) <= |s|
    ensures s[p..p + ln] == Strip(Run(s[pos..]))
  {
    p, ln := pos, 1;
    var v := s[p];
    FirstDigit(s, pos);
    while true
      invariant pos <= p < p + ln <= |s| && v == s[p]
      invariant Measured(s, pos, p, ln)
      decreases |s| - p - ln
    {
      if p + ln >= |s| {
        break;
      }
      var x := s[p + ln];
      if !IsDigit(x) {
        break;
      }
      NextDigit(s, pos, p, ln);
      ln := ln + 1;
      if v == 48 {
        p := p + 1;
        ln := ln - 1;
        v := x;
      }
    }
    NumberMeasured(s, pos, p, ln);
  }

  /** The digits from `pos` up to `p + ln`, without their leading zeros, are `ln` digits at `p`. */
  predicate Measured(s: Bytes, pos: nat, p: nat, ln: nat)
    requires pos <= p < p + ln <= |s|
  {
    AllDigits(s[pos..p + ln]) && Strip(s[pos..p + ln]) == s[p..p + ln]
  }

  lemma FirstDigit(s: Bytes, pos: nat)
    requires pos < |s| && StartsWithDigit(s[pos..])
    ensures Measured(s, pos, pos, 1)
  {
    assert s[pos..pos + 1] == [s[pos]];
  }

  lemma NextDigit(s: Bytes, pos: nat, p: nat, ln: nat)
    requires pos <= p < p + ln < |s| && Measured(s, pos, p, ln) && IsDigit(s[p + ln])
    ensures s[p] == 48 ==> ln == 1 && Measured(s, pos, p + 1, 1)
    ensures s[p] != 48 ==> Measured(s, pos, p, ln + 1)
  {
    var d := s[pos..p + ln];
    var x := s[p + ln];
    StripExtends(d, x);
    assert s[pos..p + ln + 1] == d + [x];
    assert s[p..p + ln][0] == s[p];
    assert s[p..p + ln + 1] == s[p..p + ln] + [x];
    assert |s[p..p + ln]| == ln;
    if s[p] == 48 {
      assert ln == 1;
      assert s[p + 1..p + 2] == [x];
    }
  }

  lemma NumberMeasured(s: Bytes, pos: nat, p: nat, ln: nat)
    requires pos <= p < p + ln <= |s| && Measured(s, pos, p, ln)
    requires p + ln < |s| ==> !IsDigit(s[p + ln])
    ensures p + ln == pos + DigitRun(s[pos..])
    ensures StartsWithDigit(s[pos..]) && s[p..p + ln] == Strip(Run(s[pos..]))
  {
    var n := p + ln - pos;
    assert s[pos..][..n] == s[pos..p + ln];
    assert s[pos..][0] == s[pos..p + ln][0];
    DigitRunIs(s[pos..], n);
  }

  /** How natsortCompare decides where both sides start with a number. */
  lemma NumberStep(a: Bytes, b: Bytes)
    requires StartsWithDigit(a) && StartsWithDigit(b)
    ensures var d, e := Strip(Run(a)), Strip(Run(b));
            NatLess(a, b) ==
              if |d| != |e| then |d| < |e|
              else if d != e then LexLess(d, e)
              else NatLess(a[DigitRun(a)..], b[DigitRun(b)..])
  {
    var d, e := Run(a), Run(b);
    PlainValues(Strip(d), Strip(e));
    ConsLess(Num(Value(d)), Tokens(a[|d|..]), Num(Value(e)), Tokens(b[|e|..]));
  }

  lemma ConsLess(x: Token, xs: seq<Token>, y: Token, ys: seq<Token>)
    ensures TokensLess([x] + xs, [y] + ys) == if x != y then TokenLess(x, y) else TokensLess(xs, ys)
  {
    assert ([x] + xs)[1..] == xs && ([y] + ys)[1..] == ys;
  }

  /** How it decides where one side starts with a byte that is not a digit. */
  lemma ByteStep(a: Bytes, b: Bytes)
    requires a != [] && b != [] && !(IsDigit(a[0]) && IsDigit(b[0]))
    ensures NatLess(a, b) ==
              if a[0] == b[0] then NatLess(a[1..], b[1..])
              else if IsDigit(b[0]) then true
              else if IsDigit(a[0]) then false
              else a[0] < b[0]
  {
    if a[0] == b[0] {
      ConsLess(Lit(a[0]), Tokens(a[1..]), Lit(b[0]), Tokens(b[1..]));
    }
  }

  lemma Advance(s: Bytes, pos: nat, next: nat)
    requires pos <= next <= |s|
    ensures s[pos..][next - pos..] == s[next..]
  {
  }

  /** The numeric mode of natsortCompare: `order` is 0 when the numbers are
      equal, and then `na` and `nb` are the positions behind them. */
  method CompareNumbers(a: Bytes, posa: nat, b: Bytes, posb: nat) returns (order: int, na: nat, nb: nat)
    requires posa < |a| && posb < |b| && IsDigit(a[posa]) && IsDigit(b[posb])
    ensures order != 0 ==> NatLess(a[posa..], b[posb..]) == (order < 0)
    ensures order == 0 ==> posa < na <= |a| && posb < nb <= |b|
    ensures order == 0 ==> NatLess(a[posa..], b[posb..]) == NatLess(a[na..], b[nb..])
  {
    assert a[posa..][0] == a[posa] && b[posb..][0] == b[posb];
    NumberStep(a[posa..], b[posb..]);
    var pa, la := MeasureNumber(a, posa);
    var pb, lb := MeasureNumber(b, posb);
    na, nb := pa + la, pb + lb;
    if lb > la {
      order := -1;
    } else if la > lb {
      order := 1;
    } else {
      order := Compare(a[pa..pa + la], b[pb..pb + lb]);
      LexTotal(a[pa..pa + la], b[pb..pb + lb]);
      Advance(a, posa, na);
      Advance(b, posb, nb);
    }
  }

  /** natsortCompare: two cursors, numbers compared by length and then as strings. */
  method NatsortCompare(a: Bytes, b: Bytes) returns (less: bool)
    ensures less == NatLess(a, b)
  {
    var posa, posb := 0, 0;
    assert a[0..] == a && b[0..] == b;
    while true
      invariant 0 <= posa <= |a| && 0 <= posb <= |b|
      invariant NatLess(a[posa..], b[posb..]) == NatLess(a, b)
      decreases |a| - posa
    {
      if |a| <= posa {
        return |b| > posb;
      } else if |b| <= posb {
        return false;
      }
      var av, bv := a[posa], b[posb];
      var digita, digitb := IsDigit(av), IsDigit(bv);
      assert a[posa..][0] == av && b[posb..][0] == bv;
      if digita && digitb {
        var order, na, nb := CompareNumbers(a, posa, b, posb);
        if order != 0 {
          return order < 0;
        }
        posa, posb := na, nb;
        continue;
      }
      ByteStep(a[posa..], b[posb..]);
      if av == bv {
        Advance(a, posa, posa + 1);
        Advance(b, posb, posb + 1);
        posa, posb := posa + 1, posb + 1;
        continue;
      }
      if digitb {
        return true;
      } else if digita {
        return false;
      }
      return av < bv;
    }
  }

  /** strings.Compare. */
  method Compare(x: Bytes, y: Bytes) returns (v: int)
    ensures v < 0 <==> LexLess(x, y)
    ensures v > 0 <==> LexLess(y, x)
    ensures v == 0 <==> x == y
  {
    LexTotal(x, y);
    v := if LexLess(x, y) then -1 else if LexLess(y, x) then 1 else 0;
  }

  // ----- The order is a strict weak order

  lemma NatLessIrreflexive(a: Bytes, b: Bytes)
    ensures !NatLess(a, a)
    ensures NatLess(a, b) ==> !NatLess(b, a)
  {
    TokensTotal(Tokens(a), Tokens(a));
    TokensTotal(Tokens(a), Tokens(b));
  }

  lemma NatLessTransitive(a: Bytes, b: Bytes, c: Bytes)
    ensures NatLess(a, b) && NatLess(b, c) ==> NatLess(a, c)
  {
    if NatLess(a, b) && NatLess(b, c) {
      TokensTransitive(Tokens(a), Tokens(b), Tokens(c));
    }
  }

  /** The name with the leading zeros of every number removed. */
  function Unpadded(s: Bytes): Bytes
    decreases |s|
  {
    if s == [] then []
    else if IsDigit(s[0]) then
      Strip(Run(s)) + Unpadded(s[DigitRun(s)..])
    else [s[0]] + Unpadded(s[1..])
  }

  lemma UnpaddedHead(s: Bytes)
    ensures s == [] <==> Unpadded(s) == []
    ensures StartsWithDigit(Unpadded(s)) <==> StartsWithDigit(s)
  {
  }

  lemma DigitRunOf(d: Bytes, t: Bytes)
    requires AllDigits(d) && !StartsWithDigit(t)
    ensures DigitRun(d + t) == |d| && (d + t)[..|d|] == d && (d + t)[|d|..] == t
  {
    assert (d + t)[..|d|] == d && (d + t)[|d|..] == t;
    assert t != [] ==> (d + t)[|d|] == t[0];
    DigitRunIs(d + t, |d|);
  }

  lemma {:induction false} UnpaddedTokens(s: Bytes)
    ensures Tokens(Unpadded(s)) == Tokens(s)
    decreases |s|
  {
    if s == [] {
    } else if IsDigit(s[0]) {
      var n := DigitRun(s);
      UnpaddedTokens(s[n..]);
      UnpaddedHead(s[n..]);
      TokensOfNumber(Strip(Run(s)), Unpadded(s[n..]));
    } else {
      UnpaddedTokens(s[1..]);
      assert ([s[0]] + Unpadded(s[1..]))[1..] == Unpadded(s[1..]);
    }
  }

  lemma TokensOfNumber(d: Bytes, t: Bytes)
    requires d != [] && AllDigits(d) && !StartsWithDigit(t)
    ensures Tokens(d + t) == [Num(Value(d))] + Tokens(t)
  {
    DigitRunOf(d, t);
    assert (d + t)[0] == d[0];
  }

  lemma {:induction false} SameTokens(a: Bytes, b: Bytes)
    requires Tokens(a) == Tokens(b)
    ensures Unpadded(a) == Unpadded(b)
    decreases |a|
  {
    if a != [] {
      assert Tokens(a) != [];
      assert b != [];
      assert Tokens(a)[0] == Tokens(b)[0];
      if IsDigit(a[0]) {
        var n, m := DigitRun(a), DigitRun(b);
        assert IsDigit(b[0]);
        TailTokens(a, b);
        PlainValues(Strip(Run(a)), Strip(Run(b)));
        SameTokens(a[n..], b[m..]);
      } else {
        assert !IsDigit(b[0]);
        TailTokens(a, b);
        SameTokens(a[1..], b[1..]);
      }
    }
  }

  lemma TailTokens(a: Bytes, b: Bytes)
    requires a != [] && b != [] && Tokens(a) == Tokens(b)
    ensures IsDigit(a[0]) == IsDigit(b[0])
    ensures IsDigit(a[0]) ==> Tokens(a[DigitRun(a)..]) == Tokens(b[DigitRun(b)..])
    ensures !IsDigit(a[0]) ==> Tokens(a[1..]) == Tokens(b[1..])
  {
    assert Tokens(a)[0] == Tokens(b)[0];
    assert Tokens(a)[1..] == Tokens(b)[1..];
  }

  /** Two names are incomparable exactly when they differ only in leading zeros
      of their numbers. */
  lemma NatIncomparable(a: Bytes, b: Bytes)
    ensures !NatLess(a, b) && !NatLess(b, a) <==> Unpadded(a) == Unpadded(b)
  {
    TokensTotal(Tokens(a), Tokens(b));
    if Tokens(a) == Tokens(b) {
      SameTokens(a, b);
    }
    UnpaddedTokens(a);
    UnpaddedTokens(b);
  }

  /** Incomparability is transitive, so NatLess is a strict weak order. */
  lemma NatIncomparableTransitive(a: Bytes, b: Bytes, c: Bytes)
    requires !NatLess(a, b) && !NatLess(b, a) && !NatLess(b, c) && !NatLess(c, b)
    ensures !NatLess(a, c) && !NatLess(c, a)
  {
    NatIncomparable(a, b);
    NatIncomparable(b, c);
    NatIncomparable(a, c);
  }
}

/** Byte strings and the order Go's `bytes.Compare` and bbolt use on them. */
module Bytes {

  type byte = b: int | 0 <= b < 256

  type Bytes = seq<byte>

  const DOT: byte := 46
  const NUL: byte := 0

  datatype Option<+T> = None | Some(value: T)

  predicate IsDigit(b: byte) {
    48 <= b <= 57
  }

  predicate AllDigits(s: Bytes) {
    forall i | 0 <= i < |s| :: IsDigit(s[i])
  }

  lemma Assoc<T>(a: seq<T>, b: seq<T>, c: seq<T>)
    ensures (a + b) + c == a + (b + c)
  {
  }

  /** Byte-lexicographic order; a proper prefix precedes what it starts. */
  predicate LexLess(a: Bytes, b: Bytes) {
    if b == [] then false
    else if a == [] then true
    else if a[0] != b[0] then a[0] < b[0]
    else LexLess(a[1..], b[1..])
  }

  lemma {:induction false} LexTotal(a: Bytes, b: Bytes)
    ensures LexLess(a, b) || LexLess(b, a) || a == b
    ensures !(LexLess(a, b) && LexLess(b, a))
    ensures a == b ==> !LexLess(a, b)
  {
    if a != [] && b != [] && a[0] == b[0] {
      LexTotal(a[1..], b[1..]);
      assert a == [a[0]] + a[1..] && b == [b[0]] + b[1..];
    }
  }

  lemma {:induction false} LexTransitive(a: Bytes, b: Bytes, c: Bytes)
    requires LexLess(a, b) && LexLess(b, c)
    ensures LexLess(a, c)
  {
    if a != [] && a[0] == b[0] == c[0] {
      LexTransitive(a[1..], b[1..], c[1..]);
    }
  }

  /** A common prefix does not influence the comparison. */
  lemma {:induction false} LexPrefix(p: Bytes, a: Bytes, b: Bytes)
    ensures LexLess(p + a, p + b) == LexLess(a, b)
  {
    if p == [] {
      assert p + a == a && p + b == b;
    } else {
      assert (p + a)[1..] == p[1..] + a && (p + b)[1..] == p[1..] + b;
      LexPrefix(p[1..], a, b);
    }
  }

  /** Strings of one length that differ decide the comparison whatever follows them. */
  lemma {:induction false} LexSameLength(d: Bytes, e: Bytes, x: Bytes, y: Bytes)
    requires |d| == |e| && d != e
    ensures LexLess(d + x, e + y) == LexLess(d, e)
  {
    assert d == [d[0]] + d[1..] && e == [e[0]] + e[1..];
    if d[0] == e[0] {
      assert (d + x)[1..] == d[1..] + x && (e + y)[1..] == e[1..] + y;
      LexSameLength(d[1..], e[1..], x, y);
    }
  }

  /** What lies between two extensions of `p` extends `p` itself. */
  lemma {:induction false} LexBetween(p: Bytes, x: Bytes, k: Bytes, y: Bytes)
    requires !LexLess(k, p + x) && LexLess(k, p + y)
    ensures p <= k
  {
    if p != [] {
      assert (p + x)[1..] == p[1..] + x && (p + y)[1..] == p[1..] + y;
      assert k != [] && k[0] == p[0];
      LexBetween(p[1..], x, k[1..], y);
      assert k == [k[0]] + k[1..] && p == [p[0]] + p[1..];
    }
  }
}

/** Fixed-width integers, as encoding/binary writes and reads them. */
module Codec {
  import opened Bytes

  function Pow256(w: nat): (p: nat)
    ensures p >= 1
  {
    if w == 0 then 1 else 256 * Pow256(w - 1)
  }

  /** The `w` low bytes of `n`, most significant first. */
  function BE(n: nat, w: nat): (b: Bytes)
    ensures |b| == w
  {
    if w == 0 then [] else BE(n / 256, w - 1) + [n % 256]
  }

  function FromBE(b: Bytes): nat {
    if b == [] then 0 else 256 * FromBE(b[..|b| - 1]) + b[|b| - 1]
  }

  lemma {:induction false} BERoundTrip(n: nat, w: nat)
    requires n < Pow256(w)
    ensures FromBE(BE(n, w)) == n
  {
    if w > 0 {
      BERoundTrip(n / 256, w - 1);
      assert BE(n, w)[..w - 1] == BE(n / 256, w - 1);
    }
  }

  lemma {:induction false} FromBERoundTrip(b: Bytes)
    ensures FromBE(b) < Pow256(|b|)
    ensures BE(FromBE(b), |b|) == b
  {
    if b != [] {
      var front := b[..|b| - 1];
      FromBERoundTrip(front);
      assert FromBE(b) / 256 == FromBE(front) && FromBE(b) % 256 == b[|b| - 1];
      assert b == front + [b[|b| - 1]];
    }
  }

  /** Each byte of an encoding: the most significant comes first. */
  lemma {:induction false} BEBytes(n: nat, w: nat, i: nat)
    requires i < w
    ensures BE(n, w)[i] == n / Pow256(w - 1 - i) % 256
    decreases w
  {
    if i < w - 1 {
      BEBytes(n / 256, w - 1, i);
      var p := Pow256(w - 2 - i);
      assert Pow256(w - 1 - i) == 256 * p;
      DivTwice(n, 256, p);
    }
  }

  lemma DivTwice(n: nat, d: nat, p: nat)
    requires d > 0 && p > 0
    ensures d * p > 0 && n / d / p == n / (d * p)
  {
    var m := n / d;
    var q, k, l := m / p, m % p, n % d;
    Regrouped(d, p, q, k, l);
    DivisionOf(n, d);
    DivisionOf(m, p);
    Quotient(k * d + l, d * p, q);
  }

  lemma DivisionOf(n: nat, d: nat)
    requires d > 0
    ensures n == n / d * d + n % d && n % d < d
  {
  }

  lemma Regrouped(d: nat, p: nat, q: nat, k: nat, l: nat)
    requires k < p && l < d
    ensures d * p > 0 && k * d + l < d * p
    ensures (q * p + k) * d + l == q * (d * p) + (k * d + l)
  {
    MultiplesApart(k, p, d);
    assert (q * p) * d == q * (d * p);
    assert (q * p + k) * d == (q * p) * d + k * d;
  }

  lemma {:induction false} Quotient(r: nat, d: nat, q: nat)
    requires r < d
    ensures (q * d + r) / d == q
  {
    var n := q * d + r;
    var p := n / d;
    assert n == p * d + n % d;
    if p < q {
      MultiplesApart(p, q, d);
    } else if q < p {
      MultiplesApart(q, p, d);
    }
  }

  lemma {:induction false} MultiplesApart(p: nat, q: nat, d: nat)
    requires p < q
    ensures p * d + d <= q * d
  {
    assert (q - 1) * d + d == q * d;
    if p + 1 < q {
      MultiplesApart(p, q - 1, d);
    }
  }

  lemma Widths()
    ensures Pow256(4) == 0x1_0000_0000
    ensures Pow256(8) == 0x1_0000_0000_0000_0000
  {
    assert Pow256(1) == 256;
    assert Pow256(2) == 0x1_0000;
    assert Pow256(3) == 0x100_0000;
    assert Pow256(5) == 0x100_0000_0000;
    assert Pow256(6) == 0x1_0000_0000_0000;
    assert Pow256(7) == 0x100_0000_0000_0000;
  }

  lemma BE4(n: nat)
    requires n < 0x1_0000_0000
    ensures FromBE(BE(n, 4)) == n
  {
    Widths();
    BERoundTrip(n, 4);
  }

  lemma BE8(n: nat)
    requires n < 0x1_0000_0000_0000_0000
    ensures FromBE(BE(n, 8)) == n
  {
    Widths();
    BERoundTrip(n, 8);
  }

  /** The high half of a small 64-bit number is zero, its low half the 32-bit number. */
  lemma {:induction false} LowHalf(n: nat, w: nat, k: nat)
    ensures BE(n, w + k)[w..] == BE(n, k)
    ensures n < Pow256(k) ==> BE(n, w + k)[..w] == BE(0, w)
    decreases k
  {
    if k == 0 {
      if n == 0 {
        assert BE(n, w)[..w] == BE(0, w);
      }
    } else {
      LowHalf(n / 256, w, k - 1);
      assert BE(n, w + k) == BE(n / 256, w + k - 1) + [n % 256];
      assert BE(n, w + k)[w..] == BE(n / 256, w + (k - 1))[w..] + [n % 256];
      assert BE(n, w + k)[..w] == BE(n / 256, w + (k - 1))[..w];
    }
  }
}

/** Bytes, optional values, and the fixed-width integer encodings that the
    datagram header, the payload fill and the control framing share. */
module Bytes {

  datatype Option<+T> = None | Some(value: T)

  type byte = b: int | 0 <= b < 256

  const TWO64: nat := 0x1_0000_0000_0000_0000

  type u64 = n: int | 0 <= n < 0x1_0000_0000_0000_0000

  type u16 = n: int | 0 <= n < 0x1_0000

  function Pow256(k: nat): (p: nat)
    ensures p > 0
  {
    if k == 0 then 1 else 256 * Pow256(k - 1)
  }

  /** The low k bytes of n, least significant first. */
  function ToLe(n: nat, k: nat): (bs: seq<byte>)
    ensures |bs| == k
  {
    if k == 0 then [] else [n % 256] + ToLe(n / 256, k - 1)
  }

  /** The number that a little-endian byte string denotes. */
  function FromLe(bs: seq<byte>): nat {
    if |bs| == 0 then 0 else bs[0] + 256 * FromLe(bs[1..])
  }

  function Reverse<T>(s: seq<T>): (r: seq<T>)
    ensures |r| == |s|
    ensures forall i :: 0 <= i < |s| ==> r[i] == s[|s| - 1 - i]
  {
    if |s| == 0 then [] else Reverse(s[1..]) + [s[0]]
  }

  /** The low k bytes of n, most significant first (network order). */
  function ToBe(n: nat, k: nat): (bs: seq<byte>)
    ensures |bs| == k
  {
    Reverse(ToLe(n, k))
  }

  function FromBe(bs: seq<byte>): nat {
    FromLe(Reverse(bs))
  }

  lemma {:induction false} LeRoundTrip(n: nat, k: nat)
    requires n < Pow256(k)
    ensures FromLe(ToLe(n, k)) == n
  {
    if k > 0 {
      LeRoundTrip(n / 256, k - 1);
      assert ToLe(n, k)[1..] == ToLe(n / 256, k - 1);
    }
  }

  lemma {:induction false} LeBytesRoundTrip(bs: seq<byte>)
    ensures FromLe(bs) < Pow256(|bs|)
    ensures ToLe(FromLe(bs), |bs|) == bs
  {
    if |bs| > 0 {
      LeBytesRoundTrip(bs[1..]);
      var n := FromLe(bs);
      assert n % 256 == bs[0] && n / 256 == FromLe(bs[1..]);
      assert bs == [bs[0]] + bs[1..];
    }
  }

  lemma ReverseReverse<T>(s: seq<T>)
    ensures Reverse(Reverse(s)) == s
  {
  }

  lemma BeRoundTrip(n: nat, k: nat)
    requires n < Pow256(k)
    ensures FromBe(ToBe(n, k)) == n
  {
    ReverseReverse(ToLe(n, k));
    LeRoundTrip(n, k);
  }

  lemma BeBytesRoundTrip(bs: seq<byte>)
    ensures FromBe(bs) < Pow256(|bs|)
    ensures ToBe(FromBe(bs), |bs|) == bs
  {
    LeBytesRoundTrip(Reverse(bs));
    ReverseReverse(bs);
  }

  lemma Pow256Values()
    ensures Pow256(4) == 0x1_0000_0000
    ensures Pow256(8) == TWO64
  {
    assert Pow256(2) == 0x1_0000;
    assert Pow256(4) == 0x1_0000_0000;
    assert Pow256(6) == 0x1_0000_0000_0000;
  }

  lemma MulLe(a: int, b: int, d: int)
    requires a <= b && d >= 0
    ensures a * d <= b * d
  {
  }

  lemma QuotientIs(n: nat, d: nat, q: nat)
    requires q * d <= n < (q + 1) * d
    ensures n / d == q
  {
    var r := n / d;
    assert n == r * d + n % d;
    assert (r + 1) * d == r * d + d;
    if r < q {
      MulLe(r + 1, q, d);
    } else if r > q {
      MulLe(q + 1, r, d);
    }
  }

  lemma DivTwice(n: nat, p: nat)
    requires p > 0
    ensures n / 256 / p == n / (256 * p)
  {
    var q := n / 256;
    var s, t := q / p, q % p;
    assert n == 256 * q + n % 256 && q == s * p + t;
    var d := 256 * p;
    assert s * d == 256 * (s * p);
    assert (s + 1) * d == s * d + d;
    QuotientIs(n, d, s);
  }

  /** Little-endian: byte i is the i-th least significant. */
  lemma {:induction false} LeByte(n: nat, k: nat, i: nat)
    requires i < k
    ensures ToLe(n, k)[i] == n / Pow256(i) % 256
  {
    if i > 0 {
      LeByte(n / 256, k - 1, i - 1);
      DivTwice(n, Pow256(i - 1));
    }
  }

  /** Big-endian: byte i is the i-th most significant. */
  lemma BeByte(n: nat, k: nat, i: nat)
    requires i < k
    ensures ToBe(n, k)[i] == n / Pow256(k - 1 - i) % 256
  {
    LeByte(n, k, k - 1 - i);
  }
}

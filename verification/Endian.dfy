/** Byte order.  The host keeps a word least significant byte first; the wire wants the most
    significant first.  Doubles are opaque 64-bit words. */
module Endian {

  type Byte = b: int | 0 <= b < 256

  function Pow256(n: nat): (p: nat)
    ensures p > 0
  {
    if n == 0 then 1 else 256 * Pow256(n - 1)
  }

  /** The memory image of an n-byte word on the host. */
  function HostBytes(n: nat, x: nat): (b: seq<Byte>)
    ensures |b| == n
  {
    if n == 0 then [] else [x % 256] + HostBytes(n - 1, x / 256)
  }

  function FromHost(b: seq<Byte>): nat {
    if b == [] then 0 else b[0] + 256 * FromHost(b[1..])
  }

  /** Network order: most significant byte first. */
  function NetBytes(n: nat, x: nat): (b: seq<Byte>)
    ensures |b| == n
  {
    if n == 0 then [] else NetBytes(n - 1, x / 256) + [x % 256]
  }

  function FromNet(b: seq<Byte>): nat {
    if b == [] then 0 else 256 * FromNet(b[..|b| - 1]) + b[|b| - 1]
  }

  function Reverse(b: seq<Byte>): (r: seq<Byte>)
    ensures |r| == |b|
  {
    if b == [] then [] else Reverse(b[1..]) + [b[0]]
  }

  /** htons, htobe32, htobe64 and their inverses on this host: swap the bytes of the word. */
  function Swap(n: nat, x: nat): nat {
    FromHost(Reverse(HostBytes(n, x)))
  }

  lemma {:induction false} HostOfHost(b: seq<Byte>)
    ensures HostBytes(|b|, FromHost(b)) == b
  {
    if b != [] {
      HostOfHost(b[1..]);
      assert FromHost(b) / 256 == FromHost(b[1..]) && FromHost(b) % 256 == b[0];
    }
  }

  lemma {:induction false} NetIsReversedHost(n: nat, x: nat)
    ensures Reverse(HostBytes(n, x)) == NetBytes(n, x)
  {
    if n > 0 {
      NetIsReversedHost(n - 1, x / 256);
      assert HostBytes(n, x)[1..] == HostBytes(n - 1, x / 256);
    }
  }

  lemma {:induction false} NetOfReverse(b: seq<Byte>)
    ensures FromNet(Reverse(b)) == FromHost(b)
  {
    if b != [] {
      NetOfReverse(b[1..]);
      assert Reverse(b)[..|b| - 1] == Reverse(b[1..]);
    }
  }

  lemma {:induction false} ReverseAppend(a: seq<Byte>, x: Byte)
    ensures Reverse(a + [x]) == [x] + Reverse(a)
  {
    if a != [] {
      ReverseAppend(a[1..], x);
      assert (a + [x])[1..] == a[1..] + [x];
    }
  }

  lemma {:induction false} ReverseTwice(b: seq<Byte>)
    ensures Reverse(Reverse(b)) == b
  {
    if b != [] {
      ReverseTwice(b[1..]);
      ReverseAppend(Reverse(b[1..]), b[0]);
      assert [b[0]] + b[1..] == b;
    }
  }

  /** What the host puts in memory for a swapped word is the word in network order. */
  lemma SwappedImageIsNet(n: nat, x: nat)
    ensures HostBytes(n, Swap(n, x)) == NetBytes(n, x)
  {
    NetIsReversedHost(n, x);
    HostOfHost(Reverse(HostBytes(n, x)));
  }

  /** Swapping the word read from memory gives the number the bytes spell in network order. */
  lemma SwapOfImage(b: seq<Byte>)
    ensures Swap(|b|, FromHost(b)) == FromNet(b)
  {
    HostOfHost(b);
    NetOfReverse(Reverse(b));
    ReverseTwice(b);
  }

  lemma {:induction false} NetRoundTrip(n: nat, x: nat)
    ensures FromNet(NetBytes(n, x)) == x % Pow256(n)
  {
    if n > 0 {
      NetRoundTrip(n - 1, x / 256);
      assert NetBytes(n, x)[..n - 1] == NetBytes(n - 1, x / 256);
      ModSplit(x, Pow256(n - 1));
    }
  }

  lemma ModSplit(x: nat, p: nat)
    requires p > 0
    ensures x % (256 * p) == 256 * ((x / 256) % p) + x % 256
  {
    var q, r := x / 256, x % 256;
    var a, b := q / p, q % p;
    assert x == 256 * (a * p + b) + r;
    assert x == a * (256 * p) + (256 * b + r);
    assert 256 * b + r < 256 * p;
    DivUnique(x, 256 * p, a, 256 * b + r);
  }

  lemma DivUnique(x: nat, d: nat, q: nat, r: nat)
    requires d > 0 && x == q * d + r && r < d
    ensures x % d == r && x / d == q
  {
    var a, b := x / d, x % d;
    assert a * d + b == x && (q - a) * d == b - r;
    if q > a {
      MulAtLeast(q - a, d);
    } else if a > q {
      MulAtLeast(a - q, d);
    }
  }

  lemma MulAtLeast(k: nat, d: nat)
    requires k >= 1
    ensures k * d >= d
  {
  }

  lemma DivTwice(x: nat, p: nat)
    requires p > 0
    ensures x / 256 / p == x / (256 * p)
  {
    var q, r := x / 256, x % 256;
    var a, b := q / p, q % p;
    assert x == a * (256 * p) + (256 * b + r);
    assert 256 * b + r < 256 * p;
    DivUnique(x, 256 * p, a, 256 * b + r);
  }

  /** Network order: byte k of an n-byte word is its k-th digit to the base 256, counted from the
      most significant. */
  lemma {:induction false} NetByteAt(n: nat, x: nat, k: nat)
    requires k < n
    ensures NetBytes(n, x)[k] == x / Pow256(n - 1 - k) % 256
  {
    if k < n - 1 {
      NetByteAt(n - 1, x / 256, k);
      DivTwice(x, Pow256(n - 2 - k));
    } else {
      assert x / 1 == x;
    }
  }

  /** The two conversions undo each other on every word that fits. */
  lemma SwapTwice(n: nat, x: nat)
    ensures Swap(n, Swap(n, x)) == x % Pow256(n)
  {
    SwappedImageIsNet(n, x);
    assert Swap(n, Swap(n, x)) == FromHost(Reverse(NetBytes(n, x)));
    NetOfReverse(Reverse(NetBytes(n, x)));
    ReverseTwice(NetBytes(n, x));
    NetRoundTrip(n, x);
  }
}

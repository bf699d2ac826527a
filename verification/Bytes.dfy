/** Bytes, 64-bit words and minimal big-endian integers, shared by the codecs. */
module Bytes {

  type byte = x: int | 0 <= x < 0x100

  const TWO64: nat := 0x1_0000_0000_0000_0000

  type uint64 = x: int | 0 <= x < TWO64

  /** The shortest big-endian form of `n`; zero takes one byte. */
  function BigEndian(n: nat): (r: seq<byte>)
    ensures |r| >= 1
  {
    if n < 0x100 then [n] else BigEndian(n / 0x100) + [n % 0x100]
  }

  /** The number written in `b`, most significant byte first. */
  function Value(b: seq<byte>): nat {
    if b == [] then 0 else 0x100 * Value(b[..|b| - 1]) + b[|b| - 1]
  }

  function Pow256(k: nat): (r: nat)
    ensures r >= 1
  {
    if k == 0 then 1 else 0x100 * Pow256(k - 1)
  }

  /** Reading back a minimal big-endian form gives the number, and the form has no leading zero. */
  lemma {:induction false} ValueOfBigEndian(n: nat)
    ensures Value(BigEndian(n)) == n
    ensures n > 0 ==> BigEndian(n)[0] != 0
  {
    if n >= 0x100 {
      ValueOfBigEndian(n / 0x100);
      assert BigEndian(n)[..|BigEndian(n)| - 1] == BigEndian(n / 0x100);
    }
  }

  /** A byte string is the minimal form of its own value exactly when it has no leading zero. */
  lemma {:induction false} BigEndianOfValue(b: seq<byte>)
    requires b != [] && (|b| == 1 || b[0] != 0)
    ensures BigEndian(Value(b)) == b
  {
    var front, last := b[..|b| - 1], b[|b| - 1];
    if |b| == 1 {
      assert front == [];
    } else {
      ValuePositive(front);
      BigEndianOfValue(front);
      assert b == front + [last];
    }
  }

  lemma {:induction false} ValuePositive(b: seq<byte>)
    requires b != [] && b[0] != 0
    ensures Value(b) > 0
  {
    if |b| > 1 {
      ValuePositive(b[..|b| - 1]);
    }
  }

  /** A string of k bytes holds a number below 256^k, and at least 256^(k-1) if its first byte is not zero. */
  lemma {:induction false} ValueBound(b: seq<byte>)
    ensures Value(b) < Pow256(|b|)
    ensures b != [] && b[0] != 0 ==> Value(b) >= Pow256(|b| - 1)
  {
    if b != [] {
      ValueBound(b[..|b| - 1]);
    }
  }

  lemma Pow256Mono(i: nat, j: nat)
    requires i <= j
    ensures Pow256(i) <= Pow256(j)
  {
    if i < j {
      Pow256Mono(i, j - 1);
    }
  }

  lemma Pow256Eight()
    ensures Pow256(8) == TWO64
  {
    assert Pow256(4) == 0x1_0000_0000;
    assert Pow256(5) == 0x100_0000_0000;
    assert Pow256(6) == 0x1_0000_0000_0000;
    assert Pow256(7) == 0x100_0000_0000_0000;
  }

  /** A number fits k bytes exactly when it is below 256^k. */
  lemma {:induction false} BigEndianLength(n: nat, k: nat)
    requires k >= 1
    ensures |BigEndian(n)| <= k <==> n < Pow256(k)
  {
    if n < 0x100 {
      Pow256Mono(1, k);
      assert Pow256(1) == 0x100;
    } else if k == 1 {
      assert Pow256(1) == 0x100;
    } else {
      BigEndianLength(n / 0x100, k - 1);
    }
  }

  lemma Uint64Length(n: nat)
    ensures |BigEndian(n)| <= 8 <==> n < TWO64
  {
    BigEndianLength(n, 8);
    Pow256Eight();
  }

  lemma ValueFits(b: seq<byte>)
    requires |b| <= 8
    ensures Value(b) < TWO64
  {
    ValueBound(b);
    Pow256Mono(|b|, 8);
    Pow256Eight();
  }

  lemma Assoc<T>(a: seq<T>, b: seq<T>, c: seq<T>)
    ensures (a + b) + c == a + (b + c)
  {
  }

  lemma Neutral<T>(a: seq<T>)
    ensures a + [] == a && [] + a == a
  {
  }

  lemma First<T>(x: T, s: seq<T>)
    ensures ([x] + s)[0] == x && ([x] + s)[1..] == s
  {
  }

  lemma Slices<T>(s: seq<T>, a: nat, b: nat, c: nat)
    requires a <= b <= c <= |s|
    ensures s[a..c] == s[a..b] + s[b..c]
  {
  }

  lemma SliceOfConcat<T>(s: seq<T>, at: nat, a: seq<T>, b: seq<T>)
    requires at + |a| + |b| <= |s|
    requires s[at..at + |a| + |b|] == a + b
    ensures s[at..at + |a|] == a
    ensures s[at + |a|..at + |a| + |b|] == b
  {
    var w := s[at..at + |a| + |b|];
    assert w[..|a|] == a && w[|a|..] == b;
    assert s[at..at + |a|] == w[..|a|];
    assert s[at + |a|..at + |a| + |b|] == w[|a|..];
  }
}

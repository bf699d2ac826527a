/** Sums and products modulo n. */
module Modular {

  lemma MultipleBound(d: int, n: int)
    requires n >= 0
    ensures d >= 1 ==> d * n >= n
    ensures d <= -1 ==> d * n <= -n
  {
    if d >= 1 {
      assert (d - 1) * n >= 0;
    } else if d <= -1 {
      assert (-1 - d) * n >= 0;
    }
  }

  lemma ModIs(a: int, n: nat, k: int, r: int)
    requires n > 0 && a == k * n + r && 0 <= r < n
    ensures a % n == r
  {
    var k', r' := a / n, a % n;
    assert (k' - k) * n == r - r';
    MultipleBound(k' - k, n);
  }

  /** Numbers that differ by a multiple of n have the same remainder. */
  lemma ModShift(a: int, n: nat, k: int)
    requires n > 0
    ensures (a + k * n) % n == a % n
  {
    assert a == (a / n) * n + a % n;
    assert a + k * n == (a / n + k) * n + a % n;
    ModIs(a + k * n, n, a / n + k, a % n);
  }

  lemma ModAddLeft(a: int, b: int, n: nat)
    requires n > 0
    ensures (a % n + b) % n == (a + b) % n
  {
    assert a + b == (a % n + b) + (a / n) * n;
    ModShift(a % n + b, n, a / n);
  }

  lemma ModAddRight(a: int, b: int, n: nat)
    requires n > 0
    ensures (a + b % n) % n == (a + b) % n
  {
    ModAddLeft(b, a, n);
  }

  lemma ModAddBoth(a: int, b: int, n: nat)
    requires n > 0
    ensures (a % n + b % n) % n == (a + b) % n
  {
    ModAddLeft(a, b % n, n);
    ModAddRight(a, b, n);
  }

  /** Subtracting and adding the same number, each reduced, changes nothing. */
  lemma ModCancel(a: int, b: int, n: nat)
    requires n > 0
    ensures ((a - b) % n + b % n) % n == a % n
  {
    var d := a - b;
    assert a == d + b;
    ModAddBoth(d, b, n);
  }

  lemma ModRestore(a: int, b: int, n: nat)
    requires n > 0
    ensures (b + (a - b) % n) % n == a % n
  {
    var d := a - b;
    assert a == b + d;
    ModAddRight(b, d, n);
  }

  /** The order in which numbers are added and reduced does not matter. */
  lemma ModSwap(a: int, b: int, c: int, n: nat)
    requires n > 0
    ensures ((a + b) % n + c) % n == ((a + c) % n + b) % n
  {
    var x, y := a + b, a + c;
    assert x + c == y + b;
    ModAddLeft(x, c, n);
    ModAddLeft(y, b, n);
  }

  lemma ModMul(a: int, b: int, n: nat)
    requires n > 0
    ensures (a % n) * b % n == a * b % n
    ensures a * (b % n) % n == a * b % n
  {
    var j, k := a / n, b / n;
    assert a == j * n + a % n && b == k * n + b % n;
    assert a * b == (a % n) * b + (j * b) * n;
    assert a * b == a * (b % n) + (a * k) * n;
    ModShift((a % n) * b, n, j * b);
    ModShift(a * (b % n), n, a * k);
  }
}

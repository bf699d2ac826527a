/** Base58 as crypto/crypto.go runs it: big numbers taken apart digit by digit, and a buffer reversed in place. */
module Base58Loop {
  import opened Bytes
  import opened Base58

  function Power(r: nat, n: nat): nat {
    if n == 0 then 1 else r * Power(r, n - 1)
  }

  lemma Regroup(a: nat, b: nat, c: nat, d: nat)
    ensures a * (b * c + d) == (a * b) * c + a * d
  {
  }

  lemma {:induction false} NumFront(r: nat, d: nat, t: seq<nat>)
    ensures Num(r, [d] + t) == Power(r, |t|) * d + Num(r, t)
    decreases |t|
  {
    var s := [d] + t;
    if |t| == 0 {
      assert s[..0] == [];
      assert r * Num(r, []) == 0;
    } else {
      var front := t[..|t| - 1];
      NumFront(r, d, front);
      assert s[..|s| - 1] == [d] + front;
      Regroup(r, Power(r, |front|), d, Num(r, front));
    }
  }

  method LeadingZeros(s: seq<nat>) returns (n: nat)
    ensures n == Leading(s)
  {
    n := 0;
    while n < |s| && s[n] == 0
      invariant n <= |s| && Leading(s) == n + Leading(s[n..])
    {
      assert s[n..][1..] == s[n + 1..];
      n := n + 1;
    }
  }

  lemma OneMoreDigit(ds: seq<nat>, i: nat, answer: nat, j: nat)
    requires 0 < i <= |ds| && j == Power(LETTERS, |ds| - i) && answer == Num(LETTERS, ds[i..])
    ensures answer + j * ds[i - 1] == Num(LETTERS, ds[i - 1..]) && LETTERS * j == Power(LETTERS, |ds| - (i - 1))
  {
    NumFront(LETTERS, ds[i - 1], ds[i..]);
    assert ds[i - 1..] == [ds[i - 1]] + ds[i..];
    assert |ds| - (i - 1) == |ds| - i + 1;
  }

  /** The number in a text, from its last character on; nothing if a character is not in the alphabet. */
  method ReadNumber(s: seq<byte>) returns (answer: nat, ok: bool)
    ensures ok <==> InAlphabet(s)
    ensures ok ==> answer == Num(LETTERS, DigitsIn(s))
  {
    ghost var ds := DigitsIn(s);
    var i: nat, j: nat := |s|, 1;
    answer := 0;
    while i > 0
      invariant i <= |s| && j == Power(LETTERS, |ds| - i) && answer == Num(LETTERS, ds[i..])
      invariant forall k | i <= k < |s| :: Digit(s[k]) != 255
    {
      var d := Digit(s[i - 1]);
      if d == 255 {
        return 0, false;
      }
      OneMoreDigit(ds, i, answer, j);
      answer, j := answer + j * d, LETTERS * j;
      i := i - 1;
    }
    assert ds[0..] == ds;
    ok := true;
  }

  method DecodeText(s: seq<byte>) returns (b: seq<byte>)
    ensures b == Decode(s)
  {
    var answer, ok := ReadNumber(s);
    if !ok {
      return [];
    }
    ConvertDigits(LETTERS, BYTES, DigitsIn(s));
    var numZeros := LeadingZeros(DigitsIn(s));
    return Narrow(Zeros(numZeros) + Digits(BYTES, answer));
  }

  function Reversed<T>(s: seq<T>): (r: seq<T>)
    ensures |r| == |s|
  {
    seq(|s|, i requires 0 <= i < |s| => s[|s| - 1 - i])
  }

  lemma ReversedSnoc<T>(s: seq<T>, x: T)
    ensures Reversed(s + [x]) == [x] + Reversed(s)
  {
  }

  /** Swaps the two ends inwards. */
  method ReverseBuffer(buf: array<byte>)
    modifies buf
    ensures buf[..] == Reversed(old(buf[..]))
  {
    var n, i := buf.Length, 0;
    while i < n / 2
      invariant 0 <= i <= n / 2
      invariant forall k | 0 <= k < n :: buf[k] == if i <= k < n - i then old(buf[k]) else old(buf[n - 1 - k])
    {
      buf[i], buf[n - 1 - i] := buf[n - 1 - i], buf[i];
      i := i + 1;
    }
  }

  /** The digits of a number, least significant first. */
  method TakeApart(v: nat) returns (ds: seq<nat>)
    ensures Reversed(ds) == Digits(LETTERS, v)
  {
    var x: nat := v;
    ds := [];
    while x > 0
      invariant Digits(LETTERS, x) + Reversed(ds) == Digits(LETTERS, v)
    {
      ReversedSnoc(ds, x % LETTERS);
      ghost var high, low := Digits(LETTERS, x / LETTERS), [x % LETTERS];
      assert (high + low) + Reversed(ds) == high + (low + Reversed(ds));
      ds := ds + [x % LETTERS];
      x := x / LETTERS;
    }
    assert [] + Reversed(ds) == Reversed(ds);
  }

  lemma {:induction false} ReversedZeros(ds: seq<nat>, n: nat)
    ensures Reversed(ds + Zeros(n)) == Zeros(n) + Reversed(ds)
  {
    if n == 0 {
      assert ds + Zeros(n) == ds;
    } else {
      ReversedZeros(ds, n - 1);
      assert ds + Zeros(n) == (ds + Zeros(n - 1)) + [0];
      ReversedSnoc(ds + Zeros(n - 1), 0);
      ZerosFront(n);
    }
  }

  lemma {:induction false} ZerosFront(n: nat)
    requires n > 0
    ensures Zeros(n) == [0] + Zeros(n - 1)
  {
    if n > 1 {
      ZerosFront(n - 1);
    }
  }

  method EncodeBytes(b: seq<byte>) returns (s: seq<byte>)
    ensures s == Encode(b)
  {
    ConvertDigits(BYTES, LETTERS, Widen(b));
    var ds := TakeApart(Num(BYTES, Widen(b)));
    var n := LeadingZeros(Widen(b));
    ReversedZeros(ds, n);
    ds := ds + Zeros(n);
    DigitsReversed(ds);
    var letters := Letters(ds);
    var buf := new byte[|letters|](i requires 0 <= i < |letters| => letters[i]);
    assert buf[..] == letters;
    ReverseBuffer(buf);
    LettersReversed(ds);
    s := buf[..];
  }

  lemma DigitsReversed(ds: seq<nat>)
    requires DigitsOf(LETTERS, Reversed(ds))
    ensures DigitsOf(LETTERS, ds)
  {
    forall i | 0 <= i < |ds| ensures ds[i] < LETTERS {
      assert Reversed(ds)[|ds| - 1 - i] == ds[i];
    }
  }

  lemma LettersReversed(ds: seq<nat>)
    requires DigitsOf(LETTERS, ds)
    ensures DigitsOf(LETTERS, Reversed(ds)) && Reversed(Letters(ds)) == Letters(Reversed(ds))
  {
  }
}

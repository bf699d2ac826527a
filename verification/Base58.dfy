/** The base58 text form of crypto/crypto.go: two number systems, with leading zeros kept on both sides. */
module Base58 {
  import opened Bytes

  const BYTES: nat := 256
  const LETTERS: nat := 58
  const FIRST: byte := 49

  predicate Radix(r: nat) {
    r == LETTERS || r == BYTES
  }

  predicate DigitsOf(r: nat, s: seq<nat>) {
    forall i | 0 <= i < |s| :: s[i] < r
  }

  /** The number a digit sequence stands for, most significant digit first. */
  function Num(r: nat, s: seq<nat>): nat {
    if |s| == 0 then 0 else r * Num(r, s[..|s| - 1]) + s[|s| - 1]
  }

  /** The digits of a number, none for zero. */
  function Digits(r: nat, n: nat): seq<nat>
    requires Radix(r)
  {
    if n == 0 then [] else Digits(r, n / r) + [n % r]
  }

  function Zeros(n: nat): (z: seq<nat>)
    ensures |z| == n
  {
    if n == 0 then [] else Zeros(n - 1) + [0]
  }

  function Leading(s: seq<nat>): (n: nat)
    ensures n <= |s|
  {
    if |s| == 0 || s[0] != 0 then 0 else 1 + Leading(s[1..])
  }

  /** Changes the number system and keeps the leading zeros. */
  function Convert(from: nat, to: nat, s: seq<nat>): seq<nat>
    requires Radix(to)
  {
    Zeros(Leading(s)) + Digits(to, Num(from, s))
  }

  lemma Split(r: nat, q: nat, d: nat)
    requires Radix(r) && d < r
    ensures (r * q + d) / r == q && (r * q + d) % r == d
  {
    if r == LETTERS {
      assert (58 * q + d) / 58 == q && (58 * q + d) % 58 == d;
    } else {
      assert (256 * q + d) / 256 == q && (256 * q + d) % 256 == d;
    }
  }

  lemma {:induction false} DigitsExact(r: nat, n: nat)
    requires Radix(r)
    ensures DigitsOf(r, Digits(r, n)) && Num(r, Digits(r, n)) == n
    ensures n > 0 ==> |Digits(r, n)| > 0 && Digits(r, n)[0] != 0
  {
    if n > 0 {
      var q, d := n / r, n % r;
      DigitsExact(r, q);
      Divided(r, n);
      OneDigit(r, Digits(r, q), q, d);
    }
  }

  lemma Divided(r: nat, n: nat)
    requires Radix(r)
    ensures n == r * (n / r) + n % r && n % r < r && (n > 0 ==> n / r < n)
  {
    if r == LETTERS {
      assert n == 58 * (n / 58) + n % 58;
    } else {
      assert n == 256 * (n / 256) + n % 256;
    }
  }

  /** One more digit behind those of `q`. */
  lemma OneDigit(r: nat, ds: seq<nat>, q: nat, d: nat)
    requires Radix(r) && d < r && DigitsOf(r, ds) && Num(r, ds) == q && (|ds| > 0 ==> ds[0] != 0)
    requires q == 0 ==> ds == [] && d > 0
    ensures DigitsOf(r, ds + [d]) && Num(r, ds + [d]) == r * q + d && (ds + [d])[0] != 0
  {
    assert (ds + [d])[..|ds|] == ds;
  }

  lemma {:induction false} LeadingZero(s: seq<nat>)
    requires |s| > 0
    ensures s[0] != 0 <==> Leading(s) == 0
    ensures Leading(s) < |s| ==> s[Leading(s)] != 0
    ensures forall i | 0 <= i < Leading(s) :: s[i] == 0
  {
    if s[0] == 0 && |s| > 1 {
      LeadingZero(s[1..]);
    }
  }

  lemma {:induction false} ZerosAre(n: nat, i: nat)
    requires i < n
    ensures Zeros(n)[i] == 0
  {
    if i < n - 1 {
      ZerosAre(n - 1, i);
    }
  }

  lemma {:induction false} NumZeros(r: nat, n: nat, s: seq<nat>)
    ensures Num(r, Zeros(n) + s) == Num(r, s)
    decreases |s|, n
  {
    var t := Zeros(n) + s;
    if |s| > 0 {
      NumZeros(r, n, s[..|s| - 1]);
      assert t[..|t| - 1] == Zeros(n) + s[..|s| - 1];
    } else if n > 0 {
      NumZeros(r, n - 1, []);
      assert t[..n - 1] == Zeros(n - 1) + [];
    }
  }

  lemma LeadingOf(n: nat, s: seq<nat>)
    requires |s| == 0 || s[0] != 0
    ensures Leading(Zeros(n) + s) == n
  {
    var t := Zeros(n) + s;
    if n > 0 {
      ZerosAre(n, 0);
    }
    if |t| > 0 {
      LeadingZero(t);
      assert |s| > 0 ==> t[n] == s[0];
      if Leading(t) < n {
        ZerosAre(n, Leading(t));
      }
    }
  }

  /** Without leading zeros, the digits of the number are the digits themselves. */
  lemma {:induction false} NumExact(r: nat, s: seq<nat>)
    requires Radix(r) && DigitsOf(r, s) && (|s| == 0 || s[0] != 0)
    ensures Digits(r, Num(r, s)) == s && (|s| > 0 ==> Num(r, s) > 0)
  {
    if |s| > 0 {
      var front, last := s[..|s| - 1], s[|s| - 1];
      NumExact(r, front);
      Split(r, Num(r, front), last);
      assert s == front + [last];
      NumPositive(r, s);
    }
  }

  lemma {:induction false} NumPositive(r: nat, s: seq<nat>)
    requires Radix(r) && |s| > 0 && s[0] != 0
    ensures Num(r, s) > 0
  {
    if |s| > 1 {
      NumPositive(r, s[..|s| - 1]);
    }
  }

  lemma SplitZeros(s: seq<nat>)
    ensures s == Zeros(Leading(s)) + s[Leading(s)..]
    ensures |s[Leading(s)..]| == 0 || s[Leading(s)..][0] != 0
  {
    var n := Leading(s);
    if |s| > 0 {
      LeadingZero(s);
    }
    forall i | 0 <= i < n ensures s[i] == Zeros(n)[i] {
      ZerosAre(n, i);
    }
  }

  /** Converting there and back gives the digits back. */
  lemma ConvertBack(from: nat, to: nat, s: seq<nat>)
    requires Radix(from) && Radix(to) && DigitsOf(from, s)
    ensures Convert(to, from, Convert(from, to, s)) == s
  {
    var n, v := Leading(s), Num(from, s);
    var core := s[n..];
    SplitZeros(s);
    NumZeros(from, n, core);
    NumExact(from, core);
    DigitsExact(to, v);
    LeadingOf(n, Digits(to, v));
    NumZeros(to, n, Digits(to, v));
  }

  // ------------------------------------------------------------------------------------- letters

  /** The alphabet: digits and letters without 0, I, O and l. */
  function Letter(d: nat): byte
    requires d < LETTERS
  {
    if d < 9 then FIRST + d
    else if d < 17 then 65 + (d - 9)
    else if d < 22 then 74 + (d - 17)
    else if d < 33 then 80 + (d - 22)
    else if d < 44 then 97 + (d - 33)
    else 109 + (d - 44)
  }

  /** The table of digits; 255 for what is not in the alphabet. */
  function Digit(c: byte): nat {
    if 49 <= c <= 57 then c - 49
    else if 65 <= c <= 72 then 9 + (c - 65)
    else if 74 <= c <= 78 then 17 + (c - 74)
    else if 80 <= c <= 90 then 22 + (c - 80)
    else if 97 <= c <= 107 then 33 + (c - 97)
    else if 109 <= c <= 122 then 44 + (c - 109)
    else 255
  }

  lemma LetterDigit(d: nat, c: byte)
    ensures d < LETTERS ==> Digit(Letter(d)) == d
    ensures Digit(c) != 255 ==> Digit(c) < LETTERS && Letter(Digit(c)) == c
    ensures Digit(c) == 0 <==> c == FIRST
  {
  }

  predicate InAlphabet(s: seq<byte>) {
    forall i | 0 <= i < |s| :: Digit(s[i]) != 255
  }

  function Letters(ds: seq<nat>): (s: seq<byte>)
    requires DigitsOf(LETTERS, ds)
    ensures |s| == |ds|
  {
    seq(|ds|, i requires 0 <= i < |ds| => Letter(ds[i]))
  }

  function DigitsIn(s: seq<byte>): (ds: seq<nat>)
    ensures |ds| == |s|
  {
    seq(|s|, i requires 0 <= i < |s| => Digit(s[i]))
  }

  function Widen(b: seq<byte>): (ds: seq<nat>)
    ensures |ds| == |b| && DigitsOf(BYTES, ds)
  {
    seq(|b|, i requires 0 <= i < |b| => b[i])
  }

  function Narrow(ds: seq<nat>): (b: seq<byte>)
    requires DigitsOf(BYTES, ds)
    ensures |b| == |ds|
  {
    seq(|ds|, i requires 0 <= i < |ds| => ds[i])
  }

  lemma ConvertDigits(from: nat, to: nat, s: seq<nat>)
    requires Radix(to)
    ensures DigitsOf(to, Convert(from, to, s))
  {
    var n, ds := Leading(s), Digits(to, Num(from, s));
    DigitsExact(to, Num(from, s));
    forall i | 0 <= i < n + |ds| ensures (Zeros(n) + ds)[i] < to {
      if i < n {
        ZerosAre(n, i);
      }
    }
  }

  function Encode(b: seq<byte>): seq<byte> {
    ConvertDigits(BYTES, LETTERS, Widen(b));
    Letters(Convert(BYTES, LETTERS, Widen(b)))
  }

  /** A text with a character outside the alphabet decodes to nothing. */
  function Decode(s: seq<byte>): seq<byte> {
    if !InAlphabet(s) then []
    else
      ConvertDigits(LETTERS, BYTES, DigitsIn(s));
      Narrow(Convert(LETTERS, BYTES, DigitsIn(s)))
  }

  lemma LettersBack(ds: seq<nat>)
    requires DigitsOf(LETTERS, ds)
    ensures InAlphabet(Letters(ds)) && DigitsIn(Letters(ds)) == ds
  {
    forall i | 0 <= i < |ds| ensures Digit(Letters(ds)[i]) == ds[i] {
      LetterDigit(ds[i], FIRST);
    }
  }

  lemma DigitsBack(s: seq<byte>)
    requires InAlphabet(s)
    ensures DigitsOf(LETTERS, DigitsIn(s)) && Letters(DigitsIn(s)) == s
  {
    forall i | 0 <= i < |s| ensures Digit(s[i]) < LETTERS && Letter(Digit(s[i])) == s[i] {
      LetterDigit(0, s[i]);
    }
  }

  /** Every byte string survives the way to text and back. */
  lemma EncodeDecode(b: seq<byte>)
    ensures Decode(Encode(b)) == b
  {
    var ds := Convert(BYTES, LETTERS, Widen(b));
    ConvertDigits(BYTES, LETTERS, Widen(b));
    LettersBack(ds);
    ConvertBack(BYTES, LETTERS, Widen(b));
    assert Narrow(Widen(b)) == b;
  }

  /** A text survives the way to bytes and back exactly if all its characters are in the alphabet. */
  lemma DecodeEncode(s: seq<byte>)
    ensures Encode(Decode(s)) == s <==> InAlphabet(s)
  {
    if InAlphabet(s) {
      var ds := DigitsIn(s);
      DigitsBack(s);
      ConvertDigits(LETTERS, BYTES, ds);
      assert Widen(Narrow(Convert(LETTERS, BYTES, ds))) == Convert(LETTERS, BYTES, ds);
      ConvertBack(LETTERS, BYTES, ds);
    } else {
      assert Encode([]) == [];
    }
  }
}

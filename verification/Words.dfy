/** Unsigned 64-bit arithmetic, which wraps around. */
module Words {
  import opened Bytes

  function Mod64(a: nat): uint64 {
    if a < TWO64 then a else Mod64(a - TWO64)
  }

  function Add64(a: nat, b: nat): uint64 {
    Mod64(a + b)
  }

  function Sub64(a: uint64, b: uint64): uint64 {
    if a >= b then a - b else a - b + TWO64
  }

  lemma ModIs(a: nat)
    ensures a < TWO64 ==> Mod64(a) == a
    ensures TWO64 <= a < 2 * TWO64 ==> Mod64(a) == a - TWO64
  {
  }

  lemma {:induction false} ModAdd(a: nat, b: nat)
    ensures Add64(Mod64(a), b) == Mod64(a + b)
  {
    if a >= TWO64 {
      ModAdd(a - TWO64, b);
    }
  }

  lemma NoWrap(a: nat, b: nat)
    requires a + b < TWO64
    ensures Add64(a, b) == a + b
  {
  }

  lemma GiveBack(a: uint64, b: uint64)
    ensures Sub64(Add64(a, b), b) == a
  {
    ModIs(a + b);
  }
}

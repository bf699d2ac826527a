/**
  * Ring signatures and one-time addresses over a group in which every element's order divides n: what signing
  * produces, verification accepts.
  */
module RingSign {
  import opened Bytes
  import opened Common
  import opened Modular

  /** The curve: a generator, addition, and multiplication of points by non-negative integers. */
  datatype Curve<!P> = Curve(n: nat, g: P, add: (P, P) -> P, mul: (nat, P) -> P)

  /** The serialisation of points and the hash function, read as an integer. */
  datatype Hash<!P> = Hash(bytes: P -> seq<byte>, digest: seq<byte> -> nat)

  /** Instances of the laws of scalar multiplication. */
  datatype Law<P> = Distribute(a: nat, b: nat, p: P) | Compose(a: nat, b: nat, p: P) | Reduce(a: nat, p: P)

  ghost predicate Holds<P>(c: Curve<P>, law: Law<P>)
    requires c.n > 0
  {
    match law
    case Distribute(a, b, p) => c.add(c.mul(a, p), c.mul(b, p)) == c.mul((a + b) % c.n, p)
    case Compose(a, b, p) => c.mul(a, c.mul(b, p)) == c.mul(a * b % c.n, p)
    case Reduce(a, p) => c.mul(a % c.n, p) == c.mul(a, p)
  }

  /** Scalar multiplication is an action of the integers modulo n. */
  ghost predicate Laws<P(!new)>(c: Curve<P>) {
    c.n > 0 && forall law: Law<P> :: Holds(c, law)
  }

  lemma IntegersDistribute(a: nat, b: nat, p: int, n: nat)
    requires n > 0
    ensures (a * p % n + b * p % n) % n == (a + b) % n * p % n
  {
    ModAddBoth(a * p, b * p, n);
    ModMul(a + b, p, n);
    assert (a + b) * p == a * p + b * p;
  }

  lemma IntegersCompose(a: nat, b: nat, p: int, n: nat)
    requires n > 0
    ensures a * (b * p % n) % n == a * b % n * p % n
  {
    ModMul(a, b * p, n);
    ModMul(a * b, p, n);
    assert a * (b * p) == (a * b) * p;
  }

  /** The integers modulo n are such a group. */
  lemma IntegersModN(n: nat, c: Curve<int>)
    requires n > 0
    requires c == Curve(n, 1, (p, q) => (p + q) % n, (a, p) => a * p % n)
    ensures Laws(c)
  {
    forall law: Law<int> ensures Holds(c, law) {
      match law
      case Distribute(a, b, p) => IntegersDistribute(a, b, p, n);
      case Compose(a, b, p) => IntegersCompose(a, b, p, n);
      case Reduce(a, p) => ModMul(a, p, n);
    }
  }

  /** A point derived from a public key, and the key image that links signatures of the same key. */
  function HashPoint<P>(c: Curve<P>, h: Hash<P>, p: P): P {
    c.mul(h.digest(h.bytes(p)), p)
  }

  function ScalarHashPoint<P>(c: Curve<P>, h: Hash<P>, x: nat, p: P): P {
    c.mul(x, HashPoint(c, h, p))
  }

  /** The points hashed in a signature: at the signer's place only the nonce enters. */
  function LeftSigned<P>(c: Curve<P>, key: P, q: nat, w: nat, signer: bool): P {
    if signer then c.mul(q, c.g) else c.add(c.mul(q, c.g), c.mul(w, key))
  }

  function RightSigned<P>(c: Curve<P>, h: Hash<P>, key: P, image: P, q: nat, w: nat, signer: bool): P {
    if signer then ScalarHashPoint(c, h, q, key) else c.add(ScalarHashPoint(c, h, q, key), c.mul(w, image))
  }

  /** Bytes of the left points of the first `k` places, for the signer at place `s` (none if `s` is out of range). */
  function LeftBytes<P>(c: Curve<P>, h: Hash<P>, keys: seq<P>, q: seq<nat>, w: seq<nat>, s: int, k: nat): seq<byte>
    requires k <= |keys| == |q| == |w|
  {
    if k == 0 then []
    else LeftBytes(c, h, keys, q, w, s, k - 1) + h.bytes(LeftSigned(c, keys[k - 1], q[k - 1], w[k - 1], k - 1 == s))
  }

  function RightBytes<P>(c: Curve<P>, h: Hash<P>, keys: seq<P>, image: P, q: seq<nat>, w: seq<nat>, s: int,
                         k: nat): seq<byte>
    requires k <= |keys| == |q| == |w|
  {
    if k == 0 then []
    else
      RightBytes(c, h, keys, image, q, w, s, k - 1)
      + h.bytes(RightSigned(c, h, keys[k - 1], image, q[k - 1], w[k - 1], k - 1 == s))
  }

  function AddMod(a: nat, b: nat, n: nat): (r: nat)
    requires n > 0
    ensures r < n
  {
    (a + b) % n
  }

  /** Sum of the challenges of the first `k` places other than `s`, reduced at every addition. */
  function ChallengeSum(n: nat, w: seq<nat>, s: int, k: nat): (r: nat)
    requires n > 0 && k <= |w|
    ensures r < n
  {
    if k == 0 then 0
    else if k - 1 == s then ChallengeSum(n, w, s, k - 1)
    else AddMod(ChallengeSum(n, w, s, k - 1), w[k - 1], n)
  }

  /** Verification hashes the same points as signing, with no place treated as the signer's. */
  const NOBODY: int := -1

  datatype Signature<P> = Signature(keys: seq<P>, image: P, c: seq<nat>, r: seq<nat>)

  function Swapped<T>(keys: seq<T>, s: nat): (r: seq<T>)
    requires s < |keys|
    ensures |r| == |keys|
  {
    keys[0 := keys[s]][s := keys[0]]
  }

  function SignHash<P>(c: Curve<P>, h: Hash<P>, msg: seq<byte>, keys: seq<P>, image: P, q: seq<nat>, w: seq<nat>,
                       s: int): nat
    requires |keys| == |q| == |w|
  {
    h.digest(msg + LeftBytes(c, h, keys, q, w, s, |keys|) + RightBytes(c, h, keys, image, q, w, s, |keys|))
  }

  /** The signer's own challenge makes all challenges add up to the hash, and its response hides the key. */
  function SignerChallenge(n: nat, hash: nat, sum: nat): (r: nat)
    requires n > 0
  {
    (hash - sum) % n
  }

  function SignerResponse(n: nat, q: nat, challenge: nat, x: nat): (r: nat)
    requires n > 0
  {
    (q - challenge * x) % n
  }

  /** The signature by the key at index zero, moved to place `s`, with nonces `q` and challenges `w`. */
  function Sign<P>(c: Curve<P>, h: Hash<P>, msg: seq<byte>, x: nat, keys: seq<P>, s: nat, q: seq<nat>,
                   w: seq<nat>): Signature<P>
    requires c.n > 0 && s < |keys| == |q| == |w|
  {
    var image := ScalarHashPoint(c, h, x, keys[0]);
    var ring := Swapped(keys, s);
    var hash := SignHash(c, h, msg, ring, image, q, w, s);
    var cs := SignerChallenge(c.n, hash, ChallengeSum(c.n, w, s, |w|));
    Signature(ring, image, w[s := cs], q[s := SignerResponse(c.n, q[s], cs, x)])
  }

  predicate Verifies<P>(c: Curve<P>, h: Hash<P>, msg: seq<byte>, sig: Signature<P>)
    requires c.n > 0
  {
    && |sig.keys| > 0 && |sig.keys| == |sig.c| == |sig.r|
    && SignHash(c, h, msg, sig.keys, sig.image, sig.r, sig.c, NOBODY) % c.n == ChallengeSum(c.n, sig.c, NOBODY, |sig.c|)
  }

  // ---------------------------------------------------------------------------- completeness

  /** Multiplying a point by the response and adding the challenge times its x-fold gives the nonce back. */
  lemma SignerPoint<P(!new)>(c: Curve<P>, p: P, x: nat, q: nat, cs: nat)
    requires Laws(c)
    ensures c.add(c.mul(SignerResponse(c.n, q, cs, x), p), c.mul(cs, c.mul(x, p))) == c.mul(q, p)
  {
    var y := cs * x;
    ModCancel(q, y, c.n);
    assert Holds(c, Compose(cs, x, p));
    assert Holds(c, Distribute((q - y) % c.n, y % c.n, p));
    assert Holds(c, Reduce(q, p));
  }

  /** Both loops over the ring hash the same left points at every place. */
  lemma {:induction false} LeftAgrees<P(!new)>(c: Curve<P>, h: Hash<P>, ring: seq<P>, x: nat, q: seq<nat>, w: seq<nat>,
                                               s: nat, cs: nat, k: nat)
    requires Laws(c) && s < |ring| == |q| == |w| && k <= |ring| && ring[s] == c.mul(x, c.g)
    ensures LeftBytes(c, h, ring, q[s := SignerResponse(c.n, q[s], cs, x)], w[s := cs], NOBODY, k)
         == LeftBytes(c, h, ring, q, w, s, k)
    decreases k
  {
    if k > 0 {
      LeftAgrees(c, h, ring, x, q, w, s, cs, k - 1);
      if k - 1 == s {
        SignerPoint(c, c.g, x, q[s], cs);
      }
    }
  }

  lemma {:induction false} RightAgrees<P(!new)>(c: Curve<P>, h: Hash<P>, ring: seq<P>, image: P, x: nat, q: seq<nat>,
                                                w: seq<nat>, s: nat, cs: nat, k: nat)
    requires Laws(c) && s < |ring| == |q| == |w| && k <= |ring| && image == ScalarHashPoint(c, h, x, ring[s])
    ensures RightBytes(c, h, ring, image, q[s := SignerResponse(c.n, q[s], cs, x)], w[s := cs], NOBODY, k)
         == RightBytes(c, h, ring, image, q, w, s, k)
    decreases k
  {
    if k > 0 {
      RightAgrees(c, h, ring, image, x, q, w, s, cs, k - 1);
      if k - 1 == s {
        SignerPoint(c, HashPoint(c, h, ring[s]), x, q[s], cs);
      }
    }
  }

  lemma AddModSwap(a: nat, b: nat, c: nat, n: nat)
    requires n > 0
    ensures AddMod(AddMod(a, b, n), c, n) == AddMod(AddMod(a, c, n), b, n)
  {
    ModSwap(a, b, c, n);
  }

  lemma {:induction false} SumBefore(n: nat, w: seq<nat>, s: nat, cs: nat, k: nat)
    requires n > 0 && k <= s < |w|
    ensures ChallengeSum(n, w[s := cs], NOBODY, k) == ChallengeSum(n, w, s, k)
    decreases k
  {
    if k > 0 {
      SumBefore(n, w, s, cs, k - 1);
    }
  }

  /** Putting the signer's challenge in its place adds it to the sum. */
  lemma {:induction false} SumAgrees(n: nat, w: seq<nat>, s: nat, cs: nat, k: nat)
    requires n > 0 && s < k <= |w|
    ensures ChallengeSum(n, w[s := cs], NOBODY, k) == AddMod(ChallengeSum(n, w, s, k), cs, n)
    decreases k
  {
    if k == s + 1 {
      SumBefore(n, w, s, cs, s);
    } else {
      SumAgrees(n, w, s, cs, k - 1);
      AddModSwap(ChallengeSum(n, w, s, k - 1), cs, w[k - 1], n);
    }
  }

  /** What verification hashes is what the signer hashed. */
  lemma SameHash<P(!new)>(c: Curve<P>, h: Hash<P>, msg: seq<byte>, x: nat, ring: seq<P>, image: P, s: nat, q: seq<nat>,
                          w: seq<nat>, cs: nat)
    requires Laws(c) && s < |ring| == |q| == |w|
    requires ring[s] == c.mul(x, c.g) && image == ScalarHashPoint(c, h, x, ring[s])
    ensures SignHash(c, h, msg, ring, image, q[s := SignerResponse(c.n, q[s], cs, x)], w[s := cs], NOBODY)
         == SignHash(c, h, msg, ring, image, q, w, s)
  {
    LeftAgrees(c, h, ring, x, q, w, s, cs, |ring|);
    RightAgrees(c, h, ring, image, x, q, w, s, cs, |ring|);
  }

  lemma ChallengeRestores(n: nat, hash: nat, sum: nat, cs: nat)
    requires n > 0 && cs == SignerChallenge(n, hash, sum)
    ensures AddMod(sum, cs, n) == hash % n
  {
    ModRestore(hash, sum, n);
  }

  /**
    * Completeness: every signature made with the private key of the key at index zero verifies, for every ring,
    * place, nonces, challenges, message and hash function.
    */
  lemma SignatureVerifies<P(!new)>(c: Curve<P>, h: Hash<P>, msg: seq<byte>, x: nat, keys: seq<P>, s: nat, q: seq<nat>,
                                   w: seq<nat>)
    requires Laws(c) && s < |keys| == |q| == |w| && keys[0] == c.mul(x, c.g)
    ensures Verifies(c, h, msg, Sign(c, h, msg, x, keys, s, q, w))
  {
    var image, ring := ScalarHashPoint(c, h, x, keys[0]), Swapped(keys, s);
    var hash := SignHash(c, h, msg, ring, image, q, w, s);
    var sum := ChallengeSum(c.n, w, s, |w|);
    var cs := SignerChallenge(c.n, hash, sum);
    assert ring[s] == keys[0];
    SameHash(c, h, msg, x, ring, image, s, q, w, cs);
    SumAgrees(c.n, w, s, cs, |w|);
    ChallengeRestores(c.n, hash, sum, cs);
  }

  // ------------------------------------------------------------------------------- the loops

  /** The first loop of signing and of verification: absorbs the left points and adds up the challenges. */
  method AbsorbLeft<P>(c: Curve<P>, h: Hash<P>, keys: seq<P>, q: seq<nat>, w: seq<nat>, s: int)
    returns (sum: nat, absorbed: seq<byte>)
    requires c.n > 0 && |keys| == |q| == |w|
    ensures sum == ChallengeSum(c.n, w, s, |w|)
    ensures absorbed == LeftBytes(c, h, keys, q, w, s, |keys|)
  {
    sum, absorbed := 0, [];
    for i := 0 to |keys|
      invariant sum == ChallengeSum(c.n, w, s, i)
      invariant absorbed == LeftBytes(c, h, keys, q, w, s, i)
    {
      var left := c.mul(q[i], c.g);
      if i != s {
        left := c.add(left, c.mul(w[i], keys[i]));
        sum := AddMod(sum, w[i], c.n);
      }
      absorbed := absorbed + h.bytes(left);
    }
  }

  /** The second loop: absorbs the right points. */
  method AbsorbRight<P>(c: Curve<P>, h: Hash<P>, keys: seq<P>, image: P, q: seq<nat>, w: seq<nat>, s: int)
    returns (absorbed: seq<byte>)
    requires |keys| == |q| == |w|
    ensures absorbed == RightBytes(c, h, keys, image, q, w, s, |keys|)
  {
    absorbed := [];
    for i := 0 to |keys|
      invariant absorbed == RightBytes(c, h, keys, image, q, w, s, i)
    {
      var right := ScalarHashPoint(c, h, q[i], keys[i]);
      if i != s {
        right := c.add(right, c.mul(w[i], image));
      }
      absorbed := absorbed + h.bytes(right);
    }
  }

  method SwapFirst<P>(keys: array<P>, s: nat)
    requires s < keys.Length
    modifies keys
    ensures keys[..] == Swapped(old(keys[..]), s)
  {
    if s > 0 {
      keys[0], keys[s] := keys[s], keys[0];
    }
  }

  /**
    * Signs with the private key of `keys[0]`, which is first swapped in place to `s`. Place, nonces and challenges
    * are drawn at random by the program; here they are arguments. If the key belongs to `x`, the result verifies.
    */
  method RingSign<P(!new)>(c: Curve<P>, h: Hash<P>, msg: seq<byte>, x: nat, keys: array<P>, s: nat,
                           nonces: seq<nat>, challenges: seq<nat>) returns (sig: Option<Signature<P>>)
    requires c.n > 0 && |nonces| == |challenges| == keys.Length && (keys.Length > 0 ==> s < keys.Length)
    modifies keys
    ensures keys.Length == 0 <==> sig.None?
    ensures sig.Some? ==>
              && sig.value == Sign(c, h, msg, x, old(keys[..]), s, nonces, challenges)
              && keys[..] == sig.value.keys
              && (Laws(c) && old(keys[0]) == c.mul(x, c.g) ==> Verifies(c, h, msg, sig.value))
  {
    if keys.Length == 0 {
      return None;
    }
    var image := ScalarHashPoint(c, h, x, keys[0]);
    SwapFirst(keys, s);
    var sum, left := AbsorbLeft(c, h, keys[..], nonces, challenges, s);
    var right := AbsorbRight(c, h, keys[..], image, nonces, challenges, s);
    var cs := SignerChallenge(c.n, h.digest(msg + left + right), sum);
    sig := Some(Signature(keys[..], image, challenges[s := cs], nonces[s := SignerResponse(c.n, nonces[s], cs, x)]));
    if Laws(c) && old(keys[0]) == c.mul(x, c.g) {
      SignatureVerifies(c, h, msg, x, old(keys[..]), s, nonces, challenges);
    }
  }

  method VerifyRingSign<P>(c: Curve<P>, h: Hash<P>, msg: seq<byte>, sig: Signature<P>) returns (ok: bool)
    requires c.n > 0
    ensures ok <==> Verifies(c, h, msg, sig)
  {
    if |sig.keys| == 0 || |sig.keys| != |sig.c| || |sig.keys| != |sig.r| {
      return false;
    }
    var sum, left := AbsorbLeft(c, h, sig.keys, sig.r, sig.c, NOBODY);
    var right := AbsorbRight(c, h, sig.keys, sig.image, sig.r, sig.c, NOBODY);
    ok := h.digest(msg + left + right) % c.n == sum;
  }

  // ---------------------------------------------------------------------- one-time addresses

  /** The one-time key for a receiver with keys A and B: A plus a multiple of the generator only they can find. */
  function GenerateA1<P>(c: Curve<P>, h: Hash<P>, r: nat, a: P, b: P): P {
    c.add(c.mul(h.digest(h.bytes(c.mul(r, b))), c.g), a)
  }

  predicate CompareA1<P(==)>(c: Curve<P>, h: Hash<P>, b: nat, a: P, s1: P, a1: P) {
    a1 == GenerateA1(c, h, b, a, s1)
  }

  function OneTimePrivateKey<P>(c: Curve<P>, h: Hash<P>, a: nat, b: nat, r: P): nat
    requires c.n > 0
  {
    (h.digest(h.bytes(c.mul(b, r))) + a) % c.n
  }

  /** Sender and receiver reach the same point from opposite sides. */
  lemma SharedPoint<P(!new)>(c: Curve<P>, b: nat, r: nat)
    requires Laws(c)
    ensures c.mul(r, c.mul(b, c.g)) == c.mul(b, c.mul(r, c.g))
  {
    assert Holds(c, Compose(r, b, c.g));
    assert Holds(c, Compose(b, r, c.g));
    assert r * b == b * r;
  }

  /** The receiver recognises a one-time key made for them, and can compute its private key. */
  lemma OneTimeKeyAgreement<P(!new)>(c: Curve<P>, h: Hash<P>, a: nat, b: nat, r: nat)
    requires Laws(c)
    ensures var (A, B, R) := (c.mul(a, c.g), c.mul(b, c.g), c.mul(r, c.g));
            var a1 := GenerateA1(c, h, r, A, B);
            CompareA1(c, h, b, A, R, a1) && c.mul(OneTimePrivateKey(c, h, a, b, R), c.g) == a1
  {
    SharedPoint(c, b, r);
    var k := h.digest(h.bytes(c.mul(r, c.mul(b, c.g))));
    assert Holds(c, Distribute(k, a, c.g));
  }

  /** A one-time key can sign in any ring: its owner's signature verifies. */
  lemma OneTimeKeySigns<P(!new)>(c: Curve<P>, h: Hash<P>, msg: seq<byte>, a: nat, b: nat, r: nat, keys: seq<P>, s: nat,
                                 q: seq<nat>, w: seq<nat>)
    requires Laws(c) && s < |keys| == |q| == |w|
    requires keys[0] == GenerateA1(c, h, r, c.mul(a, c.g), c.mul(b, c.g))
    ensures Verifies(c, h, msg, Sign(c, h, msg, OneTimePrivateKey(c, h, a, b, c.mul(r, c.g)), keys, s, q, w))
  {
    OneTimeKeyAgreement(c, h, a, b, r);
    SignatureVerifies(c, h, msg, OneTimePrivateKey(c, h, a, b, c.mul(r, c.g)), keys, s, q, w);
  }
}

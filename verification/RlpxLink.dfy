/** Two peers after the RLPx handshake (p2p/rlpx.go): from the agreed secrets on, every message arrives. */
module RlpxLink {
  import opened Bytes
  import opened ByteXor
  import opened Common
  import opened Rlpx
  import L = Lockstep

  /** The frame writer and reader as one codec. Messages are given with their true size. */
  function Sending(p: Prims, k: Keys, snappy: bool, d: Dir, m: Msg): (Dir, Option<seq<byte>>) {
    if !Sound(m) then (d, None)
    else
      var (d', r) := WriteMsg(p, k, snappy, d, m);
      (d', if r.Ok? then Some(r.value) else None)
  }

  function Receiving(p: Prims, k: Keys, snappy: bool, d: Dir, input: seq<byte>): (Dir, seq<byte>, Option<Msg>) {
    var (d', rest, r) := ReadMsg(p, k, snappy, d, input);
    (d', rest, if r.Ok? then Some(r.value) else None)
  }

  function FrameCodec(p: Prims, k: Keys, snappy: bool): L.Codec<Dir, Msg> {
    L.Codec(
      (d: Dir, m: Msg) => Sending(p, k, snappy, d, m),
      (d: Dir, input: seq<byte>) => Receiving(p, k, snappy, d, input))
  }

  lemma SendingReadBack(p: Prims, k: Keys, snappy: bool, d: Dir, m: Msg, rest: seq<byte>)
    requires Snappy(p)
    ensures var (d', w) := Sending(p, k, snappy, d, m);
            w.Some? ==> Receiving(p, k, snappy, d, w.value + rest) == (d', rest, Some(m))
  {
    if Sound(m) && WriteMsg(p, k, snappy, d, m).1.Ok? {
      MessageReadBack(p, k, snappy, d, m, rest);
    }
  }

  lemma FrameCodecLaw(p: Prims, k: Keys, snappy: bool)
    requires Snappy(p)
    ensures L.Law(FrameCodec(p, k, snappy))
  {
    forall d, m, rest ensures L.ReadsBack(FrameCodec(p, k, snappy), d, m, rest) {
      SendingReadBack(p, k, snappy, d, m, rest);
    }
  }

  // ----------------------------------------------------------------------------------- secrets

  /** What a peer holds when the handshake packets have been exchanged. */
  datatype Handshake = Handshake(
    initiator: bool, randomPrivKey: seq<byte>, remoteRandomPub: seq<byte>, initNonce: seq<byte>, respNonce: seq<byte>)

  /** Key agreement: the shared secret from one's own private and the other's public key. */
  datatype Agreement = Agreement(pub: seq<byte> -> seq<byte>, shared: (seq<byte>, seq<byte>) -> seq<byte>)

  ghost predicate Agrees(a: Agreement) {
    forall x, y :: a.shared(x, a.pub(y)) == a.shared(y, a.pub(x))
  }

  function XorAll(one: seq<byte>, other: seq<byte>): seq<byte> {
    seq(|one|, i requires 0 <= i < |one| => if i < |other| then Xor(one[i], other[i]) else one[i])
  }

  datatype Secrets = Secrets(keys: Keys, egress: Dir, ingress: Dir)

  /** The initiator sends with the first hash and receives with the second; the other peer swaps them. */
  function SecretsOf(p: Prims, a: Agreement, h: Handshake, auth: seq<byte>, authResp: seq<byte>): Secrets {
    var ecdhe := a.shared(h.randomPrivKey, h.remoteRandomPub);
    var sharedSecret := p.hash(ecdhe + p.hash(h.respNonce + h.initNonce));
    var aes := p.hash(ecdhe + sharedSecret);
    var mac := p.hash(ecdhe + aes);
    var mac1 := XorAll(mac, h.respNonce) + auth;
    var mac2 := XorAll(mac, h.initNonce) + authResp;
    if h.initiator then Secrets(Keys(aes, mac), Dir(0, mac1), Dir(0, mac2))
    else Secrets(Keys(aes, mac), Dir(0, mac2), Dir(0, mac1))
  }

  /** Both peers derive the same keys, and each one's outgoing state is the other's incoming state. */
  lemma SecretsAgree(p: Prims, a: Agreement, x: seq<byte>, y: seq<byte>, initNonce: seq<byte>, respNonce: seq<byte>,
                     auth: seq<byte>, authResp: seq<byte>)
    requires Agrees(a)
    ensures var s := SecretsOf(p, a, Handshake(true, x, a.pub(y), initNonce, respNonce), auth, authResp);
            var t := SecretsOf(p, a, Handshake(false, y, a.pub(x), initNonce, respNonce), auth, authResp);
            s.keys == t.keys && s.egress == t.ingress && s.ingress == t.egress
  {
    assert a.shared(x, a.pub(y)) == a.shared(y, a.pub(x));
  }

  /** The connection as the two peers set it up: writers start from egress, readers from ingress states. */
  function Connect(s: Secrets, t: Secrets): L.Link<Dir, Msg> {
    L.Link(L.Channel(s.egress, t.ingress, [], [s.egress], [], [], false),
           L.Channel(t.egress, s.ingress, [], [t.egress], [], [], false))
  }

  /**
    * After a handshake, for every interleaving of messages written and read at both ends: each peer reads the other's
    * messages in order and unharmed, no check of a message authentication code fails, and after each frame read the
    * cipher position and hash state are those the writer had after writing it.
    */
  lemma RlpxLockstep(p: Prims, a: Agreement, x: seq<byte>, y: seq<byte>, initNonce: seq<byte>, respNonce: seq<byte>,
                     auth: seq<byte>, authResp: seq<byte>, snappy: bool, es: seq<L.Event<Msg>>)
    requires Snappy(p) && Agrees(a)
    requires var s := SecretsOf(p, a, Handshake(true, x, a.pub(y), initNonce, respNonce), auth, authResp);
             var t := SecretsOf(p, a, Handshake(false, y, a.pub(x), initNonce, respNonce), auth, authResp);
             L.IsRun(FrameCodec(p, s.keys, snappy), Connect(s, t), es)
    ensures var s := SecretsOf(p, a, Handshake(true, x, a.pub(y), initNonce, respNonce), auth, authResp);
            var t := SecretsOf(p, a, Handshake(false, y, a.pub(x), initNonce, respNonce), auth, authResp);
            var l := L.Run(FrameCodec(p, s.keys, snappy), Connect(s, t), es);
            s.keys == t.keys && L.Faithful(l.ab) && L.Faithful(l.ba)
  {
    SecretsAgree(p, a, x, y, initNonce, respNonce, auth, authResp);
    var s := SecretsOf(p, a, Handshake(true, x, a.pub(y), initNonce, respNonce), auth, authResp);
    FrameCodecLaw(p, s.keys, snappy);
    L.LinkIsFaithful(FrameCodec(p, s.keys, snappy), s.egress, s.ingress, es);
  }
}

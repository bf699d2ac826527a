/** The frame reader and writer as p2p/rlpx.go runs it: buffers encrypted in place, hashes and ciphers that advance. */
module RlpxFrameRW {
  import opened Bytes
  import opened ByteXor
  import opened Common
  import opened Rlpx

  /** Copies bytes into a buffer. */
  method Copy(buf: array<byte>, at: nat, data: seq<byte>)
    requires at + |data| <= buf.Length
    modifies buf
    ensures forall i | 0 <= i < buf.Length :: buf[i] == if at <= i < at + |data| then data[i - at] else old(buf[i])
  {
    forall i | 0 <= i < |data| {
      buf[at + i] := data[i];
    }
  }

  /** Encrypts or decrypts the first `n` bytes of a buffer in place. */
  method XorKeyStream(p: Prims, k: Keys, pos: nat, buf: array<byte>, n: nat)
    requires n <= buf.Length
    modifies buf
    ensures buf[..n] == Xored(p, k, pos, old(buf[..n])) && buf[n..] == old(buf[n..])
  {
    var i: nat := 0;
    while i < n
      invariant i <= n && buf[i..] == old(buf[i..])
      invariant forall j | 0 <= j < i :: buf[j] == Xor(old(buf[j]), p.stream(k.aes, pos + j))
    {
      buf[i] := Xor(buf[i], p.stream(k.aes, pos + i));
      i := i + 1;
    }
  }

  /** Reseeds a hash and returns its new state with the tag. */
  method Reseed(p: Prims, k: Keys, mac: seq<byte>, seed: seq<byte>) returns (mac': seq<byte>, tag: seq<byte>)
    ensures mac' == UpdateMac(p, k, mac, seed) && tag == Tag(p, mac')
  {
    var block, mask := Take16(p.block(k.mac, Take16(p.hash(mac)))), Take16(seed);
    var aesbuf := new byte[16](i requires 0 <= i < 16 => block[i]);
    var i: nat := 0;
    while i < 16
      invariant i <= 16
      invariant forall j | 0 <= j < 16 :: aesbuf[j] == if j < i then Xor(block[j], mask[j]) else block[j]
    {
      aesbuf[i] := Xor(aesbuf[i], mask[i]);
      i := i + 1;
    }
    assert aesbuf[..] == XorSeed(block, mask);
    mac' := mac + aesbuf[..];
    tag := Take16(p.hash(mac'));
  }

  lemma HeaderIs(b: seq<byte>, fsize: nat)
    requires |b| == 32 && fsize <= MAX_UINT24
    requires (forall i | 0 <= i < 3 :: b[i] == PutInt24(fsize)[i]) && (forall i | 6 <= i < 32 :: b[i] == 0)
    requires b[3] == 0xC2 && b[4] == b[5] == 0x80
    ensures b[..16] == Header(fsize)
  {
    assert b[..3] == PutInt24(fsize) && b[3..6] == [0xC2, 0x80, 0x80] && b[6..16] == Zeros(10);
    assert b[..16] == b[..3] + (b[3..6] + b[6..16]);
  }

  /** The encrypted header of a frame. */
  method SealHeader(p: Prims, k: Keys, pos: nat, fsize: nat) returns (head: seq<byte>)
    requires fsize <= MAX_UINT24
    ensures head == Xored(p, k, pos, Header(fsize))
  {
    var headbuf := new byte[32](_ => 0);
    Copy(headbuf, 0, PutInt24(fsize));
    Copy(headbuf, 3, [0xC2, 0x80, 0x80]);
    HeaderIs(headbuf[..], fsize);
    assert headbuf[..16] == headbuf[..][..16];
    XorKeyStream(p, k, pos, headbuf, 16);
    head := headbuf[..16];
  }

  lemma AppendThree(was: seq<byte>, a: seq<byte>, b: seq<byte>, c: seq<byte>)
    ensures was + a + b + c == was + ((a + b) + c)
  {
  }

  class FrameRW {
    const p: Prims
    const k: Keys
    const snappy: bool
    var enc: nat
    var dec: nat
    var egress: seq<byte>
    var ingress: seq<byte>
    /** Bytes written to the connection, and bytes that can be read from it. */
    var written: seq<byte>
    var readable: seq<byte>

    constructor (p: Prims, k: Keys, snappy: bool, egress: seq<byte>, ingress: seq<byte>)
      ensures this.p == p && this.k == k && this.snappy == snappy
      ensures Out() == Dir(0, egress) && In() == Dir(0, ingress) && written == [] && readable == []
    {
      this.p, this.k, this.snappy := p, k, snappy;
      enc, dec, this.egress, this.ingress := 0, 0, egress, ingress;
      written, readable := [], [];
    }

    ghost function Out(): Dir
      reads this
    {
      Dir(enc, egress)
    }

    ghost function In(): Dir
      reads this
    {
      Dir(dec, ingress)
    }

    method WriteHeader(fsize: nat)
      requires fsize <= MAX_UINT24
      modifies this`enc, this`egress, this`written
      ensures var head := Xored(p, k, old(enc), Header(fsize));
              && enc == old(enc) + 16 && egress == UpdateMac(p, k, old(egress), head)
              && written == old(written) + (head + Tag(p, egress))
    {
      var head := SealHeader(p, k, enc, fsize);
      enc := enc + 16;
      var tag;
      egress, tag := Reseed(p, k, egress, head);
      written := written + (head + tag);
    }

    /** Encrypts what is written to the frame, and hashes the encrypted bytes. */
    method WriteBody(content: seq<byte>)
      modifies this`enc, this`egress, this`written
      ensures var body := Xored(p, k, old(enc), content);
              enc == old(enc) + |content| && egress == old(egress) + body && written == old(written) + body
    {
      var buf := new byte[|content|](i requires 0 <= i < |content| => content[i]);
      assert buf[..] == content && buf[..|content|] == content;
      XorKeyStream(p, k, enc, buf, |content|);
      assert buf[..] == buf[..|content|];
      enc, egress, written := enc + |content|, egress + buf[..], written + buf[..];
    }

    /** Hashes its own digest and writes the tag. */
    method WriteTag()
      modifies this`egress, this`written
      ensures egress == UpdateMac(p, k, old(egress), p.hash(old(egress))) && written == old(written) + Tag(p, egress)
    {
      var tag;
      egress, tag := Reseed(p, k, egress, p.hash(egress));
      written := written + tag;
    }

    /** Header, content and their tags go out one after the other. */
    method WriteParts(fsize: nat, content: seq<byte>, ghost head: seq<byte>, ghost body: seq<byte>)
      returns (ghost mac: seq<byte>)
      requires fsize <= MAX_UINT24 && head == Xored(p, k, enc, Header(fsize)) && body == Xored(p, k, enc + 16, content)
      modifies this`enc, this`egress, this`written
      ensures enc == old(enc) + 16 + |content| && mac == UpdateMac(p, k, old(egress), head)
      ensures egress == UpdateMac(p, k, mac + body, p.hash(mac + body))
      ensures written == old(written) + (head + Tag(p, mac)) + body + Tag(p, egress)
    {
      WriteHeader(fsize);
      mac := egress;
      WriteBody(content);
      WriteTag();
    }

    method WriteFrameOf(fsize: nat, content: seq<byte>)
      requires fsize <= MAX_UINT24
      modifies this`enc, this`egress, this`written
      ensures var (d, wire) := Seal(p, k, old(Out()), fsize, content); Out() == d && written == old(written) + wire
    {
      ghost var was, head, body := written, Xored(p, k, enc, Header(fsize)), Xored(p, k, enc + 16, content);
      ghost var mac := WriteParts(fsize, content, head, body);
      AppendThree(was, head + Tag(p, mac), body, Tag(p, egress));
    }

    /** Writes a message as one frame, or refuses it and changes nothing. */
    method Write(m: Msg) returns (error: Option<Error>)
      modifies this`enc, this`egress, this`written
      ensures var (d, r) := WriteMsg(p, k, snappy, old(Out()), m);
              && Out() == d
              && (error.None? <==> r.Ok?)
              && written == if r.Ok? then old(written) + r.value else old(written)
    {
      var m' := m;
      if snappy {
        if m.size > MAX_UINT24 {
          return Some(MessageTooLarge);
        }
        m' := Compressed(p, m);
      }
      if FrameSize(m') > MAX_UINT24 {
        return Some(SizeOverflow);
      }
      WriteFrameOf(FrameSize(m'), Content(m'));
      return None;
    }

    /** Reads the given number of bytes, or all there are. */
    method ReadFull(n: nat) returns (data: seq<byte>, ok: bool)
      modifies this`readable
      ensures ok <==> n <= |old(readable)|
      ensures if ok then data == old(readable)[..n] && readable == old(readable)[n..] else readable == []
    {
      if |readable| < n {
        data, ok, readable := readable, false, [];
      } else {
        data, ok, readable := readable[..n], true, readable[n..];
      }
    }

    method Decrypt(data: seq<byte>) returns (plain: seq<byte>)
      modifies this`dec
      ensures plain == Xored(p, k, old(dec), data) && dec == old(dec) + |data|
    {
      var buf := new byte[|data|](i requires 0 <= i < |data| => data[i]);
      assert buf[..] == data && buf[..|data|] == data;
      XorKeyStream(p, k, dec, buf, |data|);
      assert buf[..] == buf[..|data|];
      plain, dec := buf[..], dec + |data|;
    }

    method ReadHeader() returns (r: Result<nat>)
      modifies this`dec, this`ingress, this`readable
      ensures (In(), readable, r) == OpenHeader(p, k, old(In()), old(readable))
    {
      var headbuf, ok := ReadFull(32);
      if !ok {
        return Err(Short);
      }
      var shouldMac;
      ingress, shouldMac := Reseed(p, k, ingress, headbuf[..16]);
      assert headbuf[..16] == old(readable)[..16] && headbuf[16..] == old(readable)[16..32];
      if shouldMac != headbuf[16..] {
        return Err(BadHeaderMac);
      }
      var head := Decrypt(headbuf[..16]);
      return Ok(ReadInt24(head));
    }

    method ReadBody(fsize: nat) returns (r: Result<seq<byte>>)
      modifies this`dec, this`ingress, this`readable
      ensures (In(), readable, r) == OpenBody(p, k, old(In()), fsize, old(readable))
    {
      var rsize := fsize + Padding(fsize);
      var framebuf, ok := ReadFull(rsize);
      if !ok {
        return Err(Short);
      }
      ingress := ingress + framebuf;
      var tag, ok' := ReadFull(16);
      if !ok' {
        return Err(Short);
      }
      assert tag == old(readable)[rsize..rsize + 16] && readable == old(readable)[rsize + 16..];
      var shouldMac;
      ingress, shouldMac := Reseed(p, k, ingress, p.hash(ingress));
      if shouldMac != tag {
        return Err(BadFrameMac);
      }
      var plain := Decrypt(framebuf);
      return Ok(plain[..fsize]);
    }

    /** Reads one message. */
    method Read() returns (r: Result<Msg>)
      modifies this`dec, this`ingress, this`readable
      ensures (In(), readable, r) == ReadMsg(p, k, snappy, old(In()), old(readable))
    {
      OpenBounds(p, k, In(), readable);
      var size := ReadHeader();
      if size.Err? {
        return Err(size.error);
      }
      var content := ReadBody(size.value);
      if content.Err? {
        return Err(content.error);
      }
      return DecodeMsg(p, snappy, content.value);
    }
  }
}

/** The packet procedures as the server runs them: in place on the packet buffer,
    with the counter updated byte by byte. */
module PacketBuffer {
  import opened Bytes
  import opened PacketCounter
  import opened PacketProtection
  import Wire = WireBuffer

  // ---- Plain packets ----

  method PutFrameHead(w: Wire.Buffer, payload: ByteString, pad: nat)
    requires w.Valid() && w.len == 0 && 5 + |payload| <= w.data.Length
    modifies w`len, w.data
    ensures w.Valid() && w.Written() == FrameHead(payload, pad)
  {
    hide Wire.U32Bytes;
    var s := w.PutU32((1 + |payload| + pad) % Wire.U32_LIMIT);
    s := w.PutU8(pad % 256);
    s := w.PutBytes(payload);
  }

  /** Writes the frame into out; outLen is meaningful when the status is Ok. */
  method WritePlain(out: array<Byte>, payload: ByteString, blockSize: nat, rng: Rng)
    returns (status: Status, outLen: nat)
    modifies out
    ensures outLen <= out.Length
    ensures var e := EncodePlain(payload, blockSize, out.Length, rng);
            status == e.status && (status == Ok ==> out[..outLen] == e.bytes)
  {
    hide PaddingLen, PaddingBytes, FrameHead, FillsBlocks;
    if |payload| > MAX_PAYLOAD { return Malformed, 0; }
    var pad := ComputePaddingLen(|payload|, blockSize);
    if 5 + |payload| + pad > out.Length { return TooSmall, 0; }
    var w := new Wire.Buffer(out);
    PutFrameHead(w, payload, pad);
    var padding := PaddingBytes(rng, pad);
    if padding.None? { return Platform, 0; }
    var s := w.PutBytes(padding.value);
    assert w.Written() == Frame(payload, padding.value);
    return Ok, w.len;
  }

  /** Checks the first n bytes; the payload is the n' bytes from offset 5. */
  method ReadPlain(packet: array<Byte>, n: nat) returns (status: Status, payloadLen: nat)
    requires n <= packet.Length
    ensures status == if DecodePlain(packet[..n]).Some? then Ok else Malformed
    ensures status == Ok ==> 5 + payloadLen <= n && DecodePlain(packet[..n]) == Some(packet[5..5 + payloadLen])
  {
    if n < 5 + MIN_PADDING { return Malformed, 0; }
    if n > MAX_PACKET + 4 { return Malformed, 0; }
    hide DecodePlain, Wire.U32Of;
    ghost var p := packet[..][..n];
    assert p == packet[..n];
    var reader := new Wire.Buffer.Wrap(packet, n);
    var _, len := reader.GetU32();
    DecodeFields(p);
    if len + 4 != n { return Malformed, 0; }
    var _, padding := reader.GetU8();
    var pad: nat := padding;
    assert pad == p[4];
    if pad < MIN_PADDING { return Malformed, 0; }
    if pad + 1 > len { return Malformed, 0; }
    InsidePrefix(packet[..], n, 5, 4 + len - pad);
    return Ok, len - 1 - pad;
  }

  lemma InsidePrefix(s: ByteString, n: nat, a: nat, b: nat)
    requires a <= b <= n <= |s|
    ensures s[..n][a..b] == s[a..b]
  {
  }

  /** The decoder in terms of its two header fields. */
  lemma DecodeFields(p: ByteString)
    requires 5 + MIN_PADDING <= |p| <= MAX_PACKET + 4
    ensures var len, pad: nat := Wire.U32Of(p[..4]), p[4];
            DecodePlain(p) == if len + 4 != |p| || pad < MIN_PADDING || pad + 1 > len then None
                              else Some(p[5..4 + len - pad])
  {
    hide Wire.U32Of;
  }

  // ---- Comparing codes ----

  function OrBits(a: nat, b: nat, n: nat): nat {
    if n == 0 then 0 else 2 * OrBits(a / 2, b / 2, n - 1) + if a % 2 + b % 2 > 0 then 1 else 0
  }

  lemma {:induction false} OrZero(a: nat, b: nat, n: nat)
    requires a < Positional.Pow(2, n) && b < Positional.Pow(2, n)
    ensures OrBits(a, b, n) == 0 <==> a == 0 && b == 0
    ensures OrBits(a, b, n) < Positional.Pow(2, n)
  {
    if n > 0 {
      HalfBound(a, Positional.Pow(2, n - 1));
      HalfBound(b, Positional.Pow(2, n - 1));
      OrZero(a / 2, b / 2, n - 1);
    }
  }

  lemma {:induction false} XorZero(a: nat, b: nat, n: nat)
    requires a < Positional.Pow(2, n) && b < Positional.Pow(2, n)
    ensures XorBits(a, b, n) == 0 <==> a == b
  {
    if n > 0 {
      HalfBound(a, Positional.Pow(2, n - 1));
      HalfBound(b, Positional.Pow(2, n - 1));
      XorZero(a / 2, b / 2, n - 1);
      assert a == 2 * (a / 2) + a % 2 && b == 2 * (b / 2) + b % 2;
    }
  }

  function Or(a: Byte, b: Byte): (r: Byte)
    ensures r == 0 <==> a == 0 && b == 0
  {
    Pow2Is256();
    OrZero(a, b, 8);
    OrBits(a, b, 8)
  }

  lemma XorZeroByte(a: Byte, b: Byte)
    ensures Xor(a, b) == 0 <==> a == b
  {
    Pow2Is256();
    XorZero(a, b, 8);
  }

  /** Looks at every byte before it decides. */
  method MacMatches(a: ByteString, b: ByteString) returns (same: bool)
    requires |a| == |b|
    ensures same <==> a == b
  {
    hide Xor, Or;
    var diff: Byte := 0;
    for i := 0 to |a|
      invariant diff == 0 <==> a[..i] == b[..i]
    {
      XorZeroByte(a[i], b[i]);
      assert a[..i + 1] == a[..i] + [a[i]] && b[..i + 1] == b[..i] + [b[i]];
      diff := Or(diff, Xor(a[i], b[i]));
    }
    assert a[..|a|] == a && b[..|b|] == b;
    same := diff == 0;
  }

  // ---- Protected packets ----

  /** The cipher backend, in place on the first n bytes. */
  method CryptInPlace(c: Crypto, key: ByteString, iv: ByteString, data: array<Byte>, n: nat) returns (ok: bool)
    requires n <= data.Length
    modifies data
    ensures ok == c.works(key, iv) && data[n..] == old(data[n..])
    ensures data[..n] == if ok then Crypt(c, key, iv, old(data[..n])) else old(data[..n])
  {
    hide StreamByte, Xor;
    if !c.works(key, iv) { return false; }
    forall i | 0 <= i < n {
      data[i] := Xor(data[i], StreamByte(c, key, iv, i));
    }
    return true;
  }

  class PacketState {
    const crypto: Crypto
    const cipherKey: ByteString
    const macKey: ByteString
    const iv: array<Byte>
    const blockSize: nat
    const macLen: nat
    var sequence: nat

    ghost predicate Valid()
      reads this, iv
    {
      View().Valid()
    }

    ghost function View(): Protection
      reads this, iv
    {
      Protection(cipherKey, iv[..], macKey, blockSize, macLen, sequence)
    }

    /** Fresh keys start at sequence number zero. */
    constructor (crypto: Crypto, cipherKey: ByteString, iv: ByteString, macKey: ByteString,
        blockSize: nat, macLen: nat)
      requires |iv| <= MAX_IV && 0 < macLen <= MAX_MAC
      ensures Valid() && fresh(this.iv) && this.crypto == crypto
      ensures View() == Protection(cipherKey, iv, macKey, Normalized(blockSize), macLen, 0)
    {
      this.crypto, this.cipherKey, this.macKey := crypto, cipherKey, macKey;
      var counter := new Byte[|iv|](i requires 0 <= i < |iv| => iv[i]);
      assert counter[..] == iv;
      this.iv := counter;
      this.blockSize, this.macLen := Normalized(blockSize), macLen;
      this.sequence := 0;
    }

    /** A state taken up where it was left. */
    constructor Resume(crypto: Crypto, p: Protection)
      requires p.Valid()
      ensures Valid() && fresh(this.iv) && this.crypto == crypto && View() == p
    {
      this.crypto, this.cipherKey, this.macKey := crypto, p.cipherKey, p.macKey;
      var counter := new Byte[|p.iv|](i requires 0 <= i < |p.iv| => p.iv[i]);
      assert counter[..] == p.iv;
      this.iv := counter;
      this.blockSize, this.macLen, this.sequence := p.blockSize, p.macLen, p.sequence;
    }

    method Snapshot() returns (p: Protection)
      ensures p == View()
    {
      p := Protection(cipherKey, iv[..], macKey, blockSize, macLen, sequence);
    }

    method AdvanceStreamPosition(dataLen: nat)
      modifies iv
      ensures iv[..] == NextIv(old(iv[..]), dataLen)
    {
      hide Advance;
      if iv.Length == 0 || dataLen == 0 { return; }
      AdvanceCounter(iv, Blocks(dataLen, iv.Length));
    }

    method EncodeProtected(out: array<Byte>, payload: ByteString, rng: Rng)
      returns (status: Status, outLen: nat)
      requires Valid() && out != iv
      modifies this`sequence, iv, out
      ensures Valid() && outLen <= out.Length
      ensures var e := Encode(crypto, old(View()), payload, out.Length, rng);
              status == e.status && View() == e.next && (status == Ok ==> out[..outLen] == e.wire)
    {
      hide EncodePlain, Crypt, NextIv;
      ghost var p := View();
      var len;
      status, len := WritePlain(out, payload, blockSize, rng);
      outLen := 0;
      if status != Ok { return; }
      if len + macLen > out.Length { status := TooSmall; return; }
      var mac := crypto.mac(macKey, sequence, out[..len]);
      if mac.None? || |mac.value| != macLen { status := Platform; return; }
      var ok := CryptInPlace(crypto, cipherKey, iv[..], out, len);
      if !ok { status := Platform; return; }
      AdvanceStreamPosition(len);
      ghost var cipher := out[..len];
      forall i | 0 <= i < macLen {
        out[len + i] := mac.value[i];
      }
      outLen := len + macLen;
      assert out[..outLen] == cipher + mac.value;
      sequence := (sequence + 1) % Wire.U32_LIMIT;
    }

    /** The checks on a decrypted packet: its code, its length field, its framing. */
    method Inspect(packet: array<Byte>, len: nat, received: ByteString) returns (status: Status, payloadLen: nat)
      requires Valid() && MIN_BLOCK <= len <= packet.Length && |received| == macLen && crypto.works(cipherKey, iv[..])
      ensures status == Verdict(crypto, View(), packet[..len], received)
      ensures status == Ok ==> 5 + payloadLen <= len && DecodePlain(packet[..len]) == Some(packet[5..5 + payloadLen])
    {
      hide DecodePlain;
      payloadLen := 0;
      ghost var plain := packet[..len];
      var expected := crypto.mac(macKey, sequence, packet[..len]);
      if expected.None? || |expected.value| != macLen { return Platform, 0; }
      var same := MacMatches(expected.value, received);
      if !same { return Security, 0; }
      if Wire.Word(packet[0], packet[1], packet[2], packet[3]) + 4 != len {
        LengthMismatch(plain);
        return Malformed, 0;
      }
      status, payloadLen := ReadPlain(packet, len);
    }

    /** Decrypts in place and undoes it whenever the packet is turned down. */
    method OpenInPlace(packet: array<Byte>, len: nat) returns (status: Status, payloadLen: nat)
      requires Valid() && packet != iv && MIN_BLOCK <= len && len + macLen == packet.Length
      modifies this`sequence, iv, packet
      ensures var p, was := old(View()), old(packet[..]);
              var plain := Crypt(crypto, p.cipherKey, p.iv, was[..len]);
              && status == Verdict(crypto, p, plain, was[len..])
              && (status == Ok ==>
                  && View() == p.After(len) && packet[..] == plain + was[len..]
                  && 5 + payloadLen <= len && DecodePlain(plain) == Some(packet[5..5 + payloadLen]))
              && (status != Ok ==> View() == p && packet[..] == was)
    {
      hide Crypt, NextIv, DecodePlain, Verdict, PacketProtection.Protection.Valid;
      ghost var p, was := View(), packet[..];
      var received := packet[len..];
      var ok := CryptInPlace(crypto, cipherKey, iv[..], packet, len);
      if !ok {
        BrokenCipher(crypto, p, was, len);
        assert packet[..] == packet[..len] + packet[len..] && was == was[..len] + was[len..];
        return Platform, 0;
      }
      ghost var plain := packet[..len];
      assert packet[..] == plain + received;
      status, payloadLen := Inspect(packet, len, received);
      if status != Ok {
        ok := CryptInPlace(crypto, cipherKey, iv[..], packet, len);
        CryptTwice(crypto, p.cipherKey, p.iv, was[..len]);
        assert packet[..] == packet[..len] + packet[len..];
        assert was == was[..len] + was[len..];
        return;
      }
      AdvanceStreamPosition(len);
      sequence := (sequence + 1) % Wire.U32_LIMIT;
    }

    method DecodeProtected(packet: array<Byte>) returns (status: Status, payloadLen: nat)
      requires Valid() && packet != iv
      modifies this`sequence, iv, packet
      ensures Valid()
      ensures var d := Decode(crypto, old(View()), old(packet[..]));
              && status == d.status && View() == d.next && packet[..] == d.buffer
              && (status == Ok ==> 5 + payloadLen <= packet.Length && packet[5..5 + payloadLen] == d.payload)
      ensures status != Ok ==> View() == old(View()) && packet[..] == old(packet[..])
    {
      hide Crypt, NextIv, DecodePlain, Mac, WholeBlockCount, Verdict;
      payloadLen := 0;
      if packet.Length <= macLen || macLen > MAX_MAC { return Malformed, 0; }
      var len := packet.Length - macLen;
      if len < blockSize || !WholeBlockCount(len, blockSize) { return Malformed, 0; }
      if len > MAX_PACKET + 4 { return Malformed, 0; }
      DecodeByVerdict(crypto, View(), packet[..]);
      hide Decode;
      status, payloadLen := OpenInPlace(packet, len);
    }
  }

  /** What the checks on a decrypted packet come to. */
  ghost function Verdict(c: Crypto, p: Protection, plain: ByteString, code: ByteString): Status {
    if !c.works(p.cipherKey, p.iv) then Platform else
      match Mac(c, p, plain)
      case None => Platform
      case Some(m) => if m != code then Security else if DecodePlain(plain).None? then Malformed else Ok
  }

  lemma BrokenCipher(c: Crypto, p: Protection, packet: ByteString, len: nat)
    requires len <= |packet| && !c.works(p.cipherKey, p.iv)
    ensures Verdict(c, p, Crypt(c, p.cipherKey, p.iv, packet[..len]), packet[len..]) == Platform
  {
    hide Crypt;
  }

  lemma DecodeByVerdict(c: Crypto, p: Protection, packet: ByteString)
    requires 0 < p.macLen < |packet| && p.macLen <= MAX_MAC
    requires var len := |packet| - p.macLen;
             p.blockSize <= len <= MAX_PACKET + 4 && WholeBlockCount(len, p.blockSize)
    ensures var len := |packet| - p.macLen;
            var plain := Crypt(c, p.cipherKey, p.iv, packet[..len]);
            var status := Verdict(c, p, plain, packet[len..]);
            Decode(c, p, packet) ==
            if status == Ok then Opened(Ok, DecodePlain(plain).value, p.After(len), plain + packet[len..])
            else Opened(status, [], p, packet)
  {
    hide Crypt, NextIv, DecodePlain, Mac;
  }

  const MAX_KEY: nat := 64

  /** Setting the keys of a direction, with the source's argument checks. */
  method ProtectionSet(crypto: Crypto, cipherKey: ByteString, iv: ByteString, macKey: ByteString,
      blockSize: nat, macLen: nat)
    returns (status: Status, state: PacketState?)
    ensures status == Ok <==>
              && 0 < |cipherKey| <= 64 && |iv| <= 32
              && 0 < |macKey| <= 64 && 0 < macLen <= 64
    ensures status == Ok <==> state != null
    ensures status != Ok ==> status == InvalidArgument
    ensures state != null ==>
              && fresh(state) && fresh(state.iv) && state.Valid()
              && state.View() == Protection(cipherKey, iv, macKey, Normalized(blockSize), macLen, 0)
  {
    if |cipherKey| == 0 || |cipherKey| > MAX_KEY || |iv| > MAX_IV || |macKey| == 0 || |macKey| > MAX_KEY
       || macLen == 0 || macLen > MAX_MAC
    {
      return InvalidArgument, null;
    }
    var s := new PacketState(crypto, cipherKey, iv, macKey, blockSize, macLen);
    return Ok, s;
  }

  lemma LengthMismatch(plain: ByteString)
    requires |plain| >= 4 && Wire.Word(plain[0], plain[1], plain[2], plain[3]) + 4 != |plain|
    ensures DecodePlain(plain) == None
  {
  }
}

/** The binary packet protocol: framing, encryption in counter mode and message
    authentication, as values. PacketBuffer holds the in-place procedures. */
module PacketProtection {
  import opened Bytes
  import opened Positional
  import opened PacketCounter
  import Wire = WireBuffer

  const MIN_PADDING: nat := 4
  const MIN_BLOCK: nat := 8
  const MAX_PAYLOAD: nat := 32768
  const MAX_PACKET: nat := 35000
  const MAX_MAC: nat := 64
  const MAX_IV: nat := 32

  /** The largest block whose paddings all fit their one-byte length field. */
  const MAX_BLOCK: nat := 252

  datatype Status = Ok | InvalidArgument | Malformed | TooSmall | Platform | Security

  // ---- Padding ----

  function Normalized(blockSize: nat): (r: nat)
    ensures r >= MIN_BLOCK
  {
    if blockSize < MIN_BLOCK then MIN_BLOCK else blockSize
  }

  ghost predicate Divides(d: nat, x: nat) {
    exists q: nat :: q * d == x
  }

  lemma DividesIff(d: nat, x: nat)
    requires d > 0
    ensures Divides(d, x) <==> x % d == 0
  {
    if Divides(d, x) {
      var q: nat :| q * d == x;
      DivModUnique(x, d, q, 0);
    }
    if x % d == 0 { assert (x / d) * d == x; }
  }

  /** Two multiples less than d apart are equal. */
  lemma MultiplesApart(d: nat, x: nat, y: nat)
    requires d > 0 && Divides(d, x) && Divides(d, y) && x <= y < x + d
    ensures x == y
  {
    var p: nat :| p * d == x;
    var q: nat :| q * d == y;
    if p < q { MulMono(p + 1, q, d); } else { MulMono(q, p, d); }
  }

  /** The least padding of at least four bytes that fills up the last block. */
  ghost predicate IsPadding(payloadLen: nat, blockSize: nat, pad: nat) {
    && MIN_PADDING <= pad < MIN_PADDING + blockSize
    && FillsBlocks(payloadLen, blockSize, pad)
  }

  ghost predicate FillsBlocks(payloadLen: nat, blockSize: nat, pad: nat) {
    Divides(blockSize, 5 + payloadLen + pad)
  }

  lemma PaddingUnique(payloadLen: nat, blockSize: nat, p: nat, q: nat)
    requires blockSize > 0 && IsPadding(payloadLen, blockSize, p) && IsPadding(payloadLen, blockSize, q)
    ensures p == q
  {
    if p <= q {
      MultiplesApart(blockSize, 5 + payloadLen + p, 5 + payloadLen + q);
    } else {
      MultiplesApart(blockSize, 5 + payloadLen + q, 5 + payloadLen + p);
    }
  }

  function PaddingLen(payloadLen: nat, blockSize: nat): (pad: nat)
    ensures IsPadding(payloadLen, Normalized(blockSize), pad)
  {
    var b := Normalized(blockSize);
    var x := 5 + payloadLen;
    var over := x % b;
    var pad := if over == 0 then 0 else b - over;
    assert Divides(b, x + pad) && Divides(b, x + (pad + b)) by { RoundUp(x, b); }
    if pad < MIN_PADDING then assert x + (pad + b) == 5 + payloadLen + (pad + b); pad + b else pad
  }

  lemma RoundUp(x: nat, b: nat)
    requires b > 0
    ensures x % b < b
    ensures var pad := if x % b == 0 then 0 else b - x % b;
            Divides(b, x + pad) && Divides(b, x + (pad + b))
  {
    var q := x / b;
    assert x == q * b + x % b;
    if x % b == 0 {
      assert q * b == x && (q + 1) * b == x + b;
    } else {
      assert (q + 1) * b == x + (b - x % b);
      assert (q + 2) * b == x + (b - x % b + b);
    }
  }

  /** The loop of the padding computation. */
  method ComputePaddingLen(payloadLen: nat, blockSize: nat) returns (pad: nat)
    ensures pad == PaddingLen(payloadLen, blockSize)
    ensures forall p: nat | MIN_PADDING <= p < pad :: !FillsBlocks(payloadLen, Normalized(blockSize), p)
  {
    var b := Normalized(blockSize);
    var x := 5 + payloadLen;
    RoundUp(x, b);
    pad := b - x % b;
    if pad == b { pad := 0; }
    ghost var first: nat := pad;
    while pad < MIN_PADDING
      invariant pad == first || (first < MIN_PADDING && pad == first + b)
      decreases first + b - pad
    {
      pad := pad + b;
    }
    PaddingUnique(payloadLen, b, pad, PaddingLen(payloadLen, blockSize));
    forall p: nat | MIN_PADDING <= p < pad
      ensures !FillsBlocks(payloadLen, b, p)
    {
      if FillsBlocks(payloadLen, b, p) { PaddingUnique(payloadLen, b, p, pad); }
    }
  }

  // ---- Plain packets ----

  /** The padding source: absent, failing, or supplying bytes. */
  datatype Rng = NoRng | FailingRng | FillingRng(byte: nat -> Byte)

  function PaddingBytes(rng: Rng, n: nat): (r: Option<ByteString>)
    ensures r.Some? ==> |r.value| == n
  {
    match rng
    case NoRng => Some(seq(n, _ => 0))
    case FailingRng => None
    case FillingRng(f) => Some(Filled(n, f))
  }

  function Filled(n: nat, f: nat -> Byte): (s: ByteString)
    ensures |s| == n
  {
    seq(n, i requires 0 <= i < n => f(i))
  }

  datatype Encoding = Encoding(status: Status, bytes: ByteString)

  /** A packet up to its padding of n bytes. */
  function FrameHead(payload: ByteString, n: nat): (f: ByteString)
    ensures |f| == 5 + |payload|
  {
    Wire.U32Bytes((1 + |payload| + n) % Wire.U32_LIMIT) + [n % 256] + payload
  }

  function Frame(payload: ByteString, padding: ByteString): (f: ByteString)
    ensures |f| == 5 + |payload| + |padding|
  {
    FrameHead(payload, |padding|) + padding
  }

  function EncodePlain(payload: ByteString, blockSize: nat, capacity: nat, rng: Rng): Encoding {
    if |payload| > MAX_PAYLOAD then Encoding(Malformed, []) else
      var n := PaddingLen(|payload|, blockSize);
      if 5 + |payload| + n > capacity then Encoding(TooSmall, []) else
        match PaddingBytes(rng, n)
        case None => Encoding(Platform, [])
        case Some(padding) => Encoding(Ok, Frame(payload, padding))
  }

  /** The payload of a well-formed plain packet. */
  function DecodePlain(packet: ByteString): Option<ByteString> {
    if |packet| < 5 + MIN_PADDING || |packet| > MAX_PACKET + 4 then None else
      var n := Wire.U32Of(packet[..4]);
      var pad: nat := packet[4];
      if n + 4 != |packet| || pad < MIN_PADDING || pad + 1 > n then None
      else Some(packet[5..4 + n - pad])
  }

  /** Framing loses nothing while the padding fits its one-byte field. */
  lemma FrameRoundTrip(payload: ByteString, padding: ByteString)
    requires 5 + |payload| + |padding| <= MAX_PACKET + 4 && MIN_PADDING <= |padding| < 256
    ensures DecodePlain(Frame(payload, padding)) == Some(payload)
  {
    hide Frame, Wire.U32Bytes, Wire.U32Of;
    FrameParts(payload, padding);
    SmallMod(1 + |payload| + |padding|);
    Wire.U32RoundTrip(1 + |payload| + |padding|);
  }

  lemma FrameParts(payload: ByteString, padding: ByteString)
    ensures var f := Frame(payload, padding);
            && f[..4] == Wire.U32Bytes((1 + |payload| + |padding|) % Wire.U32_LIMIT)
            && f[4] == |padding| % 256 && f[5..5 + |payload|] == payload
  {
    hide Wire.U32Bytes;
    var f := Frame(payload, padding);
    var head := FrameHead(payload, |padding|);
    assert f[..5 + |payload|] == head;
    assert f[..4] == head[..4] && f[5..5 + |payload|] == head[5..];
  }

  lemma SmallMod(n: nat)
    requires n <= MAX_PACKET
    ensures n % Wire.U32_LIMIT == n
  {
  }

  /** A padding of 256 or more is lost in the one-byte field. */
  lemma FrameTruncates(payload: ByteString, padding: ByteString)
    requires |padding| >= 256
    ensures DecodePlain(Frame(payload, padding)) != Some(payload)
  {
    var f := Frame(payload, padding);
    assert f[4] == |padding| % 256;
  }

  /** A payload some block size pads with 256 bytes or more. */
  lemma LongPadding(blockSize: nat) returns (n: nat)
    requires blockSize > MAX_BLOCK
    ensures n <= MAX_PAYLOAD && PaddingLen(n, blockSize) >= 256
  {
    n := if blockSize - 8 <= MAX_PAYLOAD then blockSize - 8 else 0;
    if n == 0 {
      assert 1 * blockSize == 5 + 0 + (blockSize - 5);
      PaddingUnique(0, blockSize, blockSize - 5, PaddingLen(0, blockSize));
    } else {
      assert 2 * blockSize == 5 + n + (blockSize + 3);
      PaddingUnique(n, blockSize, blockSize + 3, PaddingLen(n, blockSize));
    }
  }

  ghost predicate PlainRoundTrips(blockSize: nat) {
    forall payload: ByteString, capacity: nat, rng: Rng ::
      var e := EncodePlain(payload, blockSize, capacity, rng);
      e.status == Ok ==> DecodePlain(e.bytes) == Some(payload)
  }

  /** Every encoded packet decodes to its payload exactly when the block size is at
      most 252, so that no padding outgrows its one-byte length field. */
  lemma PlainRoundTripsIff(blockSize: nat)
    ensures PlainRoundTrips(blockSize) <==> blockSize <= MAX_BLOCK
  {
    if blockSize <= MAX_BLOCK {
      forall payload: ByteString, capacity: nat, rng: Rng
        ensures var e := EncodePlain(payload, blockSize, capacity, rng);
                e.status == Ok ==> DecodePlain(e.bytes) == Some(payload)
      {
        EncodedDecodes(payload, blockSize, capacity, rng);
      }
    } else {
      var n := LongPadding(blockSize);
      var payload: ByteString := seq(n, _ => 0);
      var padding: ByteString := seq(PaddingLen(n, blockSize), _ => 0);
      FrameTruncates(payload, padding);
      var e := EncodePlain(payload, blockSize, 5 + n + PaddingLen(n, blockSize), NoRng);
      assert e == Encoding(Ok, Frame(payload, padding));
    }
  }

  /** A case just above the bound: 245 bytes in blocks of 253 take a padding of 256. */
  lemma PlainFailsAt253(payload: ByteString)
    requires |payload| == 245
    ensures var e := EncodePlain(payload, 253, 506, NoRng);
            e.status == Ok && DecodePlain(e.bytes) != Some(payload)
  {
    assert 2 * 253 == 5 + 245 + 256;
    PaddingUnique(245, 253, 256, PaddingLen(245, 253));
    FrameTruncates(payload, PaddingBytes(NoRng, 256).value);
  }

  lemma EncodedDecodes(payload: ByteString, blockSize: nat, capacity: nat, rng: Rng)
    requires blockSize <= MAX_BLOCK
    ensures var e := EncodePlain(payload, blockSize, capacity, rng);
            e.status == Ok ==>
              && DecodePlain(e.bytes) == Some(payload)
              && |e.bytes| <= MAX_PAYLOAD + 260
              && Divides(Normalized(blockSize), |e.bytes|)
              && |e.bytes| >= Normalized(blockSize)
  {
    var e := EncodePlain(payload, blockSize, capacity, rng);
    if e.status == Ok {
      var padding := PaddingBytes(rng, PaddingLen(|payload|, blockSize)).value;
      FrameRoundTrip(payload, padding);
      if |e.bytes| < Normalized(blockSize) {
        assert 0 * Normalized(blockSize) == 0;
        MultiplesApart(Normalized(blockSize), 0, |e.bytes|);
      }
    }
  }

  /** A packet as section 6 of RFC 4253 lays it out: the length of what follows, the
      padding's length, the payload, and the least padding of four bytes or more that
      fills up the last block. */
  ghost predicate LaidOut(b: ByteString, payload: ByteString, block: nat) {
    && 9 + |payload| <= |b| < 9 + |payload| + block && Divides(block, |b|)
    && Value(256, b[..4]) == |b| - 4 && b[4] == |b| - 5 - |payload|
    && b[5..5 + |payload|] == payload
  }

  lemma FrameLaidOut(payload: ByteString, padding: ByteString, block: nat)
    requires IsPadding(|payload|, block, |padding|) && |padding| < 256 && |payload| <= MAX_PAYLOAD
    ensures LaidOut(Frame(payload, padding), payload, block)
  {
    hide Frame, Wire.U32Of, Wire.U32Bytes, Divides;
    FrameParts(payload, padding);
    SmallMod(1 + |payload| + |padding|);
    Wire.U32RoundTrip(1 + |payload| + |padding|);
    Wire.U32Digits(Frame(payload, padding)[..4]);
  }

  /** An encoded packet is laid out in blocks of at least eight bytes. */
  lemma EncodedLayout(payload: ByteString, blockSize: nat, capacity: nat, rng: Rng)
    requires blockSize <= MAX_BLOCK && EncodePlain(payload, blockSize, capacity, rng).status == Ok
    ensures LaidOut(EncodePlain(payload, blockSize, capacity, rng).bytes, payload,
                    if blockSize < 8 then 8 else blockSize)
  {
    hide Frame, LaidOut, FillsBlocks;
    var padding := PaddingBytes(rng, PaddingLen(|payload|, blockSize)).value;
    FrameLaidOut(payload, padding, Normalized(blockSize));
  }

  /** Its padding is what the random source gives, or zeros without one. */
  lemma EncodedPadding(payload: ByteString, blockSize: nat, capacity: nat, rng: Rng, i: nat)
    requires EncodePlain(payload, blockSize, capacity, rng).status == Ok
    requires 5 + |payload| + i < |EncodePlain(payload, blockSize, capacity, rng).bytes|
    ensures EncodePlain(payload, blockSize, capacity, rng).bytes[5 + |payload| + i]
         == if rng.FillingRng? then rng.byte(i) else 0
  {
    hide FrameHead, PaddingLen;
  }

  /** Encoding fails for a payload above 32768 bytes, for want of room, or with the
      random source, tried in this order. */
  lemma EncodesExactly(payload: ByteString, blockSize: nat, capacity: nat, rng: Rng)
    ensures var e := EncodePlain(payload, blockSize, capacity, rng);
            var tooLong, noRoom := |payload| > 32768, 5 + |payload| + PaddingLen(|payload|, blockSize) > capacity;
            && (e.status == Malformed <==> tooLong) && (e.status == TooSmall <==> !tooLong && noRoom)
            && (e.status == Platform <==> !tooLong && !noRoom && rng.FailingRng?)
            && (e.status == Ok <==> !tooLong && !noRoom && !rng.FailingRng?)
  {
    hide PaddingLen, Frame;
  }

  /** Decoding accepts exactly the packets of at most 35004 bytes whose length field is
      right and whose padding of four bytes or more lies inside, block size aside. */
  lemma DecodesExactly(b: ByteString, payload: ByteString)
    ensures DecodePlain(b) == Some(payload) <==>
            && 9 + |payload| <= |b| <= 35004
            && Value(256, b[..4]) == |b| - 4 && b[4] == |b| - 5 - |payload|
            && b[5..5 + |payload|] == payload
  {
    hide Wire.U32Of;
    if |b| >= 4 { Wire.U32Digits(b[..4]); }
  }

  // ---- The cipher ----

  function XorBits(a: nat, b: nat, n: nat): nat {
    if n == 0 then 0 else 2 * XorBits(a / 2, b / 2, n - 1) + (a % 2 + b % 2) % 2
  }

  lemma {:induction false} XorBound(a: nat, b: nat, n: nat)
    ensures XorBits(a, b, n) < Pow(2, n)
  {
    if n > 0 { XorBound(a / 2, b / 2, n - 1); }
  }

  lemma {:induction false} XorTwice(a: nat, b: nat, n: nat)
    requires a < Pow(2, n)
    ensures XorBits(XorBits(a, b, n), b, n) == a
  {
    if n == 0 {
      assert a == 0;
    } else {
      HalfBound(a, Pow(2, n - 1));
      XorTwice(a / 2, b / 2, n - 1);
      hide XorBits, Pow;
      XorStep(a, b, n);
      XorStep(XorBits(a, b, n), b, n);
      TopAndBit(XorBits(a / 2, b / 2, n - 1), a, b);
    }
  }

  lemma XorStep(a: nat, b: nat, n: nat)
    requires n > 0
    ensures XorBits(a, b, n) == 2 * XorBits(a / 2, b / 2, n - 1) + (a % 2 + b % 2) % 2
  {
  }

  lemma HalfBound(a: nat, p: nat)
    requires a < 2 * p
    ensures a / 2 < p
  {
  }

  lemma TopAndBit(h: nat, a: nat, b: nat)
    ensures var x := 2 * h + (a % 2 + b % 2) % 2;
            x / 2 == h && (x % 2 + b % 2) % 2 == a % 2
  {
  }

  lemma Pow2Is256()
    ensures Pow(2, 8) == 256
  {
    assert Pow(2, 4) == 16;
  }

  function Xor(a: Byte, b: Byte): Byte {
    XorBound(a, b, 8);
    Pow2Is256();
    XorBits(a, b, 8)
  }

  /** Bit i of a number. */
  function Bit(x: nat, i: nat): nat {
    if i == 0 then x % 2 else Bit(x / 2, i - 1)
  }

  lemma {:induction false} XorBitAt(a: nat, b: nat, n: nat, i: nat)
    requires i < n
    ensures Bit(XorBits(a, b, n), i) == (Bit(a, i) + Bit(b, i)) % 2
  {
    TopAndBit(XorBits(a / 2, b / 2, n - 1), a, b);
    if i > 0 { XorBitAt(a / 2, b / 2, n - 1, i - 1); }
  }

  /** The cipher's addition is the exclusive or, bit by bit. */
  lemma XorBitwise(a: Byte, b: Byte, i: nat)
    requires i < 8
    ensures Bit(Xor(a, b), i) == (Bit(a, i) + Bit(b, i)) % 2
  {
    XorBitAt(a, b, 8, i);
  }

  lemma XorInvolution(a: Byte, b: Byte)
    ensures Xor(Xor(a, b), b) == a
  {
    Pow2Is256();
    XorTwice(a, b, 8);
  }

  /** The cryptographic backend: the keystream byte of a key, a counter block and
      an offset in the block, whether the cipher works for a key and a counter, and
      the message authentication code of a key, a sequence number and a packet. */
  datatype Crypto = Crypto(
    keystream: (ByteString, ByteString, nat) -> Byte,
    works: (ByteString, ByteString) -> bool,
    mac: (ByteString, nat, ByteString) -> Option<ByteString>)

  /** Byte i of the keystream that starts at a counter. */
  function StreamByte(c: Crypto, key: ByteString, iv: ByteString, i: nat): Byte {
    if iv == [] then c.keystream(key, iv, i)
    else c.keystream(key, Advance(iv, i / |iv|), i % |iv|)
  }

  /** Encryption and decryption: both add the keystream. */
  function Crypt(c: Crypto, key: ByteString, iv: ByteString, data: ByteString): (r: ByteString)
    ensures |r| == |data|
  {
    seq(|data|, i requires 0 <= i < |data| => Xor(data[i], StreamByte(c, key, iv, i)))
  }

  lemma CryptTwice(c: Crypto, key: ByteString, iv: ByteString, data: ByteString)
    ensures Crypt(c, key, iv, Crypt(c, key, iv, data)) == data
  {
    hide StreamByte, Xor;
    forall i | 0 <= i < |data|
      ensures Crypt(c, key, iv, Crypt(c, key, iv, data))[i] == data[i]
    {
      XorInvolution(data[i], StreamByte(c, key, iv, i));
    }
  }

  lemma CryptPrefix(c: Crypto, key: ByteString, iv: ByteString, data: ByteString, n: nat)
    requires n <= |data|
    ensures Crypt(c, key, iv, data[..n]) == Crypt(c, key, iv, data)[..n]
  {
    hide StreamByte, Xor;
  }

  /** Blocks of keystream a packet uses up. */
  function Blocks(len: nat, ivLen: nat): nat
    requires ivLen > 0
  {
    (len + ivLen - 1) / ivLen
  }

  function NextIv(iv: ByteString, len: nat): (r: ByteString)
    ensures |r| == |iv|
  {
    if iv == [] || len == 0 then iv else Advance(iv, Blocks(len, |iv|))
  }

  /** After whole blocks the next packet goes on exactly where the keystream
      stopped. */
  lemma StreamContinues(c: Crypto, key: ByteString, iv: ByteString, len: nat, i: nat)
    requires iv != [] && Divides(|iv|, len)
    ensures StreamByte(c, key, NextIv(iv, len), i) == StreamByte(c, key, iv, len + i)
  {
    hide Advance;
    var n: nat := |iv|;
    var q: nat :| q * n == len;
    WholeBlocks(len, n, q, i);
    if len > 0 { AdvanceAdvance(iv, q, i / n); }
  }

  lemma WholeBlocks(len: nat, n: nat, q: nat, i: nat)
    requires n > 0 && len == q * n
    ensures Blocks(len, n) == q && (len == 0 ==> q == 0)
    ensures (len + i) / n == q + i / n && (len + i) % n == i % n
  {
    DivModUnique(len + n - 1, n, q, n - 1);
    assert len + i == (q + i / n) * n + i % n by {
      assert (q + i / n) * n == q * n + (i / n) * n;
    }
    DivModUnique(len + i, n, q + i / n, i % n);
  }

  /** Packets encrypted one after the other are the encryption of their
      concatenation. */
  lemma CryptConcat(c: Crypto, key: ByteString, iv: ByteString, a: ByteString, b: ByteString)
    requires iv != [] && Divides(|iv|, |a|)
    ensures Crypt(c, key, iv, a) + Crypt(c, key, NextIv(iv, |a|), b) == Crypt(c, key, iv, a + b)
  {
    hide StreamByte, Xor, NextIv;
    var l := Crypt(c, key, iv, a) + Crypt(c, key, NextIv(iv, |a|), b);
    var r := Crypt(c, key, iv, a + b);
    forall k | 0 <= k < |a| + |b|
      ensures l[k] == r[k]
    {
      if k >= |a| { StreamContinues(c, key, iv, |a|, k - |a|); }
    }
  }

  // ---- Protected packets ----

  /** One direction's keys, counter and sequence number. */
  datatype Protection = Protection(
    cipherKey: ByteString, iv: ByteString, macKey: ByteString,
    blockSize: nat, macLen: nat, sequence: nat)
  {
    /** What setting the keys establishes and every packet keeps. */
    ghost predicate Valid() {
      && MIN_BLOCK <= blockSize && 0 < macLen <= MAX_MAC
      && |iv| <= MAX_IV && sequence < Wire.U32_LIMIT
    }

    /** The state after a packet of len encrypted bytes. */
    function After(len: nat): Protection {
      this.(iv := NextIv(iv, len), sequence := (sequence + 1) % Wire.U32_LIMIT)
    }
  }

  function Mac(c: Crypto, p: Protection, plain: ByteString): (r: Option<ByteString>)
    ensures r.Some? ==> |r.value| == p.macLen
  {
    var m := c.mac(p.macKey, p.sequence, plain);
    if m.Some? && |m.value| == p.macLen then m else None
  }

  datatype Sealed = Sealed(status: Status, wire: ByteString, next: Protection)

  function Encode(c: Crypto, p: Protection, payload: ByteString, capacity: nat, rng: Rng): Sealed {
    var e := EncodePlain(payload, p.blockSize, capacity, rng);
    if e.status != Ok then Sealed(e.status, [], p)
    else if |e.bytes| + p.macLen > capacity then Sealed(TooSmall, [], p)
    else match Mac(c, p, e.bytes)
      case None => Sealed(Platform, [], p)
      case Some(m) =>
        if !c.works(p.cipherKey, p.iv) then Sealed(Platform, [], p)
        else Sealed(Ok, Crypt(c, p.cipherKey, p.iv, e.bytes) + m, p.After(|e.bytes|))
  }

  /** The outcome of a decode, with what it leaves in the packet buffer. */
  datatype Opened = Opened(status: Status, payload: ByteString, next: Protection, buffer: ByteString)

  function Decode(c: Crypto, p: Protection, packet: ByteString): Opened {
    if |packet| <= p.macLen || p.macLen > MAX_MAC then Opened(Malformed, [], p, packet) else
      var len := |packet| - p.macLen;
      if len < p.blockSize || !WholeBlockCount(len, p.blockSize) || len > MAX_PACKET + 4
      then Opened(Malformed, [], p, packet)
      else if !c.works(p.cipherKey, p.iv) then Opened(Platform, [], p, packet)
      else
        var plain := Crypt(c, p.cipherKey, p.iv, packet[..len]);
        match Mac(c, p, plain)
        case None => Opened(Platform, [], p, packet)
        case Some(m) =>
          if m != packet[len..] then Opened(Security, [], p, packet)
          else match DecodePlain(plain)
            case None => Opened(Malformed, [], p, packet)
            case Some(payload) => Opened(Ok, payload, p.After(len), plain + packet[len..])
  }

  predicate WholeBlockCount(len: nat, blockSize: nat) {
    blockSize > 0 && len % blockSize == 0
  }

  /** A packet is accepted exactly when it is the sealing, under this state's
      counter and sequence number, of a well-formed plain packet. */
  ghost predicate Authentic(c: Crypto, p: Protection, packet: ByteString, plain: ByteString) {
    && DecodePlain(plain).Some? && c.works(p.cipherKey, p.iv)
    && |plain| >= p.blockSize && WholeBlockCount(|plain|, p.blockSize)
    && var code := c.mac(p.macKey, p.sequence, plain);
       code.Some? && |code.value| == p.macLen && packet == Crypt(c, p.cipherKey, p.iv, plain) + code.value
  }

  lemma AuthenticDecodes(c: Crypto, p: Protection, packet: ByteString, plain: ByteString)
    requires p.Valid() && Authentic(c, p, packet, plain)
    ensures var d := Decode(c, p, packet);
            d.status == Ok && d.payload == DecodePlain(plain).value && d.next == p.After(|plain|)
  {
    hide Crypt, WholeBlockCount, NextIv;
    var s := Crypt(c, p.cipherKey, p.iv, plain);
    assert packet[..|plain|] == s && packet[|plain|..] == Mac(c, p, plain).value;
    CryptTwice(c, p.cipherKey, p.iv, plain);
  }

  lemma AcceptsExactly(c: Crypto, p: Protection, packet: ByteString)
    requires p.Valid()
    ensures Decode(c, p, packet).status == Ok <==> exists plain :: Authentic(c, p, packet, plain)
  {
    hide Crypt, WholeBlockCount, NextIv;
    if Decode(c, p, packet).status == Ok {
      var len := |packet| - p.macLen;
      var plain := Crypt(c, p.cipherKey, p.iv, packet[..len]);
      CryptTwice(c, p.cipherKey, p.iv, packet[..len]);
      assert packet == packet[..len] + packet[len..];
      assert Authentic(c, p, packet, plain);
    } else if exists plain :: Authentic(c, p, packet, plain) {
      var plain :| Authentic(c, p, packet, plain);
      AuthenticDecodes(c, p, packet, plain);
    }
  }

  /** Every packet of an admissible length is the encryption of one plain packet and a
      code. It is turned down for a broken cipher or code, then for a code that is not
      the plain packet's under this sequence number, then for its framing, and whatever
      is turned down leaves the state alone. */
  lemma DecodesAs(c: Crypto, p: Protection, plain: ByteString, code: ByteString)
    requires p.Valid() && |code| == p.macLen
    requires p.blockSize <= |plain| <= MAX_PACKET + 4 && WholeBlockCount(|plain|, p.blockSize)
    ensures var d := Decode(c, p, Crypt(c, p.cipherKey, p.iv, plain) + code);
            var m := c.mac(p.macKey, p.sequence, plain);
            var broken := !c.works(p.cipherKey, p.iv) || m.None? || |m.value| != p.macLen;
            && (d.status == Platform <==> broken)
            && (d.status == Security <==> !broken && m.value != code)
            && (d.status == Malformed <==> !broken && m.value == code && DecodePlain(plain).None?)
            && (d.status == Ok <==> !broken && m.value == code && DecodePlain(plain) == Some(d.payload))
            && d.next == if d.status == Ok then p.After(|plain|) else p
  {
    hide Crypt, WholeBlockCount, NextIv, DecodePlain;
    var s := Crypt(c, p.cipherKey, p.iv, plain);
    assert (s + code)[..|plain|] == s && (s + code)[|plain|..] == code;
    CryptTwice(c, p.cipherKey, p.iv, plain);
  }

  /** What one side seals the other opens, and both end in the same state. */
  lemma RoundTrip(c: Crypto, p: Protection, payload: ByteString, capacity: nat, rng: Rng)
    requires p.Valid() && p.blockSize <= MAX_BLOCK
    requires Encode(c, p, payload, capacity, rng).status == Ok
    ensures var e := Encode(c, p, payload, capacity, rng);
            var d := Decode(c, p, e.wire);
            d.status == Ok && d.payload == payload && d.next == e.next
  {
    hide Crypt, EncodePlain, DecodePlain, NextIv;
    var plain := EncodePlain(payload, p.blockSize, capacity, rng).bytes;
    EncodedDecodes(payload, p.blockSize, capacity, rng);
    DividesIff(p.blockSize, |plain|);
    AuthenticDecodes(c, p, Encode(c, p, payload, capacity, rng).wire, plain);
  }
}

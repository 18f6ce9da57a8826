/** Sending and receiving one packet: the packet buffer on the stack of the transport,
    the in-place procedures, and the peek at the length. */
module PacketIo {
  import opened Bytes
  import opened PacketProtection
  import opened PacketStream
  import opened PacketBuffer
  import opened KeySwitch
  import Wire = WireBuffer

  method SendPacket(c: Crypto, p: Protection, item: Item) returns (e: Sealed)
    requires p.Valid()
    ensures e == Send(c, p, item)
  {
    hide EncodePlain, Crypt;
    var state := new PacketState.Resume(c, p);
    var packet := new Byte[BUFFER](_ => 0);
    var status, len := state.EncodeProtected(packet, item.payload, item.rng);
    if status != Ok { return Sealed(status, [], p); }
    var next := state.Snapshot();
    return Sealed(Ok, packet[..len], next);
  }

  /** Decrypts a copy of the first block to learn the packet's length. */
  method Peek(c: Crypto, p: Protection, stream: ByteString) returns (ok: bool, n: nat)
    requires MIN_BLOCK <= p.blockSize <= |stream|
    ensures ok == c.works(p.cipherKey, p.iv) && (ok ==> n == PeekLength(c, p, stream))
  {
    hide Crypt;
    var first := new Byte[p.blockSize](i requires 0 <= i < p.blockSize => stream[i]);
    assert first[..] == first[..p.blockSize] == stream[..p.blockSize];
    ok := CryptInPlace(c, p.cipherKey, p.iv, first, p.blockSize);
    assert first[..p.blockSize][..4] == [first[0], first[1], first[2], first[3]];
    n := Wire.Word(first[0], first[1], first[2], first[3]);
  }

  method OpenPacket(c: Crypto, p: Protection, wire: ByteString, capacity: nat)
    returns (status: Status, payload: ByteString, next: Protection)
    requires p.Valid()
    ensures var d := Decode(c, p, wire);
            && next == d.next
            && status == (if d.status == Ok && |d.payload| > capacity then TooSmall else d.status)
            && payload == if status == Ok then d.payload else []
  {
    hide Decode;
    var state := new PacketState.Resume(c, p);
    var packet := new Byte[|wire|](i requires 0 <= i < |wire| => wire[i]);
    assert packet[..] == wire;
    var len;
    status, len := state.DecodeProtected(packet);
    next := state.Snapshot();
    payload := [];
    if status != Ok { return; }
    if len > capacity { status := TooSmall; return; }
    payload := packet[5..5 + len];
  }

  method ReceivePacket(c: Crypto, p: Protection, stream: ByteString, capacity: nat) returns (r: Received)
    requires p.Valid()
    ensures r == Receive(c, p, stream, capacity)
  {
    hide Decode, PeekLength;
    if p.blockSize < MIN_BLOCK || p.blockSize > MAX_IV { return Received(InvalidArgument, [], p, stream); }
    if |stream| < p.blockSize { return Waiting; }
    var ok, n := Peek(c, p, stream);
    if !ok { return Received(Platform, [], p, stream[p.blockSize..]); }
    if n == 0 || n > MAX_PACKET { return Received(Malformed, [], p, stream[p.blockSize..]); }
    if n + 4 < p.blockSize || (n + 4) % p.blockSize != 0 {
      return Received(Malformed, [], p, stream[p.blockSize..]);
    }
    var len := n + 4 + p.macLen;
    if |stream| < len { return Waiting; }
    var status, payload, next := OpenPacket(c, p, stream[..len], capacity);
    return Received(status, payload, next, stream[len..]);
  }

  // ---- Before the first NEWKEYS ----

  method SendPlainPacket(item: Item) returns (e: Encoding)
    ensures e == EncodePlain(item.payload, MIN_BLOCK, BUFFER, item.rng)
  {
    hide Frame, PaddingLen;
    var packet := new Byte[BUFFER](_ => 0);
    var status, len := WritePlain(packet, item.payload, MIN_BLOCK, item.rng);
    if status != Ok { return Encoding(status, []); }
    return Encoding(Ok, packet[..len]);
  }

  method ReceivePlainPacket(d: Direction, stream: ByteString, capacity: nat) returns (r: Reading)
    ensures r == ReceivePlain(d, stream, capacity)
  {
    hide DecodePlain;
    if |stream| < 4 { return Incomplete; }
    assert stream[..4] == [stream[0], stream[1], stream[2], stream[3]];
    var n := Wire.Word(stream[0], stream[1], stream[2], stream[3]);
    if n == 0 || n > MAX_PACKET { return Failed(Malformed, d, stream[4..]); }
    if |stream| < n + 4 { return Incomplete; }
    var packet := new Byte[n + 4](i requires 0 <= i < n + 4 => stream[i]);
    assert packet[..] == packet[..n + 4] == stream[..n + 4];
    var status, len := ReadPlain(packet, n + 4);
    if status != Ok { return Failed(Malformed, d, stream[n + 4..]); }
    if len > capacity { return Failed(TooSmall, d, stream[n + 4..]); }
    return Reading(d.(sequence := (d.sequence + 1) % Wire.U32_LIMIT), packet[5..5 + len], stream[n + 4..]);
  }
}

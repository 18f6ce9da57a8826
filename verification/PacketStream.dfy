/** Protected packets on a connection: the receiver cuts the byte stream into
    packets by peeking at the encrypted length, and stays in step with the
    sender over any number of packets. */
module PacketStream {
  import opened Bytes
  import opened PacketCounter
  import opened PacketProtection
  import opened Positional
  import Wire = WireBuffer

  /** The transport's packet buffer. */
  const BUFFER: nat := MAX_PACKET + 4 + MAX_MAC

  // ---- The receiver ----

  datatype Received =
    | Waiting
    | Received(status: Status, payload: ByteString, next: Protection, rest: ByteString)

  /** The length field of the packet in front of the stream, from its first block. */
  function PeekLength(c: Crypto, p: Protection, stream: ByteString): nat
    requires MIN_BLOCK <= p.blockSize <= |stream|
  {
    Wire.U32Of(Crypt(c, p.cipherKey, p.iv, stream[..p.blockSize])[..4])
  }

  predicate PlausibleLength(p: Protection, n: nat) {
    && 0 < n <= MAX_PACKET
    && n + 4 >= p.blockSize
    && WholeBlockCount(n + 4, p.blockSize)
  }

  function Receive(c: Crypto, p: Protection, stream: ByteString, capacity: nat): Received {
    if p.blockSize < MIN_BLOCK || p.blockSize > MAX_IV then Received(InvalidArgument, [], p, stream)
    else if |stream| < p.blockSize then Waiting
    else if !c.works(p.cipherKey, p.iv) then Received(Platform, [], p, stream[p.blockSize..])
    else
      var n := PeekLength(c, p, stream);
      if !PlausibleLength(p, n) then Received(Malformed, [], p, stream[p.blockSize..])
      else if |stream| < n + 4 + p.macLen then Waiting
      else
        var len := n + 4 + p.macLen;
        var d := Decode(c, p, stream[..len]);
        if d.status != Ok then Received(d.status, [], d.next, stream[len..])
        else if |d.payload| > capacity then Received(TooSmall, [], d.next, stream[len..])
        else Received(Ok, d.payload, d.next, stream[len..])
  }

  /** The length read from the first block is the length field of the whole
      decrypted packet, so the second length check of the decoder cannot fail. */
  lemma PeekAgrees(c: Crypto, p: Protection, stream: ByteString)
    requires p.Valid() && p.blockSize <= |stream|
    requires PlausibleLength(p, PeekLength(c, p, stream))
    requires PeekLength(c, p, stream) + 4 <= |stream|
    ensures var len := PeekLength(c, p, stream) + 4;
            var plain := Crypt(c, p.cipherKey, p.iv, stream[..len]);
            Wire.U32Of(plain[..4]) + 4 == |plain|
  {
    hide Crypt;
    var len := PeekLength(c, p, stream) + 4;
    CryptPrefix(c, p.cipherKey, p.iv, stream, p.blockSize);
    CryptPrefix(c, p.cipherKey, p.iv, stream, len);
    var all := Crypt(c, p.cipherKey, p.iv, stream);
    assert all[..p.blockSize][..4] == all[..4] == all[..len][..4];
  }

  /** The encrypted frame of a sealed packet shows its own length. */
  lemma PeekSealed(c: Crypto, p: Protection, plain: ByteString, rest: ByteString)
    requires p.Valid() && p.blockSize <= |plain| && DecodePlain(plain).Some?
    ensures PeekLength(c, p, Crypt(c, p.cipherKey, p.iv, plain) + rest) + 4 == |plain|
  {
    hide Crypt;
    var s := Crypt(c, p.cipherKey, p.iv, plain);
    assert (s + rest)[..p.blockSize] == s[..p.blockSize];
    CryptPrefix(c, p.cipherKey, p.iv, s, p.blockSize);
    CryptTwice(c, p.cipherKey, p.iv, plain);
    assert plain[..p.blockSize][..4] == plain[..4];
  }

  /** A sealed packet in front of any bytes is received whole and alone. */
  lemma ReceiveSealed(c: Crypto, p: Protection, payload: ByteString, rng: Rng, rest: ByteString, capacity: nat)
    requires p.Valid() && p.blockSize <= MAX_IV
    requires Encode(c, p, payload, BUFFER, rng).status == Ok && |payload| <= capacity
    ensures var e := Encode(c, p, payload, BUFFER, rng);
            Receive(c, p, e.wire + rest, capacity) == Received(Ok, payload, e.next, rest)
  {
    hide Crypt, EncodePlain, DecodePlain, Decode, PeekLength;
    var plain := EncodePlain(payload, p.blockSize, BUFFER, rng).bytes;
    var e := Encode(c, p, payload, BUFFER, rng);
    var m := Mac(c, p, plain).value;
    SealedShape(c, p, payload, rng);
    assert e.wire + rest == Crypt(c, p.cipherKey, p.iv, plain) + (m + rest);
    PeekSealed(c, p, plain, m + rest);
    assert (e.wire + rest)[..|e.wire|] == e.wire && (e.wire + rest)[|e.wire|..] == rest;
    RoundTrip(c, p, payload, BUFFER, rng);
  }

  lemma SealedShape(c: Crypto, p: Protection, payload: ByteString, rng: Rng)
    requires p.Valid() && p.blockSize <= MAX_BLOCK
    requires Encode(c, p, payload, BUFFER, rng).status == Ok
    ensures var plain := EncodePlain(payload, p.blockSize, BUFFER, rng).bytes;
            && EncodePlain(payload, p.blockSize, BUFFER, rng).status == Ok
            && DecodePlain(plain) == Some(payload)
            && p.blockSize <= |plain| <= MAX_PACKET && WholeBlockCount(|plain|, p.blockSize)
            && 9 <= |plain|
            && Divides(p.blockSize, |plain|)
            && Encode(c, p, payload, BUFFER, rng).next == p.After(|plain|)
            && c.works(p.cipherKey, p.iv)
  {
    hide Crypt, NextIv;
    EncodedDecodes(payload, p.blockSize, BUFFER, rng);
    DividesIff(p.blockSize, |EncodePlain(payload, p.blockSize, BUFFER, rng).bytes|);
  }

  /** Nothing is delivered, or rejected, before the packet is complete. */
  lemma WaitsForWholePacket(c: Crypto, p: Protection, payload: ByteString, rng: Rng, n: nat, capacity: nat)
    requires p.Valid() && p.blockSize <= MAX_IV
    requires Encode(c, p, payload, BUFFER, rng).status == Ok
    requires n < |Encode(c, p, payload, BUFFER, rng).wire|
    ensures Receive(c, p, Encode(c, p, payload, BUFFER, rng).wire[..n], capacity) == Waiting
  {
    hide Crypt, EncodePlain, DecodePlain, Decode, PeekLength;
    var wire := Encode(c, p, payload, BUFFER, rng).wire;
    var plain := EncodePlain(payload, p.blockSize, BUFFER, rng).bytes;
    SealedShape(c, p, payload, rng);
    if p.blockSize <= n {
      PeekSealed(c, p, plain, Mac(c, p, plain).value);
      PeekPrefix(c, p, wire, n);
    }
  }

  lemma PeekPrefix(c: Crypto, p: Protection, stream: ByteString, n: nat)
    requires MIN_BLOCK <= p.blockSize <= n <= |stream|
    ensures PeekLength(c, p, stream[..n]) == PeekLength(c, p, stream)
  {
    assert stream[..n][..p.blockSize] == stream[..p.blockSize];
  }

  /** A packet with a plausible length is taken off the stream whole, whatever becomes of
      it: turned down it leaves the state, and one too large for the caller moves it on. */
  lemma ReceivedAs(c: Crypto, p: Protection, plain: ByteString, code: ByteString, rest: ByteString, capacity: nat)
    requires p.Valid() && p.blockSize <= MAX_IV && c.works(p.cipherKey, p.iv) && |code| == p.macLen
    requires |plain| >= 8 && Wire.U32Of(plain[..4]) + 4 == |plain| && PlausibleLength(p, |plain| - 4)
    ensures var m := c.mac(p.macKey, p.sequence, plain);
            var broken := m.None? || |m.value| != p.macLen;
            var payload := DecodePlain(plain);
            Receive(c, p, Crypt(c, p.cipherKey, p.iv, plain) + code + rest, capacity) ==
            if broken then Received(Platform, [], p, rest)
            else if m.value != code then Received(Security, [], p, rest)
            else if payload.None? then Received(Malformed, [], p, rest)
            else if |payload.value| > capacity then Received(TooSmall, [], p.After(|plain|), rest)
            else Received(Ok, payload.value, p.After(|plain|), rest)
  {
    hide Crypt, DecodePlain, Decode, PeekLength, Wire.U32Of, NextIv, WholeBlockCount;
    var s := Crypt(c, p.cipherKey, p.iv, plain);
    var stream := s + code + rest;
    assert stream == s + (code + rest);
    PeekShows(c, p, plain, code + rest);
    assert stream[..|plain| + p.macLen] == s + code && stream[|plain| + p.macLen..] == rest;
    DecodesAs(c, p, plain, code);
    DecodedNothing(c, p, s + code);
  }

  lemma DecodedNothing(c: Crypto, p: Protection, packet: ByteString)
    ensures Decode(c, p, packet).status != InvalidArgument && Decode(c, p, packet).status != TooSmall
  {
    hide Crypt, DecodePlain, NextIv, Mac;
  }

  lemma PeekShows(c: Crypto, p: Protection, plain: ByteString, rest: ByteString)
    requires p.Valid() && p.blockSize <= |plain|
    ensures PeekLength(c, p, Crypt(c, p.cipherKey, p.iv, plain) + rest) == Wire.U32Of(plain[..4])
  {
    hide Crypt, Wire.U32Of;
    var s := Crypt(c, p.cipherKey, p.iv, plain);
    assert (s + rest)[..p.blockSize] == s[..p.blockSize];
    CryptPrefix(c, p.cipherKey, p.iv, s, p.blockSize);
    CryptTwice(c, p.cipherKey, p.iv, plain);
    assert plain[..p.blockSize][..4] == plain[..4];
  }

  // ---- Any number of packets ----

  datatype Item = Item(payload: ByteString, rng: Rng)

  function Send(c: Crypto, p: Protection, item: Item): Sealed {
    Encode(c, p, item.payload, BUFFER, item.rng)
  }

  /** Sending fails only for a payload that is too long, a failing random source, a
      failing authentication code or a failing cipher. */
  lemma SendsExactly(c: Crypto, p: Protection, item: Item)
    requires p.Valid() && p.blockSize <= MAX_BLOCK
    ensures Send(c, p, item).status == Ok <==>
            && |item.payload| <= MAX_PAYLOAD && !item.rng.FailingRng?
            && Mac(c, p, PlainOf(p, item)).Some? && c.works(p.cipherKey, p.iv)
  {
    hide Crypt, NextIv, Mac, FillsBlocks;
    if |item.payload| <= MAX_PAYLOAD {
      var n := PaddingLen(|item.payload|, p.blockSize);
      assert 5 + |item.payload| + n + p.macLen <= BUFFER;
    }
  }

  /** The sender's state in front of packet k. */
  function StateAt(c: Crypto, p: Protection, items: seq<Item>, k: nat): Protection
    requires k <= |items|
  {
    if k == 0 then p else Send(c, StateAt(c, p, items, k - 1), items[k - 1]).next
  }

  ghost predicate AllSent(c: Crypto, p: Protection, items: seq<Item>) {
    forall k | 0 <= k < |items| :: Send(c, StateAt(c, p, items, k), items[k]).status == Ok
  }

  /** The bytes of packets k and later. */
  ghost function StreamFrom(c: Crypto, p: Protection, items: seq<Item>, k: nat): ByteString
    requires k <= |items|
    decreases |items| - k
  {
    if k == |items| then []
    else Send(c, StateAt(c, p, items, k), items[k]).wire + StreamFrom(c, p, items, k + 1)
  }

  /** The first k packets, one by one. */
  ghost function Wires(c: Crypto, p: Protection, items: seq<Item>, k: nat): (w: seq<ByteString>)
    requires k <= |items|
    ensures |w| == k
  {
    seq(k, i requires 0 <= i < k => Send(c, StateAt(c, p, items, i), items[i]).wire)
  }

  datatype Openings = Openings(payloads: seq<ByteString>, next: Protection)

  /** A receiver that decodes packets one after the other. */
  function OpenAll(c: Crypto, p: Protection, wires: seq<ByteString>): Option<Openings> {
    if wires == [] then Some(Openings([], p)) else
      match OpenAll(c, p, wires[..|wires| - 1])
      case None => None
      case Some(o) => OpenNext(o.payloads, Decode(c, o.next, wires[|wires| - 1]))
  }

  function OpenNext(payloads: seq<ByteString>, d: Opened): Option<Openings> {
    if d.status != Ok then None else Some(Openings(payloads + [d.payload], d.next))
  }

  lemma OpenSnoc(c: Crypto, p: Protection, wires: seq<ByteString>, wire: ByteString, o: Openings)
    requires OpenAll(c, p, wires) == Some(o)
    ensures OpenAll(c, p, wires + [wire]) == OpenNext(o.payloads, Decode(c, o.next, wire))
  {
    hide Decode;
    assert (wires + [wire])[..|wires|] == wires;
  }

  /** Sender and receiver that start with the same key, counter and sequence number are
      in the same state after every packet, and the receiver has decoded exactly the
      payloads sent, for every list of payloads and every block size up to 252. */
  lemma {:induction false} Lockstep(c: Crypto, p: Protection, items: seq<Item>, k: nat)
    requires p.Valid() && p.blockSize <= MAX_BLOCK && AllSent(c, p, items) && k <= |items|
    ensures OpenAll(c, p, Wires(c, p, items, k))
         == Some(Openings(Payloads(items)[..k], StateAt(c, p, items, k)))
  {
    hide Encode, Decode, OpenAll;
    if k == 0 {
      OpenNone(c, p);
    } else {
      Lockstep(c, p, items, k - 1);
      StateValid(c, p, items, k - 1);
      var q, item := StateAt(c, p, items, k - 1), items[k - 1];
      RoundTrip(c, q, item.payload, BUFFER, item.rng);
      OpenSnoc(c, p, Wires(c, p, items, k - 1), Send(c, q, item).wire, Openings(Payloads(items)[..k - 1], q));
      assert Wires(c, p, items, k) == Wires(c, p, items, k - 1) + [Send(c, q, item).wire];
      assert Payloads(items)[..k] == Payloads(items)[..k - 1] + [item.payload];
    }
  }

  lemma OpenNone(c: Crypto, p: Protection)
    ensures OpenAll(c, p, []) == Some(Openings([], p))
  {
  }

  datatype Delivery = Delivery(payloads: seq<ByteString>, next: Protection, rest: ByteString)

  type Receiver = (Protection, ByteString) -> Received

  function ReceiverOf(c: Crypto, capacity: nat): Receiver {
    (p, stream) => Receive(c, p, stream, capacity)
  }

  /** The receiver takes n packets off the stream. */
  function ReceiveMany(receive: Receiver, p: Protection, stream: ByteString, n: nat): Option<Delivery>
    decreases n
  {
    if n == 0 then Some(Delivery([], p, stream)) else
      match receive(p, stream)
      case Waiting => None
      case Received(status, payload, next, rest) =>
        if status != Ok then None
        else Prepend(payload, ReceiveMany(receive, next, rest, n - 1))
  }

  lemma ReceiveNone(receive: Receiver, p: Protection, stream: ByteString)
    ensures ReceiveMany(receive, p, stream, 0) == Some(Delivery([], p, stream))
  {
  }

  lemma ReceiveNext(receive: Receiver, p: Protection, stream: ByteString, n: nat,
      payload: ByteString, next: Protection, rest: ByteString)
    requires receive(p, stream) == Received(Ok, payload, next, rest)
    ensures ReceiveMany(receive, p, stream, n + 1) == Prepend(payload, ReceiveMany(receive, next, rest, n))
  {
  }

  function Prepend(payload: ByteString, d: Option<Delivery>): Option<Delivery> {
    if d.None? then None else Some(Delivery([payload] + d.value.payloads, d.value.next, d.value.rest))
  }

  ghost function Payloads(items: seq<Item>): (s: seq<ByteString>)
    ensures |s| == |items|
  {
    seq(|items|, i requires 0 <= i < |items| => items[i].payload)
  }

  lemma {:induction false} StateValid(c: Crypto, p: Protection, items: seq<Item>, k: nat)
    requires p.Valid() && k <= |items|
    ensures var q := StateAt(c, p, items, k);
            q.Valid() && q.blockSize == p.blockSize && q.macLen == p.macLen && |q.iv| == |p.iv|
            && q.cipherKey == p.cipherKey && q.macKey == p.macKey
  {
    hide Crypt, EncodePlain, NextIv;
    if k > 0 { StateValid(c, p, items, k - 1); }
  }

  lemma StreamNext(c: Crypto, p: Protection, items: seq<Item>, k: nat, rest: ByteString, capacity: nat)
    requires p.Valid() && p.blockSize <= MAX_IV && AllSent(c, p, items) && k < |items|
    requires capacity >= MAX_PAYLOAD
    ensures Receive(c, StateAt(c, p, items, k), StreamFrom(c, p, items, k) + rest, capacity)
         == Received(Ok, items[k].payload, StateAt(c, p, items, k + 1), StreamFrom(c, p, items, k + 1) + rest)
  {
    hide Encode, Receive;
    var q := StateAt(c, p, items, k);
    StateValid(c, p, items, k);
    var later := StreamFrom(c, p, items, k + 1);
    SentSmall(c, q, items[k]);
    ReceiveSealed(c, q, items[k].payload, items[k].rng, later + rest, capacity);
    assert StreamFrom(c, p, items, k) + rest == Send(c, q, items[k]).wire + (later + rest);
  }

  lemma {:induction false} LockstepFrom(
      c: Crypto, p: Protection, items: seq<Item>, k: nat, rest: ByteString, capacity: nat)
    requires p.Valid() && p.blockSize <= MAX_IV && AllSent(c, p, items) && k <= |items|
    requires capacity >= MAX_PAYLOAD
    ensures ReceiveMany(ReceiverOf(c, capacity), StateAt(c, p, items, k),
                        StreamFrom(c, p, items, k) + rest, |items| - k)
         == Some(Delivery(Payloads(items)[k..], StateAt(c, p, items, |items|), rest))
    decreases |items| - k
  {
    hide Send, Receive, ReceiveMany, StateAt, AllSent;
    var q := StateAt(c, p, items, k);
    if k == |items| {
      assert StreamFrom(c, p, items, k) + rest == rest && Payloads(items)[k..] == [];
      ReceiveNone(ReceiverOf(c, capacity), q, rest);
    } else {
      LockstepFrom(c, p, items, k + 1, rest, capacity);
      StreamNext(c, p, items, k, rest, capacity);
      ReceiveNext(ReceiverOf(c, capacity), q, StreamFrom(c, p, items, k) + rest, |items| - k - 1,
                  items[k].payload, StateAt(c, p, items, k + 1), StreamFrom(c, p, items, k + 1) + rest);
      assert Payloads(items)[k..] == [items[k].payload] + Payloads(items)[k + 1..];
    }
  }

  lemma SentSmall(c: Crypto, p: Protection, item: Item)
    requires Send(c, p, item).status == Ok
    ensures |item.payload| <= MAX_PAYLOAD
  {
    hide Crypt, PaddingLen;
  }

  /** The same off a connection, for the block sizes the transport reads: the receiver
      cuts the stream into the packets that were sent and leaves what follows them. */
  lemma StreamLockstep(c: Crypto, p: Protection, items: seq<Item>, rest: ByteString, capacity: nat)
    requires p.Valid() && p.blockSize <= MAX_IV && AllSent(c, p, items)
    requires capacity >= MAX_PAYLOAD
    ensures ReceiveMany(ReceiverOf(c, capacity), p, StreamFrom(c, p, items, 0) + rest, |items|)
         == Some(Delivery(Payloads(items), StateAt(c, p, items, |items|), rest))
  {
    hide Encode, Receive;
    LockstepFrom(c, p, items, 0, rest, capacity);
    assert Payloads(items)[0..] == Payloads(items);
  }

  // ---- Sequence numbers and counters ----

  function PlainOf(p: Protection, item: Item): ByteString {
    EncodePlain(item.payload, p.blockSize, BUFFER, item.rng).bytes
  }

  /** Blocks of keystream each packet takes. */
  ghost function BlockCounts(p: Protection, items: seq<Item>): (s: seq<nat>)
    requires p.iv != []
    ensures |s| == |items|
  {
    seq(|items|, i requires 0 <= i < |items| => Blocks(|PlainOf(p, items[i])|, |p.iv|))
  }

  lemma StateStep(c: Crypto, p: Protection, items: seq<Item>, k: nat)
    requires p.Valid() && p.blockSize <= MAX_BLOCK && AllSent(c, p, items) && k < |items|
    ensures StateAt(c, p, items, k + 1) == StateAt(c, p, items, k).After(|PlainOf(p, items[k])|)
    ensures 0 < |PlainOf(p, items[k])| && |StateAt(c, p, items, k).iv| == |p.iv|
  {
    hide EncodePlain, Encode, NextIv, DecodePlain;
    StateValid(c, p, items, k);
    SealedShape(c, StateAt(c, p, items, k), items[k].payload, items[k].rng);
  }

  lemma SuccMod(x: nat)
    ensures (x % Wire.U32_LIMIT + 1) % Wire.U32_LIMIT == (x + 1) % Wire.U32_LIMIT
  {
  }

  /** Packet k carries sequence number start + k modulo 2^32, and its keystream
      starts at the counter the earlier packets left, so that two packets never share
      a keystream block before the counter wraps (PacketCounter.BlocksDisjoint). */
  lemma {:induction false} PacketPosition(c: Crypto, p: Protection, items: seq<Item>, k: nat)
    requires p.Valid() && p.blockSize <= MAX_BLOCK && p.iv != [] && AllSent(c, p, items) && k <= |items|
    ensures StateAt(c, p, items, k).sequence == (p.sequence + k) % Wire.U32_LIMIT
    ensures StateAt(c, p, items, k).iv == CounterAt(p.iv, BlockCounts(p, items), k)
  {
    hide PlainOf, Advance, StateAt, AllSent, Blocks;
    StateNone(c, p, items);
    if k > 0 {
      PacketPosition(c, p, items, k - 1);
      StateStep(c, p, items, k - 1);
      SuccMod(p.sequence + (k - 1));
    }
  }

  lemma StateNone(c: Crypto, p: Protection, items: seq<Item>)
    ensures StateAt(c, p, items, 0) == p
  {
  }

  /** A sealed packet: the plain packet encrypted, then its code. */
  lemma SealedOnWire(c: Crypto, p: Protection, item: Item)
    requires p.Valid() && p.blockSize <= MAX_BLOCK && Send(c, p, item).status == Ok
    ensures var plain, wire := PlainOf(p, item), Send(c, p, item).wire;
            && LaidOut(plain, item.payload, p.blockSize)
            && |wire| == |plain| + p.macLen
            && wire[..|plain|] == Crypt(c, p.cipherKey, p.iv, plain)
            && Some(wire[|plain|..]) == c.mac(p.macKey, p.sequence, plain)
  {
    hide EncodePlain, Crypt, LaidOut, NextIv;
    EncodedLayout(item.payload, p.blockSize, BUFFER, item.rng);
  }

  /** Byte r of block j is added to byte r of the keystream of counter j. */
  lemma CryptAt(c: Crypto, key: ByteString, iv: ByteString, data: ByteString, j: nat, r: nat)
    requires r < |iv| && j * |iv| + r < |data|
    ensures Crypt(c, key, iv, data)[j * |iv| + r] == Xor(data[j * |iv| + r], c.keystream(key, Advance(iv, j), r))
  {
    hide Xor, Advance;
    DivModUnique(j * |iv| + r, |iv|, j, r);
  }

  /** Packet k on the wire: its plain packet, encrypted from the counter its predecessors
      left, and then the code of the plain packet under sequence number start + k
      modulo 2^32. */
  lemma PacketOnWire(c: Crypto, p: Protection, items: seq<Item>, k: nat)
    requires p.Valid() && p.blockSize <= MAX_BLOCK && p.iv != [] && AllSent(c, p, items) && k < |items|
    ensures var plain, wire := PlainOf(p, items[k]), Send(c, StateAt(c, p, items, k), items[k]).wire;
            && LaidOut(plain, items[k].payload, p.blockSize)
            && |wire| == |plain| + p.macLen
            && wire[..|plain|] == Crypt(c, p.cipherKey, CounterAt(p.iv, BlockCounts(p, items), k), plain)
            && Some(wire[|plain|..]) == c.mac(p.macKey, (p.sequence + k) % 0x1_0000_0000, plain)
  {
    hide EncodePlain, StateAt, LaidOut, CounterAt, Encode, Crypt;
    StateValid(c, p, items, k);
    PacketPosition(c, p, items, k);
    SealedOnWire(c, StateAt(c, p, items, k), items[k]);
  }

  /** The plain packets from k on, and their ciphertexts without the codes. */
  ghost function PlainFrom(p: Protection, items: seq<Item>, k: nat): ByteString
    requires k <= |items|
    decreases |items| - k
  {
    if k == |items| then [] else PlainOf(p, items[k]) + PlainFrom(p, items, k + 1)
  }

  ghost function CipherFrom(c: Crypto, p: Protection, items: seq<Item>, k: nat): ByteString
    requires k <= |items|
    decreases |items| - k
  {
    if k == |items| then [] else
      var q := StateAt(c, p, items, k);
      Crypt(c, q.cipherKey, q.iv, PlainOf(p, items[k])) + CipherFrom(c, p, items, k + 1)
  }

  /** When the cipher's block divides the packet block, as it does for aes128-ctr,
      the packets together are one counter-mode encryption of the whole stream. */
  lemma {:induction false} OneEncryption(c: Crypto, p: Protection, items: seq<Item>, k: nat)
    requires p.Valid() && p.blockSize <= MAX_BLOCK && p.iv != [] && Divides(|p.iv|, p.blockSize)
    requires AllSent(c, p, items) && k <= |items|
    ensures CipherFrom(c, p, items, k)
         == Crypt(c, p.cipherKey, StateAt(c, p, items, k).iv, PlainFrom(p, items, k))
    decreases |items| - k
  {
    hide Crypt, EncodePlain, Encode, NextIv;
    StateValid(c, p, items, k);
    if k < |items| {
      OneEncryption(c, p, items, k + 1);
      var q := StateAt(c, p, items, k);
      var plain := PlainOf(p, items[k]);
      SealedShape(c, q, items[k].payload, items[k].rng);
      DividesTrans(|p.iv|, p.blockSize, |plain|);
      CryptConcat(c, p.cipherKey, q.iv, plain, PlainFrom(p, items, k + 1));
    }
  }

  lemma DividesTrans(a: nat, b: nat, x: nat)
    requires Divides(a, b) && Divides(b, x)
    ensures Divides(a, x)
  {
    var s: nat :| s * a == b;
    var t: nat :| t * b == x;
    assert (t * s) * a == x;
  }
}

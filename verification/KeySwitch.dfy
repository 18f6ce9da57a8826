/** One direction of a connection: plain packets, then packets under the keys of
    each NEWKEYS in turn, with one sequence number through all of them
    (RFC 4253, sections 6.4 and 7.3). */
module KeySwitch {
  import opened Bytes
  import opened PacketProtection
  import opened PacketStream
  import PacketCounter
  import Wire = WireBuffer

  const U64_MAX: nat := 0xFFFF_FFFF_FFFF_FFFF
  const NEWKEYS: ByteString := [21]

  // The sizes of aes128-ctr and hmac-sha2-256, the only algorithms offered.
  const BLOCK: nat := 16
  const IV_LEN: nat := 16
  const KEY_LEN: nat := 16
  const MAC_KEY_LEN: nat := 32
  const MAC_LEN: nat := 32

  datatype Material = Material(iv: ByteString, cipherKey: ByteString, macKey: ByteString) {
    ghost predicate Valid() {
      |iv| == IV_LEN && |cipherKey| == KEY_LEN && |macKey| == MAC_KEY_LEN
    }
  }

  /** Protection once active, the sequence number, and the packets and bytes since
      the keys were set. */
  datatype Direction = Direction(protection: Option<Protection>, sequence: nat, packets: nat, bytes: nat) {
    ghost predicate Valid() {
      && sequence < Wire.U32_LIMIT && packets <= U64_MAX && bytes <= U64_MAX
      && (protection.Some? ==>
          && protection.value.Valid()
          && protection.value.blockSize == BLOCK && protection.value.macLen == MAC_LEN
          && protection.value.sequence == sequence)
    }
  }

  const FRESH: Direction := Direction(None, 0, 0, 0)

  function SaturatingAdd(a: nat, b: nat): nat {
    Min(a + b, U64_MAX)
  }

  function Recorded(d: Direction, wireLen: nat): Direction {
    d.(packets := SaturatingAdd(d.packets, 1), bytes := SaturatingAdd(d.bytes, wireLen))
  }

  /** New keys take over the running sequence number. */
  function Activated(d: Direction, m: Material): Direction {
    Direction(Some(Protection(m.cipherKey, m.iv, m.macKey, BLOCK, MAC_LEN, d.sequence)), d.sequence, 0, 0)
  }

  datatype Sending = Refused | Sending(next: Direction, wire: ByteString)

  function SendOn(c: Crypto, d: Direction, item: Item): Sending {
    match d.protection
    case None =>
      var e := EncodePlain(item.payload, MIN_BLOCK, BUFFER, item.rng);
      if e.status != Ok then Refused
      else Sending(d.(sequence := (d.sequence + 1) % Wire.U32_LIMIT), e.bytes)
    case Some(p) =>
      var e := Send(c, p, item);
      if e.status != Ok then Refused
      else Sending(Recorded(d.(protection := Some(e.next), sequence := e.next.sequence), |e.wire|), e.wire)
  }

  /** A failure has taken bytes off the stream, and one for want of room has already
      moved the protection on. */
  datatype Reading =
    | Incomplete
    | Failed(status: Status, next: Direction, rest: ByteString)
    | Reading(next: Direction, payload: ByteString, rest: ByteString)

  function ReceivePlain(d: Direction, stream: ByteString, capacity: nat): Reading {
    if |stream| < 4 then Incomplete else
      var n := Wire.U32Of(stream[..4]);
      if n == 0 || n > MAX_PACKET then Failed(Malformed, d, stream[4..])
      else if |stream| < n + 4 then Incomplete
      else match DecodePlain(stream[..n + 4])
        case None => Failed(Malformed, d, stream[n + 4..])
        case Some(payload) =>
          if |payload| > capacity then Failed(TooSmall, d, stream[n + 4..])
          else Reading(d.(sequence := (d.sequence + 1) % Wire.U32_LIMIT), payload, stream[n + 4..])
  }

  function ReceiveOn(c: Crypto, d: Direction, stream: ByteString, capacity: nat): Reading {
    match d.protection
    case None => ReceivePlain(d, stream, capacity)
    case Some(p) =>
      match Receive(c, p, stream, capacity)
      case Waiting => Incomplete
      case Received(status, payload, next, rest) =>
        if status != Ok then Failed(status, d.(protection := Some(next)), rest)
        else
          var after := d.(protection := Some(next), sequence := next.sequence);
          Reading(Recorded(after, |stream| - |rest|), payload, rest)
  }

  function WireOf(c: Crypto, d: Direction, item: Item): ByteString {
    match SendOn(c, d, item)
    case Refused => []
    case Sending(_, wire) => wire
  }

  // ---- A direction's history ----

  /** A packet, and for a NEWKEYS packet the keys set after it. */
  datatype Packet = Packet(item: Item, keys: Option<Material>) {
    ghost predicate Valid() {
      keys.Some? ==> keys.value.Valid()
    }
  }

  function Switched(d: Direction, keys: Option<Material>): Direction {
    if keys.Some? then Activated(d, keys.value) else d
  }

  function Step(c: Crypto, d: Direction, p: Packet): Direction {
    match SendOn(c, d, p.item)
    case Refused => d
    case Sending(next, _) => Switched(next, p.keys)
  }

  /** The direction in front of packet k. */
  function DirectionAt(c: Crypto, packets: seq<Packet>, k: nat): Direction
    requires k <= |packets|
  {
    if k == 0 then FRESH else Step(c, DirectionAt(c, packets, k - 1), packets[k - 1])
  }

  ghost predicate Delivered(c: Crypto, packets: seq<Packet>) {
    forall k | 0 <= k < |packets| ::
      packets[k].Valid() && SendOn(c, DirectionAt(c, packets, k), packets[k].item).Sending?
  }

  /** The number of NEWKEYS among the first k packets. */
  function KeyCount(packets: seq<Packet>, k: nat): nat
    requires k <= |packets|
  {
    if k == 0 then 0 else KeyCount(packets, k - 1) + if packets[k - 1].keys.Some? then 1 else 0
  }

  /** The keys set last among the first k packets. */
  function LatestKeys(packets: seq<Packet>, k: nat): Option<Material>
    requires k <= |packets|
  {
    if k == 0 then None
    else if packets[k - 1].keys.Some? then packets[k - 1].keys
    else LatestKeys(packets, k - 1)
  }

  /** What has passed under the current keys. */
  datatype Usage = Usage(packets: nat, blocks: nat, bytes: nat)

  const UNUSED: Usage := Usage(0, 0, 0)

  /** One more packet of a given length on the wire, its code included. */
  function Used(u: Usage, wireLen: nat): Usage {
    var encrypted := if wireLen < MAC_LEN then 0 else wireLen - MAC_LEN;
    Usage(u.packets + 1, u.blocks + Blocks(encrypted, IV_LEN), u.bytes + wireLen)
  }

  /** What has passed between the latest NEWKEYS among the first k packets and packet k. */
  function UsageAt(packets: seq<Packet>, lens: seq<nat>, k: nat): Usage
    requires k <= |packets| == |lens|
  {
    if k == 0 || packets[k - 1].keys.Some? then UNUSED else Used(UsageAt(packets, lens, k - 1), lens[k - 1])
  }

  /** A direction under given keys: cipher and authentication key are theirs, the
      counter is their initial counter advanced by the blocks used since, and the
      rekey counters are the saturated counts since. */
  ghost predicate Keyed(d: Direction, keys: Option<Material>, u: Usage) {
    match keys
    case None => d.protection == None && d.packets == 0 && d.bytes == 0
    case Some(m) => && d.protection.Some?
                    && d.protection.value.cipherKey == m.cipherKey && d.protection.value.macKey == m.macKey
                    && d.protection.value.iv == PacketCounter.Advance(m.iv, u.blocks) && |m.iv| == IV_LEN
                    && d.packets == Min(u.packets, U64_MAX) && d.bytes == Min(u.bytes, U64_MAX)
  }

  lemma SaturateTwice(a: nat, b: nat)
    ensures SaturatingAdd(Min(a, U64_MAX), b) == Min(a + b, U64_MAX)
  {
  }

  /** A protected packet of n encrypted bytes advances the counter by its blocks. */
  lemma ProtectedStep(d: Direction, next: Direction, keys: Option<Material>, u: Usage, n: nat)
    requires Keyed(d, keys, u) && d.protection.Some? && n > 0
    requires next == Recorded(
                       d.(protection := Some(d.protection.value.After(n)), sequence := next.sequence), n + MAC_LEN)
    ensures Keyed(next, keys, Used(u, n + MAC_LEN))
  {
    hide PacketCounter.Advance, Blocks;
    PacketCounter.AdvanceAdvance(keys.value.iv, u.blocks, Blocks(n, IV_LEN));
    SaturateTwice(u.packets, 1);
    SaturateTwice(u.bytes, n + MAC_LEN);
  }

  lemma SendEffect(c: Crypto, d: Direction, item: Item, keys: Option<Material>, u: Usage)
    requires d.Valid() && Keyed(d, keys, u) && SendOn(c, d, item).Sending?
    ensures var s := SendOn(c, d, item);
            && s.next.Valid() && s.next.sequence == (d.sequence + 1) % Wire.U32_LIMIT
            && Keyed(s.next, keys, Used(u, |s.wire|))
  {
    hide Encode, EncodePlain, PacketCounter.Advance, Blocks, NextIv, DecodePlain;
    if d.protection.Some? {
      SealedShape(c, d.protection.value, item.payload, item.rng);
      SealedLength(c, d.protection.value, item);
      var n := |EncodePlain(item.payload, BLOCK, BUFFER, item.rng).bytes|;
      ProtectedStep(d, SendOn(c, d, item).next, keys, u, n);
    }
  }

  lemma SealedLength(c: Crypto, p: Protection, item: Item)
    requires Send(c, p, item).status == Ok
    ensures |Send(c, p, item).wire| == |EncodePlain(item.payload, p.blockSize, BUFFER, item.rng).bytes| + p.macLen
  {
    hide Crypt, EncodePlain;
  }

  /** The lengths of the packets on the wire. */
  ghost function WireLens(c: Crypto, packets: seq<Packet>): (r: seq<nat>)
    ensures |r| == |packets|
  {
    seq(|packets|, i requires 0 <= i < |packets| => |WireOf(c, DirectionAt(c, packets, i), packets[i].item)|)
  }

  /** Packet k travels under sequence number k modulo 2^32, whatever keys were set
      before it, and under the keys of the latest NEWKEYS strictly before it: plain if
      there was none, and never under the keys its own NEWKEYS announces. */
  lemma {:induction false} PacketUnder(c: Crypto, packets: seq<Packet>, k: nat)
    requires Delivered(c, packets) && k <= |packets|
    ensures var d := DirectionAt(c, packets, k);
            && d.Valid() && d.sequence == k % Wire.U32_LIMIT
            && Keyed(d, LatestKeys(packets, k), UsageAt(packets, WireLens(c, packets), k))
  {
    hide SendOn, Keyed, Used;
    if k == 0 {
      FreshUnkeyed(UNUSED);
    } else {
      PacketUnder(c, packets, k - 1);
      var d, p := DirectionAt(c, packets, k - 1), packets[k - 1];
      var lens := WireLens(c, packets);
      SendEffect(c, d, p.item, LatestKeys(packets, k - 1), UsageAt(packets, lens, k - 1));
      SuccMod(k - 1);
      if p.keys.Some? { ActivatedKeyed(SendOn(c, d, p.item).next, p.keys.value); }
    }
  }

  lemma FreshUnkeyed(u: Usage)
    ensures Keyed(FRESH, None, u)
  {
  }

  lemma ActivatedKeyed(d: Direction, m: Material)
    requires d.Valid() && m.Valid()
    ensures Activated(d, m).Valid() && Keyed(Activated(d, m), Some(m), UNUSED)
  {
    PacketCounter.AdvanceNone(m.iv);
  }

  // ---- The receiving end ----

  /** The receiver of a direction's packets, switching keys after the same ones. */
  function Accept(c: Crypto, d: Direction, stream: ByteString, keys: Option<Material>, capacity: nat): Reading {
    match ReceiveOn(c, d, stream, capacity)
    case Reading(next, payload, rest) => Reading(Switched(next, keys), payload, rest)
    case other => other
  }

  lemma PlainRoundTrip(d: Direction, item: Item, rest: ByteString, capacity: nat)
    requires EncodePlain(item.payload, MIN_BLOCK, BUFFER, item.rng).status == Ok && |item.payload| <= capacity
    ensures ReceivePlain(d, EncodePlain(item.payload, MIN_BLOCK, BUFFER, item.rng).bytes + rest, capacity)
         == Reading(d.(sequence := (d.sequence + 1) % Wire.U32_LIMIT), item.payload, rest)
  {
    hide EncodePlain;
    var b := EncodePlain(item.payload, MIN_BLOCK, BUFFER, item.rng).bytes;
    EncodedDecodes(item.payload, MIN_BLOCK, BUFFER, item.rng);
    assert (b + rest)[..4] == b[..4];
    assert (b + rest)[..|b|] == b && (b + rest)[|b|..] == rest;
  }

  /** What one end sends the other end receives, and both ends of the direction are
      again in the same state, rekey counters included. */
  lemma SendReceive(c: Crypto, d: Direction, item: Item, rest: ByteString, capacity: nat)
    requires d.Valid() && SendOn(c, d, item).Sending? && capacity >= MAX_PAYLOAD
    ensures var s := SendOn(c, d, item);
            ReceiveOn(c, d, s.wire + rest, capacity) == Reading(s.next, item.payload, rest)
  {
    hide EncodePlain, Encode, Receive, ReceivePlain;
    if d.protection.None? {
      PlainSmall(item);
      PlainRoundTrip(d, item, rest, capacity);
    } else {
      var p := d.protection.value;
      SentSmall(c, p, item);
      ReceiveSealed(c, p, item.payload, item.rng, rest, capacity);
    }
  }

  lemma PlainSmall(item: Item)
    requires EncodePlain(item.payload, MIN_BLOCK, BUFFER, item.rng).status == Ok
    ensures |item.payload| <= MAX_PAYLOAD
  {
  }

  /** The bytes of packets k and later. */
  ghost function WireFrom(c: Crypto, packets: seq<Packet>, k: nat): ByteString
    requires k <= |packets|
    decreases |packets| - k
  {
    if k == |packets| then []
    else WireOf(c, DirectionAt(c, packets, k), packets[k].item) + WireFrom(c, packets, k + 1)
  }

  datatype Listening = Listening(direction: Direction, rest: ByteString, payloads: seq<ByteString>)

  /** A receiver that starts fresh and takes in k packets of a stream, setting the
      keys of NEWKEYS packet i right after packet i. */
  ghost function Listen(c: Crypto, stream: ByteString, packets: seq<Packet>, k: nat, capacity: nat): Option<Listening>
    requires k <= |packets|
  {
    if k == 0 then Some(Listening(FRESH, stream, [])) else
      match Listen(c, stream, packets, k - 1, capacity)
      case None => None
      case Some(l) => Hear(Accept(c, l.direction, l.rest, packets[k - 1].keys, capacity), l.payloads)
  }

  function Hear(r: Reading, heard: seq<ByteString>): Option<Listening> {
    match r
    case Reading(next, payload, rest) => Some(Listening(next, rest, heard + [payload]))
    case _ => None
  }

  ghost function PayloadsOf(packets: seq<Packet>): (s: seq<ByteString>)
    ensures |s| == |packets|
  {
    seq(|packets|, i requires 0 <= i < |packets| => packets[i].item.payload)
  }

  lemma WireStep(c: Crypto, packets: seq<Packet>, k: nat, rest: ByteString)
    requires k < |packets|
    ensures WireFrom(c, packets, k) + rest
         == WireOf(c, DirectionAt(c, packets, k), packets[k].item) + (WireFrom(c, packets, k + 1) + rest)
  {
    hide WireOf, DirectionAt;
  }

  lemma AcceptStep(c: Crypto, packets: seq<Packet>, k: nat, rest: ByteString, capacity: nat)
    requires k < |packets| && Delivered(c, packets) && capacity >= MAX_PAYLOAD
    ensures Accept(c, DirectionAt(c, packets, k), WireFrom(c, packets, k) + rest, packets[k].keys, capacity)
         == Reading(DirectionAt(c, packets, k + 1), packets[k].item.payload, WireFrom(c, packets, k + 1) + rest)
  {
    hide SendOn, ReceiveOn, WireFrom;
    PacketUnder(c, packets, k);
    WireStep(c, packets, k, rest);
    SendReceive(c, DirectionAt(c, packets, k), packets[k].item, WireFrom(c, packets, k + 1) + rest, capacity);
  }

  /** Over every sequence of packets and key changes the receiver has heard exactly
      what was sent, stands where the sender stood, and has consumed exactly the
      bytes of those packets. */
  lemma {:induction false} BothEndsAgree(
      c: Crypto, packets: seq<Packet>, rest: ByteString, k: nat, capacity: nat)
    requires Delivered(c, packets) && k <= |packets| && capacity >= MAX_PAYLOAD
    ensures Listen(c, WireFrom(c, packets, 0) + rest, packets, k, capacity)
         == Some(Listening(DirectionAt(c, packets, k), WireFrom(c, packets, k) + rest, PayloadsOf(packets)[..k]))
  {
    hide Step, Accept, WireFrom, Delivered;
    if k > 0 {
      BothEndsAgree(c, packets, rest, k - 1, capacity);
      AcceptStep(c, packets, k - 1, rest, capacity);
      assert PayloadsOf(packets)[..k] == PayloadsOf(packets)[..k - 1] + [packets[k - 1].item.payload];
    }
  }

  // ---- One packet more ----

  lemma {:induction false} PrefixSame(c: Crypto, packets: seq<Packet>, p: Packet, k: nat)
    requires k <= |packets|
    ensures DirectionAt(c, packets + [p], k) == DirectionAt(c, packets, k)
    ensures KeyCount(packets + [p], k) == KeyCount(packets, k)
    ensures LatestKeys(packets + [p], k) == LatestKeys(packets, k)
  {
    hide Step;
    if k > 0 { PrefixSame(c, packets, p, k - 1); }
  }

  lemma DeliveredSnoc(c: Crypto, packets: seq<Packet>, p: Packet)
    requires Delivered(c, packets) && p.Valid()
    requires SendOn(c, DirectionAt(c, packets, |packets|), p.item).Sending?
    ensures Delivered(c, packets + [p])
    ensures DirectionAt(c, packets + [p], |packets| + 1)
         == Switched(SendOn(c, DirectionAt(c, packets, |packets|), p.item).next, p.keys)
  {
    hide SendOn;
    forall k | 0 <= k <= |packets|
      ensures DirectionAt(c, packets + [p], k) == DirectionAt(c, packets, k)
    {
      PrefixSame(c, packets, p, k);
    }
  }

  lemma {:induction false} WireSnoc(c: Crypto, packets: seq<Packet>, p: Packet, k: nat)
    requires k <= |packets|
    ensures WireFrom(c, packets + [p], k)
         == WireFrom(c, packets, k) + WireOf(c, DirectionAt(c, packets, |packets|), p.item)
    decreases |packets| - k
  {
    hide WireOf, DirectionAt;
    PrefixSame(c, packets, p, k);
    if k < |packets| {
      WireSnoc(c, packets, p, k + 1);
    } else {
      assert WireFrom(c, packets + [p], k + 1) == [];
    }
  }
}

/** What a session puts on the wire and takes off it, in the terms of RFC 4253: the
    layout of section 6, the codes of section 6.4, the keys of section 7.2 and the order
    of section 7.3. */
module SessionWire {
  import opened Bytes
  import opened PacketProtection
  import opened PacketStream
  import opened KeySwitch
  import opened Transport
  import opened ExchangeHash
  import PacketCounter

  // ---- Keys ----

  /** The keys of an exchange under three letters, the initial counter advanced. */
  ghost predicate Derived(
      b: Backend, x: Exchange, id: ByteString, iv: char, cipher: char, mac: char, p: Protection, blocks: nat)
  {
    && b.derive(x.secret, x.hash, id, cipher, 16) == Some(p.cipherKey)
    && b.derive(x.secret, x.hash, id, mac, 32) == Some(p.macKey)
    && var first := b.derive(x.secret, x.hash, id, iv, 16);
       first.Some? && |first.value| == 16 && p.iv == PacketCounter.Advance(first.value, blocks)
  }

  lemma KeyedDerived(b: Backend, s: Session, n: nat, outbound: bool, d: Direction, u: Usage)
    requires 0 < n <= |s.exchanges| && s.sessionId == s.exchanges[0].hash
    requires ExchangeKeys(b, s, n, outbound).Some? && Keyed(d, ExchangeKeys(b, s, n, outbound), u)
    ensures d.protection.Some?
    ensures var x, id, p := s.exchanges[n - 1], s.exchanges[0].hash, d.protection.value;
            if outbound then Derived(b, x, id, 'B', 'D', 'F', p, u.blocks)
            else Derived(b, x, id, 'A', 'C', 'E', p, u.blocks)
  {
    hide PacketCounter.Advance;
  }

  /** Packet k goes out under the keys derived from the latest exchange announced before
      it and the first exchange's hash, with letters B, D and F and at sequence number k. */
  lemma OutboundKeys(b: Backend, incoming: ByteString, events: seq<Event>, k: nat)
    requires Run(b, incoming, events).Some? && k <= |Run(b, incoming, events).value.sent|
    ensures var s := Run(b, incoming, events).value;
            var d, n := DirectionAt(b.crypto, s.sent, k), KeyCount(s.sent, k);
            && n <= |s.exchanges| && (n == 0 ==> d.protection.None?)
            && (n > 0 ==>
                && d.protection.Some? && d.protection.value.sequence == k % 0x1_0000_0000
                && Derived(b, s.exchanges[n - 1], s.exchanges[0].hash, 'B', 'D', 'F', d.protection.value,
                           UsageAt(s.sent, WireLens(b.crypto, s.sent), k).blocks))
  {
    hide Run, DirectionAt, Derived, UsageAt, WireLens, KeyCount, Delivered, KeysFollow, Inv;
    RunInv(b, incoming, events);
    SentFacts(b, Run(b, incoming, events).value);
    SentUnder(b, Run(b, incoming, events).value, k);
  }

  lemma SentFacts(b: Backend, s: Session)
    requires Inv(b, s)
    ensures Delivered(b.crypto, s.sent) && KeysFollow(b, s, s.sent, true)
    ensures s.exchanges != [] ==> s.sessionId == s.exchanges[0].hash
  {
    hide Delivered, KeysFollow, InboundOk, DirectionAt, WireFrom;
  }

  lemma SentUnder(b: Backend, s: Session, k: nat)
    requires Delivered(b.crypto, s.sent) && KeysFollow(b, s, s.sent, true) && k <= |s.sent|
    requires s.exchanges != [] ==> s.sessionId == s.exchanges[0].hash
    ensures var d, n := DirectionAt(b.crypto, s.sent, k), KeyCount(s.sent, k);
            && n <= |s.exchanges| && (n == 0 ==> d.protection.None?)
            && (n > 0 ==>
                && d.protection.Some? && d.protection.value.sequence == k % 0x1_0000_0000
                && Derived(b, s.exchanges[n - 1], s.exchanges[0].hash, 'B', 'D', 'F', d.protection.value,
                           UsageAt(s.sent, WireLens(b.crypto, s.sent), k).blocks))
  {
    hide DirectionAt, Delivered, Derive, KeyCount, LatestKeys, UsageAt, Derived, WireLens, Keyed, KeysFollow,
         ExchangeKeys, PacketProtection.Protection.Valid;
    var d, u := DirectionAt(b.crypto, s.sent, k), UsageAt(s.sent, WireLens(b.crypto, s.sent), k);
    PacketUnder(b.crypto, s.sent, k);
    LatestIsExchange(b, s, s.sent, k, true);
    CountedKeys(s.sent, k);
    if KeyCount(s.sent, k) > 0 {
      KeyedDerived(b, s, KeyCount(s.sent, k), true, d, u);
    } else {
      UnkeyedIsPlain(d, u);
    }
  }

  lemma UnkeyedIsPlain(d: Direction, u: Usage)
    requires Keyed(d, None, u)
    ensures d.protection.None?
  {
  }

  /** The next packet is read under the keys of the latest exchange whose NEWKEYS has
      come in, with letters A, C and E and at its own sequence number. */
  lemma InboundKeys(b: Backend, incoming: ByteString, events: seq<Event>)
    requires Run(b, incoming, events).Some?
    ensures var s := Run(b, incoming, events).value;
            var n := KeyCount(s.received, |s.received|);
            && n <= |s.exchanges| && |s.taken| == |s.received| && (n == 0 ==> s.inbound.protection.None?)
            && (n > 0 ==>
                && s.inbound.protection.Some?
                && s.inbound.protection.value.sequence == |s.received| % 0x1_0000_0000
                && Derived(b, s.exchanges[n - 1], s.exchanges[0].hash, 'A', 'C', 'E', s.inbound.protection.value,
                           UsageAt(s.received, s.taken, |s.received|).blocks))
  {
    hide Run, OutboundOk, Derive, KeyCount, LatestKeys, UsageAt, Derived;
    RunInv(b, incoming, events);
    var s := Run(b, incoming, events).value;
    LatestIsExchange(b, s, s.received, |s.received|, false);
    CountedKeys(s.received, |s.received|);
    var n := KeyCount(s.received, |s.received|);
    if n > 0 { KeyedDerived(b, s, n, false, s.inbound, UsageAt(s.received, s.taken, |s.received|)); }
  }

  /** The rekey counters of both directions: packets and bytes since the keys were set,
      up to the largest 64-bit number, and nothing while there are none. */
  lemma CountersExact(b: Backend, incoming: ByteString, events: seq<Event>)
    requires Run(b, incoming, events).Some?
    ensures var s := Run(b, incoming, events).value;
            && |s.taken| == |s.received|
            && var out, inn := UsageAt(s.sent, WireLens(b.crypto, s.sent), |s.sent|),
                               UsageAt(s.received, s.taken, |s.received|);
               && (if KeyCount(s.sent, |s.sent|) == 0 then s.outbound.packets == s.outbound.bytes == 0
                   else s.outbound.packets == Min(out.packets, 0xFFFF_FFFF_FFFF_FFFF) &&
                        s.outbound.bytes == Min(out.bytes, 0xFFFF_FFFF_FFFF_FFFF))
               && (if KeyCount(s.received, |s.received|) == 0 then s.inbound.packets == s.inbound.bytes == 0
                   else s.inbound.packets == Min(inn.packets, 0xFFFF_FFFF_FFFF_FFFF) &&
                        s.inbound.bytes == Min(inn.bytes, 0xFFFF_FFFF_FFFF_FFFF))
  {
    hide Run, DirectionAt, Delivered, KeyCount, LatestKeys, UsageAt, KeysFollow;
    RunInv(b, incoming, events);
    var s := Run(b, incoming, events).value;
    PacketUnder(b.crypto, s.sent, |s.sent|);
    CountedKeys(s.sent, |s.sent|);
    CountedKeys(s.received, |s.received|);
  }

  /** An exchange is the hash of an input that has the fields of its transcript, and the
      transcript's secret. */
  ghost predicate Hashed(b: Backend, x: Exchange, t: Transcript) {
    x.secret == t.sharedSecret && exists input :: HasFields(input, t) && b.hash(input) == Some(x.hash)
  }

  lemma HashedOf(b: Backend, t: Transcript)
    requires ExchangeOf(b, t).Some?
    ensures Hashed(b, ExchangeOf(b, t).value, t)
  {
    hide HasFields, HashInput;
    HashInputFields(t);
    assert HasFields(HashInput(t), t) && b.hash(HashInput(t)).Some?;
  }

  /** The exchanges of a run are those of its replies, in order. */
  lemma ExchangesAreHashed(b: Backend, incoming: ByteString, events: seq<Event>, i: nat)
    requires Run(b, incoming, events).Some? && i < |Run(b, incoming, events).value.exchanges|
    ensures i < |TranscriptsOf(events)|
    ensures Hashed(b, Run(b, incoming, events).value.exchanges[i], TranscriptsOf(events)[i])
  {
    hide Run, TranscriptsOf, ExchangeOf, Hashed;
    TranscriptHashes(b, incoming, events);
    HashedOf(b, TranscriptsOf(events)[i]);
  }

  // ---- Packets ----

  lemma PlainOnWire(c: Crypto, d: Direction, item: Item)
    requires d.protection.None? && SendOn(c, d, item).Sending?
    ensures LaidOut(WireOf(c, d, item), item.payload, 8)
  {
    hide EncodePlain, LaidOut;
    EncodedLayout(item.payload, MIN_BLOCK, BUFFER, item.rng);
  }

  lemma ProtectedOnWire(c: Crypto, d: Direction, item: Item)
    requires d.Valid() && d.protection.Some? && SendOn(c, d, item).Sending?
    ensures var p, wire := d.protection.value, WireOf(c, d, item);
            var plain := PlainOf(p, item);
            && LaidOut(plain, item.payload, 16)
            && |wire| == |plain| + 32
            && wire[..|plain|] == Crypt(c, p.cipherKey, p.iv, plain)
            && Some(wire[|plain|..]) == c.mac(p.macKey, p.sequence, plain)
  {
    hide EncodePlain, LaidOut, Crypt, Encode;
    SealedOnWire(c, d.protection.value, item);
  }

  /** Every packet of a run, as it goes out: before the first NEWKEYS laid out in blocks
      of eight, and behind one laid out in blocks of sixteen, encrypted under the derived
      key and the counters since the keys were set, and followed by the code of the plain
      packet under the derived code key and the packet's number in the whole session. */
  lemma SentOnWire(b: Backend, incoming: ByteString, events: seq<Event>, k: nat)
    requires Run(b, incoming, events).Some? && k < |Run(b, incoming, events).value.sent|
    ensures var s := Run(b, incoming, events).value;
            var d, n, item := DirectionAt(b.crypto, s.sent, k), KeyCount(s.sent, k), s.sent[k].item;
            var wire := WireOf(b.crypto, d, item);
            && s.outgoing == WireFrom(b.crypto, s.sent, 0)
            && (n == 0 ==> LaidOut(wire, item.payload, 8))
            && (n > 0 ==>
                && n <= |s.exchanges| && d.protection.Some?
                && var p := d.protection.value;
                   var plain := PlainOf(p, item);
                   && Derived(b, s.exchanges[n - 1], s.exchanges[0].hash, 'B', 'D', 'F', p,
                              UsageAt(s.sent, WireLens(b.crypto, s.sent), k).blocks)
                   && LaidOut(plain, item.payload, 16) && |wire| == |plain| + 32
                   && wire[..|plain|] == Crypt(b.crypto, p.cipherKey, p.iv, plain)
                   && Some(wire[|plain|..]) == b.crypto.mac(p.macKey, k % 0x1_0000_0000, plain))
  {
    hide Run, DirectionAt, Derive, KeyCount, LatestKeys, UsageAt, Derived, LaidOut, Crypt, SendOn, PlainOf, WireFrom,
         WireLens, InboundOk, KeysFollow;
    RunInv(b, incoming, events);
    OutboundKeys(b, incoming, events, k);
    var s := Run(b, incoming, events).value;
    var d := DirectionAt(b.crypto, s.sent, k);
    PacketUnder(b.crypto, s.sent, k);
    if d.protection.None? {
      PlainOnWire(b.crypto, d, s.sent[k].item);
    } else {
      ProtectedOnWire(b.crypto, d, s.sent[k].item);
    }
  }

  // ---- Order ----

  /** A payload that opens, continues or closes a key exchange. */
  function Number(payload: ByteString): nat {
    if payload == [] then 0 else payload[0]
  }

  /** Packet k of a direction sets keys exactly as the third of KEXINIT, KEX_ECDH_INIT and
      NEWKEYS in a row, and nothing else follows a KEXINIT. */
  ghost predicate OrderedAt(packets: seq<Packet>, k: nat)
    requires k < |packets|
  {
    var payload := packets[k].item.payload;
    && Number(payload) != 1
    && (k == 0 ==> Number(payload) == 20)
    && (k > 0 && Number(packets[k - 1].item.payload) == 20 ==> Number(payload) == 30 && packets[k].keys.None?)
    && (k > 1 && Number(packets[k - 2].item.payload) == 20 ==> payload == [21] && packets[k].keys.Some?)
    && (packets[k].keys.Some? ==> k > 1 && Number(packets[k - 2].item.payload) == 20)
  }

  ghost predicate Ordered(packets: seq<Packet>) {
    forall k | 0 <= k < |packets| :: OrderedAt(packets, k)
  }

  /** How far into an exchange the packets received have led. */
  ghost predicate Entered(s: Session) {
    var n := |s.received|;
    match s.phase
    case Started => n == 0
    case KexinitSent => n == 0
    case RekeyRequested => NumberAt(s.received, n - 2) != 20 && NumberAt(s.received, n - 1) == 20
    case Negotiated => NumberAt(s.received, n - 2) != 20 && NumberAt(s.received, n - 1) == 20
    case InitReceived => NumberAt(s.received, n - 2) == 20 && NumberAt(s.received, n - 1) == 30
    case ReplySent => NumberAt(s.received, n - 2) == 20 && NumberAt(s.received, n - 1) == 30
    case NewKeysSent => NumberAt(s.received, n - 2) == 20 && NumberAt(s.received, n - 1) == 30
    case Established => n > 2 && NumberAt(s.received, n - 1) != 20 && NumberAt(s.received, n - 2) != 20
  }

  function NumberAt(packets: seq<Packet>, k: int): nat {
    if 0 <= k < |packets| then Number(packets[k].item.payload) else 0
  }

  lemma OrderedSnoc(packets: seq<Packet>, p: Packet)
    requires Ordered(packets) && OrderedAt(packets + [p], |packets|)
    ensures Ordered(packets + [p])
  {
    forall k | 0 <= k < |packets + [p]|
      ensures OrderedAt(packets + [p], k)
    {
      if k < |packets| { assert OrderedAt(packets, k); }
    }
  }

  lemma TakenIsLast(c: Crypto, s: Session, capacity: nat, keys: Option<Material>)
    requires AfterReceive(c, s, capacity, keys).Some?
    ensures var t := AfterReceive(c, s, capacity, keys).value;
            && t.received == s.received + [Packet(Item(LastPayload(t), NoRng), keys)]
            && t.phase == s.phase
  {
    hide ReceiveOn, Consumed, Switched;
  }

  /** What a packet has to be for the place the exchange has come to. */
  ghost predicate Expected(phase: Phase, p: Packet, next: Phase) {
    var payload := p.item.payload;
    match phase
    case KexinitSent => Number(payload) == 20 && p.keys.None? && next == Negotiated
    case Negotiated => Number(payload) == 30 && p.keys.None? && next == InitReceived
    case NewKeysSent => payload == [21] && p.keys.Some? && next == Established
    case Established =>
      && p.keys.None? && Number(payload) != 1
      && next == if Number(payload) == 20 then RekeyRequested else Established
    case _ => false
  }

  lemma OrderTaken(s: Session, t: Session, p: Packet)
    requires Ordered(s.received) && Entered(s) && t.received == s.received + [p] && Expected(s.phase, p, t.phase)
    ensures Ordered(t.received) && Entered(t)
  {
    hide Ordered;
    OrderedSnoc(s.received, p);
  }

  lemma TakesExpected(b: Backend, s: Session, e: Event)
    requires Advance(b, s, e).Some? && (e.ReceiveKexinit? || e.ReceiveInit? || e.ReceiveData?)
    ensures var t := Advance(b, s, e).value;
            |t.received| == |s.received| + 1 && t.received[..|s.received|] == s.received &&
            Expected(s.phase, t.received[|s.received|], t.phase)
  {
    hide AfterReceive, Derive, ExchangeOf;
    TakenIsLast(b.crypto, s, e.capacity, None);
  }

  lemma TakesNewKeys(b: Backend, s: Session, e: Event)
    requires Advance(b, s, e).Some? && e.ReceiveNewKeys?
    ensures var t := Advance(b, s, e).value;
            |t.received| == |s.received| + 1 && t.received[..|s.received|] == s.received &&
            Expected(s.phase, t.received[|s.received|], t.phase)
  {
    hide AfterReceive, Derive, ExchangeOf;
    TakenIsLast(b.crypto, s.(sessionId := ActivationId(s).value), e.capacity, ActivationKeys(b, s, false));
  }

  lemma OrderStep(b: Backend, s: Session, e: Event)
    requires Ordered(s.received) && Entered(s) && Advance(b, s, e).Some?
    ensures var t := Advance(b, s, e).value;
            Ordered(t.received) && Entered(t)
  {
    hide Advance, Ordered, Expected;
    var t := Advance(b, s, e).value;
    if Sends(e) {
      SendLeavesReceived(b, s, e);
    } else {
      hide Entered;
      if e.ReceiveNewKeys? { TakesNewKeys(b, s, e); } else { TakesExpected(b, s, e); }
      assert t.received == s.received + [t.received[|s.received|]];
      OrderTaken(s, t, t.received[|s.received|]);
    }
  }

  lemma SendLeavesReceived(b: Backend, s: Session, e: Event)
    requires Advance(b, s, e).Some? && (e.SendKexinit? || e.SendReply? || e.SendNewKeys? || e.SendData?)
    ensures var t := Advance(b, s, e).value;
            && t.received == s.received
            && (e.SendKexinit? ==> t.phase == if s.phase == Started then KexinitSent else Negotiated)
            && (e.SendKexinit? ==> s.phase == Started || s.phase == RekeyRequested)
            && (e.SendReply? ==> s.phase == InitReceived && t.phase == ReplySent)
            && (e.SendNewKeys? ==> s.phase == ReplySent && t.phase == NewKeysSent)
            && (e.SendData? ==> s.phase == Established == t.phase)
  {
    hide SendOn, ActivationKeys, ExchangeOf;
  }

  /** In every run the server takes in key exchanges only as KEXINIT, KEX_ECDH_INIT and
      NEWKEYS in a row, sets keys at no other packet, and never goes past a DISCONNECT. */
  lemma {:induction false} ReceivedInOrder(b: Backend, incoming: ByteString, events: seq<Event>)
    requires Run(b, incoming, events).Some?
    ensures Ordered(Run(b, incoming, events).value.received)
    ensures Entered(Run(b, incoming, events).value)
  {
    hide Advance, Ordered, Entered;
    if events == [] {
      NothingReceived(incoming);
    } else {
      ReceivedInOrder(b, incoming, events[..|events| - 1]);
      OrderStep(b, Run(b, incoming, events[..|events| - 1]).value, events[|events| - 1]);
    }
  }

  lemma NothingReceived(incoming: ByteString)
    ensures Ordered(Opening(incoming).received) && Entered(Opening(incoming))
  {
  }

  predicate Sends(e: Event) {
    e.SendKexinit? || e.SendReply? || e.SendNewKeys? || e.SendData?
  }

  /** The steps of a run that send. */
  function SendsOf(events: seq<Event>): seq<Event> {
    if events == [] then [] else
      var e := events[|events| - 1];
      SendsOf(events[..|events| - 1]) + if Sends(e) then [e] else []
  }

  /** An exchange goes out as KEXINIT, reply and NEWKEYS with nothing in between. */
  ghost predicate InTurn(sends: seq<Event>, k: nat)
    requires k < |sends|
  {
    && (k == 0 ==> sends[k].SendKexinit?)
    && (k > 0 ==> (sends[k].SendReply? <==> sends[k - 1].SendKexinit?))
    && (k > 0 ==> (sends[k].SendNewKeys? <==> sends[k - 1].SendReply?))
  }

  /** The packet a sending step puts out, and whether keys are set behind it. */
  ghost predicate Puts(e: Event, p: Packet) {
    match e
    case SendNewKeys(rng) => p.item == Item([21], rng) && p.keys.Some?
    case SendKexinit(item) => p == Packet(item, None)
    case SendReply(item, _) => p == Packet(item, None)
    case SendData(item) => p == Packet(item, None)
    case _ => false
  }

  ghost predicate Sent(s: Session, sends: seq<Event>) {
    && |s.sent| == |sends|
    && forall k | 0 <= k < |sends| :: InTurn(sends, k) && Puts(sends[k], s.sent[k])
  }

  /** The latest sending step, as the phase tells it. */
  ghost predicate Reached(phase: Phase, sends: seq<Event>) {
    if phase == Started then sends == [] else
      && sends != []
      && var e := sends[|sends| - 1];
         && (phase in {KexinitSent, Negotiated, InitReceived} ==> e.SendKexinit?)
         && (phase == ReplySent ==> e.SendReply?)
         && (phase in {NewKeysSent, Established, RekeyRequested} ==> e.SendNewKeys? || e.SendData?)
  }

  lemma SendPuts(b: Backend, s: Session, e: Event)
    requires Sends(e) && Advance(b, s, e).Some?
    ensures var t := Advance(b, s, e).value;
            t.sent != [] && t.sent[..|t.sent| - 1] == s.sent && Puts(e, t.sent[|t.sent| - 1])
  {
    hide SendOn, Derive, ExchangeOf;
  }

  lemma ReceiveSendsNone(b: Backend, s: Session, e: Event, sends: seq<Event>)
    requires !Sends(e) && Advance(b, s, e).Some? && Reached(s.phase, sends)
    ensures Advance(b, s, e).value.sent == s.sent
    ensures Reached(Advance(b, s, e).value.phase, sends)
  {
    hide ReceiveOn, Derive;
  }

  lemma SendStep(b: Backend, s: Session, e: Event, sends: seq<Event>)
    requires Sends(e) && Advance(b, s, e).Some? && Sent(s, sends) && Reached(s.phase, sends)
    ensures Sent(Advance(b, s, e).value, sends + [e])
    ensures Reached(Advance(b, s, e).value.phase, sends + [e])
  {
    hide Advance, Puts, InTurn;
    SendPuts(b, s, e);
    SendLeavesReceived(b, s, e);
    var t, n := Advance(b, s, e).value, |sends|;
    TurnNext(s.phase, sends, e);
    forall k | 0 <= k <= n
      ensures InTurn(sends + [e], k) && Puts((sends + [e])[k], t.sent[k])
    {
      if k < n {
        assert InTurn(sends, k) && t.sent[..n][k] == s.sent[k];
        TurnSame(sends, e, k);
      }
    }
  }

  lemma TurnSame(sends: seq<Event>, e: Event, k: nat)
    requires k < |sends|
    ensures InTurn(sends + [e], k) == InTurn(sends, k)
  {
  }

  /** The phases let only the next step of an exchange go out. */
  lemma TurnNext(phase: Phase, sends: seq<Event>, e: Event)
    requires Reached(phase, sends)
    requires e.SendKexinit? ==> phase == Started || phase == RekeyRequested
    requires e.SendReply? ==> phase == InitReceived
    requires e.SendNewKeys? ==> phase == ReplySent
    requires e.SendData? ==> phase == Established
    requires Sends(e)
    ensures InTurn(sends + [e], |sends|)
  {
  }

  /** In every run the packets sent are those of its sending steps in order, an exchange
      goes out without anything in between, and keys are set exactly behind the payload
      of the single byte 21 that closes it. */
  lemma {:induction false} SentInOrder(b: Backend, incoming: ByteString, events: seq<Event>)
    requires Run(b, incoming, events).Some?
    ensures Sent(Run(b, incoming, events).value, SendsOf(events))
    ensures Reached(Run(b, incoming, events).value.phase, SendsOf(events))
  {
    hide Advance, Sent, Reached;
    if events == [] {
      NothingSent(incoming);
    } else {
      var shorter, e := events[..|events| - 1], events[|events| - 1];
      var s := Run(b, incoming, shorter).value;
      SentInOrder(b, incoming, shorter);
      if Sends(e) {
        SendStep(b, s, e, SendsOf(shorter));
      } else {
        ReceiveSendsNone(b, s, e, SendsOf(shorter));
        SentSame(s, Advance(b, s, e).value, SendsOf(shorter));
        assert SendsOf(events) == SendsOf(shorter);
      }
    }
  }

  lemma SentSame(s: Session, t: Session, sends: seq<Event>)
    requires Sent(s, sends) && t.sent == s.sent
    ensures Sent(t, sends)
  {
  }

  lemma NothingSent(incoming: ByteString)
    ensures Sent(Opening(incoming), []) && Reached(Opening(incoming).phase, [])
  {
  }
}

/** The transport session: first key exchange, application packets, and any number
    of key exchanges started by the peer, as a machine over its successful steps
    (RFC 4253, sections 6.4, 7.2 and 7.3). A step that fails ends the run. */
module Transport {
  import opened Bytes
  import opened PacketProtection
  import opened PacketStream
  import opened KeySwitch
  import opened ExchangeHash
  import opened Positional
  import PacketCounter
  import Wire = WireBuffer

  const MAX_HASH: nat := 64
  const KEXINIT: nat := 20
  const KEX_ECDH_INIT: nat := 30
  const DISCONNECT: nat := 1

  /** The packet primitives, the exchange hash of an input, and the key derivation:
      secret, exchange hash, session identifier, letter and length. */
  datatype Backend = Backend(
    crypto: Crypto,
    hash: ByteString -> Option<ByteString>,
    derive: (ByteString, ByteString, ByteString, char, nat) -> Option<ByteString>)

  /** What a key exchange produces. */
  datatype Exchange = Exchange(hash: ByteString, secret: ByteString)

  datatype Phase =
    | Started          // nothing sent yet
    | KexinitSent      // first exchange: our KEXINIT is out
    | RekeyRequested   // later exchange: the peer's KEXINIT is in
    | Negotiated       // both KEXINITs exchanged
    | InitReceived     // the peer's public key is in
    | ReplySent        // hash computed, reply out
    | NewKeysSent      // outbound keys switched, inbound not yet
    | Established

  /** The session, with the history of both directions and of the exchanges; taken
      holds the lengths of the packets received. */
  datatype Session = Session(
    phase: Phase, inbound: Direction, outbound: Direction,
    sessionId: ByteString, hash: ByteString, secret: ByteString,
    incoming: ByteString, outgoing: ByteString,
    sent: seq<Packet>, received: seq<Packet>, taken: seq<nat>, exchanges: seq<Exchange>)

  function Opening(incoming: ByteString): Session {
    Session(Started, FRESH, FRESH, [], [], [], incoming, [], [], [], [], [])
  }

  // ---- Key material ----

  function Letters(outbound: bool): (char, char, char) {
    if outbound then ('B', 'D', 'F') else ('A', 'C', 'E')
  }

  function Sized(m: Option<ByteString>, n: nat): (r: Option<ByteString>)
    ensures r.Some? ==> |r.value| == n
  {
    if m.Some? && |m.value| == n then m else None
  }

  function Derive(b: Backend, x: Exchange, sessionId: ByteString, outbound: bool): (r: Option<Material>)
    ensures r.Some? ==> r.value.Valid()
  {
    var (iv, cipher, mac) := Letters(outbound);
    var i := Sized(b.derive(x.secret, x.hash, sessionId, iv, IV_LEN), IV_LEN);
    var k := Sized(b.derive(x.secret, x.hash, sessionId, cipher, KEY_LEN), KEY_LEN);
    var m := Sized(b.derive(x.secret, x.hash, sessionId, mac, MAC_KEY_LEN), MAC_KEY_LEN);
    if i.Some? && k.Some? && m.Some? then Some(Material(i.value, k.value, m.value)) else None
  }

  /** The session identifier activation works with: set here only if the reply has
      not set it. */
  function ActivationId(s: Session): Option<ByteString> {
    if s.sessionId != [] then Some(s.sessionId)
    else if s.hash == [] || |s.hash| > MAX_HASH then None
    else Some(s.hash)
  }

  function ActivationKeys(b: Backend, s: Session, outbound: bool): (r: Option<Material>)
    ensures r.Some? ==> r.value.Valid()
  {
    match ActivationId(s)
    case None => None
    case Some(id) => Derive(b, Exchange(s.hash, s.secret), id, outbound)
  }

  // ---- Steps ----

  datatype Event =
    | SendKexinit(item: Item)
    | ReceiveKexinit(capacity: nat)
    | ReceiveInit(capacity: nat)
    | SendReply(item: Item, transcript: Transcript)
    | SendNewKeys(rng: Rng)
    | ReceiveNewKeys(capacity: nat)
    | SendData(item: Item)
    | ReceiveData(capacity: nat)

  /** One packet out; keys are those about to be set, for the record. */
  function Transmitted(c: Crypto, s: Session, item: Item, keys: Option<Material>): Option<Session> {
    match SendOn(c, s.outbound, item)
    case Refused => None
    case Sending(next, wire) =>
      Some(s.(outbound := next, outgoing := s.outgoing + wire, sent := s.sent + [Packet(item, keys)]))
  }

  function Consumed(before: ByteString, after: ByteString): nat {
    if |before| < |after| then 0 else |before| - |after|
  }

  /** One packet in. */
  function TakenIn(c: Crypto, s: Session, capacity: nat, keys: Option<Material>): Option<Session> {
    match ReceiveOn(c, s.inbound, s.incoming, capacity)
    case Reading(next, payload, rest) =>
      Some(s.(inbound := next, incoming := rest, received := s.received + [Packet(Item(payload, NoRng), keys)],
              taken := s.taken + [Consumed(s.incoming, rest)]))
    case _ => None
  }

  /** What a receive that fails leaves behind: an incomplete packet is left on the
      stream, a packet turned down is gone, and one too large for the caller has also
      advanced the protection, but not the session's own sequence number. */
  function Spoiled(c: Crypto, s: Session, capacity: nat): Session {
    match ReceiveOn(c, s.inbound, s.incoming, capacity)
    case Failed(_, next, rest) => s.(inbound := next, incoming := rest)
    case _ => s
  }

  function AfterSend(c: Crypto, s: Session, item: Item, keys: Option<Material>): Option<Session> {
    match Transmitted(c, s, item, keys)
    case None => None
    case Some(t) => Some(t.(outbound := Switched(t.outbound, keys)))
  }

  function AfterReceive(c: Crypto, s: Session, capacity: nat, keys: Option<Material>): Option<Session> {
    match TakenIn(c, s, capacity, keys)
    case None => None
    case Some(t) => Some(t.(inbound := Switched(t.inbound, keys)))
  }

  function Moved(s: Option<Session>, phase: Phase): Option<Session> {
    if s.None? then None else Some(s.value.(phase := phase))
  }

  predicate Numbered(payload: ByteString, id: nat) {
    payload != [] && payload[0] == id
  }

  /** The payload just received. */
  function LastPayload(s: Session): ByteString {
    if s.received == [] then [] else s.received[|s.received| - 1].item.payload
  }

  function Received(c: Crypto, s: Session, capacity: nat, id: nat, phase: Phase): Option<Session> {
    var r := AfterReceive(c, s, capacity, None);
    if r.Some? && Numbered(LastPayload(r.value), id) then Moved(r, phase) else None
  }

  /** The reply fixes the session identifier if there is none. */
  function Exchanged(s: Session, x: Exchange): Session {
    s.(hash := x.hash, secret := x.secret, sessionId := if s.sessionId == [] then x.hash else s.sessionId,
       exchanges := s.exchanges + [x])
  }

  /** The outcome of an exchange: the hash of its transcript, and the secret. */
  function ExchangeOf(b: Backend, t: Transcript): Option<Exchange> {
    if !Hashable(t) then None else
      match b.hash(HashInput(t))
      case None => None
      case Some(h) => Some(Exchange(h, t.sharedSecret))
  }

  function Replied(b: Backend, s: Session, item: Item, t: Transcript): Option<Session> {
    match ExchangeOf(b, t)
    case None => None
    case Some(x) => Moved(AfterSend(b.crypto, Exchanged(s, x), item, None), ReplySent)
  }

  function NewKeysOut(b: Backend, s: Session, rng: Rng): Option<Session> {
    var keys := ActivationKeys(b, s, true);
    if keys.None? then None
    else Moved(AfterSend(b.crypto, s.(sessionId := ActivationId(s).value), Item(NEWKEYS, rng), keys), NewKeysSent)
  }

  function NewKeysIn(b: Backend, s: Session, capacity: nat): Option<Session> {
    var keys := ActivationKeys(b, s, false);
    if keys.None? then None else
      var r := AfterReceive(b.crypto, s.(sessionId := ActivationId(s).value), capacity, keys);
      if r.Some? && LastPayload(r.value) == NEWKEYS then Moved(r, Established) else None
  }

  function DataIn(c: Crypto, s: Session, capacity: nat): Option<Session> {
    var r := AfterReceive(c, s, capacity, None);
    if r.Some? && !Numbered(LastPayload(r.value), KEXINIT) && !Numbered(LastPayload(r.value), DISCONNECT)
    then r else None
  }

  /** One successful step; None when it fails or is not the session's next one. */
  function Advance(b: Backend, s: Session, e: Event): Option<Session> {
    match e
    case SendKexinit(item) =>
      if s.phase == Started then Moved(AfterSend(b.crypto, s, item, None), KexinitSent)
      else if s.phase == RekeyRequested then Moved(AfterSend(b.crypto, s, item, None), Negotiated)
      else None
    case ReceiveKexinit(capacity) =>
      if s.phase == KexinitSent then Received(b.crypto, s, capacity, KEXINIT, Negotiated)
      else if s.phase == Established then Received(b.crypto, s, capacity, KEXINIT, RekeyRequested)
      else None
    case ReceiveInit(capacity) =>
      if s.phase == Negotiated then Received(b.crypto, s, capacity, KEX_ECDH_INIT, InitReceived) else None
    case SendReply(item, t) =>
      if s.phase == InitReceived then Replied(b, s, item, t) else None
    case SendNewKeys(rng) =>
      if s.phase == ReplySent then NewKeysOut(b, s, rng) else None
    case ReceiveNewKeys(capacity) =>
      if s.phase == NewKeysSent then NewKeysIn(b, s, capacity) else None
    case SendData(item) =>
      if s.phase == Established then AfterSend(b.crypto, s, item, None) else None
    case ReceiveData(capacity) =>
      if s.phase == Established then DataIn(b.crypto, s, capacity) else None
  }

  function Run(b: Backend, incoming: ByteString, events: seq<Event>): Option<Session> {
    if events == [] then Some(Opening(incoming)) else
      match Run(b, incoming, events[..|events| - 1])
      case None => None
      case Some(s) => Advance(b, s, events[|events| - 1])
  }

  // ---- What every run keeps ----

  ghost predicate OutboundOk(c: Crypto, s: Session) {
    && Delivered(c, s.sent)
    && s.outbound == DirectionAt(c, s.sent, |s.sent|)
    && s.outgoing == WireFrom(c, s.sent, 0)
  }

  ghost predicate InboundOk(s: Session) {
    && s.inbound.Valid()
    && s.inbound.sequence == |s.received| % Wire.U32_LIMIT
    && |s.taken| == |s.received|
    && Keyed(s.inbound, LatestKeys(s.received, |s.received|), UsageAt(s.received, s.taken, |s.received|))
  }

  /** NEWKEYS number e of a direction switches to the keys of exchange e. */
  ghost predicate KeysFollow(b: Backend, s: Session, packets: seq<Packet>, outbound: bool) {
    && KeyCount(packets, |packets|) <= |s.exchanges|
    && forall k | 0 <= k < |packets| :: KeyAt(b, s, packets, k, outbound)
  }

  ghost predicate KeyAt(b: Backend, s: Session, packets: seq<Packet>, k: nat, outbound: bool)
    requires k < |packets|
  {
    packets[k].keys.Some? ==>
      && KeyCount(packets, k) < |s.exchanges|
      && packets[k].keys == Derive(b, s.exchanges[KeyCount(packets, k)], s.sessionId, outbound)
  }

  ghost predicate CountsOk(s: Session) {
    && KeyCount(s.sent, |s.sent|) + (if s.phase == ReplySent then 1 else 0) == |s.exchanges|
    && KeyCount(s.received, |s.received|) + (if s.phase == ReplySent || s.phase == NewKeysSent then 1 else 0)
       == |s.exchanges|
    && (s.phase in {ReplySent, NewKeysSent, Established, RekeyRequested} ==> s.exchanges != [])
  }

  ghost predicate IdOk(s: Session) {
    && (s.exchanges == [] ==> s.sessionId == [] && s.hash == [])
    && (s.exchanges != [] ==>
        && s.sessionId == s.exchanges[0].hash
        && Exchange(s.hash, s.secret) == s.exchanges[|s.exchanges| - 1])
    && (s.sessionId == [] ==> |s.exchanges| <= 1)
    && (s.exchanges != [] && s.sessionId == [] ==> s.phase == ReplySent)
  }

  ghost predicate Inv(b: Backend, s: Session) {
    && OutboundOk(b.crypto, s) && InboundOk(s)
    && KeysFollow(b, s, s.sent, true) && KeysFollow(b, s, s.received, false)
    && CountsOk(s) && IdOk(s)
  }

  lemma OpeningInv(b: Backend, incoming: ByteString)
    ensures Inv(b, Opening(incoming))
  {
  }

  lemma SendKeeps(c: Crypto, s: Session, item: Item, keys: Option<Material>)
    requires OutboundOk(c, s) && (keys.Some? ==> keys.value.Valid())
    requires AfterSend(c, s, item, keys).Some?
    ensures OutboundOk(c, AfterSend(c, s, item, keys).value)
  {
    hide SendOn, WireFrom, DirectionAt, Delivered;
    DeliveredSnoc(c, s.sent, Packet(item, keys));
    WireSnoc(c, s.sent, Packet(item, keys), 0);
  }

  lemma PlainReadEffect(d: Direction, stream: ByteString, capacity: nat)
    requires ReceivePlain(d, stream, capacity).Reading?
    ensures var r := ReceivePlain(d, stream, capacity);
            r.next == d.(sequence := (d.sequence + 1) % Wire.U32_LIMIT) && |r.rest| <= |stream|
  {
    hide DecodePlain;
  }

  lemma ProtectedReadEffect(c: Crypto, p: Protection, stream: ByteString, capacity: nat) returns (n: nat)
    requires p.Valid() && p.macLen == MAC_LEN
    requires Receive(c, p, stream, capacity).Received? && Receive(c, p, stream, capacity).status == Ok
    ensures var r := Receive(c, p, stream, capacity);
            n > 0 && |r.rest| + n + MAC_LEN == |stream| && r.next == p.After(n)
  {
    hide Crypt, NextIv, DecodePlain, PeekLength, PlausibleLength, Mac, WholeBlockCount;
    n := PeekLength(c, p, stream) + 4;
  }

  lemma ReceiveEffect(c: Crypto, d: Direction, stream: ByteString, capacity: nat, keys: Option<Material>, u: Usage)
    requires d.Valid() && Keyed(d, keys, u) && ReceiveOn(c, d, stream, capacity).Reading?
    ensures var r := ReceiveOn(c, d, stream, capacity);
            && r.next.Valid() && r.next.sequence == (d.sequence + 1) % Wire.U32_LIMIT
            && |r.rest| <= |stream| && Keyed(r.next, keys, Used(u, |stream| - |r.rest|))
  {
    hide Receive, ReceivePlain, NextIv, PacketCounter.Advance, Blocks;
    if d.protection.None? {
      PlainReadEffect(d, stream, capacity);
    } else {
      var n := ProtectedReadEffect(c, d.protection.value, stream, capacity);
      ProtectedStep(d, ReceiveOn(c, d, stream, capacity).next, keys, u, n);
    }
  }

  lemma {:induction false} UsagePrefix(packets: seq<Packet>, lens: seq<nat>, p: Packet, n: nat, k: nat)
    requires k <= |packets| == |lens|
    ensures UsageAt(packets + [p], lens + [n], k) == UsageAt(packets, lens, k)
  {
    hide Used;
    if k > 0 { UsagePrefix(packets, lens, p, n, k - 1); }
  }

  lemma ReceiveKeeps(c: Crypto, s: Session, capacity: nat, keys: Option<Material>)
    requires InboundOk(s) && (keys.Some? ==> keys.value.Valid())
    requires AfterReceive(c, s, capacity, keys).Some?
    ensures InboundOk(AfterReceive(c, s, capacity, keys).value)
  {
    hide ReceiveOn, Keyed, Used, Activated;
    var n := |s.received|;
    var latest, u := LatestKeys(s.received, n), UsageAt(s.received, s.taken, n);
    ReceiveEffect(c, s.inbound, s.incoming, capacity, latest, u);
    SuccMod(n);
    var r := ReceiveOn(c, s.inbound, s.incoming, capacity);
    var p := Packet(Item(r.payload, NoRng), keys);
    PrefixSame(c, s.received, p, n);
    UsagePrefix(s.received, s.taken, p, |s.incoming| - |r.rest|, n);
    if keys.Some? {
      ActivatedKeyed(r.next, keys.value);
      ActivatedSequence(r.next, keys.value);
    }
  }

  lemma ActivatedSequence(d: Direction, m: Material)
    ensures Activated(d, m).sequence == d.sequence
  {
  }

  lemma CountSnoc(c: Crypto, packets: seq<Packet>, p: Packet)
    ensures KeyCount(packets + [p], |packets| + 1)
         == KeyCount(packets, |packets|) + if p.keys.Some? then 1 else 0
  {
    PrefixSame(c, packets, p, |packets|);
  }

  lemma KeysSnoc(b: Backend, s: Session, t: Session, packets: seq<Packet>, p: Packet, outbound: bool)
    requires KeysFollow(b, s, packets, outbound)
    requires t.exchanges == s.exchanges && t.sessionId == s.sessionId
    requires p.keys.Some? ==>
               && KeyCount(packets, |packets|) < |s.exchanges|
               && p.keys == Derive(b, s.exchanges[KeyCount(packets, |packets|)], s.sessionId, outbound)
    ensures KeysFollow(b, t, packets + [p], outbound)
  {
    hide KeyAt, KeyCount;
    CountSnoc(b.crypto, packets, p);
    forall k | 0 <= k < |packets + [p]|
      ensures KeyAt(b, t, packets + [p], k, outbound)
    {
      KeyAtSnoc(b, s, t, packets, p, k, outbound);
    }
  }

  lemma KeyAtSnoc(b: Backend, s: Session, t: Session, packets: seq<Packet>, p: Packet, k: nat, outbound: bool)
    requires k < |packets| ==> KeyAt(b, s, packets, k, outbound)
    requires t.exchanges == s.exchanges && t.sessionId == s.sessionId && k <= |packets|
    requires p.keys.Some? ==>
               && KeyCount(packets, |packets|) < |s.exchanges|
               && p.keys == Derive(b, s.exchanges[KeyCount(packets, |packets|)], s.sessionId, outbound)
    ensures KeyAt(b, t, packets + [p], k, outbound)
  {
    hide Derive, KeyCount;
    PrefixSame(b.crypto, packets, p, k);
  }

  /** A step that sends or receives one packet without new keys, and moves on. */
  lemma PlainSendKeeps(b: Backend, s: Session, item: Item, phase: Phase)
    requires Inv(b, s) && AfterSend(b.crypto, s, item, None).Some?
    requires CountsOk(s.(phase := phase)) && IdOk(s.(phase := phase))
    ensures Inv(b, AfterSend(b.crypto, s, item, None).value.(phase := phase))
  {
    hide OutboundOk, InboundOk, KeysFollow, SendOn;
    var t := AfterSend(b.crypto, s, item, None).value;
    var p := Packet(item, None);
    SendKeeps(b.crypto, s, item, None);
    KeysSnoc(b, s, t, s.sent, p, true);
    CountSnoc(b.crypto, s.sent, p);
    Relocate(b, s, s.received, t.(phase := phase), false);
    Relocate(b, t, t.sent, t.(phase := phase), true);
    PhaseFree(b.crypto, t, phase);
    InboundSame(s, t.(phase := phase));
  }

  lemma Relocate(b: Backend, s: Session, packets: seq<Packet>, t: Session, outbound: bool)
    requires KeysFollow(b, s, packets, outbound)
    requires t.exchanges == s.exchanges && t.sessionId == s.sessionId
    ensures KeysFollow(b, t, packets, outbound)
  {
    forall k | 0 <= k < |packets|
      ensures KeyAt(b, t, packets, k, outbound)
    {
      assert KeyAt(b, s, packets, k, outbound);
    }
  }

  lemma PhaseFree(c: Crypto, s: Session, phase: Phase)
    requires OutboundOk(c, s)
    ensures OutboundOk(c, s.(phase := phase))
  {
  }

  lemma InboundSame(s: Session, t: Session)
    requires InboundOk(s) && t.inbound == s.inbound && t.received == s.received && t.taken == s.taken
    ensures InboundOk(t)
  {
  }

  lemma OutboundSame(c: Crypto, s: Session, t: Session)
    requires OutboundOk(c, s) && t.outbound == s.outbound && t.sent == s.sent && t.outgoing == s.outgoing
    ensures OutboundOk(c, t)
  {
  }

  lemma PlainReceiveKeeps(b: Backend, s: Session, capacity: nat, phase: Phase)
    requires Inv(b, s) && AfterReceive(b.crypto, s, capacity, None).Some?
    requires CountsOk(s.(phase := phase)) && IdOk(s.(phase := phase))
    ensures Inv(b, AfterReceive(b.crypto, s, capacity, None).value.(phase := phase))
  {
    hide OutboundOk, InboundOk, KeysFollow, ReceiveOn;
    var t := AfterReceive(b.crypto, s, capacity, None).value;
    var p := t.received[|s.received|];
    ReceiveKeeps(b.crypto, s, capacity, None);
    KeysSnoc(b, s, t, s.received, p, false);
    CountSnoc(b.crypto, s.received, p);
    Relocate(b, s, s.sent, t.(phase := phase), true);
    Relocate(b, t, t.received, t.(phase := phase), false);
    OutboundSame(b.crypto, s, t.(phase := phase));
    InboundSame(t, t.(phase := phase));
  }

  lemma ExchangeKeepsKeys(b: Backend, s: Session, x: Exchange, packets: seq<Packet>, outbound: bool)
    requires KeysFollow(b, s, packets, outbound) && (s.sessionId == [] ==> s.exchanges == [])
    ensures KeysFollow(b, Exchanged(s, x), packets, outbound)
  {
    hide Derive;
    forall k | 0 <= k < |packets|
      ensures KeyAt(b, Exchanged(s, x), packets, k, outbound)
    {
      assert KeyAt(b, s, packets, k, outbound);
    }
  }

  lemma ReplyKeeps(b: Backend, s: Session, item: Item, x: Exchange)
    requires Inv(b, s) && s.phase == InitReceived && AfterSend(b.crypto, Exchanged(s, x), item, None).Some?
    ensures Inv(b, AfterSend(b.crypto, Exchanged(s, x), item, None).value.(phase := ReplySent))
  {
    hide OutboundOk, InboundOk, KeysFollow, SendOn;
    var u := Exchanged(s, x).(phase := ReplySent);
    ExchangeKeepsKeys(b, s, x, s.sent, true);
    ExchangeKeepsKeys(b, s, x, s.received, false);
    Relocate(b, Exchanged(s, x), s.sent, u, true);
    Relocate(b, Exchanged(s, x), s.received, u, false);
    OutboundSame(b.crypto, s, u);
    InboundSame(s, u);
    assert Inv(b, u);
    assert AfterSend(b.crypto, u, item, None).value
        == AfterSend(b.crypto, Exchanged(s, x), item, None).value.(phase := ReplySent);
    PlainSendKeeps(b, u, item, ReplySent);
  }

  /** The keys about to be set are those of the latest exchange under the session
      identifier. */
  lemma ActivationIsLatest(b: Backend, s: Session, outbound: bool)
    requires IdOk(s) && s.exchanges != [] && ActivationKeys(b, s, outbound).Some?
    ensures ActivationId(s) == Some(s.sessionId) && s.sessionId != []
    ensures ActivationKeys(b, s, outbound)
         == Derive(b, s.exchanges[|s.exchanges| - 1], s.sessionId, outbound)
  {
    hide Derive;
  }

  lemma NewKeysOutKeeps(b: Backend, s: Session, rng: Rng)
    requires Inv(b, s) && s.phase == ReplySent && NewKeysOut(b, s, rng).Some?
    ensures Inv(b, NewKeysOut(b, s, rng).value)
  {
    hide OutboundOk, InboundOk, KeysFollow, SendOn, ActivationKeys, ActivationId, Derive;
    ActivationIsLatest(b, s, true);
    var keys := ActivationKeys(b, s, true);
    var item := Item(NEWKEYS, rng);
    assert s.(sessionId := s.sessionId) == s;
    SendKeeps(b.crypto, s, item, keys);
    var t := AfterSend(b.crypto, s, item, keys).value;
    KeysSnoc(b, s, t, s.sent, Packet(item, keys), true);
    CountSnoc(b.crypto, s.sent, Packet(item, keys));
    Relocate(b, s, s.received, t.(phase := NewKeysSent), false);
    Relocate(b, t, t.sent, t.(phase := NewKeysSent), true);
    PhaseFree(b.crypto, t, NewKeysSent);
    InboundSame(s, t.(phase := NewKeysSent));
  }

  lemma NewKeysInKeeps(b: Backend, s: Session, capacity: nat)
    requires Inv(b, s) && s.phase == NewKeysSent && NewKeysIn(b, s, capacity).Some?
    ensures Inv(b, NewKeysIn(b, s, capacity).value)
  {
    hide OutboundOk, InboundOk, KeysFollow, ReceiveOn, ActivationKeys, ActivationId, Derive;
    ActivationIsLatest(b, s, false);
    var keys := ActivationKeys(b, s, false);
    assert s.(sessionId := s.sessionId) == s;
    ReceiveKeeps(b.crypto, s, capacity, keys);
    var t := AfterReceive(b.crypto, s, capacity, keys).value;
    var p := t.received[|s.received|];
    KeysSnoc(b, s, t, s.received, p, false);
    CountSnoc(b.crypto, s.received, p);
    Relocate(b, s, s.sent, t.(phase := Established), true);
    Relocate(b, t, t.received, t.(phase := Established), false);
    OutboundSame(b.crypto, s, t.(phase := Established));
    InboundSame(t, t.(phase := Established));
  }

  lemma StepKeeps(b: Backend, s: Session, e: Event)
    requires Inv(b, s) && Advance(b, s, e).Some?
    ensures Inv(b, Advance(b, s, e).value)
  {
    hide OutboundOk, InboundOk, KeysFollow, AfterSend, AfterReceive, NewKeysOut, NewKeysIn, ExchangeOf;
    match e
    case SendKexinit(item) =>
      PlainSendKeeps(b, s, item, if s.phase == Started then KexinitSent else Negotiated);
    case ReceiveKexinit(capacity) =>
      PlainReceiveKeeps(b, s, capacity, if s.phase == KexinitSent then Negotiated else RekeyRequested);
    case ReceiveInit(capacity) => PlainReceiveKeeps(b, s, capacity, InitReceived);
    case SendReply(item, t) => ReplyKeeps(b, s, item, ExchangeOf(b, t).value);
    case SendNewKeys(rng) => NewKeysOutKeeps(b, s, rng);
    case ReceiveNewKeys(capacity) => NewKeysInKeeps(b, s, capacity);
    case SendData(item) =>
      PlainSendKeeps(b, s, item, Established);
      SamePhase(b.crypto, s, item);
    case ReceiveData(capacity) =>
      PlainReceiveKeeps(b, s, capacity, Established);
      SamePhaseIn(b.crypto, s, capacity);
  }

  lemma SamePhase(c: Crypto, s: Session, item: Item)
    requires AfterSend(c, s, item, None).Some?
    ensures AfterSend(c, s, item, None).value.phase == s.phase
  {
    hide SendOn;
  }

  lemma SamePhaseIn(c: Crypto, s: Session, capacity: nat)
    requires AfterReceive(c, s, capacity, None).Some?
    ensures AfterReceive(c, s, capacity, None).value.phase == s.phase
  {
    hide ReceiveOn;
  }

  lemma {:induction false} RunInv(b: Backend, incoming: ByteString, events: seq<Event>)
    requires Run(b, incoming, events).Some?
    ensures Inv(b, Run(b, incoming, events).value)
  {
    hide Inv, Advance;
    if events == [] {
      OpeningInv(b, incoming);
    } else {
      RunInv(b, incoming, events[..|events| - 1]);
      StepKeeps(b, Run(b, incoming, events[..|events| - 1]).value, events[|events| - 1]);
    }
  }

  // ---- What that means ----

  /** Each direction's sequence number is its packet count modulo 2^32: no key
      exchange resets it, and the active protection carries the same number. */
  lemma SequenceIsPacketCount(b: Backend, incoming: ByteString, events: seq<Event>)
    requires Run(b, incoming, events).Some?
    ensures var s := Run(b, incoming, events).value;
            && s.outbound.sequence == |s.sent| % Wire.U32_LIMIT
            && s.inbound.sequence == |s.received| % Wire.U32_LIMIT
            && (s.outbound.protection.Some? ==> s.outbound.protection.value.sequence == s.outbound.sequence)
            && (s.inbound.protection.Some? ==> s.inbound.protection.value.sequence == s.inbound.sequence)
  {
    hide Run, DirectionAt, Delivered;
    RunInv(b, incoming, events);
    var s := Run(b, incoming, events).value;
    PacketUnder(b.crypto, s.sent, |s.sent|);
  }

  /** The keys of the n-th exchange, or none before the first. */
  function ExchangeKeys(b: Backend, s: Session, n: nat, outbound: bool): Option<Material>
    requires n <= |s.exchanges|
  {
    if n == 0 then None else Derive(b, s.exchanges[n - 1], s.sessionId, outbound)
  }

  lemma {:induction false} LatestIsExchange(b: Backend, s: Session, packets: seq<Packet>, k: nat, outbound: bool)
    requires KeysFollow(b, s, packets, outbound) && k <= |packets|
    ensures KeyCount(packets, k) <= |s.exchanges|
    ensures LatestKeys(packets, k) == ExchangeKeys(b, s, KeyCount(packets, k), outbound)
  {
    hide Derive;
    if k > 0 {
      LatestIsExchange(b, s, packets, k - 1, outbound);
      assert KeyAt(b, s, packets, k - 1, outbound);
    }
  }

  /** New keys apply exactly to the packets after the direction's NEWKEYS: packet k
      travels under the keys of exchange n, where n counts the NEWKEYS before it, with
      that exchange's initial counter advanced by the blocks sent since. */
  lemma KeysApplyAfterNewKeys(b: Backend, incoming: ByteString, events: seq<Event>, k: nat)
    requires Run(b, incoming, events).Some? && k <= |Run(b, incoming, events).value.sent|
    ensures var s := Run(b, incoming, events).value;
            && KeyCount(s.sent, k) <= |s.exchanges|
            && Keyed(DirectionAt(b.crypto, s.sent, k), ExchangeKeys(b, s, KeyCount(s.sent, k), true),
                     UsageAt(s.sent, WireLens(b.crypto, s.sent), k))
  {
    hide Run, DirectionAt, Delivered, Derive;
    RunInv(b, incoming, events);
    var s := Run(b, incoming, events).value;
    PacketUnder(b.crypto, s.sent, k);
    LatestIsExchange(b, s, s.sent, k, true);
  }

  /** The same for the next packet to be received. */
  lemma NextReceivedUnder(b: Backend, incoming: ByteString, events: seq<Event>)
    requires Run(b, incoming, events).Some?
    ensures var s := Run(b, incoming, events).value;
            && KeyCount(s.received, |s.received|) <= |s.exchanges|
            && |s.taken| == |s.received|
            && Keyed(s.inbound, ExchangeKeys(b, s, KeyCount(s.received, |s.received|), false),
                     UsageAt(s.received, s.taken, |s.received|))
  {
    hide Run, DirectionAt, Delivered, Derive;
    RunInv(b, incoming, events);
    var s := Run(b, incoming, events).value;
    LatestIsExchange(b, s, s.received, |s.received|, false);
  }

  /** Once established, and when the peer asks for new keys, both directions are
      protected: a peer's KEXINIT is never turned down for missing protection. */
  lemma BothProtected(b: Backend, incoming: ByteString, events: seq<Event>)
    requires Run(b, incoming, events).Some?
    ensures var s := Run(b, incoming, events).value;
            s.phase == Established || s.phase == RekeyRequested ==>
              s.outbound.protection.Some? && s.inbound.protection.Some?
  {
    hide Run, DirectionAt, Delivered;
    RunInv(b, incoming, events);
    var s := Run(b, incoming, events).value;
    PacketUnder(b.crypto, s.sent, |s.sent|);
    CountedKeys(s.sent, |s.sent|);
    CountedKeys(s.received, |s.received|);
  }

  lemma {:induction false} CountedKeys(packets: seq<Packet>, k: nat)
    requires k <= |packets|
    ensures KeyCount(packets, k) > 0 <==> LatestKeys(packets, k).Some?
  {
    if k > 0 { CountedKeys(packets, k - 1); }
  }

  /** The session identifier is the first exchange hash, in every later state too. */
  lemma {:induction false} SessionIdIsFirstHash(b: Backend, incoming: ByteString, events: seq<Event>, n: nat)
    requires Run(b, incoming, events).Some? && n <= |events|
    ensures Run(b, incoming, events[..n]).Some?
    ensures var early := Run(b, incoming, events[..n]).value;
            var late := Run(b, incoming, events).value;
            && early.exchanges <= late.exchanges
            && (early.exchanges != [] ==> early.sessionId == late.sessionId == late.exchanges[0].hash)
  {
    hide Advance, OutboundOk, InboundOk, KeysFollow;
    RunInv(b, incoming, events);
    if n == |events| {
      assert events[..n] == events;
    } else {
      var shorter := events[..|events| - 1];
      SessionIdIsFirstHash(b, incoming, shorter, n);
      assert shorter[..n] == events[..n];
      ExchangesGrow(b, Run(b, incoming, shorter).value, events[|events| - 1]);
    }
  }

  lemma ExchangesGrow(b: Backend, s: Session, e: Event)
    requires Advance(b, s, e).Some?
    ensures s.exchanges <= Advance(b, s, e).value.exchanges
  {
    hide Advance;
    ExchangesStep(b, s, e);
  }

  lemma HeardAll(c: Crypto, s: Session, rest: ByteString, capacity: nat)
    requires OutboundOk(c, s) && capacity >= MAX_PAYLOAD
    ensures Listen(c, s.outgoing + rest, s.sent, |s.sent|, capacity)
         == Some(Listening(s.outbound, rest, PayloadsOf(s.sent)))
  {
    hide DirectionAt, Delivered, Listen, WireFrom;
    BothEndsAgree(c, s.sent, rest, |s.sent|, capacity);
    WireEnd(c, s.sent);
    assert [] + rest == rest;
    assert PayloadsOf(s.sent)[..|s.sent|] == PayloadsOf(s.sent);
  }

  // ---- What a session identifier stands for ----

  /** The transcripts of the exchanges a run goes through. */
  function TranscriptsOf(events: seq<Event>): seq<Transcript> {
    if events == [] then [] else
      var e := events[|events| - 1];
      TranscriptsOf(events[..|events| - 1]) + if e.SendReply? then [e.transcript] else []
  }

  lemma {:induction false} TranscriptHashes(b: Backend, incoming: ByteString, events: seq<Event>)
    requires Run(b, incoming, events).Some?
    ensures var s, ts := Run(b, incoming, events).value, TranscriptsOf(events);
            |s.exchanges| == |ts| && forall i | 0 <= i < |ts| :: ExchangeOf(b, ts[i]) == Some(s.exchanges[i])
  {
    hide Advance, ExchangeOf;
    if events != [] {
      TranscriptHashes(b, incoming, events[..|events| - 1]);
      ExchangesStep(b, Run(b, incoming, events[..|events| - 1]).value, events[|events| - 1]);
    }
  }

  /** No two inputs have the same hash. */
  ghost predicate CollisionFree(b: Backend) {
    forall x, y :: b.hash(x).Some? && b.hash(x) == b.hash(y) ==> x == y
  }

  /** The seven strings agree, and the shared secret as a number. */
  ghost predicate SameTranscript(t: Transcript, u: Transcript) {
    t.(sharedSecret := []) == u.(sharedSecret := []) && Value(256, t.sharedSecret) == Value(256, u.sharedSecret)
  }

  lemma HashSettles(b: Backend, t: Transcript, u: Transcript)
    requires CollisionFree(b) && ExchangeOf(b, t).Some? && ExchangeOf(b, u).Some?
    ensures ExchangeOf(b, t).value.hash == ExchangeOf(b, u).value.hash <==> SameTranscript(t, u)
  {
    hide HashInput;
    HashInputUnique(t, u);
    assert b.hash(HashInput(t)).Some? && b.hash(HashInput(u)).Some?;
  }

  /** Under a collision-free hash two sessions have the same identifier exactly when
      their first exchanges had the same transcript. */
  lemma IdentifierIsTranscript(b: Backend, one: ByteString, first: seq<Event>, two: ByteString, second: seq<Event>)
    requires CollisionFree(b) && Run(b, one, first).Some? && Run(b, two, second).Some?
    requires Run(b, one, first).value.exchanges != [] && Run(b, two, second).value.exchanges != []
    ensures TranscriptsOf(first) != [] && TranscriptsOf(second) != []
    ensures Run(b, one, first).value.sessionId == Run(b, two, second).value.sessionId <==>
            SameTranscript(TranscriptsOf(first)[0], TranscriptsOf(second)[0])
  {
    hide Run, TranscriptsOf, ExchangeOf, CollisionFree, OutboundOk, InboundOk, KeysFollow, SameTranscript;
    RunInv(b, one, first);
    RunInv(b, two, second);
    TranscriptHashes(b, one, first);
    TranscriptHashes(b, two, second);
    HashSettles(b, TranscriptsOf(first)[0], TranscriptsOf(second)[0]);
  }

  /** A listening peer that switches keys after each NEWKEYS hears every payload of
      the server, in order, and ends in the server's own outbound state. */
  lemma OutboundDelivered(b: Backend, incoming: ByteString, events: seq<Event>, rest: ByteString, capacity: nat)
    requires Run(b, incoming, events).Some? && capacity >= MAX_PAYLOAD
    ensures var s := Run(b, incoming, events).value;
            Listen(b.crypto, s.outgoing + rest, s.sent, |s.sent|, capacity)
            == Some(Listening(s.outbound, rest, PayloadsOf(s.sent)))
  {
    hide Run, OutboundOk, Listen;
    RunInv(b, incoming, events);
    HeardAll(b.crypto, Run(b, incoming, events).value, rest, capacity);
  }

  // ---- The other direction ----

  /** Where a peer stands in the order of RFC 4253: a key exchange is KEXINIT,
      KEX_ECDH_INIT, NEWKEYS in a row, and other messages come between exchanges. */
  datatype Stage = Greeting | Awaiting | Switching | Open | Broken

  function NextStage(stage: Stage, payload: ByteString): Stage {
    match stage
    case Greeting => if Numbered(payload, KEXINIT) then Awaiting else Broken
    case Awaiting => if Numbered(payload, KEX_ECDH_INIT) then Switching else Broken
    case Switching => if payload == NEWKEYS then Open else Broken
    case Open => if Numbered(payload, KEXINIT) then Awaiting
                 else if payload == NEWKEYS then Broken
                 else Open
    case Broken => Broken
  }

  function StageAt(peer: seq<Packet>, k: nat): Stage
    requires k <= |peer|
  {
    if k == 0 then Greeting else NextStage(StageAt(peer, k - 1), peer[k - 1].item.payload)
  }

  /** A peer that keeps the order, and after its e-th NEWKEYS sets the keys of exchange
      e under the first exchange hash. */
  ghost predicate ConformsAt(b: Backend, peer: seq<Packet>, exchanges: seq<Exchange>, k: nat)
    requires k < |peer|
  {
    && StageAt(peer, k + 1) != Broken
    && (peer[k].keys.Some? <==> StageAt(peer, k) == Switching)
    && (peer[k].keys.Some? && KeyCount(peer, k) < |exchanges| ==>
        peer[k].keys == Derive(b, exchanges[KeyCount(peer, k)], exchanges[0].hash, false))
  }

  ghost predicate Conforming(b: Backend, peer: seq<Packet>, exchanges: seq<Exchange>) {
    forall k | 0 <= k < |peer| :: ConformsAt(b, peer, exchanges, k)
  }

  function StageOf(phase: Phase): Stage {
    match phase
    case Started => Greeting
    case KexinitSent => Greeting
    case RekeyRequested => Awaiting
    case Negotiated => Awaiting
    case InitReceived => Switching
    case ReplySent => Switching
    case NewKeysSent => Switching
    case Established => Open
  }

  /** The server has taken in exactly the first packets of the peer, and stands where
      the peer stood after them. */
  ghost predicate InStep(c: Crypto, s: Session, peer: seq<Packet>) {
    && |s.received| <= |peer|
    && s.inbound == DirectionAt(c, peer, |s.received|)
    && s.incoming == WireFrom(c, peer, |s.received|)
    && forall k | 0 <= k < |s.received| :: SamePacket(s.received[k], peer[k])
  }

  ghost predicate SamePacket(p: Packet, q: Packet) {
    p.item.payload == q.item.payload && p.keys == q.keys
  }

  lemma CapacityIrrelevant(c: Crypto, d: Direction, stream: ByteString, m: nat, n: nat)
    requires ReceiveOn(c, d, stream, m).Reading? && ReceiveOn(c, d, stream, n).Reading?
    ensures ReceiveOn(c, d, stream, m) == ReceiveOn(c, d, stream, n)
  {
    hide Decode, PeekLength, PlausibleLength, DecodePlain;
  }

  lemma NothingToReceive(c: Crypto, d: Direction, capacity: nat)
    requires d.Valid()
    ensures ReceiveOn(c, d, [], capacity) == Incomplete
  {
  }

  /** Reading the peer's packet n gives its payload and leads to its next state. */
  lemma PeerReading(c: Crypto, peer: seq<Packet>, n: nat, capacity: nat)
    requires Delivered(c, peer) && n < |peer|
    requires ReceiveOn(c, DirectionAt(c, peer, n), WireFrom(c, peer, n), capacity).Reading?
    ensures var r := ReceiveOn(c, DirectionAt(c, peer, n), WireFrom(c, peer, n), capacity);
            && Switched(r.next, peer[n].keys) == DirectionAt(c, peer, n + 1)
            && r.payload == peer[n].item.payload && r.rest == WireFrom(c, peer, n + 1)
  {
    hide ReceiveOn, DirectionAt, WireFrom, Delivered, Switched;
    AcceptStep(c, peer, n, [], MAX_PAYLOAD);
    AssertEmptyRest(c, peer, n);
    CapacityIrrelevant(c, DirectionAt(c, peer, n), WireFrom(c, peer, n), capacity, MAX_PAYLOAD);
  }

  lemma PeerStep(c: Crypto, s: Session, capacity: nat, keys: Option<Material>, peer: seq<Packet>)
    requires Delivered(c, peer) && InStep(c, s, peer) && AfterReceive(c, s, capacity, keys).Some?
    requires |s.received| < |peer| ==> keys == peer[|s.received|].keys
    ensures InStep(c, AfterReceive(c, s, capacity, keys).value, peer)
    ensures |s.received| < |peer|
  {
    hide ReceiveOn, DirectionAt, WireFrom, Delivered, Switched;
    var n := |s.received|;
    if n == |peer| {
      PacketUnder(c, peer, n);
      WireEnd(c, peer);
      NothingToReceive(c, s.inbound, capacity);
    } else {
      PeerReading(c, peer, n, capacity);
    }
  }

  lemma WireEnd(c: Crypto, peer: seq<Packet>)
    ensures WireFrom(c, peer, |peer|) == []
  {
  }

  lemma AssertEmptyRest(c: Crypto, peer: seq<Packet>, n: nat)
    requires n < |peer|
    ensures WireFrom(c, peer, n) + [] == WireFrom(c, peer, n)
    ensures WireFrom(c, peer, n + 1) + [] == WireFrom(c, peer, n + 1)
  {
    hide WireFrom;
  }

  lemma {:induction false} SameCounts(received: seq<Packet>, peer: seq<Packet>, k: nat)
    requires k <= |received| <= |peer| && forall i | 0 <= i < |received| :: SamePacket(received[i], peer[i])
    ensures KeyCount(received, k) == KeyCount(peer, k)
  {
    if k > 0 {
      SameCounts(received, peer, k - 1);
      assert SamePacket(received[k - 1], peer[k - 1]);
    }
  }

  /** The server is in step and its phase matches the peer's stage. */
  ghost predicate Agreed(c: Crypto, s: Session, peer: seq<Packet>) {
    InStep(c, s, peer) && StageAt(peer, |s.received|) == StageOf(s.phase)
  }

  lemma AgreedTakes(b: Backend, s: Session, t: Session, capacity: nat, keys: Option<Material>, peer: seq<Packet>)
    requires Agreed(b.crypto, s, peer) && Delivered(b.crypto, peer)
    requires AfterReceive(b.crypto, s, capacity, keys).Some?
    requires |s.received| < |peer| ==> keys == peer[|s.received|].keys
    requires t == AfterReceive(b.crypto, s, capacity, keys).value.(phase := t.phase)
    requires NextStage(StageOf(s.phase), LastPayload(t)) == StageOf(t.phase)
    ensures Agreed(b.crypto, t, peer)
  {
    hide AfterReceive, DirectionAt, WireFrom, Delivered, NextStage;
    var r := AfterReceive(b.crypto, s, capacity, keys).value;
    PeerStep(b.crypto, s, capacity, keys, peer);
    ReceivedGrow(b.crypto, s, capacity, keys);
    assert SamePacket(r.received[|s.received|], peer[|s.received|]);
  }

  lemma ReceivedGrow(c: Crypto, s: Session, capacity: nat, keys: Option<Material>)
    requires AfterReceive(c, s, capacity, keys).Some?
    ensures |AfterReceive(c, s, capacity, keys).value.received| == |s.received| + 1
  {
    hide ReceiveOn;
  }

  /** Outside its third step an exchange sets no keys. */
  lemma NoKeysYet(b: Backend, s: Session, peer: seq<Packet>, exchanges: seq<Exchange>)
    requires Agreed(b.crypto, s, peer) && Conforming(b, peer, exchanges) && StageOf(s.phase) != Switching
    ensures |s.received| < |peer| ==> peer[|s.received|].keys == None
  {
    hide DirectionAt, WireFrom, StageAt, Derive;
    if |s.received| < |peer| { assert ConformsAt(b, peer, exchanges, |s.received|); }
  }

  /** In its third step both ends set the keys of the same exchange. */
  lemma BothSwitch(b: Backend, s: Session, peer: seq<Packet>, exchanges: seq<Exchange>)
    requires Inv(b, s) && Agreed(b.crypto, s, peer) && Conforming(b, peer, exchanges)
    requires s.phase == NewKeysSent && s.exchanges <= exchanges && ActivationKeys(b, s, false).Some?
    ensures |s.received| < |peer| ==> ActivationKeys(b, s, false) == peer[|s.received|].keys
  {
    hide DirectionAt, WireFrom, StageAt, Derive, OutboundOk, InboundOk, KeysFollow, ActivationKeys, ActivationId;
    ActivationIsLatest(b, s, false);
    if |s.received| < |peer| {
      assert ConformsAt(b, peer, exchanges, |s.received|);
      SameCounts(s.received, peer, |s.received|);
    }
  }

  /** A received payload that leads on in the machine leads on in the order. */
  lemma StageMoves(s: Session, peer: seq<Packet>, b: Backend, exchanges: seq<Exchange>, payload: ByteString)
    requires Agreed(b.crypto, s, peer) && Conforming(b, peer, exchanges)
    requires |s.received| < |peer| && payload == peer[|s.received|].item.payload
    ensures NextStage(StageOf(s.phase), payload) != Broken
  {
    hide DirectionAt, WireFrom, NextStage, Derive;
    assert ConformsAt(b, peer, exchanges, |s.received|);
  }

  /** The exchanges a run goes through. */
  function ExchangesOf(b: Backend, events: seq<Event>): seq<Exchange> {
    if events == [] then [] else ExchangesOf(b, events[..|events| - 1]) + NewExchange(b, events[|events| - 1])
  }

  function NewExchange(b: Backend, e: Event): seq<Exchange> {
    if !e.SendReply? then [] else
      match ExchangeOf(b, e.transcript)
      case None => []
      case Some(x) => [x]
  }

  lemma ExchangesStep(b: Backend, s: Session, e: Event)
    requires Advance(b, s, e).Some?
    ensures Advance(b, s, e).value.exchanges == s.exchanges + NewExchange(b, e)
    ensures e.SendReply? ==> ExchangeOf(b, e.transcript).Some?
  {
    hide SendOn, ReceiveOn, ActivationKeys, ExchangeOf;
  }

  lemma {:induction false} RunExchanges(b: Backend, incoming: ByteString, events: seq<Event>)
    requires Run(b, incoming, events).Some?
    ensures Run(b, incoming, events).value.exchanges == ExchangesOf(b, events)
  {
    hide Advance, NewExchange;
    if events != [] {
      RunExchanges(b, incoming, events[..|events| - 1]);
      ExchangesStep(b, Run(b, incoming, events[..|events| - 1]).value, events[|events| - 1]);
    }
  }

  lemma SendLeavesInbound(b: Backend, s: Session, e: Event)
    requires Advance(b, s, e).Some? && (e.SendKexinit? || e.SendReply? || e.SendNewKeys? || e.SendData?)
    ensures var t := Advance(b, s, e).value;
            && t.inbound == s.inbound && t.incoming == s.incoming && t.received == s.received
            && StageOf(t.phase) == StageOf(s.phase)
  {
    hide SendOn, ActivationKeys, ExchangeOf;
  }

  lemma AgreedNumbered(b: Backend, s: Session, e: Event, capacity: nat, peer: seq<Packet>, exchanges: seq<Exchange>)
    requires Agreed(b.crypto, s, peer) && Delivered(b.crypto, peer) && Conforming(b, peer, exchanges)
    requires Advance(b, s, e).Some? && (e == ReceiveKexinit(capacity) || e == ReceiveInit(capacity))
    ensures Agreed(b.crypto, Advance(b, s, e).value, peer)
  {
    hide AfterReceive, Agreed, Conforming, Delivered;
    NoKeysYet(b, s, peer, exchanges);
    AgreedTakes(b, s, Advance(b, s, e).value, capacity, None, peer);
  }

  lemma AgreedData(b: Backend, s: Session, capacity: nat, peer: seq<Packet>, exchanges: seq<Exchange>)
    requires Agreed(b.crypto, s, peer) && Delivered(b.crypto, peer) && Conforming(b, peer, exchanges)
    requires s.phase == Established && DataIn(b.crypto, s, capacity).Some?
    ensures Agreed(b.crypto, DataIn(b.crypto, s, capacity).value, peer)
  {
    hide AfterReceive, Conforming, Delivered, DirectionAt, WireFrom, StageAt;
    NoKeysYet(b, s, peer, exchanges);
    var t := AfterReceive(b.crypto, s, capacity, None).value;
    PeerStep(b.crypto, s, capacity, None, peer);
    ReceivedGrow(b.crypto, s, capacity, None);
    assert SamePacket(t.received[|s.received|], peer[|s.received|]);
    StageMoves(s, peer, b, exchanges, LastPayload(t));
    SamePhaseIn(b.crypto, s, capacity);
    AgreedTakes(b, s, t, capacity, None, peer);
  }

  lemma AgreedSwitch(b: Backend, s: Session, capacity: nat, peer: seq<Packet>, exchanges: seq<Exchange>)
    requires Inv(b, s) && Agreed(b.crypto, s, peer) && Delivered(b.crypto, peer) && Conforming(b, peer, exchanges)
    requires s.phase == NewKeysSent && s.exchanges <= exchanges && NewKeysIn(b, s, capacity).Some?
    ensures Agreed(b.crypto, NewKeysIn(b, s, capacity).value, peer)
  {
    hide AfterReceive, Conforming, Delivered, Agreed, ActivationKeys, ActivationId, OutboundOk, InboundOk, KeysFollow;
    BothSwitch(b, s, peer, exchanges);
    ActivationIsLatest(b, s, false);
    assert s.(sessionId := s.sessionId) == s;
    AgreedTakes(b, s, NewKeysIn(b, s, capacity).value, capacity, ActivationKeys(b, s, false), peer);
  }

  lemma AgreedSame(c: Crypto, s: Session, t: Session, peer: seq<Packet>)
    requires Agreed(c, s, peer) && t.inbound == s.inbound && t.incoming == s.incoming && t.received == s.received
    requires StageOf(t.phase) == StageOf(s.phase)
    ensures Agreed(c, t, peer)
  {
    hide DirectionAt, WireFrom, StageAt, StageOf;
  }

  lemma AgreedStep(b: Backend, s: Session, e: Event, peer: seq<Packet>, exchanges: seq<Exchange>)
    requires Inv(b, s) && Agreed(b.crypto, s, peer) && Delivered(b.crypto, peer) && Conforming(b, peer, exchanges)
    requires s.exchanges <= exchanges && Advance(b, s, e).Some?
    ensures Agreed(b.crypto, Advance(b, s, e).value, peer)
  {
    hide Inv, Agreed, Conforming, Delivered, NewKeysIn, NewKeysOut, DataIn, AfterSend, Received, StageOf, Replied;
    match e
    case ReceiveKexinit(n) => AgreedNumbered(b, s, e, n, peer, exchanges);
    case ReceiveInit(n) => AgreedNumbered(b, s, e, n, peer, exchanges);
    case ReceiveNewKeys(n) => AgreedSwitch(b, s, n, peer, exchanges);
    case ReceiveData(n) => AgreedData(b, s, n, peer, exchanges);
    case _ =>
      SendLeavesInbound(b, s, e);
      AgreedSame(b.crypto, s, Advance(b, s, e).value, peer);
  }

  /** A peer that sends by the same rules, keeps the order of a key exchange and
      derives the keys of the exchanges the run goes through is understood: in every
      run the server has received exactly the peer's first packets, with new keys at
      the same places, and stands where the peer stood after them. */
  lemma {:induction false} InboundFaithful(b: Backend, events: seq<Event>, peer: seq<Packet>, exchanges: seq<Exchange>)
    requires Delivered(b.crypto, peer) && Conforming(b, peer, exchanges) && ExchangesOf(b, events) <= exchanges
    requires Run(b, WireFrom(b.crypto, peer, 0), events).Some?
    ensures Agreed(b.crypto, Run(b, WireFrom(b.crypto, peer, 0), events).value, peer)
  {
    hide Inv, Advance, WireFrom, Delivered, Conforming;
    var incoming := WireFrom(b.crypto, peer, 0);
    if events != [] {
      var shorter := events[..|events| - 1];
      InboundFaithful(b, shorter, peer, exchanges);
      RunInv(b, incoming, shorter);
      RunExchanges(b, incoming, shorter);
      AgreedStep(b, Run(b, incoming, shorter).value, events[|events| - 1], peer, exchanges);
    }
  }

  // ---- A conforming packet is accepted ----

  lemma ReadsNext(c: Crypto, s: Session, peer: seq<Packet>, capacity: nat)
    requires InStep(c, s, peer) && Delivered(c, peer) && |s.received| < |peer| && capacity >= MAX_PAYLOAD
    ensures var r := ReceiveOn(c, s.inbound, s.incoming, capacity);
            r.Reading? && r.payload == peer[|s.received|].item.payload
  {
    hide ReceiveOn, DirectionAt, WireFrom, Delivered, Switched;
    AcceptStep(c, peer, |s.received|, [], capacity);
    AssertEmptyRest(c, peer, |s.received|);
  }

  lemma TakesNext(c: Crypto, s: Session, peer: seq<Packet>, capacity: nat, keys: Option<Material>)
    requires InStep(c, s, peer) && Delivered(c, peer) && |s.received| < |peer| && capacity >= MAX_PAYLOAD
    ensures var r := AfterReceive(c, s, capacity, keys);
            r.Some? && LastPayload(r.value) == peer[|s.received|].item.payload
  {
    hide ReceiveOn, DirectionAt, WireFrom, Delivered, Switched;
    ReadsNext(c, s, peer, capacity);
  }

  /** The next packet of a conforming peer is accepted whenever it is the server's turn
      to receive: as the step the exchange has come to, or between exchanges as the
      start of a new one or as data, a DISCONNECT excepted. New keys also need a
      derivation that works. */
  lemma NextAccepted(b: Backend, s: Session, peer: seq<Packet>, exchanges: seq<Exchange>, capacity: nat)
    requires Inv(b, s) && Agreed(b.crypto, s, peer) && Delivered(b.crypto, peer) && Conforming(b, peer, exchanges)
    requires |s.received| < |peer| && capacity >= MAX_PAYLOAD
    ensures s.phase == KexinitSent ==> Advance(b, s, ReceiveKexinit(capacity)).Some?
    ensures s.phase == Negotiated ==> Advance(b, s, ReceiveInit(capacity)).Some?
    ensures s.phase == NewKeysSent && ActivationKeys(b, s, false).Some? ==>
              Advance(b, s, ReceiveNewKeys(capacity)).Some?
    ensures s.phase == Established && !Numbered(peer[|s.received|].item.payload, DISCONNECT) ==>
              Advance(b, s, ReceiveKexinit(capacity)).Some? || Advance(b, s, ReceiveData(capacity)).Some?
  {
    hide AfterReceive, DirectionAt, WireFrom, Delivered, Conforming, StageAt, ActivationKeys, ActivationId,
         OutboundOk, InboundOk, KeysFollow, LastPayload;
    TakesNext(b.crypto, s, peer, capacity, None);
    StageMoves(s, peer, b, exchanges, peer[|s.received|].item.payload);
    if s.phase == NewKeysSent && ActivationKeys(b, s, false).Some? {
      ActivationIsLatest(b, s, false);
      assert s.(sessionId := s.sessionId) == s;
      TakesNext(b.crypto, s, peer, capacity, ActivationKeys(b, s, false));
    }
  }
}

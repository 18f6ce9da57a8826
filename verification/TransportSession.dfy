/** The session record as the server updates it, field by field. */
module TransportSession {
  import opened Bytes
  import opened PacketProtection
  import opened PacketStream
  import opened PacketIo
  import opened KeySwitch
  import opened Transport
  import opened ExchangeHash
  import Wire = WireBuffer

  class ServerSession {
    const backend: Backend
    const rekeyAfterPackets: nat
    const rekeyAfterBytes: nat
    var phase: Phase
    var inboundProtection: Option<Protection>
    var inboundSequence: nat
    var inboundPackets: nat
    var inboundBytes: nat
    var outboundProtection: Option<Protection>
    var outboundSequence: nat
    var outboundPackets: nat
    var outboundBytes: nat
    var sessionId: ByteString
    var hash: ByteString
    var secret: ByteString
    var rekeyNeeded: bool
    var rekeyInProgress: bool
    var incoming: ByteString
    var outgoing: ByteString
    ghost var sent: seq<Packet>
    ghost var received: seq<Packet>
    ghost var taken: seq<nat>
    ghost var exchanges: seq<Exchange>

    constructor (backend: Backend, rekeyAfterPackets: nat, rekeyAfterBytes: nat, incoming: ByteString)
      ensures Valid() && View() == Opening(incoming) && this.backend == backend
    {
      this.backend := backend;
      this.rekeyAfterPackets, this.rekeyAfterBytes := rekeyAfterPackets, rekeyAfterBytes;
      phase := Started;
      inboundProtection, inboundSequence, inboundPackets, inboundBytes := None, 0, 0, 0;
      outboundProtection, outboundSequence, outboundPackets, outboundBytes := None, 0, 0, 0;
      sessionId, hash, secret := [], [], [];
      rekeyNeeded, rekeyInProgress := false, false;
      this.incoming, outgoing := incoming, [];
      sent, received, taken, exchanges := [], [], [], [];
    }

    ghost function Inbound(): Direction
      reads this
    {
      Direction(inboundProtection, inboundSequence, inboundPackets, inboundBytes)
    }

    ghost function Outbound(): Direction
      reads this
    {
      Direction(outboundProtection, outboundSequence, outboundPackets, outboundBytes)
    }

    ghost function View(): Session
      reads this
    {
      Session(phase, Inbound(), Outbound(), sessionId, hash, secret, incoming, outgoing, sent, received, taken,
              exchanges)
    }

    predicate Due(packets: nat, bytes: nat) {
      || (rekeyAfterPackets != 0 && packets >= rekeyAfterPackets)
      || (rekeyAfterBytes != 0 && bytes >= rekeyAfterBytes)
    }

    /** The flag says whether either direction has reached a limit. */
    ghost predicate Valid()
      reads this
    {
      rekeyNeeded <==> Due(inboundPackets, inboundBytes) || Due(outboundPackets, outboundBytes)
    }

    method UpdateRekeyNeeded()
      modifies this`rekeyNeeded
      ensures Valid()
    {
      rekeyNeeded :=
        || (rekeyAfterPackets != 0 && (inboundPackets >= rekeyAfterPackets || outboundPackets >= rekeyAfterPackets))
        || (rekeyAfterBytes != 0 && (inboundBytes >= rekeyAfterBytes || outboundBytes >= rekeyAfterBytes));
    }

    method AddSaturating(lhs: nat, rhs: nat) returns (r: nat)
      requires lhs <= U64_MAX
      ensures r == SaturatingAdd(lhs, rhs) && r <= U64_MAX
    {
      if U64_MAX - lhs < rhs { return U64_MAX; }
      return lhs + rhs;
    }

    method RecordRekeyPacket(outbound: bool, wireLen: nat)
      requires inboundPackets <= U64_MAX && inboundBytes <= U64_MAX
      requires outboundPackets <= U64_MAX && outboundBytes <= U64_MAX
      modifies this`rekeyNeeded, this`inboundPackets, this`inboundBytes, this`outboundPackets, this`outboundBytes
      ensures Valid()
      ensures Outbound() == if outbound then Recorded(old(Outbound()), wireLen) else old(Outbound())
      ensures Inbound() == if outbound then old(Inbound()) else Recorded(old(Inbound()), wireLen)
    {
      if outbound {
        outboundPackets := AddSaturating(outboundPackets, 1);
        outboundBytes := AddSaturating(outboundBytes, wireLen);
      } else {
        inboundPackets := AddSaturating(inboundPackets, 1);
        inboundBytes := AddSaturating(inboundBytes, wireLen);
      }
      UpdateRekeyNeeded();
    }

    /** Sets the keys of one direction at its running sequence number; on failure
        at most the session identifier has changed. */
    method ActivatePacketProtection(outbound: bool) returns (ok: bool)
      requires Valid()
      modifies this`sessionId, this`rekeyNeeded,
               this`inboundProtection, this`inboundPackets, this`inboundBytes,
               this`outboundProtection, this`outboundPackets, this`outboundBytes
      ensures Valid()
      ensures ok == ActivationKeys(backend, old(View()), outbound).Some?
      ensures ok ==> View() == Rekeyed(old(View()), ActivationKeys(backend, old(View()), outbound).value, outbound)
    {
      hide Derive, Activated;
      ghost var s := View();
      if sessionId == [] {
        if hash == [] || |hash| > MAX_HASH { return false; }
        sessionId := hash;
      }
      assert sessionId == ActivationId(s).value;
      var keys := Derive(backend, Exchange(hash, secret), sessionId, outbound);
      assert keys == ActivationKeys(backend, s, outbound);
      hide ActivationKeys, ActivationId;
      if keys.None? { return false; }
      SetKeys(keys.value, outbound);
      ok := true;
    }

    method SetKeys(m: Material, outbound: bool)
      modifies this`rekeyNeeded,
               this`inboundProtection, this`inboundPackets, this`inboundBytes,
               this`outboundProtection, this`outboundPackets, this`outboundBytes
      ensures Valid()
      ensures Outbound() == if outbound then Activated(old(Outbound()), m) else old(Outbound())
      ensures Inbound() == if outbound then old(Inbound()) else Activated(old(Inbound()), m)
    {
      if outbound {
        outboundProtection := Some(Protection(m.cipherKey, m.iv, m.macKey, BLOCK, MAC_LEN, outboundSequence));
        outboundPackets, outboundBytes := 0, 0;
      } else {
        inboundProtection := Some(Protection(m.cipherKey, m.iv, m.macKey, BLOCK, MAC_LEN, inboundSequence));
        inboundPackets, inboundBytes := 0, 0;
      }
      UpdateRekeyNeeded();
    }

    method SendProtectedPayload(item: Item, ghost keys: Option<Material>) returns (ok: bool)
      requires Valid() && Inbound().Valid() && Outbound().Valid() && outboundProtection.Some?
      modifies this`outgoing, this`sent, this`rekeyNeeded, this`inboundPackets, this`inboundBytes,
               this`outboundProtection, this`outboundSequence, this`outboundPackets, this`outboundBytes
      ensures Valid() && Inbound() == old(Inbound())
      ensures ok == SendOn(backend.crypto, old(Outbound()), item).Sending?
      ensures ok ==> var s := SendOn(backend.crypto, old(Outbound()), item);
                     && Outbound() == s.next && outgoing == old(outgoing) + s.wire
                     && sent == old(sent) + [Packet(item, keys)]
      ensures !ok ==> Outbound() == old(Outbound()) && outgoing == old(outgoing) && sent == old(sent)
    {
      hide Send;
      var e := SendPacket(backend.crypto, outboundProtection.value, item);
      if e.status != Ok { return false; }
      outgoing := outgoing + e.wire;
      outboundProtection := Some(e.next);
      outboundSequence := e.next.sequence;
      RecordRekeyPacket(true, |e.wire|);
      sent := sent + [Packet(item, keys)];
      ok := true;
    }

    method SendPlainPayload(item: Item, ghost keys: Option<Material>) returns (ok: bool)
      requires Valid() && outboundProtection.None?
      modifies this`outgoing, this`sent, this`outboundSequence
      ensures Valid()
      ensures ok == SendOn(backend.crypto, old(Outbound()), item).Sending?
      ensures ok ==> var s := SendOn(backend.crypto, old(Outbound()), item);
                     && Outbound() == s.next && outgoing == old(outgoing) + s.wire
                     && sent == old(sent) + [Packet(item, keys)]
      ensures !ok ==> Outbound() == old(Outbound()) && outgoing == old(outgoing) && sent == old(sent)
    {
      hide EncodePlain;
      var e := SendPlainPacket(item);
      if e.status != Ok { return false; }
      outgoing := outgoing + e.bytes;
      outboundSequence := (outboundSequence + 1) % Wire.U32_LIMIT;
      sent := sent + [Packet(item, keys)];
      ok := true;
    }

    /** Sends one packet, plain or protected as the direction stands. */
    method SendPayload(item: Item, ghost keys: Option<Material>) returns (ok: bool)
      requires Valid() && Inbound().Valid() && Outbound().Valid()
      modifies this`outgoing, this`sent, this`rekeyNeeded, this`inboundPackets, this`inboundBytes,
               this`outboundProtection, this`outboundSequence, this`outboundPackets, this`outboundBytes
      ensures Valid() && Inbound() == old(Inbound())
      ensures ok == Transmitted(backend.crypto, old(View()), item, keys).Some?
      ensures View() == if ok then Transmitted(backend.crypto, old(View()), item, keys).value else old(View())
    {
      hide SendOn;
      if outboundProtection.Some? {
        ok := SendProtectedPayload(item, keys);
      } else {
        ok := SendPlainPayload(item, keys);
      }
    }

    method ReceiveProtectedPayload(capacity: nat, ghost keys: Option<Material>)
      returns (ok: bool, payload: ByteString)
      requires Valid() && Inbound().Valid() && Outbound().Valid() && inboundProtection.Some?
      modifies this`incoming, this`received, this`taken, this`rekeyNeeded, this`outboundPackets, this`outboundBytes,
               this`inboundProtection, this`inboundSequence, this`inboundPackets, this`inboundBytes
      ensures Valid() && Outbound() == old(Outbound())
      ensures ok == ReceiveOn(backend.crypto, old(Inbound()), old(incoming), capacity).Reading?
      ensures ok ==> var r := ReceiveOn(backend.crypto, old(Inbound()), old(incoming), capacity);
                     && Inbound() == r.next && incoming == r.rest && payload == r.payload
                     && received == old(received) + [Packet(Item(payload, NoRng), keys)]
                     && taken == old(taken) + [Consumed(old(incoming), incoming)]
      ensures !ok ==> var r := ReceiveOn(backend.crypto, old(Inbound()), old(incoming), capacity);
                      && Inbound() == (if r.Failed? then r.next else old(Inbound()))
                      && incoming == (if r.Failed? then r.rest else old(incoming))
                      && received == old(received) && taken == old(taken)
    {
      hide Receive;
      payload := [];
      var r := ReceivePacket(backend.crypto, inboundProtection.value, incoming, capacity);
      if r.Waiting? { return false, []; }
      if r.status != Ok {
        incoming, inboundProtection := r.rest, Some(r.next);
        return false, [];
      }
      RecordLength(backend.crypto, Inbound(), incoming, capacity);
      var len := |incoming| - |r.rest|;
      taken := taken + [Consumed(incoming, r.rest)];
      payload, incoming := r.payload, r.rest;
      inboundProtection := Some(r.next);
      inboundSequence := r.next.sequence;
      RecordRekeyPacket(false, len);
      received := received + [Packet(Item(payload, NoRng), keys)];
      ok := true;
    }

    method ReceivePlainPayload(capacity: nat, ghost keys: Option<Material>) returns (ok: bool, payload: ByteString)
      requires Valid() && inboundProtection.None?
      modifies this`incoming, this`received, this`taken, this`inboundSequence
      ensures Valid()
      ensures ok == ReceiveOn(backend.crypto, old(Inbound()), old(incoming), capacity).Reading?
      ensures ok ==> var r := ReceiveOn(backend.crypto, old(Inbound()), old(incoming), capacity);
                     && Inbound() == r.next && incoming == r.rest && payload == r.payload
                     && received == old(received) + [Packet(Item(payload, NoRng), keys)]
                     && taken == old(taken) + [Consumed(old(incoming), incoming)]
      ensures !ok ==> var r := ReceiveOn(backend.crypto, old(Inbound()), old(incoming), capacity);
                      && Inbound() == (if r.Failed? then r.next else old(Inbound()))
                      && incoming == (if r.Failed? then r.rest else old(incoming))
                      && received == old(received) && taken == old(taken)
    {
      hide ReceivePlain;
      PlainTouchesSequence(Inbound(), incoming, capacity);
      var d := Direction(None, inboundSequence, inboundPackets, inboundBytes);
      var r := ReceivePlainPacket(d, incoming, capacity);
      if r.Failed? { incoming := r.rest; }
      if !r.Reading? { return false, []; }
      taken := taken + [Consumed(incoming, r.rest)];
      payload, incoming := r.payload, r.rest;
      inboundSequence := r.next.sequence;
      received := received + [Packet(Item(payload, NoRng), keys)];
      ok := true;
    }

    /** Receives one packet, plain or protected as the direction stands; false also when
        it has not arrived whole. */
    method ReceivePayload(capacity: nat, ghost keys: Option<Material>) returns (ok: bool, payload: ByteString)
      requires Valid() && Inbound().Valid() && Outbound().Valid()
      modifies this`incoming, this`received, this`taken, this`rekeyNeeded, this`outboundPackets, this`outboundBytes,
               this`inboundProtection, this`inboundSequence, this`inboundPackets, this`inboundBytes
      ensures Valid() && Outbound() == old(Outbound())
      ensures ok == TakenIn(backend.crypto, old(View()), capacity, keys).Some?
      ensures View() == if ok then TakenIn(backend.crypto, old(View()), capacity, keys).value
                        else Spoiled(backend.crypto, old(View()), capacity)
      ensures ok ==> payload == LastPayload(View())
    {
      hide ReceiveOn, Consumed;
      if inboundProtection.Some? {
        ok, payload := ReceiveProtectedPayload(capacity, keys);
      } else {
        ok, payload := ReceivePlainPayload(capacity, keys);
      }
    }

    // ---- The steps of a key exchange ----

    ghost predicate Ready()
      reads this
    {
      Valid() && Inv(backend, View())
    }

    method SendKexinit(item: Item) returns (ok: bool)
      requires Ready() && (phase == Started || phase == RekeyRequested)
      modifies this
      ensures Valid() && rekeyInProgress == old(rekeyInProgress)
      ensures ok == Advance(backend, old(View()), Event.SendKexinit(item)).Some?
      ensures ok ==> View() == Advance(backend, old(View()), Event.SendKexinit(item)).value
    {
      hide Inv, Transmitted, Advance;
      DirectionsValid(backend, View());
      KexinitAdvance(backend, View(), item);
      ok := SendPayload(item, None);
      if !ok { return; }
      phase := if phase == Started then KexinitSent else Negotiated;
    }

    method ReceiveKexEcdhInit(capacity: nat) returns (ok: bool)
      requires Ready() && phase == Negotiated
      modifies this
      ensures Valid() && rekeyInProgress == old(rekeyInProgress)
      ensures ok == Advance(backend, old(View()), ReceiveInit(capacity)).Some?
      ensures ok ==> View() == Advance(backend, old(View()), ReceiveInit(capacity)).value
    {
      hide Inv, TakenIn, Spoiled;
      DirectionsValid(backend, View());
      var payload;
      ok, payload := ReceivePayload(capacity, None);
      if !ok { return; }
      if payload == [] || payload[0] != KEX_ECDH_INIT { return false; }
      phase := InitReceived;
    }

    method RecordExchange(exchange: Exchange)
      modifies this`hash, this`secret, this`sessionId, this`exchanges
      ensures View() == Exchanged(old(View()), exchange)
    {
      hash, secret := exchange.hash, exchange.secret;
      exchanges := exchanges + [exchange];
      if sessionId == [] { sessionId := hash; }
    }

    /** Hashes the transcript; the hash also becomes the session identifier if there is
        none yet. Then the reply goes out. */
    method SendKexEcdhReply(item: Item, transcript: Transcript) returns (ok: bool)
      requires Ready() && phase == InitReceived
      modifies this
      ensures Valid() && rekeyInProgress == old(rekeyInProgress)
      ensures ok == Advance(backend, old(View()), SendReply(item, transcript)).Some?
      ensures ok ==> View() == Advance(backend, old(View()), SendReply(item, transcript)).value
    {
      hide Inv, Transmitted, Advance, ExchangeOf;
      DirectionsValid(backend, View());
      ReplyAdvance(backend, View(), item, transcript);
      var x := HashTranscript(transcript);
      if x.None? { return false; }
      RecordExchange(x.value);
      ok := SendPayload(item, None);
      if !ok { return; }
      phase := ReplySent;
    }

    method HashTranscript(transcript: Transcript) returns (x: Option<Exchange>)
      ensures x == ExchangeOf(backend, transcript)
    {
      hide Fits, EncodeList, Parts;
      var input := new Byte[MAX_INPUT](_ => 0);
      var status, len := BuildExchangeHashInput(transcript, input);
      if status != Wire.Ok { return None; }
      var h := backend.hash(input[..len]);
      if h.None? { return None; }
      return Some(Exchange(h.value, transcript.sharedSecret));
    }

    method SendNewKeys(rng: Rng) returns (ok: bool)
      requires Ready() && phase == ReplySent
      modifies this
      ensures Valid() && rekeyInProgress == old(rekeyInProgress)
      ensures ok == Advance(backend, old(View()), Event.SendNewKeys(rng)).Some?
      ensures ok ==> View() == Advance(backend, old(View()), Event.SendNewKeys(rng)).value
    {
      hide Inv, Transmitted, ActivationKeys, Activated, Advance;
      DirectionsValid(backend, View());
      NewKeysAdvance(backend, View(), rng);
      ghost var s := View();
      ghost var keys := ActivationKeys(backend, s, true);
      ok := SendPayload(Item(NEWKEYS, rng), keys);
      if !ok { return; }
      KeysUnaffected(backend, s, View(), true);
      ok := ActivatePacketProtection(true);
      if !ok { return; }
      phase := NewKeysSent;
    }

    method ReceiveNewKeys(capacity: nat) returns (ok: bool)
      requires Ready() && phase == NewKeysSent
      modifies this
      ensures Valid() && rekeyInProgress == old(rekeyInProgress)
      ensures ok == Advance(backend, old(View()), Event.ReceiveNewKeys(capacity)).Some?
      ensures ok ==> View() == Advance(backend, old(View()), Event.ReceiveNewKeys(capacity)).value
    {
      hide Inv, TakenIn, ActivationKeys, Activated, Spoiled, Advance, LastPayload;
      DirectionsValid(backend, View());
      NewKeysInAdvance(backend, View(), capacity);
      ghost var s := View();
      ghost var keys := ActivationKeys(backend, s, false);
      var payload;
      ok, payload := ReceivePayload(capacity, keys);
      if !ok { return; }
      if payload != NEWKEYS { return false; }
      KeysUnaffected(backend, s, View(), false);
      ok := ActivatePacketProtection(false);
      if !ok { return; }
      phase := Established;
    }

    /** KEXINIT out, the peer's public key in, the reply out. */
    method ExchangeSecrets(kexinit: Item, initCapacity: nat, reply: Item, transcript: Transcript) returns (ok: bool)
      requires Ready() && phase == RekeyRequested
      modifies this
      ensures rekeyInProgress == old(rekeyInProgress)
      ensures ok == Secrets(backend, old(View()), kexinit, initCapacity, reply, transcript).Some?
      ensures ok ==> View() == Secrets(backend, old(View()), kexinit, initCapacity, reply, transcript).value
      ensures ok ==> Ready() && phase == ReplySent
    {
      hide Inv, Advance;
      ghost var s := View();
      ok := SendKexinit(kexinit);
      if !ok { return; }
      Follows(backend, s, Event.SendKexinit(kexinit));
      ghost var t := View();
      ok := ReceiveKexEcdhInit(initCapacity);
      if !ok { return; }
      Follows(backend, t, ReceiveInit(initCapacity));
      ghost var u := View();
      ok := SendKexEcdhReply(reply, transcript);
      if ok { Follows(backend, u, SendReply(reply, transcript)); }
    }

    /** NEWKEYS in both directions, each followed by its switch. */
    method SwitchBoth(rng: Rng, capacity: nat) returns (ok: bool)
      requires Ready() && phase == ReplySent
      modifies this
      ensures rekeyInProgress == old(rekeyInProgress)
      ensures ok == Switches(backend, Some(old(View())), rng, capacity).Some?
      ensures ok ==> View() == Switches(backend, Some(old(View())), rng, capacity).value && Ready()
    {
      hide Inv, Advance;
      ghost var s := View();
      ok := SendNewKeys(rng);
      if !ok { return; }
      Follows(backend, s, Event.SendNewKeys(rng));
      ghost var t := View();
      ok := ReceiveNewKeys(capacity);
      if ok { Follows(backend, t, Event.ReceiveNewKeys(capacity)); }
    }

    /** The whole exchange after a peer's KEXINIT, with no other packet in between. */
    method HandlePeerRekey(kexinit: Item, initCapacity: nat, reply: Item, transcript: Transcript, rng: Rng,
        newKeysCapacity: nat)
      returns (ok: bool)
      requires Ready() && phase == RekeyRequested
      modifies this
      ensures ok == (old(inboundProtection.Some? && outboundProtection.Some? && !rekeyInProgress) &&
                     PeerRekey(backend, old(View()), kexinit, initCapacity, reply, transcript, rng,
                               newKeysCapacity).Some?)
      ensures ok ==> && View() == PeerRekey(backend, old(View()), kexinit, initCapacity, reply, transcript, rng,
                                            newKeysCapacity).value
                     && Ready() && !rekeyInProgress
    {
      hide Inv, Secrets, Switches;
      if inboundProtection.None? || outboundProtection.None? || rekeyInProgress { return false; }
      ghost var s := View();
      rekeyInProgress := true;
      assert View() == s;
      SwitchesNone(backend, rng, newKeysCapacity);
      ok := ExchangeSecrets(kexinit, initCapacity, reply, transcript);
      if ok { ok := SwitchBoth(rng, newKeysCapacity); }
      ghost var t := View();
      rekeyInProgress := false;
      assert View() == t;
    }
  }

  lemma NewKeysInAdvance(b: Backend, s: Session, capacity: nat)
    requires s.phase == NewKeysSent
    ensures var keys := ActivationKeys(b, s, false);
            var taken := TakenIn(b.crypto, s, capacity, keys);
            Advance(b, s, ReceiveNewKeys(capacity)) ==
            if keys.None? || taken.None? || LastPayload(taken.value) != NEWKEYS then None
            else Some(Rekeyed(taken.value, keys.value, false).(phase := Established))
    ensures var keys := ActivationKeys(b, s, false);
            var taken := TakenIn(b.crypto, s, capacity, keys);
            taken.Some? ==>
              taken.value.hash == s.hash && taken.value.secret == s.secret && taken.value.sessionId == s.sessionId
  {
    hide ReceiveOn, Derive;
  }

  function Then(b: Backend, s: Option<Session>, e: Event): Option<Session> {
    if s.None? then None else Advance(b, s.value, e)
  }

  function Secrets(b: Backend, s: Session, kexinit: Item, initCapacity: nat, reply: Item, transcript: Transcript)
    : Option<Session>
  {
    var o := Then(b, Some(s), SendKexinit(kexinit));
    var o := Then(b, o, ReceiveInit(initCapacity));
    Then(b, o, SendReply(reply, transcript))
  }

  function Switches(b: Backend, s: Option<Session>, rng: Rng, capacity: nat): Option<Session> {
    Then(b, Then(b, s, SendNewKeys(rng)), ReceiveNewKeys(capacity))
  }

  lemma SwitchesNone(b: Backend, rng: Rng, capacity: nat)
    ensures Switches(b, None, rng, capacity) == None
  {
  }

  /** The key exchange that answers a peer's KEXINIT. */
  function PeerRekey(b: Backend, s: Session, kexinit: Item, initCapacity: nat, reply: Item, transcript: Transcript,
      rng: Rng, newKeysCapacity: nat): Option<Session>
  {
    Switches(b, Secrets(b, s, kexinit, initCapacity, reply, transcript), rng, newKeysCapacity)
  }

  lemma NoSwitch(c: Crypto, s: Session, item: Item)
    ensures AfterSend(c, s, item, None) == Transmitted(c, s, item, None)
  {
    hide SendOn;
  }

  lemma KexinitAdvance(b: Backend, s: Session, item: Item)
    requires s.phase == Started || s.phase == RekeyRequested
    ensures Advance(b, s, SendKexinit(item))
         == Moved(Transmitted(b.crypto, s, item, None), if s.phase == Started then KexinitSent else Negotiated)
  {
    hide AfterSend, Transmitted;
    NoSwitch(b.crypto, s, item);
  }

  lemma ReplyAdvance(b: Backend, s: Session, item: Item, t: Transcript)
    requires s.phase == InitReceived
    ensures Advance(b, s, SendReply(item, t)) ==
            if ExchangeOf(b, t).None? then None
            else Moved(Transmitted(b.crypto, Exchanged(s, ExchangeOf(b, t).value), item, None), ReplySent)
  {
    hide AfterSend, Transmitted, ExchangeOf;
    if ExchangeOf(b, t).Some? { NoSwitch(b.crypto, Exchanged(s, ExchangeOf(b, t).value), item); }
  }

  lemma NewKeysAdvance(b: Backend, s: Session, rng: Rng)
    requires s.phase == ReplySent
    ensures var keys := ActivationKeys(b, s, true);
            var sent := Transmitted(b.crypto, s, Item(NEWKEYS, rng), keys);
            Advance(b, s, SendNewKeys(rng)) ==
            if keys.None? || sent.None? then None
            else Some(Rekeyed(sent.value, keys.value, true).(phase := NewKeysSent))
    ensures var keys := ActivationKeys(b, s, true);
            var sent := Transmitted(b.crypto, s, Item(NEWKEYS, rng), keys);
            sent.Some? ==> sent.value.hash == s.hash && sent.value.secret == s.secret &&
                           sent.value.sessionId == s.sessionId
  {
    hide SendOn, Derive;
  }

  /** A successful step keeps the invariant and, in a key exchange, leads to the next
      phase. */
  lemma Follows(b: Backend, s: Session, e: Event)
    requires Inv(b, s) && Advance(b, s, e).Some?
    ensures Inv(b, Advance(b, s, e).value)
    ensures e.SendKexinit? && s.phase == RekeyRequested ==> Advance(b, s, e).value.phase == Negotiated
    ensures e.ReceiveInit? ==> Advance(b, s, e).value.phase == InitReceived
    ensures e.SendReply? ==> Advance(b, s, e).value.phase == ReplySent
    ensures e.SendNewKeys? ==> Advance(b, s, e).value.phase == NewKeysSent
  {
    hide Inv, AfterSend, AfterReceive, ActivationKeys;
    StepKeeps(b, s, e);
  }

  lemma DirectionsValid(b: Backend, s: Session)
    requires Inv(b, s)
    ensures s.inbound.Valid() && s.outbound.Valid()
  {
    hide DirectionAt, Delivered;
    PacketUnder(b.crypto, s.sent, |s.sent|);
  }

  lemma KeysUnaffected(b: Backend, s: Session, t: Session, outbound: bool)
    requires t.hash == s.hash && t.secret == s.secret && t.sessionId == s.sessionId
    ensures ActivationKeys(b, t, outbound) == ActivationKeys(b, s, outbound) && ActivationId(t) == ActivationId(s)
  {
    hide Derive;
  }

  lemma PlainTouchesSequence(d: Direction, stream: ByteString, capacity: nat)
    ensures var r := ReceivePlain(d, stream, capacity);
            && (r.Reading? ==> r.next == d.(sequence := r.next.sequence))
            && (r.Failed? ==> r.next == d)
  {
  }

  /** The session after one direction has switched keys. */
  function Rekeyed(s: Session, m: Material, outbound: bool): Session
    requires ActivationId(s).Some?
  {
    var t := s.(sessionId := ActivationId(s).value);
    if outbound then t.(outbound := Activated(s.outbound, m)) else t.(inbound := Activated(s.inbound, m))
  }

  lemma RecordLength(c: Crypto, d: Direction, stream: ByteString, capacity: nat)
    requires d.protection.Some?
    ensures var r := Receive(c, d.protection.value, stream, capacity);
            r.Received? ==> |r.rest| <= |stream|
  {
    hide Decode, PeekLength, PlausibleLength;
  }
}

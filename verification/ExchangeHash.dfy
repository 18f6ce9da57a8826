/** The input of the exchange hash (RFC 5656, section 4): what server and client
    sign off on when they agree on keys. */
module ExchangeHash {
  import opened Bytes
  import opened Positional
  import opened WireBuffer

  /** What both sides have said, and the secret they share. */
  datatype Transcript = Transcript(
    clientIdent: ByteString, serverIdent: ByteString,
    clientKexinit: ByteString, serverKexinit: ByteString,
    hostKey: ByteString, clientPublic: ByteString, serverPublic: ByteString,
    sharedSecret: ByteString)

  function Parts(x: Transcript): (p: seq<ByteString>)
    ensures |p| == 8
  {
    [x.clientIdent, x.serverIdent, x.clientKexinit, x.serverKexinit,
     x.hostKey, x.clientPublic, x.serverPublic, MpintBody(x.sharedSecret)]
  }

  predicate Encodable(parts: seq<ByteString>) {
    forall i | 0 <= i < |parts| :: |parts[i]| < U32_LIMIT
  }

  function EncodeList(parts: seq<ByteString>): ByteString
    requires Encodable(parts)
  {
    if parts == [] then [] else EncodeList(parts[..|parts| - 1]) + StringBytes(parts[|parts| - 1])
  }

  predicate Fits(parts: seq<ByteString>, capacity: nat) {
    Encodable(parts) && |EncodeList(parts)| <= capacity
  }

  /** The server's buffer for the hash input. */
  const MAX_INPUT: nat := 4096

  predicate Hashable(x: Transcript) {
    |x.sharedSecret| < U32_LIMIT && Fits(Parts(x), MAX_INPUT)
  }

  /** Reads n strings and expects nothing behind them. */
  function ParseList(n: nat, b: ByteString): Option<seq<ByteString>> {
    if n == 0 then (if b == [] then Some([]) else None) else
      match ParseString(b)
      case None => None
      case Some((s, rest)) =>
        match ParseList(n - 1, rest)
        case None => None
        case Some(ss) => Some([s] + ss)
  }

  lemma {:induction false} EncodeCons(s: ByteString, parts: seq<ByteString>)
    requires |s| < U32_LIMIT && Encodable(parts)
    ensures Encodable([s] + parts) && EncodeList([s] + parts) == StringBytes(s) + EncodeList(parts)
    decreases |parts|
  {
    hide StringBytes;
    var all := [s] + parts;
    if parts == [] {
      assert all[..0] == [];
      assert EncodeList(all) == [] + StringBytes(s);
    } else {
      var n := |parts| - 1;
      EncodeCons(s, parts[..n]);
      assert all[..|parts|] == [s] + parts[..n];
      assert StringBytes(s) + (EncodeList(parts[..n]) + StringBytes(parts[n])) ==
             StringBytes(s) + EncodeList(parts[..n]) + StringBytes(parts[n]);
    }
  }

  /** Reading back what was written. */
  lemma {:induction false} ParseOfEncode(parts: seq<ByteString>)
    requires Encodable(parts)
    ensures ParseList(|parts|, EncodeList(parts)) == Some(parts)
  {
    hide ParseString, StringBytes;
    if parts != [] {
      var s, rest := parts[0], parts[1..];
      assert parts == [s] + rest;
      EncodeCons(s, rest);
      ParseOfString(s, EncodeList(rest));
      ParseOfEncode(rest);
    }
  }

  function HashInput(x: Transcript): ByteString
    requires Encodable(Parts(x))
  {
    EncodeList(Parts(x))
  }

  /** A transcript is hashed if and only if its input fits 4096 bytes. */
  lemma HashableExactly(x: Transcript)
    ensures Hashable(x) <==> |x.sharedSecret| < 0x1_0000_0000 && Encodable(Parts(x)) && |HashInput(x)| <= 4096
  {
    hide Parts, EncodeList;
  }

  /** The hash input determines all seven strings and the shared secret as a
      number, and is determined by them. */
  lemma HashInputUnique(x: Transcript, y: Transcript)
    requires Encodable(Parts(x)) && Encodable(Parts(y))
    ensures HashInput(x) == HashInput(y) <==>
            x.(sharedSecret := []) == y.(sharedSecret := []) &&
            Value(256, x.sharedSecret) == Value(256, y.sharedSecret)
  {
    hide ParseList, EncodeList, MpintBody;
    MpintUnique(x.sharedSecret, y.sharedSecret);
    ParseOfEncode(Parts(x));
    ParseOfEncode(Parts(y));
    var p, q := Parts(x), Parts(y);
    assert p == q ==> p[0] == q[0] && p[1] == q[1] && p[2] == q[2] && p[3] == q[3] &&
                      p[4] == q[4] && p[5] == q[5] && p[6] == q[6] && p[7] == q[7];
  }

  /** The fields of section 4 of RFC 5656 in their order: both identification lines,
      both KEXINIT payloads, host key, both public keys, and the secret as the shortest
      string with a clear sign bit that denotes it. */
  ghost predicate HasFields(input: ByteString, x: Transcript) {
    var fields := ParseList(8, input);
    && fields.Some? && |fields.value| == 8
    && var f := fields.value;
       && f[0] == x.clientIdent && f[1] == x.serverIdent && f[2] == x.clientKexinit && f[3] == x.serverKexinit
       && f[4] == x.hostKey && f[5] == x.clientPublic && f[6] == x.serverPublic
       && Value(256, f[7]) == Value(256, x.sharedSecret) && (f[7] != [] ==> f[7][0] < 128)
       && (f[7] != [] && f[7][0] == 0 ==> |f[7]| > 1 && f[7][1] >= 128)
  }

  lemma HashInputFields(x: Transcript)
    requires Encodable(Parts(x))
    ensures HasFields(HashInput(x), x)
  {
    hide ParseList, EncodeList, MpintBody;
    ParseOfEncode(Parts(x));
    MpintBodyIsMinimal(x.sharedSecret);
  }

  lemma EncodeSnoc(parts: seq<ByteString>, s: ByteString)
    requires Encodable(parts) && |s| < U32_LIMIT
    ensures Encodable(parts + [s]) && EncodeList(parts + [s]) == EncodeList(parts) + StringBytes(s)
  {
    assert (parts + [s])[..|parts|] == parts;
  }

  /** If a prefix does not fit, neither does the whole. */
  lemma {:induction false} UnfitPrefix(parts: seq<ByteString>, k: nat, capacity: nat)
    requires k <= |parts| && !Fits(parts[..k], capacity)
    ensures !Fits(parts, capacity)
  {
    if k == |parts| {
      assert parts[..k] == parts;
    } else {
      var n := |parts| - 1;
      assert parts[..n][..k] == parts[..k];
      UnfitPrefix(parts[..n], k, capacity);
      if Encodable(parts) {
        assert Encodable(parts[..n]);
      }
    }
  }

  /** Part k of a list goes behind the parts before it; a part that does not fit means
      that the list does not. */
  method PutPart(buf: Buffer, s: ByteString, ghost parts: seq<ByteString>, ghost k: nat) returns (status: Status)
    requires k < |parts| && parts[k] == s && buf.Valid()
    requires Encodable(parts[..k]) && buf.Written() == EncodeList(parts[..k])
    modifies buf`len, buf.data
    ensures buf.Valid()
    ensures status == Ok ==> Encodable(parts[..k + 1]) && buf.Written() == EncodeList(parts[..k + 1])
    ensures status != Ok ==> !Fits(parts, buf.data.Length)
  {
    hide EncodeList;
    status := buf.PutString(s);
    assert parts[..k + 1] == parts[..k] + [s];
    if |s| < U32_LIMIT {
      EncodeSnoc(parts[..k], s);
    } else {
      assert parts[..k + 1][k] == s;
    }
    if status != Ok { UnfitPrefix(parts, k + 1, buf.data.Length); }
  }

  /** Identification lines and KEXINIT payloads of both sides. */
  method PutGreetings(buf: Buffer, x: Transcript) returns (status: Status)
    requires buf.Valid() && buf.len == 0
    modifies buf`len, buf.data
    ensures buf.Valid()
    ensures status == Ok ==> Encodable(Parts(x)[..4]) && buf.Written() == EncodeList(Parts(x)[..4])
    ensures status != Ok ==> !Fits(Parts(x), buf.data.Length)
  {
    hide EncodeList, MpintBody, Fits, Encodable;
    ghost var p := Parts(x);
    EmptyList();
    assert p[..0] == [] && buf.Written() == [];
    status := PutPart(buf, x.clientIdent, p, 0);
    if status != Ok { return; }
    status := PutPart(buf, x.serverIdent, p, 1);
    if status != Ok { return; }
    status := PutPart(buf, x.clientKexinit, p, 2);
    if status != Ok { return; }
    status := PutPart(buf, x.serverKexinit, p, 3);
  }

  /** Assembles the hash input in the order the protocol prescribes. */
  method BuildExchangeHashInput(x: Transcript, out: array<Byte>) returns (status: Status, outLen: nat)
    modifies out
    ensures status == Ok <==> |x.sharedSecret| < U32_LIMIT && Fits(Parts(x), out.Length)
    ensures status == Ok ==> Encodable(Parts(x)) && outLen <= out.Length && out[..outLen] == HashInput(x)
  {
    hide EncodeList, MpintBody, Fits, Encodable;
    var buf := new Buffer(out);
    outLen := 0;
    ghost var p := Parts(x);
    status := PutGreetings(buf, x);
    if status != Ok { return; }
    status := PutPart(buf, x.hostKey, p, 4);
    if status != Ok { return; }
    status := PutPart(buf, x.clientPublic, p, 5);
    if status != Ok { return; }
    status := PutPart(buf, x.serverPublic, p, 6);
    if status != Ok { return; }
    status := PutSecret(buf, x.sharedSecret, p);
    outLen := buf.len;
  }

  /** The shared secret is the last part. */
  method PutSecret(buf: Buffer, secret: ByteString, ghost parts: seq<ByteString>) returns (status: Status)
    requires parts != [] && parts[|parts| - 1] == MpintBody(secret) && buf.Valid()
    requires Encodable(parts[..|parts| - 1]) && buf.Written() == EncodeList(parts[..|parts| - 1])
    modifies buf`len, buf.data
    ensures buf.Valid()
    ensures status == Ok <==> |secret| < U32_LIMIT && Fits(parts, buf.data.Length)
    ensures status == Ok ==> Encodable(parts) && buf.Written() == EncodeList(parts)
  {
    hide EncodeList, MpintBody;
    var body := MpintBody(secret);
    status := buf.PutMpintPositive(secret);
    ghost var before := parts[..|parts| - 1];
    assert parts == before + [body];
    if |body| < U32_LIMIT {
      EncodeSnoc(before, body);
    } else {
      assert parts[|before|] == body;
    }
  }

  lemma EmptyList()
    ensures Encodable([]) && EncodeList([]) == []
  {
  }
}

/** The cursor buffer all SSH messages are written to and read from, with the
    data types of RFC 4251, section 5. */
module WireBuffer {
  import opened Bytes
  import opened Positional

  const U32_LIMIT: nat := 0x1_0000_0000

  datatype Status = Ok | InvalidArgument | Overflow | Underflow

  // ---- Wire formats ----

  function U32Bytes(v: nat): (b: ByteString)
    requires v < U32_LIMIT
    ensures |b| == 4
  {
    assert v / 256 / 256 / 256 < 256;
    [v / 256 / 256 / 256, v / 256 / 256 % 256, v / 256 % 256, v % 256]
  }

  /** Four bytes, most significant first. */
  function Word(p: nat, q: nat, r: nat, s: nat): nat {
    ((p * 256 + q) * 256 + r) * 256 + s
  }

  function U32Of(b: ByteString): (v: nat)
    requires |b| == 4
    ensures v < U32_LIMIT
  {
    Word(b[0], b[1], b[2], b[3])
  }

  lemma U32RoundTrip(v: nat)
    requires v < U32_LIMIT
    ensures U32Of(U32Bytes(v)) == v
  {
    var x := v / 256;
    var y := x / 256;
    assert v == x * 256 + v % 256 && x == y * 256 + x % 256 && y == y / 256 * 256 + y % 256;
  }

  /** The four bytes of a word are its digits in base 256, most significant first. */
  lemma U32Digits(b: ByteString)
    requires |b| == 4
    ensures U32Of(b) == Value(256, b)
  {
    assert b == [] + [b[0]] + [b[1]] + [b[2]] + [b[3]];
    ValueSnoc(256, [], b[0]);
    ValueSnoc(256, [] + [b[0]], b[1]);
    ValueSnoc(256, [] + [b[0]] + [b[1]], b[2]);
    ValueSnoc(256, [] + [b[0]] + [b[1]] + [b[2]], b[3]);
  }

  /** A string: its length, then its bytes. */
  function StringBytes(s: ByteString): (b: ByteString)
    requires |s| < U32_LIMIT
    ensures |b| == 4 + |s|
  {
    U32Bytes(|s|) + s
  }

  /** Reading one string off the front. */
  function ParseString(b: ByteString): Option<(ByteString, ByteString)> {
    if |b| < 4 then None else
      var n := U32Of(b[..4]);
      if |b| - 4 < n then None else Some((b[4..4 + n], b[4 + n..]))
  }

  lemma ParseOfString(s: ByteString, rest: ByteString)
    requires |s| < U32_LIMIT
    ensures ParseString(StringBytes(s) + rest) == Some((s, rest))
  {
    var b := StringBytes(s) + rest;
    assert b[..4] == U32Bytes(|s|);
    U32RoundTrip(|s|);
    assert b[4..4 + |s|] == s && b[4 + |s|..] == rest;
  }

  // ---- Multiple precision integers ----

  function LeadingZeros(d: ByteString): (n: nat)
    ensures n <= |d| && (forall i | 0 <= i < n :: d[i] == 0) && (n < |d| ==> d[n] != 0)
  {
    if d == [] || d[0] != 0 then 0 else 1 + LeadingZeros(d[1..])
  }

  /** The body of a non-negative mpint: no superfluous leading zero, one zero
      byte in front when the top bit would read as a sign. */
  function MpintBody(d: ByteString): (b: ByteString)
    ensures |b| <= |d| + 1
  {
    var m := d[LeadingZeros(d)..];
    if m != [] && m[0] >= 128 then [0] + m else m
  }

  lemma {:induction false} ValueLeadingZero(s: seq<nat>)
    ensures Value(256, [0] + s) == Value(256, s)
  {
    if s == [] {
      assert [0] + s == [] + [0];
      ValueSnoc(256, [], 0);
    } else {
      var n := |s| - 1;
      ValueLeadingZero(s[..n]);
      assert [0] + s == ([0] + s[..n]) + [s[n]];
      ValueSnoc(256, [0] + s[..n], s[n]);
    }
  }

  lemma {:induction false} ValueStripped(d: ByteString)
    ensures Value(256, d[LeadingZeros(d)..]) == Value(256, d)
  {
    if d != [] && d[0] == 0 {
      ValueStripped(d[1..]);
      assert d == [0] + d[1..];
      ValueLeadingZero(d[1..]);
      assert d[LeadingZeros(d)..] == d[1..][LeadingZeros(d[1..])..];
    } else {
      assert d[0..] == d;
    }
  }

  /** The encoding preserves the value, has a clear sign bit and is minimal. */
  lemma MpintBodyIsMinimal(d: ByteString)
    ensures var b := MpintBody(d);
            Value(256, b) == Value(256, d) &&
            (b != [] ==> b[0] < 128) &&
            (b != [] && b[0] == 0 ==> |b| > 1 && b[1] >= 128)
  {
    ValueStripped(d);
    var m := d[LeadingZeros(d)..];
    if m != [] && m[0] >= 128 { ValueLeadingZero(m); }
  }

  lemma {:induction false} ValueLowerBound(s: ByteString)
    requires s != [] && s[0] != 0
    ensures Value(256, s) >= Pow(256, |s| - 1)
  {
    if |s| == 1 {
      assert s == [] + [s[0]];
      ValueSnoc(256, [], s[0]);
    } else {
      var n := |s| - 1;
      assert s[..n][0] == s[0];
      ValueLowerBound(s[..n]);
      MulMono(Pow(256, n - 1), Value(256, s[..n]), 256);
    }
  }

  lemma {:induction false} PowMonotone(m: nat, n: nat)
    requires m <= n
    ensures Pow(256, m) <= Pow(256, n)
  {
    if m < n { PowMonotone(m, n - 1); }
  }

  lemma {:induction false} ZeroValue(s: ByteString)
    requires s != [] && s[0] != 0
    ensures Value(256, s) > 0
  {
    ValueLowerBound(s);
  }

  /** Digit strings without leading zeros are determined by their value. */
  lemma StrippedUnique(s: ByteString, t: ByteString)
    requires s != [] ==> s[0] != 0
    requires t != [] ==> t[0] != 0
    requires Value(256, s) == Value(256, t)
    ensures s == t
  {
    if s == [] {
      if t != [] { ZeroValue(t); }
    } else if t == [] {
      ZeroValue(s);
    } else {
      if |s| < |t| {
        SizeOrder(s, t);
      } else if |t| < |s| {
        SizeOrder(t, s);
      }
      ValueInjective(256, s, t);
    }
  }

  lemma SizeOrder(s: ByteString, t: ByteString)
    requires t != [] && t[0] != 0 && |s| < |t|
    ensures Value(256, s) < Value(256, t)
  {
    ValueBound(256, s);
    ValueLowerBound(t);
    PowMonotone(|s|, |t| - 1);
  }

  /** Two mpints have the same encoding exactly when they are the same number. */
  lemma MpintUnique(c: ByteString, d: ByteString)
    ensures MpintBody(c) == MpintBody(d) <==> Value(256, c) == Value(256, d)
  {
    MpintBodyIsMinimal(c);
    MpintBodyIsMinimal(d);
    if Value(256, c) == Value(256, d) {
      ValueStripped(c);
      ValueStripped(d);
      StrippedUnique(c[LeadingZeros(c)..], d[LeadingZeros(d)..]);
    }
  }

  // ---- The buffer ----

  class Buffer {
    const data: array<Byte>
    var len: nat
    var pos: nat

    ghost predicate Valid()
      reads this
    {
      pos <= len <= data.Length
    }

    /** What has been written. */
    ghost function Written(): ByteString
      requires Valid()
      reads this, data
    {
      data[..len]
    }

    /** What is left to read. */
    ghost function Unread(): ByteString
      requires Valid()
      reads this, data
    {
      data[pos..len]
    }

    constructor (storage: array<Byte>)
      ensures Valid() && data == storage && len == 0 && pos == 0
    {
      data := storage;
      len, pos := 0, 0;
    }

    /** A reader of the first n bytes. */
    constructor Wrap(storage: array<Byte>, n: nat)
      requires n <= storage.Length
      ensures Valid() && data == storage && pos == 0 && Unread() == storage[..n]
    {
      data := storage;
      len, pos := n, 0;
    }

    method PutU8(value: Byte) returns (status: Status)
      requires Valid()
      modifies this`len, data
      ensures Valid() && status == if old(len) < data.Length then Ok else Overflow
      ensures Written() == old(Written()) + if status == Ok then [value] else []
    {
      if data.Length - len < 1 { return Overflow; }
      data[len] := value;
      len := len + 1;
      return Ok;
    }

    method PutU32(value: nat) returns (status: Status)
      requires Valid() && value < U32_LIMIT
      modifies this`len, data
      ensures Valid() && status == if data.Length - old(len) < 4 then Overflow else Ok
      ensures Written() == old(Written()) + if status == Ok then U32Bytes(value) else []
    {
      if data.Length - len < 4 { return Overflow; }
      ghost var was := data[..len];
      data[len] := value / 256 / 256 / 256;
      data[len + 1] := value / 256 / 256 % 256;
      data[len + 2] := value / 256 % 256;
      data[len + 3] := value % 256;
      len := len + 4;
      assert data[..len] == was + U32Bytes(value);
      return Ok;
    }

    method PutBytes(bytes: ByteString) returns (status: Status)
      requires Valid()
      modifies this`len, data
      ensures Valid() && status == if data.Length - old(len) < |bytes| then Overflow else Ok
      ensures Written() == old(Written()) + if status == Ok then bytes else []
    {
      if data.Length - len < |bytes| { return Overflow; }
      ghost var was := data[..len];
      forall i | 0 <= i < |bytes| {
        data[len + i] := bytes[i];
      }
      len := len + |bytes|;
      assert data[..len] == was + bytes;
      return Ok;
    }

    /** On overflow the length may already have been written, and nothing else. */
    method PutString(bytes: ByteString) returns (status: Status)
      requires Valid()
      modifies this`len, data
      ensures Valid()
      ensures status == if |bytes| >= U32_LIMIT then InvalidArgument
                        else if data.Length - old(len) < 4 + |bytes| then Overflow else Ok
      ensures status == Ok ==> Written() == old(Written()) + StringBytes(bytes)
      ensures status == InvalidArgument ==> Written() == old(Written())
      ensures status == Overflow ==>
                Written() == old(Written()) + if data.Length - old(len) < 4 then [] else U32Bytes(|bytes|)
    {
      if |bytes| >= U32_LIMIT { return InvalidArgument; }
      status := PutU32(|bytes|);
      if status != Ok { return; }
      status := PutBytes(bytes);
    }

    method PutMpintPositive(d: ByteString) returns (status: Status)
      requires Valid()
      modifies this`len, data
      ensures Valid()
      ensures |d| >= U32_LIMIT ==> status == InvalidArgument
      ensures |d| < U32_LIMIT ==>
                status == if |MpintBody(d)| >= U32_LIMIT then InvalidArgument
                          else if data.Length - old(len) < 4 + |MpintBody(d)| then Overflow else Ok
      ensures status == Ok ==> |MpintBody(d)| < U32_LIMIT && Written() == old(Written()) + StringBytes(MpintBody(d))
      ensures status == InvalidArgument ==> Written() == old(Written())
      ensures status == Overflow ==>
                && |MpintBody(d)| < U32_LIMIT
                && old(Written()) <= Written() <= old(Written()) + StringBytes(MpintBody(d))
    {
      if |d| >= U32_LIMIT { return InvalidArgument; }
      var start := 0;
      while start < |d| && d[start] == 0
        invariant 0 <= start <= |d|
        invariant forall i | 0 <= i < start :: d[i] == 0
      {
        start := start + 1;
      }
      ZerosUnique(d, start);
      if start == |d| {
        assert d[start..] == [];
        status := PutU32(0);
        assert StringBytes([]) == U32Bytes(0);
        return;
      }
      if d[start] >= 128 {
        status := PutPadded(d[start..]);
      } else {
        status := PutString(d[start..]);
      }
    }

    /** The branch for a set top bit: length, zero byte, magnitude. */
    method PutPadded(m: ByteString) returns (status: Status)
      requires Valid() && |m| < U32_LIMIT
      modifies this`len, data
      ensures Valid()
      ensures status == if |m| + 1 >= U32_LIMIT then InvalidArgument
                        else if data.Length - old(len) < 4 + (|m| + 1) then Overflow else Ok
      ensures status == Ok ==> |m| + 1 < U32_LIMIT && Written() == old(Written()) + StringBytes([0] + m)
      ensures status == InvalidArgument ==> Written() == old(Written())
      ensures status == Overflow ==>
                |m| + 1 < U32_LIMIT && old(Written()) <= Written() <= old(Written()) + StringBytes([0] + m)
    {
      if |m| >= U32_LIMIT - 1 { return InvalidArgument; }
      ghost var was := Written();
      ghost var all := StringBytes([0] + m);
      assert all == U32Bytes(|m| + 1) + [0] + m && all == U32Bytes(|m| + 1) + ([0] + m);
      status := PutU32(|m| + 1);
      if status != Ok { return; }
      status := PutU8(0);
      if status != Ok { return; }
      status := PutBytes(m);
      assert was + U32Bytes(|m| + 1) + [0] + m == was + all;
    }

    method GetU8() returns (status: Status, value: Byte)
      requires Valid()
      modifies this`pos
      ensures Valid() && (status == Ok <==> old(Unread()) != [])
      ensures status == Ok ==> old(Unread()) == [value] + Unread()
      ensures status != Ok ==> status == Underflow && pos == old(pos)
    {
      if len - pos < 1 { return Underflow, 0; }
      value := data[pos];
      pos := pos + 1;
      return Ok, value;
    }

    method GetU32() returns (status: Status, value: nat)
      requires Valid()
      modifies this`pos
      ensures Valid() && (status == Ok <==> |old(Unread())| >= 4)
      ensures status == Ok ==>
                value == U32Of(old(Unread())[..4]) && Unread() == old(Unread())[4..] && pos == old(pos) + 4
      ensures status != Ok ==> status == Underflow && pos == old(pos)
    {
      if len - pos < 4 { return Underflow, 0; }
      value := Word(data[pos], data[pos + 1], data[pos + 2], data[pos + 3]);
      pos := pos + 4;
      return Ok, value;
    }

    method GetStringView() returns (status: Status, view: ByteString)
      requires Valid()
      modifies this`pos
      ensures Valid() && (status == Ok <==> ParseString(old(Unread())).Some?)
      ensures status == Ok ==> ParseString(old(Unread())) == Some((view, Unread()))
      ensures status != Ok ==> status == Underflow && pos == old(pos) + if |old(Unread())| < 4 then 0 else 4
    {
      ghost var b := Unread();
      var n: nat;
      status, n := GetU32();
      if status != Ok { return status, []; }
      if len - pos < n { return Underflow, []; }
      ghost var u := data[pos..len];
      assert u == b[4..];
      view := data[pos..pos + n];
      Cut(data[..], pos, pos + n, len);
      pos := pos + n;
      Cut(b, 4, 4 + n, |b|);
    }
  }

  lemma Cut(s: ByteString, a: nat, m: nat, b: nat)
    requires a <= m <= b <= |s|
    ensures s[a..b][..m - a] == s[a..m] && s[a..b][m - a..] == s[m..b]
    ensures b == |s| ==> s[a..b] == s[a..] && s[m..b] == s[m..]
  {
  }

  lemma ZerosUnique(d: ByteString, n: nat)
    requires n <= |d| && (forall i | 0 <= i < n :: d[i] == 0) && (n < |d| ==> d[n] != 0)
    ensures LeadingZeros(d) == n
  {
  }
}

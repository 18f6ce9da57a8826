/** The unpadded base32 codec the panel uses for one-time-password secrets.
    Both loops keep their bits in a 32-bit accumulator whose high part is
    silently lost; the specification regroups bit strings (RFC 4648, section 6). */
module Base32 {
  import opened Bytes
  import opened Positional

  const WORD: nat := 0x1_0000_0000

  datatype Status = Ok | InvalidArgument | BufferTooSmall | Malformed

  // ---- Bit strings ----

  /** The n low-order bits of x, most significant first. */
  function BitsOf(x: nat, n: nat): (s: seq<bool>)
    ensures |s| == n
  {
    if n == 0 then [] else BitsOf(x / 2, n - 1) + [x % 2 == 1]
  }

  function NumOf(s: seq<bool>): nat {
    if s == [] then 0 else 2 * NumOf(s[..|s| - 1]) + if s[|s| - 1] then 1 else 0
  }

  /** The w-bit representations of all elements, one after the other. */
  function Flat(w: nat, xs: seq<nat>): (s: seq<bool>)
    ensures |s| == w * |xs|
  {
    if xs == [] then [] else
      var n := |xs| - 1;
      assert w * |xs| == w * n + w;
      Flat(w, xs[..n]) + BitsOf(xs[n], w)
  }

  /** A bit string cut into w-bit numbers; a shorter rest is dropped. */
  function Chop(w: nat, s: seq<bool>): seq<nat>
    requires w > 0
    decreases |s|
  {
    if |s| < w then [] else [NumOf(s[..w])] + Chop(w, s[w..])
  }

  function Zeros(n: nat): (s: seq<bool>)
    ensures |s| == n && forall i | 0 <= i < n :: !s[i]
  {
    seq(n, _ => false)
  }

  lemma {:induction false} NumOfBits(x: nat, n: nat)
    requires x < Pow(2, n)
    ensures NumOf(BitsOf(x, n)) == x
  {
    if n > 0 {
      NumOfBits(x / 2, n - 1);
      assert BitsOf(x, n)[..n - 1] == BitsOf(x / 2, n - 1);
    }
  }

  ghost predicate Fits(w: nat, xs: seq<nat>) {
    forall i | 0 <= i < |xs| :: xs[i] < Pow(2, w)
  }

  lemma FlatSnoc(w: nat, xs: seq<nat>, x: nat)
    ensures Flat(w, xs + [x]) == Flat(w, xs) + BitsOf(x, w)
  {
    assert (xs + [x])[..|xs|] == xs;
  }

  lemma {:induction false} FlatCons(w: nat, x: nat, xs: seq<nat>)
    ensures Flat(w, [x] + xs) == BitsOf(x, w) + Flat(w, xs)
  {
    if xs == [] {
      assert [x] + xs == [] + [x];
      FlatSnoc(w, [], x);
    } else {
      var n := |xs| - 1;
      assert [x] + xs == ([x] + xs[..n]) + [xs[n]];
      FlatSnoc(w, [x] + xs[..n], xs[n]);
      FlatCons(w, x, xs[..n]);
    }
  }

  /** Cutting the representation of a list recovers the list; a rest shorter
      than one element does not matter. */
  lemma {:induction false} ChopFlat(w: nat, xs: seq<nat>, rest: seq<bool>)
    requires w > 0 && Fits(w, xs) && |rest| < w
    ensures Chop(w, Flat(w, xs) + rest) == xs
  {
    hide BitsOf, NumOf, Flat;
    if xs == [] {
      assert Flat(w, xs) + rest == rest;
    } else {
      var s := Flat(w, xs) + rest;
      assert xs == [xs[0]] + xs[1..];
      FlatCons(w, xs[0], xs[1..]);
      assert s[..w] == BitsOf(xs[0], w);
      assert s[w..] == Flat(w, xs[1..]) + rest;
      NumOfBits(xs[0], w);
      ChopFlat(w, xs[1..], rest);
    }
  }

  // ---- Specification ----

  /** Number of symbols for n bytes, and the zero bits completing the last one. */
  function SymbolCount(n: nat): nat { (8 * n + 4) / 5 }

  function PadBits(n: nat): (p: nat)
    ensures p <= 4 && 5 * SymbolCount(n) == 8 * n + p
  {
    5 * SymbolCount(n) - 8 * n
  }

  /** The encoding: all data bits, zero bits up to a multiple of five, in fives. */
  function EncodeSymbols(data: seq<nat>): seq<nat> {
    Chop(5, Flat(8, data) + Zeros(PadBits(|data|)))
  }

  /** The decoding: all symbol bits in eights, the rest dropped. */
  function DecodeSymbols(symbols: seq<nat>): seq<nat> {
    Chop(8, Flat(5, symbols))
  }

  const ALPHABET: string := "ABCDEFGHIJKLMNOPQRSTUVWXYZ234567"

  predicate AreSymbols(s: seq<nat>) {
    forall i | 0 <= i < |s| :: s[i] < 32
  }

  function SymbolText(s: seq<nat>): (t: string)
    requires AreSymbols(s)
    ensures |t| == |s| && forall i | 0 <= i < |s| :: t[i] == ALPHABET[s[i]]
  {
    seq(|s|, i requires 0 <= i < |s| => ALPHABET[s[i]])
  }

  predicate IsSkipped(ch: char) {
    ch == '=' || ch == ' ' || ch == '\t' || ch == '-' || ch == ':'
  }

  function SymbolValue(ch: char): (v: int)
    ensures -1 <= v < 32
  {
    if 'A' <= ch <= 'Z' then ch as int - 'A' as int
    else if 'a' <= ch <= 'z' then ch as int - 'a' as int
    else if '2' <= ch <= '7' then ch as int - '2' as int + 26
    else -1
  }

  /** The symbols of a text up to its first foreign character, and whether there
      is one. */
  datatype Reading = Reading(symbols: seq<nat>, foreign: bool)

  function Read(text: string): (r: Reading)
    ensures AreSymbols(r.symbols)
  {
    if text == [] then Reading([], false)
    else if IsSkipped(text[0]) then Read(text[1..])
    else if SymbolValue(text[0]) < 0 then Reading([], true)
    else
      var rest := Read(text[1..]);
      Reading([SymbolValue(text[0])] + rest.symbols, rest.foreign)
  }

  datatype Decoded = Decoded(data: seq<nat>) | Failed(status: Status)

  function Decode(text: string, capacity: nat): Decoded {
    var r := Read(text);
    if 5 * |r.symbols| / 8 > capacity then Failed(BufferTooSmall)
    else if r.foreign || 5 * |r.symbols| / 8 == 0 then Failed(Malformed)
    else Decoded(DecodeSymbols(r.symbols))
  }

  // ---- The accumulator ----

  /** x shifted right by n, one bit at a time. */
  function Shr(x: nat, n: nat): nat {
    if n == 0 then x else Shr(x / 2, n - 1)
  }

  /** x shifted left by n with the n low bits of d moved in. */
  function Glue(x: nat, d: nat, n: nat): nat {
    if n == 0 then x else 2 * Glue(x, d / 2, n - 1) + d % 2
  }

  lemma Doubled(p: nat, x: nat)
    ensures (2 * p) * x == 2 * (p * x)
  {
  }

  lemma {:induction false} GlueValue(x: nat, d: nat, n: nat)
    requires d < Pow(2, n)
    ensures Glue(x, d, n) == Pow(2, n) * x + d
  {
    if n > 0 {
      var p := Pow(2, n - 1);
      GlueValue(x, d / 2, n - 1);
      Doubled(p, x);
    }
  }

  lemma {:induction false} BitsOfGlue(x: nat, d: nat, m: nat, n: nat)
    ensures BitsOf(Glue(x, d, n), m + n) == BitsOf(x, m) + BitsOf(d, n)
  {
    if n == 0 {
      assert BitsOf(x, m) + BitsOf(d, 0) == BitsOf(x, m);
    } else {
      BitsOfGlue(x, d / 2, m, n - 1);
    }
  }

  lemma {:induction false} BitsSplit(x: nat, m: nat, n: nat)
    ensures BitsOf(x, m + n) == BitsOf(Shr(x, n), m) + BitsOf(x, n)
  {
    if n == 0 {
      assert BitsOf(Shr(x, 0), m) + BitsOf(x, 0) == BitsOf(x, m);
    } else {
      BitsSplit(x / 2, m, n - 1);
    }
  }

  /** Only the low k bits of a number decide its low m <= k bits. */
  lemma {:induction false} LowBits(x: nat, y: nat, k: nat, q: int, m: nat)
    requires m <= k && x == y + q * Pow(2, k)
    ensures BitsOf(x, m) == BitsOf(y, m)
    decreases m
  {
    if m > 0 {
      var half := Pow(2, k - 1);
      assert q * Pow(2, k) == 2 * (q * half);
      LowBits(x / 2, y / 2, k - 1, q, m - 1);
    }
  }

  lemma TwoTable()
    ensures Pow(2, 5) == 32 && Pow(2, 8) == 256 && Pow(2, 24) == 0x100_0000 && Pow(2, 27) == 0x800_0000
  {
    assert Pow(2, 5) == 32;
    assert Pow(2, 10) == 1024;
    assert Pow(2, 15) == 32768;
    assert Pow(2, 20) == 0x10_0000;
  }

  lemma ZeroBits(n: nat)
    ensures BitsOf(0, n) == Zeros(n)
  {
  }

  /** Shifting a byte into the accumulator, high bits lost. */
  lemma TakeByte(acc: nat, d: nat, bits: nat)
    requires d < 256 && bits <= 24
    ensures BitsOf((acc * 256) % WORD + d, bits + 8) == BitsOf(acc, bits) + BitsOf(d, 8)
  {
    hide BitsOf, Glue, Pow;
    var t := acc % 0x100_0000;
    TwoTable();
    DivModUnique(acc * 256, WORD, acc / 0x100_0000, 256 * t);
    GlueValue(t, d, 8);
    BitsOfGlue(t, d, bits, 8);
    LowBits(acc, t, 24, acc / 0x100_0000, bits);
  }

  /** Shifting a symbol into the accumulator, high bits lost. */
  lemma TakeSymbol(acc: nat, d: nat, bits: nat)
    requires d < 32 && bits <= 24
    ensures BitsOf((acc * 32) % WORD + d, bits + 5) == BitsOf(acc, bits) + BitsOf(d, 5)
  {
    hide BitsOf, Glue, Pow;
    var t := acc % 0x800_0000;
    TwoTable();
    DivModUnique(acc * 32, WORD, acc / 0x800_0000, 32 * t);
    GlueValue(t, d, 5);
    BitsOfGlue(t, d, bits, 5);
    LowBits(acc, t, 27, acc / 0x800_0000, bits);
  }

  /** Taking the top w bits off the low part. */
  lemma PutSymbol(acc: nat, bits: nat)
    ensures BitsOf(acc, bits + 5) == BitsOf(Shr(acc, bits) % 32, 5) + BitsOf(acc, bits)
  {
    BitsSplit(acc, 5, bits);
    LowFive(Shr(acc, bits));
  }

  lemma PutByte(acc: nat, bits: nat)
    ensures BitsOf(acc, bits + 8) == BitsOf(Shr(acc, bits) % 256, 8) + BitsOf(acc, bits)
  {
    BitsSplit(acc, 8, bits);
    TwoTable();
    LowBits(Shr(acc, bits), Shr(acc, bits) % 256, 8, Shr(acc, bits) / 256, 8);
  }

  lemma LastSymbol(acc: nat, bits: nat)
    requires bits <= 5
    ensures BitsOf(Glue(acc, 0, 5 - bits) % WORD % 32, 5) == BitsOf(acc, bits) + Zeros(5 - bits)
  {
    var x := Glue(acc, 0, 5 - bits);
    BitsOfGlue(acc, 0, bits, 5 - bits);
    ZeroBits(5 - bits);
    LowFive(x);
  }

  lemma LowFive(x: nat)
    ensures x % WORD % 32 == x % 32 && BitsOf(x % 32, 5) == BitsOf(x, 5)
  {
    hide BitsOf, Pow;
    TwoTable();
    WordLow(x);
    LowBits(x, x % 32, 5, x / 32, 5);
  }

  lemma WordLow(x: nat)
    ensures x % WORD % 32 == x % 32
  {
    var q, r := x / WORD, x % WORD;
    assert x == 32 * (0x800_0000 * q) + r;
    MultipleOff(0x800_0000 * q, r);
  }

  lemma MultipleOff(k: nat, r: nat)
    ensures (32 * k + r) % 32 == r % 32
  {
  }

  // ---- The two loops ----

  lemma EncodedUnique(data: seq<nat>, out: seq<nat>)
    requires AreSymbols(out) && Flat(5, out) == Flat(8, data) + Zeros(PadBits(|data|))
    ensures out == EncodeSymbols(data)
  {
    TwoTable();
    ChopFlat(5, out, []);
    assert Flat(5, out) + [] == Flat(5, out);
  }

  lemma DecodedUnique(symbols: seq<nat>, out: seq<nat>, rest: seq<bool>)
    requires forall i | 0 <= i < |out| :: out[i] < 256
    requires |rest| < 8 && Flat(5, symbols) == Flat(8, out) + rest
    ensures out == DecodeSymbols(symbols)
  {
    TwoTable();
    ChopFlat(8, out, rest);
  }

  /** The bits taken in are the bits put out followed by the low accumulator bits. */
  ghost predicate Pending(inWidth: nat, taken: seq<nat>, outWidth: nat, out: seq<nat>, acc: nat, bits: nat) {
    Flat(inWidth, taken) == Flat(outWidth, out) + BitsOf(acc, bits)
  }

  lemma EncodeTake(taken: seq<nat>, out: seq<nat>, acc: nat, bits: nat, d: nat)
    requires Pending(8, taken, 5, out, acc, bits) && d < 256 && bits <= 24
    ensures Pending(8, taken + [d], 5, out, (acc * 256) % WORD + d, bits + 8)
  {
    TakeByte(acc, d, bits);
    FlatSnoc(8, taken, d);
    Assoc(Flat(5, out), BitsOf(acc, bits), BitsOf(d, 8));
  }

  lemma EncodePut(taken: seq<nat>, out: seq<nat>, acc: nat, bits: nat)
    requires Pending(8, taken, 5, out, acc, bits + 5)
    ensures Pending(8, taken, 5, out + [Shr(acc, bits) % 32], acc, bits)
  {
    PutSymbol(acc, bits);
    FlatSnoc(5, out, Shr(acc, bits) % 32);
    Assoc(Flat(5, out), BitsOf(Shr(acc, bits) % 32, 5), BitsOf(acc, bits));
  }

  lemma EncodeLast(data: seq<nat>, out: seq<nat>, acc: nat, bits: nat)
    requires Pending(8, data, 5, out, acc, bits) && AreSymbols(out) && bits < 5
    requires 8 * |data| == 5 * |out| + bits
    ensures bits == 0 ==> out == EncodeSymbols(data)
    ensures bits != 0 ==> out + [Glue(acc, 0, 5 - bits) % WORD % 32] == EncodeSymbols(data)
  {
    hide Flat, BitsOf, Chop, Glue;
    if bits == 0 {
      assert Zeros(0) == [] == BitsOf(acc, 0);
      EncodedUnique(data, out);
    } else {
      var d := Glue(acc, 0, 5 - bits) % WORD % 32;
      LastSymbol(acc, bits);
      FlatSnoc(5, out, d);
      Assoc(Flat(5, out), BitsOf(acc, bits), Zeros(5 - bits));
      assert PadBits(|data|) == 5 - bits;
      EncodedUnique(data, out + [d]);
    }
  }

  method Encode(data: seq<Byte>, capacity: nat) returns (status: Status, text: string)
    ensures status == if capacity == 0 then InvalidArgument
                      else if SymbolCount(|data|) + 1 > capacity then BufferTooSmall else Ok
    ensures status == Ok ==> AreSymbols(EncodeSymbols(data)) && text == SymbolText(EncodeSymbols(data))
  {
    hide Flat, BitsOf, Chop;
    if capacity == 0 { return InvalidArgument, ""; }
    var buffer: nat, bits: nat := 0, 0;
    ghost var out: seq<nat> := [];
    text := "";
    var i := 0;
    while i < |data|
      invariant 0 <= i <= |data| && bits < 5
      invariant 8 * i == 5 * |out| + bits && |out| + 1 <= capacity
      invariant AreSymbols(out) && text == SymbolText(out)
      invariant Pending(8, data[..i], 5, out, buffer, bits)
    {
      EncodeTake(data[..i], out, buffer, bits, data[i]);
      assert data[..i + 1] == data[..i] + [data[i]];
      buffer := (buffer * 256) % WORD + data[i];
      bits := bits + 8;
      i := i + 1;
      while bits >= 5
        invariant 0 <= bits <= 12
        invariant 8 * i == 5 * |out| + bits && |out| + 1 <= capacity
        invariant AreSymbols(out) && text == SymbolText(out)
        invariant Pending(8, data[..i], 5, out, buffer, bits)
      {
        if |text| + 2 > capacity { return BufferTooSmall, ""; }
        EncodePut(data[..i], out, buffer, bits - 5);
        var digit := Shr(buffer, bits - 5) % 32;
        text := text + [ALPHABET[digit]];
        out := out + [digit];
        bits := bits - 5;
      }
    }
    assert data[..i] == data;
    EncodeLast(data, out, buffer, bits);
    if bits != 0 {
      if |text| + 2 > capacity { return BufferTooSmall, ""; }
      var digit := Glue(buffer, 0, 5 - bits) % WORD % 32;
      text := text + [ALPHABET[digit]];
    }
    status := Ok;
  }

  lemma DecodeTake(taken: seq<nat>, out: seq<nat>, acc: nat, bits: nat, d: nat)
    requires Pending(5, taken, 8, out, acc, bits) && d < 32 && bits <= 24
    ensures Pending(5, taken + [d], 8, out, (acc * 32) % WORD + d, bits + 5)
  {
    TakeSymbol(acc, d, bits);
    FlatSnoc(5, taken, d);
    Assoc(Flat(8, out), BitsOf(acc, bits), BitsOf(d, 5));
  }

  lemma DecodePut(taken: seq<nat>, out: seq<nat>, acc: nat, bits: nat)
    requires Pending(5, taken, 8, out, acc, bits + 8)
    ensures Pending(5, taken, 8, out + [Shr(acc, bits) % 256], acc, bits)
  {
    PutByte(acc, bits);
    FlatSnoc(8, out, Shr(acc, bits) % 256);
    Assoc(Flat(8, out), BitsOf(Shr(acc, bits) % 256, 8), BitsOf(acc, bits));
  }

  lemma ReadNothing()
    ensures Read([]) == Reading([], false)
  {
  }

  lemma ReadFirst(text: string)
    requires text != []
    ensures var rest, v := Read(text[1..]), SymbolValue(text[0]);
            Read(text) == if IsSkipped(text[0]) then rest
                          else if v < 0 then Reading([], true)
                          else Reading([v] + rest.symbols, rest.foreign)
  {
    hide SymbolValue, IsSkipped, AreSymbols;
  }

  /** What reading the next character adds. */
  lemma ReadStep(text: string, taken: seq<nat>, p: nat)
    requires p < |text| && Read(text) == Reading(taken + Read(text[p..]).symbols, Read(text[p..]).foreign)
    ensures var rest := Read(text[p + 1..]);
            if IsSkipped(text[p]) then Read(text) == Reading(taken + rest.symbols, rest.foreign)
            else if SymbolValue(text[p]) < 0 then Read(text) == Reading(taken, true)
            else Read(text) == Reading(taken + [SymbolValue(text[p])] + rest.symbols, rest.foreign)
  {
    hide Read, SymbolValue, IsSkipped, AreSymbols;
    assert text[p..][0] == text[p] && text[p..][1..] == text[p + 1..];
    ReadFirst(text[p..]);
    var rest := Read(text[p + 1..]);
    if !IsSkipped(text[p]) && SymbolValue(text[p]) >= 0 { Assoc(taken, [SymbolValue(text[p])], rest.symbols); }
    assert taken + [] == taken;
  }

  method DecodeSecret(text: string, capacity: nat) returns (status: Status, out: seq<nat>)
    ensures match Decode(text, capacity)
            case Decoded(data) => status == Ok && out == data
            case Failed(error) => status == error
  {
    hide Flat, BitsOf, Chop, Read, SymbolValue, IsSkipped, DecodeSymbols;
    var acc: nat, bits: nat := 0, 0;
    out := [];
    ReadNothing();
    ghost var taken: seq<nat> := [];
    var p := 0;
    assert text[0..] == text;
    while p < |text|
      invariant 0 <= p <= |text| && bits < 8
      invariant AreSymbols(taken) && forall i | 0 <= i < |out| :: out[i] < 256
      invariant 5 * |taken| == 8 * |out| + bits && |out| <= capacity
      invariant Read(text) == Reading(taken + Read(text[p..]).symbols, Read(text[p..]).foreign)
      invariant Pending(5, taken, 8, out, acc, bits)
    {
      ReadStep(text, taken, p);
      var ch := text[p];
      p := p + 1;
      if IsSkipped(ch) { continue; }
      var value := SymbolValue(ch);
      if value < 0 { return Malformed, []; }
      DecodeTake(taken, out, acc, bits, value);
      acc := (acc * 32) % WORD + value;
      bits := bits + 5;
      taken := taken + [value];
      if bits >= 8 {
        bits := bits - 8;
        if |out| >= capacity { return BufferTooSmall, []; }
        DecodePut(taken, out, acc, bits);
        out := out + [Shr(acc, bits) % 256];
      }
    }
    assert text[p..] == [] && taken + [] == taken;
    assert taken == Read(text).symbols;
    DecodedUnique(taken, out, BitsOf(acc, bits));
    status := if |out| != 0 then Ok else Malformed;
  }

  // ---- Round trip ----

  lemma {:induction false} ReadSymbolText(s: seq<nat>)
    requires AreSymbols(s)
    ensures Read(SymbolText(s)) == Reading(s, false)
  {
    if s != [] {
      var t := SymbolText(s);
      assert t[1..] == SymbolText(s[1..]);
      ReadSymbolText(s[1..]);
      SymbolValueInverse(s[0]);
      assert s == [s[0]] + s[1..];
    }
  }

  lemma SymbolValueInverse(v: nat)
    requires v < 32
    ensures !IsSkipped(ALPHABET[v]) && SymbolValue(ALPHABET[v]) == v
  {
    if v < 26 {
      assert ALPHABET[v] == 'A' + v as char;
    } else {
      assert ALPHABET[v] == '2' + (v - 26) as char;
    }
  }

  /** Regrouping a bit string whose length is a multiple of w loses nothing. */
  lemma {:induction false} FlatChop(w: nat, k: nat, s: seq<bool>)
    requires w > 0 && |s| == w * k
    ensures |Chop(w, s)| == k && Flat(w, Chop(w, s)) == s
    decreases k
  {
    hide Flat, BitsOf, NumOf;
    if k == 0 {
      assert Chop(w, s) == [] && Flat(w, []) == s;
    } else {
      assert w * k == w + w * (k - 1);
      FlatChop(w, k - 1, s[w..]);
      FlatCons(w, NumOf(s[..w]), Chop(w, s[w..]));
      BitsOfNum(s[..w]);
      assert s == s[..w] + s[w..];
    }
  }

  lemma {:induction false} BitsOfNum(s: seq<bool>)
    ensures BitsOf(NumOf(s), |s|) == s && NumOf(s) < Pow(2, |s|)
  {
    if s != [] {
      var n := |s| - 1;
      BitsOfNum(s[..n]);
      assert s == s[..n] + [s[n]];
    }
  }

  lemma {:induction false} ChopFits(w: nat, s: seq<bool>)
    requires w > 0
    ensures Fits(w, Chop(w, s))
    decreases |s|
  {
    if |s| >= w {
      BitsOfNum(s[..w]);
      ChopFits(w, s[w..]);
    }
  }

  lemma SymbolsRoundTrip(data: seq<Byte>)
    ensures AreSymbols(EncodeSymbols(data)) && |EncodeSymbols(data)| == SymbolCount(|data|)
    ensures DecodeSymbols(EncodeSymbols(data)) == data
  {
    var pad := PadBits(|data|);
    var s := Flat(8, data) + Zeros(pad);
    TwoTable();
    ChopFits(5, s);
    FlatChop(5, SymbolCount(|data|), s);
    ChopFlat(8, data, Zeros(pad));
  }

  /** Any text that reads as the encoding of data decodes to data. */
  lemma DecodeOfReading(data: seq<Byte>, text: string, capacity: nat)
    requires data != [] && |data| <= capacity
    requires Read(text) == Reading(EncodeSymbols(data), false)
    ensures Decode(text, capacity) == Decoded(data)
  {
    SymbolsRoundTrip(data);
  }

  lemma RoundTrip(data: seq<Byte>, capacity: nat)
    requires data != [] && |data| <= capacity
    ensures AreSymbols(EncodeSymbols(data))
    ensures Decode(SymbolText(EncodeSymbols(data)), capacity) == Decoded(data)
  {
    SymbolsRoundTrip(data);
    ReadSymbolText(EncodeSymbols(data));
    DecodeOfReading(data, SymbolText(EncodeSymbols(data)), capacity);
  }

  /** The same secret typed in lower case, in groups, or with '=' padding. */
  ghost predicate Respelled(text: string, typed: string)
    decreases |typed|
  {
    if typed == [] then text == []
    else if IsSkipped(typed[0]) then Respelled(text, typed[1..])
    else text != [] && !IsSkipped(text[0]) &&
         SymbolValue(typed[0]) == SymbolValue(text[0]) && Respelled(text[1..], typed[1..])
  }

  lemma {:induction false} RespelledReadsSame(text: string, typed: string)
    requires Respelled(text, typed)
    ensures Read(typed) == Read(text)
    decreases |typed|
  {
    if typed != [] {
      if IsSkipped(typed[0]) {
        RespelledReadsSame(text, typed[1..]);
      } else {
        RespelledReadsSame(text[1..], typed[1..]);
      }
    }
  }

  lemma RoundTripRespelled(data: seq<Byte>, typed: string, capacity: nat)
    requires data != [] && |data| <= capacity
    requires AreSymbols(EncodeSymbols(data)) && Respelled(SymbolText(EncodeSymbols(data)), typed)
    ensures Decode(typed, capacity) == Decoded(data)
  {
    ReadSymbolText(EncodeSymbols(data));
    RespelledReadsSame(SymbolText(EncodeSymbols(data)), typed);
    DecodeOfReading(data, typed, capacity);
  }

  // ---- The alphabet ----

  /** The letters, then the digits two to seven. */
  lemma Alphabet(v: nat)
    requires v < 32
    ensures ALPHABET[v] == if v < 26 then 'A' + v as char else '2' + (v - 26) as char
  {
    SymbolValueInverse(v);
  }

  /** What a single character reads as: a letter in either case and a digit from two to
      seven as their places in the alphabet, five separators as nothing, and anything
      else as foreign. */
  lemma ReadCharacter(ch: char)
    ensures Read([ch]) == (
              if 'A' <= ch <= 'Z' then Reading([ch as nat - 65], false)
              else if 'a' <= ch <= 'z' then Reading([ch as nat - 97], false)
              else if '2' <= ch <= '7' then Reading([ch as nat - 24], false)
              else Reading([], !(ch == '=' || ch == ' ' || ch == '\t' || ch == '-' || ch == ':')))
  {
    assert [ch][1..] == [] && Read([]) == Reading([], false);
    assert [SymbolValue(ch)] + [] == [SymbolValue(ch)];
  }

  /** A text reads as its parts do, up to the first foreign character. */
  lemma {:induction false} ReadJoin(a: string, b: string)
    ensures Read(a + b) == if Read(a).foreign then Read(a)
                           else Reading(Read(a).symbols + Read(b).symbols, Read(b).foreign)
  {
    hide SymbolValue, IsSkipped, AreSymbols;
    if a == [] {
      assert a + b == b && [] + Read(b).symbols == Read(b).symbols;
    } else {
      ReadJoin(a[1..], b);
      assert (a + b)[1..] == a[1..] + b;
      Assoc([SymbolValue(a[0])], Read(a[1..]).symbols, Read(b).symbols);
    }
  }

  /** What decoding fails on: more bytes than there is room for, found before anything
      foreign behind them, a foreign character, and a text too short for one byte. */
  lemma DecodeFails(text: string, capacity: nat)
    ensures var r := Read(text);
            && (Decode(text, capacity) == Failed(BufferTooSmall) <==> 5 * |r.symbols| >= 8 * (capacity + 1))
            && (Decode(text, capacity) == Failed(Malformed) <==>
                5 * |r.symbols| < 8 * (capacity + 1) && (r.foreign || |r.symbols| < 2))
            && (Decode(text, capacity).Failed? ==> Decode(text, capacity).status in {BufferTooSmall, Malformed})
  {
    hide Read, DecodeSymbols;
  }
}

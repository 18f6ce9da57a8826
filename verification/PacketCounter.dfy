/** The big-endian block counter carried from packet to packet. */
module PacketCounter {
  import opened Bytes
  import opened Positional

  /** The number of distinct values of an n-byte counter. */
  function Modulus(n: nat): (m: nat)
    ensures m > 0
  {
    Pow(256, n)
  }

  /** Big-endian addition modulo 256^n. */
  function Advance(c: ByteString, k: nat): (r: ByteString)
    ensures |r| == |c|
  {
    Digits(256, |c|, Wrap(Value(256, c) + k, Modulus(|c|)))
  }

  function Wrap(x: nat, m: nat): (r: nat)
    requires m > 0
    ensures r < m
  {
    x % m
  }

  lemma AdvanceValue(c: ByteString, k: nat)
    ensures Value(256, Advance(c, k)) == Wrap(Value(256, c) + k, Modulus(|c|))
  {
    hide Wrap, Pow, Value, Digits;
    ValueOfDigits(256, |c|, Wrap(Value(256, c) + k, Modulus(|c|)));
  }

  lemma WrapSplit(x: nat, m: nat) returns (q: nat)
    requires m > 0
    ensures x == q * m + Wrap(x, m)
  {
    q := x / m;
  }

  lemma WrapUnique(x: nat, m: nat, q: nat, r: nat)
    requires m > 0 && r < m && x == q * m + r
    ensures Wrap(x, m) == r
  {
    DivModUnique(x, m, q, r);
  }

  lemma ModAdd(x: nat, y: nat, m: nat)
    requires m > 0
    ensures Wrap(Wrap(x, m) + y, m) == Wrap(x + y, m)
  {
    hide Wrap;
    var p := WrapSplit(x, m);
    var q := WrapSplit(Wrap(x, m) + y, m);
    assert (p + q) * m == p * m + q * m;
    WrapUnique(x + y, m, p + q, Wrap(Wrap(x, m) + y, m));
  }

  /** Advancing twice is advancing by the sum. */
  lemma AdvanceAdvance(c: ByteString, j: nat, k: nat)
    ensures Advance(Advance(c, j), k) == Advance(c, j + k)
  {
    hide Wrap, Pow, Value, Digits, Modulus;
    AdvanceValue(c, j);
    ModAdd(Value(256, c) + j, k, Modulus(|c|));
  }

  lemma AdvanceNone(c: ByteString)
    ensures Advance(c, 0) == c
  {
    ValueBound(256, c);
    DivModUnique(Value(256, c), Modulus(|c|), 0, Value(256, c));
    DigitsOfValue(256, c);
  }

  // ---- The bytewise increment ----

  /** Increment with carry from the last byte. */
  function Increment(c: ByteString): (r: ByteString)
    ensures |r| == |c|
  {
    if c == [] then [] else
      var n := |c| - 1;
      if c[n] == 255 then Increment(c[..n]) + [0] else c[..n] + [c[n] + 1]
  }

  lemma WrapCarry(v: nat, m: nat)
    requires v < m
    ensures Wrap(v * 256 + 255 + 1, 256 * m) == Wrap(v + 1, m) * 256
  {
    if v + 1 == m {
      DivModUnique(m, m, 1, 0);
      DivModUnique(256 * m, 256 * m, 1, 0);
    } else {
      DivModUnique(v + 1, m, 0, v + 1);
      DivModUnique((v + 1) * 256, 256 * m, 0, (v + 1) * 256);
    }
  }

  lemma WrapSmall(x: nat, m: nat)
    requires x < m
    ensures Wrap(x, m) == x
  {
    DivModUnique(x, m, 0, x);
  }

  lemma {:induction false} IncrementValue(c: ByteString)
    ensures Value(256, Increment(c)) == Wrap(Value(256, c) + 1, Modulus(|c|))
  {
    hide Wrap;
    if c == [] {
      WrapCarryNothing();
    } else {
      var n := |c| - 1;
      var v, m := Value(256, c[..n]), Modulus(n);
      ValueBound(256, c[..n]);
      if c[n] == 255 {
        IncrementValue(c[..n]);
        ValueSnoc(256, Increment(c[..n]), 0);
        WrapCarry(v, m);
      } else {
        ValueSnoc(256, c[..n], c[n] + 1);
        WrapSmall(Value(256, c) + 1, 256 * m);
      }
    }
  }

  lemma WrapCarryNothing()
    ensures Wrap(1, 1) == 0
  {
  }

  lemma IncrementIsAdvance(c: ByteString)
    ensures Increment(c) == Advance(c, 1)
  {
    IncrementValue(c);
    AdvanceValue(c, 1);
    ValueInjective(256, Increment(c), Advance(c, 1));
  }

  /** Bytes from i on are 255 and have been turned to zero. */
  lemma {:induction false} CarryPast(c: ByteString, i: nat)
    requires i <= |c| && forall k | i <= k < |c| :: c[k] == 255
    ensures Increment(c) == Increment(c[..i]) + seq(|c| - i, _ => 0)
    decreases |c| - i
  {
    if i == |c| {
      assert c[..i] == c;
    } else {
      CarryPast(c, i + 1);
      assert c[..i + 1][..i] == c[..i];
      assert [0] + seq(|c| - i - 1, _ => 0) == seq(|c| - i, _ => 0);
    }
  }

  /** One pass of the carry loop. */
  method IncrementInPlace(counter: array<Byte>)
    modifies counter
    ensures counter[..] == Increment(old(counter[..]))
  {
    hide Increment;
    ghost var c := counter[..];
    var i := counter.Length;
    while i > 0
      invariant 0 <= i <= counter.Length
      invariant forall k | i <= k < counter.Length :: c[k] == 255 && counter[k] == 0
      invariant forall k | 0 <= k < i :: counter[k] == c[k]
    {
      CarryPast(c, i);
      counter[i - 1] := if counter[i - 1] == 255 then 0 else counter[i - 1] + 1;
      if counter[i - 1] != 0 {
        IncrementNoCarry(c[..i]);
        assert counter[..] == c[..i][..i - 1] + [c[i - 1] + 1] + seq(|c| - i, _ => 0);
        return;
      }
      i := i - 1;
    }
    CarryPast(c, 0);
    IncrementEmpty();
    assert counter[..] == [] + seq(|c|, _ => 0);
  }

  lemma IncrementNoCarry(c: ByteString)
    requires c != [] && c[|c| - 1] != 255
    ensures Increment(c) == c[..|c| - 1] + [c[|c| - 1] + 1]
  {
  }

  lemma IncrementEmpty()
    ensures Increment([]) == []
  {
  }

  /** The nested loops: big-endian addition modulo 256^n. */
  method AdvanceCounter(counter: array<Byte>, blocks: nat)
    modifies counter
    ensures counter[..] == Advance(old(counter[..]), blocks)
  {
    hide Advance, Increment;
    ghost var c := counter[..];
    AdvanceNone(c);
    var left := blocks;
    while left != 0
      invariant 0 <= left <= blocks && counter[..] == Advance(c, blocks - left)
    {
      IncrementIsAdvance(counter[..]);
      AdvanceAdvance(c, blocks - left, 1);
      IncrementInPlace(counter);
      left := left - 1;
    }
  }

  // ---- Counter values along a stream of packets ----

  function Sum(blocks: seq<nat>): nat {
    if blocks == [] then 0 else Sum(blocks[..|blocks| - 1]) + blocks[|blocks| - 1]
  }

  /** The counter in front of packet k when packet i uses blocks[i] blocks. */
  function CounterAt(c: ByteString, blocks: seq<nat>, k: nat): ByteString
    requires k <= |blocks|
  {
    if k == 0 then c else Advance(CounterAt(c, blocks, k - 1), blocks[k - 1])
  }

  lemma {:induction false} CounterAtSum(c: ByteString, blocks: seq<nat>, k: nat)
    requires k <= |blocks|
    ensures CounterAt(c, blocks, k) == Advance(c, Sum(blocks[..k]))
  {
    hide Advance;
    if k == 0 {
      AdvanceNone(c);
    } else {
      CounterAtSum(c, blocks, k - 1);
      AdvanceAdvance(c, Sum(blocks[..k - 1]), blocks[k - 1]);
      assert blocks[..k][..k - 1] == blocks[..k - 1];
    }
  }

  lemma {:induction false} SumMonotone(blocks: seq<nat>, j: nat, k: nat)
    requires j < k <= |blocks|
    ensures Sum(blocks[..j]) + blocks[j] <= Sum(blocks[..k])
  {
    assert blocks[..k][..k - 1] == blocks[..k - 1];
    if j < k - 1 { SumMonotone(blocks, j, k - 1); }
  }

  /** Two positions of the stream less than the modulus apart have different
      counters. */
  lemma AdvanceInjective(c: ByteString, s: nat, t: nat)
    requires s < t < s + Modulus(|c|)
    ensures Advance(c, s) != Advance(c, t)
  {
    hide Advance;
    AdvanceValue(c, s);
    AdvanceValue(c, t);
    ModDiffer(Value(256, c) + s, Value(256, c) + t, Modulus(|c|));
  }

  lemma ModDiffer(x: nat, y: nat, m: nat)
    requires m > 0 && x < y < x + m
    ensures Wrap(x, m) != Wrap(y, m)
  {
    hide Wrap;
    var p := WrapSplit(x, m);
    var q := WrapSplit(y, m);
    if q <= p { MulMono(q, p, m); } else { MulMono(p + 1, q, m); }
  }

  /** The counter fed to the cipher for block b of packet j. */
  function BlockCounter(c: ByteString, blocks: seq<nat>, j: nat, b: nat): ByteString
    requires j < |blocks|
  {
    Advance(CounterAt(c, blocks, j), b)
  }

  /** The packets together use no more blocks than the counter has values. */
  ghost predicate WithinPeriod(c: ByteString, blocks: seq<nat>) {
    Sum(blocks) <= Modulus(|c|)
  }

  lemma BlockPosition(c: ByteString, blocks: seq<nat>, j: nat, b: nat)
    requires j < |blocks| && b < blocks[j]
    ensures BlockCounter(c, blocks, j, b) == Advance(c, Sum(blocks[..j]) + b)
    ensures Sum(blocks[..j]) + b < Sum(blocks)
  {
    hide Advance, CounterAt, Sum;
    CounterAtSum(c, blocks, j);
    AdvanceAdvance(c, Sum(blocks[..j]), b);
    SumMonotone(blocks, j, |blocks|);
    assert blocks[..|blocks|] == blocks;
  }

  /** No keystream block is used twice: two different blocks of the stream have
      different counters until the counter has gone through all its values. */
  lemma BlocksDisjoint(c: ByteString, blocks: seq<nat>, j: nat, b: nat, k: nat, d: nat)
    requires j < |blocks| && k < |blocks| && b < blocks[j] && d < blocks[k]
    requires (j, b) != (k, d) && WithinPeriod(c, blocks)
    ensures BlockCounter(c, blocks, j, b) != BlockCounter(c, blocks, k, d)
  {
    hide Advance, CounterAt, Sum, Modulus, BlockCounter;
    BlockPosition(c, blocks, j, b);
    BlockPosition(c, blocks, k, d);
    var s, t := Sum(blocks[..j]) + b, Sum(blocks[..k]) + d;
    if j < k { SumMonotone(blocks, j, k); }
    if k < j { SumMonotone(blocks, k, j); }
    if s < t { AdvanceInjective(c, s, t); } else { AdvanceInjective(c, t, s); }
  }

  lemma CounterWraps(c: ByteString)
    ensures Advance(c, Modulus(|c|)) == Advance(c, 0)
  {
    var v, m := Value(256, c), Modulus(|c|);
    ValueBound(256, c);
    DivModUnique(v + m, m, 1, v);
    DivModUnique(v + 0, m, 0, v);
  }

  /** The packet and the place in it where block t of the stream lies. */
  lemma {:induction false} Locate(blocks: seq<nat>, t: nat) returns (j: nat, b: nat)
    requires t < Sum(blocks)
    ensures j < |blocks| && b < blocks[j] && Sum(blocks[..j]) + b == t
  {
    var n := |blocks| - 1;
    if t < Sum(blocks[..n]) {
      j, b := Locate(blocks[..n], t);
      assert blocks[..n][..j] == blocks[..j];
    } else {
      j, b := n, t - Sum(blocks[..n]);
    }
  }

  /** Every block of the stream has a counter of its own. */
  ghost predicate AllDistinct(c: ByteString, blocks: seq<nat>) {
    forall j: nat, b: nat, k: nat, d: nat ::
      j < |blocks| && k < |blocks| && b < blocks[j] && d < blocks[k] && (j, b) != (k, d) ==>
        BlockCounter(c, blocks, j, b) != BlockCounter(c, blocks, k, d)
  }

  /** The blocks of a list of packets have distinct counters if and only if the packets
      use no more blocks than the counter has values. */
  lemma DistinctIff(c: ByteString, blocks: seq<nat>)
    ensures AllDistinct(c, blocks) <==> WithinPeriod(c, blocks)
  {
    hide BlockCounter;
    if WithinPeriod(c, blocks) {
      forall j: nat, b: nat, k: nat, d: nat
        | j < |blocks| && k < |blocks| && b < blocks[j] && d < blocks[k] && (j, b) != (k, d)
        ensures BlockCounter(c, blocks, j, b) != BlockCounter(c, blocks, k, d)
      {
        BlocksDisjoint(c, blocks, j, b, k, d);
      }
    } else {
      Collision(c, blocks);
    }
  }

  lemma Collision(c: ByteString, blocks: seq<nat>)
    requires !WithinPeriod(c, blocks)
    ensures !AllDistinct(c, blocks)
  {
    hide BlockCounter, Advance, Modulus;
    var j, b := Locate(blocks, 0);
    var k, d := Locate(blocks, Modulus(|c|));
    BlockPosition(c, blocks, j, b);
    BlockPosition(c, blocks, k, d);
    CounterWraps(c);
    assert BlockCounter(c, blocks, j, b) == BlockCounter(c, blocks, k, d);
  }
}

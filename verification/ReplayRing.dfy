/** The wrapped buffer in which a task keeps its most recent output. */
module ReplayRing {
  import opened Bytes
  import opened Positional

  /** The buffer position of the i-th kept byte. */
  function Slot(start: nat, i: nat, cap: nat): (k: nat)
    requires start < cap && i < cap
    ensures k < cap
  {
    if start + i < cap then start + i else start + i - cap
  }

  lemma SlotMod(start: nat, i: nat, cap: nat)
    requires start < cap && i < cap
    ensures Slot(start, i, cap) == (start + i) % cap
  {
    if start + i < cap {
      DivModUnique(start + i, cap, 0, start + i);
    } else {
      DivModUnique(start + i, cap, 1, start + i - cap);
    }
  }

  /** The kept bytes, oldest first. */
  function View(buf: ByteString, start: nat, len: nat): (s: ByteString)
    requires len <= |buf| && (|buf| > 0 ==> start < |buf|)
    ensures |s| == len
  {
    seq(len, i requires 0 <= i < len => buf[Slot(start, i, |buf|)])
  }

  /** Writing a chunk behind the last kept byte, up to the end of the buffer,
      appends it to the view. */
  lemma ViewExtend(buf: ByteString, buf': ByteString, start: nat, len: nat, pos: nat, chunk: ByteString)
    requires |buf| == |buf'| && start < |buf| && len + |chunk| <= |buf| && len < |buf|
    requires pos == Slot(start, len, |buf|) && pos + |chunk| <= |buf|
    requires forall k | 0 <= k < |buf| :: buf'[k] == if pos <= k < pos + |chunk| then chunk[k - pos] else buf[k]
    ensures View(buf', start, len + |chunk|) == View(buf, start, len) + chunk
  {
    var l, r := View(buf', start, len + |chunk|), View(buf, start, len) + chunk;
    forall i | 0 <= i < len + |chunk| ensures l[i] == r[i] {
      if i < len {
        assert !(pos <= Slot(start, i, |buf|) < pos + |chunk|);
      } else {
        assert Slot(start, i, |buf|) == pos + (i - len);
      }
    }
  }

  /** Advancing the start forgets the oldest bytes. */
  lemma ViewDrop(buf: ByteString, start: nat, len: nat, drop: nat)
    requires start < |buf| && drop <= len <= |buf| && drop < |buf|
    ensures View(buf, Slot(start, drop, |buf|), len - drop) == View(buf, start, len)[drop..]
  {
    var start' := Slot(start, drop, |buf|);
    var l, r := View(buf, start', len - drop), View(buf, start, len)[drop..];
    forall i | 0 <= i < len - drop ensures l[i] == r[i] {
      assert Slot(start', i, |buf|) == Slot(start, drop + i, |buf|);
    }
  }

  /** A stretch of the view that does not cross the buffer's end is contiguous. */
  lemma ViewSlice(buf: ByteString, start: nat, len: nat, offset: nat, n: nat)
    requires start < |buf| && offset + n <= len <= |buf| && offset < |buf|
    requires Slot(start, offset, |buf|) + n <= |buf|
    ensures var pos := Slot(start, offset, |buf|);
            buf[pos..pos + n] == View(buf, start, len)[offset..offset + n]
  {
    var pos := Slot(start, offset, |buf|);
    var l, r := buf[pos..pos + n], View(buf, start, len)[offset..offset + n];
    forall i | 0 <= i < n ensures l[i] == r[i] {
      assert Slot(start, offset + i, |buf|) == pos + i;
    }
  }

  class Ring {
    const buffer: array<Byte>
    var start: nat
    var len: nat

    ghost predicate Valid()
      reads this
    {
      len <= buffer.Length && (buffer.Length > 0 ==> start < buffer.Length)
    }

    ghost function Contents(): (s: ByteString)
      requires Valid()
      reads this, buffer
      ensures |s| == len
    {
      View(buffer[..], start, len)
    }

    constructor (capacity: nat)
      ensures Valid() && fresh(buffer) && buffer.Length == capacity && Contents() == []
    {
      buffer := new Byte[capacity](_ => 0);
      start, len := 0, 0;
    }

    /** The copy of one contiguous chunk. */
    method CopyIn(pos: nat, chunk: ByteString)
      requires pos + |chunk| <= buffer.Length
      modifies buffer
      ensures forall k | 0 <= k < buffer.Length ::
                buffer[k] == if pos <= k < pos + |chunk| then chunk[k - pos] else old(buffer[k])
    {
      forall k | 0 <= k < |chunk| {
        buffer[pos + k] := chunk[k];
      }
    }

    /** At least a full buffer of output: only its end is kept. */
    method Overwrite(data: ByteString)
      requires Valid() && |data| >= buffer.Length > 0
      modifies this, buffer
      ensures Valid() && Contents() == data[|data| - buffer.Length..]
    {
      start := 0;
      CopyIn(0, data[|data| - buffer.Length..]);
      len := buffer.Length;
      assert buffer[..] == data[|data| - buffer.Length..];
    }

    method DropOldest(drop: nat)
      requires Valid() && drop <= len && drop < buffer.Length
      modifies this
      ensures Valid() && Contents() == old(Contents())[drop..]
    {
      hide View;
      ViewDrop(buffer[..], start, len, drop);
      SlotMod(start, drop, buffer.Length);
      start := (start + drop) % buffer.Length;
      len := len - drop;
    }

    /** The next chunk of output, up to the end of the buffer. */
    method WriteChunk(data: ByteString) returns (chunk: nat)
      requires Valid() && data != [] && len + |data| <= buffer.Length
      modifies this`len, buffer
      ensures Valid() && 0 < chunk <= |data| && len == old(len) + chunk
      ensures Contents() == old(Contents()) + data[..chunk]
    {
      hide View;
      SlotMod(start, len, buffer.Length);
      var writePos := (start + len) % buffer.Length;
      chunk := Min(|data|, buffer.Length - writePos);
      ghost var before := buffer[..];
      CopyIn(writePos, data[..chunk]);
      ViewExtend(before, buffer[..], start, len, writePos, data[..chunk]);
      len := len + chunk;
    }

    /** The chunk loop: output that fits behind what is kept. */
    method WriteChunks(data: ByteString)
      requires Valid() && buffer.Length > 0 && len + |data| <= buffer.Length
      modifies this`len, buffer
      ensures Valid() && Contents() == old(Contents()) + data
    {
      hide Contents, Valid;
      var done := 0;
      ghost var kept := Contents();
      assert kept + data[..0] == kept;
      while done < |data|
        invariant 0 <= done <= |data| && Valid()
        invariant len == old(len) + done && Contents() == kept + data[..done]
      {
        ghost var left := data[done..];
        var chunk := WriteChunk(data[done..]);
        Assoc(kept, data[..done], left[..chunk]);
        assert data[..done + chunk] == data[..done] + left[..chunk];
        done := done + chunk;
      }
      assert data[..done] == data;
    }

    /** Appending output keeps the last bytes that fit. */
    method Append(data: ByteString)
      requires Valid()
      modifies this, buffer
      ensures Valid() && Contents() == Tail(old(Contents()) + data, buffer.Length)
    {
      hide View, Tail;
      ghost var kept := Contents();
      if buffer.Length == 0 || |data| == 0 {
        TailShort(kept, data, buffer.Length);
        return;
      }
      if |data| >= buffer.Length {
        TailLong(kept, data, buffer.Length);
        Overwrite(data);
        return;
      }
      TailMiddle(kept, data, buffer.Length);
      if len + |data| > buffer.Length {
        DropOldest(len + |data| - buffer.Length);
      }
      WriteChunks(data);
    }

    /** The next chunk of a replay: as much as is wanted, left and kept, cut only at the
        buffer's end. */
    method CopyOut(offset: nat, remaining: nat, limit: nat) returns (chunk: ByteString)
      requires Valid()
      requires offset < len && remaining > 0 && limit > 0
      ensures 0 < |chunk| <= limit && |chunk| <= remaining && offset + |chunk| <= len
      ensures chunk == Contents()[offset..offset + |chunk|]
      ensures |chunk| == Min(Min(limit, remaining), len - offset) ||
              (start + offset) % buffer.Length + |chunk| == buffer.Length
    {
      var n := Min(Min(limit, remaining), len - offset);
      var pos := (start + offset) % buffer.Length;
      n := Min(n, buffer.Length - pos);
      SlotMod(start, offset, buffer.Length);
      ViewSlice(buffer[..], start, len, offset, n);
      assert buffer[pos..pos + n] == buffer[..][pos..pos + n];
      chunk := buffer[pos..pos + n];
    }
  }

  // ---- The three ways of appending ----

  lemma TailShort(s: ByteString, t: ByteString, n: nat)
    requires |s| <= n && (n == 0 || t == [])
    ensures Tail(s + t, n) == s
  {
    assert t == [] ==> s + t == s;
  }

  lemma TailLong(s: ByteString, t: ByteString, n: nat)
    requires |t| >= n
    ensures Tail(s + t, n) == t[|t| - n..]
  {
    var u := s + t;
    assert |u| <= n ==> s == [] && u == t && t[0..] == t;
    assert u[|u| - n..] == t[|t| - n..];
  }

  lemma TailMiddle(s: ByteString, t: ByteString, n: nat)
    requires |s| <= n && |t| < n
    ensures Tail(s + t, n) == (if |s| + |t| > n then s[|s| + |t| - n..] else s) + t
  {
    var u := s + t;
    if |u| > n {
      var k := |u| - n;
      assert u[k..|s|] == s[k..] && u[|s|..] == t;
      assert u[k..] == u[k..|s|] + u[|s|..];
    }
  }

  // ---- Over whole histories ----

  /** The ring's contents after a history of appends. */
  function After(chunks: seq<ByteString>, cap: nat): ByteString {
    if chunks == [] then []
    else Tail(After(chunks[..|chunks| - 1], cap) + chunks[|chunks| - 1], cap)
  }

  /** After any appends of any lengths the ring holds exactly the last bytes of
      the whole stream. */
  lemma {:induction false} RingHoldsTail(chunks: seq<ByteString>, cap: nat)
    ensures After(chunks, cap) == Tail(Concat(chunks), cap)
  {
    if chunks != [] {
      var n := |chunks| - 1;
      RingHoldsTail(chunks[..n], cap);
      TailTail(Concat(chunks[..n]), chunks[n], cap);
    }
  }
}

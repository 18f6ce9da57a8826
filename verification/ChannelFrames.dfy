/** Channel data on its way to the peer: frames within the transport's payload and the
    peer's packet size, and the 32-bit window they are charged to. */
module ChannelFrames {
  import opened Bytes

  const MAX_DATA: nat := 32759
  const U32_MAX: nat := 0xFFFF_FFFF

  function SaturatingU32(a: nat, b: nat): nat {
    Min(a + b, U32_MAX)
  }

  /** The frames one call of the data sender emits: at least one, each within the
      transport's payload limit. */
  function Chunked(data: ByteString): (r: seq<ByteString>)
    decreases |data|
  {
    if |data| <= MAX_DATA then [data] else [data[..MAX_DATA]] + Chunked(data[MAX_DATA..])
  }

  /** Every frame fits the transport and, when the peer set a limit, the peer. */
  ghost predicate FramesFit(frames: seq<ByteString>, peerMax: nat) {
    forall i | 0 <= i < |frames| :: |frames[i]| <= MAX_DATA && (peerMax != 0 ==> |frames[i]| <= peerMax)
  }

  lemma {:induction false} ChunkedSound(data: ByteString, peerMax: nat)
    requires peerMax != 0 ==> |data| <= peerMax
    ensures Concat(Chunked(data)) == data && FramesFit(Chunked(data), peerMax)
    decreases |data|
  {
    hide Concat;
    if |data| <= MAX_DATA {
      ConcatOne(data);
    } else {
      var head, tail := data[..MAX_DATA], data[MAX_DATA..];
      ChunkedSound(tail, peerMax);
      ConcatOne(head);
      ConcatAppend([head], Chunked(tail));
      FitsAppend([head], Chunked(tail), peerMax);
    }
  }

  /** What a piece may measure when the peer limits its packets. */
  function Limited(n: nat, peerMax: nat): (r: nat)
    ensures r <= n && (n > 0 ==> r > 0) && (peerMax != 0 ==> r <= peerMax)
  {
    if peerMax != 0 && n > peerMax then peerMax else n
  }

  /** The frames of a response that fits the window. */
  function Frames(data: ByteString, peerMax: nat): seq<ByteString>
    decreases |data|
  {
    if data == [] then [] else
      var n := Limited(|data|, peerMax);
      Chunked(data[..n]) + Frames(data[n..], peerMax)
  }

  lemma {:induction false} FramesSound(data: ByteString, peerMax: nat)
    ensures Concat(Frames(data, peerMax)) == data && FramesFit(Frames(data, peerMax), peerMax)
    decreases |data|
  {
    hide Concat, Chunked, FramesFit;
    if data == [] {
      ConcatNone();
      NoFrames(peerMax);
    } else {
      var n := Limited(|data|, peerMax);
      FramesSound(data[n..], peerMax);
      ChunkedSound(data[..n], peerMax);
      ConcatAppend(Chunked(data[..n]), Frames(data[n..], peerMax));
      FitsAppend(Chunked(data[..n]), Frames(data[n..], peerMax), peerMax);
      assert data == data[..n] + data[n..];
    }
  }

  lemma NoFrames(peerMax: nat)
    ensures FramesFit([], peerMax)
  {
  }

  lemma FitsAppend(a: seq<ByteString>, b: seq<ByteString>, peerMax: nat)
    requires FramesFit(a, peerMax) && FramesFit(b, peerMax)
    ensures FramesFit(a + b, peerMax)
  {
  }
}

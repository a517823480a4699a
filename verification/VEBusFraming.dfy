/** Cutting the received byte stream into frames (src/ve_bus.cpp, commandHandling). */
module VEBusFraming {
  import opened Prelude
  import opened VEBusCodec

  /** The frames completed by a stretch of input, and the bytes of the one still open. */
  datatype Reception = Reception(frames: seq<seq<byte>>, pending: seq<byte>)

  /** A full buffer is emptied before the next byte is stored. */
  function Accept(pending: seq<byte>, c: byte): (r: seq<byte>)
    requires |pending| <= MAX_BUFFER_SIZE
    ensures 0 < |r| <= MAX_BUFFER_SIZE && r[|r| - 1] == c
  {
    (if |pending| == MAX_BUFFER_SIZE then [] else pending) + [c]
  }

  function AcceptAll(pending: seq<byte>, s: seq<byte>): (r: seq<byte>)
    requires |pending| <= MAX_BUFFER_SIZE
    ensures |r| <= MAX_BUFFER_SIZE
    ensures s != [] ==> r != [] && r[|r| - 1] == s[|s| - 1]
    decreases s
  {
    if s == [] then pending else AcceptAll(Accept(pending, s[0]), s[1..])
  }

  /** Byte-by-byte reception. */
  function Feed(pending: seq<byte>, stream: seq<byte>): (r: Reception)
    requires |pending| <= MAX_BUFFER_SIZE
    ensures |r.pending| <= MAX_BUFFER_SIZE
    decreases stream
  {
    if stream == [] then Reception([], pending)
    else
      var p := Accept(pending, stream[0]);
      if stream[0] == END_OF_FRAME then
        var r := Feed([], stream[1..]);
        Reception([p] + r.frames, r.pending)
      else Feed(p, stream[1..])
  }

  /** Reception does not depend on where the stream is cut. */
  lemma {:induction false} FeedConcat(pending: seq<byte>, a: seq<byte>, b: seq<byte>)
    requires |pending| <= MAX_BUFFER_SIZE
    ensures Feed(pending, a + b)
         == Reception(Feed(pending, a).frames + Feed(Feed(pending, a).pending, b).frames,
                      Feed(Feed(pending, a).pending, b).pending)
    decreases a
  {
    if a == [] {
      assert a + b == b;
    } else {
      assert (a + b)[1..] == a[1..] + b;
      var p := Accept(pending, a[0]);
      if a[0] == END_OF_FRAME {
        FeedConcat([], a[1..], b);
        ConcatAssociative([p], Feed([], a[1..]).frames, Feed(Feed([], a[1..]).pending, b).frames);
      } else {
        FeedConcat(p, a[1..], b);
      }
    }
  }

  /** Reception of more bytes on top of what was received before. */
  function Continue(r: Reception, s: seq<byte>): (r': Reception)
    requires |r.pending| <= MAX_BUFFER_SIZE
    ensures |r'.pending| <= MAX_BUFFER_SIZE
  {
    var more := Feed(r.pending, s);
    Reception(r.frames + more.frames, more.pending)
  }

  lemma ContinueConcat(r: Reception, a: seq<byte>, b: seq<byte>)
    requires |r.pending| <= MAX_BUFFER_SIZE
    ensures Continue(Continue(r, a), b) == Continue(r, a + b)
  {
    FeedConcat(r.pending, a, b);
  }

  lemma {:induction false} FeedWithoutEnd(pending: seq<byte>, s: seq<byte>)
    requires |pending| <= MAX_BUFFER_SIZE && END_OF_FRAME !in s
    ensures Feed(pending, s) == Reception([], AcceptAll(pending, s))
    decreases s
  {
    if s != [] {
      FeedWithoutEnd(Accept(pending, s[0]), s[1..]);
    }
  }

  /** `s` is a frame on the wire: it ends in the end mark and has no other. */
  ghost predicate IsSegment(s: seq<byte>) {
    s != [] && s[|s| - 1] == END_OF_FRAME && END_OF_FRAME !in s[..|s| - 1]
  }

  ghost predicate AllSegments(segments: seq<seq<byte>>) {
    forall i :: 0 <= i < |segments| ==> IsSegment(segments[i])
  }

  /** What a segment of any length leaves in the 128-byte buffer. */
  function Tail(s: seq<byte>): seq<byte> {
    if s == [] then [] else s[LastMultiple(|s| - 1)..]
  }

  /** The greatest multiple of the buffer size up to `n`. */
  function LastMultiple(n: nat): (r: nat)
    ensures n - MAX_BUFFER_SIZE < r <= n && r % MAX_BUFFER_SIZE == 0
  {
    n / MAX_BUFFER_SIZE * MAX_BUFFER_SIZE
  }

  lemma {:induction false} AcceptAllConcat(pending: seq<byte>, a: seq<byte>, c: byte)
    requires |pending| <= MAX_BUFFER_SIZE
    ensures AcceptAll(pending, a + [c]) == Accept(AcceptAll(pending, a), c)
    decreases a
  {
    if a == [] {
      assert (a + [c])[1..] == [];
    } else {
      AcceptAllConcat(Accept(pending, a[0]), a[1..], c);
      assert (a + [c])[1..] == a[1..] + [c];
    }
  }

  lemma NextMultiple(n: nat)
    requires n > 0
    ensures var before := LastMultiple(n - 1);
      LastMultiple(n) == if n - before == MAX_BUFFER_SIZE then n else before
  {
  }

  lemma {:induction false} AcceptAllIsTail(s: seq<byte>)
    ensures AcceptAll([], s) == Tail(s)
  {
    if s != [] {
      var n := |s| - 1;
      AcceptAllIsTail(s[..n]);
      AcceptAllConcat([], s[..n], s[n]);
      assert s == s[..n] + [s[n]];
      var start := LastMultiple(n);
      if n > 0 {
        var before := LastMultiple(n - 1);
        NextMultiple(n);
        assert s[..n][before..] == s[before..n];
      }
      assert s[start..] == (if start == n then [] else s[start..n]) + [s[n]];
    }
  }

  function Tails(segments: seq<seq<byte>>): seq<seq<byte>> {
    if segments == [] then [] else [Tail(segments[0])] + Tails(segments[1..])
  }

  lemma FeedSegment(s: seq<byte>)
    requires IsSegment(s)
    ensures Feed([], s) == Reception([Tail(s)], [])
  {
    var n := |s| - 1;
    var open := s[..n];
    assert s == open + [END_OF_FRAME];
    FeedConcat([], open, [END_OF_FRAME]);
    FeedWithoutEnd([], open);
    AcceptAllConcat([], open, END_OF_FRAME);
    AcceptAllIsTail(s);
  }

  /** Whatever the stream, it falls into end-marked segments and an open rest, and reception
      dispatches the tails of exactly those segments, in order. */
  lemma {:induction false} FeedSegments(segments: seq<seq<byte>>, rest: seq<byte>)
    requires AllSegments(segments) && END_OF_FRAME !in rest
    ensures Feed([], Flatten(segments) + rest) == Reception(Tails(segments), Tail(rest))
  {
    if segments == [] {
      assert Flatten(segments) + rest == rest;
      FeedWithoutEnd([], rest);
      AcceptAllIsTail(rest);
    } else {
      FeedSegments(segments[1..], rest);
      FeedSegment(segments[0]);
      ConcatAssociative(segments[0], Flatten(segments[1..]), rest);
      FeedConcat([], segments[0], Flatten(segments[1..]) + rest);
    }
  }

  /** Every stream has such a decomposition. */
  lemma {:induction false} StreamSplits(stream: seq<byte>) returns (segments: seq<seq<byte>>, rest: seq<byte>)
    ensures stream == Flatten(segments) + rest
    ensures AllSegments(segments) && END_OF_FRAME !in rest
  {
    if stream == [] {
      segments, rest := [], [];
    } else {
      var more, rest' := StreamSplits(stream[1..]);
      var head := [stream[0]];
      rest := rest';
      if stream[0] == END_OF_FRAME {
        segments := [head] + more;
        assert segments[1..] == more;
        ConcatAssociative(head, Flatten(more), rest);
      } else if more == [] {
        segments, rest := [], head + rest';
        assert rest == stream;
      } else {
        assert IsSegment(more[0]);
        var first := head + more[0];
        segments := [first] + more[1..];
        assert segments[1..] == more[1..];
        assert first[..|first| - 1] == head + more[0][..|more[0]| - 1];
        ConcatAssociative(head, more[0], Flatten(more[1..]));
        ConcatAssociative(head, Flatten(more), rest);
      }
      assert stream == head + stream[1..];
    }
  }

  /** The frames sent for a list of requests, back to back. */
  function WireFrames(requests: seq<(seq<byte>, byte)>): seq<seq<byte>> {
    if requests == [] then [] else
      [WireFrame(requests[0].0, requests[0].1)] + WireFrames(requests[1..])
  }

  lemma WireFrameIsSegment(request: seq<byte>, nr: byte)
    ensures IsSegment(WireFrame(request, nr))
  {
    WireFrameEndsOnce(request, nr);
  }

  lemma {:induction false} ShortTails(segments: seq<seq<byte>>)
    requires forall k :: 0 <= k < |segments| ==> 0 < |segments[k]| <= MAX_BUFFER_SIZE
    ensures Tails(segments) == segments
  {
    if segments != [] {
      ShortTails(segments[1..]);
      ShortTail(segments[0]);
      assert segments == [segments[0]] + segments[1..];
    }
  }

  lemma ShortTail(s: seq<byte>)
    requires s != [] && |s| <= MAX_BUFFER_SIZE
    ensures Tail(s) == s
  {
    assert LastMultiple(|s| - 1) == 0;
  }

  /** Frames of at most 128 bytes, back to back, are received one by one, byte for byte. */
  lemma ShortFramesAreReceived(segments: seq<seq<byte>>)
    requires AllSegments(segments) && forall k :: 0 <= k < |segments| ==> |segments[k]| <= MAX_BUFFER_SIZE
    ensures Feed([], Flatten(segments)) == Reception(segments, [])
  {
    FeedSegments(segments, []);
    ShortTails(segments);
    assert Flatten(segments) + [] == Flatten(segments);
  }

  /** The frames sent for a list of requests are received one by one, byte for byte. */
  lemma SentFramesAreReceived(requests: seq<(seq<byte>, byte)>)
    requires forall r :: r in requests ==> |r.0| <= 60
    ensures Feed([], Flatten(WireFrames(requests))) == Reception(WireFrames(requests), [])
  {
    WireFramesAreShort(requests);
    ShortFramesAreReceived(WireFrames(requests));
  }

  lemma {:induction false} WireFramesAreShort(requests: seq<(seq<byte>, byte)>)
    requires forall r :: r in requests ==> |r.0| <= 60
    ensures AllSegments(WireFrames(requests))
    ensures forall k :: 0 <= k < |WireFrames(requests)| ==> |WireFrames(requests)[k]| <= MAX_BUFFER_SIZE
  {
    if requests != [] {
      WireFramesAreShort(requests[1..]);
      WireFrameIsSegment(requests[0].0, requests[0].1);
      WireFrameFits(requests[0].0, requests[0].1);
    }
  }

  /** A read that stops at the first end mark completes one frame or none. */
  lemma ReadIsFeed(pending: seq<byte>, s: seq<byte>)
    requires |pending| <= MAX_BUFFER_SIZE && s != [] && END_OF_FRAME !in s[..|s| - 1]
    ensures var p := AcceptAll(pending, s);
      && p != [] && p[|p| - 1] == s[|s| - 1]
      && Feed(pending, s) == if s[|s| - 1] == END_OF_FRAME then Reception([p], []) else Reception([], p)
  {
    var n := |s| - 1;
    assert s == s[..n] + [s[n]];
    FeedConcat(pending, s[..n], [s[n]]);
    FeedWithoutEnd(pending, s[..n]);
    AcceptAllConcat(pending, s[..n], s[n]);
  }
}

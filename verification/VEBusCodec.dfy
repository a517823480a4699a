/** The VE.Bus byte codec: escaping, checksum and frame assembly (src/ve_bus.cpp). */
module VEBusCodec {
  import opened Prelude
  import opened StaticTypes

  const MAX_BUFFER_SIZE: nat := 128
  const MK3_ID_0: byte := 0x98
  const MK3_ID_1: byte := 0xF7
  const DATA_FRAME: byte := 0xFE
  const ESCAPE: byte := 0xFA
  const END_OF_FRAME: byte := 0xFF

  /** The byte sent after 0xFA: `0x70 | (v & 0x0F)`, whose two parts share no bit. */
  function EscapeCode(v: byte): byte {
    0x70 + v % 16
  }

  /** Undoes `EscapeCode`, with 8-bit wrap-around for codes that are none. */
  function Unescape(code: byte): byte {
    var v: int := code;
    (v + 0x80) % 256
  }

  function StuffByte(v: byte): seq<byte> {
    if v >= ESCAPE then [ESCAPE, EscapeCode(v)] else [v]
  }

  /** The wire form of a byte string. */
  function Stuff(s: seq<byte>): seq<byte> {
    if s == [] then [] else StuffByte(s[0]) + Stuff(s[1..])
  }

  /** The number of bytes that need an escape. */
  function Escapes(s: seq<byte>): nat {
    if s == [] then 0 else (if s[0] >= ESCAPE then 1 else 0) + Escapes(s[1..])
  }

  /** What the receiver makes of a wire string: FA FF stands for itself. */
  function Destuff(s: seq<byte>): seq<byte> {
    if |s| >= 2 && s[0] == ESCAPE then
      (if s[1] == END_OF_FRAME then [ESCAPE, END_OF_FRAME] else [Unescape(s[1])]) + Destuff(s[2..])
    else if s == [] then [] else [s[0]] + Destuff(s[1..])
  }

  /** Destuffing leaves the first four bytes of a buffer alone. */
  function DestuffFrame(s: seq<byte>): seq<byte> {
    if |s| <= 4 then s else s[..4] + Destuff(s[4..])
  }

  function Sum(s: seq<byte>): nat {
    if s == [] then 0 else s[0] + Sum(s[1..])
  }

  /** Checksum over everything after the two id bytes. */
  function Checksum(s: seq<byte>): byte
    requires 2 <= |s|
  {
    (1 - Sum(s[2..])) % 256
  }

  /** The checksum, escaped when it is 0xFB or above, and the end mark. */
  function Trailer(cs: byte): seq<byte> {
    (if cs >= 0xFB then [ESCAPE, cs - 0xFA] else [cs]) + [END_OF_FRAME]
  }

  function NextFrameNr(nr: byte): byte { (nr + 1) % 128 }

  function Header(nr: byte): seq<byte> {
    [MK3_ID_0, MK3_ID_1, DATA_FRAME, NextFrameNr(nr)]
  }

  /** The bytes a request is transmitted as. */
  function WireFrame(request: seq<byte>, nr: byte): seq<byte> {
    var body := Stuff(Header(nr) + request);
    StuffLength(Header(nr) + request);
    body + Trailer(Checksum(body))
  }

  // ---------------------------------------------------------------- laws of the codec

  lemma {:induction false} StuffLength(s: seq<byte>)
    ensures |Stuff(s)| == |s| + Escapes(s) && Escapes(s) <= |s|
  {
    if s != [] {
      StuffLength(s[1..]);
    }
  }

  /** What a byte is sent as: itself below 0xFA, and otherwise 0xFA and the byte less 0x80. */
  lemma SentByte(v: byte)
    ensures Stuff([v]) == if v < 0xFA then [v] else [0xFA, v - 0x80]
  {
    assert [v][1..] == [];
  }

  lemma {:induction false} EscapesOfSuffix(s: seq<byte>, k: nat)
    requires k <= |s|
    ensures Escapes(s[k..]) <= Escapes(s)
  {
    if k == 0 {
      assert s[k..] == s;
    } else {
      EscapesOfSuffix(s[1..], k - 1);
      assert s[1..][k - 1..] == s[k..];
    }
  }

  lemma {:induction false} StuffConcat(a: seq<byte>, b: seq<byte>)
    ensures Stuff(a + b) == Stuff(a) + Stuff(b)
  {
    if a == [] {
      assert a + b == b;
    } else {
      StuffConcat(a[1..], b);
      assert (a + b)[0] == a[0] && (a + b)[1..] == a[1..] + b;
      ConcatAssociative(StuffByte(a[0]), Stuff(a[1..]), Stuff(b));
    }
  }

  /** An escaped string never contains the end mark. */
  lemma {:induction false} StuffHasNoEnd(s: seq<byte>)
    ensures END_OF_FRAME !in Stuff(s)
  {
    if s != [] {
      StuffHasNoEnd(s[1..]);
      assert END_OF_FRAME !in StuffByte(s[0]);
    }
  }

  lemma DestuffByte(v: byte, rest: seq<byte>)
    ensures Destuff(StuffByte(v) + rest) == [v] + Destuff(rest)
  {
  }

  /** Destuffing undoes stuffing, whatever follows on the wire. */
  lemma {:induction false} DestuffStuff(p: seq<byte>, rest: seq<byte>)
    ensures Destuff(Stuff(p) + rest) == p + Destuff(rest)
  {
    if p == [] {
      assert Stuff(p) + rest == rest;
    } else {
      DestuffStuff(p[1..], rest);
      DestuffByte(p[0], Stuff(p[1..]) + rest);
      ConcatAssociative(StuffByte(p[0]), Stuff(p[1..]), rest);
      ConcatAssociative([p[0]], p[1..], Destuff(rest));
      assert [p[0]] + p[1..] == p;
    }
  }

  lemma DestuffTrailer(c: byte)
    ensures Destuff(Trailer(c)) == [ReceivedChecksum(c), END_OF_FRAME]
  {
    var t := Trailer(c);
    assert Destuff([END_OF_FRAME]) == [END_OF_FRAME];
    if c >= 0xFB {
      assert t[2..] == [END_OF_FRAME];
      assert Unescape(c - 0xFA) == c - 0x7A;
    } else if c == ESCAPE {
      assert t[2..] == [];
    } else {
      assert t[1..] == [END_OF_FRAME];
    }
  }

  /** The round trip behind a four byte header. A checksum up to 0xFA comes back as it was; one of
      0xFB..0xFF travels as FA 01..05 and comes back as 0x81..0x85, so that its width is restored
      and its value is not. */
  lemma FrameRoundTrip(h: seq<byte>, p: seq<byte>, c: byte)
    requires |h| == 4
    ensures DestuffFrame(h + Stuff(p) + Trailer(c))
         == h + p + [ReceivedChecksum(c), END_OF_FRAME]
  {
    var s := h + Stuff(p) + Trailer(c);
    assert s[..4] == h && s[4..] == Stuff(p) + Trailer(c);
    DestuffStuff(p, Trailer(c));
    DestuffTrailer(c);
    assert h + (p + [ReceivedChecksum(c), END_OF_FRAME]) == h + p + [ReceivedChecksum(c), END_OF_FRAME];
  }

  /** The checksum survives the trip exactly when it was not escaped. */
  lemma ChecksumSurvivesIff(h: seq<byte>, p: seq<byte>, c: byte)
    requires |h| == 4
    ensures DestuffFrame(h + Stuff(p) + Trailer(c)) == h + p + [c, END_OF_FRAME] <==> c < 0xFB
  {
    FrameRoundTrip(h, p, c);
    if c >= 0xFB {
      assert (h + p + [c - 0x7A, END_OF_FRAME])[|h + p|] != (h + p + [c, END_OF_FRAME])[|h + p|];
    }
  }

  lemma {:induction false} SumConcat(a: seq<byte>, b: seq<byte>)
    ensures Sum(a + b) == Sum(a) + Sum(b)
  {
    if a == [] {
      assert a + b == b;
    } else {
      SumConcat(a[1..], b);
      assert (a + b)[1..] == a[1..] + b;
    }
  }

  /** From the third byte through the end mark, every transmitted frame sums to 0 modulo 256. */
  lemma WireFrameSumsToZero(request: seq<byte>, nr: byte)
    ensures |WireFrame(request, nr)| >= 2 && Sum(WireFrame(request, nr)[2..]) % 256 == 0
  {
    var body := Stuff(Header(nr) + request);
    StuffLength(Header(nr) + request);
    var t := Trailer(Checksum(body));
    assert WireFrame(request, nr)[2..] == body[2..] + t;
    SumConcat(body[2..], t);
    TrailerSum(Checksum(body));
  }

  lemma TrailerSum(cs: byte)
    ensures Sum(Trailer(cs)) % 256 == (cs + 255) % 256
  {
    var t := Trailer(cs);
    if cs >= 0xFB {
      assert t[1..] == [cs - 0xFA, END_OF_FRAME] && t[1..][1..] == [END_OF_FRAME];
      assert Sum([END_OF_FRAME]) == END_OF_FRAME;
    } else {
      assert t[1..] == [END_OF_FRAME];
      assert Sum([END_OF_FRAME]) == END_OF_FRAME;
    }
  }

  /** The end mark occurs in a transmitted frame once, as its last byte. */
  lemma WireFrameEndsOnce(request: seq<byte>, nr: byte)
    ensures var w := WireFrame(request, nr);
            |w| > 0 && forall i :: 0 <= i < |w| ==> (w[i] == END_OF_FRAME <==> i == |w| - 1)
  {
    StuffHasNoEnd(Header(nr) + request);
    var body := Stuff(Header(nr) + request);
    StuffLength(Header(nr) + request);
    var w := WireFrame(request, nr);
    forall i | 0 <= i < |w|
      ensures w[i] == END_OF_FRAME <==> i == |w| - 1
    {
      if i < |body| {
        assert w[i] == body[i] && body[i] in body;
      }
    }
  }

  function SentChecksum(request: seq<byte>, nr: byte): byte {
    StuffLength(Header(nr) + request);
    Checksum(Stuff(Header(nr) + request))
  }

  /** The value a checksum is destuffed to. */
  function ReceivedChecksum(cs: byte): byte {
    if cs <= 0xFA then cs else cs - 0x7A
  }

  /** The header's own 0xFE is escaped on the wire. */
  lemma WireFrameShape(request: seq<byte>, nr: byte)
    ensures WireFrame(request, nr) == [MK3_ID_0, MK3_ID_1, ESCAPE, 0x7E]
                                      + Stuff([NextFrameNr(nr)] + request) + Trailer(SentChecksum(request, nr))
  {
    var h := [MK3_ID_0, MK3_ID_1, DATA_FRAME];
    var r := [NextFrameNr(nr)] + request;
    assert Header(nr) + request == h + r;
    StuffConcat(h, r);
    assert Stuff(h) == [MK3_ID_0, MK3_ID_1, ESCAPE, 0x7E] by {
      assert h[1..] == [MK3_ID_1, DATA_FRAME] && h[1..][1..] == [DATA_FRAME];
      assert Stuff([DATA_FRAME]) == [ESCAPE, 0x7E] + Stuff([]);
      assert Stuff([MK3_ID_1, DATA_FRAME]) == [MK3_ID_1] + Stuff([DATA_FRAME]);
    }
  }

  /** What a receiver of the same code makes of a whole transmitted frame: the request is intact,
      and the escape of the header's 0xFE, which lies before the fifth byte, stays in place. */
  lemma WireFrameReceived(request: seq<byte>, nr: byte)
    ensures DestuffFrame(WireFrame(request, nr))
         == [MK3_ID_0, MK3_ID_1, ESCAPE, 0x7E, NextFrameNr(nr)] + request
            + [ReceivedChecksum(SentChecksum(request, nr)), END_OF_FRAME]
  {
    WireFrameShape(request, nr);
    var h := [MK3_ID_0, MK3_ID_1, ESCAPE, 0x7E];
    FrameRoundTrip(h, [NextFrameNr(nr)] + request, SentChecksum(request, nr));
  }

  /** Requests of up to 60 bytes always fit the frame buffer once escaped. */
  lemma WireFrameFits(request: seq<byte>, nr: byte)
    requires |request| <= 60
    ensures |WireFrame(request, nr)| <= MAX_BUFFER_SIZE
  {
    WireFrameShape(request, nr);
    var p := [NextFrameNr(nr)] + request;
    StuffLength(p);
    StuffLength(request);
    assert p[1..] == request;
  }

  // ---------------------------------------------------------------- the in-place passes

  /** Makes room for the four header bytes by moving the contents up from the back. */
  method PrepareCommand(buffer: StaticVector<byte>, frameNr: byte)
    requires buffer.Valid() && buffer.N == MAX_BUFFER_SIZE
    modifies buffer`curSize, buffer.storage
    ensures buffer.Valid()
    ensures buffer.Contents() ==
      if |old(buffer.Contents())| + 4 <= MAX_BUFFER_SIZE then Header(frameNr) + old(buffer.Contents())
      else old(buffer.Contents())
  {
    var size := buffer.curSize;
    var ok := buffer.Resize(size + 4);
    if !ok {
      return;
    }
    var storage := buffer.storage;
    ShiftByFour(storage, size);
    storage[0], storage[1], storage[2], storage[3] := MK3_ID_0, MK3_ID_1, DATA_FRAME, NextFrameNr(frameNr);
    assert buffer.Contents() == storage[..4] + storage[4..size + 4];
  }

  method ShiftByFour(storage: array<byte>, size: nat)
    requires size + 4 <= storage.Length
    modifies storage
    ensures storage[4..size + 4] == old(storage[..size])
  {
    ghost var was := storage[..size];
    var i := size + 3;
    while i >= 4
      invariant 3 <= i < size + 4
      invariant storage[..i - 3] == was[..i - 3] && storage[i + 1..size + 4] == was[i - 3..]
    {
      storage[i] := storage[i - 4];
      i := i - 1;
      assert storage[i + 1..size + 4] == [was[i - 3]] + storage[i + 2..size + 4];
    }
  }

  method CountEscapes(buffer: StaticVector<byte>) returns (fas: nat)
    requires buffer.Valid()
    ensures fas == Escapes(buffer.Contents())
  {
    fas := 0;
    ghost var s := buffer.Contents();
    for i := 0 to buffer.curSize
      invariant fas + Escapes(s[i..]) == Escapes(s)
    {
      assert s[i..][1..] == s[i + 1..];
      if buffer.storage[i] >= ESCAPE {
        fas := fas + 1;
      }
    }
  }

  /** One step of the backward pass: writes the byte at `src`, escaped if need be, ending at `dst`. */
  method StuffOne(storage: array<byte>, src: nat, dst: nat, ghost was: seq<byte>, ghost size: nat) returns (next: int)
    requires src <= dst < size <= storage.Length && src < |was|
    requires Stuffed(was, storage[..], src + 1, dst + 1, size)
    modifies storage
    ensures src <= next + 1 <= size && Stuffed(was, storage[..], src, next + 1, size)
  {
    StuffRoom(was, storage[..], src + 1, dst + 1, size);
    if storage[src] >= ESCAPE {
      StuffEscaped(storage, src, dst, was, size);
      next := dst - 2;
    } else {
      StuffPlain(storage, src, dst, was, size);
      next := dst - 1;
    }
  }

  /** A byte from 0xFA up. */
  method StuffEscaped(storage: array<byte>, src: nat, dst: nat, ghost was: seq<byte>, ghost size: nat)
    requires src < dst < size <= storage.Length && src < |was| && storage[src] == was[src] >= ESCAPE
    requires Escapes(was[src..]) == 1 + Escapes(was[src + 1..])
    requires Stuffed(was, storage[..], src + 1, dst + 1, size)
    modifies storage
    ensures Stuffed(was, storage[..], src, dst - 1, size)
  {
    ghost var before := storage[..];
    storage[dst] := EscapeCode(storage[src]);
    storage[dst - 1] := ESCAPE;
    StuffStep(was, before, storage[..], src + 1, dst - 1, size);
  }

  /** A byte below 0xFA. */
  method StuffPlain(storage: array<byte>, src: nat, dst: nat, ghost was: seq<byte>, ghost size: nat)
    requires src <= dst < size <= storage.Length && src < |was| && storage[src] == was[src] < ESCAPE
    requires Escapes(was[src..]) == Escapes(was[src + 1..])
    requires Stuffed(was, storage[..], src + 1, dst + 1, size)
    modifies storage
    ensures Stuffed(was, storage[..], src, dst, size)
  {
    ghost var before := storage[..];
    storage[dst] := storage[src];
    StuffStep(was, before, storage[..], src + 1, dst, size);
  }

  /** Backward in-place escaping: `dst` stays ahead of `src` by the escapes still to come, so no
      byte is overwritten before it is read. */
  method StuffingFAtoFF(buffer: StaticVector<byte>)
    requires buffer.Valid()
    modifies buffer`curSize, buffer.storage
    ensures buffer.Valid()
    ensures buffer.Contents() ==
      if |Stuff(old(buffer.Contents()))| <= buffer.N then Stuff(old(buffer.Contents()))
      else old(buffer.Contents())
  {
    ghost var was := buffer.Contents();
    StuffLength(was);
    var fas := CountEscapes(buffer);
    var ok := buffer.Resize(buffer.curSize + fas);
    if !ok {
      return;
    }
    StuffInPlace(buffer.storage, fas, buffer.curSize, was);
  }

  /** The backward loop, on the storage block. */
  method StuffInPlace(storage: array<byte>, fas: nat, size: nat, ghost was: seq<byte>)
    requires fas == Escapes(was) && size == |was| + fas <= storage.Length && storage[..|was|] == was
    modifies storage
    ensures storage[..size] == Stuff(was)
  {
    var dst := size - 1;
    var src := dst - fas;
    assert was[|was|..] == [];
    while src >= 0
      invariant -1 <= src <= dst < size && src < |was|
      invariant Stuffed(was, storage[..], src + 1, dst + 1, size)
    {
      dst := StuffOne(storage, src, dst, was, size);
      src := src - 1;
    }
    StuffDone(was, storage[..], dst + 1, size);
  }

  /** State of the backward pass with `src` bytes of `was` unread and `dst` slots unwritten. */
  ghost predicate Stuffed(was: seq<byte>, s: seq<byte>, src: nat, dst: nat, size: nat)
    requires src <= |was| && src <= dst <= size <= |s|
  {
    && size == |was| + Escapes(was)
    && dst - src == Escapes(was) - Escapes(was[src..])
    && s[..src] == was[..src]
    && s[dst..size] == Stuff(was[src..])
  }

  lemma StuffRoom(was: seq<byte>, s: seq<byte>, src: nat, dst: nat, size: nat)
    requires 0 < src <= |was| && src <= dst <= size <= |s| && Stuffed(was, s, src, dst, size)
    ensures s[src - 1] == was[src - 1]
    ensures Escapes(was[src - 1..]) == (if was[src - 1] >= ESCAPE then 1 else 0) + Escapes(was[src..])
    ensures was[src - 1] >= ESCAPE ==> src < dst
  {
    assert s[src - 1] == s[..src][src - 1] == was[..src][src - 1];
    assert was[src - 1..][1..] == was[src..];
    EscapesOfSuffix(was, src - 1);
  }

  lemma StuffStep(was: seq<byte>, s: seq<byte>, t: seq<byte>, src: nat, dst: nat, size: nat)
    requires 0 < src <= |was| && src <= dst + |StuffByte(was[src - 1])| <= size <= |s| == |t| && src - 1 <= dst
    requires Stuffed(was, s, src, dst + |StuffByte(was[src - 1])|, size)
    requires s[src - 1] == was[src - 1]
    requires Escapes(was[src - 1..]) == (if was[src - 1] >= ESCAPE then 1 else 0) + Escapes(was[src..])
    requires t == if was[src - 1] >= ESCAPE then s[dst + 1 := EscapeCode(was[src - 1])][dst := ESCAPE]
                  else s[dst := was[src - 1]]
    ensures Stuffed(was, t, src - 1, dst, size)
  {
    var code := StuffByte(was[src - 1]);
    assert was[src - 1..][1..] == was[src..];
    assert Stuff(was[src - 1..]) == code + Stuff(was[src..]);
    assert t[..src - 1] == s[..src][..src - 1] == was[..src - 1];
    assert t[dst..size] == code + s[dst + |code|..size];
  }

  lemma StuffDone(was: seq<byte>, s: seq<byte>, dst: nat, size: nat)
    requires dst <= size <= |s| && Stuffed(was, s, 0, dst, size)
    ensures s[..size] == Stuff(was)
  {
  }

  /** Whether the last token is an escape without its second byte. */
  predicate Dangling(s: seq<byte>) {
    if |s| >= 2 && s[0] == ESCAPE then Dangling(s[2..])
    else s != [] && ((|s| == 1 && s[0] == ESCAPE) || Dangling(s[1..]))
  }

  /** Whether destuffing reads the byte behind the buffer's contents. */
  predicate ReadsBehind(s: seq<byte>) {
    |s| > 4 && Dangling(s[4..])
  }

  /** What destuffing leaves, given the byte behind the contents: a dangling escape is dropped, but
      kept when that byte is 0xFF. */
  function DestuffBuffer(s: seq<byte>, behind: byte): seq<byte> {
    if ReadsBehind(s) && behind != END_OF_FRAME then DestuffFrame(s)[..|DestuffFrame(s)| - 1] else DestuffFrame(s)
  }

  lemma {:induction false} CompleteTokens(s: seq<byte>)
    requires s != [] && s[|s| - 1] != ESCAPE
    ensures !Dangling(s)
  {
    var n := TokenLength(s);
    if n < |s| {
      assert s[n..][|s[n..]| - 1] == s[|s| - 1];
      CompleteTokens(s[n..]);
    }
  }

  /** Forward in-place unescaping: `dst` falls behind `src` by the escapes removed so far. Behind a
      dangling escape the loop reads one byte past the contents, which has to be a byte of the
      buffer's storage still. */
  method DestuffingFAtoFF(buffer: StaticVector<byte>)
    requires buffer.Valid()
    requires ReadsBehind(buffer.Contents()) ==> buffer.curSize < buffer.N
    modifies buffer`curSize, buffer.storage
    ensures buffer.Valid()
    ensures buffer.Contents() == old(
      DestuffBuffer(buffer.Contents(), if buffer.curSize < buffer.N then buffer.storage[buffer.curSize] else 0))
  {
    if buffer.curSize <= 4 {
      return;
    }
    ghost var was := buffer.Contents();
    ghost var behind := if buffer.curSize < buffer.N then buffer.storage[buffer.curSize] else 0;
    var storage, size := buffer.storage, buffer.curSize;
    var fas, src, dst := 0, 4, 4;
    while src < size
      invariant 4 <= dst <= src <= size + 1 && size == |was| == buffer.curSize <= storage.Length
      invariant src <= size ==> src - dst == fas && Underway(was, storage[..], src, dst, behind)
      invariant src > size ==> fas <= size && storage[..size - fas] == DestuffBuffer(was, behind)
      decreases size - src
    {
      var removed;
      src, dst, removed := DestuffOne(storage, src, dst, was, behind);
      if removed {
        fas := fas + 1;
      }
    }
    var _ := buffer.Resize(size - fas);
    if src == size {
      assert was[src..] == [];
      assert buffer.Contents() == storage[..][..4] + storage[..][4..dst];
    }
  }

  /** The forward pass before its end, with the byte behind the contents untouched. */
  ghost predicate Underway(was: seq<byte>, s: seq<byte>, src: nat, dst: nat, behind: byte)
    requires 4 <= dst <= src <= |was| <= |s|
  {
    && Destuffed(was, s, src, dst)
    && (Dangling(was[src..]) <==> ReadsBehind(was))
    && (ReadsBehind(was) ==> |was| < |s| && s[|was|] == behind)
  }

  /** State of the forward pass with `src` bytes read and `dst` written. */
  ghost predicate Destuffed(was: seq<byte>, s: seq<byte>, src: nat, dst: nat)
    requires 4 <= dst <= src <= |was| <= |s|
  {
    && s[..4] == was[..4]
    && s[src..|was|] == was[src..]
    && s[4..dst] + Destuff(was[src..]) == Destuff(was[4..])
  }

  /** One step of the forward pass. A dangling escape takes it past the end of the contents. */
  method DestuffOne(storage: array<byte>, src: nat, dst: nat, ghost was: seq<byte>, ghost behind: byte)
    returns (src': nat, dst': nat, removed: bool)
    requires 4 <= dst <= src < |was| <= storage.Length && Underway(was, storage[..], src, dst, behind)
    modifies storage
    ensures src < src' <= |was| + 1 && 4 <= dst' <= src'
    ensures src' <= |was| ==>
      src' - dst' == src - dst + (if removed then 1 else 0) && Underway(was, storage[..], src', dst', behind)
    ensures src' > |was| ==>
      var end := |was| - (src - dst) - (if removed then 1 else 0);
      0 <= end && storage[..end] == DestuffBuffer(was, behind)
  {
    ghost var before := storage[..];
    HeadToken(was, before, src, dst, behind);
    src', dst', removed := MoveToken(storage, src, dst);
    TokenIsMoved(was, before, storage[..], src, dst, src', dst', removed, behind);
  }

  /** The byte, or the escape and the byte behind it, is read at `src` and written at `dst`. */
  method MoveToken(storage: array<byte>, src: nat, dst: nat) returns (src': nat, dst': nat, removed: bool)
    requires dst <= src < storage.Length && (storage[src] == ESCAPE ==> src + 1 < storage.Length)
    modifies storage
    ensures storage[..] == Moved(old(storage[..]), src, dst)
    ensures src' == src + (if old(storage[src]) == ESCAPE then 2 else 1)
    ensures removed <==> old(storage[src]) == ESCAPE && old(storage[src + 1]) != END_OF_FRAME
    ensures src' - dst' == src - dst + (if removed then 1 else 0)
  {
    removed := false;
    if storage[src] == ESCAPE {
      if storage[src + 1] == END_OF_FRAME {
        storage[dst] := ESCAPE;
        storage[dst + 1] := END_OF_FRAME;
        dst' := dst + 2;
      } else {
        storage[dst] := Unescape(storage[src + 1]);
        dst' := dst + 1;
        removed := true;
      }
      src' := src + 2;
    } else {
      storage[dst] := storage[src];
      src', dst' := src + 1, dst + 1;
    }
  }

  function Moved(s: seq<byte>, src: nat, dst: nat): (t: seq<byte>)
    requires dst <= src < |s| && (s[src] == ESCAPE ==> src + 1 < |s|)
    ensures |t| == |s|
  {
    if s[src] != ESCAPE then s[dst := s[src]]
    else if s[src + 1] == END_OF_FRAME then s[dst := ESCAPE][dst + 1 := END_OF_FRAME]
    else s[dst := Unescape(s[src + 1])]
  }

  lemma TokenIsMoved(was: seq<byte>, s: seq<byte>, t: seq<byte>, src: nat, dst: nat,
                     src': nat, dst': nat, removed: bool, behind: byte)
    requires 4 <= dst <= src < |was| <= |s| && Underway(was, s, src, dst, behind)
    requires (s[src] == ESCAPE ==> src + 1 < |s|) && t == Moved(s, src, dst)
    requires src' == src + (if s[src] == ESCAPE then 2 else 1)
    requires removed <==> s[src] == ESCAPE && s[src + 1] != END_OF_FRAME
    requires src' - dst' == src - dst + (if removed then 1 else 0)
    ensures src < src' <= |was| + 1 && 4 <= dst' <= src'
    ensures src' <= |was| ==> Underway(was, t, src', dst', behind)
    ensures src' > |was| ==>
      var end := |was| - (src - dst) - (if removed then 1 else 0);
      0 <= end && t[..end] == DestuffBuffer(was, behind)
  {
    HeadToken(was, s, src, dst, behind);
    if src' <= |was| {
      MovedIsUnderway(was, s, t, src, dst, behind);
    } else {
      LastIsMoved(was, s, t, src, dst, behind);
    }
  }

  lemma MovedIsUnderway(was: seq<byte>, s: seq<byte>, t: seq<byte>, src: nat, dst: nat, behind: byte)
    requires 4 <= dst <= src < |was| <= |s| && Underway(was, s, src, dst, behind)
    requires (s[src] == ESCAPE ==> src + 1 < |was|) && t == Moved(s, src, dst)
    ensures var next, end := src + TokenLength(was[src..]), dst + |Token(was[src..])|;
      next <= |was| && Underway(was, t, next, end, behind)
    ensures TokenLength(was[src..]) == if s[src] == ESCAPE then 2 else 1
    ensures |Token(was[src..])| == if s[src] == ESCAPE && s[src + 1] == END_OF_FRAME then 2 else 1
  {
    HeadToken(was, s, src, dst, behind);
    DestuffStep(was, s, t, src, dst);
  }

  lemma LastIsMoved(was: seq<byte>, s: seq<byte>, t: seq<byte>, src: nat, dst: nat, behind: byte)
    requires 4 <= dst <= src == |was| - 1 && src + 1 < |s| && Underway(was, s, src, dst, behind)
    requires s[src] == was[src] == ESCAPE && s[src + 1] == behind && t == Moved(s, src, dst)
    ensures t[..if behind == END_OF_FRAME then dst + 1 else dst] == DestuffBuffer(was, behind)
  {
    DestuffDangling(was, s, src, dst, behind);
    assert t[..dst] == s[..dst];
  }

  /** The length of the wire token at the head of `s`. */
  function TokenLength(s: seq<byte>): nat
    requires s != []
  {
    if |s| >= 2 && s[0] == ESCAPE then 2 else 1
  }

  /** What the wire token at the head of `s` stands for. */
  function Token(s: seq<byte>): seq<byte>
    requires s != []
  {
    if |s| >= 2 && s[0] == ESCAPE then
      if s[1] == END_OF_FRAME then [ESCAPE, END_OF_FRAME] else [Unescape(s[1])]
    else [s[0]]
  }

  lemma HeadToken(was: seq<byte>, s: seq<byte>, src: nat, dst: nat, behind: byte)
    requires 4 <= dst <= src < |was| <= |s| && Underway(was, s, src, dst, behind)
    ensures s[src] == was[src]
    ensures was[src] == ESCAPE ==> src + 1 < |s| && s[src + 1] == if src + 1 < |was| then was[src + 1] else behind
    ensures was[src] == ESCAPE && src + 1 == |was| ==> ReadsBehind(was)
    ensures was[src] != ESCAPE || src + 1 < |was| ==>
      src + TokenLength(was[src..]) <= |was|
      && (Dangling(was[src + TokenLength(was[src..])..]) <==> Dangling(was[src..]))
  {
    var rest := was[src..];
    assert s[src] == s[src..|was|][0] == rest[0];
    if src + 1 < |was| {
      assert s[src + 1] == s[src..|was|][1] == rest[1];
    }
    assert was[src + TokenLength(rest)..] == rest[TokenLength(rest)..];
  }

  lemma DestuffDangling(was: seq<byte>, s: seq<byte>, src: nat, dst: nat, behind: byte)
    requires 4 <= dst <= src == |was| - 1 < |s| && Underway(was, s, src, dst, behind) && was[src] == ESCAPE
    ensures DestuffFrame(was) == s[..dst] + [ESCAPE] && ReadsBehind(was)
    ensures DestuffBuffer(was, behind) == if behind == END_OF_FRAME then s[..dst] + [ESCAPE] else s[..dst]
  {
    assert was[src..] == [ESCAPE];
    assert Destuff([ESCAPE]) == [ESCAPE] by { assert [ESCAPE][1..] == []; }
    assert s[..dst] == s[..4] + s[4..dst];
    ConcatAssociative(s[..4], s[4..dst], [ESCAPE]);
  }

  lemma DestuffStep(was: seq<byte>, s: seq<byte>, t: seq<byte>, src: nat, dst: nat)
    requires 4 <= dst <= src < |was| <= |s| == |t| && Destuffed(was, s, src, dst)
    requires src + TokenLength(was[src..]) <= |was|
    requires t == if |Token(was[src..])| == 2 then s[dst := Token(was[src..])[0]][dst + 1 := Token(was[src..])[1]]
                  else s[dst := Token(was[src..])[0]]
    ensures Destuffed(was, t, src + TokenLength(was[src..]), dst + |Token(was[src..])|)
  {
    var rest, token := was[src..], Token(was[src..]);
    var next := src + TokenLength(rest);
    assert rest[TokenLength(rest)..] == was[next..];
    assert Destuff(rest) == token + Destuff(was[next..]);
    assert t[..4] == s[..4];
    assert t[next..|was|] == s[src..|was|][TokenLength(rest)..];
    assert t[4..dst + |token|] == s[4..dst] + token;
    ConcatAssociative(s[4..dst], token, Destuff(was[next..]));
  }

  method ComputeChecksum(buffer: StaticVector<byte>) returns (cs: byte)
    requires buffer.Valid() && 2 <= buffer.curSize
    ensures cs == Checksum(buffer.Contents())
  {
    ghost var was, total := buffer.Contents(), 0;
    cs := 1;
    for i := 2 to buffer.curSize
      invariant total + Sum(was[i..]) == Sum(was[2..]) && cs == (1 - total) % 256
    {
      assert was[i..][1..] == was[i + 1..] && was[i..][0] == was[i] == buffer.storage[i];
      SubtractOne(total, was[i]);
      total := total + was[i];
      cs := (cs - buffer.storage[i]) % 256;
    }
  }

  lemma SubtractOne(total: int, v: byte)
    ensures ((1 - total) % 256 - v) % 256 == (1 - (total + v)) % 256
  {
  }

  /** As much of a byte string as fits `n` bytes. */
  function Capped(s: seq<byte>, n: nat): seq<byte> {
    if |s| <= n then s else s[..n]
  }

  /** Appends checksum and end mark, of which a full buffer takes no more than fits. */
  method AppendChecksum(buffer: StaticVector<byte>)
    requires buffer.Valid()
    modifies buffer`curSize, buffer.storage
    ensures buffer.Valid()
    ensures buffer.Contents() ==
      if |old(buffer.Contents())| < 2 then old(buffer.Contents())
      else Capped(old(buffer.Contents()) + Trailer(Checksum(old(buffer.Contents()))), buffer.N)
  {
    if buffer.curSize < 2 {
      return;
    }
    var cs := ComputeChecksum(buffer);
    if cs >= 0xFB {
      var _ := buffer.Push(ESCAPE);
      var _ := buffer.Push(cs - 0xFA);
    } else {
      var _ := buffer.Push(cs);
    }
    var _ := buffer.Push(END_OF_FRAME);
  }

  /** Copies a stored byte string into an empty buffer. */
  method Fill(buffer: StaticVector<byte>, data: seq<byte>)
    requires buffer.Valid() && buffer.Contents() == [] && |data| <= buffer.N
    modifies buffer`curSize, buffer.storage
    ensures buffer.Valid() && buffer.Contents() == data
  {
    for i := 0 to |data|
      invariant buffer.Valid() && buffer.Contents() == data[..i]
    {
      var _ := buffer.Push(data[i]);
    }
  }

  /** What a request without room for its header, its escapes or its trailer becomes: the steps that
      do not fit are left out and the others are taken all the same. */
  function Transmitted(request: seq<byte>, nr: byte): seq<byte> {
    var framed := if |request| + 4 <= MAX_BUFFER_SIZE then Header(nr) + request else request;
    StuffLength(framed);
    var body := if |Stuff(framed)| <= MAX_BUFFER_SIZE then Stuff(framed) else framed;
    Capped(body + Trailer(Checksum(body)), MAX_BUFFER_SIZE)
  }

  /** Assembles and transmits one request. The bytes handed to the serial line are the wire form
      of the request exactly when that form fits the frame buffer. */
  method SendData(requestData: seq<byte>, frameNr: byte) returns (written: seq<byte>)
    requires |requestData| <= MAX_BUFFER_SIZE
    ensures written == Transmitted(requestData, frameNr)
    ensures written == WireFrame(requestData, frameNr) <==> |WireFrame(requestData, frameNr)| <= MAX_BUFFER_SIZE
  {
    var buffer := new StaticVector<byte>(MAX_BUFFER_SIZE);
    Fill(buffer, requestData);
    StuffLength(Header(frameNr) + requestData);
    PrepareCommand(buffer, frameNr);
    StuffingFAtoFF(buffer);
    AppendChecksum(buffer);
    written := buffer.storage[..buffer.curSize];
  }
}

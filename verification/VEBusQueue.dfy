/** What each critical section of the VE.Bus request queue does to the queue (src/ve_bus.cpp),
    on values; VEBusDriver holds the methods that do it in place. */
module VEBusQueue {
  import opened Prelude
  import opened VEBusCodec

  const FIFO_SIZE: nat := 16
  const RESPONSE_TIMEOUT: nat := 10000
  const MAX_RESEND: nat := 3
  const MP_ID_0: byte := 0x83
  const MP_ID_1: byte := 0x83
  const SYNC_FRAME: byte := 0xFD
  const SYNC_BYTE: byte := 0x55

  /** A queue entry. `transmissions` counts the sends since the entry was last inserted or
      updated; it is bookkeeping of the model. */
  datatype Data = Data(
    responseExpected: bool,
    isSent: bool,
    id: byte,
    command: byte,
    address: byte,
    expectedResponseCode: byte,
    sentTimeMs: Millis,
    resendCount: nat,
    requestData: seq<byte>,
    responseData: seq<byte>,
    transmissions: nat)

  // ---------------------------------------------------------------- command builders

  /** A value of 16 bits, signed or unsigned. */
  type Value16 = x: int | -0x8000 <= x < 0x1_0000

  type Signed16 = x: int | -0x8000 <= x < 0x8000

  datatype Request =
    | WriteRam(variable: byte, value: Value16, eeprom: bool)
    | WriteSetting(setting: byte, value: Value16, eeprom: bool)
    | SetPower(power: Signed16)
    | ReadRam(variable: byte)
    | ReadSetting(setting: byte)
    | ReadRamInfo(variable: byte)
    | ReadSettingInfo(setting: byte)
    | ReadSoftwareVersion
    | ReadDeviceState

  function NewData(id: byte, command: byte, address: byte, code: byte, request: seq<byte>): Data {
    Data(true, false, id, command, address, code, 0, 0, request, [], 0)
  }

  /** `value & 0xff` and `value >> 8` cut to a byte, also for negative values. */
  function LowByte(value: Value16): byte {
    var v: int := value;
    v % 256
  }

  function HighByte(value: Value16): byte {
    var v: int := value;
    v / 256 % 256
  }

  function WriteBytes(id: byte, setting: bool, eeprom: bool, address: byte, value: Value16): seq<byte> {
    [0x00, id, 0x37, (if setting then 1 else 0) + (if eeprom then 0 else 2), address, LowByte(value), HighByte(value)]
  }

  function Build(r: Request, id: byte): Data {
    match r
    case WriteRam(v, value, e) => NewData(id, 0x32, v, 0x87, WriteBytes(id, false, e, v, value))
    case WriteSetting(s, value, e) => NewData(id, 0x33, s, 0x87, WriteBytes(id, true, e, s, value))
    case SetPower(power) => NewData(id, 0x32, 0x83, 0x87, WriteBytes(id, false, false, 0x83, power))
    case ReadRam(v) => NewData(id, 0x30, v, 0x85, [0x00, id, 0x30, v])
    case ReadSetting(s) => NewData(id, 0x31, s, 0x86, [0x00, id, 0x31, s, 0x00])
    case ReadRamInfo(v) => NewData(id, 0x36, v, 0x8E, [0x00, id, 0x36, v, 0x00])
    case ReadSettingInfo(s) => NewData(id, 0x35, s, 0x89, [0x00, id, 0x35, s, 0x00])
    case ReadSoftwareVersion => NewData(id, 0x05, 0x00, 0x82, [0x00, id, 0x05])
    case ReadDeviceState => NewData(id, 0x0E, 0x00, 0x94, [0x00, id, 0x0E, 0x00, 0x00])
  }

  /** A switch command waits for no response, has id 0 and leaves command and address unset, so
      that these two are whatever the memory held. */
  function BuildSwitch(switchState: byte, command: byte, address: byte): Data {
    Data(false, false, 0, command, address, 0, 0, 0, [0x3F, switchState, 0x00, 0x00, 0x00], [], 0)
  }

  // ---------------------------------------------------------------- insertion and ids

  predicate SameKey(a: Data, b: Data) {
    a.command == b.command && a.address == b.address
  }

  /** The first entry with the key of `d`, or the queue's length. */
  function FindKey(q: seq<Data>, d: Data): (i: nat)
    ensures i <= |q| && (i < |q| ==> SameKey(q[i], d))
    ensures forall j :: 0 <= j < i ==> !SameKey(q[j], d)
  {
    if q == [] || SameKey(q[0], d) then 0 else 1 + FindKey(q[1..], d)
  }

  function AddOrUpdate(q: seq<Data>, d: Data, now: Millis): seq<Data> {
    var i := FindKey(q, d);
    if i < |q| then q[i := d.(sentTimeMs := now, isSent := false)]
    else if |q| < FIFO_SIZE then q + [d.(responseData := [], sentTimeMs := now)]
    else q
  }

  /** The id tried after `last`: ids run from 0x80 through 0xFF and around. */
  function NextId(last: byte): byte {
    if last < 0x80 || last == 0xFF then 0x80 else last + 1
  }

  function Cycle(last: byte, n: nat): byte {
    if n == 0 then last else NextId(Cycle(last, n - 1))
  }

  predicate HasId(q: seq<Data>, id: byte) {
    exists i :: 0 <= i < |q| && q[i].id == id
  }

  // ---------------------------------------------------------------- received frames

  datatype Message = Sync | Response | Other

  /** `operator[]` on a non-empty buffer. */
  function At(s: seq<byte>, i: nat): byte
    requires s != []
  {
    if i < |s| then s[i] else s[0]
  }

  function Decode(buffer: seq<byte>): Message
    requires buffer != []
  {
    if At(buffer, 0) != MP_ID_0 || At(buffer, 1) != MP_ID_1 then Other
    else if At(buffer, 2) == SYNC_FRAME && |buffer| == 10 && At(buffer, 4) == SYNC_BYTE then Sync
    else if At(buffer, 2) == DATA_FRAME && At(buffer, 4) == 0x00 && |buffer| >= 6 then Response
    else Other
  }

  /** The first entry with this id, or the queue's length. */
  function FindId(q: seq<Data>, id: byte): (i: nat)
    ensures i <= |q| && (i < |q| ==> q[i].id == id)
    ensures forall j :: 0 <= j < i ==> q[j].id != id
  {
    if q == [] || q[0].id == id then 0 else 1 + FindId(q[1..], id)
  }

  function StoreResponse(q: seq<Data>, buffer: seq<byte>): seq<Data>
    requires |buffer| >= 6
  {
    var i := FindId(q, buffer[5]);
    if i < |q| then q[i := q[i].(responseData := buffer)] else q
  }

  /** The first entry not yet sent, or the queue's length. */
  function FirstUnsent(q: seq<Data>): (i: nat)
    ensures i <= |q| && (i < |q| ==> !q[i].isSent)
    ensures forall j :: 0 <= j < i ==> q[j].isSent
  {
    if q == [] || !q[0].isSent then 0 else 1 + FirstUnsent(q[1..])
  }

  function Sent(d: Data, now: Millis): Data {
    d.(sentTimeMs := now, isSent := true, transmissions := d.transmissions + 1)
  }

  /** One transmission slot: the first unsent entry goes out and leaves if it expects no response. */
  function Transmit(q: seq<Data>, now: Millis): seq<Data> {
    var i := FirstUnsent(q);
    if i == |q| then q
    else if q[i].responseExpected then q[i := Sent(q[i], now)]
    else SwapRemove(q[i := Sent(q[i], now)], i)
  }

  /** The queue after a received frame was handled. */
  function Received(q: seq<Data>, frame: seq<byte>, now: Millis): seq<Data>
    requires frame != []
  {
    match Decode(frame)
    case Other => q
    case Response => StoreResponse(q, frame)
    case Sync => Transmit(q, now)
  }

  /** The frames written in reaction to a received frame: at most one, and only to a sync frame. */
  function Written(q: seq<Data>, frame: seq<byte>): seq<seq<byte>>
    requires frame != []
  {
    var i := FirstUnsent(q);
    if Decode(frame) == Sync && i < |q| then [WireFrame(q[i].requestData, At(frame, 3))] else []
  }

  // ---------------------------------------------------------------- maintenance

  function Resend(d: Data, now: Millis): Data
    requires d.resendCount < MAX_RESEND
  {
    d.(resendCount := d.resendCount + 1, isSent := false, sentTimeMs := now)
  }

  /** `_dataFifo[i] = *_dataFifo.pop()`: the pop comes first, so that for the last of several
      entries the index is already out of range and refers to slot 0. */
  function PopInto(q: seq<Data>, i: nat): (r: seq<Data>)
    requires i < |q|
    ensures |r| == |q| - 1
  {
    var k := if i == |q| - 1 then 0 else i;
    SwapRemove(q, k)
  }

  /** The last entry holding a response, or the queue's length. */
  function LastResponse(q: seq<Data>): (i: nat)
    ensures i <= |q| && (i < |q| ==> q[i].responseData != [])
    ensures forall j :: 0 <= j < |q| && (i == |q| || i < j) ==> q[j].responseData == []
  {
    if q == [] then 0
    else
      var n := |q| - 1;
      if q[n].responseData != [] then n
      else
        var i := LastResponse(q[..n]);
        if i == n then n + 1 else i
  }

  predicate Matches(d: Data)
    requires d.responseData != []
  {
    At(d.responseData, 6) == d.expectedResponseCode
  }

  function CheckResponse(q: seq<Data>, now: Millis): seq<Data> {
    var i := LastResponse(q);
    if i == |q| then q
    else if Matches(q[i]) || q[i].resendCount >= MAX_RESEND then PopInto(q, i)
    else q[i := Resend(q[i], now)]
  }

  /** The request whose response is handed on by this pass. */
  function Completed(q: seq<Data>): Option<Data> {
    var i := LastResponse(q);
    if i < |q| && Matches(q[i]) then Some(q[i]) else None
  }

  /** The two clock readings taken while one entry is looked at. */
  datatype Reading = Reading(test: Millis, stamp: Millis)

  function Elapsed(now: Millis, start: Millis): Millis {
    (now - start) % 0x1_0000_0000
  }

  predicate TimedOut(d: Data, r: Reading) {
    Elapsed(r.test, d.sentTimeMs) >= RESPONSE_TIMEOUT
  }

  /** What the timeout pass makes of one entry. */
  function Examine(d: Data, r: Reading): Option<Data> {
    if !TimedOut(d, r) then Some(d)
    else if d.resendCount >= MAX_RESEND then None
    else Some(Resend(d, r.stamp))
  }

  /** One iteration of the pass, on slot `i`. */
  function TimeoutStep(q: seq<Data>, i: nat, r: Reading): (q': seq<Data>)
    requires i < |q|
    ensures i <= |q'| <= |q|
  {
    match Examine(q[i], r)
    case Some(d) => q[i := d]
    case None => SwapRemove(q, i)
  }

  /** The backward pass over the first `i` slots; `readings[k]` is taken at slot `k`. */
  function TimeoutFrom(q: seq<Data>, i: nat, readings: seq<Reading>): seq<Data>
    requires i <= |q| && i <= |readings|
    decreases i
  {
    if i == 0 then q else TimeoutFrom(TimeoutStep(q, i - 1, readings[i - 1]), i - 1, readings)
  }

  function TimeoutPass(q: seq<Data>, readings: seq<Reading>): seq<Data>
    requires |q| <= |readings|
  {
    TimeoutFrom(q, |q|, readings)
  }

  /** The reference for the pass: every entry judged once, in place order. */
  function Judged(q: seq<Data>, readings: seq<Reading>): seq<Data>
    requires |q| <= |readings|
  {
    if q == [] then []
    else
      var n := |q| - 1;
      Judged(q[..n], readings) + Verdict(q[n], readings[n])
  }

  function Verdict(d: Data, r: Reading): seq<Data> {
    match Examine(d, r) case Some(d') => [d'] case None => []
  }

  lemma StepJudges(q: seq<Data>, n: nat, r: Reading)
    requires n < |q|
    ensures TimeoutStep(q, n, r)[..n] == q[..n]
    ensures multiset(TimeoutStep(q, n, r)[n..]) == multiset(Verdict(q[n], r)) + multiset(q[n + 1..])
  {
    if Examine(q[n], r).Some? {
      assert TimeoutStep(q, n, r)[n..] == Verdict(q[n], r) + q[n + 1..];
    } else {
      SwapRemoveSuffix(q, n);
    }
  }

  lemma {:induction false} TimeoutFromJudges(q: seq<Data>, i: nat, readings: seq<Reading>)
    requires i <= |q| && i <= |readings|
    ensures multiset(TimeoutFrom(q, i, readings)) == multiset(Judged(q[..i], readings)) + multiset(q[i..])
    decreases i
  {
    if i == 0 {
      assert q[0..] == q;
    } else {
      var n := i - 1;
      StepJudges(q, n, readings[n]);
      TimeoutFromJudges(TimeoutStep(q, n, readings[n]), n, readings);
      assert q[..i][..n] == q[..n];
      assert Judged(q[..i], readings) == Judged(q[..n], readings) + Verdict(q[n], readings[n]);
    }
  }

  /** One pass judges each entry exactly once, although removal moves entries around: fresh ones
      stay, timed-out ones are marked for a resend, exhausted ones go. */
  lemma TimeoutPassJudgesEachOnce(q: seq<Data>, readings: seq<Reading>)
    requires |q| <= |readings|
    ensures multiset(TimeoutPass(q, readings)) == multiset(Judged(q, readings))
  {
    TimeoutFromJudges(q, |q|, readings);
    assert q[..|q|] == q;
  }

  /** The 32-bit difference is the elapsed time for every true elapsed time below 2^32 ms. */
  lemma ElapsedIsTrueTime(start: nat, now: nat)
    requires start <= now < start + 0x1_0000_0000
    ensures Elapsed(now % 0x1_0000_0000, start % 0x1_0000_0000) == now - start
  {
  }

  // ---------------------------------------------------------------- id selection

  /** Where an id lies in the cycle of 128. */
  function Position(id: byte): nat {
    if id < 0x80 then 127 else id - 0x80
  }

  lemma {:induction false} CyclePosition(last: byte, n: nat)
    requires 0 < n
    ensures Cycle(last, n) >= 0x80 && Position(Cycle(last, n)) == (Position(last) + n) % 128
  {
    if n > 1 {
      CyclePosition(last, n - 1);
    }
  }

  lemma {:induction false} CandidateIsReserved(last: byte, k: nat)
    ensures Candidate(last, k) >= 0x80
    decreases k
  {
    if k > 0 {
      CandidateIsReserved(Cycle(last, 127), k - 1);
    }
  }

  lemma OneBack(p: nat, k: nat)
    ensures ((p + 127) % 128 + 1 - (k - 1)) % 128 == (p + 1 - k) % 128
  {
  }

  /** The id tried by the k-th of a series of failing calls. */
  function Candidate(last: byte, k: nat): byte
    decreases k
  {
    if k == 0 then NextId(last) else Candidate(Cycle(last, 127), k - 1)
  }

  lemma {:induction false} CandidatePosition(last: byte, k: nat)
    requires k < 128
    ensures Candidate(last, k) >= 0x80
    ensures Position(Candidate(last, k)) == (Position(last) + 1 - k) % 128
    decreases k
  {
    if k == 0 {
      CyclePosition(last, 1);
    } else {
      CyclePosition(last, 127);
      CandidatePosition(Cycle(last, 127), k - 1);
      OneBack(Position(last), k);
    }
  }

  function Ids(q: seq<Data>): (s: set<byte>)
    ensures |s| <= |q| && forall id :: id in s <==> HasId(q, id)
  {
    if q == [] then {}
    else
      assert forall id :: HasId(q, id) <==> q[0].id == id || HasId(q[1..], id) by { HasIdCons(q); }
      {q[0].id} + Ids(q[1..])
  }

  lemma HasIdCons(q: seq<Data>)
    requires q != []
    ensures forall id :: HasId(q, id) <==> q[0].id == id || HasId(q[1..], id)
  {
  }

  lemma {:induction false} CandidatesAreDistinct(ids: set<byte>, last: byte, n: nat) returns (taken: set<byte>)
    requires n <= 128 && forall k :: 0 <= k < n ==> Candidate(last, k) in ids
    ensures |taken| == n && taken <= ids
    ensures forall id :: id in taken ==> TriedBy(last, id) < n
  {
    if n == 0 {
      taken := {};
    } else {
      var fewer := CandidatesAreDistinct(ids, last, n - 1);
      CandidatePosition(last, n - 1);
      assert TriedBy(last, Candidate(last, n - 1)) == n - 1;
      taken := fewer + {Candidate(last, n - 1)};
    }
  }

  /** Which call of a failing series tries `id`. */
  function TriedBy(last: byte, id: byte): nat {
    (Position(last) + 1 - Position(id)) % 128
  }

  /** One call of the id selection: only the first id it tries can be chosen, because a hit is
      remembered for the ids tried after it. */
  function SelectId(q: seq<Data>, last: byte): (byte, Option<byte>) {
    var c := NextId(last);
    if HasId(q, c) then (Cycle(last, 127), None) else (c, Some(c))
  }
}

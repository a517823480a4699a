/** What the bytes of a request ask the inverter for, by a reader of its own that knows nothing of how
    requests are built (include/ve_bus_definition.h lists the command codes). */
module VEBusRequests {
  import opened Prelude
  import opened VEBusCodec
  import opened VEBusQueue
  import opened VEBusProtocol
  import opened VEBusProgress
  import opened VEBusFate

  type Word = x: int | 0 <= x < 0x1_0000

  datatype Meaning =
    | Write(isSetting: bool, number: Word, word: Word, toEeprom: bool)
    | AskRam(number: Word)
    | AskSetting(number: Word)
    | AskRamInfo(number: Word)
    | AskSettingInfo(number: Word)
    | AskVersion
    | AskState
    | Switch(state: byte)

  /** A request as it is read: the id to answer with, none for a switch command, and what is asked. */
  datatype Read = Read(id: Option<byte>, meaning: Meaning)

  function ReadRequest(s: seq<byte>): Option<Read> {
    if |s| == 5 && s[0] == 0x3F && s[2] == s[3] == s[4] == 0 then Some(Read(None, Switch(s[1])))
    else if |s| < 3 || s[0] != 0 then None
    else
      var meaning := ReadMeaning(s[2], s[3..]);
      if meaning == None then None else Some(Read(Some(s[1]), meaning.value))
  }

  function LittleEndian(lo: byte, hi: byte): Word {
    var l: int := lo;
    var h: int := hi;
    l + 256 * h
  }

  function ReadMeaning(code: byte, a: seq<byte>): Option<Meaning> {
    if code == 0x37 && |a| == 4 && a[0] < 4 then
      Some(Write(a[0] % 2 == 1, a[1], LittleEndian(a[2], a[3]), a[0] < 2))
    else if code == 0x30 && |a| == 1 then Some(AskRam(a[0]))
    else if code == 0x31 && |a| == 2 then Some(AskSetting(LittleEndian(a[0], a[1])))
    else if code == 0x36 && |a| == 2 then Some(AskRamInfo(LittleEndian(a[0], a[1])))
    else if code == 0x35 && |a| == 2 then Some(AskSettingInfo(LittleEndian(a[0], a[1])))
    else if code == 0x05 && |a| == 0 then Some(AskVersion)
    else if code == 0x0E && a == [0, 0] then Some(AskState)
    else None
  }

  /** A word read as a signed number. */
  function Signed(w: Word): int {
    if w < 0x8000 then w else w - 0x1_0000
  }

  lemma BytesMakeWord(value: Value16)
    ensures LittleEndian(LowByte(value), HighByte(value)) == if value < 0 then value + 0x1_0000 else value
  {
  }

  function Unsigned(value: Value16): Word {
    if value < 0 then value + 0x1_0000 else value
  }

  /** The meaning is what the caller asked for. */
  predicate Says(m: Meaning, r: Request) {
    match r
    case WriteRam(v, value, eeprom) => m == Write(false, v, Unsigned(value), eeprom)
    case WriteSetting(s, value, eeprom) => m == Write(true, s, Unsigned(value), eeprom)
    case SetPower(power) =>
      m.Write? && Signed(m.word) == power && !m.isSetting && m.number == 0x83 && !m.toEeprom
    case ReadRam(v) => m == AskRam(v)
    case ReadSetting(s) => m == AskSetting(s)
    case ReadRamInfo(v) => m == AskRamInfo(v)
    case ReadSettingInfo(s) => m == AskSettingInfo(s)
    case ReadSoftwareVersion => m == AskVersion
    case ReadDeviceState => m == AskState
  }

  /** The bytes ask for exactly this, to be answered under this id. */
  predicate Asks(bytes: seq<byte>, id: byte, r: Request) {
    var read := ReadRequest(bytes);
    read.Some? && read.value.id == Some(id) && Says(read.value.meaning, r)
  }

  /** Every request asks for exactly what was requested, under the id it was built for. */
  lemma RequestSaysWhatWasAsked(r: Request, id: byte)
    ensures Asks(Build(r, id).requestData, id, r)
  {
    match r
    case WriteRam(_, value, _) => BytesMakeWord(value);
    case WriteSetting(_, value, _) => BytesMakeWord(value);
    case SetPower(power) => BytesMakeWord(power);
    case _ =>
  }

  /** Under which command and address a request is queued, and which response code it waits for. */
  lemma RequestKeysAndCodes(r: Request, id: byte)
    ensures var d := Build(r, id);
      && d.id == id && d.responseExpected && !d.isSent && d.resendCount == 0 && d.responseData == []
      && (d.command, d.address, d.expectedResponseCode) ==
         match r
         case WriteRam(v, _, _) => (0x32, v, 0x87)
         case WriteSetting(s, _, _) => (0x33, s, 0x87)
         case SetPower(_) => (0x32, 0x83, 0x87)
         case ReadRam(v) => (0x30, v, 0x85)
         case ReadSetting(s) => (0x31, s, 0x86)
         case ReadRamInfo(v) => (0x36, v, 0x8E)
         case ReadSettingInfo(s) => (0x35, s, 0x89)
         case ReadSoftwareVersion => (0x05, 0, 0x82)
         case ReadDeviceState => (0x0E, 0, 0x94)
  {
  }

  lemma SwitchSaysItsState(switchState: byte, command: byte, address: byte)
    ensures var d := BuildSwitch(switchState, command, address);
      && ReadRequest(d.requestData) == Some(Read(None, Switch(switchState)))
      && !d.responseExpected && !d.isSent && d.id == 0 && d.responseData == []
  {
  }

  /** A switch command is queued if its command and address, whatever they are, are queued already or
      there are fewer than 16 entries. */
  lemma SwitchIsQueued(s: State, switchState: byte, command: byte, address: byte, now: Millis)
    requires s.requester == Idle
    ensures var s' := Next(s, InsertSwitch(switchState, command, address, now));
      && s' == s.(queue := s'.queue)
      && (if (exists k :: 0 <= k < |s.queue| && s.queue[k].command == command && s.queue[k].address == address)
             || |s.queue| < 16
          then exists k :: 0 <= k < |s'.queue| && IsSwitch(s'.queue[k], switchState, command, address, now)
          else s'.queue == s.queue)
  {
    var step := InsertSwitch(switchState, command, address, now);
    var e, q' := BuildSwitch(switchState, command, address).(sentTimeMs := now), Next(s, step).queue;
    InsertedIff(s, step);
    SwitchSaysItsState(switchState, command, address);
    if k :| 0 <= k < |s.queue| && s.queue[k].command == command && s.queue[k].address == address {
      assert SameKey(s.queue[k], e);
    }
    if HasKey(s.queue, e) || |s.queue| < 16 {
      var k :| 0 <= k < |q'| && q'[k] == e;
      assert IsSwitch(q'[k], switchState, command, address, now);
    }
  }

  predicate IsSwitch(d: Data, switchState: byte, command: byte, address: byte, now: Millis) {
    && ReadRequest(d.requestData) == Some(Read(None, Switch(switchState)))
    && d.command == command && d.address == address && d.id == 0 && !d.responseExpected
    && !d.isSent && d.responseData == [] && d.resendCount == 0 && d.transmissions == 0 && d.sentTimeMs == now
  }

  /** What is between the frame number and the checksum of a received frame. */
  function Payload(frame: seq<byte>): seq<byte> {
    if |frame| < 7 then [] else frame[5..|frame| - 2]
  }

  /** And so it arrives: the other side reads from the destuffed frame what the request says. */
  lemma RequestArrives(request: seq<byte>, nr: byte)
    ensures Payload(DestuffFrame(WireFrame(request, nr))) == request
  {
    WireFrameReceived(request, nr);
  }

  /** What is new in the queue: unsent, unanswered, stamped with this time. */
  predicate IsNew(d: Data, id: byte, r: Request, now: Millis) {
    && d.id == id && Asks(d.requestData, id, r) && d.responseExpected
    && !d.isSent && d.responseData == [] && d.resendCount == 0 && d.transmissions == 0 && d.sentTimeMs == now
  }

  /** A request is queued if its command and address are queued already or there are fewer than 16
      entries. Otherwise nothing changes but that the id is given up. */
  lemma RequestIsQueued(s: State, r: Request, now: Millis)
    requires s.requester.Chosen?
    ensures var s' := Next(s, Insert(r, now));
      && s' == s.(queue := s'.queue, requester := Idle)
      && (if HasKey(s.queue, Build(r, s.requester.id)) || |s.queue| < 16
          then exists k :: 0 <= k < |s'.queue| && IsNew(s'.queue[k], s.requester.id, r, now)
          else s'.queue == s.queue)
  {
    var id, q' := s.requester.id, Next(s, Insert(r, now)).queue;
    var e := Build(r, id).(sentTimeMs := now);
    InsertedIff(s, Insert(r, now));
    RequestSaysWhatWasAsked(r, id);
    assert HasKey(s.queue, e) <==> HasKey(s.queue, Build(r, id));
    if HasKey(s.queue, e) || |s.queue| < 16 {
      var k :| 0 <= k < |q'| && q'[k] == e;
      assert IsNew(q'[k], id, r, now);
    }
  }

  /** Which id a selection takes: the one after the last, in 0x80 to 0xFF and around, if no entry has
      it. Otherwise it takes none, and the next call tries the last id again. */
  lemma ChoiceIsNextId(s: State)
    requires s.requester == Idle
    ensures var next := if 0x80 <= s.lastId < 0xFF then s.lastId + 1 else 0x80;
      var s' := Next(s, ChooseId);
      if exists k :: 0 <= k < |s.queue| && s.queue[k].id == next
      then s' == s.(lastId := if s.lastId < 0x80 then 0xFE else if s.lastId == 0x80 then 0xFF else s.lastId - 1)
      else s' == s.(lastId := next, requester := Chosen(next))
  {
    AlmostRound(s.lastId, 127);
  }

  lemma AlmostRound(last: byte, n: nat)
    requires 126 < n < 128
    ensures Cycle(last, n) == if last < 0x80 then 0xFE else if last == 0x80 then 0xFF else last - 1
  {
    CyclePosition(last, n);
  }
}

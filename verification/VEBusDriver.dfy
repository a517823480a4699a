/** The VE.Bus object: its fields and the methods that work on them in place (src/ve_bus.cpp).
    Every method is one critical section and takes the state machine of VEBusProtocol through
    exactly one of its steps. */
module VEBusDriver {
  import opened Prelude
  import opened StaticTypes
  import opened VEBusCodec
  import opened VEBusFraming
  import opened VEBusQueue
  import opened VEBusProtocol

  class VEBus {
    const dataFifo: StaticVector<Data>
    const receiveBuffer: StaticVector<byte>
    var id: byte
    var communicationIsRunning: bool
    var communicationIsResumed: bool
    /** The frames written to the serial line. */
    var serialOut: seq<seq<byte>>
    /** The requests handed on with their response. */
    var responses: seq<Data>
    ghost var requester: Requester
    ghost var syncs: nat
    /** The raw frames dispatched, before destuffing. */
    ghost var dispatched: seq<seq<byte>>

    ghost predicate Valid()
      reads this, dataFifo, dataFifo.storage, receiveBuffer
    {
      && dataFifo.Valid() && dataFifo.N == FIFO_SIZE
      && receiveBuffer.Valid() && receiveBuffer.N == MAX_BUFFER_SIZE
      && Inv(Model())
    }

    ghost function Queue(): seq<Data>
      requires dataFifo.Valid()
      reads this, dataFifo, dataFifo.storage
    {
      dataFifo.Contents()
    }

    ghost function Pending(): seq<byte>
      requires receiveBuffer.Valid()
      reads this, receiveBuffer, receiveBuffer.storage
    {
      receiveBuffer.Contents()
    }

    /** Everything dispatched so far and the frame being received. */
    ghost function Log(): (r: Reception)
      requires receiveBuffer.Valid() && receiveBuffer.N == MAX_BUFFER_SIZE
      reads this, receiveBuffer, receiveBuffer.storage
      ensures |r.pending| <= MAX_BUFFER_SIZE
    {
      Reception(dispatched, Pending())
    }

    /** The state of the protocol this object is in. */
    ghost function Model(): State
      requires dataFifo.Valid()
      reads this, dataFifo, dataFifo.storage
    {
      State(Queue(), id, requester, syncs, serialOut, responses)
    }

    constructor (firstId: byte)
      ensures Valid() && fresh(dataFifo) && fresh(dataFifo.storage)
      ensures fresh(receiveBuffer) && fresh(receiveBuffer.storage)
      ensures Model() == Init(firstId) && Pending() == [] && dispatched == []
    {
      dataFifo := new StaticVector<Data>(FIFO_SIZE);
      receiveBuffer := new StaticVector<byte>(MAX_BUFFER_SIZE);
      id, communicationIsRunning, communicationIsResumed := firstId, false, false;
      serialOut, responses, requester, syncs, dispatched := [], [], Idle, 0, [];
    }

    method StartCommunication()
      modifies this`communicationIsRunning, this`communicationIsResumed
      ensures communicationIsRunning && communicationIsResumed
    {
      communicationIsRunning, communicationIsResumed := true, true;
    }

    // -------------------------------------------------------------- requester

    /** `getNextFreeId_1`: a hit is remembered in `idUsed` for all ids tried after it. */
    method GetNextFreeId() returns (ok: bool, freeId: byte)
      requires Valid() && requester == Idle
      modifies this`id, this`requester
      ensures Valid() && Model() == Next(old(Model()), ChooseId)
      ensures ok <==> !HasId(Queue(), NextId(old(id)))
      ensures ok ==> requester == Chosen(freeId)
    {
      freeId := 0;
      var idUsed := false;
      ghost var first := id;
      for i := 0 to 127
        invariant id == Cycle(first, i)
        invariant requester == Idle && (idUsed <==> i > 0)
        invariant idUsed ==> HasId(Queue(), NextId(first))
      {
        id := if id < 0x80 || id == 0xFF then 0x80 else id + 1;
        assert i == 0 ==> id == NextId(Cycle(first, 0));
        var found := FindInFifo(id);
        if found {
          idUsed := true;
        }
        if !idUsed {
          requester := Chosen(id);
          NextKeepsInv(old(Model()), ChooseId);
          return true, id;
        }
      }
      NextKeepsInv(old(Model()), ChooseId);
      return false, 0;
    }

    method FindInFifo(wanted: byte) returns (found: bool)
      requires dataFifo.Valid()
      ensures found <==> HasId(Queue(), wanted)
    {
      for k := 0 to dataFifo.curSize
        invariant forall j :: 0 <= j < k ==> Queue()[j].id != wanted
      {
        if dataFifo.storage[k].id == wanted {
          assert Queue()[k].id == wanted;
          return true;
        }
      }
      return false;
    }

    /** `addOrUpdateFifo`: an entry with the same command and address is replaced. */
    method AddOrUpdateFifo(data: Data, now: Millis)
      requires dataFifo.Valid() && dataFifo.N == FIFO_SIZE
      modifies dataFifo`curSize, dataFifo.storage
      ensures dataFifo.Valid() && Queue() == AddOrUpdate(old(Queue()), data, now)
    {
      for k := 0 to dataFifo.curSize
        invariant dataFifo.Valid() && Queue() == old(Queue()) && dataFifo.curSize == old(dataFifo.curSize)
        invariant forall j :: 0 <= j < k ==> !SameKey(Queue()[j], data)
      {
        assert dataFifo.storage[k] == Queue()[k];
        if dataFifo.storage[k].address == data.address && dataFifo.storage[k].command == data.command {
          dataFifo.storage[k] := data.(sentTimeMs := now, isSent := false);
          return;
        }
      }
      var _ := dataFifo.Push(data.(responseData := [], sentTimeMs := now));
    }

    /** The tail of every request call: the command is built for the chosen id and inserted. */
    method Submit(request: Request, freeId: byte, now: Millis)
      requires Valid() && requester == Chosen(freeId)
      modifies this`requester, dataFifo`curSize, dataFifo.storage
      ensures Valid() && Model() == Next(old(Model()), Insert(request, now))
    {
      NextKeepsInv(Model(), Insert(request, now));
      AddOrUpdateFifo(Build(request, freeId), now);
      requester := Idle;
    }

    /** `SetSwitch`, with the unset command and address given by the caller's memory. */
    method SetSwitch(switchState: byte, command: byte, address: byte, now: Millis)
      requires Valid() && requester == Idle
      modifies dataFifo`curSize, dataFifo.storage
      ensures Valid() && Model() == Next(old(Model()), InsertSwitch(switchState, command, address, now))
    {
      NextKeepsInv(Model(), InsertSwitch(switchState, command, address, now));
      AddOrUpdateFifo(BuildSwitch(switchState, command, address), now);
    }

    // -------------------------------------------------------------- maintenance

    /** `checkResponseMessage`: at most one stored response is handled, the last one. */
    method CheckResponseMessage(now: Millis)
      requires Valid()
      modifies this`responses, dataFifo`curSize, dataFifo.storage
      ensures Valid() && Model() == Next(old(Model()), Respond(now))
    {
      NextKeepsInv(Model(), Respond(now));
      var handed := HandleLastResponse(now);
      responses := responses + handed;
    }

    method HandleLastResponse(now: Millis) returns (handed: seq<Data>)
      requires dataFifo.Valid()
      modifies dataFifo`curSize, dataFifo.storage
      ensures dataFifo.Valid() && Queue() == CheckResponse(old(Queue()), now)
      ensures handed == match Completed(old(Queue())) case Some(d) => [d] case None => []
    {
      ghost var was := Queue();
      handed := [];
      var i := dataFifo.curSize - 1;
      while i >= 0
        invariant -1 <= i < dataFifo.curSize && dataFifo.Valid() && Queue() == was && handed == []
        invariant forall j :: i < j < |was| ==> was[j].responseData == []
      {
        var d := dataFifo.storage[i];
        assert d == was[i];
        if |d.responseData| != 0 {
          assert LastResponse(was) == i;
          if At(d.responseData, 6) == d.expectedResponseCode {
            PopAssign(i);
            handed := [d];
          } else if d.resendCount >= MAX_RESEND {
            PopAssign(i);
          } else {
            dataFifo.storage[i] := Resend(d, now);
            assert Queue() == was[i := Resend(d, now)];
          }
          return;
        }
        i := i - 1;
      }
      assert LastResponse(was) == |was|;
    }

    /** `_dataFifo[i] = *_dataFifo.pop()`, right operand first. */
    method PopAssign(i: nat)
      requires dataFifo.Valid() && i < dataFifo.curSize
      modifies dataFifo`curSize, dataFifo.storage
      ensures dataFifo.Valid() && Queue() == PopInto(old(Queue()), i)
    {
      var end := dataFifo.Pop();
      dataFifo.storage[dataFifo.Slot(i)] := dataFifo.storage[end];
    }

    /** `checkResponseTimeout`; `readings[k]` holds the clock values read at slot `k`. */
    method CheckResponseTimeout(readings: seq<Reading>)
      requires Valid() && |Queue()| <= |readings|
      modifies dataFifo`curSize, dataFifo.storage
      ensures Valid() && Model() == Next(old(Model()), Timeout(readings))
    {
      NextKeepsInv(Model(), Timeout(readings));
      if dataFifo.curSize != 0 {
        TimeoutAll(readings);
      }
    }

    method TimeoutAll(readings: seq<Reading>)
      requires dataFifo.Valid() && |Queue()| <= |readings|
      modifies dataFifo`curSize, dataFifo.storage
      ensures dataFifo.Valid() && Queue() == TimeoutPass(old(Queue()), readings)
    {
      var i := dataFifo.curSize - 1;
      while i >= 0
        invariant -1 <= i < |readings| && i + 1 <= dataFifo.curSize && dataFifo.Valid()
        invariant TimeoutFrom(Queue(), i + 1, readings) == TimeoutPass(old(Queue()), readings)
      {
        TimeoutSlot(i, readings[i]);
        i := i - 1;
      }
    }

    method TimeoutSlot(i: nat, r: Reading)
      requires dataFifo.Valid() && i < dataFifo.curSize
      modifies dataFifo`curSize, dataFifo.storage
      ensures dataFifo.Valid() && Queue() == TimeoutStep(old(Queue()), i, r)
    {
      var d := dataFifo.storage[i];
      if Elapsed(r.test, d.sentTimeMs) < RESPONSE_TIMEOUT {
        return;
      }
      if d.resendCount >= MAX_RESEND {
        dataFifo.SwapOut(i);
        assert Queue() == SwapRemove(old(Queue()), i);
      } else {
        dataFifo.storage[i] := Resend(d, r.stamp);
      }
    }

    // -------------------------------------------------------------- communication

    method StoreByte(c: byte)
      requires receiveBuffer.Valid() && receiveBuffer.N == MAX_BUFFER_SIZE
      modifies receiveBuffer`curSize, receiveBuffer.storage
      ensures receiveBuffer.Valid() && Pending() == Accept(old(Pending()), c)
    {
      if receiveBuffer.curSize == receiveBuffer.N {
        receiveBuffer.Clear();
      }
      var _ := receiveBuffer.Push(c);
    }

    /** Reads bytes up to the first end mark or until none is left. */
    method ReadBytes(rx: seq<byte>) returns (consumed: nat)
      requires receiveBuffer.Valid() && receiveBuffer.N == MAX_BUFFER_SIZE && rx != []
      modifies receiveBuffer`curSize, receiveBuffer.storage
      ensures receiveBuffer.Valid() && 0 < consumed <= |rx|
      ensures Pending() == AcceptAll(old(Pending()), rx[..consumed])
      ensures END_OF_FRAME !in rx[..consumed - 1]
      ensures rx[consumed - 1] != END_OF_FRAME ==> consumed == |rx|
    {
      consumed := 0;
      while consumed < |rx|
        invariant consumed <= |rx| && receiveBuffer.Valid()
        invariant Pending() == AcceptAll(old(Pending()), rx[..consumed])
        invariant END_OF_FRAME !in rx[..consumed]
      {
        var c := rx[consumed];
        StoreByte(c);
        AcceptAllConcat(old(Pending()), rx[..consumed], c);
        assert rx[..consumed + 1] == rx[..consumed] + [c];
        consumed := consumed + 1;
        if c == END_OF_FRAME {
          break;
        }
      }
    }

    /** `decodeVEbusFrame`, for responses and sync frames. */
    method DecodeFrame(frame: seq<byte>) returns (message: Message)
      requires dataFifo.Valid() && frame != []
      modifies dataFifo.storage
      ensures message == Decode(frame)
      ensures dataFifo.Valid()
      ensures Queue() == if message == Response then StoreResponse(old(Queue()), frame) else old(Queue())
    {
      message := Decode(frame);
      if message == Response {
        ghost var was := Queue();
        for k := 0 to dataFifo.curSize
          invariant dataFifo.Valid() && Queue() == was && dataFifo.curSize == |was|
          invariant forall j :: 0 <= j < k ==> was[j].id != frame[5]
        {
          assert dataFifo.storage[k] == was[k];
          if dataFifo.storage[k].id == frame[5] {
            assert FindId(was, frame[5]) == k;
            dataFifo.storage[k] := dataFifo.storage[k].(responseData := frame);
            assert Queue() == was[k := was[k].(responseData := frame)];
            return;
          }
        }
      }
    }

    /** The transmission slot after a sync frame. */
    method TransmitOne(frameNr: byte, now: Millis) returns (written: seq<seq<byte>>)
      requires dataFifo.Valid() && AllSound(Queue())
      modifies dataFifo`curSize, dataFifo.storage
      ensures dataFifo.Valid() && Queue() == Transmit(old(Queue()), now)
      ensures var was := old(Queue());
        written == if FirstUnsent(was) < |was| then [WireFrame(was[FirstUnsent(was)].requestData, frameNr)] else []
    {
      ghost var was := Queue();
      written := [];
      for k := 0 to dataFifo.curSize
        invariant dataFifo.Valid() && Queue() == was && dataFifo.curSize == |was|
        invariant forall j :: 0 <= j < k ==> was[j].isSent
        invariant written == []
      {
        var d := dataFifo.storage[k];
        assert d == was[k];
        if !d.isSent {
          assert FirstUnsent(was) == k && Sound(was[k]);
          WireFrameFits(d.requestData, frameNr);
          var bytes := SendData(d.requestData, frameNr);
          written := [bytes];
          MarkSent(k, now);
          return;
        }
      }
    }

    /** The bookkeeping behind a transmission from slot `k`. */
    method MarkSent(k: nat, now: Millis)
      requires dataFifo.Valid() && k < |Queue()| && FirstUnsent(Queue()) == k
      modifies dataFifo`curSize, dataFifo.storage
      ensures dataFifo.Valid() && Queue() == Transmit(old(Queue()), now)
    {
      ghost var was := Queue();
      dataFifo.storage[k] := Sent(dataFifo.storage[k], now);
      assert Queue() == was[k := Sent(was[k], now)];
      if !dataFifo.storage[k].responseExpected {
        var end := dataFifo.Pop();
        dataFifo.storage[k] := dataFifo.storage[end];
      }
    }

    /** Reads from the UART up to the end of a frame and, once there is one, destuffs it. */
    method TakeFrame(rx: seq<byte>) returns (consumed: nat, frame: seq<byte>)
      requires Valid() && rx != []
      modifies this`dispatched, receiveBuffer`curSize, receiveBuffer.storage
      ensures Valid() && Model() == old(Model()) && 0 < consumed <= |rx|
      ensures Log() == Continue(old(Log()), rx[..consumed])
      ensures if frame == [] then consumed == |rx| && dispatched == old(dispatched)
              else dispatched != [] && frame == DestuffFrame(dispatched[|dispatched| - 1])
    {
      ghost var pending := Pending();
      consumed := ReadBytes(rx);
      ReadIsFeed(pending, rx[..consumed]);
      assert rx[..consumed][..consumed - 1] == rx[..consumed - 1];
      if receiveBuffer.storage[receiveBuffer.curSize - 1] != END_OF_FRAME {
        return consumed, [];
      }
      ghost var raw := Pending();
      dispatched := dispatched + [raw];
      EndedIsComplete(raw);
      DestuffingFAtoFF(receiveBuffer);
      DestuffKeepsSome(raw);
      frame := receiveBuffer.storage[..receiveBuffer.curSize];
      receiveBuffer.Clear();
    }

    static lemma EndedIsComplete(s: seq<byte>)
      requires s != [] && s[|s| - 1] == END_OF_FRAME
      ensures !ReadsBehind(s)
    {
      if |s| > 4 {
        assert s[4..][|s[4..]| - 1] == s[|s| - 1];
        CompleteTokens(s[4..]);
      }
    }

    static lemma DestuffKeepsSome(s: seq<byte>)
      requires s != []
      ensures DestuffFrame(s) != []
    {
    }

    /** `commandHandling`: a completed frame is handled, and a sync frame's slot is used. `frame` is
        the destuffed frame, empty if none was completed. */
    method CommandHandling(rx: seq<byte>, now: Millis) returns (consumed: nat, done: bool, frame: seq<byte>)
      requires Valid()
      modifies this`communicationIsResumed, this`dispatched, this`serialOut, this`syncs
      modifies dataFifo`curSize, dataFifo.storage, receiveBuffer`curSize, receiveBuffer.storage
      ensures Valid() && Model() == if frame == [] then old(Model()) else Next(old(Model()), Receive(frame, now))
      ensures consumed <= |rx| && Log() == Continue(old(Log()), rx[..consumed])
      ensures if frame == [] then dispatched == old(dispatched)
              else dispatched != [] && frame == DestuffFrame(dispatched[|dispatched| - 1])
      ensures !communicationIsRunning ==> consumed == 0 && done
      ensures communicationIsRunning ==> (done <==> frame != []) && (!done ==> consumed == |rx|)
      ensures communicationIsRunning && rx != [] ==> consumed > 0
    {
      frame := [];
      if !communicationIsRunning {
        return 0, true, [];
      }
      communicationIsResumed := false;
      if rx == [] {
        return 0, false, [];
      }
      consumed, frame := TakeAndHandle(rx, now);
      done := frame != [];
    }

    method TakeAndHandle(rx: seq<byte>, now: Millis) returns (consumed: nat, frame: seq<byte>)
      requires Valid() && rx != []
      modifies this`dispatched, this`serialOut, this`syncs
      modifies dataFifo`curSize, dataFifo.storage, receiveBuffer`curSize, receiveBuffer.storage
      ensures Valid() && Model() == if frame == [] then old(Model()) else Next(old(Model()), Receive(frame, now))
      ensures 0 < consumed <= |rx| && Log() == Continue(old(Log()), rx[..consumed])
      ensures if frame == [] then consumed == |rx| && dispatched == old(dispatched)
              else dispatched != [] && frame == DestuffFrame(dispatched[|dispatched| - 1])
    {
      consumed, frame := TakeFrame(rx);
      if frame != [] {
        HandleFrame(frame, now);
      }
    }

    method HandleFrame(frame: seq<byte>, now: Millis)
      requires Valid() && frame != []
      modifies this`serialOut, this`syncs, dataFifo`curSize, dataFifo.storage
      ensures Valid() && Model() == Next(old(Model()), Receive(frame, now))
      ensures Log() == old(Log())
    {
      NextKeepsInv(Model(), Receive(frame, now));
      ReactTo(frame, now);
    }

    method ReactTo(frame: seq<byte>, now: Millis)
      requires Valid() && frame != []
      modifies this`serialOut, this`syncs, dataFifo`curSize, dataFifo.storage
      ensures dataFifo.Valid() && Queue() == Received(old(Queue()), frame, now)
      ensures serialOut == old(serialOut) + Written(old(Queue()), frame)
      ensures syncs == old(syncs) + (if Decode(frame) == Sync then 1 else 0)
    {
      var message := DecodeFrame(frame);
      if message == Sync {
        syncs := syncs + 1;
        if dataFifo.curSize != 0 {
          var written := TransmitOne(At(frame, 3), now);
          serialOut := serialOut + written;
        }
      }
    }

    /** The communication task: bytes arrive in batches of any size, and handling goes on while
        some are available. What is dispatched does not depend on the batches. */
    method CommunicationTask(batches: seq<seq<byte>>, clock: nat -> Millis)
      requires Valid() && communicationIsRunning
      modifies this, dataFifo`curSize, dataFifo.storage, receiveBuffer`curSize, receiveBuffer.storage
      ensures Valid() && communicationIsRunning
      ensures Log() == Continue(old(Log()), Flatten(batches))
    {
      ghost var log := Log();
      var calls := 0;
      for b := 0 to |batches|
        invariant Valid() && communicationIsRunning
        invariant Log() == Continue(log, Flatten(batches[..b]))
      {
        calls := ServeBatch(batches[b], clock, calls);
        FlattenConcat(batches[..b], [batches[b]]);
        assert batches[..b + 1] == batches[..b] + [batches[b]];
        assert Flatten([batches[b]]) == batches[b];
        ContinueConcat(log, Flatten(batches[..b]), batches[b]);
      }
      assert batches[..|batches|] == batches;
    }

    /** Calls `CommandHandling` until the bytes of one batch are used up. */
    method ServeBatch(batch: seq<byte>, clock: nat -> Millis, calls: nat) returns (calls': nat)
      requires Valid() && communicationIsRunning
      modifies this, dataFifo`curSize, dataFifo.storage, receiveBuffer`curSize, receiveBuffer.storage
      ensures Valid() && communicationIsRunning
      ensures Log() == Continue(old(Log()), batch)
    {
      ghost var log := Log();
      var used := 0;
      calls' := calls;
      while used < |batch|
        invariant used <= |batch| && Valid() && communicationIsRunning
        invariant Log() == Continue(log, batch[..used])
      {
        var rx := batch[used..];
        var consumed, _, _ := CommandHandling(rx, clock(calls'));
        ContinueConcat(log, batch[..used], rx[..consumed]);
        assert batch[..used] + rx[..consumed] == batch[..used + consumed];
        used, calls' := used + consumed, calls' + 1;
      }
      assert batch[..|batch|] == batch;
    }
  }

  /** A link started on an idle line: frames sent back to back are dispatched one by one, in
      whatever batches their bytes arrive. */
  method ReceiveFrames(firstId: byte, requests: seq<(seq<byte>, byte)>, batches: seq<seq<byte>>,
                       clock: nat -> Millis)
    returns (link: VEBus)
    requires forall r :: r in requests ==> |r.0| <= 60
    requires Flatten(batches) == Flatten(WireFrames(requests))
    ensures fresh(link) && link.Valid() && link.Log() == Reception(WireFrames(requests), [])
  {
    link := new VEBus(firstId);
    link.StartCommunication();
    link.CommunicationTask(batches, clock);
    SentFramesAreReceived(requests);
    assert [] + WireFrames(requests) == WireFrames(requests);
  }
}

/** The VE.Bus request queue as a state machine whose steps are the critical sections of the
    requester, the communication task and the maintenance task, in any order. */
module VEBusProtocol {
  import opened Prelude
  import opened VEBusCodec
  import opened VEBusFraming
  import opened VEBusQueue

  /** The requester picks an id before it takes the lock that guards insertion. */
  datatype Requester = Idle | Chosen(id: byte)

  /** `sent` and `completed` record the frames written and the requests whose response was handed
      on; `syncs` counts the sync frames received. */
  datatype State = State(
    queue: seq<Data>,
    lastId: byte,
    requester: Requester,
    syncs: nat,
    sent: seq<seq<byte>>,
    completed: seq<Data>)

  datatype Step =
    | ChooseId
    | Insert(request: Request, insertedAt: Millis)
    | InsertSwitch(switchState: byte, command: byte, address: byte, switchedAt: Millis)
    | Receive(frame: seq<byte>, receivedAt: Millis)
    | Timeout(readings: seq<Reading>)
    | Respond(checkedAt: Millis)

  function Init(lastId: byte): State {
    State([], lastId, Idle, 0, [], [])
  }

  /** One step; a step that is not enabled changes nothing. */
  function Next(s: State, step: Step): State {
    match step
    case ChooseId =>
      if s.requester != Idle then s
      else
        var (last, choice) := SelectId(s.queue, s.lastId);
        s.(lastId := last, requester := if choice.Some? then Chosen(choice.value) else Idle)
    case Insert(request, now) =>
      if s.requester == Idle then s
      else s.(queue := AddOrUpdate(s.queue, Build(request, s.requester.id), now), requester := Idle)
    case InsertSwitch(switchState, command, address, now) =>
      if s.requester != Idle then s
      else s.(queue := AddOrUpdate(s.queue, BuildSwitch(switchState, command, address), now))
    case Receive(frame, now) =>
      if frame == [] then s
      else s.(queue := Received(s.queue, frame, now), sent := s.sent + Written(s.queue, frame),
              syncs := s.syncs + (if Decode(frame) == Sync then 1 else 0))
    case Timeout(readings) =>
      if |s.queue| <= |readings| then s.(queue := TimeoutPass(s.queue, readings)) else s
    case Respond(now) =>
      var done := Completed(s.queue);
      s.(queue := CheckResponse(s.queue, now),
         completed := if done.Some? then s.completed + [done.value] else s.completed)
  }

  function Run(s: State, steps: seq<Step>): State
    decreases steps
  {
    if steps == [] then s else Run(Next(s, steps[0]), steps[1..])
  }

  lemma {:induction false} RunConcat(s: State, a: seq<Step>, b: seq<Step>)
    ensures Run(s, a + b) == Run(Run(s, a), b)
    decreases a
  {
    if a == [] {
      assert a + b == b;
    } else {
      assert (a + b)[0] == a[0] && (a + b)[1..] == a[1..] + b;
      RunConcat(Next(s, a[0]), a[1..], b);
    }
  }

  lemma RunThree(s: State, a: Step, b: Step, c: Step)
    ensures Run(s, [a, b, c]) == Next(Next(Next(s, a), b), c)
  {
    assert [a, b, c][1..] == [b, c] && [b, c][1..] == [c] && [c][1..] == [];
    assert Run(Next(s, a), [b, c]) == Run(Next(Next(s, a), b), [c]);
    assert Run(Next(Next(s, a), b), [c]) == Run(Next(Next(Next(s, a), b), c), []);
  }

  // ---------------------------------------------------------------- the invariant

  /** Two entries never share a key, nor a non-zero id. */
  predicate Apart(a: Data, b: Data) {
    !SameKey(a, b) && (a.id != 0 ==> a.id != b.id)
  }

  ghost predicate PairwiseApart(q: seq<Data>) {
    forall i, j :: 0 <= i < j < |q| ==> Apart(q[i], q[j])
  }

  /** The per-entry part: ids from the reserved range and in the request's own bytes, at most three
      resends, one transmission per insertion or resend, and a stored response that answers this
      very entry. */
  predicate Sound(d: Data) {
    && (d.id == 0 || d.id >= 0x80)
    && d.resendCount <= MAX_RESEND
    && d.transmissions <= d.resendCount + (if d.isSent then 1 else 0)
    && |d.requestData| <= 7
    && (d.id != 0 ==> |d.requestData| >= 3 && d.requestData[0] == 0x00 && d.requestData[1] == d.id)
    && d.expectedResponseCode != MP_ID_0
    && (d.responseData != [] ==>
          |d.responseData| >= 6 && d.responseData[5] == d.id && d.responseData[0] == MP_ID_0)
  }

  ghost predicate AllSound(q: seq<Data>) {
    forall i :: 0 <= i < |q| ==> Sound(q[i])
  }

  ghost predicate QueueInv(q: seq<Data>) {
    |q| <= FIFO_SIZE && PairwiseApart(q) && AllSound(q)
  }

  /** A completed request: its response carries its id and the code it expected. */
  predicate Answered(d: Data) {
    |d.responseData| > 6 && d.responseData[5] == d.id && d.responseData[6] == d.expectedResponseCode
  }

  ghost predicate Inv(s: State) {
    && QueueInv(s.queue)
    && (s.requester.Chosen? ==> s.requester.id >= 0x80 && !HasId(s.queue, s.requester.id))
    && |s.sent| <= s.syncs
    && (forall i :: 0 <= i < |s.sent| ==> IsSegment(s.sent[i]) && |s.sent[i]| <= MAX_BUFFER_SIZE)
    && (forall i :: 0 <= i < |s.completed| ==> Answered(s.completed[i]))
  }

  // ---------------------------------------------------------------- preservation, piece by piece

  /** Replacing an entry by one with the same identity. */
  lemma UpdateKeepsInv(q: seq<Data>, i: nat, d: Data)
    requires QueueInv(q) && i < |q| && Sound(d) && d.id == q[i].id && SameKey(d, q[i])
    ensures QueueInv(q[i := d])
    ensures forall id :: HasId(q[i := d], id) ==> HasId(q, id)
  {
  }

  lemma SwapRemoveKeepsInv(q: seq<Data>, i: nat)
    requires QueueInv(q) && i < |q|
    ensures QueueInv(SwapRemove(q, i))
    ensures forall id :: HasId(SwapRemove(q, i), id) ==> HasId(q, id)
  {
  }

  lemma AddOrUpdateKeepsInv(q: seq<Data>, d: Data, now: Millis)
    requires QueueInv(q) && Sound(d) && d.responseData == [] && d.transmissions == 0
    requires d.id != 0 ==> !HasId(q, d.id)
    ensures QueueInv(AddOrUpdate(q, d, now))
  {
  }

  lemma StoreResponseKeepsInv(q: seq<Data>, buffer: seq<byte>)
    requires QueueInv(q) && |buffer| >= 6 && buffer[0] == MP_ID_0
    ensures QueueInv(StoreResponse(q, buffer))
    ensures forall id :: HasId(StoreResponse(q, buffer), id) ==> HasId(q, id)
  {
  }

  lemma TransmitKeepsInv(q: seq<Data>, now: Millis)
    requires QueueInv(q)
    ensures QueueInv(Transmit(q, now))
    ensures forall id :: HasId(Transmit(q, now), id) ==> HasId(q, id)
  {
  }

  lemma CheckResponseKeepsInv(q: seq<Data>, now: Millis)
    requires QueueInv(q)
    ensures QueueInv(CheckResponse(q, now))
    ensures forall id :: HasId(CheckResponse(q, now), id) ==> HasId(q, id)
    ensures Completed(q).Some? ==> Answered(Completed(q).value)
  {
  }

  lemma {:induction false} TimeoutKeepsInv(q: seq<Data>, i: nat, readings: seq<Reading>)
    requires QueueInv(q) && i <= |q| && i <= |readings|
    ensures QueueInv(TimeoutFrom(q, i, readings))
    ensures forall id :: HasId(TimeoutFrom(q, i, readings), id) ==> HasId(q, id)
    decreases i
  {
    if i > 0 {
      var n := i - 1;
      assert Sound(q[n]);
      match Examine(q[n], readings[n]) {
        case Some(d) => UpdateKeepsInv(q, n, d);
        case None => SwapRemoveKeepsInv(q, n);
      }
      TimeoutKeepsInv(TimeoutStep(q, n, readings[n]), n, readings);
    }
  }

  // ---------------------------------------------------------------- safety over all runs

  lemma ReceiveKeepsInv(s: State, frame: seq<byte>, now: Millis)
    requires Inv(s)
    ensures Inv(Next(s, Receive(frame, now)))
  {
    if frame != [] {
      match Decode(frame)
      case Other =>
      case Response => StoreResponseKeepsInv(s.queue, frame);
      case Sync =>
        TransmitKeepsInv(s.queue, now);
        var i := FirstUnsent(s.queue);
        if i < |s.queue| {
          assert Sound(s.queue[i]);
          WireFrameIsSegment(s.queue[i].requestData, At(frame, 3));
          WireFrameFits(s.queue[i].requestData, At(frame, 3));
        }
    }
  }

  lemma NextKeepsInv(s: State, step: Step)
    requires Inv(s)
    ensures Inv(Next(s, step))
  {
    match step
    case ChooseId => CyclePosition(s.lastId, 1);
    case Insert(request, now) =>
      if s.requester.Chosen? {
        AddOrUpdateKeepsInv(s.queue, Build(request, s.requester.id), now);
      }
    case InsertSwitch(switchState, command, address, now) =>
      AddOrUpdateKeepsInv(s.queue, BuildSwitch(switchState, command, address), now);
    case Receive(frame, now) => ReceiveKeepsInv(s, frame, now);
    case Timeout(readings) =>
      if |s.queue| <= |readings| {
        TimeoutKeepsInv(s.queue, |s.queue|, readings);
      }
    case Respond(now) => CheckResponseKeepsInv(s.queue, now);
  }

  lemma {:induction false} RunKeepsInv(s: State, steps: seq<Step>)
    requires Inv(s)
    ensures Inv(Run(s, steps))
    decreases steps
  {
    if steps != [] {
      NextKeepsInv(s, steps[0]);
      RunKeepsInv(Next(s, steps[0]), steps[1..]);
    }
  }

  /** Every interleaving, from the empty queue and any last id: at most 16 entries, no shared keys,
      distinct ids from 0x80 up that the request bytes carry, at most 3 resends and 4 transmissions
      per entry, no more transmissions than sync frames, every transmission a complete frame, and
      every completion one whose response carries its id and expected code. */
  lemma SafeOverAllRuns(lastId: byte, steps: seq<Step>)
    ensures var s := Run(Init(lastId), steps);
      && |s.queue| <= 16
      && (forall i, j :: 0 <= i < j < |s.queue| ==>
            !SameKey(s.queue[i], s.queue[j]) && (s.queue[i].id != 0 ==> s.queue[i].id != s.queue[j].id))
      && (forall i :: 0 <= i < |s.queue| ==>
            && (s.queue[i].id == 0 || s.queue[i].id >= 0x80)
            && s.queue[i].resendCount <= 3
            && s.queue[i].transmissions <= 4
            && (s.queue[i].id != 0 ==> |s.queue[i].requestData| >= 3 && s.queue[i].requestData[1] == s.queue[i].id)
            && (s.queue[i].responseData != [] ==>
                  |s.queue[i].responseData| >= 6 && s.queue[i].responseData[5] == s.queue[i].id))
      && |s.sent| <= s.syncs
      && (forall i :: 0 <= i < |s.sent| ==> IsSegment(s.sent[i]) && |s.sent[i]| <= 128)
      && (forall i :: 0 <= i < |s.completed| ==> Answered(s.completed[i]))
  {
    RunKeepsInv(Init(lastId), steps);
    var s := Run(Init(lastId), steps);
    forall i, j | 0 <= i < j < |s.queue|
      ensures !SameKey(s.queue[i], s.queue[j]) && (s.queue[i].id != 0 ==> s.queue[i].id != s.queue[j].id)
    {
      assert Apart(s.queue[i], s.queue[j]);
    }
    forall i | 0 <= i < |s.queue|
      ensures Sound(s.queue[i]) && s.queue[i].transmissions <= 4
    {
    }
  }

  /** Whatever the run, a receiver of the same kind takes the bytes sent apart into exactly the
      frames sent. */
  lemma {:induction false} SentIsReceived(lastId: byte, steps: seq<Step>)
    ensures var s := Run(Init(lastId), steps); Feed([], Flatten(s.sent)) == Reception(s.sent, [])
  {
    RunKeepsInv(Init(lastId), steps);
    ShortFramesAreReceived(Run(Init(lastId), steps).sent);
  }

  // ---------------------------------------------------------------- id selection over runs

  /** While no id is chosen, no step of any task brings one into the queue. */
  lemma IdleBringsNoId(s: State, step: Step)
    requires Inv(s) && s.requester == Idle
    ensures forall id: byte :: id >= 0x80 && HasId(Next(s, step).queue, id) ==> HasId(s.queue, id)
  {
    match step
    case ChooseId =>
    case Insert(_, _) =>
    case InsertSwitch(switchState, command, address, now) =>
      SwitchBringsNoId(s.queue, BuildSwitch(switchState, command, address), now);
    case Receive(frame, now) =>
      if frame != [] && Decode(frame) == Response {
        StoreResponseKeepsInv(s.queue, frame);
      } else if frame != [] && Decode(frame) == Sync {
        TransmitKeepsInv(s.queue, now);
      }
    case Timeout(readings) =>
      if |s.queue| <= |readings| {
        TimeoutKeepsInv(s.queue, |s.queue|, readings);
      }
    case Respond(now) => CheckResponseKeepsInv(s.queue, now);
  }

  lemma SwitchBringsNoId(q: seq<Data>, d: Data, now: Millis)
    requires d.id == 0
    ensures forall id: byte :: id >= 0x80 && HasId(AddOrUpdate(q, d, now), id) ==> HasId(q, id)
  {
    var q' := AddOrUpdate(q, d, now);
    forall id: byte | id >= 0x80 && HasId(q', id)
      ensures HasId(q, id)
    {
      var i :| 0 <= i < |q'| && q'[i].id == id;
      assert i < |q| && q[i].id == id;
    }
  }

  /** How many of the steps are calls of the id selection. */
  function Choices(steps: seq<Step>): nat {
    if steps == [] then 0 else (if steps[0] == ChooseId then 1 else 0) + Choices(steps[1..])
  }

  /** No call of the run chooses an id. */
  predicate StaysIdle(s: State, steps: seq<Step>)
    decreases steps
  {
    s.requester == Idle && (steps != [] ==> StaysIdle(Next(s, steps[0]), steps[1..]))
  }

  /** Then the calls have tried the ids one back from each other, and all of them were in the queue
      from the start. */
  lemma {:induction false} FailuresTryCandidates(s: State, steps: seq<Step>, j: nat)
    requires Inv(s) && StaysIdle(s, steps) && j < Choices(steps)
    ensures HasId(s.queue, Candidate(s.lastId, j))
    decreases steps
  {
    var s' := Next(s, steps[0]);
    NextKeepsInv(s, steps[0]);
    if steps[0] == ChooseId {
      if j > 0 {
        FailuresTryCandidates(s', steps[1..], j - 1);
      }
    } else {
      FailuresTryCandidates(s', steps[1..], j);
      IdleBringsNoId(s, steps[0]);
      CandidateIsReserved(s.lastId, j);
    }
  }

  lemma FailuresAreFew(s: State, steps: seq<Step>)
    requires Inv(s) && StaysIdle(s, steps)
    ensures Choices(steps) <= FIFO_SIZE
  {
    if Choices(steps) > FIFO_SIZE {
      forall j: nat | j < FIFO_SIZE + 1
        ensures Candidate(s.lastId, j) in Ids(s.queue)
      {
        FailuresTryCandidates(s, steps, j);
      }
      var taken := CandidatesAreDistinct(Ids(s.queue), s.lastId, FIFO_SIZE + 1);
      SubsetSize(taken, Ids(s.queue));
    }
  }

  lemma {:induction false} FirstChoice(s: State, steps: seq<Step>) returns (k: nat)
    requires s.requester == Idle
    ensures k <= |steps| && StaysIdle(s, steps[..k])
    ensures if k == |steps| then StaysIdle(s, steps) else Next(Run(s, steps[..k]), steps[k]).requester.Chosen?
    decreases steps
  {
    if steps == [] || Next(s, steps[0]).requester.Chosen? {
      k := 0;
    } else {
      var k' := FirstChoice(Next(s, steps[0]), steps[1..]);
      k := k' + 1;
      assert steps[..k][1..] == steps[1..][..k'];
    }
  }

  lemma {:induction false} ChoicesSoFar(steps: seq<Step>, k: nat)
    requires k < |steps|
    ensures Choices(steps[..k + 1]) <= Choices(steps[..k]) + 1
  {
    if k > 0 {
      ChoicesSoFar(steps[1..], k - 1);
      assert steps[..k + 1][1..] == steps[1..][..k] && steps[..k][1..] == steps[1..][..k - 1];
    } else {
      assert steps[..1][1..] == [];
    }
  }

  /** Selection is incomplete but cannot stay stuck, whatever the other tasks do in between: of any 17
      calls in a run from a reachable state, one finds an unused id from 0x80 up. */
  lemma {:induction false} SelectionRecovers(lastId: byte, before: seq<Step>, steps: seq<Step>) returns (k: nat)
    requires Run(Init(lastId), before).requester == Idle && Choices(steps) > FIFO_SIZE
    ensures k <= |steps| && Choices(steps[..k]) <= FIFO_SIZE + 1
    ensures var s := Run(Run(Init(lastId), before), steps[..k]);
      s.requester.Chosen? && s.requester.id >= 0x80 && !HasId(s.queue, s.requester.id)
  {
    RunKeepsInv(Init(lastId), before);
    k := SomeChoiceSucceeds(Run(Init(lastId), before), steps);
  }

  lemma {:induction false} SomeChoiceSucceeds(s: State, steps: seq<Step>) returns (k: nat)
    requires Inv(s) && s.requester == Idle && Choices(steps) > FIFO_SIZE
    ensures k <= |steps| && Choices(steps[..k]) <= FIFO_SIZE + 1
    ensures var s' := Run(s, steps[..k]);
      s'.requester.Chosen? && s'.requester.id >= 0x80 && !HasId(s'.queue, s'.requester.id)
  {
    k := FirstChoice(s, steps);
    if k == |steps| {
      FailuresAreFew(s, steps);
    }
    FailuresAreFew(s, steps[..k]);
    ChoicesSoFar(steps, k);
    RunConcat(s, steps[..k], [steps[k]]);
    assert steps[..k + 1] == steps[..k] + [steps[k]];
    assert Run(Next(Run(s, steps[..k]), steps[k]), []) == Next(Run(s, steps[..k]), steps[k]);
    k := k + 1;
    RunKeepsInv(s, steps[..k]);
  }

  // ---------------------------------------------------------------- which entry a response removes

  /** A handled response removes the entry it belongs to and no other, exactly when that entry is
      not the last of several. Otherwise the entry in slot 0 is lost instead and the handled one
      stays, to be handled again. */
  lemma ResponseRemovesItsEntryIff(q: seq<Data>, now: Millis)
    requires QueueInv(q) && LastResponse(q) < |q|
    requires Matches(q[LastResponse(q)]) || q[LastResponse(q)].resendCount >= MAX_RESEND
    ensures var i := LastResponse(q);
      multiset(CheckResponse(q, now)) == multiset(q) - multiset{q[i]} <==> (i < |q| - 1 || |q| == 1)
    ensures var i := LastResponse(q);
      i == |q| - 1 && |q| > 1 ==>
        multiset(CheckResponse(q, now)) == multiset(q) - multiset{q[0]} && CheckResponse(q, now)[0] == q[i]
  {
    var i := LastResponse(q);
    var k := if i == |q| - 1 then 0 else i;
    SwapRemoveMultiset(q, k);
    if k != i {
      assert Apart(q[0], q[i]);
      assert q[0] in multiset(q) && q[i] in multiset(q);
      assert (multiset(q) - multiset{q[0]})[q[i]] == multiset(q)[q[i]];
    }
  }
}

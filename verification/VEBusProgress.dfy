/** No request stays in the queue for ever: each send, timeout and handled response brings an
    entry closer to leaving. Entries are followed by their key, which no two of them share; a
    switch command has no id of its own. */
module VEBusProgress {
  import opened Prelude
  import opened VEBusQueue
  import opened VEBusProtocol

  /** What is left to an entry in slot `k`. The slot counts because a removal can, instead of
      removing the last entry, move it to slot 0. */
  function Remaining(d: Data, k: nat): nat
    requires d.resendCount <= MAX_RESEND
  {
    2 * (MAX_RESEND - d.resendCount) + (if d.isSent then 0 else 1) + (if k > 0 then 1 else 0)
  }

  /** Whether `step` sends the entry in slot `k`, finds it timed out or handles its response. */
  predicate Touches(q: seq<Data>, k: nat, step: Step)
    requires k < |q|
  {
    match step
    case ChooseId => false
    case Insert(_, _) => false
    case InsertSwitch(_, _, _, _) => false
    case Receive(frame, _) => frame != [] && Decode(frame) == Sync && FirstUnsent(q) == k
    case Timeout(readings) => |q| <= |readings| && TimedOut(q[k], readings[k])
    case Respond(_) => LastResponse(q) == k
  }

  /** The entry an insertion step offers to the queue, if `step` is one and is enabled. */
  function NewEntry(s: State, step: Step): Option<Data> {
    match step
    case Insert(request, now) =>
      if s.requester.Chosen? then Some(Build(request, s.requester.id).(sentTimeMs := now)) else None
    case InsertSwitch(switchState, command, address, now) =>
      if s.requester == Idle then Some(BuildSwitch(switchState, command, address).(sentTimeMs := now)) else None
    case _ => None
  }

  /** Whether `step` replaces the entry that has the key of `d`. */
  predicate Replaces(s: State, step: Step, d: Data) {
    NewEntry(s, step).Some? && SameKey(NewEntry(s, step).value, d)
  }

  predicate HasKey(q: seq<Data>, d: Data) {
    exists i :: 0 <= i < |q| && SameKey(q[i], d)
  }

  lemma SameSlot(q: seq<Data>, i: nat, j: nat)
    requires PairwiseApart(q) && i < |q| && j < |q| && SameKey(q[i], q[j])
    ensures i == j
  {
  }

  /** Where a surviving entry is after slot `r` was overwritten by the last one. */
  lemma SurvivorSlot(q: seq<Data>, r: nat, k: nat, k': nat)
    requires PairwiseApart(q) && r < |q| && k < |q| && k' < |q| - 1 && SameKey(SwapRemove(q, r)[k'], q[k])
    ensures SwapRemove(q, r)[k'] == q[k] && k != r && (k' > 0 ==> k > 0) && (k' < r ==> k' == k)
    ensures k > r ==> k' >= r
  {
    SameSlot(q, if k' == r then |q| - 1 else k', k);
  }

  lemma InsertLeavesAlone(q: seq<Data>, d: Data, now: Millis, k: nat, k': nat)
    requires PairwiseApart(q) && k < |q| && !SameKey(d, q[k])
    requires k' < |AddOrUpdate(q, d, now)| && SameKey(AddOrUpdate(q, d, now)[k'], q[k])
    ensures k' == k && AddOrUpdate(q, d, now)[k'] == q[k]
  {
    SameSlot(q, k', k);
  }

  lemma TransmitLowers(q: seq<Data>, now: Millis, k: nat, k': nat)
    requires QueueInv(q) && k < |q| && k' < |Transmit(q, now)| && SameKey(Transmit(q, now)[k'], q[k])
    ensures Transmit(q, now)[k'].resendCount <= MAX_RESEND
    ensures Remaining(Transmit(q, now)[k'], k') + (if FirstUnsent(q) == k then 1 else 0) <= Remaining(q[k], k)
  {
    var i := FirstUnsent(q);
    if i == |q| {
      SameSlot(q, k', k);
    } else {
      var sent := q[i := Sent(q[i], now)];
      UpdateKeepsInv(q, i, Sent(q[i], now));
      if q[i].responseExpected {
        SameSlot(sent, k', k);
      } else {
        SurvivorSlot(sent, i, k, k');
      }
    }
  }

  lemma CheckResponseLowers(q: seq<Data>, now: Millis, k: nat, k': nat)
    requires QueueInv(q) && k < |q| && k' < |CheckResponse(q, now)| && SameKey(CheckResponse(q, now)[k'], q[k])
    ensures CheckResponse(q, now)[k'].resendCount <= MAX_RESEND
    ensures Remaining(CheckResponse(q, now)[k'], k') + (if LastResponse(q) == k then 1 else 0) <= Remaining(q[k], k)
  {
    var i := LastResponse(q);
    if i == |q| {
      SameSlot(q, k', k);
    } else if Matches(q[i]) || q[i].resendCount >= MAX_RESEND {
      SurvivorSlot(q, if i == |q| - 1 then 0 else i, k, k');
    } else {
      UpdateKeepsInv(q, i, Resend(q[i], now));
      SameSlot(q[i := Resend(q[i], now)], k', k);
    }
  }

  /** The timeout pass introduces no key. */
  lemma {:induction false} TimeoutKeepsKeys(q: seq<Data>, i: nat, readings: seq<Reading>, d: Data)
    requires i <= |q| && i <= |readings| && HasKey(TimeoutFrom(q, i, readings), d)
    ensures HasKey(q, d)
    decreases i
  {
    if i > 0 {
      var n := i - 1;
      var q1 := TimeoutStep(q, n, readings[n]);
      TimeoutKeepsKeys(q1, n, readings, d);
      var j :| 0 <= j < |q1| && SameKey(q1[j], d);
      assert SameKey(q[j], d) || SameKey(q[|q| - 1], d);
    }
  }

  lemma {:induction false} TimeoutLowers(q: seq<Data>, i: nat, readings: seq<Reading>, k: nat, k': nat)
    requires QueueInv(q) && i <= |q| && i <= |readings| && k < |q|
    requires k' < |TimeoutFrom(q, i, readings)| && SameKey(TimeoutFrom(q, i, readings)[k'], q[k])
    ensures TimeoutFrom(q, i, readings)[k'].resendCount <= MAX_RESEND
    ensures Remaining(TimeoutFrom(q, i, readings)[k'], k')
            + (if k < i && TimedOut(q[k], readings[k]) then 1 else 0) <= Remaining(q[k], k)
    decreases i
  {
    if i == 0 {
      SameSlot(q, k', k);
    } else {
      var n := i - 1;
      var q1 := TimeoutStep(q, n, readings[n]);
      assert Sound(q[n]) && Sound(q[k]);
      if Examine(q[n], readings[n]).Some? {
        UpdateKeepsInv(q, n, Examine(q[n], readings[n]).value);
        TimeoutLowers(q1, n, readings, k, k');
      } else {
        var k1 := RemovedSurvivor(q, n, readings, k);
        TimeoutLowers(q1, n, readings, k1, k');
      }
    }
  }

  /** An entry that is there after the pass survived the removal of slot `n`. */
  lemma RemovedSurvivor(q: seq<Data>, n: nat, readings: seq<Reading>, k: nat) returns (k1: nat)
    requires QueueInv(q) && n < |q| && n < |readings| && k < |q|
    requires HasKey(TimeoutFrom(SwapRemove(q, n), n, readings), q[k])
    ensures QueueInv(SwapRemove(q, n)) && k != n
    ensures k1 < |q| - 1 && SwapRemove(q, n)[k1] == q[k] && (k1 > 0 ==> k > 0) && (k < n ==> k1 == k)
  {
    SwapRemoveKeepsInv(q, n);
    TimeoutKeepsKeys(SwapRemove(q, n), n, readings, q[k]);
    k1 :| 0 <= k1 < |q| - 1 && SameKey(SwapRemove(q, n)[k1], q[k]);
    SurvivorSlot(q, n, k, k1);
  }

  lemma ReceiveLowers(s: State, frame: seq<byte>, now: Millis, k: nat, k': nat)
    requires Inv(s) && k < |s.queue|
    requires var after := Next(s, Receive(frame, now)).queue; k' < |after| && SameKey(after[k'], s.queue[k])
    ensures var after := Next(s, Receive(frame, now)).queue;
      && after[k'].resendCount <= MAX_RESEND
      && Remaining(after[k'], k') + (if Touches(s.queue, k, Receive(frame, now)) then 1 else 0)
         <= Remaining(s.queue[k], k)
  {
    var q := s.queue;
    if frame != [] && Decode(frame) == Sync {
      TransmitLowers(q, now, k, k');
    } else if frame != [] && Decode(frame) == Response {
      StoreResponseKeepsInv(q, frame);
      SameSlot(StoreResponse(q, frame), k', k);
    } else {
      SameSlot(q, k', k);
    }
  }

  /** One step of any task, for any entry that is there before and after it and that the step does
      not replace by a newer one. */
  lemma StepLowers(s: State, step: Step, k: nat, k': nat)
    requires Inv(s) && k < |s.queue| && !Replaces(s, step, s.queue[k])
    requires k' < |Next(s, step).queue| && SameKey(Next(s, step).queue[k'], s.queue[k])
    ensures Next(s, step).queue[k'].resendCount <= MAX_RESEND
    ensures Remaining(Next(s, step).queue[k'], k') + (if Touches(s.queue, k, step) then 1 else 0)
            <= Remaining(s.queue[k], k)
  {
    var q := s.queue;
    match step
    case ChooseId => SameSlot(q, k', k);
    case Insert(request, now) =>
      if s.requester.Chosen? {
        InsertLeavesAlone(q, Build(request, s.requester.id), now, k, k');
      } else {
        SameSlot(q, k', k);
      }
    case InsertSwitch(switchState, command, address, now) =>
      if s.requester == Idle {
        InsertLeavesAlone(q, BuildSwitch(switchState, command, address), now, k, k');
      } else {
        SameSlot(q, k', k);
      }
    case Receive(frame, now) => ReceiveLowers(s, frame, now, k, k');
    case Timeout(readings) =>
      if |q| <= |readings| {
        TimeoutLowers(q, |q|, readings, k, k');
      } else {
        SameSlot(q, k', k);
      }
    case Respond(now) => CheckResponseLowers(q, now, k, k');
  }

  /** The entry with the key of `d` is in the queue in every state of the run, and no step of the
      run replaces it. */
  predicate Stays(s: State, steps: seq<Step>, d: Data)
    decreases steps
  {
    && HasKey(s.queue, d)
    && (steps != [] ==> !Replaces(s, steps[0], d) && Stays(Next(s, steps[0]), steps[1..], d))
  }

  /** How many steps of the run touch the entry with the key of `d`. */
  function TouchCount(s: State, steps: seq<Step>, d: Data): nat
    decreases steps
  {
    if steps == [] then 0
    else
      var k := FindKey(s.queue, d);
      (if k < |s.queue| && Touches(s.queue, k, steps[0]) then 1 else 0)
      + TouchCount(Next(s, steps[0]), steps[1..], d)
  }

  lemma {:induction false} TouchesLower(s: State, steps: seq<Step>, d: Data, k: nat)
    requires Inv(s) && k < |s.queue| && SameKey(s.queue[k], d) && Stays(s, steps, d)
    ensures TouchCount(s, steps, d) <= Remaining(s.queue[k], k)
    decreases steps
  {
    if steps != [] {
      SameSlot(s.queue, FindKey(s.queue, d), k);
      var s' := Next(s, steps[0]);
      assert HasKey(s'.queue, d);
      var k' :| 0 <= k' < |s'.queue| && SameKey(s'.queue[k'], d);
      NextKeepsInv(s, steps[0]);
      StepLowers(s, steps[0], k, k');
      TouchesLower(s', steps[1..], d, k');
    }
  }

  /** Over any stretch of any run in which an entry stays in the queue and is not replaced, it is
      sent, timed out or answered at most eight times; a ninth such event removes it. */
  lemma EntriesLeave(lastId: byte, before: seq<Step>, steps: seq<Step>, d: Data)
    requires Stays(Run(Init(lastId), before), steps, d)
    ensures TouchCount(Run(Init(lastId), before), steps, d) <= 8
  {
    RunKeepsInv(Init(lastId), before);
    var s := Run(Init(lastId), before);
    assert HasKey(s.queue, d);
    var k :| 0 <= k < |s.queue| && SameKey(s.queue[k], d);
    TouchesLower(s, steps, d, k);
  }
}

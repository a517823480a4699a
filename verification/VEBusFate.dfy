/** Why requests leave the queue: every step of every task, entry by entry. */
module VEBusFate {
  import opened Prelude
  import opened VEBusQueue
  import opened VEBusProtocol
  import opened VEBusProgress

  /** The slot a handled response empties: the handled entry's own, except that the last of several
      entries stays and slot 0 goes. */
  function EmptiedSlot(q: seq<Data>): nat
    requires q != []
  {
    var i := LastResponse(q);
    if i == |q| - 1 then 0 else i
  }

  /** Every reason for which `step` can take the entry in slot `k` out of the queue: a newer request
      with its key replaces it, it is sent and expects no response, it times out after three
      resends, or a handled response empties its slot. */
  predicate Leaves(s: State, k: nat, step: Step)
    requires k < |s.queue|
  {
    var q, d := s.queue, s.queue[k];
    match step
    case ChooseId => false
    case Insert(_, _) => Replaces(s, step, d)
    case InsertSwitch(_, _, _, _) => Replaces(s, step, d)
    case Receive(frame, _) => frame != [] && Decode(frame) == Sync && FirstUnsent(q) == k && !d.responseExpected
    case Timeout(readings) => |q| <= |readings| && Exhausted(d, readings[k])
    case Respond(_) =>
      var i := LastResponse(q);
      i < |q| && (Matches(q[i]) || q[i].resendCount >= MAX_RESEND) && k == EmptiedSlot(q)
  }

  predicate Exhausted(d: Data, r: Reading) {
    TimedOut(d, r) && d.resendCount >= MAX_RESEND
  }

  /** The same request, whatever happened to its bookkeeping. */
  predicate SameRequest(a: Data, b: Data) {
    && a.id == b.id && SameKey(a, b)
    && a.requestData == b.requestData && a.expectedResponseCode == b.expectedResponseCode
    && a.responseExpected == b.responseExpected
  }

  /** The request of `d` is in `q`, in slot `k`. */
  predicate FoundAt(q: seq<Data>, k: nat, d: Data) {
    k < |q| && SameRequest(q[k], d)
  }

  /** The key of `d` is gone from `q`, or its request is still there. */
  ghost predicate Fate(q: seq<Data>, d: Data, gone: bool) {
    if gone then !HasKey(q, d) else exists k :: FoundAt(q, k, d)
  }

  lemma FateOfRemoval(q: seq<Data>, r: nat, k: nat)
    requires QueueInv(q) && r < |q| && k < |q|
    ensures Fate(SwapRemove(q, r), q[k], k == r)
  {
    var q' := SwapRemove(q, r);
    if k == r {
      forall j | 0 <= j < |q'|
        ensures !SameKey(q'[j], q[k])
      {
        assert j != k ==> Apart(q[j], q[k]) || Apart(q[k], q[j]);
        assert k < |q| - 1 ==> Apart(q[k], q[|q| - 1]);
      }
    } else {
      assert FoundAt(q', if k == |q| - 1 then r else k, q[k]);
    }
  }

  lemma FateOfUpdate(q: seq<Data>, i: nat, d: Data, k: nat)
    requires i < |q| && k < |q| && SameRequest(d, q[i])
    ensures Fate(q[i := d], q[k], false)
  {
    assert FoundAt(q[i := d], k, q[k]);
  }

  /** After an insertion, entries with another key are where they were, and the new entry is the only
      one with its key. */
  lemma FateOfInsert(q: seq<Data>, d: Data, now: Millis, k: nat)
    requires QueueInv(q) && k < |q| && !d.isSent && d.responseData == []
    ensures var q' := AddOrUpdate(q, d, now);
      if SameKey(d, q[k])
      then q'[k] == d.(sentTimeMs := now) && forall j :: 0 <= j < |q'| && SameKey(q'[j], q[k]) ==> j == k
      else FoundAt(q', k, q[k])
  {
    if SameKey(d, q[k]) {
      SameSlot(q, FindKey(q, d), k);
    }
  }

  lemma FateOfTransmit(q: seq<Data>, now: Millis, k: nat)
    requires QueueInv(q) && k < |q|
    ensures Fate(Transmit(q, now), q[k], FirstUnsent(q) == k && !q[k].responseExpected)
  {
    var i := FirstUnsent(q);
    if i == |q| {
      assert FoundAt(q, k, q[k]);
    } else {
      FateOfUpdate(q, i, Sent(q[i], now), k);
      if !q[i].responseExpected {
        var sent := q[i := Sent(q[i], now)];
        UpdateKeepsInv(q, i, Sent(q[i], now));
        FateOfRemoval(sent, i, k);
        SameFate(SwapRemove(sent, i), sent[k], q[k], k == i);
      }
    }
  }

  lemma SameFate(q: seq<Data>, a: Data, b: Data, gone: bool)
    requires Fate(q, a, gone) && SameRequest(a, b)
    ensures Fate(q, b, gone)
  {
    if !gone {
      var k :| FoundAt(q, k, a);
      assert FoundAt(q, k, b);
    }
  }

  lemma {:induction false} FateOfTimeout(q: seq<Data>, i: nat, readings: seq<Reading>, k: nat)
    requires QueueInv(q) && i <= |q| && i <= |readings| && k < |q|
    ensures Fate(TimeoutFrom(q, i, readings), q[k], k < i && Exhausted(q[k], readings[k]))
    decreases i
  {
    if i == 0 {
      assert FoundAt(q, k, q[k]);
    } else {
      var n := i - 1;
      var q1 := TimeoutStep(q, n, readings[n]);
      assert Sound(q[n]);
      if Examine(q[n], readings[n]).Some? {
        var d := Examine(q[n], readings[n]).value;
        UpdateKeepsInv(q, n, d);
        FateOfTimeout(q1, n, readings, k);
        SameFate(TimeoutFrom(q1, n, readings), q1[k], q[k], k < n && Exhausted(q1[k], readings[k]));
      } else {
        SwapRemoveKeepsInv(q, n);
        FateOfRemoval(q, n, k);
        if k == n {
          RemovedStaysAway(q1, n, readings, q[k]);
        } else {
          FateOfTimeout(q1, n, readings, if k == |q| - 1 then n else k);
        }
      }
    }
  }

  lemma RemovedStaysAway(q: seq<Data>, i: nat, readings: seq<Reading>, d: Data)
    requires i <= |q| && i <= |readings| && !HasKey(q, d)
    ensures !HasKey(TimeoutFrom(q, i, readings), d)
  {
    if HasKey(TimeoutFrom(q, i, readings), d) {
      TimeoutKeepsKeys(q, i, readings, d);
    }
  }

  lemma FateOfResponse(q: seq<Data>, now: Millis, k: nat)
    requires QueueInv(q) && k < |q|
    ensures var i := LastResponse(q);
      Fate(CheckResponse(q, now), q[k],
           i < |q| && (Matches(q[i]) || q[i].resendCount >= MAX_RESEND) && k == EmptiedSlot(q))
  {
    var i := LastResponse(q);
    if i == |q| {
      assert FoundAt(q, k, q[k]);
    } else if Matches(q[i]) || q[i].resendCount >= MAX_RESEND {
      FateOfRemoval(q, EmptiedSlot(q), k);
    } else {
      FateOfUpdate(q, i, Resend(q[i], now), k);
    }
  }

  /** Whatever entry has the key of `d` in `q` is the one `step` inserts. */
  ghost predicate OnlyNewer(s: State, step: Step, q: seq<Data>, d: Data) {
    forall j :: 0 <= j < |q| && SameKey(q[j], d) ==> NewEntry(s, step) == Some(q[j])
  }

  /** No request vanishes or changes unnoticed. In every reachable state and for every step and
      entry, switch commands included: afterwards no entry with its key remains, other than one the
      step inserts, exactly when one of the reasons in `Leaves` applies; otherwise its request is
      still queued, byte for byte. */
  lemma RequestLeavesIff(lastId: byte, steps: seq<Step>, step: Step, k: nat)
    requires k < |Run(Init(lastId), steps).queue|
    ensures var s := Run(Init(lastId), steps);
      && (OnlyNewer(s, step, Next(s, step).queue, s.queue[k]) <==> Leaves(s, k, step))
      && (!Leaves(s, k, step) ==> exists k' :: FoundAt(Next(s, step).queue, k', s.queue[k]))
  {
    RunKeepsInv(Init(lastId), steps);
    var s := Run(Init(lastId), steps);
    if NewEntry(s, step).Some? {
      FateOfNewEntry(s, step, k);
    } else {
      FateOfStep(s, step, k);
      if !Leaves(s, k, step) {
        var k': nat :| FoundAt(Next(s, step).queue, k', s.queue[k]);
        assert SameKey(Next(s, step).queue[k'], s.queue[k]);
      }
    }
  }

  lemma FateOfNewEntry(s: State, step: Step, k: nat)
    requires Inv(s) && k < |s.queue| && NewEntry(s, step).Some?
    ensures OnlyNewer(s, step, Next(s, step).queue, s.queue[k]) <==> Leaves(s, k, step)
    ensures !Leaves(s, k, step) ==> FoundAt(Next(s, step).queue, k, s.queue[k])
  {
    match step
    case Insert(request, now) =>
      FateOfInsert(s.queue, Build(request, s.requester.id), now, k);
    case InsertSwitch(switchState, command, address, now) =>
      FateOfInsert(s.queue, BuildSwitch(switchState, command, address), now, k);
    case _ =>
  }

  lemma FateOfStep(s: State, step: Step, k: nat)
    requires Inv(s) && k < |s.queue| && NewEntry(s, step).None?
    ensures Fate(Next(s, step).queue, s.queue[k], Leaves(s, k, step))
  {
    var q := s.queue;
    assert FoundAt(q, k, q[k]);
    match step
    case ChooseId =>
    case Insert(_, _) =>
    case InsertSwitch(_, _, _, _) =>
    case Receive(frame, now) =>
      if frame != [] && Decode(frame) == Sync {
        FateOfTransmit(q, now, k);
      } else if frame != [] && Decode(frame) == Response {
        var i := FindId(q, frame[5]);
        if i < |q| {
          FateOfUpdate(q, i, q[i].(responseData := frame), k);
        }
      }
    case Timeout(readings) =>
      if |q| <= |readings| {
        FateOfTimeout(q, |q|, readings, k);
      }
    case Respond(now) => FateOfResponse(q, now, k);
  }

  /** A request or switch command that is offered is queued, unsent and unanswered, exactly when its
      key is queued already or there is room. Otherwise the queue is unchanged. */
  lemma InsertedIff(s: State, step: Step)
    requires NewEntry(s, step).Some?
    ensures var e, q, q' := NewEntry(s, step).value, s.queue, Next(s, step).queue;
      && !e.isSent && e.responseData == []
      && ((exists k :: 0 <= k < |q'| && q'[k] == e) <==> HasKey(q, e) || |q| < 16)
      && (HasKey(q, e) || |q| < 16 || q' == q)
  {
    var e, q, q' := NewEntry(s, step).value, s.queue, Next(s, step).queue;
    var built := match step
      case Insert(request, _) => Build(request, s.requester.id)
      case InsertSwitch(switchState, command, address, _) => BuildSwitch(switchState, command, address)
      case _ => e;
    var i := FindKey(q, built);
    if i < |q| {
      assert SameKey(q[i], e) && q'[i] == e;
    } else if |q| < FIFO_SIZE {
      assert q'[|q|] == e;
    } else {
      assert forall k :: 0 <= k < |q| ==> !SameKey(q[k], e);
    }
  }

  // ---------------------------------------------------------------- the unset key of a switch command

  /** A switch command leaves its key to what the memory held. It throws a pending request out of the
      queue exactly when that key happens to be the request's. */
  lemma SwitchOverwritesIff(lastId: byte, steps: seq<Step>, switchState: byte, command: byte, address: byte,
                            now: Millis, k: nat)
    requires var s := Run(Init(lastId), steps);
      s.requester == Idle && k < |s.queue| && s.queue[k].id != 0
    ensures var s := Run(Init(lastId), steps);
      !HasId(Next(s, InsertSwitch(switchState, command, address, now)).queue, s.queue[k].id)
      <==> s.queue[k].command == command && s.queue[k].address == address
  {
    RunKeepsInv(Init(lastId), steps);
    var s := Run(Init(lastId), steps);
    var d := BuildSwitch(switchState, command, address);
    var q' := AddOrUpdate(s.queue, d, now);
    FateOfInsert(s.queue, d, now, k);
    if SameKey(d, s.queue[k]) {
      forall j | 0 <= j < |q'|
        ensures q'[j].id != s.queue[k].id
      {
        assert j < k ==> Apart(s.queue[j], s.queue[k]);
        assert k < j ==> Apart(s.queue[k], s.queue[j]);
      }
    }
  }
}

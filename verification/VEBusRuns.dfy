/** Runs from the empty queue, with frames that can arrive, in which the queue does what its comments
    exclude. */
module VEBusRuns {
  import opened Prelude
  import opened VEBusCodec
  import opened VEBusFraming
  import opened VEBusQueue
  import opened VEBusProtocol
  import opened VEBusStale

  /** A sync frame, a good answer to the read with id 0x81, and one to the read with id 0x80 that
      says the variable is not supported. */
  const SYNC: seq<byte> := [MP_ID_0, MP_ID_1, SYNC_FRAME, 0x00, SYNC_BYTE, 0, 0, 0, 0, END_OF_FRAME]
  const REPLY: seq<byte> := [MP_ID_0, MP_ID_1, DATA_FRAME, 0x00, 0x00, 0x81, 0x85, 0x10, 0x00, 0xED, END_OF_FRAME]
  const REFUSAL: seq<byte> := [MP_ID_0, MP_ID_1, DATA_FRAME, 0x00, 0x00, 0x80, 0x90, 0xF3, END_OF_FRAME]

  /** The bytes of the frames, one after the other on the line, are dispatched as these frames, and
      destuffing leaves them as they are. */
  ghost predicate Arrive(frames: seq<seq<byte>>) {
    Feed([], Flatten(frames)) == Reception(frames, []) && forall f :: f in frames ==> DestuffFrame(f) == f
  }

  lemma TheseArrive(frames: seq<seq<byte>>)
    requires forall f :: f in frames ==> f in [SYNC, REPLY, REFUSAL]
    ensures Arrive(frames)
  {
    SyncArrives();
    ReplyArrives();
    RefusalArrives();
    forall k | 0 <= k < |frames|
      ensures IsSegment(frames[k]) && |frames[k]| <= MAX_BUFFER_SIZE
    {
      assert frames[k] in frames;
    }
    ShortFramesAreReceived(frames);
  }

  lemma SyncArrives()
    ensures IsSegment(SYNC) && DestuffFrame(SYNC) == SYNC
  {
    PlainIsKept(SYNC[4..]);
    assert SYNC[..4] + SYNC[4..] == SYNC;
  }

  lemma ReplyArrives()
    ensures IsSegment(REPLY) && DestuffFrame(REPLY) == REPLY
  {
    PlainIsKept(REPLY[4..]);
    assert REPLY[..4] + REPLY[4..] == REPLY;
  }

  lemma RefusalArrives()
    ensures IsSegment(REFUSAL) && DestuffFrame(REFUSAL) == REFUSAL
  {
    PlainIsKept(REFUSAL[4..]);
    assert REFUSAL[..4] + REFUSAL[4..] == REFUSAL;
  }

  lemma {:induction false} PlainIsKept(s: seq<byte>)
    requires ESCAPE !in s
    ensures Destuff(s) == s
  {
    if s != [] {
      PlainIsKept(s[1..]);
      assert s == [s[0]] + s[1..];
    }
  }

  // ---------------------------------------------------------------- a request answered twice

  /** Two reads are queued, and two sync frames let both of them out. */
  function TwoReads(): seq<Step> {
    [ChooseId, Insert(ReadRam(4), 0), ChooseId] + [Insert(ReadRam(5), 0), Receive(SYNC, 0), Receive(SYNC, 0)]
  }

  /** A run from the empty queue: of two reads that were sent, the second one is answered. The answer
      is handed on twice, and the first read is lost without one. */
  lemma AnsweredTwice()
    ensures var answered := Sent(Build(ReadRam(5), 0x81), 0).(responseData := REPLY);
      var s := Run(Init(0), TwoReads() + [Receive(REPLY, 0), Respond(0), Respond(0)]);
      s.queue == [] && |s.sent| == 2 && s.completed == [answered, answered]
    ensures Arrive([SYNC, SYNC, REPLY])
  {
    TheseArrive([SYNC, SYNC, REPLY]);
    TwoReadsSent();
    ReplyAnswersSecond();
    ThenAnswered(Init(0), TwoReads(), REPLY);
  }

  lemma ReplyAnswersSecond()
    ensures |REPLY| > 6 && Decode(REPLY) == Response && REPLY[5] == 0x81 && REPLY[6] == 0x85
  {
  }

  lemma ThenAnswered(s: State, steps: seq<Step>, reply: seq<byte>)
    requires var s' := Run(s, steps);
      && s'.queue == [Sent(Build(ReadRam(4), 0x80), 0), Sent(Build(ReadRam(5), 0x81), 0)]
      && |s'.sent| == 2 && s'.completed == []
    requires |reply| > 6 && Decode(reply) == Response && reply[5] == 0x81 && reply[6] == 0x85
    ensures var answered := Sent(Build(ReadRam(5), 0x81), 0).(responseData := reply);
      var s' := Run(s, steps + [Receive(reply, 0), Respond(0), Respond(0)]);
      s'.queue == [] && |s'.sent| == 2 && s'.completed == [answered, answered]
  {
    RunConcat(s, steps, [Receive(reply, 0), Respond(0), Respond(0)]);
    SecondAnsweredTwice(Run(s, steps), reply);
  }

  lemma FirstReadQueued()
    ensures Run(Init(0), [ChooseId, Insert(ReadRam(4), 0), ChooseId])
         == State([Build(ReadRam(4), 0x80)], 0x81, Chosen(0x81), 0, [], [])
  {
    var a := Build(ReadRam(4), 0x80);
    RunThree(Init(0), ChooseId, Insert(ReadRam(4), 0), ChooseId);
    assert Next(Init(0), ChooseId) == Init(0x80).(requester := Chosen(0x80));
    assert AddOrUpdate([], a, 0) == [a];
    assert !HasId([a], 0x81);
  }

  lemma SecondReadSent(s: State, b: Data)
    requires s == State([Build(ReadRam(4), 0x80)], 0x81, Chosen(0x81), 0, [], []) && b == Build(ReadRam(5), 0x81)
    ensures var s' := Next(Next(Next(s, Insert(ReadRam(5), 0)), Receive(SYNC, 0)), Receive(SYNC, 0));
      s'.queue == [Sent(s.queue[0], 0), Sent(b, 0)] && |s'.sent| == 2 && s'.completed == []
  {
    var a := s.queue[0];
    assert FindKey([a], b) == 1;
    var s1 := Next(s, Insert(ReadRam(5), 0));
    assert s1.queue == [a, b] && s1.sent == [] && Decode(SYNC) == Sync;
    TransmitBoth(a, b);
    var s2 := Next(s1, Receive(SYNC, 0));
    assert s2.queue == [Sent(a, 0), b] && |s2.sent| == 1;
  }

  lemma TransmitBoth(a: Data, b: Data)
    requires !a.isSent && !b.isSent && a.responseExpected && b.responseExpected
    ensures FirstUnsent([a, b]) == 0 && Transmit([a, b], 0) == [Sent(a, 0), b]
    ensures FirstUnsent([Sent(a, 0), b]) == 1 && Transmit([Sent(a, 0), b], 0) == [Sent(a, 0), Sent(b, 0)]
  {
    assert [Sent(a, 0), b][1..] == [b] && FirstUnsent([b]) == 0;
  }

  lemma TwoReadsSent()
    ensures var s := Run(Init(0), TwoReads());
      && s.queue == [Sent(Build(ReadRam(4), 0x80), 0), Sent(Build(ReadRam(5), 0x81), 0)]
      && |s.sent| == 2 && s.completed == []
  {
    RunConcat(Init(0), [ChooseId, Insert(ReadRam(4), 0), ChooseId],
              [Insert(ReadRam(5), 0), Receive(SYNC, 0), Receive(SYNC, 0)]);
    FirstReadQueued();
    var s := Run(Init(0), [ChooseId, Insert(ReadRam(4), 0), ChooseId]);
    RunThree(s, Insert(ReadRam(5), 0), Receive(SYNC, 0), Receive(SYNC, 0));
    SecondReadSent(s, Build(ReadRam(5), 0x81));
  }

  lemma SecondAnsweredTwice(s: State, reply: seq<byte>)
    requires s.queue == [Sent(Build(ReadRam(4), 0x80), 0), Sent(Build(ReadRam(5), 0x81), 0)] && s.completed == []
    requires |reply| > 6 && Decode(reply) == Response && reply[5] == 0x81 && reply[6] == 0x85
    ensures var answered := s.queue[1].(responseData := reply);
      Run(s, [Receive(reply, 0), Respond(0), Respond(0)]) == s.(queue := [], completed := [answered, answered])
  {
    var answered := s.queue[1].(responseData := reply);
    RunThree(s, Receive(reply, 0), Respond(0), Respond(0));
    ReplyStored(s, reply);
    LastHandledTwice(s.(queue := [s.queue[0], answered]), answered);
  }

  lemma ReplyStored(s: State, reply: seq<byte>)
    requires |s.queue| == 2 && s.queue[0].id != 0x81 && s.queue[1].id == 0x81
    requires reply != [] && Decode(reply) == Response && reply[5] == 0x81
    ensures Next(s, Receive(reply, 0)) == s.(queue := [s.queue[0], s.queue[1].(responseData := reply)])
  {
    var a, b := s.queue[0], s.queue[1];
    assert FindId([a, b], 0x81) == 1 by {
      assert [a, b][1..] == [b] && FindId([b], 0x81) == 0;
    }
    assert s.queue == [a, b];
  }

  /** The last entry of two, answered: handled once with the first entry lost, and then again. */
  lemma LastHandledTwice(s: State, answered: Data)
    requires |s.queue| == 2 && s.queue[1] == answered && s.queue[0].responseData == []
    requires answered.responseData != [] && Matches(answered) && s.completed == []
    ensures Next(Next(s, Respond(0)), Respond(0)) == s.(queue := [], completed := [answered, answered])
  {
    assert LastResponse(s.queue) == 1;
    var s' := Next(s, Respond(0));
    assert s' == s.(queue := [answered], completed := [] + [answered]);
    assert LastResponse(s'.queue) == 0;
    assert Next(s', Respond(0)) == s.(queue := [], completed := [answered] + [answered]);
  }

  // ---------------------------------------------------------------- a wrong response counted four times

  /** A run from the empty queue: one refusal takes its request out of the queue in four passes,
      although it was sent only once and three resends were granted. */
  lemma RefusedOnce()
    ensures var s := Run(Init(0), [ChooseId, Insert(ReadRam(4), 0), Receive(SYNC, 0)]
                                  + ([Receive(REFUSAL, 0)] + Passes([0, 0, 0]) + [Respond(0)]));
      s.queue == [] && |s.sent| == 1 && s.completed == []
    ensures Arrive([SYNC, REFUSAL])
  {
    TheseArrive([SYNC, REFUSAL]);
    OneReadSent();
    RefusalIsWrong();
    ThenRefused(Init(0), [ChooseId, Insert(ReadRam(4), 0), Receive(SYNC, 0)], REFUSAL, [0, 0, 0]);
  }

  lemma RefusalIsWrong()
    ensures |REFUSAL| > 6 && Decode(REFUSAL) == Response && REFUSAL[5] == 0x80 && REFUSAL[6] != 0x85
  {
  }

  lemma OneReadSent()
    ensures var s := Run(Init(0), [ChooseId, Insert(ReadRam(4), 0), Receive(SYNC, 0)]);
      s.queue == [Sent(Build(ReadRam(4), 0x80), 0)] && |s.sent| == 1 && s.completed == []
  {
    var a := Build(ReadRam(4), 0x80);
    RunThree(Init(0), ChooseId, Insert(ReadRam(4), 0), Receive(SYNC, 0));
    assert Next(Init(0), ChooseId) == Init(0x80).(requester := Chosen(0x80));
    assert AddOrUpdate([], a, 0) == [a];
    assert Decode(SYNC) == Sync && FirstUnsent([a]) == 0;
  }

  lemma ThenRefused(s: State, steps: seq<Step>, reply: seq<byte>, times: seq<Millis>)
    requires var s' := Run(s, steps);
      s'.queue == [Sent(Build(ReadRam(4), 0x80), 0)] && |s'.sent| == 1 && s'.completed == []
    requires |reply| > 6 && Decode(reply) == Response && reply[5] == 0x80 && reply[6] != 0x85 && |times| == 3
    ensures var s' := Run(s, steps + ([Receive(reply, 0)] + Passes(times) + [Respond(0)]));
      s'.queue == [] && |s'.sent| == 1 && s'.completed == []
  {
    var s1 := Run(s, steps);
    RunConcat(s, steps, [Receive(reply, 0)] + Passes(times) + [Respond(0)]);
    RunConcat(s1, [Receive(reply, 0)] + Passes(times), [Respond(0)]);
    RunConcat(s1, [Receive(reply, 0)], Passes(times));
    RunOne(s1, Receive(reply, 0));
    var refused := s1.queue[0].(responseData := reply);
    var s2 := s1.(queue := [refused]);
    assert Next(s1, Receive(reply, 0)) == s2;
    PassesSpendResends(s2, times);
    SpentKeeps(refused, times);
    var s3 := s2.(queue := [Spent(refused, times)]);
    RunOne(s3, Respond(0));
  }

  lemma RunOne(s: State, a: Step)
    ensures Run(s, [a]) == Next(s, a)
  {
    assert Run(Next(s, a), []) == Next(s, a);
  }

  // ---------------------------------------------------------------- a selection that fails

  /** Read 4 is asked for twice, so that it is queued with id 0x81. Then read 5 is asked for `n`
      times, with no sync frame in between. */
  function Reads(n: nat): seq<Step> {
    if n == 0 then [ChooseId, Insert(ReadRam(4), 0)] + [ChooseId, Insert(ReadRam(4), 0)]
    else Reads(n - 1) + [ChooseId, Insert(ReadRam(5), 0)]
  }

  lemma RunPair(s: State, a: Step, b: Step)
    ensures Run(s, [a, b]) == Next(Next(s, a), b)
  {
    assert [a, b][1..] == [b] && [b][1..] == [];
    assert Run(Next(s, a), [b]) == Run(Next(Next(s, a), b), []);
  }

  lemma FirstReadTwice()
    ensures Run(Init(0), Reads(0)) == State([Build(ReadRam(4), 0x81)], 0x81, Idle, 0, [], [])
  {
    var pair := [ChooseId, Insert(ReadRam(4), 0)];
    RunConcat(Init(0), pair, pair);
    RunPair(Init(0), ChooseId, Insert(ReadRam(4), 0));
    assert Next(Init(0), ChooseId) == Init(0x80).(requester := Chosen(0x80));
    var s := State([Build(ReadRam(4), 0x80)], 0x80, Idle, 0, [], []);
    assert Run(Init(0), pair) == s;
    RunPair(s, ChooseId, Insert(ReadRam(4), 0));
    assert !HasId(s.queue, 0x81) && FindKey(s.queue, Build(ReadRam(4), 0x81)) == 0;
  }

  /** After `n` of them the queue holds the two reads, the second one with the n-th id after 0x81. */
  ghost predicate AfterReads(n: nat, s: State) {
    s == State([Build(ReadRam(4), 0x81)] + (if n == 0 then [] else [Build(ReadRam(5), Cycle(0x81, n))]),
               Cycle(0x81, n), Idle, 0, [], [])
  }

  lemma {:induction false} ReadsTakeIds(n: nat)
    requires n <= 127
    ensures AfterReads(n, Run(Init(0), Reads(n)))
  {
    if n == 0 {
      FirstReadTwice();
    } else {
      ReadsTakeIds(n - 1);
      var s := Run(Init(0), Reads(n - 1));
      RunConcat(Init(0), Reads(n - 1), [ChooseId, Insert(ReadRam(5), 0)]);
      RunPair(s, ChooseId, Insert(ReadRam(5), 0));
      OneMoreRead(n, s);
    }
  }

  lemma OneMoreRead(n: nat, s: State)
    requires 0 < n <= 127 && AfterReads(n - 1, s)
    ensures AfterReads(n, Next(Next(s, ChooseId), Insert(ReadRam(5), 0)))
  {
    var id := Cycle(0x81, n);
    CyclePosition(0x81, n);
    if n > 1 {
      CyclePosition(0x81, n - 1);
    }
    assert !HasId(s.queue, id);
    assert Next(s, ChooseId) == s.(lastId := id, requester := Chosen(id));
    assert FindKey(s.queue, Build(ReadRam(5), id)) == 1;
  }

  /** The comment above the selection promises failure only when no id is free. In this run a call
      fails although 126 of the 128 ids are free: it comes around to the id of a request that has
      been waiting all the time. */
  lemma SelectionFailsWithFreeIds() returns (steps: seq<Step>)
    ensures var s := Run(Init(0), steps);
      && s.requester == Idle && Next(s, ChooseId).requester == Idle
      && (forall id: byte :: 0x80 <= id ==> (HasId(s.queue, id) <==> id == 0x80 || id == 0x81))
  {
    steps := AllReads(127);
    ComesAround(127, Run(Init(0), steps));
  }

  lemma AllReads(n: nat) returns (steps: seq<Step>)
    requires 126 < n < 128
    ensures AfterReads(n, Run(Init(0), steps))
  {
    steps := Reads(n);
    ReadsTakeIds(n);
  }

  lemma ComesAround(n: nat, s: State)
    requires 126 < n < 128 && AfterReads(n, s)
    ensures s.requester == Idle && Next(s, ChooseId).requester == Idle
    ensures forall id: byte :: 0x80 <= id ==> (HasId(s.queue, id) <==> id == 0x80 || id == 0x81)
  {
    CyclePosition(0x81, n);
    assert s.lastId == 0x80 && s.queue[0].id == 0x81 && s.queue[1].id == 0x80;
  }

  // ---------------------------------------------------------------- a request lost to a switch command

  /** A run in which a read request that was never sent is lost to a switch command. */
  lemma SwitchOverwritesARead()
    ensures Run(Init(0), [ChooseId, Insert(ReadRam(4), 0), InsertSwitch(0x07, 0x30, 4, 0)]).queue
         == [BuildSwitch(0x07, 0x30, 4)]
  {
    var s1 := Next(Init(0), ChooseId);
    var s2 := Next(s1, Insert(ReadRam(4), 0));
    assert s1.requester == Chosen(0x80) && s2.queue == [Build(ReadRam(4), 0x80)];
    var s3 := Next(s2, InsertSwitch(0x07, 0x30, 4, 0));
    assert FindKey(s2.queue, BuildSwitch(0x07, 0x30, 4)) == 0;
    assert s3.queue == [BuildSwitch(0x07, 0x30, 4)];
    RunThree(Init(0), ChooseId, Insert(ReadRam(4), 0), InsertSwitch(0x07, 0x30, 4, 0));
  }
}

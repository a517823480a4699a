/** What DHCP clients see: messages and addresses, whatever table stands behind them
    (src/dhcpserver.c). */
module DhcpMessages {
  import opened Prelude
  import opened DhcpLeases
  import opened DhcpOptions
  import opened DhcpServer

  const DAY_MS: nat := 86_400_000

  // ---------------------------------------------------------------- what an answer says

  /** The value of four bytes, highest first. */
  function Value32(b: seq<byte>): int
    requires |b| == 4
  {
    var w0: int, w1: int := b[0], b[1];
    var w2: int, w3: int := b[2], b[3];
    w0 * 0x100_0000 + w1 * 0x1_0000 + w2 * 0x100 + w3
  }

  lemma BigEndianValue(val: Millis)
    ensures |BigEndian(val)| == 4 && Value32(BigEndian(val)) == val
  {
    var v: int := val;
    QuotientTwice(v);
    QuotientTwice(v / 0x100);
    assert v == v / 0x100 * 0x100 + v % 0x100;
    assert v / 0x100 == v / 0x1_0000 * 0x100 + v / 0x100 % 0x100;
    assert v / 0x1_0000 == v / 0x100_0000 * 0x100 + v / 0x1_0000 % 0x100;
  }

  lemma QuotientTwice(v: int)
    requires v >= 0
    ensures v / 0x100 / 0x100 == v / 0x1_0000
  {
  }

  /** The options of an answer: message type, server id, mask, router, name server, a lease time of 24
      hours, and the end mark. */
  predicate SaysOptions(options: seq<byte>, kind: byte, ip: Ip4, nm: Ip4) {
    && |options| == 34
    && options[0..3] == [53, 1, kind]
    && options[3..9] == [54, 4] + ip
    && options[9..15] == [1, 4] + nm
    && options[15..21] == [3, 4] + ip
    && options[21..27] == [6, 4] + ip
    && options[27..29] == [51, 4] && Value32(options[29..33]) * 1000 == DAY_MS
    && options[33] == 255
  }

  lemma ReplySaysOptions(kind: byte, ip: Ip4, nm: Ip4)
    ensures SaysOptions(Encode(ReplyOptions(kind, ip, nm)) + [OPT_END], kind, ip, nm)
  {
    EncodeReply(kind, ip, nm);
    BigEndianValue(LEASE_TIME_S);
    var time := BigEndian(LEASE_TIME_S);
    var o := [53, 1, kind] + ([54, 4] + ip) + ([1, 4] + nm) + ([3, 4] + ip) + ([6, 4] + ip) + ([51, 4] + time) + [255];
    assert Encode(ReplyOptions(kind, ip, nm)) + [OPT_END] == o;
    assert o[29..33] == time;
  }

  /** An answer of this kind that gives the client the address with this last byte. */
  predicate IsAnswer(reply: Option<Reply>, kind: byte, ip: Ip4, nm: Ip4, host: byte) {
    && reply.Some? && reply.value.yiaddr == ip[..3] + [host]
    && SaysOptions(reply.value.options, kind, ip, nm)
  }

  lemma AnswerNamesSlot(e: Event, slot: nat, ip: Ip4, nm: Ip4)
    requires slot < 8
    ensures IsAnswer(Some(ReplyFor(e, slot, ip, nm)), if e.Discover? then 2 else 5, ip, nm, 16 + slot)
  {
    ReplySaysOptions(if e.Discover? then 2 else 5, ip, nm);
    assert ip[3 := BASE_IP + slot] == ip[..3] + [BASE_IP + slot];
  }

  // ---------------------------------------------------------------- which messages are answered, and how

  /** At least 243 bytes, with this message type. */
  predicate IsKind(m: Message, kind: byte)
    requires Complete(m)
  {
    var t := Find(m.opt, 53);
    m.totLen >= 243 && t.Some? && m.opt[t.value + 2] == kind
  }

  /** Anything but a DISCOVER or a REQUEST is ignored. */
  lemma OthersAreIgnored(leases: seq<Lease>, m: Message, ip: Ip4, nm: Ip4)
    requires |leases| == 8 && Complete(m) && !IsKind(m, 1) && !IsKind(m, 3)
    ensures Handle(leases, m, ip, nm) == (leases, None)
  {
  }

  predicate IsFree(l: Lease, time: nat) {
    l.mac == [0, 0, 0, 0, 0, 0] || Expired(l.expiry, time)
  }

  ghost predicate HasSlot(leases: seq<Lease>, mac: Mac) {
    exists k :: 0 <= k < |leases| && leases[k].mac == mac
  }

  /** The slot a DISCOVER is offered: the client's own, else the first that is free or expired. */
  ghost predicate IsOffered(leases: seq<Lease>, m: Message, slot: nat)
    requires |leases| == 8 && Complete(m)
  {
    slot < 8 &&
    if HasSlot(leases, m.mac) then leases[slot].mac == m.mac && forall j :: 0 <= j < slot ==> leases[j].mac != m.mac
    else IsFree(leases[slot], m.readings[slot]) && forall j :: 0 <= j < slot ==> !IsFree(leases[j], m.readings[j])
  }

  /** A DISCOVER is answered with an OFFER of that slot's address. The slot is then the client's own or
      free. */
  lemma DiscoverIsOffered(leases: seq<Lease>, m: Message, ip: Ip4, nm: Ip4, slot: nat)
    requires |leases| == 8 && Complete(m) && IsKind(m, 1) && IsOffered(leases, m, slot)
    ensures var (after, reply) := Handle(leases, m, ip, nm);
      && IsAnswer(reply, 2, ip, nm, 16 + slot)
      && (after[slot].mac == m.mac || after[slot].mac == [0, 0, 0, 0, 0, 0])
  {
    var e := Event.Discover(m.mac, m.readings);
    assert Interpret(m.totLen, m.mac, m.opt, ip, m.readings) == Some(e);
    OfferedSlot(leases, m, slot);
    AnswerNamesSlot(e, slot, ip, nm);
  }

  /** Without such a slot it is ignored. */
  lemma DiscoverIsIgnored(leases: seq<Lease>, m: Message, ip: Ip4, nm: Ip4)
    requires |leases| == 8 && Complete(m) && IsKind(m, 1)
    requires forall slot: nat :: slot < 8 ==> !IsOffered(leases, m, slot)
    ensures Handle(leases, m, ip, nm) == (leases, None)
  {
    var mine, free := FindMac(leases, m.mac), FindAvailable(leases, m.readings);
    assert mine < 8 ==> IsOffered(leases, m, mine);
    assert free < 8 ==> mine < 8 || IsOffered(leases, m, free);
  }

  lemma OfferedSlot(leases: seq<Lease>, m: Message, slot: nat)
    requires |leases| == 8 && Complete(m) && IsOffered(leases, m, slot)
    ensures Offer(leases, m.mac, m.readings) == Some(slot)
    ensures var after := AfterDiscover(leases, m.mac, m.readings)[slot]; after.mac == m.mac || after.mac == ZERO_MAC
  {
    var mine, free := FindMac(leases, m.mac), FindAvailable(leases, m.readings);
    if HasSlot(leases, m.mac) {
      assert mine == slot;
    } else {
      assert mine == 8 && free == slot;
    }
  }

  /** The last byte of the address a REQUEST asks for, if it is one of this server's eight. */
  function AskedHost(m: Message, ip: Ip4): Option<byte>
    requires Complete(m)
  {
    var o := Find(m.opt, 50);
    if o.Some? && m.opt[o.value + 2..o.value + 5] == ip[..3] && 16 <= m.opt[o.value + 5] < 24
    then Some(m.opt[o.value + 5]) else None
  }

  /** A REQUEST is acknowledged, with the very address it asks for, exactly when this is one of the
      server's and its slot is the client's own or free. The slot is then the client's for 24 hours,
      and no other slot changes. */
  lemma RequestIsAcked(leases: seq<Lease>, m: Message, ip: Ip4, nm: Ip4)
    requires |leases| == 8 && Complete(m) && IsKind(m, 3)
    ensures var (after, reply) := Handle(leases, m, ip, nm);
      var host := AskedHost(m, ip);
      if host.Some? && (leases[host.value - 16].mac == m.mac || leases[host.value - 16].mac == [0, 0, 0, 0, 0, 0])
      then
        var slot, o := host.value - 16, Find(m.opt, 50).value;
        && IsAnswer(reply, 5, ip, nm, host.value) && reply.value.yiaddr == m.opt[o + 2..o + 6]
        && after == leases[slot := after[slot]] && after[slot].mac == m.mac
        && (forall t: nat :: m.readings[0] <= t <= m.readings[0] + DAY_MS ==> !Expired(after[slot].expiry, t))
      else reply == None && after == leases
  {
    var host := AskedHost(m, ip);
    if host.Some? {
      var e := Event.Request(m.mac, host.value - 16, m.readings[0]);
      assert Interpret(m.totLen, m.mac, m.opt, ip, m.readings) == Some(e);
      AnswerNamesSlot(e, host.value - 16, ip, nm);
      AskedAddress(m, ip);
      StaysForADay(m.readings[0]);
    }
  }

  lemma AskedAddress(m: Message, ip: Ip4)
    requires Complete(m) && AskedHost(m, ip).Some?
    ensures var o := Find(m.opt, 50).value; m.opt[o + 2..o + 6] == ip[..3] + [AskedHost(m, ip).value]
  {
    var o := Find(m.opt, 50).value;
    assert m.opt[o + 2..o + 6] == m.opt[o + 2..o + 5] + [m.opt[o + 5]];
  }

  lemma StaysForADay(granted: nat)
    ensures forall t: nat :: granted <= t <= granted + DAY_MS ==> !Expired(ExpiryAt(granted), t)
  {
    forall t: nat | granted <= t <= granted + DAY_MS
      ensures !Expired(ExpiryAt(granted), t)
    {
      ExpiryIsExact(granted, t);
    }
  }

  // ---------------------------------------------------------------- offer and request

  /** What is offered to a client and asked for by it, with nothing in between, is acknowledged as the
      same address. */
  lemma OfferedIsGranted(leases: seq<Lease>, discover: Message, request: Message, ip: Ip4, nm: Ip4)
    requires |leases| == 8 && Complete(discover) && Complete(request)
    requires IsKind(discover, 1) && IsKind(request, 3) && request.mac == discover.mac
    requires var offer := Handle(leases, discover, ip, nm).1;
      offer.Some? && Find(request.opt, 50).Some?
      && var o := Find(request.opt, 50).value; request.opt[o + 2..o + 6] == offer.value.yiaddr
    ensures var (after, offer) := Handle(leases, discover, ip, nm);
      var ack := Handle(after, request, ip, nm).1;
      ack.Some? && ack.value.yiaddr == offer.value.yiaddr && IsAck(ack)
  {
    var slot := OfferHasSlot(leases, discover, ip, nm);
    DiscoverIsOffered(leases, discover, ip, nm, slot);
    AskedBack(request, ip, 16 + slot);
    RequestIsAcked(Handle(leases, discover, ip, nm).0, request, ip, nm);
  }

  lemma OfferHasSlot(leases: seq<Lease>, m: Message, ip: Ip4, nm: Ip4) returns (slot: nat)
    requires |leases| == 8 && Complete(m) && IsKind(m, 1) && Handle(leases, m, ip, nm).1.Some?
    ensures slot < 8 && IsOffered(leases, m, slot)
  {
    if forall k: nat :: k < 8 ==> !IsOffered(leases, m, k) {
      DiscoverIsIgnored(leases, m, ip, nm);
    }
    slot :| slot < 8 && IsOffered(leases, m, slot);
  }

  lemma AskedBack(m: Message, ip: Ip4, host: byte)
    requires Complete(m) && 16 <= host < 24 && Find(m.opt, 50).Some?
    requires var o := Find(m.opt, 50).value; m.opt[o + 2..o + 6] == ip[..3] + [host]
    ensures AskedHost(m, ip) == Some(host)
  {
    var o := Find(m.opt, 50).value;
    var asked := m.opt[o + 2..o + 6];
    assert m.opt[o + 2..o + 5] == asked[..3] == ip[..3] && m.opt[o + 5] == asked[3] == host;
  }

  /** The answer's message type is 5. */
  predicate IsAck(reply: Option<Reply>) {
    reply.Some? && |reply.value.options| >= 3 && reply.value.options[0..3] == [53, 1, 5]
  }

  // ---------------------------------------------------------------- whole conversations

  ghost predicate AllComplete(ms: seq<Message>) {
    forall k :: 0 <= k < |ms| ==> Complete(ms[k])
  }

  /** The table after all messages. */
  function After(leases: seq<Lease>, ms: seq<Message>, ip: Ip4, nm: Ip4): (r: seq<Lease>)
    requires |leases| == 8 && AllComplete(ms)
    ensures |r| == 8
  {
    if ms == [] then leases
    else Handle(After(leases, ms[..|ms| - 1], ip, nm), ms[|ms| - 1], ip, nm).0
  }

  /** The clock never runs backwards from one message to the next. */
  ghost predicate Forwards(ms: seq<Message>) {
    forall i, j :: 0 <= i < j < |ms| ==> Earlier(ms[i], ms[j])
  }

  ghost predicate Earlier(a: Message, b: Message) {
    forall x, y :: 0 <= x < |a.readings| && 0 <= y < |b.readings| ==> a.readings[x] <= b.readings[y]
  }

  function EventOf(m: Message, ip: Ip4): (e: Option<Event>)
    requires Complete(m)
    ensures e.Some? ==> WellFormed(e.value)
  {
    Interpret(m.totLen, m.mac, m.opt, ip, m.readings)
  }

  /** The lease steps the messages lead to. */
  function Events(ms: seq<Message>, ip: Ip4): seq<Event>
    requires AllComplete(ms)
  {
    if ms == [] then []
    else
      var e := EventOf(ms[|ms| - 1], ip);
      Events(ms[..|ms| - 1], ip) + if e.Some? then [e.value] else []
  }

  ghost predicate ComesFrom(e: Event, ms: seq<Message>, ip: Ip4)
    requires AllComplete(ms)
  {
    exists k :: 0 <= k < |ms| && EventOf(ms[k], ip) == Some(e)
  }

  lemma {:induction false} EventsComeFrom(ms: seq<Message>, ip: Ip4)
    requires AllComplete(ms)
    ensures forall k :: 0 <= k < |Events(ms, ip)| ==>
      WellFormed(Events(ms, ip)[k]) && ComesFrom(Events(ms, ip)[k], ms, ip)
  {
    if ms != [] {
      var n := |ms| - 1;
      EventsComeFrom(ms[..n], ip);
      forall k | 0 <= k < |Events(ms, ip)|
        ensures WellFormed(Events(ms, ip)[k]) && ComesFrom(Events(ms, ip)[k], ms, ip)
      {
        if k < |Events(ms[..n], ip)| {
          var j :| 0 <= j < n && EventOf(ms[..n][j], ip) == Some(Events(ms, ip)[k]);
          assert ms[..n][j] == ms[j];
        } else {
          assert EventOf(ms[n], ip) == Some(Events(ms, ip)[k]);
        }
      }
    }
  }

  lemma {:induction false} AfterIsRun(leases: seq<Lease>, ms: seq<Message>, ip: Ip4, nm: Ip4)
    requires |leases| == 8 && AllComplete(ms)
    ensures forall k :: 0 <= k < |Events(ms, ip)| ==> WellFormed(Events(ms, ip)[k])
    ensures After(leases, ms, ip, nm) == Run(leases, Events(ms, ip))
  {
    EventsComeFrom(ms, ip);
    if ms != [] {
      var n := |ms| - 1;
      var e := EventOf(ms[n], ip);
      AfterIsRun(leases, ms[..n], ip, nm);
      if e.Some? {
        assert Events(ms, ip)[..|Events(ms, ip)| - 1] == Events(ms[..n], ip);
      } else {
        assert Events(ms, ip) == Events(ms[..n], ip);
      }
    }
  }

  lemma EarlierEvents(a: Message, b: Message, ip: Ip4)
    requires Complete(a) && Complete(b) && Earlier(a, b) && EventOf(a, ip).Some? && EventOf(b, ip).Some?
    ensures NotBefore(EventOf(a, ip).value, EventOf(b, ip).value)
  {
  }

  lemma {:induction false} EventsAreOrdered(ms: seq<Message>, ip: Ip4)
    requires AllComplete(ms) && Forwards(ms)
    ensures Ordered(Events(ms, ip))
  {
    if ms != [] {
      var n := |ms| - 1;
      var before, all, e := Events(ms[..n], ip), Events(ms, ip), EventOf(ms[n], ip);
      EventsAreOrdered(ms[..n], ip);
      EventsComeFrom(ms[..n], ip);
      forall i, j | 0 <= i < j < |all|
        ensures NotBefore(all[i], all[j])
      {
        assert all[i] == before[i];
        if j < |before| {
          assert all[j] == before[j];
        } else {
          var k :| 0 <= k < n && EventOf(ms[..n][k], ip) == Some(all[i]);
          assert ms[..n][k] == ms[k] && Earlier(ms[k], ms[n]);
          EarlierEvents(ms[k], ms[n], ip);
        }
      }
    }
  }

  lemma {:induction false} EventsConcat(a: seq<Message>, b: seq<Message>, ip: Ip4)
    requires AllComplete(a) && AllComplete(b)
    ensures AllComplete(a + b) && Events(a + b, ip) == Events(a, ip) + Events(b, ip)
    decreases |b|
  {
    if b == [] {
      assert a + b == a;
    } else {
      var n := |b| - 1;
      EventsConcat(a, b[..n], ip);
      assert (a + b)[..|a + b| - 1] == a + b[..n] && (a + b)[|a + b| - 1] == b[n];
      var e := EventOf(b[n], ip);
      ConcatAssociative(Events(a, ip), Events(b[..n], ip), if e.Some? then [e.value] else []);
    }
  }

  lemma ThreeParts(first: Message, between: seq<Message>, last: Message, ip: Ip4)
    requires Complete(first) && AllComplete(between) && Complete(last) && Forwards([first] + between + [last])
    requires EventOf(first, ip).Some? && EventOf(last, ip).Some?
    ensures Ordered([EventOf(first, ip).value] + Events(between, ip) + [EventOf(last, ip).value])
  {
    EventsConcat([first], between, ip);
    EventsConcat([first] + between, [last], ip);
    EventsAreOrdered([first] + between + [last], ip);
    assert [first][..0] == [] && [last][..0] == [];
    assert Events([first], ip) == [EventOf(first, ip).value] && Events([last], ip) == [EventOf(last, ip).value];
  }

  /** No address twice. On any table, and for any messages on a clock that never runs backwards: once a
      client with a non-zero MAC was acknowledged an address, nobody else is acknowledged or offered
      that address within the next 24 hours. */
  lemma NoAddressTwice(leases: seq<Lease>, first: Message, between: seq<Message>, last: Message, ip: Ip4, nm: Ip4)
    requires |leases| == 8 && Complete(first) && AllComplete(between) && Complete(last)
    requires Forwards([first] + between + [last]) && first.mac != [0, 0, 0, 0, 0, 0]
    requires forall x :: 0 <= x < 8 ==> last.readings[x] <= first.readings[0] + DAY_MS
    requires var (granted, ack) := Handle(leases, first, ip, nm);
      var reply := Handle(After(granted, between, ip, nm), last, ip, nm).1;
      IsAck(ack) && reply.Some? && reply.value.yiaddr == ack.value.yiaddr
    ensures last.mac == first.mac
  {
    var (granted, ack) := Handle(leases, first, ip, nm);
    var e, f := EventOf(first, ip).value, EventOf(last, ip).value;
    var table := After(granted, between, ip, nm);
    AckIsRequest(leases, first, ip, nm);
    AnswerHasSlot(leases, first, ip, nm);
    AnswerHasSlot(table, last, ip, nm);
    AfterIsRun(granted, between, ip, nm);
    ThreeParts(first, between, last, ip);
    NoDoubleAllocation(leases, first.mac, e.slot, e.time, Events(between, ip), f);
  }

  lemma AckIsRequest(leases: seq<Lease>, m: Message, ip: Ip4, nm: Ip4)
    requires |leases| == 8 && Complete(m) && IsAck(Handle(leases, m, ip, nm).1)
    ensures EventOf(m, ip).Some? && EventOf(m, ip).value.Request? && EventOf(m, ip).value.mac == m.mac
    ensures EventOf(m, ip).value.time == m.readings[0]
  {
    var e := EventOf(m, ip);
    assert e.Some?;
    if e.value.Discover? {
      AnswerNamesSlot(e.value, Answer(leases, e.value).value, ip, nm);
    }
  }

  /** The address of an answer tells its slot. */
  lemma AnswerHasSlot(leases: seq<Lease>, m: Message, ip: Ip4, nm: Ip4)
    requires |leases| == 8 && Complete(m) && Handle(leases, m, ip, nm).1.Some?
    ensures var e, yiaddr := EventOf(m, ip), Handle(leases, m, ip, nm).1.value.yiaddr;
      e.Some? && 16 <= yiaddr[3] < 24 && Answer(leases, e.value) == Some(yiaddr[3] - 16)
  {
  }
}

/** Processing one DHCP message (src/dhcpserver.c): options in, lease step, options out. */
module DhcpServer {
  import opened Prelude
  import opened DhcpLeases
  import opened DhcpOptions

  const MIN_SIZE: nat := 240 + 3
  const BASE_IP: byte := 16
  const LEASE_TIME_S: Millis := 24 * 60 * 60

  const DISCOVER: byte := 1
  const OFFER: byte := 2
  const REQUEST: byte := 3
  const ACK: byte := 5

  const OPT_SUBNET_MASK: byte := 1
  const OPT_ROUTER: byte := 3
  const OPT_DNS: byte := 6
  const OPT_REQUESTED_IP: byte := 50
  const OPT_IP_LEASE_TIME: byte := 51
  const OPT_MSG_TYPE: byte := 53
  const OPT_SERVER_ID: byte := 54

  type Ip4 = a: seq<byte> | |a| == 4 witness [0, 0, 0, 0]

  /** The client's address and the option bytes of an answer, end mark included. */
  datatype Reply = Reply(yiaddr: Ip4, options: seq<byte>)

  /** The lease step a message asks for, if it is one the server acts on. `opt` is the memory from
      the options on, including what follows the message in it. */
  function Interpret(totLen: nat, mac: Mac, opt: seq<byte>, ip: Ip4, readings: seq<nat>): (r: Option<Event>)
    requires OPTIONS_SIZE + 6 <= |opt| && |readings| == MAX_IP
    ensures r.Some? ==> WellFormed(r.value) && r.value.mac == mac
    ensures r.Some? && r.value.Discover? ==> r.value.readings == readings
  {
    var t := Find(opt, OPT_MSG_TYPE);
    if totLen < MIN_SIZE || t == None then None
    else if opt[t.value + 2] == DISCOVER then Some(Event.Discover(mac, readings))
    else if opt[t.value + 2] != REQUEST then None
    else
      var o := Find(opt, OPT_REQUESTED_IP);
      if o == None || opt[o.value + 2..o.value + 5] != ip[..3] then None
      else
        var slot := SlotOf(opt[o.value + 5]);
        if slot >= MAX_IP then None else Some(Event.Request(mac, slot, readings[0]))
  }

  /** `uint8_t yi = o[5] - DHCPS_BASE_IP` */
  function SlotOf(host: byte): byte {
    var h: int := host;
    (h - BASE_IP) % 256
  }

  /** The options of every answer. */
  function ReplyOptions(kind: byte, ip: Ip4, nm: Ip4): (r: seq<Opt>)
    ensures forall k :: 0 <= k < |r| ==> Encodable(r[k])
  {
    [Opt(OPT_MSG_TYPE, [kind]), Opt(OPT_SERVER_ID, ip), Opt(OPT_SUBNET_MASK, nm), Opt(OPT_ROUTER, ip),
     Opt(OPT_DNS, ip), Opt(OPT_IP_LEASE_TIME, BigEndian(LEASE_TIME_S))]
  }

  function ReplyFor(e: Event, slot: nat, ip: Ip4, nm: Ip4): Reply
    requires slot < MAX_IP
  {
    Reply(ip[3 := BASE_IP + slot],
          Encode(ReplyOptions(if e.Discover? then OFFER else ACK, ip, nm)) + [OPT_END])
  }

  /** A message as it comes in, with the clock readings taken while it is handled. */
  datatype Message = Message(totLen: nat, mac: Mac, opt: seq<byte>, readings: seq<nat>)

  predicate Complete(m: Message) {
    OPTIONS_SIZE + 6 <= |m.opt| && |m.readings| == MAX_IP
  }

  /** The table after a message, and the answer to it. */
  function Handle(leases: seq<Lease>, m: Message, ip: Ip4, nm: Ip4): (r: (seq<Lease>, Option<Reply>))
    requires |leases| == MAX_IP && Complete(m)
    ensures |r.0| == MAX_IP
  {
    var e := Interpret(m.totLen, m.mac, m.opt, ip, m.readings);
    if e == None then (leases, None)
    else (Next(leases, e.value),
          match Answer(leases, e.value)
          case None => None
          case Some(slot) => Some(ReplyFor(e.value, slot, ip, nm)))
  }

  class Server {
    const lease: array<Lease>
    const ip: Ip4
    const nm: Ip4

    ghost predicate Valid() {
      lease.Length == MAX_IP
    }

    constructor (ip: Ip4, nm: Ip4)
      ensures Valid() && fresh(lease) && this.ip == ip && this.nm == nm
      ensures lease[..] == seq(MAX_IP, _ => FREE)
    {
      this.ip, this.nm := ip, nm;
      lease := new Lease[MAX_IP](_ => FREE);
    }

    /** The DISCOVER branch: one pass over the slots that stops at the client's own one. */
    method Discover(mac: Mac, readings: seq<nat>) returns (yi: nat)
      requires Valid() && |readings| == MAX_IP
      modifies lease
      ensures lease[..] == Next(old(lease[..]), Event.Discover(mac, readings))
      ensures Answer(old(lease[..]), Event.Discover(mac, readings)) == if yi < MAX_IP then Some(yi) else None
    {
      ghost var was := lease[..];
      yi := MAX_IP;
      for i := 0 to MAX_IP
        invariant Searching(was, lease[..], mac, readings, i, yi)
      {
        assert lease[i] == lease[..][i];
        if lease[i].mac == mac {
          FirstMatch(was, mac, readings, i, yi);
          yi := i;
          return;
        }
        if yi == MAX_IP {
          if lease[i].mac == ZERO_MAC {
            yi := i;
          }
          if Expired(lease[i].expiry, readings[i]) {
            lease[i] := Clear(lease[i]);
            yi := i;
          }
        }
      }
      NoMatch(was, mac, readings, yi);
    }

    /** The search before slot `i`: nobody's own slot so far, and `yi` is the first available one, which
        is freed if it had expired. */
    static ghost predicate Searching(was: seq<Lease>, now: seq<Lease>, mac: Mac, readings: seq<nat>, i: nat, yi: nat)
      requires |was| == |readings| == MAX_IP
    {
      && i <= MAX_IP && yi <= MAX_IP && (forall j :: 0 <= j < i ==> was[j].mac != mac)
      && (yi < MAX_IP ==> yi < i && Available(was[yi], readings[yi]))
      && (forall j :: 0 <= j < yi && j < i ==> !Available(was[j], readings[j]))
      && now == if yi < MAX_IP && Expired(was[yi].expiry, readings[yi]) then was[yi := Clear(was[yi])] else was
    }

    static lemma NoMatch(was: seq<Lease>, mac: Mac, readings: seq<nat>, yi: nat)
      requires |was| == |readings| == MAX_IP && yi <= MAX_IP
      requires forall j :: 0 <= j < MAX_IP ==> was[j].mac != mac
      requires yi < MAX_IP ==> Available(was[yi], readings[yi])
      requires forall j :: 0 <= j < yi ==> !Available(was[j], readings[j])
      ensures FindMac(was, mac) == MAX_IP && FindAvailable(was, readings) == yi
    {
    }

    static lemma FirstMatch(was: seq<Lease>, mac: Mac, readings: seq<nat>, i: nat, yi: nat)
      requires |was| == |readings| == MAX_IP && i < MAX_IP && was[i].mac == mac
      requires forall j :: 0 <= j < i ==> was[j].mac != mac
      requires yi == MAX_IP || (yi < i && Available(was[yi], readings[yi]))
      requires forall j :: 0 <= j < i && j < yi ==> !Available(was[j], readings[j])
      ensures FindMac(was, mac) == i
      ensures if yi < MAX_IP then FindAvailable(was, readings) == yi else FindAvailable(was, readings) >= i
    {
    }

    /** The REQUEST branch behind the option checks. */
    method Request(mac: Mac, slot: nat, time: nat) returns (granted: bool)
      requires Valid() && slot < MAX_IP
      modifies lease
      ensures lease[..] == Next(old(lease[..]), Event.Request(mac, slot, time))
      ensures granted <==> Answer(old(lease[..]), Event.Request(mac, slot, time)) == Some(slot)
    {
      if lease[slot].mac == mac {
      } else if lease[slot].mac == ZERO_MAC {
        lease[slot] := lease[slot].(mac := mac);
      } else {
        return false;
      }
      lease[slot] := lease[slot].(expiry := ExpiryAt(time));
      return true;
    }

    /** `dhcp_server_process`. The message buffer's option area is overwritten with the answer. */
    method Process(totLen: nat, mac: Mac, opt: array<byte>, readings: seq<nat>) returns (reply: Option<Reply>)
      requires Valid() && OPTIONS_SIZE + 6 <= opt.Length && |readings| == MAX_IP
      modifies lease, opt
      ensures (lease[..], reply) == Handle(old(lease[..]), Message(totLen, mac, old(opt[..]), readings), ip, nm)
    {
      reply := None;
      var message := ReadMessage(totLen, mac, opt, readings);
      match message {
        case None =>
        case Some(Discover(_, _)) =>
          var yi := Discover(mac, readings);
          if yi < MAX_IP {
            var options := WriteReply(opt, OFFER);
            reply := Some(Reply(ip[3 := BASE_IP + yi], options));
          }
        case Some(Request(_, yi, time)) =>
          var granted := Request(mac, yi, time);
          if granted {
            var options := WriteReply(opt, ACK);
            reply := Some(Reply(ip[3 := BASE_IP + yi], options));
          }
      }
    }

    /** The checks on the message that come before the lease table is touched. */
    method ReadMessage(totLen: nat, mac: Mac, opt: array<byte>, readings: seq<nat>) returns (e: Option<Event>)
      requires OPTIONS_SIZE + 6 <= opt.Length && |readings| == MAX_IP
      ensures e == Interpret(totLen, mac, opt[..], ip, readings)
    {
      if totLen < MIN_SIZE {
        return None;
      }
      var t := OptFind(opt, OPT_MSG_TYPE);
      if t == None {
        return None;
      }
      if opt[t.value + 2] == DISCOVER {
        return Some(Event.Discover(mac, readings));
      }
      if opt[t.value + 2] != REQUEST {
        return None;
      }
      var o := OptFind(opt, OPT_REQUESTED_IP);
      if o == None {
        return None;
      }
      assert opt[o.value + 2..o.value + 5] == opt[..][o.value + 2..o.value + 5];
      if opt[o.value + 2..o.value + 5] != ip[..3] {
        return None;
      }
      var yi := SlotOf(opt[o.value + 5]);
      if yi >= MAX_IP {
        return None;
      }
      return Some(Event.Request(mac, yi, readings[0]));
    }

    /** The option bytes of an answer, written from the start of the option area. */
    method WriteReply(opt: array<byte>, kind: byte) returns (options: seq<byte>)
      requires OPTIONS_SIZE < opt.Length
      modifies opt
      ensures options == Encode(ReplyOptions(kind, ip, nm)) + [OPT_END]
    {
      var end := OptWriteU8(opt, 0, OPT_MSG_TYPE, kind);
      end := WriteAddresses(opt, end);
      end := OptWriteU32(opt, end, OPT_IP_LEASE_TIME, LEASE_TIME_S);
      EncodeReply(kind, ip, nm);
      assert opt[..end] == Encode(ReplyOptions(kind, ip, nm));
      ghost var written := opt[..end];
      opt[end] := OPT_END;
      options := opt[..end + 1];
      assert opt[..end] == written;
    }

    method WriteAddresses(opt: array<byte>, pos: nat) returns (end: nat)
      requires pos + 24 <= opt.Length
      modifies opt
      ensures end == pos + 24
      ensures opt[..end] == old(opt[..pos]) + EncodeOne(Opt(OPT_SERVER_ID, ip)) + EncodeOne(Opt(OPT_SUBNET_MASK, nm))
                            + EncodeOne(Opt(OPT_ROUTER, ip)) + EncodeOne(Opt(OPT_DNS, ip))
    {
      end := OptWriteN(opt, pos, Opt(OPT_SERVER_ID, ip));
      end := OptWriteN(opt, end, Opt(OPT_SUBNET_MASK, nm));
      end := OptWriteN(opt, end, Opt(OPT_ROUTER, ip));
      end := OptWriteN(opt, end, Opt(OPT_DNS, ip));
    }
  }

  /** The encoded reply, option by option. */
  lemma EncodeReply(kind: byte, ip: Ip4, nm: Ip4)
    ensures Encode(ReplyOptions(kind, ip, nm))
         == EncodeOne(Opt(OPT_MSG_TYPE, [kind])) + EncodeOne(Opt(OPT_SERVER_ID, ip))
            + EncodeOne(Opt(OPT_SUBNET_MASK, nm)) + EncodeOne(Opt(OPT_ROUTER, ip))
            + EncodeOne(Opt(OPT_DNS, ip)) + EncodeOne(Opt(OPT_IP_LEASE_TIME, BigEndian(LEASE_TIME_S)))
  {
    var r := ReplyOptions(kind, ip, nm);
    EncodeSnoc(r[..0], r[0]);
    EncodeSnoc(r[..1], r[1]);
    EncodeSnoc(r[..2], r[2]);
    EncodeSnoc(r[..3], r[3]);
    EncodeSnoc(r[..4], r[4]);
    EncodeSnoc(r[..5], r[5]);
    assert r[..0] + [r[0]] == r[..1] && r[..1] + [r[1]] == r[..2] && r[..2] + [r[2]] == r[..3];
    assert r[..3] + [r[3]] == r[..4] && r[..4] + [r[4]] == r[..5] && r[..5] + [r[5]] == r;
  }

  lemma {:induction false} EncodeSnoc(options: seq<Opt>, o: Opt)
    requires Encodable(o) && forall k :: 0 <= k < |options| ==> Encodable(options[k])
    ensures Encode(options + [o]) == Encode(options) + EncodeOne(o)
  {
    if options == [] {
      assert [o][1..] == [];
    } else {
      EncodeSnoc(options[1..], o);
      assert (options + [o])[1..] == options[1..] + [o];
    }
  }

  /** Every answer's options read back, with the search the server itself uses, exactly what was
      put in: each of the six options once, and nothing else. */
  lemma ReplyReadsBack(kind: byte, ip: Ip4, nm: Ip4, behind: seq<byte>, cmd: byte)
    requires cmd != OPT_END
    requires var area := Encode(ReplyOptions(kind, ip, nm)) + [OPT_END] + behind; OPTIONS_SIZE < |area|
    ensures var area := Encode(ReplyOptions(kind, ip, nm)) + [OPT_END] + behind;
      var want := Lookup(ReplyOptions(kind, ip, nm), cmd);
      && (Find(area, cmd) == None <==> want == None)
      && (want.Some? ==>
            var k := Find(area, cmd).value + 2;
            k + |want.value| <= |area| && area[k..k + |want.value|] == want.value)
      && (want.Some? <==> cmd in {53, 54, 1, 3, 6, 51})
  {
    var options := ReplyOptions(kind, ip, nm);
    var area := Encode(options) + [OPT_END] + behind;
    EncodeReply(kind, ip, nm);
    assert area[0..|Encode(options)|] == Encode(options);
    FindIsLookup(area, 0, options, cmd);
    LookupInReply(kind, ip, nm, cmd);
  }

  lemma LookupInReply(kind: byte, ip: Ip4, nm: Ip4, cmd: byte)
    ensures Lookup(ReplyOptions(kind, ip, nm), cmd).Some? <==> cmd in {53, 54, 1, 3, 6, 51}
  {
    var r := ReplyOptions(kind, ip, nm);
    assert r[1..][1..] == r[2..] && r[2..][1..] == r[3..] && r[3..][1..] == r[4..];
    assert r[4..][1..] == r[5..] && r[5..][1..] == [];
    assert Lookup(r[5..], cmd).Some? <==> cmd == 51;
    assert Lookup(r[4..], cmd).Some? <==> cmd in {6, 51};
    assert Lookup(r[3..], cmd).Some? <==> cmd in {3, 6, 51};
    assert Lookup(r[2..], cmd).Some? <==> cmd in {1, 3, 6, 51};
    assert Lookup(r[1..], cmd).Some? <==> cmd in {54, 1, 3, 6, 51};
  }
}

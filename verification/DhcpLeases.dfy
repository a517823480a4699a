/** The lease table of the DHCP server (src/dhcpserver.c): eight slots whose expiry is kept in 16
    bits, read against a millisecond clock that wraps at 2^32. Times are true milliseconds; the
    code sees them modulo 2^32. */
module DhcpLeases {
  import opened Prelude

  const MAX_IP: nat := 8
  const LEASE_MS: nat := 24 * 60 * 60 * 1000

  type Mac = m: seq<byte> | |m| == 6 witness [0, 0, 0, 0, 0, 0]
  const ZERO_MAC: Mac := [0, 0, 0, 0, 0, 0]

  type Expiry16 = x: int | 0 <= x < 0x1_0000

  datatype Lease = Lease(mac: Mac, expiry: Expiry16)

  const FREE := Lease(ZERO_MAC, 0)

  function Ticks(time: nat): Millis {
    time % 0x1_0000_0000
  }

  /** The upper half of the wrapped end of a lease granted at `time`. */
  function ExpiryAt(time: nat): Expiry16 {
    (Ticks(time) + LEASE_MS) % 0x1_0000_0000 / 0x1_0000
  }

  /** `(int32_t)(expiry - now) < 0`, with the missing lower half taken as all ones. */
  predicate Expired(expiry: Expiry16, time: nat) {
    (expiry * 0x1_0000 + 0xFFFF - Ticks(time)) % 0x1_0000_0000 >= 0x8000_0000
  }

  /** The true time up to which a lease granted at `time` counts as running. */
  function Deadline(time: nat): nat {
    (time + LEASE_MS) / 0x1_0000 * 0x1_0000 + 0xFFFF
  }

  /** At any time, the comparison sees the time left until the deadline modulo 2^32, as a signed
      number: from the deadline on a lease counts as expired and as running by turns, 2^31 ms each. */
  lemma ExpiryByTurns(granted: nat, time: nat)
    ensures Expired(ExpiryAt(granted), time) <==> (Deadline(granted) - time) % 0x1_0000_0000 >= 0x8000_0000
  {
    ExpiryIsUpperHalf(granted);
    WrappedDifference((granted + LEASE_MS) / 0x1_0000, time);
  }

  /** The compressed expiry is never early and at most 65535 ms late. The comparison is right until
      2^31 ms after the deadline. */
  lemma ExpiryIsExact(granted: nat, time: nat)
    requires granted <= time <= Deadline(granted) + 0x8000_0000
    ensures Expired(ExpiryAt(granted), time) <==> time > Deadline(granted)
    ensures granted + LEASE_MS <= Deadline(granted) <= granted + LEASE_MS + 0xFFFF
  {
    ExpiryByTurns(granted, time);
  }

  /** The wrapped comparison sees the true difference, modulo 2^32. */
  lemma WrappedDifference(e: nat, time: nat)
    ensures (e % 0x1_0000 * 0x1_0000 + 0xFFFF - Ticks(time)) % 0x1_0000_0000
         == (e * 0x1_0000 + 0xFFFF - time) % 0x1_0000_0000
  {
    var k := time / 0x1_0000_0000 - e / 0x1_0000;
    assert e % 0x1_0000 * 0x1_0000 + 0xFFFF - Ticks(time)
        == e * 0x1_0000 + 0xFFFF - time + k * 0x1_0000_0000;
    AddWraps(e * 0x1_0000 + 0xFFFF - time, k);
  }

  lemma AddWraps(x: int, k: int)
    ensures (x + k * 0x1_0000_0000) % 0x1_0000_0000 == x % 0x1_0000_0000
  {
  }

  lemma ExpiryIsUpperHalf(granted: nat)
    ensures ExpiryAt(granted) == (granted + LEASE_MS) / 0x1_0000 % 0x1_0000
  {
    var x := granted + LEASE_MS;
    AddWraps(Ticks(granted) + LEASE_MS, granted / 0x1_0000_0000);
    UpperHalf(x / 0x1_0000_0000, x % 0x1_0000_0000);
  }

  lemma UpperHalf(q: nat, r: nat)
    requires r < 0x1_0000_0000
    ensures (q * 0x1_0000_0000 + r) / 0x1_0000 % 0x1_0000 == r / 0x1_0000
  {
    assert (q * 0x1_0000_0000 + r) / 0x1_0000 == q * 0x1_0000 + r / 0x1_0000;
  }

  /** One moment past the window an expired lease counts as running again. */
  lemma ExpiryWindowIsTight(granted: nat)
    ensures !Expired(ExpiryAt(granted), Deadline(granted) + 0x8000_0001)
  {
    ExpiryByTurns(granted, Deadline(granted) + 0x8000_0001);
  }

  // ---------------------------------------------------------------- one message

  /** What a DISCOVER or a REQUEST does to the table. `readings[k]` is the time at slot `k`. */
  datatype Event =
    | Discover(mac: Mac, readings: seq<nat>)
    | Request(mac: Mac, slot: nat, time: nat)

  ghost predicate WellFormed(e: Event) {
    match e
    case Discover(_, readings) => |readings| == MAX_IP
    case Request(_, slot, _) => slot < MAX_IP
  }

  /** The least slot bound to `mac`, or the table's length. */
  function FindMac(leases: seq<Lease>, mac: Mac): (i: nat)
    ensures i <= |leases| && (i < |leases| ==> leases[i].mac == mac)
    ensures forall j :: 0 <= j < i ==> leases[j].mac != mac
  {
    if leases == [] || leases[0].mac == mac then 0 else 1 + FindMac(leases[1..], mac)
  }

  predicate Available(lease: Lease, time: nat) {
    lease.mac == ZERO_MAC || Expired(lease.expiry, time)
  }

  /** The least free or expired slot, or the table's length. */
  function FindAvailable(leases: seq<Lease>, readings: seq<nat>): (i: nat)
    requires |readings| == |leases|
    ensures i <= |leases| && (i < |leases| ==> Available(leases[i], readings[i]))
    ensures forall j :: 0 <= j < i ==> !Available(leases[j], readings[j])
  {
    if leases == [] || Available(leases[0], readings[0]) then 0 else 1 + FindAvailable(leases[1..], readings[1..])
  }

  /** The slot offered to a DISCOVER: the one bound to the client, else the first available. */
  function Offer(leases: seq<Lease>, mac: Mac, readings: seq<nat>): Option<nat>
    requires |readings| == |leases|
  {
    var bound := FindMac(leases, mac);
    var available := FindAvailable(leases, readings);
    if bound < |leases| then Some(bound) else if available < |leases| then Some(available) else None
  }

  function Clear(l: Lease): Lease {
    l.(mac := ZERO_MAC)
  }

  /** A DISCOVER clears the first available slot in front of the client's own one, if that slot is
      there because it expired. */
  function AfterDiscover(leases: seq<Lease>, mac: Mac, readings: seq<nat>): (r: seq<Lease>)
    requires |readings| == |leases|
    ensures |r| == |leases|
  {
    var i := FindAvailable(leases, readings);
    if i < |leases| && i < FindMac(leases, mac) && Expired(leases[i].expiry, readings[i])
    then leases[i := Clear(leases[i])]
    else leases
  }

  /** A REQUEST is granted on a slot that is the client's own or free. */
  predicate Grants(leases: seq<Lease>, mac: Mac, slot: nat)
    requires slot < |leases|
  {
    leases[slot].mac == mac || leases[slot].mac == ZERO_MAC
  }

  /** The table after an event. */
  function Next(leases: seq<Lease>, e: Event): (r: seq<Lease>)
    requires |leases| == MAX_IP && WellFormed(e)
    ensures |r| == MAX_IP
  {
    match e
    case Discover(mac, readings) => AfterDiscover(leases, mac, readings)
    case Request(mac, slot, time) =>
      if Grants(leases, mac, slot) then leases[slot := Lease(mac, ExpiryAt(time))] else leases
  }

  /** The slot named in the reply, if there is one. */
  function Answer(leases: seq<Lease>, e: Event): Option<nat>
    requires |leases| == MAX_IP && WellFormed(e)
  {
    match e
    case Discover(mac, readings) => Offer(leases, mac, readings)
    case Request(mac, slot, _) => if Grants(leases, mac, slot) then Some(slot) else None
  }

  /** A DISCOVER changes at most one slot, an expired one, and only by freeing it. */
  lemma DiscoverOnlyFreesExpired(leases: seq<Lease>, mac: Mac, readings: seq<nat>)
    requires |leases| == MAX_IP == |readings|
    ensures forall i :: 0 <= i < MAX_IP && AfterDiscover(leases, mac, readings)[i] != leases[i] ==>
      && Expired(leases[i].expiry, readings[i]) && leases[i].mac != mac
      && AfterDiscover(leases, mac, readings) == leases[i := Clear(leases[i])]
  {
  }

  // ---------------------------------------------------------------- whole runs

  function Run(leases: seq<Lease>, events: seq<Event>): (r: seq<Lease>)
    requires |leases| == MAX_IP && forall k :: 0 <= k < |events| ==> WellFormed(events[k])
    ensures |r| == MAX_IP
  {
    if events == [] then leases
    else Next(Run(leases, events[..|events| - 1]), events[|events| - 1])
  }

  function Times(e: Event): seq<nat> {
    match e
    case Discover(_, readings) => readings
    case Request(_, _, time) => [time]
  }

  /** All clock readings of the events in `events` lie in [from, to]. */
  ghost predicate Within(events: seq<Event>, from: nat, to: nat) {
    forall k :: 0 <= k < |events| ==> InWindow(events[k], from, to)
  }

  ghost predicate InWindow(e: Event, from: nat, to: nat) {
    forall x :: 0 <= x < |Times(e)| ==> from <= Times(e)[x] <= to
  }

  /** The clock never runs backwards from one event to the next. */
  ghost predicate Ordered(events: seq<Event>) {
    forall i, j :: 0 <= i < j < |events| ==> NotBefore(events[i], events[j])
  }

  ghost predicate NotBefore(e: Event, f: Event) {
    forall x, y :: 0 <= x < |Times(e)| && 0 <= y < |Times(f)| ==> Times(e)[x] <= Times(f)[y]
  }

  /** A slot held by `mac`: last granted at `granted`, at or after `since`. */
  predicate Held(leases: seq<Lease>, slot: nat, mac: Mac, since: nat, granted: nat)
    requires slot < |leases|
  {
    leases[slot] == Lease(mac, ExpiryAt(granted)) && since <= granted
  }

  lemma HeldSlotIsUnavailable(granted: nat, mac: Mac, time: nat)
    requires mac != ZERO_MAC && granted <= time <= granted + LEASE_MS
    ensures !Available(Lease(mac, ExpiryAt(granted)), time)
  {
    ExpiryIsExact(granted, time);
  }

  /** Within the lease time an event neither takes a held slot away nor names it to another client. */
  lemma HeldThroughEvent(leases: seq<Lease>, slot: nat, mac: Mac, since: nat, granted: nat, e: Event)
    returns (granted': nat)
    requires |leases| == MAX_IP && slot < MAX_IP && WellFormed(e) && mac != ZERO_MAC
    requires Held(leases, slot, mac, since, granted) && InWindow(e, granted, since + LEASE_MS)
    ensures Held(Next(leases, e), slot, mac, since, granted')
    ensures granted' == granted || (e.Request? && granted' == e.time)
    ensures Answer(leases, e) == Some(slot) ==> e.mac == mac
  {
    granted' := granted;
    match e
    case Discover(other, readings) =>
      assert granted <= Times(e)[slot] <= since + LEASE_MS;
      HeldSlotIsUnavailable(granted, mac, readings[slot]);
    case Request(other, s, time) =>
      assert granted <= Times(e)[0] <= since + LEASE_MS;
      if s == slot && Grants(leases, other, s) {
        granted' := time;
      }
  }

  lemma {:induction false} HeldThroughRun(leases: seq<Lease>, slot: nat, mac: Mac, since: nat, events: seq<Event>)
    returns (granted: nat)
    requires |leases| == MAX_IP && slot < MAX_IP && mac != ZERO_MAC
    requires forall k :: 0 <= k < |events| ==> WellFormed(events[k])
    requires Ordered(events) && Within(events, since, since + LEASE_MS)
    requires Held(leases, slot, mac, since, since)
    ensures Held(Run(leases, events), slot, mac, since, granted)
    ensures granted == since || exists k :: 0 <= k < |events| && events[k].Request? && granted == events[k].time
  {
    granted := since;
    if events != [] {
      var n := |events| - 1;
      var before := HeldThroughRun(leases, slot, mac, since, events[..n]);
      InWindowFrom(events, since, before);
      granted := HeldThroughEvent(Run(leases, events[..n]), slot, mac, since, before, events[n]);
    }
  }

  lemma InWindowFrom(events: seq<Event>, since: nat, granted: nat)
    requires events != [] && Ordered(events) && Within(events, since, since + LEASE_MS)
    requires var n := |events| - 1;
      granted == since
      || exists k :: 0 <= k < n && events[..n][k].Request? && granted == events[..n][k].time
    ensures InWindow(events[|events| - 1], granted, since + LEASE_MS)
  {
    var n := |events| - 1;
    assert InWindow(events[n], since, since + LEASE_MS);
    if granted != since {
      var k :| 0 <= k < n && events[..n][k].Request? && granted == events[..n][k].time;
      assert NotBefore(events[k], events[n]) && Times(events[k])[0] == granted;
    }
  }

  /** No double allocation. On any table and for any events on a clock that never runs backwards:
      once a REQUEST of a client with a non-zero MAC was granted a slot, no other client is
      acknowledged or offered that slot within the next 24 hours. */
  lemma NoDoubleAllocation(leases: seq<Lease>, mac: Mac, slot: nat, time: nat, between: seq<Event>, last: Event)
    requires |leases| == MAX_IP && slot < MAX_IP && mac != ZERO_MAC
    requires Answer(leases, Request(mac, slot, time)) == Some(slot)
    requires forall k :: 0 <= k < |between| ==> WellFormed(between[k])
    requires WellFormed(last) && Ordered([Request(mac, slot, time)] + between + [last])
    requires InWindow(last, 0, time + LEASE_MS)
    ensures var granted := Next(leases, Request(mac, slot, time));
      Answer(Run(granted, between), last) == Some(slot) ==> last.mac == mac
  {
    var first := Request(mac, slot, time);
    var granted := Next(leases, first);
    EventsLieBetween(first, between, last, time);
    OrderedParts(first, between, last);
    var events := between + [last];
    assert events[..|between|] == between;
    var g := HeldThroughRun(granted, slot, mac, time, between);
    InWindowFrom(events, time, g);
    var _ := HeldThroughEvent(Run(granted, between), slot, mac, time, g, last);
  }

  lemma OrderedParts(first: Event, between: seq<Event>, last: Event)
    requires Ordered([first] + between + [last])
    ensures Ordered(between + [last]) && Ordered(between)
  {
    var all := [first] + between + [last];
    var events := between + [last];
    forall i, j | 0 <= i < j < |events|
      ensures NotBefore(events[i], events[j])
    {
      assert events[i] == all[i + 1] && events[j] == all[j + 1];
    }
    forall i, j | 0 <= i < j < |between|
      ensures NotBefore(between[i], between[j])
    {
      assert between[i] == events[i] && between[j] == events[j];
    }
  }

  lemma EventsLieBetween(first: Event, between: seq<Event>, last: Event, time: nat)
    requires first.Request? && first.time == time && WellFormed(last)
    requires Ordered([first] + between + [last]) && InWindow(last, 0, time + LEASE_MS)
    ensures Within(between + [last], time, time + LEASE_MS) && Within(between, time, time + LEASE_MS)
  {
    var all := [first] + between + [last];
    var n := |between|;
    assert all[0] == first && all[n + 1] == last && Times(first)[0] == time;
    assert |Times(last)| > 0;
    forall k | 0 <= k < |between + [last]|
      ensures InWindow((between + [last])[k], time, time + LEASE_MS)
    {
      assert (between + [last])[k] == all[k + 1];
      assert NotBefore(all[0], all[k + 1]);
      if k < n {
        assert NotBefore(all[k + 1], all[n + 1]);
        assert Times(last)[0] <= time + LEASE_MS;
      }
    }
    forall k | 0 <= k < n
      ensures InWindow(between[k], time, time + LEASE_MS)
    {
      assert (between + [last])[k] == between[k];
    }
  }

  /** A client with an all-zero MAC gets no protection: its slot looks free and goes to the next. */
  lemma ZeroMacIsNotProtected(mac: Mac, slot: nat, time: nat)
    requires slot < MAX_IP
    ensures var empty := seq(MAX_IP, _ => FREE);
      && Answer(empty, Request(ZERO_MAC, slot, time)) == Some(slot)
      && Answer(Next(empty, Request(ZERO_MAC, slot, time)), Request(mac, slot, time)) == Some(slot)
  {
  }
}

/** Reading and writing DHCP options (src/dhcpserver.c; section 2 of RFC 2132). */
module DhcpOptions {
  import opened Prelude

  /** The option area behind the magic cookie. */
  const OPTIONS_SIZE: nat := 308
  const OPT_END: byte := 255

  /** An option with its code and value. */
  datatype Opt = Opt(code: byte, data: seq<byte>)

  /** What the wire format can carry. */
  predicate Encodable(o: Opt) {
    o.code != OPT_END && |o.data| <= 255
  }

  function EncodeOne(o: Opt): seq<byte>
    requires Encodable(o)
  {
    [o.code, |o.data|] + o.data
  }

  function Encode(options: seq<Opt>): seq<byte>
    requires forall k :: 0 <= k < |options| ==> Encodable(options[k])
  {
    if options == [] then [] else EncodeOne(options[0]) + Encode(options[1..])
  }

  /** `opt_find` from offset `i` on: the offset of the first option with code `cmd`. */
  function FindFrom(opt: seq<byte>, i: nat, cmd: byte): (r: Option<nat>)
    requires OPTIONS_SIZE < |opt|
    ensures r.Some? ==> i <= r.value < OPTIONS_SIZE && opt[r.value] == cmd
    decreases OPTIONS_SIZE - i
  {
    if i >= OPTIONS_SIZE || opt[i] == OPT_END then None
    else if opt[i] == cmd then Some(i)
    else FindFrom(opt, i + 2 + opt[i + 1], cmd)
  }

  function Find(opt: seq<byte>, cmd: byte): Option<nat>
    requires OPTIONS_SIZE < |opt|
  {
    FindFrom(opt, 0, cmd)
  }

  /** The reference: the first option of a parsed list with this code. */
  function Lookup(options: seq<Opt>, cmd: byte): Option<seq<byte>> {
    if options == [] then None
    else if options[0].code == cmd then Some(options[0].data)
    else Lookup(options[1..], cmd)
  }

  /** The option area holds the encoded list from offset `i` on, ended by the end mark. */
  ghost predicate HoldsFrom(opt: seq<byte>, i: nat, options: seq<Opt>) {
    && (forall k :: 0 <= k < |options| ==> Encodable(options[k]))
    && i + |Encode(options)| < OPTIONS_SIZE < |opt|
    && opt[i..i + |Encode(options)|] == Encode(options)
    && opt[i + |Encode(options)|] == OPT_END
  }

  /** On an option list without pad bytes the search is the lookup in the list: it finds an option
      exactly when the list has one, and what it finds is the first one's value. */
  lemma {:induction false} FindIsLookup(opt: seq<byte>, i: nat, options: seq<Opt>, cmd: byte)
    requires HoldsFrom(opt, i, options) && cmd != OPT_END
    ensures FindFrom(opt, i, cmd).Some? <==> Lookup(options, cmd).Some?
    ensures FindFrom(opt, i, cmd).Some? ==>
      var k, data := FindFrom(opt, i, cmd).value, Lookup(options, cmd).value;
      opt[k + 1] == |data| && k + 2 + |data| <= |opt| && opt[k + 2..k + 2 + |data|] == data
    decreases |options|
  {
    if options != [] {
      HeadOption(opt, i, options);
      if options[0].code != cmd {
        FindIsLookup(opt, i + 2 + |options[0].data|, options[1..], cmd);
      }
    }
  }

  lemma HeadOption(opt: seq<byte>, i: nat, options: seq<Opt>)
    requires HoldsFrom(opt, i, options) && options != []
    ensures var o := options[0];
      && opt[i] == o.code && opt[i + 1] == |o.data| && opt[i + 2..i + 2 + |o.data|] == o.data
      && HoldsFrom(opt, i + 2 + |o.data|, options[1..])
  {
    var o := options[0];
    var area, rest := opt[i..i + |Encode(options)|], Encode(options[1..]);
    assert area == [o.code, |o.data|] + o.data + rest;
    assert opt[i] == area[0] && opt[i + 1] == area[1];
    assert area[2..2 + |o.data|] == o.data && area[2 + |o.data|..|area|] == rest;
    SliceOfSlice(opt, i, i + |area|, 2, 2 + |o.data|);
    SliceOfSlice(opt, i, i + |area|, 2 + |o.data|, |area|);
  }

  lemma SliceOfSlice(s: seq<byte>, lo: nat, hi: nat, a: nat, b: nat)
    requires lo <= hi <= |s| && a <= b <= hi - lo
    ensures s[lo..hi][a..b] == s[lo + a..lo + b]
  {
    forall k | 0 <= k < b - a
      ensures s[lo..hi][a..b][k] == s[lo + a..lo + b][k]
    {
      assert s[lo..hi][a..b][k] == s[lo..hi][a + k] == s[lo + a + k];
    }
  }

  // ---------------------------------------------------------------- pad bytes

  /** An option with the number of pad bytes in front of it. A pad is a single zero byte. */
  datatype Padded = Padded(pads: nat, opt: Opt)

  predicate Legal(p: Padded) {
    Encodable(p.opt) && p.opt.code != 0
  }

  /** From offset `i` on the area holds the padded options, `tail` more pads and the end mark. */
  ghost predicate HoldsPadded(area: seq<byte>, i: nat, items: seq<Padded>, tail: nat)
    decreases items
  {
    if items == [] then
      && i + tail < OPTIONS_SIZE < |area| && area[i + tail] == OPT_END
      && (forall k :: i <= k < i + tail ==> area[k] == 0)
    else
      var p, at := items[0], i + items[0].pads;
      && Legal(p) && at + 2 + |p.opt.data| < OPTIONS_SIZE < |area|
      && (forall k :: i <= k < at ==> area[k] == 0)
      && area[at] == p.opt.code && area[at + 1] == |p.opt.data|
      && area[at + 2..at + 2 + |p.opt.data|] == p.opt.data
      && HoldsPadded(area, at + 2 + |p.opt.data|, items[1..], tail)
  }

  /** Where the k-th option starts. */
  function Place(i: nat, items: seq<Padded>, k: nat): nat
    requires k < |items|
    decreases k
  {
    var at := i + items[0].pads;
    if k == 0 then at else Place(at + 2 + |items[0].opt.data|, items[1..], k - 1)
  }

  ghost predicate DistinctCodes(items: seq<Padded>) {
    forall j, k :: 0 <= j < k < |items| ==> items[j].opt.code != items[k].opt.code
  }

  predicate EvenPads(items: seq<Padded>) {
    forall k :: 0 <= k < |items| ==> items[k].pads % 2 == 0
  }

  /** Every option is found, and at its own place, by a search from `i`. */
  ghost predicate AllInPlace(area: seq<byte>, i: nat, items: seq<Padded>)
    requires OPTIONS_SIZE < |area|
  {
    forall k :: 0 <= k < |items| ==> FindFrom(area, i, items[k].opt.code) == Some(Place(i, items, k))
  }

  /** Two pads read as an option with code 0 and no value, and are skipped. */
  lemma {:induction false} PadPairsAreSkipped(area: seq<byte>, i: nat, n: nat, cmd: byte)
    requires OPTIONS_SIZE < |area| && i + 2 * n < OPTIONS_SIZE && cmd != 0
    requires forall k :: i <= k < i + 2 * n ==> area[k] == 0
    ensures FindFrom(area, i, cmd) == FindFrom(area, i + 2 * n, cmd)
    decreases n
  {
    if n > 0 {
      PadPairsAreSkipped(area, i + 2, n - 1, cmd);
    }
  }

  /** A lone pad takes the code behind it for its length: the option behind it is never found at
      its place. */
  lemma LonePadHides(area: seq<byte>, i: nat, cmd: byte)
    requires OPTIONS_SIZE < |area| && i + 1 < OPTIONS_SIZE && cmd != 0 && area[i] == 0 && area[i + 1] == cmd
    ensures FindFrom(area, i, cmd) != Some(i + 1)
  {
  }

  lemma HeadDecides(area: seq<byte>, i: nat, items: seq<Padded>, tail: nat, cmd: byte)
    requires items != [] && HoldsPadded(area, i, items, tail) && cmd != 0
    ensures var p, at := items[0], i + items[0].pads;
      && (p.pads % 2 == 1 && cmd == p.opt.code ==> FindFrom(area, i, cmd) != Some(at))
      && (p.pads % 2 == 0 && cmd == p.opt.code ==> FindFrom(area, i, cmd) == Some(at))
      && (p.pads % 2 == 0 && cmd != p.opt.code ==>
            FindFrom(area, i, cmd) == FindFrom(area, at + 2 + |p.opt.data|, cmd))
  {
    var p, n := items[0], items[0].pads / 2;
    PadPairsAreSkipped(area, i, n, cmd);
    if p.pads % 2 == 1 && cmd == p.opt.code {
      LonePadHides(area, i + 2 * n, cmd);
    }
  }

  /** With distinct codes, every option is found at its own place exactly when each run of pads in
      front of an option is even. */
  lemma {:induction false} PadRunsDecide(area: seq<byte>, i: nat, items: seq<Padded>, tail: nat)
    requires HoldsPadded(area, i, items, tail) && DistinctCodes(items)
    ensures OPTIONS_SIZE < |area| && (AllInPlace(area, i, items) <==> EvenPads(items))
    decreases items
  {
    if items != [] {
      var p, rest := items[0], items[1..];
      var next := i + p.pads + 2 + |p.opt.data|;
      PadRunsDecide(area, next, rest, tail);
      HeadDecides(area, i, items, tail, p.opt.code);
      assert EvenPads(items) <==> p.pads % 2 == 0 && EvenPads(rest) by {
        assert forall k :: 0 <= k < |rest| ==> rest[k] == items[k + 1];
      }
      if p.pads % 2 == 1 {
        assert FindFrom(area, i, items[0].opt.code) != Some(Place(i, items, 0));
      } else {
        RestInPlace(area, i, items, tail);
      }
    }
  }

  lemma RestInPlace(area: seq<byte>, i: nat, items: seq<Padded>, tail: nat)
    requires items != [] && HoldsPadded(area, i, items, tail) && DistinctCodes(items) && items[0].pads % 2 == 0
    ensures AllInPlace(area, i, items) <==> AllInPlace(area, i + items[0].pads + 2 + |items[0].opt.data|, items[1..])
  {
    var rest, next := items[1..], i + items[0].pads + 2 + |items[0].opt.data|;
    HeadDecides(area, i, items, tail, items[0].opt.code);
    assert FindFrom(area, i, items[0].opt.code) == Some(Place(i, items, 0));
    forall k | 0 <= k < |rest|
      ensures FindFrom(area, i, items[k + 1].opt.code) == FindFrom(area, next, rest[k].opt.code)
      ensures Place(i, items, k + 1) == Place(next, rest, k) && rest[k].opt.code == items[k + 1].opt.code
    {
      LegalAt(area, next, rest, tail, k);
      HeadDecides(area, i, items, tail, items[k + 1].opt.code);
    }
    if AllInPlace(area, next, rest) {
      forall k | 0 <= k < |items|
        ensures FindFrom(area, i, items[k].opt.code) == Some(Place(i, items, k))
      {
        if k > 0 {
          assert FindFrom(area, next, rest[k - 1].opt.code) == Some(Place(next, rest, k - 1));
        }
      }
    }
  }

  lemma {:induction false} LegalAt(area: seq<byte>, i: nat, items: seq<Padded>, tail: nat, k: nat)
    requires HoldsPadded(area, i, items, tail) && k < |items|
    ensures Legal(items[k])
    decreases k
  {
    if k > 0 {
      LegalAt(area, i + items[0].pads + 2 + |items[0].opt.data|, items[1..], tail, k - 1);
    }
  }

  /** Where the search goes on after the first odd run of pads. The last pad of the run takes the
      byte behind it for its length, be it the code of an option or the end mark. */
  function Derails(i: nat, items: seq<Padded>, tail: nat): Option<nat>
    decreases items
  {
    if items == [] then if tail % 2 == 0 then None else Some(i + tail + 1 + OPT_END)
    else
      var at := i + items[0].pads;
      if items[0].pads % 2 == 1 then Some(at + 1 + items[0].opt.code)
      else Derails(at + 2 + |items[0].opt.data|, items[1..], tail)
  }

  /** One step of the search below: the first run of pads, and the option behind it. */
  lemma HeadSkipped(area: seq<byte>, i: nat, items: seq<Padded>, tail: nat, cmd: byte)
    requires items != [] && HoldsPadded(area, i, items, tail) && cmd != 0 && cmd != items[0].opt.code
    ensures var p, at := items[0], i + items[0].pads;
      FindFrom(area, i, cmd)
      == FindFrom(area, if p.pads % 2 == 1 then at + 1 + p.opt.code else at + 2 + |p.opt.data|, cmd)
  {
    PadPairsAreSkipped(area, i, items[0].pads / 2, cmd);
  }

  lemma TailSkipped(area: seq<byte>, i: nat, tail: nat, cmd: byte)
    requires HoldsPadded(area, i, [], tail) && cmd != 0
    ensures FindFrom(area, i, cmd) == if tail % 2 == 0 then None else FindFrom(area, i + tail + 1 + OPT_END, cmd)
  {
    PadPairsAreSkipped(area, i, tail / 2, cmd);
  }

  /** A code that no option has is searched for without success, except that an odd run of pads sends
      the search to another place, where it finds whatever it finds. */
  lemma {:induction false} AbsentIsSearched(area: seq<byte>, i: nat, items: seq<Padded>, tail: nat, cmd: byte)
    requires HoldsPadded(area, i, items, tail) && cmd != 0
    requires forall k :: 0 <= k < |items| ==> items[k].opt.code != cmd
    ensures OPTIONS_SIZE < |area|
    ensures var place := Derails(i, items, tail);
      FindFrom(area, i, cmd) == if place.None? then None else FindFrom(area, place.value, cmd)
    decreases items
  {
    if items == [] {
      TailSkipped(area, i, tail, cmd);
    } else {
      var next := i + items[0].pads + 2 + |items[0].opt.data|;
      HeadSkipped(area, i, items, tail, cmd);
      if items[0].pads % 2 == 0 {
        assert Derails(i, items, tail) == Derails(next, items[1..], tail);
        assert forall k :: 0 <= k < |items[1..]| ==> items[1..][k] == items[k + 1];
        AbsentIsSearched(area, next, items[1..], tail, cmd);
      } else {
        assert Derails(i, items, tail) == Some(i + items[0].pads + 1 + items[0].opt.code);
      }
    }
  }

  /** The offset of the end mark. */
  function EndPlace(i: nat, items: seq<Padded>, tail: nat): nat
    decreases items
  {
    if items == [] then i + tail
    else EndPlace(i + items[0].pads + 2 + |items[0].opt.data|, items[1..], tail)
  }

  lemma {:induction false} EndIsInside(area: seq<byte>, i: nat, items: seq<Padded>, tail: nat)
    requires HoldsPadded(area, i, items, tail)
    ensures i <= EndPlace(i, items, tail) < OPTIONS_SIZE < |area|
    ensures EvenPads(items) ==>
      Derails(i, items, tail) == if tail % 2 == 0 then None else Some(EndPlace(i, items, tail) + 256)
    decreases items
  {
    if items != [] {
      EndIsInside(area, i + items[0].pads + 2 + |items[0].opt.data|, items[1..], tail);
      assert forall k :: 0 <= k < |items[1..]| ==> items[1..][k] == items[k + 1];
    }
  }

  /** Only the bytes up to the end mark matter. */
  ghost predicate SameUpTo(a: seq<byte>, b: seq<byte>, end: nat) {
    |a| == |b| && forall k :: 0 <= k <= end && k < |a| ==> a[k] == b[k]
  }

  lemma {:induction false} HoldsElsewhere(a: seq<byte>, b: seq<byte>, i: nat, items: seq<Padded>, tail: nat)
    requires HoldsPadded(a, i, items, tail) && SameUpTo(a, b, EndPlace(i, items, tail))
    ensures HoldsPadded(b, i, items, tail)
    decreases items
  {
    EndIsInside(a, i, items, tail);
    if items != [] {
      var at := i + items[0].pads;
      var next := at + 2 + |items[0].opt.data|;
      EndIsInside(a, next, items[1..], tail);
      HoldsElsewhere(a, b, next, items[1..], tail);
      assert b[at + 2..next] == a[at + 2..next];
    }
  }

  /** With even runs in front of the options, no memory behind the end mark makes the search find a
      code that no option has, exactly when the run in front of the end mark is even too or the end
      mark stands in the last 256 bytes. */
  lemma NeverFoundIff(area: seq<byte>, i: nat, items: seq<Padded>, tail: nat, cmd: byte)
    requires HoldsPadded(area, i, items, tail) && EvenPads(items) && cmd != 0 && cmd != OPT_END
    requires forall k :: 0 <= k < |items| ==> items[k].opt.code != cmd
    ensures var end := EndPlace(i, items, tail);
      (forall memory | SameUpTo(area, memory, end) && OPTIONS_SIZE < |memory| :: FindFrom(memory, i, cmd) == None)
      <==> tail % 2 == 0 || end + 256 >= OPTIONS_SIZE
  {
    var end := EndPlace(i, items, tail);
    EndIsInside(area, i, items, tail);
    forall memory | SameUpTo(area, memory, end) && OPTIONS_SIZE < |memory|
      ensures FindFrom(memory, i, cmd) == if tail % 2 == 0 then None else FindFrom(memory, end + 256, cmd)
    {
      HoldsElsewhere(area, memory, i, items, tail);
      AbsentIsSearched(memory, i, items, tail, cmd);
    }
    if tail % 2 == 1 && end + 256 < OPTIONS_SIZE {
      var memory := area[end + 256 := cmd];
      assert SameUpTo(area, memory, end);
      assert FindFrom(memory, end + 256, cmd) == Some(end + 256);
    }
  }

  /** A legal message whose type stands behind one pad: the server finds no type in it. */
  lemma PadHidesTheNextOption(area: seq<byte>)
    requires OPTIONS_SIZE < |area| && area[..5] == [0, 53, 1, 1, OPT_END]
    requires forall k :: 5 <= k < |area| ==> area[k] == 0
    ensures HoldsPadded(area, 0, [Padded(1, Opt(53, [1]))], 0)
    ensures Find(area, 53) == None
  {
    var five := area[..5];
    assert area[0] == five[0] && area[1] == five[1] && area[2] == five[2] && area[3] == five[3] && area[4] == five[4];
    assert HoldsPadded(area, 4, [], 0);
    assert [Padded(1, Opt(53, [1]))][1..] == [];
  }

  // ---------------------------------------------------------------- in place

  method OptFind(opt: array<byte>, cmd: byte) returns (r: Option<nat>)
    requires OPTIONS_SIZE < opt.Length
    ensures r == Find(opt[..], cmd)
  {
    var i := 0;
    while i < OPTIONS_SIZE && opt[i] != OPT_END
      invariant Find(opt[..], cmd) == FindFrom(opt[..], i, cmd)
      decreases OPTIONS_SIZE - i
    {
      if opt[i] == cmd {
        return Some(i);
      }
      i := i + 2 + opt[i + 1];
    }
    return None;
  }

  /** `opt_write_n`, which `opt_write_u8` and `opt_write_u32` spell out for one and four bytes. */
  method OptWriteN(opt: array<byte>, pos: nat, o: Opt) returns (end: nat)
    requires Encodable(o) && pos + 2 + |o.data| <= opt.Length
    modifies opt
    ensures end == pos + 2 + |o.data| && opt[..end] == old(opt[..pos]) + EncodeOne(o)
    ensures opt[end..] == old(opt[..])[end..]
  {
    opt[pos] := o.code;
    opt[pos + 1] := |o.data|;
    forall i | 0 <= i < |o.data| {
      opt[pos + 2 + i] := o.data[i];
    }
    end := pos + 2 + |o.data|;
    assert opt[..pos] == old(opt[..pos]);
    assert opt[pos..end] == EncodeOne(o);
    assert opt[..end] == opt[..pos] + opt[pos..end];
  }

  method OptWriteU8(opt: array<byte>, pos: nat, cmd: byte, val: byte) returns (end: nat)
    requires cmd != OPT_END && pos + 3 <= opt.Length
    modifies opt
    ensures end == pos + 3 && opt[..end] == old(opt[..pos]) + EncodeOne(Opt(cmd, [val]))
    ensures opt[end..] == old(opt[..])[end..]
  {
    opt[pos], opt[pos + 1], opt[pos + 2] := cmd, 1, val;
    end := pos + 3;
    assert opt[..end] == opt[..pos] + opt[pos..end];
  }

  /** The bytes of a 32-bit value, highest first. */
  function BigEndian(val: Millis): seq<byte> {
    [val / 0x100_0000, val / 0x1_0000 % 256, val / 0x100 % 256, val % 256]
  }

  method OptWriteU32(opt: array<byte>, pos: nat, cmd: byte, val: Millis) returns (end: nat)
    requires cmd != OPT_END && pos + 6 <= opt.Length
    modifies opt
    ensures end == pos + 6 && opt[..end] == old(opt[..pos]) + EncodeOne(Opt(cmd, BigEndian(val)))
    ensures opt[end..] == old(opt[..])[end..]
  {
    opt[pos], opt[pos + 1] := cmd, 4;
    opt[pos + 2], opt[pos + 3] := val / 0x100_0000, val / 0x1_0000 % 256;
    opt[pos + 4], opt[pos + 5] := val / 0x100 % 256, val % 256;
    end := pos + 6;
    assert opt[..end] == opt[..pos] + opt[pos..end];
  }
}

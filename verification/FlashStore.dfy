/** The typed store at the end of the flash (include/persistent_storage.h), over NOR flash: erasing
    sets whole sectors to 0xFF and programming can only clear bits. */
module FlashStore {
  const SECTOR_SIZE: nat := 4096
  const MAX_WRITE_SIZE: nat := 2 * SECTOR_SIZE

  datatype Status = Ok | TooLarge | OutOfBounds | EraseFailed | ProgramFailed

  function SectorDown(i: nat): (r: nat)
    ensures r <= i < r + SECTOR_SIZE && r % SECTOR_SIZE == 0
  {
    i / SECTOR_SIZE * SECTOR_SIZE
  }

  function SectorUp(i: nat): (r: nat)
    ensures i <= r < i + SECTOR_SIZE && r % SECTOR_SIZE == 0
  {
    (i + SECTOR_SIZE - 1) / SECTOR_SIZE * SECTOR_SIZE
  }

  /** The size test before a write: the touched sectors have to fit the write buffer. */
  predicate Accepted(start: nat, size: nat) {
    SectorUp(start + size) - SectorDown(start) <= MAX_WRITE_SIZE
  }

  /** `flash` with the bytes from `start` on replaced by `data`. */
  function Splice<T>(flash: seq<T>, start: nat, data: seq<T>): (r: seq<T>)
    requires start + |data| <= |flash|
    ensures |r| == |flash|
  {
    flash[..start] + data + flash[start + |data|..]
  }

  /** `flash` with the sectors from `lo` to `hi` erased. */
  function Erased(flash: seq<bv8>, lo: nat, hi: nat): (r: seq<bv8>)
    requires lo <= hi <= |flash|
    ensures |r| == |flash|
  {
    seq(|flash|, i requires 0 <= i < |flash| => if lo <= i < hi then 0xFF else flash[i])
  }

  class PersistentStorage {
    const flash: array<bv8>
    const writeBuffer: array<bv8>
    const beginOffset: nat

    ghost predicate Valid() {
      && writeBuffer.Length == MAX_WRITE_SIZE && flash != writeBuffer
      && flash.Length % SECTOR_SIZE == 0 && beginOffset <= flash.Length
    }

    /** The store occupies the last `layoutSize` bytes of the flash. */
    constructor (flash: array<bv8>, layoutSize: nat)
      requires flash.Length % SECTOR_SIZE == 0 && layoutSize <= flash.Length
      ensures Valid() && this.flash == flash && beginOffset == flash.Length - layoutSize && fresh(writeBuffer)
    {
      this.flash := flash;
      writeBuffer := new bv8[MAX_WRITE_SIZE];
      beginOffset := flash.Length - layoutSize;
    }

    /** `write`: `offset` is the member's place in the layout. Whether the erase and the program
        call run at all is decided by the environment. */
    method Write(data: seq<bv8>, offset: nat, eraseRuns: bool, programRuns: bool) returns (status: Status)
      requires Valid() && |data| <= MAX_WRITE_SIZE && beginOffset + offset + |data| <= flash.Length
      modifies flash, writeBuffer
      ensures var start := beginOffset + offset;
        status == WriteStatus(start, |data|, eraseRuns, programRuns) &&
        flash[..] == Outcome(old(flash[..]), start, data, status)
    {
      status := WriteRange(data, beginOffset + offset, eraseRuns, programRuns);
    }

    /** The part `write` and `write_array_range` share: the touched sectors, the size test and the
        new bytes' place in the buffer. */
    method WriteRange(data: seq<bv8>, startData: nat, eraseRuns: bool, programRuns: bool) returns (status: Status)
      requires Valid() && startData + |data| <= flash.Length
      modifies flash, writeBuffer
      ensures status == WriteStatus(startData, |data|, eraseRuns, programRuns)
      ensures flash[..] == Outcome(old(flash[..]), startData, data, status)
    {
      var startPaged := SectorDown(startData);
      var endData := startData + |data|;
      var endPaged := SectorUp(endData);
      SectorUpStaysInside(endData, flash.Length);
      if endPaged - startPaged > MAX_WRITE_SIZE {
        return TooLarge;
      }
      CopyIn(data, startData - startPaged);
      status := WriteImpl(startPaged, startData, endData, endPaged, eraseRuns, programRuns, data);
    }

    method CopyIn(data: seq<bv8>, at: nat)
      requires at + |data| <= writeBuffer.Length
      modifies writeBuffer
      ensures writeBuffer[at..at + |data|] == data
    {
      forall i | 0 <= i < |data| {
        writeBuffer[at + i] := data[i];
      }
    }

    /** `write_array_range`: elements `startIdx` to `endIdx` of an array member of `size` elements. */
    method WriteArrayRange(data: seq<bv8>, offset: nat, size: nat, elementSize: nat, startIdx: nat, endIdx: nat,
                           eraseRuns: bool, programRuns: bool)
      returns (status: Status)
      requires Valid() && 0 < elementSize
      requires beginOffset + offset + size * elementSize <= flash.Length
      requires startIdx <= endIdx ==> |data| == elementSize * (endIdx - startIdx)
      modifies flash, writeBuffer
      ensures startIdx == endIdx ==> status == Ok && flash[..] == old(flash[..])
      ensures startIdx != endIdx && !(startIdx < endIdx <= size) ==>
        status == OutOfBounds && flash[..] == old(flash[..])
      ensures startIdx < endIdx <= size ==>
        var start := beginOffset + offset + startIdx * elementSize;
        start + |data| <= flash.Length &&
        status == WriteStatus(start, |data|, eraseRuns, programRuns) &&
        flash[..] == Outcome(old(flash[..]), start, data, status)
    {
      if startIdx == endIdx {
        return Ok;
      }
      if endIdx > size || startIdx > size || startIdx > endIdx {
        return OutOfBounds;
      }
      RangeInside(startIdx, endIdx, size, elementSize);
      status := WriteRange(data, beginOffset + offset + startIdx * elementSize, eraseRuns, programRuns);
    }

    /** `read` and `read_array_range`: a copy out of the mapped flash. */
    method Read(offset: nat, size: nat) returns (out: seq<bv8>)
      requires Valid() && beginOffset + offset + size <= flash.Length
      ensures out == flash[beginOffset + offset..beginOffset + offset + size]
    {
      out := flash[beginOffset + offset..beginOffset + offset + size];
    }

    /** `_write_impl`: completes the buffer with the neighbouring bytes of the touched sectors,
        erases the sectors and programs the buffer back. */
    method WriteImpl(startPaged: nat, startData: nat, endData: nat, endPaged: nat,
                     eraseRuns: bool, programRuns: bool, ghost data: seq<bv8>)
      returns (status: Status)
      requires Valid() && startPaged == SectorDown(startData) && endPaged == SectorUp(endData) <= flash.Length
      requires startData <= endData && endPaged - startPaged <= MAX_WRITE_SIZE
      requires writeBuffer[startData - startPaged..endData - startPaged] == data
      modifies flash, writeBuffer
      ensures status == WriteStatus(startData, |data|, eraseRuns, programRuns)
      ensures flash[..] == Outcome(old(flash[..]), startData, data, status)
    {
      FillBuffer(startPaged, startData, endData, endPaged, data);
      if !eraseRuns {
        return EraseFailed;
      }
      FlashRangeErase(startPaged, endPaged - startPaged);
      if !programRuns {
        return ProgramFailed;
      }
      Reprogram(old(flash[..]), startPaged, startData, endPaged, data);
      return Ok;
    }

    /** The program call on erased sectors. */
    method Reprogram(ghost was: seq<bv8>, startPaged: nat, startData: nat, endPaged: nat, ghost data: seq<bv8>)
      requires Valid() && startPaged % SECTOR_SIZE == 0 && endPaged % SECTOR_SIZE == 0 && |was| == flash.Length
      requires startPaged <= startData && startData + |data| <= endPaged <= flash.Length
      requires endPaged - startPaged <= MAX_WRITE_SIZE
      requires flash[..] == Erased(was, startPaged, endPaged)
      requires writeBuffer[..endPaged - startPaged]
            == was[startPaged..startData] + data + was[startData + |data|..endPaged]
      modifies flash
      ensures flash[..] == Splice(was, startData, data)
    {
      var size := endPaged - startPaged;
      ghost var erased := flash[..];
      assert erased[..startPaged] == was[..startPaged] && erased[endPaged..] == was[endPaged..];
      FlashRangeProgram(startPaged, size);
      assert flash[..startPaged] == erased[..startPaged] && flash[endPaged..] == erased[endPaged..];
      ProgrammedIsSplice(was, flash[..], writeBuffer[..size], startPaged, startData, endPaged, data);
    }

    method FillBuffer(startPaged: nat, startData: nat, endData: nat, endPaged: nat, ghost data: seq<bv8>)
      requires Valid() && startPaged <= startData <= endData <= endPaged <= flash.Length
      requires endPaged - startPaged <= MAX_WRITE_SIZE
      requires writeBuffer[startData - startPaged..endData - startPaged] == data
      modifies writeBuffer
      ensures writeBuffer[..endPaged - startPaged] == flash[startPaged..startData] + data + flash[endData..endPaged]
    {
      if startData != startPaged {
        forall i | 0 <= i < startData - startPaged {
          writeBuffer[i] := flash[startPaged + i];
        }
      }
      if endData != endPaged {
        forall i | 0 <= i < endPaged - endData {
          writeBuffer[endData - startPaged + i] := flash[endData + i];
        }
      }
      assert writeBuffer[..startData - startPaged] == flash[startPaged..startData];
      assert writeBuffer[startData - startPaged..endData - startPaged] == data;
      assert writeBuffer[endData - startPaged..endPaged - startPaged] == flash[endData..endPaged];
    }

    /** The flash's erase command, on whole sectors. */
    method FlashRangeErase(offset: nat, count: nat)
      requires offset % SECTOR_SIZE == 0 && count % SECTOR_SIZE == 0 && offset + count <= flash.Length
      modifies flash
      ensures flash[..] == Erased(old(flash[..]), offset, offset + count)
    {
      forall i | offset <= i < offset + count {
        flash[i] := 0xFF;
      }
    }

    /** The flash's program command: bits can only be cleared. */
    method FlashRangeProgram(offset: nat, count: nat)
      requires Valid() && offset % SECTOR_SIZE == 0 && count % SECTOR_SIZE == 0
      requires offset + count <= flash.Length && count <= MAX_WRITE_SIZE
      modifies flash
      ensures flash[..offset] == old(flash[..offset]) && flash[offset + count..] == old(flash[offset + count..])
      ensures forall i :: 0 <= i < count ==> flash[offset + i] == old(flash[offset + i]) & writeBuffer[i]
    {
      forall i | offset <= i < offset + count {
        flash[i] := flash[i] & writeBuffer[i - offset];
      }
    }
  }

  function WriteStatus(start: nat, size: nat, eraseRuns: bool, programRuns: bool): Status {
    if !Accepted(start, size) then TooLarge
    else if !eraseRuns then EraseFailed
    else if !programRuns then ProgramFailed
    else Ok
  }

  /** The flash after a write. Only a program call that does not run leaves neighbours lost: the
      sectors around the data then stay erased. */
  function Outcome(flash: seq<bv8>, start: nat, data: seq<bv8>, status: Status): seq<bv8>
    requires start + |data| <= |flash| && |flash| % SECTOR_SIZE == 0
  {
    SectorUpStaysInside(start + |data|, |flash|);
    match status
    case Ok => Splice(flash, start, data)
    case ProgramFailed => Erased(flash, SectorDown(start), SectorUp(start + |data|))
    case _ => flash
  }

  /** Programming over erased sectors stores the buffer, and the buffer holds the neighbours. */
  lemma ProgrammedIsSplice(was: seq<bv8>, after: seq<bv8>, buffer: seq<bv8>,
                           lo: nat, start: nat, hi: nat, data: seq<bv8>)
    requires lo <= start && start + |data| <= hi <= |was| == |after| && |buffer| == hi - lo
    requires after[..lo] == was[..lo] && after[hi..] == was[hi..]
    requires buffer == was[lo..start] + data + was[start + |data|..hi]
    requires forall i :: 0 <= i < hi - lo ==> after[lo + i] == 0xFF & buffer[i]
    ensures after == Splice(was, start, data)
  {
    assert after[lo..hi] == buffer;
    assert after == after[..lo] + after[lo..hi] + after[hi..];
  }

  lemma SectorUpStaysInside(i: nat, flashSize: nat)
    requires i <= flashSize && flashSize % SECTOR_SIZE == 0
    ensures SectorUp(i) <= flashSize
  {
  }

  lemma RangeInside(startIdx: nat, endIdx: nat, size: nat, elementSize: nat)
    requires startIdx <= endIdx <= size
    ensures startIdx * elementSize + elementSize * (endIdx - startIdx) == endIdx * elementSize <= size * elementSize
  {
  }

  /** A size is accepted at every place exactly when it is at most one sector and one byte. */
  lemma AlwaysAcceptedIff(size: nat)
    ensures (forall start: nat :: Accepted(start, size)) <==> size <= 4097
  {
    if size > 4097 {
      assert !Accepted(SECTOR_SIZE - 1, size);
    }
  }

  // ---------------------------------------------------------------- the store as a record

  datatype Member = Member(offset: nat, size: nat)

  /** The members lie inside the layout and do not overlap. */
  ghost predicate WellLaidOut(layout: seq<Member>, layoutSize: nat) {
    && (forall i :: 0 <= i < |layout| ==> layout[i].offset + layout[i].size <= layoutSize)
    && (forall i, j :: 0 <= i < |layout| && 0 <= j < |layout| && i != j ==> Disjoint(layout[i], layout[j]))
  }

  predicate Disjoint(a: Member, b: Member) {
    a.offset + a.size <= b.offset || b.offset + b.size <= a.offset
  }

  /** A call of `write` or `write_array_range` on a member, and whether its erase and its program
      run. */
  datatype Call =
    | WriteCall(k: nat, value: seq<bv8>, eraseRuns: bool, programRuns: bool)
    | RangeCall(k: nat, value: seq<bv8>, eraseRuns: bool, programRuns: bool,
                elementSize: nat, size: nat, startIdx: nat, endIdx: nat)

  /** What the types of the source demand of a call. */
  predicate WellTyped(layout: seq<Member>, c: Call) {
    && c.k < |layout|
    && match c
       case WriteCall(k, value, _, _) => |value| == layout[k].size <= MAX_WRITE_SIZE
       case RangeCall(k, value, _, _, elementSize, size, startIdx, endIdx) =>
         && 0 < elementSize && size * elementSize <= layout[k].size
         && (startIdx <= endIdx ==> |value| == elementSize * (endIdx - startIdx))
  }

  ghost predicate AllWellTyped(layout: seq<Member>, calls: seq<Call>) {
    forall c :: 0 <= c < |calls| ==> WellTyped(layout, calls[c])
  }

  /** Whether a call writes at all: an empty range and one out of bounds do not. */
  predicate Reaches(c: Call) {
    c.RangeCall? ==> c.startIdx < c.endIdx <= c.size
  }

  /** Where in its member a call writes. */
  function Place(c: Call): nat {
    if c.RangeCall? then c.startIdx * c.elementSize else 0
  }

  lemma PlaceInside(layout: seq<Member>, c: Call)
    requires WellTyped(layout, c) && Reaches(c)
    ensures Place(c) + |c.value| <= layout[c.k].size
  {
    if c.RangeCall? {
      RangeInside(c.startIdx, c.endIdx, c.size, c.elementSize);
    }
  }

  function StatusOf(begin: nat, layout: seq<Member>, c: Call): Status
    requires c.k < |layout|
  {
    WriteStatus(begin + layout[c.k].offset + Place(c), |c.value|, c.eraseRuns, c.programRuns)
  }

  /** The flash after the calls, as `Write` and `WriteArrayRange` leave it. */
  function RunFlash(flash: seq<bv8>, begin: nat, layout: seq<Member>, calls: seq<Call>): (r: seq<bv8>)
    requires |flash| % SECTOR_SIZE == 0 && begin <= |flash|
    requires WellLaidOut(layout, |flash| - begin) && AllWellTyped(layout, calls)
    ensures |r| == |flash|
  {
    if calls == [] then flash
    else ApplyCall(RunFlash(flash, begin, layout, calls[..|calls| - 1]), begin, layout, calls[|calls| - 1])
  }

  function ApplyCall(flash: seq<bv8>, begin: nat, layout: seq<Member>, c: Call): (r: seq<bv8>)
    requires |flash| % SECTOR_SIZE == 0 && begin <= |flash|
    requires WellLaidOut(layout, |flash| - begin) && WellTyped(layout, c)
    ensures |r| == |flash|
  {
    if !Reaches(c) then flash
    else
      PlaceInside(layout, c);
      Outcome(flash, begin + layout[c.k].offset + Place(c), c.value, StatusOf(begin, layout, c))
  }

  // A record of one value per member; no sectors, no buffer, no flash.

  ghost predicate Fits(record: seq<seq<bv8>>, layout: seq<Member>) {
    |record| == |layout| && forall i :: 0 <= i < |layout| ==> |record[i]| == layout[i].size
  }

  /** The same calls on a record. */
  function RunRecord(record: seq<seq<bv8>>, begin: nat, layout: seq<Member>, calls: seq<Call>): (r: seq<seq<bv8>>)
    requires Fits(record, layout) && AllWellTyped(layout, calls)
    ensures Fits(r, layout)
  {
    if calls == [] then record
    else ApplyToRecord(RunRecord(record, begin, layout, calls[..|calls| - 1]), begin, layout, calls[|calls| - 1])
  }

  /** A call that succeeds assigns to a part of one component. One whose program does not run loses
      the bytes of every component that lie in the sectors it touches. Any other changes nothing. */
  function ApplyToRecord(record: seq<seq<bv8>>, begin: nat, layout: seq<Member>, c: Call): (r: seq<seq<bv8>>)
    requires Fits(record, layout) && WellTyped(layout, c)
    ensures Fits(r, layout)
  {
    if !Reaches(c) then record
    else
      PlaceInside(layout, c);
      var start := begin + layout[c.k].offset + Place(c);
      match StatusOf(begin, layout, c)
      case Ok => record[c.k := Splice(record[c.k], Place(c), c.value)]
      case ProgramFailed => Lost(record, begin, layout, SectorDown(start), SectorUp(start + |c.value|))
      case _ => record
  }

  function Lost(record: seq<seq<bv8>>, begin: nat, layout: seq<Member>, lo: nat, hi: nat): (r: seq<seq<bv8>>)
    requires Fits(record, layout)
    ensures Fits(r, layout)
  {
    seq(|record|, i requires 0 <= i < |record| => LostWithin(record[i], begin + layout[i].offset, lo, hi))
  }

  /** `value`, stored at `at`, with its bytes from `lo` to `hi` gone. */
  function LostWithin(value: seq<bv8>, at: nat, lo: nat, hi: nat): (r: seq<bv8>)
    ensures |r| == |value|
  {
    seq(|value|, j requires 0 <= j < |value| => if lo <= at + j < hi then 0xFF else value[j])
  }

  function ReadMember(flash: seq<bv8>, begin: nat, m: Member): (r: seq<bv8>)
    requires begin + m.offset + m.size <= |flash|
    ensures |r| == m.size
  {
    flash[begin + m.offset..begin + m.offset + m.size]
  }

  function Snapshot(flash: seq<bv8>, begin: nat, layout: seq<Member>): (r: seq<seq<bv8>>)
    requires begin <= |flash| && WellLaidOut(layout, |flash| - begin)
    ensures Fits(r, layout)
  {
    seq(|layout|, i requires 0 <= i < |layout| => ReadMember(flash, begin, layout[i]))
  }

  /** What is read after a write: the new bytes in their place, and every other member as before. */
  lemma SpliceReadsBack(flash: seq<bv8>, begin: nat, m: Member, at: nat, value: seq<bv8>, other: Member)
    requires begin + m.offset + m.size <= |flash| && at + |value| <= m.size
    requires begin + other.offset + other.size <= |flash|
    ensures ReadMember(Splice(flash, begin + m.offset + at, value), begin, m)
         == Splice(ReadMember(flash, begin, m), at, value)
    ensures Disjoint(m, other) ==>
      ReadMember(Splice(flash, begin + m.offset + at, value), begin, other) == ReadMember(flash, begin, other)
  {
  }

  /** Any sequence of member and range writes, accepted, rejected or broken off, acts on the flash as
      on a record with independent members. In front of the store the flash keeps every byte, except
      that a program that does not run can lose bytes of the store's first sector. */
  lemma {:induction false} StoreRefinesRecord(flash: seq<bv8>, begin: nat, layout: seq<Member>, calls: seq<Call>)
    requires |flash| % SECTOR_SIZE == 0 && begin <= |flash|
    requires WellLaidOut(layout, |flash| - begin) && AllWellTyped(layout, calls)
    ensures Snapshot(RunFlash(flash, begin, layout, calls), begin, layout)
         == RunRecord(Snapshot(flash, begin, layout), begin, layout, calls)
    ensures SectorDown(begin) <= begin
      && RunFlash(flash, begin, layout, calls)[..SectorDown(begin)] == flash[..SectorDown(begin)]
    ensures (forall c :: 0 <= c < |calls| ==> calls[c].programRuns) ==>
      RunFlash(flash, begin, layout, calls)[..begin] == flash[..begin]
  {
    if calls != [] {
      var n := |calls| - 1;
      StoreRefinesRecord(flash, begin, layout, calls[..n]);
      CallRefines(RunFlash(flash, begin, layout, calls[..n]), begin, layout, calls[n]);
      CallKeepsFront(RunFlash(flash, begin, layout, calls[..n]), begin, layout, calls[n]);
    }
  }

  /** One call, accepted or not. */
  lemma CallRefines(flash: seq<bv8>, begin: nat, layout: seq<Member>, c: Call)
    requires |flash| % SECTOR_SIZE == 0 && begin <= |flash|
    requires WellLaidOut(layout, |flash| - begin) && WellTyped(layout, c)
    ensures Snapshot(ApplyCall(flash, begin, layout, c), begin, layout)
         == ApplyToRecord(Snapshot(flash, begin, layout), begin, layout, c)
  {
    if Reaches(c) {
      PlaceInside(layout, c);
      match StatusOf(begin, layout, c) {
        case Ok =>
          SpliceIsUpdate(flash, begin, layout, c.k, Place(c), c.value);
        case ProgramFailed =>
          var start := begin + layout[c.k].offset + Place(c);
          SectorUpStaysInside(start + |c.value|, |flash|);
          ErasedIsLost(flash, begin, layout, SectorDown(start), SectorUp(start + |c.value|));
        case _ =>
      }
    }
  }

  lemma CallKeepsFront(flash: seq<bv8>, begin: nat, layout: seq<Member>, c: Call)
    requires |flash| % SECTOR_SIZE == 0 && begin <= |flash|
    requires WellLaidOut(layout, |flash| - begin) && WellTyped(layout, c)
    ensures ApplyCall(flash, begin, layout, c)[..SectorDown(begin)] == flash[..SectorDown(begin)]
    ensures c.programRuns ==> ApplyCall(flash, begin, layout, c)[..begin] == flash[..begin]
  {
    if Reaches(c) {
      PlaceInside(layout, c);
      SectorDownGrows(begin, begin + layout[c.k].offset + Place(c));
    }
  }

  lemma SectorDownGrows(i: nat, j: nat)
    requires i <= j
    ensures SectorDown(i) <= SectorDown(j)
  {
  }

  lemma SpliceIsUpdate(flash: seq<bv8>, begin: nat, layout: seq<Member>, k: nat, at: nat, value: seq<bv8>)
    requires begin <= |flash| && WellLaidOut(layout, |flash| - begin)
    requires k < |layout| && at + |value| <= layout[k].size
    ensures begin + layout[k].offset + at + |value| <= |flash|
    ensures Snapshot(Splice(flash, begin + layout[k].offset + at, value), begin, layout)
         == Snapshot(flash, begin, layout)[k := Splice(Snapshot(flash, begin, layout)[k], at, value)]
  {
    var after := Splice(flash, begin + layout[k].offset + at, value);
    forall i | 0 <= i < |layout|
      ensures ReadMember(after, begin, layout[i])
           == if i == k then Splice(ReadMember(flash, begin, layout[k]), at, value)
              else ReadMember(flash, begin, layout[i])
    {
      SpliceReadsBack(flash, begin, layout[k], at, value, layout[i]);
    }
  }

  lemma ErasedIsLost(flash: seq<bv8>, begin: nat, layout: seq<Member>, lo: nat, hi: nat)
    requires begin <= |flash| && WellLaidOut(layout, |flash| - begin) && lo <= hi <= |flash|
    ensures Snapshot(Erased(flash, lo, hi), begin, layout)
         == Lost(Snapshot(flash, begin, layout), begin, layout, lo, hi)
  {
    forall i | 0 <= i < |layout|
      ensures ReadMember(Erased(flash, lo, hi), begin, layout[i])
           == LostWithin(ReadMember(flash, begin, layout[i]), begin + layout[i].offset, lo, hi)
    {
    }
  }

  // ---------------------------------------------------------------- elements of an array member

  function Element(v: seq<bv8>, elementSize: nat, e: nat): seq<bv8>
    requires e * elementSize + elementSize <= |v|
  {
    v[e * elementSize..e * elementSize + elementSize]
  }

  lemma Scales(a: nat, b: nat, elementSize: nat)
    requires a < b
    ensures a * elementSize + elementSize <= b * elementSize
    ensures (b - a) * elementSize == b * elementSize - a * elementSize
  {
    assert b * elementSize == a * elementSize + (b - a) * elementSize;
    assert (b - a) * elementSize == elementSize + (b - a - 1) * elementSize;
  }

  /** After a range write that succeeds, the elements of the range are the ones written, one by one, and
      every other element of the array is as before. */
  lemma RangeWritesElements(flash: seq<bv8>, begin: nat, layout: seq<Member>, c: Call, e: nat)
    requires |flash| % SECTOR_SIZE == 0 && begin <= |flash|
    requires WellLaidOut(layout, |flash| - begin) && WellTyped(layout, c) && c.RangeCall?
    requires c.startIdx < c.endIdx <= c.size && StatusOf(begin, layout, c) == Ok && e < c.size
    ensures e * c.elementSize + c.elementSize <= layout[c.k].size
    ensures c.startIdx <= e < c.endIdx ==> (e - c.startIdx) * c.elementSize + c.elementSize <= |c.value|
    ensures var after := ReadMember(ApplyCall(flash, begin, layout, c), begin, layout[c.k]);
      Element(after, c.elementSize, e)
      == if c.startIdx <= e < c.endIdx then Element(c.value, c.elementSize, e - c.startIdx)
         else Element(ReadMember(flash, begin, layout[c.k]), c.elementSize, e)
  {
    ElementInside(e, c);
    RangeIsSplice(flash, begin, layout, c);
    ElementOfPart(ReadMember(flash, begin, layout[c.k]), c, e);
  }

  lemma RangeIsSplice(flash: seq<bv8>, begin: nat, layout: seq<Member>, c: Call)
    requires |flash| % SECTOR_SIZE == 0 && begin <= |flash|
    requires WellLaidOut(layout, |flash| - begin) && WellTyped(layout, c) && c.RangeCall?
    requires c.startIdx < c.endIdx <= c.size && StatusOf(begin, layout, c) == Ok
    ensures c.startIdx * c.elementSize + |c.value| <= layout[c.k].size
    ensures ReadMember(ApplyCall(flash, begin, layout, c), begin, layout[c.k])
         == Splice(ReadMember(flash, begin, layout[c.k]), c.startIdx * c.elementSize, c.value)
  {
    PlaceInside(layout, c);
    SpliceReadsBack(flash, begin, layout[c.k], Place(c), c.value, layout[c.k]);
  }

  lemma ElementOfPart(v: seq<bv8>, c: Call, e: nat)
    requires c.RangeCall? && 0 < c.elementSize && c.startIdx < c.endIdx <= c.size && e < c.size
    requires c.startIdx * c.elementSize + |c.value| <= |v| && e * c.elementSize + c.elementSize <= |v|
    requires e < c.startIdx ==> e * c.elementSize + c.elementSize <= c.startIdx * c.elementSize
    requires e >= c.endIdx ==> c.startIdx * c.elementSize + |c.value| <= e * c.elementSize
    requires c.startIdx <= e < c.endIdx ==>
      && (e - c.startIdx) * c.elementSize == e * c.elementSize - c.startIdx * c.elementSize
      && (e - c.startIdx) * c.elementSize + c.elementSize <= |c.value|
    ensures Element(Splice(v, c.startIdx * c.elementSize, c.value), c.elementSize, e)
         == if c.startIdx <= e < c.endIdx then Element(c.value, c.elementSize, e - c.startIdx)
            else Element(v, c.elementSize, e)
  {
    WhichPart(v, c.startIdx * c.elementSize, c.value, e * c.elementSize, (e - c.startIdx) * c.elementSize,
              c.elementSize, c.startIdx, c.endIdx, e);
  }

  lemma WhichPart(v: seq<bv8>, at: nat, value: seq<bv8>, from: nat, within: int, n: nat, lo: nat, hi: nat, e: nat)
    requires at + |value| <= |v| && from + n <= |v| && 0 < n
    requires e < lo ==> from + n <= at
    requires e >= hi ==> at + |value| <= from
    requires lo <= e < hi ==> 0 <= within == from - at && within + n <= |value|
    ensures Splice(v, at, value)[from..from + n]
         == if lo <= e < hi then value[within..within + n] else v[from..from + n]
  {
    PartOfSplice(v, at, value, from, n);
  }

  lemma ElementInside(e: nat, c: Call)
    requires c.RangeCall? && c.startIdx < c.endIdx <= c.size && e < c.size
    requires |c.value| == c.elementSize * (c.endIdx - c.startIdx)
    ensures e * c.elementSize + c.elementSize <= c.size * c.elementSize
    ensures e < c.startIdx ==> e * c.elementSize + c.elementSize <= c.startIdx * c.elementSize
    ensures e >= c.endIdx ==> c.startIdx * c.elementSize + |c.value| <= e * c.elementSize
    ensures c.startIdx <= e < c.endIdx ==>
      && (e - c.startIdx) * c.elementSize == e * c.elementSize - c.startIdx * c.elementSize
      && (e - c.startIdx) * c.elementSize + c.elementSize <= |c.value|
  {
    var es := c.elementSize;
    Scales(e, c.size, es);
    Scales(c.startIdx, c.endIdx, es);
    if e < c.startIdx {
      Scales(e, c.startIdx, es);
    } else if e < c.endIdx {
      Scales(e - c.startIdx, c.endIdx - c.startIdx, es);
      if c.startIdx < e {
        Scales(c.startIdx, e, es);
      }
    } else if c.endIdx < e {
      Scales(c.endIdx, e, es);
    }
  }

  lemma PartOfSplice(v: seq<bv8>, at: nat, value: seq<bv8>, from: nat, n: nat)
    requires at + |value| <= |v| && from + n <= |v| && 0 < n
    requires from + n <= at || at + |value| <= from || (at <= from && from + n <= at + |value|)
    ensures Splice(v, at, value)[from..from + n]
         == if at <= from < at + |value| then value[from - at..from - at + n] else v[from..from + n]
  {
  }

  /** Any calls on a store, and then every member read back. */
  method ReplayStore(store: PersistentStorage, layout: seq<Member>, calls: seq<Call>)
    returns (values: seq<seq<bv8>>)
    requires store.Valid() && WellLaidOut(layout, store.flash.Length - store.beginOffset)
    requires AllWellTyped(layout, calls)
    modifies store.flash, store.writeBuffer
    ensures values
         == RunRecord(Snapshot(old(store.flash[..]), store.beginOffset, layout), store.beginOffset, layout, calls)
  {
    ghost var was := store.flash[..];
    for i := 0 to |calls|
      invariant store.flash[..] == RunFlash(was, store.beginOffset, layout, calls[..i])
    {
      assert calls[..i + 1][..i] == calls[..i];
      Perform(store, layout, calls[i]);
    }
    assert calls[..|calls|] == calls;
    StoreRefinesRecord(was, store.beginOffset, layout, calls);
    values := ReadAll(store, layout);
  }

  method Perform(store: PersistentStorage, layout: seq<Member>, c: Call)
    requires store.Valid() && WellLaidOut(layout, store.flash.Length - store.beginOffset) && WellTyped(layout, c)
    modifies store.flash, store.writeBuffer
    ensures store.flash[..] == ApplyCall(old(store.flash[..]), store.beginOffset, layout, c)
  {
    var offset := layout[c.k].offset;
    match c {
      case WriteCall(_, value, eraseRuns, programRuns) =>
        var _ := store.Write(value, offset, eraseRuns, programRuns);
      case RangeCall(_, value, eraseRuns, programRuns, elementSize, size, startIdx, endIdx) =>
        var _ := store.WriteArrayRange(value, offset, size, elementSize, startIdx, endIdx, eraseRuns, programRuns);
    }
  }

  method ReadAll(store: PersistentStorage, layout: seq<Member>) returns (values: seq<seq<bv8>>)
    requires store.Valid() && WellLaidOut(layout, store.flash.Length - store.beginOffset)
    ensures values == Snapshot(store.flash[..], store.beginOffset, layout)
  {
    values := [];
    for i := 0 to |layout|
      invariant values == Snapshot(store.flash[..], store.beginOffset, layout)[..i]
    {
      var value := store.Read(layout[i].offset, layout[i].size);
      values := values + [value];
    }
  }
}

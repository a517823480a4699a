/** The fixed-capacity containers of include/static_types.h. */
module StaticTypes {
  import opened Prelude

  /** `static_vector`: a size and a fixed storage block whose tail past the size is stale. */
  class StaticVector<T(0)> {
    const N: nat
    const storage: array<T>
    var curSize: int

    ghost predicate Valid()
      reads this
    {
      storage.Length == N && 0 <= curSize <= N
    }

    ghost function Contents(): seq<T>
      requires Valid()
      reads this, storage
    {
      storage[..curSize]
    }

    constructor (capacity: nat)
      ensures Valid() && fresh(storage) && N == capacity && Contents() == []
    {
      N := capacity;
      storage := new T[capacity];
      curSize := 0;
    }

    /** `operator[]`: an index outside the current size refers to slot 0. */
    function Slot(i: int): (k: nat)
      requires Valid() && 0 < N
      reads this
      ensures k < N
    {
      if i < 0 || i >= curSize then 0 else i
    }

    /** `push`: appends unless full, in which case nothing changes. */
    method Push(x: T) returns (ok: bool)
      requires Valid()
      modifies this`curSize, storage
      ensures Valid()
      ensures ok <==> |old(Contents())| < N
      ensures Contents() == if ok then old(Contents()) + [x] else old(Contents())
    {
      if curSize == N {
        return false;
      }
      storage[curSize] := x;
      curSize := curSize + 1;
      return true;
    }

    /** `pop`: gives the index of the slot just past the shortened contents. */
    method Pop() returns (end: nat)
      requires Valid()
      modifies this`curSize
      ensures Valid()
      ensures curSize == end == if old(curSize) == 0 then 0 else old(curSize) - 1
    {
      if curSize != 0 {
        curSize := curSize - 1;
      }
      end := curSize;
    }

    /** `resize`: growing exposes whatever the storage held. */
    method Resize(size: int) returns (ok: bool)
      requires Valid()
      modifies this`curSize
      ensures Valid()
      ensures ok <==> 0 <= size <= N
      ensures curSize == if ok then size else old(curSize)
    {
      if size > N || size < 0 {
        return false;
      }
      curSize := size;
      return true;
    }

    method Clear()
      requires Valid()
      modifies this`curSize
      ensures Valid() && Contents() == []
    {
      curSize := 0;
    }

    /** Swaps slot `i` with the last one and drops the last one: what `std::swap` with `pop` does. */
    method SwapOut(i: nat)
      requires Valid() && i < curSize
      modifies this`curSize, storage
      ensures Valid() && curSize == old(curSize) - 1
      ensures storage[..] == old(storage[..][i := storage[curSize - 1]][curSize - 1 := storage[i]])
    {
      storage[i], storage[curSize - 1] := storage[curSize - 1], storage[i];
      curSize := curSize - 1;
    }

    /** One iteration of `remove_if`, on the element at index `i`. */
    method RemoveStep(f: T -> bool, ghost was: seq<T>, i: nat) returns (ghost call: T)
      requires Valid() && i < curSize <= |was| <= storage.Length && Removed(f, was, storage[..], i + 1, curSize)
      modifies this`curSize, storage
      ensures Valid() && i <= curSize <= |was| && Removed(f, was, storage[..], i, curSize)
      ensures storage[|was|..] == old(storage[..])[|was|..]
      ensures call == old(storage[i]) && Reversed(was[i..]) == Reversed(was[i + 1..]) + [call]
    {
      ghost var before, size := storage[..], curSize;
      RemovedAt(f, was, before, i, size);
      call := storage[i];
      if f(storage[i]) {
        SwapOut(i);
        RemovedHit(f, was, before, storage[..], i, size);
      } else {
        RemovedMiss(f, was, before, i, size);
      }
    }

    /** `remove_if`: scans from the back, swapping each hit with the last element. `calls` lists
        the elements in the order in which the predicate was evaluated on them. */
    method RemoveIf(f: T -> bool) returns (ghost calls: seq<T>)
      requires Valid()
      modifies this`curSize, storage
      ensures Valid() && curSize <= old(curSize)
      ensures multiset(Contents()) == multiset(Reject(f, old(Contents())))
      ensures multiset(storage[curSize..old(curSize)]) == multiset(Filter(f, old(Contents())))
      ensures storage[old(curSize)..] == old(storage[curSize..])
      ensures calls == Reversed(old(Contents()))
    {
      ghost var was := Contents();
      calls := [];
      var i := curSize - 1;
      while i >= 0
        invariant -1 <= i < |was| && i + 1 <= curSize <= |was| <= storage.Length
        invariant Removed(f, was, storage[..], i + 1, curSize)
        invariant storage[|was|..] == old(storage[curSize..])
        invariant calls == Reversed(was[i + 1..])
      {
        ghost var call := RemoveStep(f, was, i);
        calls := calls + [call];
        i := i - 1;
      }
      RemovedAll(f, was, storage[..], curSize);
      assert was[0..] == was;
    }

    /** Scan state at index `i`: the prefix is untouched, the rest is split at `size` into the
        elements kept and the elements removed so far. */
    static ghost predicate Removed(f: T -> bool, was: seq<T>, s: seq<T>, i: nat, size: nat)
      requires i <= size <= |was| <= |s|
    {
      && s[..i] == was[..i]
      && multiset(s[i..size]) == multiset(Reject(f, was[i..]))
      && multiset(s[size..|was|]) == multiset(Filter(f, was[i..]))
    }

    static lemma RemovedAt(f: T -> bool, was: seq<T>, s: seq<T>, i: nat, size: nat)
      requires i < size <= |was| <= |s| && Removed(f, was, s, i + 1, size)
      ensures s[i] == was[i] && Reversed(was[i..]) == Reversed(was[i + 1..]) + [s[i]]
    {
    }

    static lemma RemovedAll(f: T -> bool, was: seq<T>, s: seq<T>, size: nat)
      requires size <= |was| <= |s| && Removed(f, was, s, 0, size)
      ensures multiset(s[..size]) == multiset(Reject(f, was))
      ensures multiset(s[size..|was|]) == multiset(Filter(f, was))
    {
    }

    /** Moving slot `i` behind the live range leaves that range the elements it had behind `i`. */
    static lemma SwappedRanges(s: seq<T>, t: seq<T>, i: nat, size: nat, n: nat)
      requires i < size <= n <= |s|
      requires t == s[i := s[size - 1]][size - 1 := s[i]]
      ensures t[..i] == s[..i]
      ensures multiset(t[i..size - 1]) == multiset(s[i + 1..size])
      ensures t[size - 1..n] == [s[i]] + s[size..n]
      ensures t[n..] == s[n..]
    {
      if i < size - 1 {
        assert s[i + 1..size] == s[i + 1..size - 1] + [s[size - 1]];
        assert t[i..size - 1] == [s[size - 1]] + s[i + 1..size - 1];
      }
    }

    static lemma RemovedHit(f: T -> bool, was: seq<T>, s: seq<T>, t: seq<T>, i: nat, size: nat)
      requires i < size <= |was| <= |s| && Removed(f, was, s, i + 1, size) && f(was[i])
      requires t == s[i := s[size - 1]][size - 1 := s[i]]
      ensures Removed(f, was, t, i, size - 1) && t[|was|..] == s[|was|..]
    {
      SwappedRanges(s, t, i, size, |was|);
      assert s[..i] == s[..i + 1][..i] == was[..i];
      assert s[i] == s[..i + 1][i] == was[i];
      assert was[i..][1..] == was[i + 1..];
      assert multiset(t[size - 1..|was|]) == multiset([was[i]]) + multiset(s[size..|was|]);
      assert Filter(f, was[i..]) == [was[i]] + Filter(f, was[i + 1..]);
    }

    static lemma RemovedMiss(f: T -> bool, was: seq<T>, s: seq<T>, i: nat, size: nat)
      requires i < size <= |was| <= |s| && Removed(f, was, s, i + 1, size) && !f(was[i])
      ensures Removed(f, was, s, i, size)
    {
      assert s[i] == s[..i + 1][i] == was[i];
      assert was[i..][1..] == was[i + 1..];
      assert s[..i] == s[..i + 1][..i];
      assert s[i..size] == [was[i]] + s[i + 1..size];
    }
  }

  /** `static_ring_buffer`: a push on a full buffer overwrites the oldest element. */
  class StaticRingBuffer<T(0)> {
    const N: nat
    const storage: array<T>
    var curStart: nat
    var curWrite: nat
    var full: bool
    /** Every value pushed since construction or the last `clear`. */
    ghost var pushed: seq<T>

    ghost predicate Valid()
      reads this, storage
    {
      && 0 < N == storage.Length && curWrite < N
      && curStart == (if full then curWrite else 0)
      && (full <==> N <= |pushed|)
      && Latest() == if full then storage[curWrite..] + storage[..curWrite] else storage[..curWrite]
    }

    /** What the buffer stands for: the last `min(n, N)` of the `n` values pushed. */
    ghost function Latest(): seq<T>
      reads this
    {
      LastOf(pushed, N)
    }

    /** The index after `i`, going around the end of the storage. */
    function Next(i: nat): (r: nat)
      requires i < N
      ensures r == if i + 1 == N then 0 else i + 1
    {
      (i + 1) % N
    }

    function Previous(i: nat): (r: nat)
      requires i < N
      ensures r == if i == 0 then N - 1 else i - 1
    {
      (i + N - 1) % N
    }

    constructor (capacity: nat)
      requires 0 < capacity
      ensures Valid() && fresh(storage) && N == capacity && pushed == []
    {
      N := capacity;
      storage := new T[capacity];
      curStart, curWrite, full, pushed := 0, 0, false, [];
    }

    method Push(x: T)
      requires Valid()
      modifies this, storage
      ensures Valid() && pushed == old(pushed) + [x]
    {
      storage[curWrite] := x;
      if curStart == curWrite && full {
        curStart := Next(curStart);
      }
      curWrite := Next(curWrite);
      full := curStart == curWrite;
      pushed := pushed + [x];
    }

    method Clear()
      requires Valid()
      modifies this
      ensures Valid() && pushed == []
    {
      curStart, curWrite, full, pushed := 0, 0, false, [];
    }

    method Size() returns (n: int)
      requires Valid()
      ensures n == |Latest()|
    {
      n := if full then N else curWrite - curStart + (if curStart > curWrite then N else 0);
    }

    method Empty() returns (b: bool)
      requires Valid()
      ensures b <==> pushed == []
    {
      b := curStart == curWrite && !full;
    }

    /** `back`: the newest element, none when empty. */
    method Back() returns (r: Option<T>)
      requires Valid()
      ensures r == if pushed == [] then None else Some(pushed[|pushed| - 1])
    {
      if !full && curStart == curWrite {
        return None;
      }
      r := Some(storage[Previous(curWrite)]);
    }

    /** A range-based for loop: `begin` and `end` carry an index each, and comparing them looks at
        whether the first one has moved, which is what tells a full buffer from an empty one. */
    method Iterate() returns (visited: seq<T>)
      requires Valid()
      ensures visited == Latest()
    {
      visited := [];
      var cur, start := curStart, true;
      while !((!full || !start) && cur == curWrite)
        invariant |visited| <= |Latest()| && visited == Latest()[..|visited|]
        invariant start <==> visited == []
        invariant cur == if full && curStart + |visited| >= N then curStart + |visited| - N else curStart + |visited|
        decreases |Latest()| - |visited|
      {
        visited := visited + [storage[cur]];
        cur, start := Next(cur), false;
      }
    }
  }

  /** The last `n` elements, or all of them when there are fewer. */
  function LastOf<T>(s: seq<T>, n: nat): seq<T> {
    if |s| <= n then s else s[|s| - n..]
  }

  datatype RingOp<T> = PushOp(x: T) | ClearOp

  /** The values pushed by `ops` since the last clear among them. */
  function PushedSinceClear<T>(ops: seq<RingOp<T>>): seq<T> {
    if ops == [] then [] else
      match ops[|ops| - 1]
      case PushOp(x) => PushedSinceClear(ops[..|ops| - 1]) + [x]
      case ClearOp => []
  }

  /** Any sequence of pushes and clears, observed through iteration, `size`, `empty` and `back`. */
  method ReplayRing<T(0)>(capacity: nat, ops: seq<RingOp<T>>)
    returns (visited: seq<T>, size: int, empty: bool, back: Option<T>)
    requires 0 < capacity
    ensures visited == LastOf(PushedSinceClear(ops), capacity)
    ensures size == |visited| && (empty <==> visited == [])
    ensures back == if visited == [] then None else Some(visited[|visited| - 1])
  {
    var ring := new StaticRingBuffer<T>(capacity);
    for i := 0 to |ops|
      invariant ring.Valid() && ring.N == capacity && fresh(ring) && fresh(ring.storage)
      invariant ring.pushed == PushedSinceClear(ops[..i])
    {
      assert ops[..i + 1][..i] == ops[..i];
      match ops[i] {
        case PushOp(x) => ring.Push(x);
        case ClearOp => ring.Clear();
      }
    }
    assert ops[..|ops|] == ops;
    visited := ring.Iterate();
    size := ring.Size();
    empty := ring.Empty();
    back := ring.Back();
  }

  /** `static_string::append`: as much of `d` as fits behind what is there, so that a result cut short
      fills the string. */
  function Appended(s: string, d: string, capacity: nat): (r: string)
    requires |s| <= capacity
    ensures |r| <= capacity && s <= r
    ensures |s| + |d| <= capacity <==> r == s + d
    ensures r <= s + d && (r == s + d || |r| == capacity)
  {
    s + d[..if |d| <= capacity - |s| then |d| else capacity - |s|]
  }
}
